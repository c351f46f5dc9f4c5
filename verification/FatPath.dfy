/** Walking directories: fat32_resolve_path and fat32_change_dir downwards, build_path (kernel/utils.c) upwards. */
module FatPath {
  import opened Arithmetic
  import opened Options
  import opened FatLayout
  import opened FatTable
  import opened FatVolume
  import opened FatFile
  import opened FatDirectory
  import opened FatDeleted
  import opened FatDirOps

  // -------------------------------------------------------- directories by number

  /** Cluster c starts a chain. */
  ghost predicate IsDir(tab: seq<nat>, c: nat) {
    exists ch :: Chain(tab, ch) && ch[0] == c
  }

  ghost function DirChain(tab: seq<nat>, c: nat): (ch: seq<nat>)
    requires IsDir(tab, c)
    ensures Chain(tab, ch) && ch != [] && ch[0] == c
  {
    var ch :| Chain(tab, ch) && ch[0] == c;
    ch
  }

  /** A volume at rest: its geometry, its disk and the sectors that fail. */
  datatype Volume = Volume(g: Geometry, d: seq<Sector>, bad: set<nat>) {
    ghost predicate Valid() { Mounted(g, |d|) }

    ghost function Tab(): (tab: seq<nat>)
      requires Valid()
      ensures |tab| == 2 + g.clusters <= BAD && 0 < g.spc
    {
      Table(g, d, 0)
    }

    ghost predicate Dir(c: nat)
      requires Valid()
    {
      IsDir(Tab(), c)
    }

    ghost function ChainOf(c: nat): (ch: seq<nat>)
      requires Valid() && Dir(c)
      ensures Chain(Tab(), ch) && ch != [] && ch[0] == c && OnVolume(g, ch)
    {
      var ch := DirChain(Tab(), c);
      ChainOnVolume(g, Tab(), ch);
      ch
    }

    /** What fat32_list_dir shows; None when it fails. */
    ghost function Listing(c: nat, max: nat): Option<seq<Found>>
      requires Valid() && Dir(c)
    {
      if ListFails(g, d, bad, ChainOf(c), max) then None else Some(ListOf(DirSlots(g, d, ChainOf(c)), max))
    }

    /** What build_path, which asks fat32_read_dir for 32 slots, has to look through: nothing when that fails. */
    ghost function Shorts(c: nat): seq<Slot>
      requires Valid() && Dir(c)
    {
      if ReadFails(g, d, bad, ChainOf(c), 32) then [] else ReadOf(DirSlots(g, d, ChainOf(c)), 32)
    }
  }

  ghost function AtRest(v: FatVolume): Volume
    reads v.disk
  {
    Volume(v.g, v.disk[..], v.bad)
  }

  // ----------------------------------------------------------------- resolving

  predicate IsDirAttr(attr: byte) { Bit(attr, 0x10) }

  /** A buffer read as a C string: what comes before the terminator. */
  function BeforeNul(cs: seq<byte>): (r: seq<byte>)
    ensures r <= cs && 0 !in r && (|r| < |cs| ==> cs[|r|] == 0)
  {
    if cs == [] || cs[0] == 0 then [] else [cs[0]] + BeforeNul(cs[1..])
  }

  /** Equal up to case. */
  predicate SameName(a: seq<byte>, b: seq<byte>) { UpperAll(BeforeNul(a)) == UpperAll(BeforeNul(b)) }

  /** The first directory in the listing whose name is `path` up to case. */
  function FindDir(list: seq<Found>, path: seq<byte>): (i: nat)
    ensures i <= |list|
    ensures i < |list| ==> IsDirAttr(list[i].attr) && SameName(list[i].name, path)
    ensures forall j :: 0 <= j < i ==> !(IsDirAttr(list[j].attr) && SameName(list[j].name, path))
  {
    if list == [] then 0
    else if IsDirAttr(list[0].attr) && SameName(list[0].name, path) then 0
    else 1 + FindDir(list[1..], path)
  }

  predicate IsSlash(c: byte) { c == 0x5C || c == 0x2F }

  /** The path without a drive prefix. */
  function WithoutDrive(path: seq<byte>): seq<byte> {
    if |path| >= 3 && path[1] == 0x3A && IsSlash(path[2]) then path[3..] else path
  }

  /** The cluster a path names, seen from directory `current`. */
  ghost function Resolve(w: Volume, current: nat, path: seq<byte>): Option<nat>
    requires w.Valid() && w.Dir(current)
  {
    var p := WithoutDrive(path);
    if p == [] && p != path then Some(w.g.root)
    else if |p| == 1 && IsSlash(p[0]) then Some(w.g.root)
    else if p == [] || p == [0x2E] then Some(current)
    else if p == [0x2E, 0x2E] then
      var list := w.Listing(current, 2);
      if list.None? || |list.value| < 2 then None
      else if list.value[1].firstCluster == current || list.value[1].firstCluster == 0 then Some(w.g.root)
      else Some(list.value[1].firstCluster)
    else
      var list := w.Listing(current, 64);
      if list.None? then None
      else
        var i := FindDir(list.value, p);
        if i < |list.value| then Some(list.value[i].firstCluster) else None
  }

  /** strcasecmp_ascii, whose callers only ask whether it is 0. */
  method StrcasecmpAscii(a: seq<byte>, b: seq<byte>) returns (r: int)
    ensures r == 0 <==> SameName(a, b)
  {
    hide SameName, BeforeNul, Upper;
    var i := 0;
    while i < |a| && a[i] != 0 && i < |b| && b[i] != 0
      invariant i <= |BeforeNul(a)| && i <= |BeforeNul(b)| && forall j :: 0 <= j < i ==> Upper(a[j]) == Upper(b[j])
    {
      StringGoesOn(a, i);
      StringGoesOn(b, i);
      var ca, cb := Upper(a[i]), Upper(b[i]);
      if ca != cb {
        Differ(a, b, i);
        return ca as int - cb as int;
      }
      i := i + 1;
    }
    r := (if i < |a| then a[i] as int else 0) - (if i < |b| then b[i] as int else 0);
    Compared(a, b, i);
  }

  lemma Differ(a: seq<byte>, b: seq<byte>, i: nat)
    requires i < |BeforeNul(a)| && i < |BeforeNul(b)| && Upper(a[i]) != Upper(b[i])
    ensures !SameName(a, b)
  {
    assert UpperAll(BeforeNul(a))[i] == Upper(a[i]) && UpperAll(BeforeNul(b))[i] == Upper(b[i]);
  }

  /** Where one of two names that agree so far ends, both do or they differ. */
  lemma Compared(a: seq<byte>, b: seq<byte>, i: nat)
    requires i <= |BeforeNul(a)| && i <= |BeforeNul(b)| && forall j :: 0 <= j < i ==> Upper(a[j]) == Upper(b[j])
    requires !(i < |a| && a[i] != 0 && i < |b| && b[i] != 0)
    ensures (if i < |a| then a[i] else 0) == (if i < |b| then b[i] else 0) <==> SameName(a, b)
  {
    var x, y := BeforeNul(a), BeforeNul(b);
    if i < |a| && a[i] != 0 { StringGoesOn(a, i); }
    if i < |b| && b[i] != 0 { StringGoesOn(b, i); }
    hide BeforeNul;
    assert i == |x| == |y| ==> UpperAll(x) == UpperAll(y);
    assert |x| != |y| ==> |UpperAll(x)| != |UpperAll(y)|;
  }

  lemma {:induction false} StringGoesOn(cs: seq<byte>, i: nat)
    requires i < |cs| && cs[i] != 0 && i <= |BeforeNul(cs)|
    ensures i < |BeforeNul(cs)|
  {
  }

  /** The search of fat32_resolve_path for a directory of that name. */
  method SearchDir(list: seq<Found>, path: seq<byte>) returns (found: bool, target: nat)
    ensures var i := FindDir(list, path); found == (i < |list|) && (found ==> target == list[i].firstCluster)
  {
    target := 0;
    for i := 0 to |list|
      invariant forall j :: 0 <= j < i ==> !(IsDirAttr(list[j].attr) && SameName(list[j].name, path))
    {
      if IsDirAttr(list[i].attr) {
        var c := StrcasecmpAscii(list[i].name, path);
        if c == 0 { return true, list[i].firstCluster; }
      }
    }
    found := false;
  }

  // ------------------------------------------------- what a path means, said outright

  /** The same letter in either case, or the same character. */
  predicate SameLetter(a: byte, b: byte) { a == b || (97 <= a <= 122 && b == a - 32) || (97 <= b <= 122 && a == b - 32) }

  /** The name, which ends before the first NUL of its buffer, is n up to case, character by character. */
  ghost predicate Spells(buffer: seq<byte>, n: seq<byte>) {
    && |n| <= |buffer| && (|n| < |buffer| ==> buffer[|n|] == 0)
    && forall i :: 0 <= i < |n| ==> buffer[i] != 0 && SameLetter(buffer[i], n[i])
  }

  lemma {:induction false} UntilNul(cs: seq<byte>, n: nat)
    requires n <= |cs| && 0 !in cs[..n] && (n < |cs| ==> cs[n] == 0)
    ensures BeforeNul(cs) == cs[..n]
  {
    if n > 0 {
      assert cs[0] == cs[..n][0] && cs[1..][..n - 1] == cs[..n][1..];
      UntilNul(cs[1..], n - 1);
    }
  }

  lemma SameLetterIs(a: byte, b: byte)
    ensures SameLetter(a, b) <==> Upper(a) == Upper(b)
  {
  }

  /** strcasecmp_ascii finds two names equal exactly if they are spelt alike. */
  lemma SpelledAlike(buffer: seq<byte>, n: seq<byte>)
    requires 0 !in n
    ensures SameName(buffer, n) <==> Spells(buffer, n)
  {
    hide BeforeNul, SameLetter, Upper;
    UntilNul(n, |n|);
    assert n[..|n|] == n;
    var b := BeforeNul(buffer);
    forall x: byte, y: byte ensures SameLetter(x, y) <==> Upper(x) == Upper(y) { SameLetterIs(x, y); }
    if SameName(buffer, n) {
      forall i | 0 <= i < |n| ensures buffer[i] != 0 && SameLetter(buffer[i], n[i]) {
        assert UpperAll(b)[i] == UpperAll(n)[i] && b[i] == buffer[i];
        assert b[i] in b;
      }
    }
    if Spells(buffer, n) {
      UntilNul(buffer, |n|);
      assert UpperAll(b) == UpperAll(n);
    }
  }

  /** An entry that is a directory, attribute 0x10, and has the name. */
  ghost predicate IsSubdir(f: Found, n: seq<byte>) { f.attr / 16 % 2 == 1 && Spells(f.name, n) }

  /** What the name n, which has no drive prefix, leads to from a directory: nothing, or a cluster. */
  ghost predicate Means(w: Volume, current: nat, n: seq<byte>, t: Option<nat>)
    requires w.Valid() && w.Dir(current)
  {
    if n == [47] || n == [92] then t == Some(w.g.root)
    else if n == [] || n == [46] then t == Some(current)
    else if n == [46, 46] then
      match w.Listing(current, 2)
      case None => t == None
      case Some(list) =>
        if |list| < 2 then t == None
        else t == Some(if list[1].firstCluster in {0, current} then w.g.root else list[1].firstCluster)
    else
      match w.Listing(current, 64)
      case None => t == None
      case Some(list) =>
        if t.None? then forall f :: f in list ==> !IsSubdir(f, n)
        else exists i :: 0 <= i < |list| && IsSubdir(list[i], n) && t.value == list[i].firstCluster
               && forall j :: 0 <= j < i ==> !IsSubdir(list[j], n)
  }

  /** The path begins with a drive: any character, a colon and a slash of either kind. */
  predicate OnDrive(path: seq<byte>) { |path| >= 3 && path[1] == 58 && path[2] in {47, 92} }

  /** What a path leads to: a drive alone to the root, any other to what it means without the drive. */
  ghost predicate LeadsTo(w: Volume, current: nat, path: seq<byte>, t: Option<nat>)
    requires w.Valid() && w.Dir(current)
  {
    if !OnDrive(path) then Means(w, current, path, t)
    else if |path| == 3 then t == Some(w.g.root)
    else Means(w, current, path[3..], t)
  }

  lemma ResolveMeans(w: Volume, current: nat, path: seq<byte>)
    requires w.Valid() && w.Dir(current) && 0 !in path
    ensures LeadsTo(w, current, path, Resolve(w, current, path))
  {
    hide Mounted, DirSlots, ListOf, IsDir, DirChain, ListFails, SameName, Spells, Volume.Listing;
    var p := WithoutDrive(path);
    assert p == if OnDrive(path) then path[3..] else path;
    assert forall x :: x in p ==> x in path;
    if w.Listing(current, 64).Some? {
      var list := w.Listing(current, 64).value;
      forall f | f in list ensures IsSubdir(f, p) <==> IsDirAttr(f.attr) && SameName(f.name, p) { SpelledAlike(f.name, p); }
      var i := FindDir(list, p);
      if i < |list| {
        assert list[i] in list;
        forall j | 0 <= j < i ensures !IsSubdir(list[j], p) { assert list[j] in list; }
      } else {
        forall f | f in list ensures !IsSubdir(f, p) { var j :| 0 <= j < |list| && list[j] == f; }
      }
    }
  }

  /** A path leads to one thing only. */
  lemma LeadsOnce(w: Volume, current: nat, path: seq<byte>, t: Option<nat>, t': Option<nat>)
    requires w.Valid() && w.Dir(current) && LeadsTo(w, current, path, t) && LeadsTo(w, current, path, t')
    ensures t == t'
  {
    hide Mounted, IsSubdir, IsDir, DirChain, Volume.Listing;
  }

  /** Behind a drive a name leads where it leads without one. */
  lemma DriveDropped(w: Volume, current: nat, drive: byte, slash: byte, n: seq<byte>, t: Option<nat>)
    requires w.Valid() && w.Dir(current) && slash in {47, 92} && n != [] && !OnDrive(n)
    ensures LeadsTo(w, current, [drive, 58, slash] + n, t) <==> LeadsTo(w, current, n, t)
  {
    hide Means, Mounted, IsDir;
    assert ([drive, 58, slash] + n)[3..] == n;
  }

  /** What fat32_change_dir answers and where it leaves the current directory, for a path that leads to t. */
  ghost predicate Moves(current: nat, t: Option<nat>, r: int, current': nat) {
    && r == (if t.None? then -1 else 0)
    && current' == if t.Some? && t.value >= 2 then t.value else current
  }

  /** fat32_resolve_path, whose current directory starts a chain. */
  method ResolvePath(v: FatVolume, path0: seq<byte>) returns (r: int, target: nat)
    requires v.Valid() && v.FatUsable() && AtRest(v).Dir(v.currentDir) && 0 !in path0
    modifies v`cachedFatSector, v`fatCache
    ensures v.Valid()
    ensures r == 0 || r == -1
    ensures var t := Resolve(AtRest(v), v.currentDir, path0);
      if t.None? then r == -1 else r == 0 && target == t.value
    ensures LeadsTo(AtRest(v), v.currentDir, path0, if r == 0 then Some(target) else None)
  {
    hide LeadsTo, Mounted, Table, DirSlots, Chain, OnVolume, ListFails, ListOf, FatVolume.Coherent, FindDir, IsDir;
    ghost var w := AtRest(v);
    ResolveMeans(w, v.currentDir, path0);
    ghost var ch := w.ChainOf(v.currentDir);
    var path := path0;
    target := 0;
    if |path| >= 3 && path[1] == 0x3A && IsSlash(path[2]) {
      if |path| == 3 { return 0, v.g.root; }
      path := path[3..];
    }
    if |path| == 1 && IsSlash(path[0]) { return 0, v.g.root; }
    if path == [] || path == [0x2E] { return 0, v.currentDir; }
    if path == [0x2E, 0x2E] {
      var n, list := ListDir(v, v.currentDir, 2, ch);
      if n < 2 { return -1, target; }
      target := list[1].firstCluster;
      if target == v.currentDir || target == 0 { target := v.g.root; }
      return 0, target;
    }
    var n, list := ListDir(v, v.currentDir, 64, ch);
    if n < 0 { return -1, target; }
    var found;
    found, target := SearchDir(list, path);
    r := if found then 0 else -1;
  }

  /** fat32_change_dir. */
  method ChangeDir(v: FatVolume, path: seq<byte>) returns (r: int)
    requires v.Valid() && v.FatUsable() && AtRest(v).Dir(v.currentDir) && 0 !in path
    modifies v`cachedFatSector, v`fatCache, v`currentDir
    ensures v.Valid()
    ensures var t := Resolve(AtRest(v), old(v.currentDir), path);
      && r == (if t.None? then -1 else 0)
      && v.currentDir == (if t.Some? && t.value >= 2 then t.value else old(v.currentDir))
    ensures exists t :: LeadsTo(AtRest(v), old(v.currentDir), path, t) && Moves(old(v.currentDir), t, r, v.currentDir)
    ensures path in {[47], [92]} || (OnDrive(path) && |path| == 3) ==> r == 0 && v.currentDir == v.g.root
    ensures path in {[], [46]} ==> r == 0 && v.currentDir == old(v.currentDir)
    ensures var list := AtRest(v).Listing(old(v.currentDir), 64);
      path !in {[], [46], [46, 46], [47], [92]} && !OnDrive(path) && (list.Some? ==> forall f :: f in list.value ==> !IsSubdir(f, path)) ==>
        r == -1 && v.currentDir == old(v.currentDir)
  {
    hide Mounted, IsDir, Volume.Listing, FindDir, IsSubdir;
    ghost var w, current := AtRest(v), v.currentDir;
    RootNumber(w.g, |w.d|);
    var c;
    r, c := ResolvePath(v, path);
    if r == 0 && c >= 2 { v.currentDir := c; }
    ghost var t := Resolve(w, current, path);
    ResolveMeans(w, current, path);
    assert LeadsTo(w, current, path, t) && Moves(current, t, r, v.currentDir);
  }

  lemma RootNumber(g: Geometry, n: nat)
    requires Mounted(g, n)
    ensures g.root >= 2
  {
  }

  // --------------------------------------------------------------- the way up

  predicate IsDotDot(s: Slot) { s[0] == 0x2E && s[1] == 0x2E }

  /** First slot that starts with two dots, or the length. */
  function DotDotAt(slots: seq<Slot>): (i: nat)
    ensures i <= |slots| && (i < |slots| ==> IsDotDot(slots[i])) && forall j :: 0 <= j < i ==> !IsDotDot(slots[j])
  {
    if slots == [] || IsDotDot(slots[0]) then 0 else 1 + DotDotAt(slots[1..])
  }

  /** The parent a directory's slots name; the root when they name none or 0. */
  function ParentOf(slots: seq<Slot>, root: nat): nat {
    var i := DotDotAt(slots);
    if i < |slots| && FirstCluster(slots[i]) != 0 then FirstCluster(slots[i]) else root
  }

  predicate Leads(s: Slot, c: nat) { IsDirAttr(s[ATTR]) && FirstCluster(s) == c }

  /** First directory slot with cluster c, or the length. */
  function SlotFor(slots: seq<Slot>, c: nat): (i: nat)
    ensures i <= |slots| && (i < |slots| ==> Leads(slots[i], c)) && forall j :: 0 <= j < i ==> !Leads(slots[j], c)
  {
    if slots == [] || Leads(slots[0], c) then 0 else 1 + SlotFor(slots[1..], c)
  }

  function NonBlank(cs: seq<byte>): seq<byte> {
    if cs == [] then [] else (if cs[0] != 32 && cs[0] != 0 then [cs[0]] else []) + NonBlank(cs[1..])
  }

  /** The name under which a directory's slots list cluster c, without its blanks. */
  function NameFor(slots: seq<Slot>, c: nat): seq<byte> {
    var i := SlotFor(slots, c);
    if i < |slots| then NonBlank(slots[i][..8]) else []
  }

  /** The parent directory of c, as build_path finds it. */
  ghost function Parent(w: Volume, c: nat): nat
    requires w.Valid() && w.Dir(c)
  {
    ParentOf(w.Shorts(c), w.g.root)
  }

  /** For n steps the way from c to the root stays among clusters that start a chain. */
  ghost predicate Climbable(w: Volume, c: nat, n: nat)
    requires w.Valid()
    decreases n
  {
    c == w.g.root || n == 0 || (w.Dir(c) && w.Dir(Parent(w, c)) && Climbable(w, Parent(w, c), n - 1))
  }

  /** The names on the way from c to the root, c's own first, at most n of them, as long as it is a way. */
  ghost function PathUp(w: Volume, c: nat, n: nat): seq<seq<byte>>
    requires w.Valid()
    decreases n
  {
    if c == w.g.root || n == 0 || !w.Dir(c) || !w.Dir(Parent(w, c)) then []
    else [NameFor(w.Shorts(Parent(w, c)), c)] + PathUp(w, Parent(w, c), n - 1)
  }

  lemma {:induction false} NonBlankSnoc(cs: seq<byte>, c: byte)
    ensures NonBlank(cs + [c]) == NonBlank(cs) + (if c != 32 && c != 0 then [c] else [])
  {
    if cs == [] {
      assert cs + [c] == [c];
    } else {
      assert (cs + [c])[0] == cs[0] && (cs + [c])[1..] == cs[1..] + [c];
      NonBlankSnoc(cs[1..], c);
      var head := if cs[0] != 32 && cs[0] != 0 then [cs[0]] else [];
      assert NonBlank(cs + [c]) == head + NonBlank(cs[1..] + [c]);
    }
  }

  /** The search of build_path for "..". */
  method FindParent(entries: seq<Slot>, root: nat) returns (parent: nat)
    ensures parent == ParentOf(entries, root)
  {
    parent := root;
    for i := 0 to |entries|
      invariant parent == root && forall j :: 0 <= j < i ==> !IsDotDot(entries[j])
    {
      if entries[i][0] == 0x2E && entries[i][1] == 0x2E {
        parent := FirstCluster(entries[i]);
        if parent == 0 { parent := root; }
        return;
      }
    }
  }

  /** The search of build_path for the entry of `cur` in its parent. */
  method FindName(pentries: seq<Slot>, cur: nat) returns (name: seq<byte>)
    ensures name == NameFor(pentries, cur)
  {
    name := [];
    for i := 0 to |pentries|
      invariant name == [] && forall j :: 0 <= j < i ==> !Leads(pentries[j], cur)
    {
      if IsDirAttr(pentries[i][ATTR]) && FirstCluster(pentries[i]) == cur {
        var raw := pentries[i][..8];
        for j := 0 to 8
          invariant name == NonBlank(raw[..j])
        {
          assert raw[..j + 1] == raw[..j] + [raw[j]];
          NonBlankSnoc(raw[..j], raw[j]);
          if raw[j] != 32 && raw[j] != 0 { name := name + [raw[j]]; }
        }
        assert raw[..8] == raw;
        return;
      }
    }
  }

  /** fat32_read_dir as build_path calls it. */
  method ReadShorts(v: FatVolume, c: nat) returns (entries: seq<Slot>)
    requires v.Valid() && v.FatUsable() && AtRest(v).Dir(c)
    modifies v`cachedFatSector, v`fatCache
    ensures v.Valid() && entries == AtRest(v).Shorts(c)
  {
    hide Mounted, Table, DirSlots, Chain, OnVolume, ReadFails, FatVolume.Coherent, ReadOf, IsDir;
    ghost var w := AtRest(v);
    var n;
    n, entries := ReadDir(v, c, 32, w.ChainOf(c));
    if n < 0 { entries := []; }
  }

  // ------------------------------------------------- the way up, said outright

  /** The number in a slot's bytes 26-27 and 20-21. */
  function ClusterIn(s: Slot): nat { s[26] as int + 0x100 * s[27] as int + 0x1_0000 * s[20] as int + 0x100_0000 * s[21] as int }

  /** The first slot that begins with two dots names the parent, 0 standing for the root; without one it is the root. */
  ghost predicate HasParent(slots: seq<Slot>, root: nat, p: nat) {
    || (p == root && forall i :: 0 <= i < |slots| ==> !(slots[i][0] == 46 && slots[i][1] == 46))
    || exists i :: 0 <= i < |slots| && slots[i][0] == 46 && slots[i][1] == 46
         && (forall j :: 0 <= j < i ==> !(slots[j][0] == 46 && slots[j][1] == 46))
         && p == if ClusterIn(slots[i]) == 0 then root else ClusterIn(slots[i])
  }

  /** The characters picked from the bytes are all but the blanks and zeros, in order. */
  ghost predicate PicksFrom(name: seq<byte>, raw: seq<byte>, at: seq<nat>) {
    && |at| == |name| && (forall i :: 0 <= i < |at| ==> at[i] < |raw| && name[i] == raw[at[i]])
    && (forall i, j :: 0 <= i < j < |at| ==> at[i] < at[j])
    && (forall k :: 0 <= k < |raw| ==> (k in at <==> raw[k] != 32 && raw[k] != 0))
  }

  ghost predicate Squeezed(name: seq<byte>, raw: seq<byte>) { exists at: seq<nat> :: PicksFrom(name, raw, at) }

  predicate IsDirOf(s: Slot, c: nat) { s[11] / 16 % 2 == 1 && ClusterIn(s) == c }

  /** The first directory slot with cluster c gives it its name; without one it has none. */
  ghost predicate HasName(slots: seq<Slot>, c: nat, name: seq<byte>) {
    || (name == [] && forall i :: 0 <= i < |slots| ==> !IsDirOf(slots[i], c))
    || exists i :: 0 <= i < |slots| && IsDirOf(slots[i], c) && (forall j :: 0 <= j < i ==> !IsDirOf(slots[j], c)) && Squeezed(name, slots[i][..8])
  }

  /** One step up from directory c, called `name`, to p. */
  ghost predicate StepUp(w: Volume, c: nat, p: nat, name: seq<byte>)
    requires w.Valid()
  {
    && c != w.g.root && w.Dir(c) && w.Dir(p)
    && HasParent(w.Shorts(c), w.g.root, p) && HasName(w.Shorts(p), c, name)
  }

  /** The names are those of the directories on the way up from c, which ends at the root or after n steps. */
  ghost predicate WayUp(w: Volume, c: nat, n: nat, path: seq<seq<byte>>, cs: seq<nat>)
    requires w.Valid()
  {
    && |cs| == |path| + 1 && cs[0] == c && |path| <= n && (|path| == n || cs[|path|] == w.g.root)
    && forall i :: 0 <= i < |path| ==> StepUp(w, cs[i], cs[i + 1], path[i])
  }

  lemma ParentIs(slots: seq<Slot>, root: nat)
    ensures HasParent(slots, root, ParentOf(slots, root))
  {
    var i := DotDotAt(slots);
    if i < |slots| { assert slots[i][0] == 46 && slots[i][1] == 46; }
  }

  lemma {:induction false} Squeeze(raw: seq<byte>) returns (at: seq<nat>)
    ensures PicksFrom(NonBlank(raw), raw, at)
  {
    if raw == [] {
      at := [];
    } else {
      var n := |raw| - 1;
      var at0 := Squeeze(raw[..n]);
      assert raw == raw[..n] + [raw[n]];
      NonBlankSnoc(raw[..n], raw[n]);
      if raw[n] != 32 && raw[n] != 0 {
        at := at0 + [n];
        PickOne(NonBlank(raw[..n]), raw[..n], at0, raw[n]);
      } else {
        at := at0;
        PassOne(NonBlank(raw[..n]), raw[..n], at0, raw[n]);
      }
    }
  }

  lemma PickOne(name: seq<byte>, raw: seq<byte>, at: seq<nat>, c: byte)
    requires PicksFrom(name, raw, at) && c != 32 && c != 0
    ensures PicksFrom(name + [c], raw + [c], at + [|raw|])
  {
    forall k | 0 <= k < |raw| + 1
      ensures k in at + [|raw|] <==> (raw + [c])[k] != 32 && (raw + [c])[k] != 0
    {
      if k < |raw| { assert k in at <==> raw[k] != 32 && raw[k] != 0; } else { assert (at + [|raw|])[|at|] == k; }
    }
  }

  lemma PassOne(name: seq<byte>, raw: seq<byte>, at: seq<nat>, c: byte)
    requires PicksFrom(name, raw, at) && (c == 32 || c == 0)
    ensures PicksFrom(name + [], raw + [c], at)
  {
    forall k | 0 <= k < |raw| + 1
      ensures k in at <==> (raw + [c])[k] != 32 && (raw + [c])[k] != 0
    {
      if k < |raw| { assert k in at <==> raw[k] != 32 && raw[k] != 0; }
    }
  }

  lemma NameIs(slots: seq<Slot>, c: nat)
    ensures HasName(slots, c, NameFor(slots, c))
  {
    hide Squeezed, PicksFrom;
    forall s: Slot ensures Leads(s, c) == IsDirOf(s, c) {}
    var i := SlotFor(slots, c);
    if i < |slots| {
      var at := Squeeze(slots[i][..8]);
      assert Squeezed(NonBlank(slots[i][..8]), slots[i][..8]) by { Picked(NonBlank(slots[i][..8]), slots[i][..8], at); }
    }
  }

  lemma Picked(name: seq<byte>, raw: seq<byte>, at: seq<nat>)
    requires PicksFrom(name, raw, at)
    ensures Squeezed(name, raw)
  {
    hide PicksFrom;
  }

  lemma {:induction false} PathUpIs(w: Volume, c: nat, n: nat) returns (cs: seq<nat>)
    requires w.Valid() && Climbable(w, c, n)
    ensures WayUp(w, c, n, PathUp(w, c, n), cs)
    decreases n
  {
    hide Mounted, IsDir, Volume.Shorts, HasParent, HasName, ParentOf, NameFor;
    if c == w.g.root || n == 0 {
      cs := [c];
    } else {
      var p := Parent(w, c);
      var rest := PathUpIs(w, p, n - 1);
      cs := [c] + rest;
      ParentIs(w.Shorts(c), w.g.root);
      NameIs(w.Shorts(p), c);
      var path := PathUp(w, c, n);
      assert path[1..] == PathUp(w, p, n - 1);
      forall i | 0 <= i < |path| ensures StepUp(w, cs[i], cs[i + 1], path[i]) {
        if i > 0 { assert StepUp(w, rest[i - 1], rest[i - 1 + 1], path[1..][i - 1]); }
      }
    }
  }

  ghost predicate GoesUp(w: Volume, c: nat, n: nat, path: seq<seq<byte>>)
    requires w.Valid()
  {
    exists cs :: WayUp(w, c, n, path, cs)
  }

  lemma PathClimbs(w: Volume, c: nat, n: nat)
    requires w.Valid() && Climbable(w, c, n)
    ensures GoesUp(w, c, n, PathUp(w, c, n))
  {
    hide WayUp;
    var cs := PathUpIs(w, c, n);
  }

  /** build_path. */
  method BuildPath(v: FatVolume, cluster: nat, maxDepth: nat) returns (path: seq<seq<byte>>)
    requires v.Valid() && v.FatUsable() && Climbable(AtRest(v), cluster, maxDepth)
    modifies v`cachedFatSector, v`fatCache
    ensures v.Valid() && path == PathUp(AtRest(v), cluster, maxDepth)
    ensures GoesUp(AtRest(v), cluster, maxDepth, path)
  {
    hide GoesUp, Mounted, Table, IsDir, FatVolume.Coherent, NameFor, ParentOf, ReadOf, Climbable, PathUp;
    PathClimbs(AtRest(v), cluster, maxDepth);
    path := [];
    var cur := cluster;
    ghost var w := AtRest(v);
    ghost var whole := PathUp(w, cluster, maxDepth);
    while cur != v.g.root && |path| < maxDepth
      invariant v.Valid() && OnTheWay(w, cur, path, maxDepth, whole)
      decreases maxDepth - |path|
    {
      OneUp(w, cur, path, maxDepth, whole);
      var entries := ReadShorts(v, cur);
      var parent := FindParent(entries, v.g.root);
      var pentries := ReadShorts(v, parent);
      var name := FindName(pentries, cur);
      path := path + [name];
      cur := parent;
    }
    AtTheTop(w, cur, path, maxDepth, whole);
  }

  /** The names collected so far, and those still to come from `cur`, are the whole path. */
  ghost predicate OnTheWay(w: Volume, cur: nat, path: seq<seq<byte>>, maxDepth: nat, whole: seq<seq<byte>>)
    requires w.Valid()
  {
    && |path| <= maxDepth && Climbable(w, cur, maxDepth - |path|)
    && path + PathUp(w, cur, maxDepth - |path|) == whole
  }

  lemma OneUp(w: Volume, cur: nat, path: seq<seq<byte>>, maxDepth: nat, whole: seq<seq<byte>>)
    requires w.Valid() && OnTheWay(w, cur, path, maxDepth, whole) && cur != w.g.root && |path| < maxDepth
    ensures w.Dir(cur) && w.Dir(Parent(w, cur))
    ensures OnTheWay(w, Parent(w, cur), path + [NameFor(w.Shorts(Parent(w, cur)), cur)], maxDepth, whole)
  {
    hide Mounted, NameFor, IsDir, Volume.Shorts, ParentOf;
    var p, n := Parent(w, cur), maxDepth - |path|;
    var name := NameFor(w.Shorts(p), cur);
    assert PathUp(w, cur, n) == [name] + PathUp(w, p, n - 1);
    assert path + [name] + PathUp(w, p, n - 1) == path + ([name] + PathUp(w, p, n - 1));
  }

  lemma AtTheTop(w: Volume, cur: nat, path: seq<seq<byte>>, maxDepth: nat, whole: seq<seq<byte>>)
    requires w.Valid() && OnTheWay(w, cur, path, maxDepth, whole) && (cur == w.g.root || |path| == maxDepth)
    ensures path == whole
  {
  }

  /** A deleted entry in front of the live one with the same cluster, as renaming a directory may leave: build_path
      takes the deleted one's name, which begins with 0xE5, where the reading meant would give the live one's. */
  lemma StaleNamed(live: Slot, c: nat)
    requires Leads(live, c) && live[ATTR] != LFN && !Bit(live[ATTR], 0x08) && live[0] != 0 && live[0] != 32 && live[0] != DELETED
    ensures NameFor(ReadOf([Stale(live), live], 32), c) == [DELETED] + NonBlank(live[1..8])
    ensures NameFor(ReadMeant([Stale(live), live], 32), c) == [live[0]] + NonBlank(live[1..8])
  {
    StaleListed(live, 32);
    var dead := Stale(live);
    assert dead[ATTR] == live[ATTR] && FirstCluster(dead) == FirstCluster(live);
    assert dead[..8][0] == DELETED && dead[..8][1..] == live[1..8];
    assert live[..8][0] == live[0] && live[..8][1..] == live[1..8];
    assert SlotFor([dead, live], c) == 0 && SlotFor([live], c) == 0;
  }

  // ------------------------------------------------------ descent and its inverse

  /** A directory name: one to eight upper-case letters, digits or underscores. */
  predicate Plain(name: seq<byte>) {
    1 <= |name| <= 8 && forall i :: 0 <= i < |name| ==>
      (0x30 <= name[i] <= 0x39) || (0x41 <= name[i] <= 0x5A) || name[i] == 0x5F
  }

  /** In a well-formed tree, directory c is the subdirectory `name` of p: one entry of p has that name and one
      has that cluster, it is the same entry in both listings, and the second entry of c leads back to p. The
      listings are those the code gives, deleted entries and all. */
  ghost predicate Child(w: Volume, p: nat, name: seq<byte>, c: nat)
    requires w.Valid()
  {
    && w.Dir(p) && w.Dir(c) && c != p && c != w.g.root && c >= 2 && p >= 2 && Plain(name)
    && w.Listing(p, 64).Some? && Offers(w.Listing(p, 64).value, name, c)
    && NamesOnly(w.Shorts(p), name, c)
    && w.Listing(c, 2).Some? && |w.Listing(c, 2).value| == 2 && LeadsBack(w, p, w.Listing(c, 2).value[1].firstCluster)
    && (exists s :: s in w.Shorts(c) && IsDotDot(s))
    && (forall s :: s in w.Shorts(c) && IsDotDot(s) ==> LeadsBack(w, p, FirstCluster(s)))
  }

  /** The listing has a directory of that name, and only c goes by it. */
  ghost predicate Offers(list: seq<Found>, name: seq<byte>, c: nat) {
    && (exists i :: 0 <= i < |list| && list[i].name == name && list[i].firstCluster == c && IsDirAttr(list[i].attr))
    && (forall f :: f in list && IsDirAttr(f.attr) && SameName(f.name, name) ==> f.firstCluster == c)
  }

  /** A slot leads to c, and every slot that does bears the name. */
  ghost predicate NamesOnly(slots: seq<Slot>, name: seq<byte>, c: nat) {
    && (exists s :: s in slots && Leads(s, c))
    && (forall s :: s in slots && Leads(s, c) ==> s[..8] == Padded(name, 8))
  }

  /** The number stored for parent p in a ".." entry: p, or 0 for the root. */
  predicate LeadsBack(w: Volume, p: nat, stored: nat) {
    stored == p || (p == w.g.root && stored == 0)
  }

  /** Changing into a subdirectory by its name works. */
  lemma Descend(w: Volume, p: nat, name: seq<byte>, c: nat)
    requires w.Valid() && Child(w, p, name, c)
    ensures w.Dir(p) && Resolve(w, p, name) == Some(c)
  {
    hide Mounted, DirSlots, ListOf, IsDir, ReadOf, DirChain;
    var list := w.Listing(p, 64).value;
    assert WithoutDrive(name) == name;
    assert name[0] != 0x2E && name[0] != 0x2F && name[0] != 0x5C;
    var i := FindDir(list, name);
    assert i < |list| && list[i] in list;
  }

  /** ".." undoes the last descent. */
  lemma Ascend(w: Volume, p: nat, name: seq<byte>, c: nat)
    requires w.Valid() && Child(w, p, name, c)
    ensures w.Dir(c) && Resolve(w, c, [0x2E, 0x2E]) == Some(p)
  {
    hide Mounted, DirSlots, ListOf, IsDir, ReadOf, DirChain;
    assert WithoutDrive([0x2E, 0x2E]) == [0x2E, 0x2E];
  }

  lemma {:induction false} NonBlankPlain(name: seq<byte>, n: nat)
    requires |name| <= n && forall i :: 0 <= i < |name| ==> name[i] != 32 && name[i] != 0
    ensures NonBlank(Padded(name, n)) == name
    decreases n
  {
    var p := Padded(name, n);
    if n > 0 {
      if name == [] {
        assert p[1..] == Padded([], n - 1);
        NonBlankPlain([], n - 1);
      } else {
        assert p[1..] == Padded(name[1..], n - 1);
        NonBlankPlain(name[1..], n - 1);
      }
    }
  }

  /** One step of build_path finds the parent, and in it the name. */
  lemma UpOne(w: Volume, p: nat, name: seq<byte>, c: nat)
    requires w.Valid() && Child(w, p, name, c)
    ensures w.Dir(c) && w.Dir(p) && Parent(w, c) == p && NameFor(w.Shorts(p), c) == name
  {
    hide Mounted, DirSlots, ListOf, IsDir, ReadOf, DirChain, SameName;
    var up, down := w.Shorts(c), w.Shorts(p);
    var i, j := DotDotAt(up), SlotFor(down, c);
    assert i < |up| && up[i] in up;
    assert j < |down| && down[j] in down;
    NonBlankPlain(name, 8);
  }

  /** cs is the way from the root down, names[i] leading from cs[i] to cs[i + 1]. */
  ghost predicate Route(w: Volume, cs: seq<nat>, names: seq<seq<byte>>)
    requires w.Valid()
  {
    |cs| == |names| + 1 && cs[0] == w.g.root && forall i :: 0 <= i < |names| ==> Child(w, cs[i], names[i], cs[i + 1])
  }

  /** Changing directory by the names one after the other leads from `from` to `to`. */
  ghost predicate Leading(w: Volume, from: nat, names: seq<seq<byte>>, to: nat)
    requires w.Valid()
    decreases |names|
  {
    if names == [] then from == to
    else w.Dir(from) && var t := Resolve(w, from, names[0]); t.Some? && t.value >= 2 && Leading(w, t.value, names[1..], to)
  }

  function Reversed<T>(s: seq<T>): (r: seq<T>)
    ensures |r| == |s|
  {
    if s == [] then [] else [s[|s| - 1]] + Reversed(s[..|s| - 1])
  }

  lemma {:induction false} RouteLeads(w: Volume, cs: seq<nat>, names: seq<seq<byte>>, i: nat)
    requires w.Valid() && Route(w, cs, names) && i <= |names|
    ensures Leading(w, cs[i], names[i..], cs[|names|])
    decreases |names| - i
  {
    hide Child, Resolve, Mounted;
    if i < |names| {
      assert Child(w, cs[i], names[i], cs[i + 1]);
      Descend(w, cs[i], names[i], cs[i + 1]);
      ChildCluster(w, cs[i], names[i], cs[i + 1]);
      RouteLeads(w, cs, names, i + 1);
      assert names[i..][1..] == names[i + 1..];
    }
  }

  lemma ChildCluster(w: Volume, p: nat, name: seq<byte>, c: nat)
    requires w.Valid() && Child(w, p, name, c)
    ensures c >= 2 && c != w.g.root
  {
  }

  /** The way up from c can be read for n steps, and gives these names. */
  ghost predicate Climbs(w: Volume, c: nat, n: nat, names: seq<seq<byte>>)
    requires w.Valid()
  {
    Climbable(w, c, n) && PathUp(w, c, n) == names
  }

  lemma ClimbStops(w: Volume, c: nat, n: nat)
    requires w.Valid() && (c == w.g.root || n == 0)
    ensures Climbs(w, c, n, [])
  {
  }

  lemma ClimbStep(w: Volume, p: nat, name: seq<byte>, c: nat, n: nat, names: seq<seq<byte>>)
    requires w.Valid() && Child(w, p, name, c) && n > 0 && Climbs(w, p, n - 1, names)
    ensures Climbs(w, c, n, [name] + names)
  {
    hide Child, Mounted, NameFor, Parent;
    ChildCluster(w, p, name, c);
    UpOne(w, p, name, c);
  }

  lemma ReversedStep<T>(s: seq<T>)
    requires s != []
    ensures Reversed(s) == [s[|s| - 1]] + Reversed(s[..|s| - 1])
  {
  }

  lemma HeadCut<T>(x: T, s: seq<T>, k: nat)
    requires k <= |s|
    ensures ([x] + s)[..k + 1] == [x] + s[..k]
  {
  }

  /** Climbing from the i-th directory of a route gives the names back in reverse, as many as fit. */
  lemma {:induction false} RouteClimbs(w: Volume, cs: seq<nat>, names: seq<seq<byte>>, i: nat, n: nat)
    requires w.Valid() && Route(w, cs, names) && i <= |names|
    ensures Climbs(w, cs[i], n, Reversed(names[..i])[..Min(i, n)])
    decreases n
  {
    hide Child, Mounted, Climbs, Reversed;
    if i == 0 || n == 0 {
      ClimbStops(w, cs[i], n);
    } else {
      assert Child(w, cs[i - 1], names[i - 1], cs[i - 1 + 1]);
      RouteClimbs(w, cs, names, i - 1, n - 1);
      ClimbStep(w, cs[i - 1], names[i - 1], cs[i], n, Reversed(names[..i - 1])[..Min(i - 1, n - 1)]);
      ReversedStep(names[..i]);
      HeadCut(names[i - 1], Reversed(names[..i - 1]), Min(i - 1, n - 1));
      assert names[..i][..i - 1] == names[..i - 1];
    }
  }

  /** The path walk inverts the descent: the names lead down from the root, build_path from where they lead
      gives them back last first, cut at its depth limit, and ".." goes back to the directory before. */
  lemma PathInvertsDescent(w: Volume, cs: seq<nat>, names: seq<seq<byte>>, maxDepth: nat)
    requires w.Valid() && Route(w, cs, names)
    ensures Leading(w, w.g.root, names, cs[|names|])
    ensures Climbable(w, cs[|names|], maxDepth)
    ensures PathUp(w, cs[|names|], maxDepth) == Reversed(names)[..Min(|names|, maxDepth)]
    ensures names != [] ==> w.Dir(cs[|names|]) && Resolve(w, cs[|names|], [0x2E, 0x2E]) == Some(cs[|names| - 1])
  {
    hide Child, Mounted, Resolve, PathUp, Climbable;
    var k := |names|;
    RouteLeads(w, cs, names, 0);
    assert names[0..] == names && names[..k] == names;
    RouteClimbs(w, cs, names, k, maxDepth);
    if k > 0 {
      assert Child(w, cs[k - 1], names[k - 1], cs[k - 1 + 1]);
      Ascend(w, cs[k - 1], names[k - 1], cs[k]);
    }
  }
}
