/** Creating files and directories (fat32_create_file, fat32_create_dir), and what the listing then shows. */
module FatCreate {
  import opened Arithmetic
  import opened FatLayout
  import opened FatTable
  import opened FatVolume
  import opened FatFile
  import opened FatDirectory
  import opened FatBytes
  import opened FatDirOps
  import opened FatPlace
  import opened FatReuse

  // ---------------------------------------------------------- building entries

  /** The two copying loops of make_sfn: up to n characters, in capitals, into the blanks from `at` on. */
  method CopyCapitals(sfn0: seq<byte>, at: nat, n: nat, cs: seq<byte>) returns (sfn: seq<byte>)
    requires at + n <= |sfn0| && forall x :: at <= x < at + n ==> sfn0[x] == 32
    ensures sfn == sfn0[..at] + Padded(UpperAll(cs), n) + sfn0[at + n..]
  {
    hide Padded;
    sfn := sfn0;
    for i := 0 to if |cs| < n then |cs| else n
      invariant |sfn| == |sfn0| && sfn[..at] == sfn0[..at] && sfn[at + n..] == sfn0[at + n..]
      invariant forall x :: at <= x < at + n ==> sfn[x] == if x - at < i then Upper(cs[x - at]) else 32
    {
      sfn := sfn[at + i := Upper(cs[i])];
    }
    PaddedIs(UpperAll(cs), n, sfn[at..at + n]);
    assert sfn == sfn[..at] + sfn[at..at + n] + sfn[at + n..];
  }

  /** make_sfn. */
  method MakeSfn(name: seq<byte>) returns (sfn: seq<byte>)
    ensures sfn == ShortForm(name)
  {
    hide Padded;
    sfn := seq(11, _ => 32);
    var dot := 0;
    while dot < |name| && name[dot] != 46
      invariant dot <= |name| && forall j :: 0 <= j < dot ==> name[j] != 46
    { dot := dot + 1; }
    sfn := CopyCapitals(sfn, 0, 8, name[..dot]);
    ghost var base := sfn[..8];
    var ext := if dot < |name| then name[dot + 1..] else [];
    sfn := CopyCapitals(sfn, 8, 3, ext);
    assert sfn == base + Padded(UpperAll(ext), 3);
  }

  /** shortname_checksum. */
  method ShortnameChecksum(name: seq<byte>) returns (sum: byte)
    ensures sum == Checksum(name)
  {
    sum := 0;
    for i := 0 to |name|
      invariant sum == Checksum(name[..i])
    {
      assert name[..i + 1][..i] == name[..i];
      sum := (sum / 2 + sum % 2 * 0x80 + name[i]) % 0x100;
    }
    assert name[..|name|] == name;
  }

  lemma {:induction false} FlatConcat(a: seq<Slot>, b: seq<Slot>)
    ensures Flat(a + b) == Flat(a) + Flat(b)
  {
    if a == [] {
      assert a + b == b;
    } else {
      assert (a + b)[1..] == a[1..] + b;
      FlatConcat(a[1..], b);
    }
  }

  lemma FlatOne(s: Slot)
    ensures Flat([s]) == s
  {
    assert Flat([s]) == s + Flat([]);
  }

  /** The buffer of long-name slots and the short slot. */
  method BuildEntries(name: seq<byte>, attr: byte, cluster: nat) returns (buf: seq<byte>)
    requires cluster < ENTRY_MASK
    ensures buf == Flat(Entries(name, attr, cluster))
  {
    hide ShortForm, Checksum, LongSlot, ShortSlot;
    var sfn := MakeSfn(name);
    var checksum := ShortnameChecksum(sfn);
    var count := PartCount(name);
    buf := [];
    var ord := count;
    ghost var done: seq<Slot> := [];
    while ord >= 1
      invariant 0 <= ord <= count && buf == Flat(done)
      invariant done + LongSlots(name, checksum, ord, count) == LongSlots(name, checksum, count, count)
    {
      var s := LongSlot(name, checksum, ord, ord == count);
      FlatConcat(done, [s]);
      FlatOne(s);
      assert done + LongSlots(name, checksum, ord, count) == done + [s] + LongSlots(name, checksum, ord - 1, count);
      buf := buf + s;
      done := done + [s];
      ord := ord - 1;
    }
    assert done == LongSlots(name, checksum, count, count);
    var s := ShortSlot(sfn, attr, cluster);
    FlatConcat(done, [s]);
    FlatOne(s);
    buf := buf + s;
  }

  // ------------------------------------------------------- whether there is room

  /** The directory has a fit for n slots in one of its sectors. */
  ghost predicate HasFit(g: Geometry, d: seq<Sector>, ch: seq<nat>, n: nat) {
    Mounted(g, |d|) && OnVolume(g, ch) && !NoFitBefore(g, d, ch, n, SectorCount(g, ch))
  }

  /** n slots are not more than a sector has, and there is a fit for them or a free cluster. */
  ghost predicate Room(g: Geometry, tab: seq<nat>, d: seq<Sector>, ch: seq<nat>, n: nat) {
    n <= 16 && (HasFit(g, d, ch, n) || HasFree(g, tab))
  }

  ghost predicate HasFree(g: Geometry, tab: seq<nat>) {
    |tab| == 2 + g.clusters && exists c :: IsCluster(g, c) && tab[c] == 0
  }

  /** A fit stays a fit when the directory grows. */
  lemma FitStays(g: Geometry, d: seq<Sector>, d1: seq<Sector>, ch: seq<nat>, ch1: seq<nat>, bad: set<nat>, n: nat)
    requires Extended(g, d, d1, ch, ch1, bad) && NoFitBefore(g, d1, ch1, n, SectorCount(g, ch1))
    ensures !HasFit(g, d, ch, n)
  {
    hide DirSector, SectorSlots, Fit, Mounted, OnVolume;
    forall k, e: nat | 0 <= k < SectorCount(g, ch) && e < 16 ensures !Fit(SectorSlots(DirSector(g, d, ch, k)), e, n) {
      assert DirSector(g, d1, ch1, k) == DirSector(g, d, ch, k);
    }
  }

  /** A new sector has a fit for up to 16 slots. */
  lemma NewSectorFits(g: Geometry, d: seq<Sector>, d1: seq<Sector>, ch: seq<nat>, ch1: seq<nat>, n: nat)
    requires Extended(g, d, d1, ch, ch1, {}) && ch1 != ch && n <= 16
    ensures Mounted(g, |d1|) && !NoFitBefore(g, d1, ch1, n, SectorCount(g, ch1))
  {
    hide DirSector, Mounted, OnVolume, SlotOf, ZeroSector;
    MountedBasics(g, |d|);
    MulNext(|ch|, g.spc);
    TimesMono(|ch| + 1, |ch1|, g.spc);
    var k := SectorCount(g, ch);
    assert DirSector(g, d1, ch1, k) == ZeroSector();
    ZeroSlots(0);
    assert Fit(SectorSlots(DirSector(g, d1, ch1, k)), 0, n);
  }

  /** On a volume whose sectors all transfer, entries are placed exactly if there was room for them. */
  lemma RoomDecides(g: Geometry, d: seq<Sector>, d1: seq<Sector>, d': seq<Sector>, tab: seq<nat>, tab': seq<nat>, ch: seq<nat>, ch1: seq<nat>,
                    n: nat, bytes: seq<byte>, k: nat, e: nat, ok: bool)
    requires ch <= ch1 && Took(g, tab, tab', ch1[|ch|..])
    requires ok ==> Placed(g, d, d1, d', ch, ch1, {}, n, bytes, k, e)
    requires !ok ==> Extended(g, d, d', ch, ch1, {}) && Blocked(g, tab', d', ch1, {}, n)
    ensures ok <==> Room(g, tab, d, ch, n)
    ensures !ok ==> !HasFree(g, tab')
  {
    hide DirSector, SectorSlots, Mounted, OnVolume, FileLba, PutAt, Extended, NoFitBefore;
    if ok {
      if ch1 != ch { assert ch1[|ch|..][0] == ch1[|ch|]; } else { FitWas(g, d, d1, ch, {}, n, k, e); }
    } else {
      FitStays(g, d, d', ch, ch1, {}, n);
      if n <= 16 {
        if ch1 != ch { NewSectorFits(g, d, d', ch, ch1, n); }
        assert ch1 == ch && ch1[|ch|..] == [];
      }
    }
  }

  lemma FitWas(g: Geometry, d: seq<Sector>, d1: seq<Sector>, ch: seq<nat>, bad: set<nat>, n: nat, k: nat, e: nat)
    requires Extended(g, d, d1, ch, ch, bad) && k < SectorCount(g, ch)
    requires Fit(SectorSlots(DirSector(g, d1, ch, k)), e, n)
    ensures HasFit(g, d, ch, n)
  {
    hide DirSector, SectorSlots, Mounted, OnVolume;
    assert DirSector(g, d1, ch, k) == DirSector(g, d, ch, k);
  }

  /** Where there is a fit, the directory does not grow. */
  lemma NotGrown(g: Geometry, d: seq<Sector>, d1: seq<Sector>, d': seq<Sector>, ch: seq<nat>, ch1: seq<nat>, bad: set<nat>,
                 n: nat, bytes: seq<byte>, k: nat, e: nat)
    requires Placed(g, d, d1, d', ch, ch1, bad, n, bytes, k, e) && HasFit(g, d, ch, n)
    ensures ch1 == ch
  {
    hide DirSector, SectorSlots, Fit, Mounted, OnVolume, PutAt, FileLba;
  }

  /** fat32_create_file: an empty file in the current directory. On a volume whose sectors all transfer it succeeds
      exactly if there is room for the slots; names of more than 195 characters never have it, and the search takes
      every free cluster. */
  method CreateFile(v: FatVolume, name: seq<byte>, ghost chains: set<seq<nat>>, ghost ch: seq<nat>)
    returns (result: int, ghost d1: seq<Sector>, ghost ch1: seq<nat>, ghost k: nat, ghost e: nat)
    requires v.Valid() && v.FatUsable() && Forest(v.Fat(), chains) && ch in chains && ch != [] && ch[0] == v.currentDir
    modifies v`cachedFatSector, v`fatCache, v`nextFreeHint, v.disk
    ensures v.Valid() && (old(v.InSync()) ==> v.InSync()) && ch <= ch1
    ensures Forest(v.Fat(), chains - {ch} + {ch1})
    ensures result == 0 || result == -1
    ensures result == 0 ==> Placed(v.g, old(v.disk[..]), d1, v.disk[..], ch, ch1, v.bad,
                                   PartCount(name) + 1, Flat(Entries(name, 0x20, 0)), k, e)
    ensures result == -1 ==> Extended(v.g, old(v.disk[..]), v.disk[..], ch, ch1, v.bad)
    ensures result == -1 ==> Blocked(v.g, v.Fat(), v.disk[..], ch1, v.bad, PartCount(name) + 1)
    ensures Took(v.g, old(v.Fat()), v.Fat(), ch1[|ch|..])
    ensures v.bad == {} ==> (result == 0 <==> Room(v.g, old(v.Fat()), old(v.disk[..]), ch, PartCount(name) + 1))
    ensures v.bad == {} && result == -1 ==> !HasFree(v.g, v.Fat())
  {
    hide Placed, Blocked, Extended, Forest, Table, Mounted, InFile, FatVolume.Coherent, FatVolume.InSync, Entries, Flat, Took, Room, HasFree;
    ghost var d, tab, n := v.disk[..], v.Fat(), PartCount(name) + 1;
    var buf := BuildEntries(name, 0x20, 0);
    var ok;
    ok, d1, ch1, k, e := PlaceEntries(v, v.currentDir, buf, PartCount(name) + 1, chains, ch);
    if v.bad == {} { RoomDecides(v.g, d, d1, v.disk[..], tab, v.Fat(), ch, ch1, n, buf, k, e, ok); }
    result := if ok then 0 else -1;
  }

  // ------------------------------------------------------- create, then list

  /** A tidy directory stays tidy when it is extended, with the same used slots. */
  lemma ExtendedTidy(g: Geometry, d: seq<Sector>, d1: seq<Sector>, ch: seq<nat>, ch1: seq<nat>, bad: set<nat>, m: nat)
    requires Extended(g, d, d1, ch, ch1, bad) && Sound(g, ch1, bad) && Tidy(DirSlots(g, d, ch), m)
    ensures Tidy(DirSlots(g, d1, ch1), m) && DirSlots(g, d1, ch1)[..m] == DirSlots(g, d, ch)[..m]
  {
    hide DirSlots, Extended, Sound;
    ExtendedSlots(g, d, d1, ch, ch1, bad);
  }

  /** In a tidy directory the entries go right behind the used slots if their sector has room, else further on. */
  lemma PlaceTidy(g: Geometry, d: seq<Sector>, ch: seq<nat>, n: nat, k: nat, e: nat, m: nat)
    requires Mounted(g, |d|) && OnVolume(g, ch) && k < SectorCount(g, ch) && 1 <= n
    requires NoFitBefore(g, d, ch, n, k) && Fit(SectorSlots(DirSector(g, d, ch, k)), e, n)
    requires forall e' :: 0 <= e' < e ==> !Fit(SectorSlots(DirSector(g, d, ch, k)), e', n)
    requires Tidy(DirSlots(g, d, ch), m)
    ensures if m % 16 + n <= 16 then 16 * k + e == m else m < 16 * k + e
  {
    hide DirSector, SectorSlots, OnVolume, Mounted;
    var s := DirSlots(g, d, ch);
    FitAt(g, d, ch, k, e, n);
    assert FreeSlot(s[16 * k + e]);
    var k0, e0 := m / 16, m % 16;
    if e0 + n <= 16 {
      FitAt(g, d, ch, k0, e0, n);
      assert Fit(SectorSlots(DirSector(g, d, ch, k0)), e0, n);
    }
  }

  lemma PlacedIs(g: Geometry, d: seq<Sector>, d1: seq<Sector>, d': seq<Sector>, ch: seq<nat>, ch1: seq<nat>, bad: set<nat>,
                 ents: seq<Slot>, k: nat, e: nat, m: nat)
    requires Placed(g, d, d1, d', ch, ch1, bad, |ents|, Flat(ents), k, e) && ents != []
    requires Sound(g, ch1, bad) && Tidy(DirSlots(g, d, ch), m)
    ensures Mounted(g, |d1|) && |d1| == |d| == |d'| && OnVolume(g, ch) && OnVolume(g, ch1)
    ensures Tidy(DirSlots(g, d1, ch1), m) && DirSlots(g, d1, ch1)[..m] == DirSlots(g, d, ch)[..m]
    ensures Inserted(DirSlots(g, d1, ch1), DirSlots(g, d', ch1), k, e, ents)
    ensures if m % 16 + |ents| <= 16 then 16 * k + e == m else m < 16 * k + e
  {
    hide DirSector, SectorSlots, FileLba, PutAt, Flat, Fit, Window, Mounted, Sound, DirSlots, Tidy, Inserted;
    ExtendedTidy(g, d, d1, ch, ch1, bad, m);
    PlaceTidy(g, d1, ch1, |ents|, k, e, m);
    PlacedInserts(g, d, d1, d', ch, ch1, bad, ents, k, e);
  }

  /** What lies behind slot i of a directory. */
  function Behind(slots: seq<Slot>, i: nat): seq<Slot> { if i <= |slots| then slots[i..] else [] }

  /** The slots that come to light when n new slots go in behind m used ones: if the new ones end with their sector,
      no end mark is stored behind them, and whatever lies there is listed. */
  function Uncovered(slots: seq<Slot>, m: nat, n: nat): seq<Slot> {
    if m % 16 + n == 16 then Behind(slots, m + n) else []
  }

  /** Zeroed slots at the end of a directory list nothing. */
  lemma {:induction false} ListWithZeros(st: Listing, a: seq<Slot>, b: seq<Slot>, max: nat)
    requires st.Valid() && (b != [] ==> b[0][0] == 0)
    ensures Scan(st, a + b, max).out == Scan(st, a, max).out
  {
    ScanConcat(st, a, b, max);
    ScanDone(Scan(st, a, max), b, max);
  }

  lemma ListBehind(s: seq<Slot>, s1: seq<Slot>, i: nat, max: nat)
    requires s <= s1 && i <= |s1| && forall j :: |s| <= j < |s1| ==> s1[j][0] == 0
    ensures ListOf(s1[i..], max) == ListOf(Behind(s, i), max)
  {
    if i <= |s| {
      assert s1[i..] == s[i..] + s1[|s|..];
      ListWithZeros(Start(), s[i..], s1[|s|..], max);
    } else {
      ScanDone(Start(), s1[i..], max);
    }
  }

  /** The listing after slots for an entry were put into a tidy directory, whatever lies behind its end mark: the
      old listing, and if the sector of the end mark had room the new entry and what that uncovers. */
  lemma TidyThenList(s: seq<Slot>, s1: seq<Slot>, s': seq<Slot>, k: nat, e: nat, name: seq<byte>, attr: byte, cluster: nat, m: nat, max: nat)
    requires cluster < ENTRY_MASK && Inserted(s1, s', k, e, Entries(name, attr, cluster))
    requires Printable(name) && 0 < |name| <= 195 && (attr == 0x20 || attr == 0x10)
    requires Tidy(s, m) && Tidy(s1, m) && s <= s1 && forall j :: |s| <= j < |s1| ==> s1[j][0] == 0
    requires if m % 16 + PartCount(name) + 1 <= 16 then 16 * k + e == m else m < 16 * k + e
    ensures var shown, n := ListOf(s, max), PartCount(name) + 1;
      ListOf(s', max) ==
        if m % 16 + n > 16 || |shown| >= max then shown
        else shown + [Found(Listed(name), attr, cluster, 0)] + ListOf(Uncovered(s, m, n), max - |shown| - 1)
  {
    hide Entries, Listed, Inserted, Printable, Scan, Behind;
    var n := PartCount(name) + 1;
    InsertThenList(s1, s', k, e, name, attr, cluster, max);
    InsertedParts(s1, s', k, e, Entries(name, attr, cluster));
    ListTidy(s, m, max);
    ListTidy(s1, m, max);
    assert s1[..m] == s[..m];
    var p := 16 * k + e;
    if m % 16 + n <= 16 {
      SlotInSector(k, e, m);
      var room := max - |ListOf(s, max)| - 1;
      if room >= 0 {
        ListBehind(s, s1, m + n, room);
        NothingListed(room);
      }
    } else {
      PastTheMark(s1, m, p, max);
    }
  }

  lemma SlotInSector(k: nat, e: nat, m: nat)
    requires 16 * k + e == m && e < 16
    ensures m % 16 == e
  {
  }

  lemma NothingListed(max: int)
    ensures max >= 0 ==> ListOf([], max) == []
  {
  }

  /** The listing does not get past the end mark. */
  lemma PastTheMark(s: seq<Slot>, m: nat, p: nat, max: nat)
    requires Tidy(s, m) && m < p <= |s|
    ensures Before(s, p, max).done
  {
    var st := Scan(Start(), s[..m], max);
    assert s[..p] == s[..m] + s[m..p];
    ScanConcat(Start(), s[..m], s[m..p], max);
    assert s[m..p][0] == s[m];
    ScanStops(Step(st, s[m], max), s[m..p][1..], max);
  }

  /** What the listing shows after fat32_create_file or fat32_create_dir put an entry into a tidy directory with m
      used slots: the old listing if the sector of the end mark had no room for all its slots, for then the entry
      lies behind the end mark; otherwise the old listing, the new entry under its listed name, and whatever the slots
      that come to light list. */
  lemma CreateThenList(g: Geometry, d: seq<Sector>, d1: seq<Sector>, d': seq<Sector>, ch: seq<nat>, ch1: seq<nat>, bad: set<nat>,
                       name: seq<byte>, attr: byte, cluster: nat, k: nat, e: nat, m: nat, max: nat)
    requires cluster < ENTRY_MASK && Placed(g, d, d1, d', ch, ch1, bad, PartCount(name) + 1, Flat(Entries(name, attr, cluster)), k, e)
    requires Sound(g, ch1, bad) && Tidy(DirSlots(g, d, ch), m)
    requires Printable(name) && 0 < |name| <= 195 && (attr == 0x20 || attr == 0x10)
    ensures |d'| == |d|
    ensures var s, n := DirSlots(g, d, ch), PartCount(name) + 1; var shown := ListOf(s, max);
      ListOf(DirSlots(g, d', ch1), max) ==
        if m % 16 + n > 16 || |shown| >= max then shown
        else shown + [Found(Listed(name), attr, cluster, 0)] + ListOf(Uncovered(s, m, n), max - |shown| - 1)
  {
    hide Placed, Extended, Sound, Tidy, ListOf, DirSlots, Entries, Inserted, Listed, Flat, Printable, OnVolume, Mounted, SectorCount, Uncovered;
    var ents := Entries(name, attr, cluster);
    PlacedIs(g, d, d1, d', ch, ch1, bad, ents, k, e, m);
    PlacedExtends(g, d, d1, d', ch, ch1, bad, ents, k, e);
    ExtendedSlots(g, d, d1, ch, ch1, bad);
    TidyThenList(DirSlots(g, d, ch), DirSlots(g, d1, ch1), DirSlots(g, d', ch1), k, e, name, attr, cluster, m, max);
  }

  /** So the listing is the old one and exactly the new entry if and only if the entry fits in the sector of the end
      mark, the listing has room for it, and it is then full or nothing that can be listed comes to light. */
  lemma ShowsExactly(g: Geometry, d: seq<Sector>, d1: seq<Sector>, d': seq<Sector>, ch: seq<nat>, ch1: seq<nat>, bad: set<nat>,
                     name: seq<byte>, attr: byte, cluster: nat, k: nat, e: nat, m: nat, max: nat)
    requires cluster < ENTRY_MASK && Placed(g, d, d1, d', ch, ch1, bad, PartCount(name) + 1, Flat(Entries(name, attr, cluster)), k, e)
    requires Sound(g, ch1, bad) && Tidy(DirSlots(g, d, ch), m)
    requires Printable(name) && 0 < |name| <= 195 && (attr == 0x20 || attr == 0x10)
    ensures var s, n := DirSlots(g, d, ch), PartCount(name) + 1; var shown := ListOf(s, max);
      (ListOf(DirSlots(g, d', ch1), max) == shown + [Found(Listed(name), attr, cluster, 0)]) ==
        (m % 16 + n <= 16 && |shown| < max && (|shown| + 1 == max || Counted(Uncovered(s, m, n)) == 0))
  {
    hide Placed, Extended, Sound, Tidy, ListOf, DirSlots, Entries, Listed, Flat, Printable, OnVolume, Mounted, SectorCount, Uncovered, Counted;
    CreateThenList(g, d, d1, d', ch, ch1, bad, name, attr, cluster, k, e, m, max);
    PlacedIs(g, d, d1, d', ch, ch1, bad, Entries(name, attr, cluster), k, e, m);
    var s, n := DirSlots(g, d, ch), PartCount(name) + 1;
    var shown := ListOf(s, max);
    if |shown| < max {
      ListCount(Uncovered(s, m, n), max - |shown| - 1);
      OneMoreExactly(shown, Found(Listed(name), attr, cluster, 0), ListOf(Uncovered(s, m, n), max - |shown| - 1));
    }
  }

  lemma OneMoreExactly<T>(a: seq<T>, x: T, b: seq<T>)
    ensures a + [x] + b == a + [x] <==> b == []
    ensures a != a + [x]
  {
    assert |a + [x]| == |a| + 1 && |a + [x] + b| == |a| + 1 + |b|;
  }

  // -------------------------------------------------------------- directories

  /** A name of dots, padded with spaces. */
  function DotName(n: nat): (r: seq<byte>)
    requires n <= 2
    ensures |r| == 11
  {
    seq(11, i => if i < n then 46 else 32)
  }

  function DotSlot(n: nat, cluster: nat): Slot
    requires n <= 2 && cluster < ENTRY_MASK
  {
    ShortSlot(DotName(n), 0x10, cluster)
  }

  /** The sector every sector of a new directory gets: "." and ".." and nothing else. */
  function DotSector(self: nat, parent: nat): Sector
    requires self < ENTRY_MASK && parent < ENTRY_MASK
  {
    DotSlot(1, self) + DotSlot(2, parent) + Zeros(448)
  }

  /** The bytes of such a sector: two slots with the attribute of directories, the names "." and "..", and the clusters
      of the directory and of its parent, and zeros. */
  lemma DotSectorBytes(self: nat, parent: nat, x: nat)
    requires self < ENTRY_MASK && parent < ENTRY_MASK
    ensures var s := DotSector(self, parent);
      && s[0] == 46 && (1 <= x < 11 ==> s[x] == 32) && s[11] == 0x10
      && self == s[26] as int + 0x100 * s[27] as int + 0x1_0000 * s[20] as int + 0x100_0000 * s[21] as int
      && s[32] == 46 && s[33] == 46 && (34 <= x < 43 ==> s[x] == 32) && s[43] == 0x10
      && parent == s[58] as int + 0x100 * s[59] as int + 0x1_0000 * s[52] as int + 0x100_0000 * s[53] as int
      && (12 <= x < 20 || 22 <= x < 26 || 28 <= x < 32 || 44 <= x < 52 || 54 <= x < 58 || 60 <= x < 512 ==> s[x] == 0)
  {
    hide ShortSlot;
    ShortSlotBytes(DotName(1), 0x10, self);
    ShortSlotBytes(DotName(2), 0x10, parent);
    var s, a, b := DotSector(self, parent), DotSlot(1, self), DotSlot(2, parent);
    assert a[..11] == DotName(1) && b[..11] == DotName(2);
    forall y | 0 <= y < 32 ensures s[y] == a[y] && s[32 + y] == b[y] {}
    forall y | 0 <= y < 11 ensures a[y] == DotName(1)[y] && b[y] == DotName(2)[y] { assert a[y] == a[..11][y] && b[y] == b[..11][y]; }
  }

  lemma DotSlots(self: nat, parent: nat)
    requires self < ENTRY_MASK && parent < ENTRY_MASK
    ensures SlotOf(DotSector(self, parent), 0) == DotSlot(1, self)
    ensures SlotOf(DotSector(self, parent), 1) == DotSlot(2, parent)
    ensures SlotOf(DotSector(self, parent), 2)[0] == 0
  {
    hide DotSlot;
    var s := DotSector(self, parent);
    assert s[64] == 0;
  }

  /** The n sectors from `base` on hold s unless they fail; all others are the same. */
  ghost predicate FilledRange(d: seq<Sector>, d': seq<Sector>, bad: set<nat>, s: Sector, base: nat, n: nat) {
    && |d'| == |d|
    && forall l :: 0 <= l < |d| ==> if base <= l < base + n then d'[l] == s || l in bad else d'[l] == d[l]
  }

  /** The loop that initialises the cluster of a new directory. */
  method FillCluster(v: FatVolume, c: nat, content: Sector)
    requires v.Valid() && IsCluster(v.g, c)
    modifies v.disk
    ensures v.Valid() && v.Fat() == old(v.Fat()) && (old(v.InSync()) ==> v.InSync())
    ensures FilledRange(old(v.disk[..]), v.disk[..], v.bad, content, ClusterLba(v.g, c), v.g.spc)
  {
    hide Table, FatVolume.Coherent, Mounted, ClusterLba, FatVolume.InSync;
    ghost var d := v.disk[..];
    ghost var base := ClusterLba(v.g, c);
    for s := 0 to v.g.spc
      invariant v.Valid() && v.Fat() == old(v.Fat()) && FilledRange(d, v.disk[..], v.bad, content, base, s)
      invariant old(v.InSync()) ==> v.InSync()
    {
      ClusterLbaBounds(v.g, |d|, c, s);
      var ok := v.WriteSector(ClusterLba(v.g, c) + s, content);
    }
  }

  /** fat32_create_dir: a cluster for the new directory, its entry in the current one, "." and ".." in it.
      When the entry cannot be placed the cluster stays allocated. */
  method CreateDir(v: FatVolume, name: seq<byte>, ghost chains: set<seq<nat>>, ghost ch: seq<nat>)
    returns (result: int, newcl: nat, ghost d0: seq<Sector>, ghost d1: seq<Sector>, ghost d2: seq<Sector>, ghost ch1: seq<nat>, ghost k: nat, ghost e: nat)
    requires v.Valid() && v.FatUsable() && Forest(v.Fat(), chains) && ch in chains && ch != [] && ch[0] == v.currentDir
    modifies v`cachedFatSector, v`fatCache, v`nextFreeHint, v.disk
    ensures v.Valid() && (old(v.InSync()) ==> v.InSync()) && ch <= ch1 && (result == 0 || result == -1)
    ensures newcl == 0 ==> result == -1 && ch1 == ch && v.disk[..] == old(v.disk[..]) && forall c :: IsCluster(v.g, c) ==> v.Fat()[c] != 0
    ensures newcl != 0 && result == -1 ==>
      && SameData(v.g, old(v.disk[..]), d0) && Extended(v.g, d0, v.disk[..], ch, ch1, v.bad)
      && Blocked(v.g, v.Fat(), v.disk[..], ch1, v.bad, PartCount(name) + 1)
    ensures newcl != 0 ==> IsCluster(v.g, newcl) && old(v.Fat())[newcl] == 0 && newcl !in ch1
    ensures Forest(v.Fat(), chains + (if newcl == 0 then {} else {[newcl]}) - {ch} + {ch1})
    ensures newcl != 0 ==> Took(v.g, old(v.Fat())[newcl := LAST], v.Fat(), ch1[|ch|..])
    ensures v.bad == {} ==>
      (result == 0 <==> newcl != 0 && Room(v.g, old(v.Fat())[newcl := LAST], old(v.disk[..]), ch, PartCount(name) + 1))
    ensures v.bad == {} && result == -1 ==> !HasFree(v.g, v.Fat())
    ensures result == 0 ==>
      && newcl != 0 && newcl < ENTRY_MASK && v.currentDir < ENTRY_MASK
      && SameData(v.g, old(v.disk[..]), d0)
      && Placed(v.g, d0, d1, d2, ch, ch1, v.bad, PartCount(name) + 1, Flat(Entries(name, 0x10, newcl)), k, e)
      && FilledRange(d2, v.disk[..], v.bad, DotSector(newcl, v.currentDir), ClusterLba(v.g, newcl), v.g.spc)
  {
    hide Placed, Blocked, Forest, Table, Mounted, InFile, FatVolume.Coherent, FatVolume.InSync, Entries, Flat, Chain, Extended, FilledRange, DotSector, ClusterLba, SameData,
      Took, Room;
    ghost var tab := v.Fat();
    k, e, d0, d1, d2, ch1 := 0, 0, v.disk[..], v.disk[..], v.disk[..], ch;
    newcl := PickFree(v);
    if newcl == 0 {
      SameSet(chains, ch);
      NothingAdded(chains);
      return -1, 0, d0, d1, d2, ch1, k, e;
    }
    ClusterNumbers(v.g, v.disk.Length);
    NewChain(tab, chains, newcl);
    DirCluster(tab, chains, ch);
    assert IsCluster(v.g, v.currentDir);
    var buf := BuildEntries(name, 0x10, newcl);
    v.PutEntry(newcl, LAST);
    d0 := v.disk[..];
    SameDataFrom(v.g, old(v.disk[..]), d0);
    var ok;
    ok, d1, ch1, k, e := PlaceEntries(v, v.currentDir, buf, PartCount(name) + 1, chains + {[newcl]}, ch);
    NotInDir(tab, v.Fat(), chains, ch, ch1, newcl);
    if v.bad == {} {
      RoomDecides(v.g, d0, d1, v.disk[..], tab[newcl := LAST], v.Fat(), ch, ch1, PartCount(name) + 1, buf, k, e, ok);
      RoomSame(v.g, tab[newcl := LAST], old(v.disk[..]), d0, ch, PartCount(name) + 1);
    }
    if !ok { return -1, newcl, d0, d1, d2, ch1, k, e; }
    d2 := v.disk[..];
    FillCluster(v, newcl, DotSector(newcl, v.currentDir));
    result := 0;
  }

  lemma DirCluster(tab: seq<nat>, chains: set<seq<nat>>, ch: seq<nat>)
    requires Forest(tab, chains) && ch in chains
    ensures ch != [] && InTable(tab, ch[0]) && tab[ch[0]] != 0
  {
    assert ch[0] in ch;
    MemberUsed(tab, ch, ch[0]);
  }

  lemma NotInDir(tab: seq<nat>, tab': seq<nat>, chains: set<seq<nat>>, ch: seq<nat>, ch1: seq<nat>, c: nat)
    requires Forest(tab', chains + {[c]} - {ch} + {ch1}) && ch != [] && ch <= ch1
    requires InTable(tab, c) && tab[c] == 0 && InTable(tab, ch[0]) && tab[ch[0]] != 0
    ensures c !in ch1
  {
    assert c in [c] && [c] != ch && ch1[0] == ch[0];
    assert [c] in chains + {[c]} - {ch} + {ch1};
  }

  lemma NothingAdded(chains: set<seq<nat>>)
    ensures chains + {} == chains
  {
  }

  lemma ClusterNumbers(g: Geometry, n: nat)
    requires Mounted(g, n)
    ensures forall c :: IsCluster(g, c) ==> c < ENTRY_MASK
    ensures LAST % ENTRY_MASK == LAST
  {
  }

  lemma SameDataFrom(g: Geometry, d: seq<Sector>, d': seq<Sector>)
    requires |d| == |d'| && forall l :: 0 <= l < |d| && !(g.fatStart <= l < g.dataStart) ==> d'[l] == d[l]
    ensures SameData(g, d, d')
  {
  }

  lemma {:induction false} SlotsSame(g: Geometry, d: seq<Sector>, d': seq<Sector>, ch: seq<nat>, n: nat)
    requires Mounted(g, |d|) && |d'| == |d| && OnVolume(g, ch) && n <= SectorCount(g, ch)
    requires forall k: nat :: k < n ==> DirSector(g, d', ch, k) == DirSector(g, d, ch, k)
    ensures SlotsTo(g, d', ch, n) == SlotsTo(g, d, ch, n)
  {
    hide DirSector, Mounted, OnVolume;
    if n > 0 { SlotsSame(g, d, d', ch, n - 1); }
  }

  /** Allocation does not change what a directory holds. */
  lemma SlotsKept(g: Geometry, d: seq<Sector>, d': seq<Sector>, ch: seq<nat>)
    requires Mounted(g, |d|) && OnVolume(g, ch) && SameData(g, d, d')
    ensures DirSlots(g, d', ch) == DirSlots(g, d, ch)
  {
    hide FileLba, Mounted, OnVolume;
    forall k: nat | k < SectorCount(g, ch) ensures DirSector(g, d', ch, k) == DirSector(g, d, ch, k) {
      DivLess(k, |ch|, g.spc);
      FileLbaBounds(g, |d|, ch, k);
    }
    SlotsSame(g, d, d', ch, SectorCount(g, ch));
  }

  lemma RoomSame(g: Geometry, tab: seq<nat>, d: seq<Sector>, d': seq<Sector>, ch: seq<nat>, n: nat)
    requires Mounted(g, |d|) && SameData(g, d, d')
    ensures Room(g, tab, d', ch, n) == Room(g, tab, d, ch, n)
  {
    hide FileLba, Mounted, OnVolume, Fit, SectorSlots;
    forall k: nat | OnVolume(g, ch) && k < SectorCount(g, ch) ensures DirSector(g, d', ch, k) == DirSector(g, d, ch, k) {
      DivLess(k, |ch|, g.spc);
      FileLbaBounds(g, |d|, ch, k);
    }
    hide DirSector, SectorCount;
  }

  /** Initialising a cluster does not change a directory it is not part of. */
  lemma SlotsApart(g: Geometry, d: seq<Sector>, d': seq<Sector>, bad: set<nat>, ch: seq<nat>, c: nat, s: Sector)
    requires Mounted(g, |d|) && OnVolume(g, ch) && IsCluster(g, c) && c !in ch
    requires FilledRange(d, d', bad, s, ClusterLba(g, c), g.spc)
    ensures DirSlots(g, d', ch) == DirSlots(g, d, ch)
  {
    hide ClusterLba, Mounted;
    forall k: nat | k < SectorCount(g, ch) ensures DirSector(g, d', ch, k) == DirSector(g, d, ch, k) {
      DivLess(k, |ch|, g.spc);
      FileLbaBounds(g, |d|, ch, k);
      var l := FileLba(g, ch, k);
      var base := ClusterLba(g, c);
      if base <= l < base + g.spc {
        ClustersDisjoint(g, |d|, c, l - base, ch[Quotient(k, g.spc)], Rest(k, g.spc));
      }
    }
    SlotsSame(g, d, d', ch, SectorCount(g, ch));
  }

  /** A new directory lists "." and "..", naming itself and its parent. */
  lemma NewDirLists(g: Geometry, d: seq<Sector>, d': seq<Sector>, bad: set<nat>, c: nat, parent: nat, max: nat)
    requires Mounted(g, |d|) && IsCluster(g, c) && c < ENTRY_MASK && parent < ENTRY_MASK && 2 <= max
    requires FilledRange(d, d', bad, DotSector(c, parent), ClusterLba(g, c), g.spc)
    requires OnVolume(g, [c]) && Sound(g, [c], bad)
    ensures ListOf(DirSlots(g, d', [c]), max) == [Found([46], 0x10, c, 0), Found([46, 46], 0x10, parent, 0)]
  {
    hide DotSector, DotSlot, SlotOf, FileLba, ClusterLba, DirSector, ListOf;
    FirstDirSector(g, d, d', bad, c, DotSector(c, parent));
    var ch := [c];
    var s := DirSlots(g, d', ch);
    var n := SectorCount(g, ch);
    SlotAt(g, d', ch, n, 0, 0);
    SlotAt(g, d', ch, n, 0, 1);
    SlotAt(g, d', ch, n, 0, 2);
    DotSlots(c, parent);
    ListDots(s, c, parent, max);
  }

  lemma FirstDirSector(g: Geometry, d: seq<Sector>, d': seq<Sector>, bad: set<nat>, c: nat, s: Sector)
    requires Mounted(g, |d|) && IsCluster(g, c) && OnVolume(g, [c]) && Sound(g, [c], bad)
    requires FilledRange(d, d', bad, s, ClusterLba(g, c), g.spc)
    ensures 1 <= SectorCount(g, [c]) && DirSector(g, d', [c], 0) == s
  {
    hide ClusterLba, Mounted;
    MountedBasics(g, |d|);
    DivIs(0, 0, 0, g.spc);
    assert SectorCount(g, [c]) == g.spc;
    InFileAt(g, [c], 0);
    FileLbaBounds(g, |d|, [c], 0);
  }

  lemma ListDots(s: seq<Slot>, c: nat, parent: nat, max: nat)
    requires c < ENTRY_MASK && parent < ENTRY_MASK && 2 <= max && 2 < |s|
    requires s[0] == DotSlot(1, c) && s[1] == DotSlot(2, parent) && s[2][0] == 0
    ensures ListOf(s, max) == [Found([46], 0x10, c, 0), Found([46, 46], 0x10, parent, 0)]
  {
    hide ShortSlot;
    ShortSlotFields(DotName(1), 0x10, c);
    ShortSlotFields(DotName(2), 0x10, parent);
    DotListed(s[0], 1);
    DotListed(s[1], 2);
    var st1 := Step(Start(), s[0], max);
    var st2 := Step(st1, s[1], max);
    assert s[1..][0] == s[1] && s[1..][1..] == s[2..];
    assert Scan(Start(), s, max) == Scan(st2, s[2..], max);
    ScanDone(st2, s[2..], max);
  }

  lemma DotListed(s: Slot, n: nat)
    requires 1 <= n <= 2 && s[..11] == DotName(n)
    ensures s[0] == 46 && ShortName(s) == if n == 1 then [46] else [46, 46]
  {
    assert s[0] == s[..11][0];
    assert s[8..11] == s[..11][8..] == [32, 32, 32];
    assert s[..8] == s[..11][..8];
    UntilSpaceAt(s[..8], n);
    assert s[..8][..n] == if n == 1 then [46] else [46, 46];
  }

  /** After fat32_create_dir: the parent lists as after any creation, with the new cluster, and the new directory
      holds "." and "..". */
  lemma CreateDirThenList(g: Geometry, d: seq<Sector>, d0: seq<Sector>, d1: seq<Sector>, d2: seq<Sector>, d': seq<Sector>,
                          ch: seq<nat>, ch1: seq<nat>, bad: set<nat>, name: seq<byte>, newcl: nat, parent: nat, k: nat, e: nat, m: nat, max: nat)
    requires IsCluster(g, newcl) && newcl < ENTRY_MASK && parent < ENTRY_MASK && newcl !in ch1
    requires SameData(g, d, d0)
    requires Placed(g, d0, d1, d2, ch, ch1, bad, PartCount(name) + 1, Flat(Entries(name, 0x10, newcl)), k, e)
    requires FilledRange(d2, d', bad, DotSector(newcl, parent), ClusterLba(g, newcl), g.spc)
    requires OnVolume(g, [newcl]) && Sound(g, ch1, bad) && Sound(g, [newcl], bad) && Tidy(DirSlots(g, d, ch), m)
    requires Printable(name) && 0 < |name| <= 195
    ensures |d'| == |d|
    ensures var s, n := DirSlots(g, d, ch), PartCount(name) + 1; var shown := ListOf(s, max);
      ListOf(DirSlots(g, d', ch1), max) ==
        if m % 16 + n > 16 || |shown| >= max then shown
        else shown + [Found(Listed(name), 0x10, newcl, 0)] + ListOf(Uncovered(s, m, n), max - |shown| - 1)
    ensures 2 <= max ==>
      ListOf(DirSlots(g, d', [newcl]), max) == [Found([46], 0x10, newcl, 0), Found([46, 46], 0x10, parent, 0)]
  {
    hide Sound, Tidy, ListOf, DirSlots, Entries, Listed, Flat, Printable, OnVolume, Mounted, SectorCount, PutAt, DirSector, NoFitBefore, Fit, SectorSlots,
      Uncovered;
    SlotsKept(g, d, d0, ch);
    CreateThenList(g, d0, d1, d2, ch, ch1, bad, name, 0x10, newcl, k, e, m, max);
    SlotsApart(g, d2, d', bad, ch1, newcl, DotSector(newcl, parent));
    if 2 <= max { NewDirLists(g, d2, d', bad, newcl, parent, max); }
  }

  // ------------------------------------------------------------ the seventh file

  /** Every sector of a new directory holds the same slots: "." and "..", and an end mark. */
  lemma NewDirSlot(g: Geometry, d: seq<Sector>, d': seq<Sector>, bad: set<nat>, c: nat, parent: nat, x: nat, i: nat)
    requires Mounted(g, |d|) && IsCluster(g, c) && c < ENTRY_MASK && parent < ENTRY_MASK && i < 16
    requires FilledRange(d, d', bad, DotSector(c, parent), ClusterLba(g, c), g.spc)
    requires OnVolume(g, [c]) && Sound(g, [c], bad) && x < g.spc
    ensures |d'| == |d| && SectorCount(g, [c]) == g.spc && |DirSlots(g, d', [c])| == 16 * g.spc
    ensures DirSlots(g, d', [c])[16 * x + i] == SlotOf(DotSector(c, parent), i)
  {
    hide ClusterLba, Mounted, DotSector;
    MountedBasics(g, |d|);
    DivIs(x, 0, x, g.spc);
    InFileAt(g, [c], x);
    FileLbaBounds(g, |d|, [c], x);
    SlotIn(g, d', [c], x, i);
  }

  function Dots(c: nat, parent: nat): seq<Found> { [Found([46], 0x10, c, 0), Found([46, 46], 0x10, parent, 0)] }

  /** The entries under which new empty files with these names are listed. */
  function NewFiles(names: seq<seq<byte>>): (r: seq<Found>)
    ensures |r| == |names|
  {
    if names == [] then [] else NewFiles(names[..|names| - 1]) + [Found(names[|names| - 1], 0x20, 0, 0)]
  }

  /** A directory as fat32_create_dir leaves it, of at least two sectors, and its slots after each of several creations
      of files with names of up to 13 characters: each goes in behind the one before. */
  ghost predicate FileRun(ss: seq<seq<Slot>>, names: seq<seq<byte>>, c: nat, parent: nat) {
    && c < ENTRY_MASK && parent < ENTRY_MASK && |ss| == |names| + 1 && |ss[0]| >= 32
    && DotsAt(ss[0], c, parent) && DotsAt(ss[0][16..], c, parent)
    && (forall i :: 0 <= i < |names| ==> Added(ss[i], ss[i + 1], 2 + 2 * i, names[i]))
  }

  ghost predicate DotsAt(s: seq<Slot>, c: nat, parent: nat)
    requires c < ENTRY_MASK && parent < ENTRY_MASK
  {
    2 < |s| && s[0] == DotSlot(1, c) && s[1] == DotSlot(2, parent) && s[2][0] == 0
  }

  ghost predicate Added(s: seq<Slot>, s': seq<Slot>, at: nat, name: seq<byte>) {
    0 < |name| <= 13 && Printable(name) && Inserted(s, s', 0, at, Entries(name, 0x20, 0))
  }

  /** That is how fat32_create_dir leaves it. */
  lemma SecondDots(g: Geometry, d: seq<Sector>, d': seq<Sector>, bad: set<nat>, c: nat, parent: nat)
    requires Mounted(g, |d|) && IsCluster(g, c) && c < ENTRY_MASK && parent < ENTRY_MASK
    requires FilledRange(d, d', bad, DotSector(c, parent), ClusterLba(g, c), g.spc)
    requires OnVolume(g, [c]) && Sound(g, [c], bad) && 2 <= g.spc
    ensures |d'| == |d|
    ensures var s := DirSlots(g, d', [c]); |s| >= 32 && DotsAt(s, c, parent) && DotsAt(s[16..], c, parent)
  {
    hide Mounted, FilledRange, Sound, OnVolume, DotSector, DotSlot, SlotOf, DirSlots, ClusterLba;
    DotSlots(c, parent);
    for i := 0 to 3
      invariant i > 0 ==> |d'| == |d| && |DirSlots(g, d', [c])| == 16 * g.spc
      invariant forall j: nat :: j < i ==>
        DirSlots(g, d', [c])[j] == SlotOf(DotSector(c, parent), j) == DirSlots(g, d', [c])[16 + j]
    {
      NewDirSlot(g, d, d', bad, c, parent, 0, i);
      NewDirSlot(g, d, d', bad, c, parent, 1, i);
    }
  }

  /** And that is where fat32_create_file puts a file. */
  lemma FileAdds(g: Geometry, d: seq<Sector>, d1: seq<Sector>, d': seq<Sector>, ch: seq<nat>, ch1: seq<nat>, bad: set<nat>,
                 name: seq<byte>, k: nat, e: nat, m: nat)
    requires Placed(g, d, d1, d', ch, ch1, bad, PartCount(name) + 1, Flat(Entries(name, 0x20, 0)), k, e)
    requires Sound(g, ch1, bad) && Tidy(DirSlots(g, d, ch), m) && m + 2 <= 16 <= |DirSlots(g, d, ch)|
    requires 0 < |name| <= 13 && Printable(name)
    ensures |d'| == |d| && ch1 == ch && Added(DirSlots(g, d, ch), DirSlots(g, d', ch), m, name)
  {
    hide Placed, Extended, Sound, Tidy, DirSlots, Entries, Inserted, Flat, Printable, OnVolume, Mounted, SectorCount, HasFit;
    var ents := Entries(name, 0x20, 0);
    assert PartCount(name) == 1;
    PlacedIs(g, d, d1, d', ch, ch1, bad, ents, k, e, m);
    PlacedExtends(g, d, d1, d', ch, ch1, bad, ents, k, e);
    TidyFits(g, d, ch, 2, m);
    NotGrown(g, d, d1, d', ch, ch1, bad, 2, Flat(ents), k, e);
    SameSlots(g, d, d1, ch, bad);
  }

  lemma TidyFits(g: Geometry, d: seq<Sector>, ch: seq<nat>, n: nat, m: nat)
    requires Mounted(g, |d|) && OnVolume(g, ch) && 1 <= n
    requires Tidy(DirSlots(g, d, ch), m) && m < |DirSlots(g, d, ch)| && m % 16 + n <= 16
    ensures HasFit(g, d, ch, n)
  {
    hide DirSector, SectorSlots, OnVolume, Mounted;
    var k, e := m / 16, m % 16;
    FitAt(g, d, ch, k, e, n);
    assert Fit(SectorSlots(DirSector(g, d, ch, k)), e, n);
  }

  lemma SameSlots(g: Geometry, d: seq<Sector>, d1: seq<Sector>, ch: seq<nat>, bad: set<nat>)
    requires Extended(g, d, d1, ch, ch, bad)
    ensures DirSlots(g, d1, ch) == DirSlots(g, d, ch)
  {
    hide DirSector, Mounted, OnVolume;
    SlotsSame(g, d, d1, ch, SectorCount(g, ch));
  }

  /** One more file in the first sector. */
  lemma FileAdded(s: seq<Slot>, s': seq<Slot>, m: nat, name: seq<byte>, max: nat)
    requires Added(s, s', m, name) && Tidy(s, m) && m + 2 <= 16 <= |s| && |ListOf(s, max)| < max
    ensures ListOf(s', max) ==
      ListOf(s, max) + [Found(name, 0x20, 0, 0)] + ListOf(if m == 14 then s[16..] else [], max - |ListOf(s, max)| - 1)
    ensures m < 14 ==> Tidy(s', m + 2)
    ensures |s'| == |s| && s'[16..] == s[16..]
  {
    hide ListOf, Listed, Entries, Tidy, Inserted;
    ShortNamesListed(name);
    TidyThenList(s, s, s', 0, m, name, 0x20, 0, m, max);
    EntriesUsed(name, 0x20, 0);
    StaysTidy(s, s', m, Entries(name, 0x20, 0));
  }

  /** New slots in the first sector keep a directory tidy if they end before it does, and the other sectors as they
      are. */
  lemma StaysTidy(s: seq<Slot>, s': seq<Slot>, m: nat, ents: seq<Slot>)
    requires Inserted(s, s', 0, m, ents) && Tidy(s, m) && ents != []
    requires forall i :: 0 <= i < |ents| ==> ents[i][0] != 0 && ents[i][0] != DELETED
    ensures m + |ents| < 16 ==> Tidy(s', m + |ents|)
    ensures |s'| == |s| && s'[16..] == s[16..]
  {
  }

  lemma NewDirTidy(s: seq<Slot>, c: nat, parent: nat)
    requires c < ENTRY_MASK && parent < ENTRY_MASK && DotsAt(s, c, parent)
    ensures Tidy(s, 2)
  {
    hide ShortSlot;
    ShortSlotFields(DotName(1), 0x10, c);
    ShortSlotFields(DotName(2), 0x10, parent);
    assert s[0][0] == s[0][..11][0] && s[1][0] == s[1][..11][0];
  }

  /** Up to six files are listed behind the dots, and the second sector is as it was. */
  lemma {:induction false} SixFiles(ss: seq<seq<Slot>>, names: seq<seq<byte>>, c: nat, parent: nat, n: nat, max: nat)
    requires FileRun(ss, names, c, parent) && n <= |names| && n <= 6 && 9 <= max
    ensures Tidy(ss[n], 2 + 2 * n) && |ss[n]| == |ss[0]| && ss[n][16..] == ss[0][16..]
    ensures ListOf(ss[n], max) == Dots(c, parent) + NewFiles(names[..n])
  {
    hide ListOf, DotSlot, Added, Tidy;
    if n == 0 {
      NewDirTidy(ss[0], c, parent);
      ListDots(ss[0], c, parent, max);
      assert names[..0] == [];
    } else {
      SixFiles(ss, names, c, parent, n - 1, max);
      FileAdded(ss[n - 1], ss[n - 1 + 1], 2 * n, names[n - 1], max);
      NothingListed(max - |ListOf(ss[n - 1], max)| - 1);
      assert names[..n][..n - 1] == names[..n - 1];
    }
  }

  /** The seventh file uncovers the dots of the second sector: they are listed again behind it. */
  lemma SeventhFile(ss: seq<seq<Slot>>, names: seq<seq<byte>>, c: nat, parent: nat, max: nat)
    requires FileRun(ss, names, c, parent) && |names| == 7 && 11 <= max
    ensures ListOf(ss[7], max) == Dots(c, parent) + NewFiles(names) + Dots(c, parent)
  {
    hide ListOf, DotSlot, Added, Tidy;
    SixFiles(ss, names, c, parent, 6, max);
    FileAdded(ss[6], ss[6 + 1], 14, names[6], max);
    ListDots(ss[0][16..], c, parent, max - |ListOf(ss[6], max)| - 1);
    assert names[..6] == names[..|names| - 1];
  }
}
