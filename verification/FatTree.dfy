/** The tree that fat32_create_dir builds is the one that path walking relies on. */
module FatTree {
  import opened Arithmetic
  import opened Options
  import opened FatLayout
  import opened FatTable
  import opened FatVolume
  import opened FatFile
  import opened FatDirectory
  import opened FatDirOps
  import opened FatPlace
  import opened FatReuse
  import opened FatCreate
  import opened FatPath

  // ------------------------------------------------- what fat32_read_dir shows

  lemma {:induction false} ReadConcat(a: seq<Slot>, b: seq<Slot>, max: nat)
    requires forall j :: 0 <= j < |a| ==> a[j][0] != 0
    ensures ReadOf(a + b, max) == ReadOf(a, max) + if |ReadOf(a, max)| < max then ReadOf(b, max - |ReadOf(a, max)|) else []
  {
    if a == [] {
      assert a + b == b;
      if max == 0 { ReadNone(b); }
    } else {
      assert (a + b)[0] == a[0] && (a + b)[1..] == a[1..] + b;
      if a[0][ATTR] == LFN { ReadConcat(a[1..], b, max); } else if max > 0 { ReadConcat(a[1..], b, max - 1); }
    }
  }

  lemma {:induction false} ReadNone(slots: seq<Slot>)
    ensures ReadOf(slots, 0) == []
  {
    if slots != [] { ReadNone(slots[1..]); }
  }

  lemma ReadEnd(slots: seq<Slot>, max: nat)
    requires slots != [] ==> slots[0][0] == 0
    ensures ReadOf(slots, max) == []
  {
  }

  lemma ReadTidy(slots: seq<Slot>, m: nat, max: nat)
    requires Tidy(slots, m)
    ensures ReadOf(slots, max) == ReadOf(slots[..m], max)
  {
    hide ReadOf;
    assert slots == slots[..m] + slots[m..];
    ReadConcat(slots[..m], slots[m..], max);
    if |ReadOf(slots[..m], max)| < max { ReadEnd(slots[m..], max - |ReadOf(slots[..m], max)|); }
  }

  /** Zeroed slots at the end of a directory read as nothing. */
  lemma {:induction false} ReadWithZeros(a: seq<Slot>, b: seq<Slot>, max: nat)
    requires b != [] ==> b[0][0] == 0
    ensures ReadOf(a + b, max) == ReadOf(a, max)
  {
    if a == [] {
      assert a + b == b;
    } else {
      assert (a + b)[0] == a[0] && (a + b)[1..] == a[1..] + b;
      if a[0][ATTR] == LFN { ReadWithZeros(a[1..], b, max); } else if max > 0 { ReadWithZeros(a[1..], b, max - 1); }
    }
  }

  lemma ReadBehind(s: seq<Slot>, s1: seq<Slot>, i: nat, max: nat)
    requires s <= s1 && i <= |s1| && forall j :: |s| <= j < |s1| ==> s1[j][0] == 0
    ensures ReadOf(s1[i..], max) == ReadOf(Behind(s, i), max)
  {
    if i <= |s| {
      assert s1[i..] == s[i..] + s1[|s|..];
      ReadWithZeros(s[i..], s1[|s|..], max);
    }
  }

  lemma {:induction false} ReadLong(name: seq<byte>, sum: byte, ord: nat, rest: seq<Slot>, max: nat)
    requires ord <= PartCount(name) <= 20
    ensures ReadOf(LongSlots(name, sum, ord, PartCount(name)) + rest, max) == ReadOf(rest, max)
  {
    var n := PartCount(name);
    if ord == 0 {
      assert LongSlots(name, sum, ord, n) + rest == rest;
    } else {
      var s := LongSlot(name, sum, ord, ord == n);
      LongSlotAt(name, sum, ord, ord == n);
      OrderReadsBack(ord, ord == n);
      assert (LongSlots(name, sum, ord, n) + rest)[1..] == LongSlots(name, sum, ord - 1, n) + rest;
      ReadLong(name, sum, ord - 1, rest, max);
    }
  }

  /** Reading the slots of an entry gives exactly its short slot, and goes on. */
  lemma ReadEntries(name: seq<byte>, attr: byte, cluster: nat, rest: seq<Slot>, max: nat)
    requires Printable(name) && 0 < |name| <= 195 && (attr == 0x20 || attr == 0x10) && cluster < ENTRY_MASK && 0 < max
    ensures ReadOf(Entries(name, attr, cluster) + rest, max) == [ShortSlot(ShortForm(name), attr, cluster)] + ReadOf(rest, max - 1)
  {
    hide ShortForm, ShortSlot, LongSlots, ReadOf;
    var sfn, k := ShortForm(name), PartCount(name);
    var long, s := LongSlots(name, Checksum(sfn), k, k), ShortSlot(sfn, attr, cluster);
    assert Entries(name, attr, cluster) + rest == long + ([s] + rest);
    ReadLong(name, Checksum(sfn), k, [s] + rest, max);
    ShortSlotFields(sfn, attr, cluster);
    ShortFormFirst(name);
    assert s[0] == s[..11][0];
    ReadShort(s, rest, max);
  }

  lemma ReadShort(s: Slot, rest: seq<Slot>, max: nat)
    requires 0x20 <= s[0] < 0x7F && s[ATTR] != LFN && 0 < max
    ensures ReadOf([s] + rest, max) == [s] + ReadOf(rest, max - 1)
  {
    assert ([s] + rest)[1..] == rest;
  }

  lemma Regroup<T>(s: seq<T>, a: seq<T>, b: seq<T>, m: nat)
    requires |a| + |b| == m <= |s| && s[..|a|] == a && s[|a|..m] == b
    ensures s == a + (b + s[m..])
  {
    assert s == s[..m] + s[m..];
  }

  /** Reading slots, none of them an end mark, then those of an entry, then the rest. */
  lemma EntriesRead(front: seq<Slot>, s: seq<Slot>, name: seq<byte>, attr: byte, cluster: nat, max: nat)
    requires Printable(name) && 0 < |name| <= 195 && (attr == 0x20 || attr == 0x10) && cluster < ENTRY_MASK
    requires forall j :: 0 <= j < |front| ==> front[j][0] != 0
    requires var m, n := |front|, PartCount(name) + 1;
      m + n <= |s| && s[..m] == front && s[m..m + n] == Entries(name, attr, cluster)
    ensures var read := ReadOf(front, max);
      ReadOf(s, max) == read + if |read| >= max then []
                               else [ShortSlot(ShortForm(name), attr, cluster)]
                                    + ReadOf(s[|front| + PartCount(name) + 1..], max - |read| - 1)
  {
    hide Entries, Printable, ReadOf, ShortForm, ShortSlot, PartCount;
    var m := |front| + PartCount(name) + 1;
    Regroup(s, front, Entries(name, attr, cluster), m);
    ReadConcat(front, Entries(name, attr, cluster) + s[m..], max);
    if |ReadOf(front, max)| < max { ReadEntries(name, attr, cluster, s[m..], max - |ReadOf(front, max)|); }
  }

  /** Reading a tidy directory after slots for an entry were put into it: if the sector of its end mark had room, the
      new short slot and what that uncovers follow the old ones; otherwise nothing is new. */
  lemma TidyThenRead(s: seq<Slot>, s1: seq<Slot>, s': seq<Slot>, k: nat, e: nat, name: seq<byte>, attr: byte, cluster: nat, m: nat, max: nat)
    requires cluster < ENTRY_MASK && Inserted(s1, s', k, e, Entries(name, attr, cluster))
    requires Printable(name) && 0 < |name| <= 195 && (attr == 0x20 || attr == 0x10)
    requires Tidy(s, m) && Tidy(s1, m) && s <= s1 && forall j :: |s| <= j < |s1| ==> s1[j][0] == 0
    requires if m % 16 + PartCount(name) + 1 <= 16 then 16 * k + e == m else m < 16 * k + e
    ensures var read, n := ReadOf(s, max), PartCount(name) + 1;
      ReadOf(s', max) ==
        if m % 16 + n > 16 || |read| >= max then read
        else read + [ShortSlot(ShortForm(name), attr, cluster)] + ReadOf(Uncovered(s, m, n), max - |read| - 1)
  {
    hide Entries, Inserted, Printable, ReadOf, Behind, ShortForm, ShortSlot, PartCount;
    var ents := Entries(name, attr, cluster);
    InsertedParts(s1, s', k, e, ents);
    ReadTidy(s, m, max);
    assert s1[..m] == s[..m];
    var p, n := 16 * k + e, |ents|;
    var room := max - |ReadOf(s, max)|;
    if m % 16 + n <= 16 {
      SlotInSector(k, e, m);
      EntriesRead(s'[..m], s', name, attr, cluster, max);
      if room > 0 {
        ReadBehind(s, s1, m + n, room - 1);
        if e + n < 16 { ReadEnd(s'[m + n..], room - 1); }
        ReadEnd([], room - 1);
      }
    } else {
      TidyFront(s1, s', m, p);
      ReadTidy(s', m, max);
    }
  }

  lemma TidyFront(s: seq<Slot>, s': seq<Slot>, m: nat, p: nat)
    requires Tidy(s, m) && m < p <= |s| == |s'| && s'[..p] == s[..p]
    ensures Tidy(s', m) && s'[..m] == s[..m]
  {
    assert forall j :: 0 <= j < p ==> s'[j] == s'[..p][j];
  }

  /** What fat32_read_dir shows after an entry was put into a tidy directory with m used slots: the counterpart of
      CreateThenList. */
  lemma CreateThenRead(g: Geometry, d: seq<Sector>, d1: seq<Sector>, d': seq<Sector>, ch: seq<nat>, ch1: seq<nat>, bad: set<nat>,
                       name: seq<byte>, attr: byte, cluster: nat, k: nat, e: nat, m: nat, max: nat)
    requires cluster < ENTRY_MASK && Placed(g, d, d1, d', ch, ch1, bad, PartCount(name) + 1, Flat(Entries(name, attr, cluster)), k, e)
    requires Sound(g, ch1, bad) && Tidy(DirSlots(g, d, ch), m)
    requires Printable(name) && 0 < |name| <= 195 && (attr == 0x20 || attr == 0x10)
    ensures |d'| == |d|
    ensures var s, n := DirSlots(g, d, ch), PartCount(name) + 1; var read := ReadOf(s, max);
      ReadOf(DirSlots(g, d', ch1), max) ==
        if m % 16 + n > 16 || |read| >= max then read
        else read + [ShortSlot(ShortForm(name), attr, cluster)] + ReadOf(Uncovered(s, m, n), max - |read| - 1)
  {
    hide Placed, Extended, Sound, Tidy, ReadOf, DirSlots, Entries, Inserted, Flat, Printable, OnVolume, Mounted, SectorCount, ShortForm, ShortSlot,
      Uncovered;
    var ents := Entries(name, attr, cluster);
    PlacedIs(g, d, d1, d', ch, ch1, bad, ents, k, e, m);
    PlacedExtends(g, d, d1, d', ch, ch1, bad, ents, k, e);
    ExtendedSlots(g, d, d1, ch, ch1, bad);
    TidyThenRead(DirSlots(g, d, ch), DirSlots(g, d1, ch1), DirSlots(g, d', ch1), k, e, name, attr, cluster, m, max);
  }

  /** So exactly the new short slot is added if and only if the entry fits in the sector of the end mark, there is
      room for one slot more, and then for no other or nothing that is read comes to light. */
  lemma ReadsExactly(g: Geometry, d: seq<Sector>, d1: seq<Sector>, d': seq<Sector>, ch: seq<nat>, ch1: seq<nat>, bad: set<nat>,
                     name: seq<byte>, attr: byte, cluster: nat, k: nat, e: nat, m: nat, max: nat)
    requires cluster < ENTRY_MASK && Placed(g, d, d1, d', ch, ch1, bad, PartCount(name) + 1, Flat(Entries(name, attr, cluster)), k, e)
    requires Sound(g, ch1, bad) && Tidy(DirSlots(g, d, ch), m)
    requires Printable(name) && 0 < |name| <= 195 && (attr == 0x20 || attr == 0x10)
    ensures var s, n := DirSlots(g, d, ch), PartCount(name) + 1; var read := ReadOf(s, max);
      (ReadOf(DirSlots(g, d', ch1), max) == read + [ShortSlot(ShortForm(name), attr, cluster)]) ==
        (m % 16 + n <= 16 && |read| < max && (|read| + 1 == max || ReadCounted(Uncovered(s, m, n)) == 0))
  {
    hide Placed, Extended, Sound, Tidy, ReadOf, DirSlots, Entries, Flat, Printable, OnVolume, Mounted, SectorCount, Uncovered, ReadCounted, ShortForm, ShortSlot;
    CreateThenRead(g, d, d1, d', ch, ch1, bad, name, attr, cluster, k, e, m, max);
    PlacedIs(g, d, d1, d', ch, ch1, bad, Entries(name, attr, cluster), k, e, m);
    var s, n := DirSlots(g, d, ch), PartCount(name) + 1;
    var read := ReadOf(s, max);
    if |read| < max {
      ReadCount(Uncovered(s, m, n), max - |read| - 1);
      OneMoreExactly(read, ShortSlot(ShortForm(name), attr, cluster), ReadOf(Uncovered(s, m, n), max - |read| - 1));
    }
  }

  // ---------------------------------------------------- a created directory

  lemma DirChainIs(tab: seq<nat>, ch: seq<nat>)
    requires Chain(tab, ch) && |tab| <= END
    ensures ch != [] && IsDir(tab, ch[0]) && DirChain(tab, ch[0]) == ch
  {
    var other := DirChain(tab, ch[0]);
    ChainsMerge(tab, ch, other, 0, 0);
    assert ch[0..] == ch && other[0..] == other;
  }

  /** In a directory whose sectors all transfer, listing and reading succeed. */
  lemma SoundShows(g: Geometry, d: seq<Sector>, bad: set<nat>, ch: seq<nat>, max: nat)
    requires Mounted(g, |d|) && OnVolume(g, ch) && Sound(g, ch, bad)
    ensures !ListFails(g, d, bad, ch, max) && !ReadFails(g, d, bad, ch, max)
  {
    hide Mounted, OnVolume, FileLba, SlotsTo, Scan, ReadStops, InFile;
    MountedBasics(g, |d|);
    forall k: nat | k < SectorCount(g, ch) ensures DirLba(g, ch, k) !in bad {
      DivLess(k, |ch|, g.spc);
      InFileAt(g, ch, k);
    }
  }

  lemma PlainForm(name: seq<byte>)
    requires Plain(name)
    ensures ShortForm(name)[..8] == Padded(name, 8) && Printable(name) && PartCount(name) == 1
  {
    var dot := DotAt(name);
    assert dot == |name|;
    assert UpperAll(name[..dot]) == name;
  }

  /** What a directory with exactly "." and ".." in front of its end mark reads as. */
  lemma ReadDots(s: seq<Slot>, c: nat, parent: nat, max: nat)
    requires c < ENTRY_MASK && parent < ENTRY_MASK && 2 <= max && 2 < |s|
    requires s[0] == DotSlot(1, c) && s[1] == DotSlot(2, parent) && s[2][0] == 0
    ensures ReadOf(s, max) == [s[0], s[1]] && FirstCluster(s[0]) == c && FirstCluster(s[1]) == parent
    ensures !IsDotDot(s[0]) && IsDotDot(s[1])
  {
    hide ShortSlot;
    ShortSlotFields(DotName(1), 0x10, c);
    ShortSlotFields(DotName(2), 0x10, parent);
    assert s[0][0] == s[0][..11][0] && s[0][1] == s[0][..11][1] && s[1][0] == s[1][..11][0] && s[1][1] == s[1][..11][1];
    assert s[1..][0] == s[1] && s[1..][1..] == s[2..] && s[2..][0] == s[2];
    ReadEnd(s[2..], max - 2);
    assert ReadOf(s[1..], max - 1) == [s[1]] + ReadOf(s[2..], max - 2);
  }

  /** A directory just created reads as "." and "..". */
  lemma NewDirReads(g: Geometry, d: seq<Sector>, d': seq<Sector>, bad: set<nat>, c: nat, parent: nat, max: nat)
    requires Mounted(g, |d|) && IsCluster(g, c) && c < ENTRY_MASK && parent < ENTRY_MASK && 2 <= max
    requires FilledRange(d, d', bad, DotSector(c, parent), ClusterLba(g, c), g.spc)
    requires OnVolume(g, [c]) && Sound(g, [c], bad)
    ensures |d'| == |d|
    ensures var r := ReadOf(DirSlots(g, d', [c]), max);
      |r| == 2 && !IsDotDot(r[0]) && IsDotDot(r[1]) && FirstCluster(r[1]) == parent
  {
    hide DotSector, DotSlot, SlotOf, FileLba, ClusterLba, DirSector, ReadOf;
    FirstDirSector(g, d, d', bad, c, DotSector(c, parent));
    var ch := [c];
    var s := DirSlots(g, d', ch);
    var n := SectorCount(g, ch);
    SlotAt(g, d', ch, n, 0, 0);
    SlotAt(g, d', ch, n, 0, 1);
    SlotAt(g, d', ch, n, 0, 2);
    DotSlots(c, parent);
    ReadDots(s, c, parent, max);
  }

  /** What a creation of two slots in a tidy directory with m used slots uncovers of a listing of 64 entries, if
      those used slots show n of them; and of a reading of 32. */
  function MoreListed(slots: seq<Slot>, m: nat, n: nat): seq<Found>
    requires n < 64
  {
    ListOf(Uncovered(slots, m, 2), 63 - n)
  }

  function MoreRead(slots: seq<Slot>, m: nat, n: nat): seq<Slot>
    requires n < 32
  {
    ReadOf(Uncovered(slots, m, 2), 31 - n)
  }

  /** Nothing that the directory shows or will show is called `name` or leads to cluster c, and there is room in what
      the two callers of the listings ask for. */
  ghost predicate Unused(slots: seq<Slot>, m: nat, name: seq<byte>, c: nat) {
    var list, shorts := ListOf(slots, 64), ReadOf(slots, 32);
    && |list| < 64 && |shorts| < 32
    && (forall f :: f in list + MoreListed(slots, m, |list|) && IsDirAttr(f.attr) ==> !SameName(f.name, name))
    && (forall s :: s in shorts + MoreRead(slots, m, |shorts|) ==> !Leads(s, c))
  }

  lemma ChildListed(list: seq<Found>, more: seq<Found>, name: seq<byte>, c: nat)
    requires forall f :: f in list + more && IsDirAttr(f.attr) ==> !SameName(f.name, name)
    ensures var list' := list + [Found(name, 0x10, c, 0)] + more;
      && list'[|list|] == Found(name, 0x10, c, 0) && IsDirAttr(0x10)
      && forall f :: f in list' && IsDirAttr(f.attr) && SameName(f.name, name) ==> f.firstCluster == c
  {
  }

  lemma ChildRead(shorts: seq<Slot>, more: seq<Slot>, name: seq<byte>, c: nat)
    requires Plain(name) && c < ENTRY_MASK && forall s :: s in shorts + more ==> !Leads(s, c)
    ensures var s' := ShortSlot(ShortForm(name), 0x10, c); var shorts' := shorts + [s'] + more;
      && s' in shorts' && Leads(s', c)
      && forall s :: s in shorts' && Leads(s, c) ==> s[..8] == Padded(name, 8)
  {
    hide ShortForm, ShortSlot;
    PlainForm(name);
    var sfn := ShortForm(name);
    var s' := ShortSlot(sfn, 0x10, c);
    ShortSlotFields(sfn, 0x10, c);
    assert s'[..8] == s'[..11][..8];
  }

  /** What a volume shows of a directory whose chain is ch. */
  lemma Shown(w: Volume, ch: seq<nat>, max: nat)
    requires w.Valid() && Chain(w.Tab(), ch) && OnVolume(w.g, ch) && Sound(w.g, ch, w.bad)
    ensures ch != [] && w.Dir(ch[0])
    ensures w.Listing(ch[0], max) == Some(ListOf(DirSlots(w.g, w.d, ch), max))
    ensures w.Shorts(ch[0]) == ReadOf(DirSlots(w.g, w.d, ch), 32)
  {
    hide ListOf, ReadOf, DirSlots, Mounted, OnVolume, Sound, ListFails, ReadFails, Chain;
    DirChainIs(w.Tab(), ch);
    SoundShows(w.g, w.d, w.bad, ch, max);
    SoundShows(w.g, w.d, w.bad, ch, 32);
  }

  /** Two directories are parent and child if their listings and slots fit. */
  lemma ChildIs(w: Volume, ch: seq<nat>, name: seq<byte>, c: nat, list: seq<Found>, list1: seq<Found>, shorts: seq<Slot>, shorts1: seq<Slot>)
    requires w.Valid() && Chain(w.Tab(), ch) && ch != [] && Chain(w.Tab(), [c])
    requires Plain(name) && c < ENTRY_MASK && c >= 2 && ch[0] >= 2 && c != ch[0] && c != w.g.root
    requires OnVolume(w.g, ch) && OnVolume(w.g, [c]) && Sound(w.g, ch, w.bad) && Sound(w.g, [c], w.bad)
    requires ListOf(DirSlots(w.g, w.d, ch), 64) == list + [Found(name, 0x10, c, 0)] + list1
    requires ReadOf(DirSlots(w.g, w.d, ch), 32) == shorts + [ShortSlot(ShortForm(name), 0x10, c)] + shorts1
    requires forall f :: f in list + list1 && IsDirAttr(f.attr) ==> !SameName(f.name, name)
    requires forall s :: s in shorts + shorts1 ==> !Leads(s, c)
    requires var list' := ListOf(DirSlots(w.g, w.d, [c]), 2); |list'| == 2 && list'[1].firstCluster == ch[0]
    requires var r := ReadOf(DirSlots(w.g, w.d, [c]), 32);
      |r| == 2 && !IsDotDot(r[0]) && IsDotDot(r[1]) && FirstCluster(r[1]) == ch[0]
    ensures Child(w, ch[0], name, c)
  {
    hide Chain, Sound, ListOf, ReadOf, DirSlots, IsDotDot, Leads, SameName, ShortForm, ShortSlot, Plain, IsDirAttr, Mounted, IsDir, DirChain, FirstCluster,
      Table, OnVolume, ListFails, ReadFails, Volume.Listing, Volume.Shorts;
    Shown(w, ch, 64);
    Shown(w, [c], 2);
    ChildListed(list, list1, name, c);
    ChildRead(shorts, shorts1, name, c);
    var up := w.Shorts(c);
    assert up[1] in up;
    assert w.Listing(ch[0], 64).value[|list|] == Found(name, 0x10, c, 0);
  }

  /** The parent's listings after fat32_create_dir. */
  lemma ParentShows(g: Geometry, d: seq<Sector>, d0: seq<Sector>, d1: seq<Sector>, d2: seq<Sector>, d': seq<Sector>,
                    ch: seq<nat>, ch1: seq<nat>, bad: set<nat>, name: seq<byte>, c: nat, k: nat, e: nat, m: nat)
    requires IsCluster(g, c) && c < ENTRY_MASK && ch1 != [] && ch1[0] < ENTRY_MASK && c !in ch1 && SameData(g, d, d0)
    requires Placed(g, d0, d1, d2, ch, ch1, bad, PartCount(name) + 1, Flat(Entries(name, 0x10, c)), k, e)
    requires FilledRange(d2, d', bad, DotSector(c, ch1[0]), ClusterLba(g, c), g.spc)
    requires OnVolume(g, [c]) && Sound(g, ch1, bad) && Sound(g, [c], bad)
    requires Tidy(DirSlots(g, d, ch), m) && m % 16 + 2 <= 16 && Plain(name) && Unused(DirSlots(g, d, ch), m, name, c)
    ensures Mounted(g, |d|) && OnVolume(g, ch) && OnVolume(g, ch1) && |d'| == |d| == |d2|
    ensures var s := DirSlots(g, d, ch); var list, shorts := ListOf(s, 64), ReadOf(s, 32);
      && |list| < 64 && |shorts| < 32
      && ListOf(DirSlots(g, d', ch1), 64) == list + [Found(name, 0x10, c, 0)] + MoreListed(s, m, |list|)
      && ReadOf(DirSlots(g, d', ch1), 32) == shorts + [ShortSlot(ShortForm(name), 0x10, c)] + MoreRead(s, m, |shorts|)
  {
    hide Uncovered, Placed, Sound, Tidy, ListOf, ReadOf, DirSlots, Entries, Listed, Flat, Printable, OnVolume, Mounted, SectorCount, DirSector,
      SectorSlots, Plain, ShortForm, ShortSlot, FilledRange, DotSector;
    FilledSize(d2, d', bad, DotSector(c, ch1[0]), ClusterLba(g, c), g.spc);
    PlainForm(name);
    PlainListed(name);
    PlacedExtends(g, d0, d1, d2, ch, ch1, bad, Entries(name, 0x10, c), k, e);
    SlotsKept(g, d, d0, ch);
    CreateThenList(g, d0, d1, d2, ch, ch1, bad, name, 0x10, c, k, e, m, 64);
    CreateThenRead(g, d0, d1, d2, ch, ch1, bad, name, 0x10, c, k, e, m, 32);
    SlotsApart(g, d2, d', bad, ch1, c, DotSector(c, ch1[0]));
  }

  lemma FilledSize(d: seq<Sector>, d': seq<Sector>, bad: set<nat>, s: Sector, base: nat, n: nat)
    requires FilledRange(d, d', bad, s, base, n)
    ensures |d'| == |d|
  {
  }

  lemma PlainListed(name: seq<byte>)
    requires Plain(name)
    ensures Listed(name) == name && 0 < |name| <= 13
  {
    ShortNamesListed(name);
  }

  /** The directory fat32_create_dir leaves is a child, in the sense on which descent and its inverse rely: what
      is required of the disks and chains is what fat32_create_dir promises of them. */
  lemma CreatedChild(g: Geometry, d: seq<Sector>, d0: seq<Sector>, d1: seq<Sector>, d2: seq<Sector>, d': seq<Sector>,
                     ch: seq<nat>, ch1: seq<nat>, bad: set<nat>, name: seq<byte>, c: nat, k: nat, e: nat, m: nat)
    requires IsCluster(g, c) && c < ENTRY_MASK && ch1 != [] && ch1[0] < ENTRY_MASK && c !in ch1 && SameData(g, d, d0)
    requires Placed(g, d0, d1, d2, ch, ch1, bad, PartCount(name) + 1, Flat(Entries(name, 0x10, c)), k, e)
    requires FilledRange(d2, d', bad, DotSector(c, ch1[0]), ClusterLba(g, c), g.spc)
    requires OnVolume(g, [c]) && Sound(g, ch1, bad) && Sound(g, [c], bad)
    requires Mounted(g, |d'|) && Chain(Table(g, d', 0), ch1) && Chain(Table(g, d', 0), [c])
    requires Tidy(DirSlots(g, d, ch), m) && m % 16 + 2 <= 16 && Plain(name) && c != g.root
    requires Unused(DirSlots(g, d, ch), m, name, c)
    ensures Child(Volume(g, d', bad), ch1[0], name, c)
  {
    hide ListOf, ReadOf, DirSlots, Flat, Entries, SameData, FilledRange, Tidy, Plain, ShortForm, ShortSlot, DotSector, IsDotDot, Child, ClusterLba,
      Chain, InFile, Placed;
    var w, p := Volume(g, d', bad), ch1[0];
    ParentShows(g, d, d0, d1, d2, d', ch, ch1, bad, name, c, k, e, m);
    NewDirReads(g, d2, d', bad, c, p, 32);
    NewDirLists(g, d2, d', bad, c, p, 2);
    ChainOnVolume(g, w.Tab(), ch1);
    assert ch1[0] in ch1;
    var s := DirSlots(g, d, ch);
    var list, shorts := ListOf(s, 64), ReadOf(s, 32);
    ChildIs(w, ch1, name, c, list, MoreListed(s, m, |list|), shorts, MoreRead(s, m, |shorts|));
  }

  lemma ListEnd(slots: seq<Slot>, max: nat)
    requires slots != [] ==> slots[0][0] == 0
    ensures ListOf(slots, max) == []
  {
    ScanDone(Start(), slots, max);
  }

  lemma AllSound(g: Geometry, ch: seq<nat>)
    requires 0 < g.spc && OnVolume(g, ch)
    ensures Sound(g, ch, {})
  {
  }
}
