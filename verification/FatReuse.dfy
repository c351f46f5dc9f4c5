/** New entries in any directory, deleted slots and all: what is kept, and what the listing then shows. */
module FatReuse {
  import opened Arithmetic
  import opened FatLayout
  import opened FatTable
  import opened FatVolume
  import opened FatFile
  import opened FatDirectory
  import opened FatDirOps
  import opened FatPlace

  // ------------------------------------------------- sectors in terms of slots

  /** No sector of the directory fails. */
  ghost predicate Sound(g: Geometry, ch: seq<nat>, bad: set<nat>)
    requires 0 < g.spc && OnVolume(g, ch)
  {
    forall l :: InFile(g, ch, l) ==> l !in bad
  }

  lemma ZeroSlots(e: nat)
    requires e < 16
    ensures SlotOf(ZeroSector(), e)[0] == 0
  {
  }

  /** n free slots of the directory from p on. */
  predicate FreeRun(slots: seq<Slot>, p: nat, n: nat) {
    p + n <= |slots| && forall j :: p <= j < p + n ==> FreeSlot(slots[j])
  }

  /** The fit in terms of the directory's slots. */
  lemma FitAt(g: Geometry, d: seq<Sector>, ch: seq<nat>, k: nat, e: nat, n: nat)
    requires Mounted(g, |d|) && OnVolume(g, ch) && k < SectorCount(g, ch) && e < 16
    ensures |DirSlots(g, d, ch)| == 16 * SectorCount(g, ch)
    ensures Window(SectorSlots(DirSector(g, d, ch, k)), e, n) <==> FreeRun(DirSlots(g, d, ch), 16 * k + e, n) && e + n <= 16
    ensures Fit(SectorSlots(DirSector(g, d, ch, k)), e, n) <==>
      e + n <= 16 && (FreeRun(DirSlots(g, d, ch), 16 * k + e, n) || DirSlots(g, d, ch)[16 * k + e][0] == 0)
  {
    hide DirSector, SlotOf, FreeSlot;
    var s := DirSlots(g, d, ch);
    var sec := SectorSlots(DirSector(g, d, ch, k));
    forall i | 0 <= i < 16 ensures sec[i] == s[16 * k + i] { SlotAt(g, d, ch, SectorCount(g, ch), k, i); }
    if e + n <= 16 {
      if Window(sec, e, n) {
        forall j | 16 * k + e <= j < 16 * k + e + n ensures FreeSlot(s[j]) { assert sec[j - 16 * k] == s[j]; }
      }
      if FreeRun(s, 16 * k + e, n) {
        forall i | e <= i < e + n ensures FreeSlot(sec[i]) { assert sec[i] == s[16 * k + i]; }
      }
    }
  }

  /** Only sector k of the directory is written. */
  lemma PutSector(g: Geometry, d: seq<Sector>, ch: seq<nat>, k: nat, s: Sector, k': nat)
    requires Mounted(g, |d|) && OnVolume(g, ch) && k < SectorCount(g, ch) && k' < SectorCount(g, ch)
    requires Quotient(k, g.spc) < |ch| && FileLba(g, ch, k) < |d|
    ensures DirSector(g, d[FileLba(g, ch, k) := s], ch, k') == if k' == k then s else DirSector(g, d, ch, k')
  {
    hide FileLba, Mounted, OnVolume;
    DivLess(k', |ch|, g.spc);
    FileLbaBounds(g, |d|, ch, k');
    if k' != k { FileLbaInjective(g, |d|, ch, k, k'); }
  }

  // --------------------------------------------------- the slots afterwards

  /** Slot i of a sector before the entries go in: at an end mark without room the rest is cleared first. */
  function Under(s: Slot, cleared: bool): Slot { if cleared then Zeros(32) else s }

  lemma PutAtSlot(s: Sector, e: nat, ents: seq<Slot>, i: nat)
    requires Fit(SectorSlots(s), e, |ents|) && i < 16
    ensures SlotOf(PutAt(s, e, |ents|, Flat(ents)), i) ==
      if e <= i < e + |ents| then ents[i - e]
      else Marked(Under(SlotOf(s, i), !Window(SectorSlots(s), e, |ents|) && i >= e), i == e + |ents|)
  {
    hide SlotOf, PutOn, Flat, Marked, SectorSlots, Zeros;
    if Window(SectorSlots(s), e, |ents|) {
      PutOnSlot(s, e, ents, i);
    } else {
      var base := s[..32 * e] + Zeros(512 - 32 * e);
      PutOnSlot(base, e, ents, i);
      ClearedSlot(s, e, i);
    }
  }

  /** From slots s to s', the entries went in at slot e of sector k. */
  ghost predicate Inserted(s: seq<Slot>, s': seq<Slot>, k: nat, e: nat, ents: seq<Slot>) {
    var p, n := 16 * k + e, |ents|;
    && |s'| == |s| && e < 16 && e + n <= 16 && 16 * k + 16 <= |s|
    && (FreeRun(s, p, n) || s[p][0] == 0)
    && (forall j :: 0 <= j < |s| ==> s'[j] == SlotAfter(s, k, e, ents, j))
  }

  /** Slot j afterwards. Only sector k changes: the entries from slot e on, and an end mark behind them. */
  function SlotAfter(s: seq<Slot>, k: nat, e: nat, ents: seq<Slot>, j: nat): Slot
    requires j < |s|
  {
    if !(16 * k <= j < 16 * k + 16) then s[j]
    else if 16 * k + e <= j < 16 * k + e + |ents| then ents[j - (16 * k + e)]
    else Marked(Under(s[j], !FreeRun(s, 16 * k + e, |ents|) && j >= 16 * k + e), j == 16 * k + e + |ents|)
  }

  /** Slot i of sector x afterwards. */
  lemma InsertedSlot(g: Geometry, d: seq<Sector>, ch: seq<nat>, k: nat, e: nat, ents: seq<Slot>, x: nat, i: nat)
    requires Mounted(g, |d|) && OnVolume(g, ch) && k < SectorCount(g, ch) && x < SectorCount(g, ch) && i < 16 && e < 16
    requires Fit(SectorSlots(DirSector(g, d, ch, k)), e, |ents|) && Quotient(k, g.spc) < |ch| && FileLba(g, ch, k) < |d|
    ensures var d' := d[FileLba(g, ch, k) := PutAt(DirSector(g, d, ch, k), e, |ents|, Flat(ents))];
      SlotOf(DirSector(g, d', ch, x), i) ==
        if x != k then SlotOf(DirSector(g, d, ch, x), i)
        else if e <= i < e + |ents| then ents[i - e]
        else Marked(Under(SlotOf(DirSector(g, d, ch, x), i), !Window(SectorSlots(DirSector(g, d, ch, k)), e, |ents|) && i >= e),
                    i == e + |ents|)
  {
    hide DirSector, SectorSlots, OnVolume, Mounted, FileLba, PutAt, Flat, Fit, SlotOf, Window, Marked, Under;
    PutSector(g, d, ch, k, PutAt(DirSector(g, d, ch, k), e, |ents|, Flat(ents)), x);
    if x == k { PutAtSlot(DirSector(g, d, ch, k), e, ents, i); }
  }

  /** The same in terms of the directory's slots. */
  lemma SlotThen(g: Geometry, d: seq<Sector>, d': seq<Sector>, ch: seq<nat>, k: nat, e: nat, ents: seq<Slot>, x: nat, i: nat)
    requires Mounted(g, |d|) && OnVolume(g, ch) && k < SectorCount(g, ch) && x < SectorCount(g, ch) && i < 16 && e < 16
    requires Fit(SectorSlots(DirSector(g, d, ch, k)), e, |ents|) && Quotient(k, g.spc) < |ch| && FileLba(g, ch, k) < |d|
    requires d' == d[FileLba(g, ch, k) := PutAt(DirSector(g, d, ch, k), e, |ents|, Flat(ents))]
    ensures 16 * x + i < |DirSlots(g, d, ch)| == |DirSlots(g, d', ch)|
    ensures DirSlots(g, d', ch)[16 * x + i] == SlotAfter(DirSlots(g, d, ch), k, e, ents, 16 * x + i)
  {
    hide DirSector, SectorSlots, OnVolume, Mounted, FileLba, PutAt, Flat, SlotOf, Window, FreeRun, Marked, Under, SectorCount, Quotient;
    FitAt(g, d, ch, k, e, |ents|);
    InsertedSlot(g, d, ch, k, e, ents, x, i);
    SlotIn(g, d, ch, x, i);
    SlotIn(g, d', ch, x, i);
    Untouched(DirSlots(g, d, ch)[16 * x + i]);
  }

  lemma Untouched(s: Slot)
    ensures Marked(Under(s, false), false) == s
  {
  }

  lemma SlotsThen(g: Geometry, d: seq<Sector>, d': seq<Sector>, ch: seq<nat>, k: nat, e: nat, ents: seq<Slot>)
    requires Mounted(g, |d|) && OnVolume(g, ch) && k < SectorCount(g, ch) && e < 16
    requires Fit(SectorSlots(DirSector(g, d, ch, k)), e, |ents|) && Quotient(k, g.spc) < |ch| && FileLba(g, ch, k) < |d|
    requires d' == d[FileLba(g, ch, k) := PutAt(DirSector(g, d, ch, k), e, |ents|, Flat(ents))]
    ensures |DirSlots(g, d', ch)| == |DirSlots(g, d, ch)|
    ensures forall j :: 0 <= j < |DirSlots(g, d, ch)| ==> DirSlots(g, d', ch)[j] == SlotAfter(DirSlots(g, d, ch), k, e, ents, j)
  {
    hide DirSector, SectorSlots, OnVolume, Mounted, FileLba, PutAt, Flat, Fit, SlotOf, Window, SectorCount, Quotient, SlotAfter, DirSlots;
    FitAt(g, d, ch, k, e, |ents|);
    SlotThen(g, d, d', ch, k, e, ents, k, 0);
    forall j | 0 <= j < |DirSlots(g, d, ch)| ensures DirSlots(g, d', ch)[j] == SlotAfter(DirSlots(g, d, ch), k, e, ents, j) {
      SlotThen(g, d, d', ch, k, e, ents, j / 16, j % 16);
    }
  }

  /** The entries of a creation go in at the place found. */
  lemma PlacedInserts(g: Geometry, d: seq<Sector>, d1: seq<Sector>, d': seq<Sector>, ch: seq<nat>, ch1: seq<nat>, bad: set<nat>,
                      ents: seq<Slot>, k: nat, e: nat)
    requires Placed(g, d, d1, d', ch, ch1, bad, |ents|, Flat(ents), k, e) && ents != []
    ensures Mounted(g, |d1|) && |d'| == |d1| && OnVolume(g, ch1)
    ensures Inserted(DirSlots(g, d1, ch1), DirSlots(g, d', ch1), k, e, ents)
  {
    hide Placed, DirSector, SectorSlots, OnVolume, Mounted, FileLba, PutAt, Flat, Fit, SlotOf, Window, FreeRun, DirSlots, SectorCount, Quotient,
      SlotAfter, Inserted;
    PlacedFits(g, d, d1, d', ch, ch1, bad, ents, k, e);
    FitAt(g, d1, ch1, k, e, |ents|);
    SlotsThen(g, d1, d', ch1, k, e, ents);
    InsertedIs(DirSlots(g, d1, ch1), DirSlots(g, d', ch1), k, e, ents);
  }

  lemma InsertedIs(s: seq<Slot>, s': seq<Slot>, k: nat, e: nat, ents: seq<Slot>)
    requires |s'| == |s| && e < 16 && e + |ents| <= 16 && 16 * k + 16 <= |s|
    requires FreeRun(s, 16 * k + e, |ents|) || s[16 * k + e][0] == 0
    requires forall j :: 0 <= j < |s| ==> s'[j] == SlotAfter(s, k, e, ents, j)
    ensures Inserted(s, s', k, e, ents)
  {
  }

  lemma SlotIn(g: Geometry, d: seq<Sector>, ch: seq<nat>, x: nat, i: nat)
    requires Mounted(g, |d|) && OnVolume(g, ch) && x < SectorCount(g, ch) && i < 16
    ensures 16 * x + i < |DirSlots(g, d, ch)| && DirSlots(g, d, ch)[16 * x + i] == SlotOf(DirSector(g, d, ch, x), i)
  {
    SlotAt(g, d, ch, SectorCount(g, ch), x, i);
  }

  lemma PlacedFits(g: Geometry, d: seq<Sector>, d1: seq<Sector>, d': seq<Sector>, ch: seq<nat>, ch1: seq<nat>, bad: set<nat>,
                   ents: seq<Slot>, k: nat, e: nat)
    requires Placed(g, d, d1, d', ch, ch1, bad, |ents|, Flat(ents), k, e) && ents != []
    ensures Mounted(g, |d1|) && OnVolume(g, ch1) && k < SectorCount(g, ch1) && |d'| == |d1| && e < 16 && e + |ents| <= 16
    ensures Fit(SectorSlots(DirSector(g, d1, ch1, k)), e, |ents|)
    ensures Quotient(k, g.spc) < |ch1| && FileLba(g, ch1, k) < |d1|
    ensures d' == d1[FileLba(g, ch1, k) := PutAt(DirSector(g, d1, ch1, k), e, |ents|, Flat(ents))]
  {
    hide DirSector, SectorSlots, FileLba, PutAt, Flat, NoFitBefore, Mounted, OnVolume;
  }

  // ------------------------------------------------------- what is kept

  /** Slot j is before the end mark and not free. */
  ghost predicate LiveAt(s: seq<Slot>, j: nat) { Reached(s, j) && !FreeSlot(s[j]) }

  /** Every live slot is still there, and before the end mark. */
  ghost predicate AllKept(s: seq<Slot>, s': seq<Slot>) {
    forall j: nat :: LiveAt(s, j) ==> LiveAt(s', j) && s'[j] == s[j]
  }

  /** A creation keeps the old entries exactly if the new ones end with their sector, or nothing live lies behind
      them: the end mark stored behind reused slots destroys the entry there and hides those that follow. */
  lemma EntriesKept(s: seq<Slot>, s': seq<Slot>, k: nat, e: nat, ents: seq<Slot>)
    requires Inserted(s, s', k, e, ents) && ents != [] && forall i :: 0 <= i < |ents| ==> ents[i][0] != 0
    ensures AllKept(s, s') <==> e + |ents| == 16 || forall j: nat :: 16 * k + e + |ents| <= j ==> !LiveAt(s, j)
  {
    hide Inserted;
    InsertedParts(s, s', k, e, ents);
    var end := 16 * k + e + |ents|;
    if e + |ents| == 16 {
      NoMark(s, s', k, e, ents);
    } else if j: nat :| end <= j && LiveAt(s, j) {
      MarkHides(s, s', k, e, ents, j);
    } else {
      forall j: nat | LiveAt(s, j) ensures LiveAt(s', j) && s'[j] == s[j] { FrontKept(s, s', k, e, ents, j); }
    }
  }

  lemma FrontKept(s: seq<Slot>, s': seq<Slot>, k: nat, e: nat, ents: seq<Slot>, j: nat)
    requires Inserted(s, s', k, e, ents) && ents != [] && LiveAt(s, j) && j < 16 * k + e + |ents|
    ensures j < 16 * k + e && LiveAt(s', j) && s'[j] == s[j]
  {
  }

  lemma NoMark(s: seq<Slot>, s': seq<Slot>, k: nat, e: nat, ents: seq<Slot>)
    requires Inserted(s, s', k, e, ents) && ents != [] && e + |ents| == 16 && forall i :: 0 <= i < |ents| ==> ents[i][0] != 0
    ensures AllKept(s, s')
  {
    forall j: nat | LiveAt(s, j) ensures LiveAt(s', j) && s'[j] == s[j] {
      if j < 16 * k + 16 {
        FrontKept(s, s', k, e, ents, j);
      } else {
        assert s[16 * k + e][0] != 0;
        forall i | 0 <= i <= j ensures s'[i][0] != 0 { assert s[i][0] != 0; }
      }
    }
  }

  lemma MarkHides(s: seq<Slot>, s': seq<Slot>, k: nat, e: nat, ents: seq<Slot>, j: nat)
    requires Inserted(s, s', k, e, ents) && ents != [] && e + |ents| < 16 && 16 * k + e + |ents| <= j && LiveAt(s, j)
    ensures !AllKept(s, s')
  {
    var m := 16 * k + e + |ents|;
    assert s'[m][0] == 0;
    assert !Reached(s', j);
  }

  /** The slots of a new entry all count as used. */
  lemma EntriesUsed(name: seq<byte>, attr: byte, cluster: nat)
    requires Printable(name) && 0 < |name| <= 195 && cluster < ENTRY_MASK
    ensures forall i :: 0 <= i < |Entries(name, attr, cluster)| ==>
      Entries(name, attr, cluster)[i][0] != 0 && Entries(name, attr, cluster)[i][0] != DELETED
  {
    hide ShortForm, ShortSlot;
    var sfn, k := ShortForm(name), PartCount(name);
    LongUsed(name, Checksum(sfn), k);
    ShortSlotFields(sfn, attr, cluster);
    ShortFormFirst(name);
    assert ShortSlot(sfn, attr, cluster)[0] == ShortSlot(sfn, attr, cluster)[..11][0];
  }

  lemma {:induction false} LongUsed(name: seq<byte>, sum: byte, ord: nat)
    requires ord <= PartCount(name) <= 20
    ensures forall i :: 0 <= i < ord ==>
      LongSlots(name, sum, ord, PartCount(name))[i][0] != 0 && LongSlots(name, sum, ord, PartCount(name))[i][0] != DELETED
  {
    if ord > 0 {
      LongUsed(name, sum, ord - 1);
      LongSlotAt(name, sum, ord, ord == PartCount(name));
      OrderReadsBack(ord, ord == PartCount(name));
      SmallOrder(ord, ord == PartCount(name));
    }
  }

  lemma SmallOrder(ord: nat, last: bool)
    requires ord <= 20
    ensures OrderByte(ord, last) != DELETED
  {
  }

  // ------------------------------------------------------ create, then list

  /** The state of the listing when it comes to slot p. */
  function Before(s: seq<Slot>, p: nat, max: nat): (st: Listing)
    requires p <= |s|
    ensures st.Valid()
  {
    Scan(Start(), s[..p], max)
  }

  /** The listing after the entries of a new file or directory went in, whatever else is in the directory: if it
      gets to them, the new entry follows what was listed before it, and then, if the entries end with their sector,
      whatever the slots behind them list. If it does not get to them, nothing changes. */
  lemma InsertThenList(s: seq<Slot>, s': seq<Slot>, k: nat, e: nat, name: seq<byte>, attr: byte, cluster: nat, max: nat)
    requires cluster < ENTRY_MASK && Inserted(s, s', k, e, Entries(name, attr, cluster))
    requires Printable(name) && 0 < |name| <= 195 && (attr == 0x20 || attr == 0x10)
    ensures var p, n := 16 * k + e, PartCount(name) + 1; var st := Before(s, p, max);
      ListOf(s', max) ==
        if st.done then ListOf(s, max)
        else if |st.out| >= max then st.out
        else st.out + [Found(Listed(name), attr, cluster, 0)]
             + if e + n == 16 then ListOf(s[p + n..], max - |st.out| - 1) else []
  {
    hide Entries, Listed, Inserted, Scan;
    var ents := Entries(name, attr, cluster);
    var p, n := 16 * k + e, |ents|;
    InsertedParts(s, s', k, e, ents);
    var st := Before(s, p, max);
    var rest := s'[p + n..];
    ScanParts(s, s', p, ents, max);
    if st.done {
      ScanStops(st, s[p..], max);
      ScanStops(st, ents, max);
      ScanStops(st, rest, max);
    } else if |st.out| >= max {
      FullStays(st, ents, max);
      FullStays(Scan(st, ents, max), rest, max);
    } else {
      ScanEntries(st, name, attr, cluster, max);
      if e + n == 16 { ScanFresh(Scan(st, ents, max), rest, max); } else { ScanDone(Scan(st, ents, max), rest, max); }
    }
  }

  lemma ScanParts(s: seq<Slot>, s': seq<Slot>, p: nat, ents: seq<Slot>, max: nat)
    requires |s'| == |s| && p + |ents| <= |s| && s'[..p] == s[..p] && s'[p..p + |ents|] == ents
    ensures ListOf(s', max) == Scan(Scan(Before(s, p, max), ents, max), s'[p + |ents|..], max).out
    ensures ListOf(s, max) == Scan(Before(s, p, max), s[p..], max).out
  {
    hide Scan;
    var m := p + |ents|;
    assert s == s[..p] + s[p..];
    assert s' == s'[..m] + s'[m..] && s'[..m] == s[..p] + ents;
    ScanConcat(Start(), s[..p], s[p..], max);
    ScanConcat(Start(), s'[..m], s'[m..], max);
    ScanConcat(Start(), s[..p], ents, max);
  }

  lemma InsertedParts(s: seq<Slot>, s': seq<Slot>, k: nat, e: nat, ents: seq<Slot>)
    requires Inserted(s, s', k, e, ents) && ents != []
    ensures var p, m := 16 * k + e, 16 * k + e + |ents|;
      && |s'| == |s| && e + |ents| <= 16 && m <= |s|
      && s'[..p] == s[..p] && s'[p..m] == ents
      && if e + |ents| == 16 then s'[m..] == s[m..] else m < |s| && s'[m][0] == 0
  {
  }

  /** A full listing stays as it is. */
  lemma {:induction false} FullStays(st: Listing, slots: seq<Slot>, max: nat)
    requires st.Valid() && |st.out| >= max
    ensures Scan(st, slots, max).out == st.out
    decreases |slots|
  {
    if slots != [] { FullStays(Step(st, slots[0], max), slots[1..], max); }
  }

  /** A directory that grew has its old slots, and end marks behind them. */
  lemma ExtendedSlots(g: Geometry, d: seq<Sector>, d1: seq<Sector>, ch: seq<nat>, ch1: seq<nat>, bad: set<nat>)
    requires Extended(g, d, d1, ch, ch1, bad) && Sound(g, ch1, bad)
    ensures var s, s1 := DirSlots(g, d, ch), DirSlots(g, d1, ch1); s <= s1 && forall j :: |s| <= j < |s1| ==> s1[j][0] == 0
  {
    hide DirSector, SectorSlots, SlotOf, InFile, ZeroSector, OnVolume;
    var s, s1 := DirSlots(g, d, ch), DirSlots(g, d1, ch1);
    var c, c1 := SectorCount(g, ch), SectorCount(g, ch1);
    forall j | 0 <= j < |s1| ensures if j < |s| then s1[j] == s[j] else s1[j][0] == 0 {
      var k, e := j / 16, j % 16;
      SlotAt(g, d1, ch1, c1, k, e);
      if k < c { SlotAt(g, d, ch, c, k, e); } else { ZeroSlots(e); }
    }
  }

  /** Growing a directory by zeroed clusters does not change its listing. */
  lemma GrownListsSame(g: Geometry, d: seq<Sector>, d1: seq<Sector>, ch: seq<nat>, ch1: seq<nat>, bad: set<nat>, max: nat)
    requires Extended(g, d, d1, ch, ch1, bad) && Sound(g, ch1, bad)
    ensures ListOf(DirSlots(g, d1, ch1), max) == ListOf(DirSlots(g, d, ch), max)
    ensures DirSlots(g, d, ch) <= DirSlots(g, d1, ch1)
  {
    hide DirSlots, DirSector, Sound;
    ExtendedSlots(g, d, d1, ch, ch1, bad);
    var s, s1 := DirSlots(g, d, ch), DirSlots(g, d1, ch1);
    assert s1 == s + s1[|s|..];
    ScanConcat(Start(), s, s1[|s|..], max);
    ScanDone(Scan(Start(), s, max), s1[|s|..], max);
  }

  /** fat32_create_file and fat32_create_dir in any directory: the slots, what is kept, and the listing. */
  lemma CreateInAny(g: Geometry, d: seq<Sector>, d1: seq<Sector>, d': seq<Sector>, ch: seq<nat>, ch1: seq<nat>, bad: set<nat>,
                    name: seq<byte>, attr: byte, cluster: nat, k: nat, e: nat, max: nat)
    requires cluster < ENTRY_MASK && Placed(g, d, d1, d', ch, ch1, bad, PartCount(name) + 1, Flat(Entries(name, attr, cluster)), k, e)
    requires Sound(g, ch1, bad) && Printable(name) && 0 < |name| <= 195 && (attr == 0x20 || attr == 0x10)
    ensures Mounted(g, |d1|) && |d'| == |d1| && OnVolume(g, ch) && OnVolume(g, ch1) && |d| == |d1|
    ensures var s, s', p, n := DirSlots(g, d1, ch1), DirSlots(g, d', ch1), 16 * k + e, PartCount(name) + 1;
      && p + n <= |s| && DirSlots(g, d, ch) <= s
      && (AllKept(s, s') <==> e + n == 16 || forall j: nat :: p + n <= j ==> !LiveAt(s, j))
      && var st := Before(s, p, max);
        ListOf(s', max) ==
          if st.done then ListOf(DirSlots(g, d, ch), max)
          else if |st.out| >= max then st.out
          else st.out + [Found(Listed(name), attr, cluster, 0)]
               + if e + n == 16 then ListOf(s[p + n..], max - |st.out| - 1) else []
  {
    hide Placed, Extended, DirSlots, Entries, Listed, Flat, Printable, Sound, OnVolume, Mounted, Inserted, AllKept, LiveAt, ListOf, Scan, Before;
    var ents := Entries(name, attr, cluster);
    PlacedInserts(g, d, d1, d', ch, ch1, bad, ents, k, e);
    PlacedExtends(g, d, d1, d', ch, ch1, bad, ents, k, e);
    EntriesUsed(name, attr, cluster);
    var s, s' := DirSlots(g, d1, ch1), DirSlots(g, d', ch1);
    InsertedParts(s, s', k, e, ents);
    EntriesKept(s, s', k, e, ents);
    InsertThenList(s, s', k, e, name, attr, cluster, max);
    GrownListsSame(g, d, d1, ch, ch1, bad, max);
  }

  lemma PlacedExtends(g: Geometry, d: seq<Sector>, d1: seq<Sector>, d': seq<Sector>, ch: seq<nat>, ch1: seq<nat>, bad: set<nat>,
                      ents: seq<Slot>, k: nat, e: nat)
    requires Placed(g, d, d1, d', ch, ch1, bad, |ents|, Flat(ents), k, e)
    ensures Extended(g, d, d1, ch, ch1, bad) && |d1| == |d| && OnVolume(g, ch) && OnVolume(g, ch1)
  {
    hide DirSector, SectorSlots, FileLba, PutAt, Flat, NoFitBefore, Mounted;
  }
}
