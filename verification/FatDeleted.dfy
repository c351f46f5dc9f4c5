/** Deleted entries: what the listings are meant to do with them, and when that is what they do. */
module FatDeleted {
  import opened Arithmetic
  import opened FatLayout
  import opened FatDirectory

  /** One slot of fat32_list_dir as it is meant: the specification frees every slot that begins with 0xE5, long names
      included, so nothing is taken from it. */
  function StepMeant(st: Listing, s: Slot, max: nat): (r: Listing)
    requires st.Valid()
    ensures r.Valid()
  {
    if !st.done && s[0] == DELETED then st.(present := 0) else Step(st, s, max)
  }

  function ScanMeant(st: Listing, slots: seq<Slot>, max: nat): (r: Listing)
    requires st.Valid()
    ensures r.Valid()
    decreases |slots|
  {
    if slots == [] then st else ScanMeant(StepMeant(st, slots[0], max), slots[1..], max)
  }

  function ListMeant(slots: seq<Slot>, max: nat): seq<Found> { ScanMeant(Start(), slots, max).out }

  function ReadMeant(slots: seq<Slot>, max: nat): (r: seq<Slot>)
    ensures forall s :: s in r ==> s[0] != DELETED
  {
    if slots == [] || slots[0][0] == 0 then []
    else if slots[0][ATTR] == LFN || slots[0][0] == DELETED then ReadMeant(slots[1..], max)
    else if max == 0 then []
    else [slots[0]] + ReadMeant(slots[1..], max - 1)
  }

  // ------------------------------------------------------------- fat32_list_dir

  /** A long-name slot that begins a name: what was collected before is forgotten. */
  predicate Begins(s: Slot) { IsLast(s) && 0 < Order(s) <= 20 }

  /** The first max entries are listed as meant: none of them is deleted, and none comes while characters of a
      deleted long-name slot are still collected (`stale`); a slot that begins a name, or a label, clears those. */
  predicate Clean(slots: seq<Slot>, stale: bool, max: nat) {
    slots == [] || slots[0][0] == 0 ||
      var s, rest := slots[0], slots[1..];
      if s[ATTR] == LFN then Clean(rest, s[0] == DELETED || (stale && !Begins(s)), max)
      else if Bit(s[ATTR], 0x08) then Clean(rest, false, max)
      else max == 0 || (s[0] != DELETED && !stale && Clean(rest, false, max - 1))
  }

  /** The two scans go on alike, unless the one as written still has characters of a deleted slot. */
  ghost predicate Parallel(a: Listing, b: Listing, stale: bool) {
    a.out == b.out && a.done == b.done && (!stale ==> Alike(a, b)) && (stale ==> b.present == 0)
  }

  lemma StepParallel(a: Listing, b: Listing, s: Slot, stale: bool, max: nat)
    requires a.Valid() && b.Valid() && Parallel(a, b, stale) && !a.done && |a.out| <= max && s[0] != 0
    requires Clean([s], stale, max - |a.out|) && (Listable(s) ==> |a.out| < max)
    ensures var a1, b1 := Step(a, s, max), StepMeant(b, s, max);
      && Parallel(a1, b1, s[ATTR] == LFN && (s[0] == DELETED || (stale && !Begins(s))))
      && !a1.done && |a1.out| == |a.out| + if Listable(s) then 1 else 0
  {
    hide Chars, JoinDown, UntilStop, ShortName, FirstCluster, Size, Cut, Order, IsLast;
  }

  lemma {:induction false} ScanParallel(a: Listing, b: Listing, slots: seq<Slot>, stale: bool, max: nat)
    requires a.Valid() && b.Valid() && Parallel(a, b, stale) && !a.done && |a.out| <= max && Clean(slots, stale, max - |a.out|)
    ensures Scan(a, slots, max).out == ScanMeant(b, slots, max).out
    decreases |slots|
  {
    if slots != [] {
      var s, rest := slots[0], slots[1..];
      var a1, b1 := Step(a, s, max), StepMeant(b, s, max);
      if s[0] == 0 {
        ScanDone(a1, rest, max);
        MeantDone(b1, rest, max);
      } else if Listable(s) && |a.out| == max {
        ScanDone(a1, rest, max);
        MeantFull(b, slots, max);
      } else {
        StepParallel(a, b, s, stale, max);
        ScanParallel(a1, b1, rest, s[ATTR] == LFN && (s[0] == DELETED || (stale && !Begins(s))), max);
      }
    }
  }

  lemma {:induction false} MeantFull(st: Listing, slots: seq<Slot>, max: nat)
    requires st.Valid() && |st.out| >= max
    ensures ScanMeant(st, slots, max).out == st.out
    decreases |slots|
  {
    if slots != [] { MeantFull(StepMeant(st, slots[0], max), slots[1..], max); }
  }

  lemma {:induction false} MeantDone(st: Listing, slots: seq<Slot>, max: nat)
    requires st.Valid() && st.done
    ensures ScanMeant(st, slots, max) == st
    decreases |slots|
  {
    if slots != [] { MeantDone(st, slots[1..], max); }
  }

  /** The entries that are counted and not deleted. */
  function CountedLive(slots: seq<Slot>): nat {
    if slots == [] || slots[0][0] == 0 then 0
    else (if Listable(slots[0]) && slots[0][0] != DELETED then 1 else 0) + CountedLive(slots[1..])
  }

  lemma {:induction false} MeantCount(st: Listing, slots: seq<Slot>, max: nat)
    requires st.Valid() && !st.done && |st.out| <= max
    ensures |ScanMeant(st, slots, max).out| == Min(max, |st.out| + CountedLive(slots))
    decreases |slots|
  {
    if slots != [] {
      var st1 := StepMeant(st, slots[0], max);
      if st1.done { MeantDone(st1, slots[1..], max); } else { MeantCount(st1, slots[1..], max); }
    }
  }

  /** No long-name slot in front of the end mark is deleted. */
  predicate WholeNames(slots: seq<Slot>) {
    slots == [] || slots[0][0] == 0 || (!(slots[0][ATTR] == LFN && slots[0][0] == DELETED) && WholeNames(slots[1..]))
  }

  lemma {:induction false} CleanIfLive(slots: seq<Slot>, max: nat)
    requires WholeNames(slots)
    ensures Counted(slots) == CountedLive(slots) ==> Clean(slots, false, max)
    ensures CountedLive(slots) <= Counted(slots)
  {
    if slots != [] && slots[0][0] != 0 {
      CleanIfLive(slots[1..], max);
      LiveCounted(slots[1..]);
      if Listable(slots[0]) && max > 0 { CleanIfLive(slots[1..], max - 1); }
    }
  }

  lemma {:induction false} LiveCounted(slots: seq<Slot>)
    ensures CountedLive(slots) <= Counted(slots)
  {
    if slots != [] && slots[0][0] != 0 { LiveCounted(slots[1..]); }
  }

  /** The listing is the one meant if its entries are clean. A complete listing, one that shows fewer entries than
      were asked for, is the one meant only if none of its entries is deleted; without deleted long-name slots that
      is the exact condition. */
  lemma ListedAsMeant(slots: seq<Slot>, max: nat)
    ensures Clean(slots, false, max) ==> ListOf(slots, max) == ListMeant(slots, max)
    ensures |ListOf(slots, max)| < max && ListOf(slots, max) == ListMeant(slots, max) ==> Counted(slots) == CountedLive(slots)
    ensures |ListOf(slots, max)| < max && WholeNames(slots) ==>
      (ListOf(slots, max) == ListMeant(slots, max) <==> Counted(slots) == CountedLive(slots))
  {
    if Clean(slots, false, max) { ScanParallel(Start(), Start(), slots, false, max); }
    if WholeNames(slots) { CleanIfLive(slots, max); }
    ListCount(slots, max);
    MeantCount(Start(), slots, max);
  }

  // ------------------------------------------------------------- fat32_read_dir

  /** None of the first max slots read is deleted. */
  predicate ReadsLive(slots: seq<Slot>, max: nat) {
    slots == [] || slots[0][0] == 0
    || if slots[0][ATTR] == LFN then ReadsLive(slots[1..], max)
       else max == 0 || (slots[0][0] != DELETED && ReadsLive(slots[1..], max - 1))
  }

  /** The reading is the one meant exactly if none of the slots it comes to is deleted, however many are asked for. */
  lemma {:induction false} ReadAsMeant(slots: seq<Slot>, max: nat)
    ensures ReadOf(slots, max) == ReadMeant(slots, max) <==> ReadsLive(slots, max)
  {
    if slots != [] && slots[0][0] != 0 {
      var s := slots[0];
      if s[ATTR] == LFN {
        ReadAsMeant(slots[1..], max);
      } else if max > 0 {
        ReadAsMeant(slots[1..], max - 1);
        assert ReadOf(slots, max)[0] == s && ReadOf(slots, max)[1..] == ReadOf(slots[1..], max - 1);
        if s[0] == DELETED {
          assert s in ReadOf(slots, max);
        } else {
          assert ReadMeant(slots, max)[1..] == ReadMeant(slots[1..], max - 1);
        }
      } else {
        ReadNothing(slots);
      }
    }
  }

  lemma {:induction false} ReadNothing(slots: seq<Slot>)
    ensures ReadMeant(slots, 0) == []
  {
    if slots != [] { ReadNothing(slots[1..]); }
  }

  // ---------------------------------------------------------------------- inputs

  /** A deleted directory entry, as removing or renaming a directory leaves it, and the live entry behind it. */
  function Stale(live: Slot): Slot { live[0 := DELETED] }

  /** It is listed, and read, in front of the live one. */
  lemma StaleListed(live: Slot, max: nat)
    requires live[0] != 0 && live[0] != DELETED && Listable(live) && 2 <= max
    ensures |ListOf([Stale(live), live], max)| == 2 && |ListMeant([Stale(live), live], max)| == 1
    ensures ReadOf([Stale(live), live], max) == [Stale(live), live] && ReadMeant([Stale(live), live], max) == [live]
  {
    var dead := Stale(live);
    var s := [dead, live];
    assert s[1..] == [live] && [live][1..] == [];
    CountPair(dead, live);
    ListCount(s, max);
    MeantCount(Start(), s, max);
    assert ReadOf([live], max - 1) == [live] && ReadMeant([live], max) == [live];
  }

  /** A deleted long-name slot in front of a live entry without a long name: the entry is listed under the deleted
      slot's characters, taken for the fifth and last part of a name. */
  lemma StaleName(dead: Slot, live: Slot, max: nat)
    requires dead[0] == DELETED && dead[ATTR] == LFN && live[0] != 0 && live[0] != DELETED && Listable(live) && 0 < max
    ensures ListOf([dead, live], max) == [Found(UntilStop(Chars(dead)), live[ATTR], FirstCluster(live), Size(live))]
    ensures ListMeant([dead, live], max) == [Found(ShortName(live), live[ATTR], FirstCluster(live), Size(live))]
    ensures !Clean([dead, live], false, max) && Counted([dead, live]) == CountedLive([dead, live])
  {
    hide Chars, UntilStop, ShortName, FirstCluster, Size;
    var s := [dead, live];
    CountPair(dead, live);
    assert s[1..] == [live] && [live][1..] == [];
    var st := Step(Start(), dead, max);
    StaleCollected(dead);
    assert Scan(Start(), s, max) == Scan(st, [live], max) == Scan(Step(st, live, max), [], max);
    var sm := StepMeant(Start(), dead, max);
    assert ScanMeant(Start(), s, max) == ScanMeant(sm, [live], max) == ScanMeant(StepMeant(sm, live, max), [], max);
  }

  lemma CountPair(dead: Slot, live: Slot)
    requires dead[0] == DELETED && live[0] != 0 && live[0] != DELETED && Listable(live)
    ensures Counted([dead, live]) == (if Listable(dead) then 2 else 1) && CountedLive([dead, live]) == 1
  {
    assert [dead, live][1..] == [live] && [live][1..] == [];
    assert Counted([live]) == 1 && CountedLive([live]) == 1;
  }

  lemma StaleCollected(dead: Slot)
    requires dead[0] == DELETED
    ensures var st := CollectPart(Start(), dead);
      st.present == 5 && st.out == [] && !st.done && Cut(JoinDown(st.parts, 5)) == UntilStop(Chars(dead))
  {
    hide Chars;
    assert IsLast(dead) && Order(dead) == 5;
    var part := UntilStop(Chars(dead));
    var parts := NoParts()[4 := part];
    assert JoinDown(parts, 1) == [] + JoinDown(parts, 0) == [];
    assert JoinDown(parts, 2) == [] && JoinDown(parts, 3) == [] && JoinDown(parts, 4) == [];
    assert JoinDown(parts, 5) == part + JoinDown(parts, 4) == part;
    ShortPart(dead);
  }

  lemma ShortPart(s: Slot)
    ensures |UntilStop(Chars(s))| <= 13
  {
    hide Chars;
  }
}
