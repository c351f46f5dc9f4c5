/** Directory slots byte by byte: what is stored in them, and what a listing makes of any slots whatever. Everything
    here is said in offsets and byte values, without the functions that encode and decode. */
module FatBytes {
  import opened Arithmetic
  import opened FatLayout
  import opened FatDirectory

  // ------------------------------------------------------- what a listing shows

  /** fat32_list_dir shows slot j: it lies in front of the end mark, is no part of a long name and no volume label. */
  ghost predicate ShownAt(slots: seq<Slot>, j: nat) {
    && j < |slots| && (forall i :: 0 <= i <= j ==> slots[i][0] != 0)
    && slots[j][11] != 15 && slots[j][11] / 8 % 2 == 0
  }

  /** Attributes, cluster and size are the slot's bytes 11, 26-27 with 20-21 above them, and 28-31. */
  ghost predicate Describes(f: Found, s: Slot) {
    && f.attr == s[11]
    && f.firstCluster == s[26] as int + 0x100 * s[27] as int + 0x1_0000 * s[20] as int + 0x100_0000 * s[21] as int
    && f.size == s[28] as int + 0x100 * s[29] as int + 0x1_0000 * s[30] as int + 0x100_0000 * s[31] as int
  }

  /** The bytes from `from` on hold n characters before the first blank, if there is one among the `width`. */
  ghost predicate UpTo(s: Slot, from: nat, width: nat, n: nat)
    requires from + width <= 32
  {
    n <= width && (forall i :: from <= i < from + n ==> s[i] != 32) && (n < width ==> s[from + n] == 32)
  }

  /** The name in a short slot: eight bytes up to a blank, and behind a dot three up to a blank unless all are. */
  ghost predicate ShortNamed(name: seq<byte>, s: Slot) {
    exists n: nat, m: nat :: UpTo(s, 0, 8, n) && UpTo(s, 8, 3, m)
      && name == s[..n] + if s[8] == 32 && s[9] == 32 && s[10] == 32 then [] else [46] + s[8..8 + m]
  }

  /** Where the low byte of the i-th of a slot's thirteen characters is. */
  function CharPlace(i: nat): (p: nat)
    requires i < 13
    ensures p + 1 < 32
  {
    if i < 5 then 1 + 2 * i else if i < 11 then 14 + 2 * (i - 5) else 28 + 2 * (i - 11)
  }

  /** The characters of a long-name slot up to the first 0x00 or 0xFF. */
  ghost predicate PartOf(text: seq<byte>, s: Slot) {
    && |text| <= 13
    && (forall i :: 0 <= i < |text| ==> text[i] == s[CharPlace(i)] && text[i] != 0 && text[i] != 0xFF)
    && (|text| < 13 ==> s[CharPlace(|text|)] == 0 || s[CharPlace(|text|)] == 0xFF)
  }

  /** Slots q..p begin a long name of n parts: they are the parts n, n - 1, ..., and the first of them is marked as the
      last part. */
  ghost predicate NameRun(slots: seq<Slot>, q: nat, p: nat, n: nat) {
    && q < p <= |slots| && p - q <= n <= 20
    && forall j :: q <= j < p ==> slots[j][11] == 15 && slots[j][0] % 32 == n - (j - q) && slots[j][0] / 64 % 2 == if j == q then 1 else 0
  }

  function Concat(texts: seq<seq<byte>>): seq<byte> { if texts == [] then [] else texts[0] + Concat(texts[1..]) }

  /** The name is the texts of slots q..p one behind the other, cut after 255 characters. */
  ghost predicate LongNamed(name: seq<byte>, slots: seq<Slot>, q: nat, p: nat) {
    && q <= p <= |slots|
    && exists texts: seq<seq<byte>> :: |texts| == p - q && (forall j :: 0 <= j < p - q ==> PartOf(texts[j], slots[q + j]))
         && name == if |Concat(texts)| > 255 then Concat(texts)[..255] else Concat(texts)
  }

  /** The listing of slots, out: entry i was made of slot at[i]. These are the first max slots that are shown, and each
      is described by its own slot. One with a whole long name in front of it has that name, and one with nothing of
      the kind there its short name. */
  ghost predicate Shows(slots: seq<Slot>, k: nat, max: nat, out: seq<Found>, at: seq<nat>) {
    && |out| == |at| <= max
    && (forall i :: 0 <= i < |at| ==> at[i] < k && ShownAt(slots, at[i]) && Describes(out[i], slots[at[i]]))
    && (forall i, j :: 0 <= i < j < |at| ==> at[i] < at[j])
    && (forall j :: 0 <= j < k && ShownAt(slots, j) ==> j in at || (|at| == max && forall i :: 0 <= i < |at| ==> at[i] < j))
    && (forall i :: 0 <= i < |at| && (at[i] == 0 || slots[at[i] - 1][11] != 15) ==> ShortNamed(out[i].name, slots[at[i]]))
    && (forall i, q :: 0 <= i < |at| && 0 <= q < at[i] && NameRun(slots, q, at[i], at[i] - q) ==> LongNamed(out[i].name, slots, q, at[i]))
  }

  lemma {:induction false} SpaceFound(cs: seq<byte>) returns (n: nat)
    ensures n <= |cs| && UntilSpace(cs) == cs[..n] && (forall i :: 0 <= i < n ==> cs[i] != 32) && (n < |cs| ==> cs[n] == 32)
  {
    if cs == [] || cs[0] == 32 {
      n := 0;
    } else {
      var m := SpaceFound(cs[1..]);
      n := m + 1;
      assert cs[..n] == [cs[0]] + cs[1..][..m];
    }
  }

  lemma ShortNameIs(s: Slot)
    ensures ShortNamed(ShortName(s), s)
  {
    hide UntilSpace;
    var n := SpaceFound(s[..8]);
    var m := SpaceFound(s[8..11]);
    assert UpTo(s, 0, 8, n);
    forall i | 8 <= i < 8 + m ensures s[i] != 32 { assert s[8..11][i - 8] == s[i]; }
    assert UpTo(s, 8, 3, m);
    assert s[..8][..n] == s[..n] && s[8..11][..m] == s[8..8 + m];
    assert s[8..11] == [s[8], s[9], s[10]];
  }

  lemma {:induction false} StopFound(cs: seq<byte>) returns (n: nat)
    ensures n <= |cs| && UntilStop(cs) == cs[..n] && (forall i :: 0 <= i < n ==> !Stop(cs[i])) && (n < |cs| ==> Stop(cs[n]))
  {
    if cs == [] || Stop(cs[0]) {
      n := 0;
    } else {
      var m := StopFound(cs[1..]);
      n := m + 1;
      assert cs[..n] == [cs[0]] + cs[1..][..m];
    }
  }

  lemma PartIs(s: Slot)
    ensures PartOf(UntilStop(Chars(s)), s)
  {
    hide UntilStop;
    var n := StopFound(Chars(s));
    forall i | 0 <= i < 13 ensures Chars(s)[i] == s[CharPlace(i)] {}
  }

  /** The texts of slots q..k of a long name of n parts are collected. */
  ghost predicate Has(slots: seq<Slot>, q: nat, k: nat, n: nat, st: Listing)
    requires k <= |slots| && k - q <= n <= 20 && st.Valid()
  {
    st.present == n && forall x :: q <= x < k ==> PartOf(st.parts[n - 1 - (x - q)], slots[x])
  }

  /** What is collected in the middle of a long name. */
  ghost predicate Collecting(slots: seq<Slot>, k: nat, st: Listing)
    requires st.Valid()
  {
    forall q: nat, n: nat :: NameRun(slots, q, k, n) ==> Has(slots, q, k, n, st)
  }

  lemma CollectsRun(slots: seq<Slot>, p: nat, st: Listing, q: nat, n: nat)
    requires st.Valid() && 0 < p <= |slots| && Collecting(slots, p - 1, st) && NameRun(slots, q, p, n)
    ensures Has(slots, q, p, n, CollectPart(st, slots[p - 1]))
  {
    hide PartOf, UntilStop, Chars, Collecting;
    var k, s := p - 1, slots[p - 1];
    PartIs(s);
    assert s[0] % 32 == n - (k - q) && s[0] / 64 % 2 == if k == q then 1 else 0;
    if q < k {
      assert NameRun(slots, q, k, n);
      CollectedSoFar(slots, k, st, q, n);
    }
  }

  lemma CollectedSoFar(slots: seq<Slot>, k: nat, st: Listing, q: nat, n: nat)
    requires st.Valid() && Collecting(slots, k, st) && NameRun(slots, q, k, n)
    ensures Has(slots, q, k, n, st)
  {
    hide Has;
  }

  lemma CollectsOn(slots: seq<Slot>, p: nat, st: Listing)
    requires st.Valid() && 0 < p <= |slots| && Collecting(slots, p - 1, st)
    ensures Collecting(slots, p, CollectPart(st, slots[p - 1]))
  {
    hide PartOf, CollectPart, Has, NameRun, Collecting;
    var st' := CollectPart(st, slots[p - 1]);
    forall q: nat, n: nat | NameRun(slots, q, p, n) ensures p - q <= n <= 20 && Has(slots, q, p, n, st') {
      RunBounds(slots, q, p, n);
      CollectsRun(slots, p, st, q, n);
    }
    CollectingIs(slots, p, st');
  }

  lemma RunBounds(slots: seq<Slot>, q: nat, p: nat, n: nat)
    requires NameRun(slots, q, p, n)
    ensures p - q <= n <= 20
  {
  }

  lemma CollectingIs(slots: seq<Slot>, p: nat, st: Listing)
    requires st.Valid() && p <= |slots|
    requires forall q: nat, n: nat :: NameRun(slots, q, p, n) ==> p - q <= n <= 20 && Has(slots, q, p, n, st)
    ensures Collecting(slots, p, st)
  {
    hide Has;
  }

  lemma {:induction false} JoinIsConcat(parts: seq<seq<byte>>, n: nat, texts: seq<seq<byte>>)
    requires n <= |parts| && |texts| == n && forall j :: 0 <= j < n ==> texts[j] == parts[n - 1 - j]
    ensures JoinDown(parts, n) == Concat(texts)
  {
    if n > 0 { JoinIsConcat(parts, n - 1, texts[1..]); }
  }

  lemma NamedBy(slots: seq<Slot>, k: nat, st: Listing, q: nat)
    requires st.Valid() && q < k < |slots| && Collecting(slots, k, st) && NameRun(slots, q, k, k - q)
    ensures LongNamed(FoundBy(st, slots[k]).name, slots, q, k)
  {
    hide PartOf, ShortName;
    var n := k - q;
    CollectedSoFar(slots, k, st, q, n);
    var texts := seq(n, j requires 0 <= j < n => st.parts[n - 1 - j]);
    JoinIsConcat(st.parts, n, texts);
    forall j | 0 <= j < n ensures PartOf(texts[j], slots[q + j]) { assert PartOf(st.parts[n - 1 - (q + j - q)], slots[q + j]); }
  }

  lemma DescribedBy(st: Listing, s: Slot)
    requires st.Valid()
    ensures Describes(FoundBy(st, s), s) && (st.present == 0 ==> ShortNamed(FoundBy(st, s).name, s))
  {
    hide JoinDown, ShortName;
    ShortNameIs(s);
  }

  lemma Collected(st: Listing, s: Slot)
    requires st.Valid()
    ensures CollectPart(st, s).out == st.out && CollectPart(st, s).done == st.done
  {
  }

  /** The scan up to slot k: what is shown, whether it goes on, and what is collected. */
  ghost predicate ShowsTo(slots: seq<Slot>, k: nat, max: nat, st: Listing, at: seq<nat>) {
    && st.Valid() && k <= |slots| && Shows(slots, k, max, st.out, at)
    && (if st.done then (exists i :: 0 <= i < k && slots[i][0] == 0) || |at| == max else forall i :: 0 <= i < k ==> slots[i][0] != 0)
    && (!st.done && (k == 0 || slots[k - 1][11] != 15) ==> st.present == 0)
    && (!st.done ==> Collecting(slots, k, st))
  }

  lemma ShowsStill(slots: seq<Slot>, k: nat, max: nat, out: seq<Found>, at: seq<nat>)
    requires Shows(slots, k, max, out, at) && (!ShownAt(slots, k) || |at| == max)
    ensures Shows(slots, k + 1, max, out, at)
  {
    hide ShownAt, Describes, ShortNamed, LongNamed, NameRun;
  }

  lemma ShowsMore(slots: seq<Slot>, k: nat, max: nat, out: seq<Found>, at: seq<nat>, f: Found)
    requires Shows(slots, k, max, out, at) && ShownAt(slots, k) && |at| < max && Describes(f, slots[k])
    requires k == 0 || slots[k - 1][11] != 15 ==> ShortNamed(f.name, slots[k])
    requires forall q: nat :: q < k && NameRun(slots, q, k, k - q) ==> LongNamed(f.name, slots, q, k)
    ensures Shows(slots, k + 1, max, out + [f], at + [k])
  {
    hide ShownAt, Describes, ShortNamed, LongNamed, NameRun;
    var at' := at + [k];
    assert at'[|at|] == k;
    forall j | 0 <= j < k + 1 && ShownAt(slots, j) ensures j in at' {
      if j < k { assert j in at; }
    }
  }

  /** The scan goes on behind slot k exactly if that is no end mark, and is not one too many. */
  lemma StepEnds(slots: seq<Slot>, k: nat, max: nat, st: Listing, at: seq<nat>)
    requires k < |slots| && ShowsTo(slots, k, max, st, at) && !st.done
    ensures var s, st' := slots[k], Step(st, slots[k], max);
      && |at| <= max && st'.Valid()
      && (ShownAt(slots, k) <==> s[0] != 0 && s[11] != 15 && s[11] / 8 % 2 == 0)
      && (st'.done <==> s[0] == 0 || (ShownAt(slots, k) && |at| == max))
      && (s[0] != 0 && s[11] == 15 ==> st' == CollectPart(st, s))
      && (s[11] != 15 && !st'.done ==> st'.present == 0)
      && st'.out == st.out + if ShownAt(slots, k) && |at| < max then [FoundBy(st, s)] else []
  {
    hide FoundBy, Describes, ShortNamed, LongNamed, NameRun, Collecting;
    if slots[k][11] == 15 { Collected(st, slots[k]); }
  }

  lemma StepShows(slots: seq<Slot>, k: nat, max: nat, st: Listing, at: seq<nat>) returns (at': seq<nat>)
    requires k < |slots| && ShowsTo(slots, k, max, st, at)
    ensures ShowsTo(slots, k + 1, max, Step(st, slots[k], max), at')
  {
    hide FoundBy, Describes, ShortNamed, CollectPart, LongNamed, NameRun, Collecting, Shows, ShownAt;
    var s := slots[k];
    at' := at;
    if st.done {
      StoppedShows(slots, k, max, st, at);
      return;
    }
    StepEnds(slots, k, max, st, at);
    if s[11] == 15 {
      if s[0] != 0 { CollectsOn(slots, k + 1, st); }
    } else {
      NotCollecting(slots, k + 1, Step(st, s, max));
    }
    if ShownAt(slots, k) && |at| < max {
      at' := at + [k];
      DescribedBy(st, s);
      forall q: nat | q < k && NameRun(slots, q, k, k - q) ensures LongNamed(FoundBy(st, s).name, slots, q, k) { NamedBy(slots, k, st, q); }
      ShowsMore(slots, k, max, st.out, at, FoundBy(st, s));
    } else {
      ShowsStill(slots, k, max, st.out, at);
      assert Step(st, s, max).out == st.out;
    }
  }

  lemma StoppedShows(slots: seq<Slot>, k: nat, max: nat, st: Listing, at: seq<nat>)
    requires k < |slots| && ShowsTo(slots, k, max, st, at) && st.done
    ensures ShowsTo(slots, k + 1, max, st, at)
  {
    hide Describes, ShortNamed, LongNamed, NameRun;
  }

  lemma NotCollecting(slots: seq<Slot>, p: nat, st: Listing)
    requires st.Valid() && 0 < p <= |slots| && slots[p - 1][11] != 15
    ensures Collecting(slots, p, st)
  {
    hide Has, NameRun;
    NoRun(slots, p);
  }

  lemma NoRun(slots: seq<Slot>, p: nat)
    requires 0 < p <= |slots| && slots[p - 1][11] != 15
    ensures forall q: nat, n: nat :: !NameRun(slots, q, p, n)
  {
  }

  lemma {:induction false} ListShowsTo(slots: seq<Slot>, k: nat, max: nat) returns (at: seq<nat>)
    requires k <= |slots|
    ensures ShowsTo(slots, k, max, Scan(Start(), slots[..k], max), at)
  {
    hide ShowsTo, Step;
    if k == 0 {
      at := [];
      StartShows(slots, max);
    } else {
      var at0 := ListShowsTo(slots, k - 1, max);
      at := StepShows(slots, k - 1, max, Scan(Start(), slots[..k - 1], max), at0);
      assert slots[..k] == slots[..k - 1] + [slots[k - 1]];
      ScanConcat(Start(), slots[..k - 1], [slots[k - 1]], max);
    }
  }

  lemma StartShows(slots: seq<Slot>, max: nat)
    ensures ShowsTo(slots, 0, max, Scan(Start(), slots[..0], max), [])
  {
  }

  /** Every listing shows what it should, whatever the slots are. */
  lemma ListShows(slots: seq<Slot>, max: nat) returns (at: seq<nat>)
    ensures Shows(slots, |slots|, max, ListOf(slots, max), at)
  {
    hide Scan, Shows;
    at := ListShowsTo(slots, |slots|, max);
    assert slots[..|slots|] == slots;
  }

  ghost predicate Lists(slots: seq<Slot>, max: nat, out: seq<Found>) { exists at: seq<nat> :: Shows(slots, |slots|, max, out, at) }

  lemma ListLists(slots: seq<Slot>, max: nat)
    ensures Lists(slots, max, ListOf(slots, max))
  {
    hide Shows, ListOf;
    var at := ListShows(slots, max);
  }

  /** fat32_read_dir comes to slot j: it lies in front of the end mark and is no part of a long name. */
  ghost predicate ReadAt(slots: seq<Slot>, j: nat) {
    j < |slots| && (forall i :: 0 <= i <= j ==> slots[i][0] != 0) && slots[j][11] != 15
  }

  /** What is read of slots are the first max of these, as they are. */
  ghost predicate ReadsThese(slots: seq<Slot>, k: nat, max: nat, out: seq<Slot>, at: seq<nat>) {
    && |out| == |at| <= max
    && (forall i :: 0 <= i < |at| ==> at[i] < k && ReadAt(slots, at[i]) && out[i] == slots[at[i]])
    && (forall i, j :: 0 <= i < j < |at| ==> at[i] < at[j])
    && (forall j :: 0 <= j < k && ReadAt(slots, j) ==> j in at || (|at| == max && forall i :: 0 <= i < |at| ==> at[i] < j))
  }

  ghost predicate Reads(slots: seq<Slot>, max: nat, out: seq<Slot>) { exists at: seq<nat> :: ReadsThese(slots, |slots|, max, out, at) }

  lemma {:induction false} ReadsTo(slots: seq<Slot>, k: nat, max: nat) returns (at: seq<nat>)
    requires k <= |slots|
    ensures ReadsThese(slots, k, max, ReadOf(slots[..k], max), at)
    ensures if ReadStops(slots[..k], max) then (exists i :: 0 <= i < k && slots[i][0] == 0) || |at| == max
            else forall i :: 0 <= i < k ==> slots[i][0] != 0
  {
    hide ReadOf, ReadStops;
    if k == 0 {
      at := [];
      ReadsNothing(slots, max);
    } else {
      var s := slots[k - 1];
      at := ReadsTo(slots, k - 1, max);
      assert slots[..k] == slots[..k - 1] + [s];
      if ReadStops(slots[..k - 1], max) {
        ReadEnds(slots[..k - 1], [s], max);
      } else {
        ReadNext(slots[..k - 1], s, max);
        if s[0] != 0 && s[11] != 15 && |at| < max { at := at + [k - 1]; }
      }
    }
  }

  lemma ReadsNothing(slots: seq<Slot>, max: nat)
    ensures ReadOf(slots[..0], max) == [] && !ReadStops(slots[..0], max)
  {
  }

  /** Every reading gives what it should, whatever the slots are. */
  lemma ReadReads(slots: seq<Slot>, max: nat)
    ensures Reads(slots, max, ReadOf(slots, max))
  {
    hide ReadOf, ReadsThese;
    var at := ReadsTo(slots, |slots|, max);
    assert slots[..|slots|] == slots;
  }

  // ------------------------------------------------------------- what is stored

  /** A letter in capitals: 97 to 122 become 65 to 90. */
  function Capital(c: byte): byte { if 97 <= c <= 122 then c - 32 else c }

  /** The first dot of a name, or its length. */
  ghost predicate FirstDot(name: seq<byte>, dot: nat) {
    dot <= |name| && 46 !in name[..dot] && (dot < |name| ==> name[dot] == 46)
  }

  /** The eleven bytes of a short name: up to eight characters before the first dot and up to three behind it, in
      capitals, and blanks. */
  lemma ShortFormBytes(name: seq<byte>, dot: nat, x: nat)
    requires FirstDot(name, dot) && x < 11
    ensures ShortForm(name)[x] ==
      if x < 8 then (if x < dot then Capital(name[x]) else 32)
      else if dot + 1 + (x - 8) < |name| then Capital(name[dot + 1 + (x - 8)]) else 32
  {
    hide Padded, UpperAll;
    DotIs(name, dot);
    var ext := if dot < |name| then name[dot + 1..] else [];
    CapitalAt(name[..dot], 8, if x < 8 then x else 0);
    CapitalAt(ext, 3, if x < 8 then 0 else x - 8);
  }

  lemma DotIs(name: seq<byte>, dot: nat)
    requires FirstDot(name, dot)
    ensures DotAt(name) == dot
  {
    assert forall j :: 0 <= j < dot ==> name[j] == name[..dot][j];
  }

  lemma CapitalAt(cs: seq<byte>, n: nat, x: nat)
    requires x < n
    ensures Padded(UpperAll(cs), n)[x] == if x < |cs| then Capital(cs[x]) else 32
  {
  }

  /** The checksum, bit by bit: 0 to begin with; before the next character is added the bits have moved one place
      down, and the lowest has become the highest. */
  lemma ChecksumBits(cs: seq<byte>, c: byte)
    ensures Checksum([]) == 0
    ensures var s, r := Checksum(cs), (Checksum(cs + [c]) + 0x100 - c) % 0x100;
      && r / 0x80 == s % 2 && r / 0x40 % 2 == s / 0x80 && r / 0x20 % 2 == s / 0x40 % 2 && r / 0x10 % 2 == s / 0x20 % 2
      && r / 8 % 2 == s / 0x10 % 2 && r / 4 % 2 == s / 8 % 2 && r / 2 % 2 == s / 4 % 2 && r % 2 == s / 2 % 2
  {
    assert (cs + [c])[..|cs|] == cs;
    var s := Checksum(cs);
    var t := s / 2 + s % 2 * 0x80;
    AddedBack(t, c);
    RotatedBits(s, t);
  }

  lemma AddedBack(t: int, c: byte)
    requires 0 <= t < 0x100
    ensures ((t + c) % 0x100 + 0x100 - c) % 0x100 == t
  {
    if t + c < 0x100 { assert (t + c) % 0x100 == t + c; } else { assert (t + c) % 0x100 == t + c - 0x100; }
  }

  lemma RotatedBits(s: byte, t: int)
    requires t == s / 2 + s % 2 * 0x80
    ensures 0 <= t < 0x100
    ensures t / 0x80 == s % 2 && t / 0x40 % 2 == s / 0x80 && t / 0x20 % 2 == s / 0x40 % 2 && t / 0x10 % 2 == s / 0x20 % 2
    ensures t / 8 % 2 == s / 0x10 % 2 && t / 4 % 2 == s / 8 % 2 && t / 2 % 2 == s / 4 % 2 && t % 2 == s / 2 % 2
  {
    var h, b := s / 2, s % 2;
    Shifted(s);
    Shifted(t);
    Halved(t, h, b, 0x40);
    Halved(t / 2, h / 2, b, 0x20);
    Halved(t / 4, h / 4, b, 0x10);
    Halved(t / 8, h / 8, b, 8);
    Halved(t / 0x10, h / 0x10, b, 4);
    Halved(t / 0x20, h / 0x20, b, 2);
    Halved(t / 0x40, h / 0x40, b, 1);
  }

  lemma Shifted(s: nat)
    ensures s / 4 == s / 2 / 2 && s / 8 == s / 4 / 2 && s / 0x10 == s / 8 / 2 && s / 0x20 == s / 0x10 / 2
    ensures s / 0x40 == s / 0x20 / 2 && s / 0x80 == s / 0x40 / 2
    ensures var h := s / 2;
      && h / 2 == s / 4 && h / 4 == s / 8 && h / 8 == s / 0x10 && h / 0x10 == s / 0x20 && h / 0x20 == s / 0x40 && h / 0x40 == s / 0x80
  {
  }

  lemma Halved(t: nat, h: nat, b: nat, w: nat)
    requires t == h + b * (2 * w)
    ensures t / 2 == h / 2 + b * w && t % 2 == h % 2
  {
    assert t == h + 2 * (b * w);
  }

  /** The 32 bytes of the slot for part `ord` of a long name: its number, with 0x40 added in the last part; thirteen
      16-bit characters in three groups, 0xFFFF behind the end of the name; 15 for the attributes, the checksum, and
      zeros. */
  ghost predicate LongSlotHas(s: Slot, name: seq<byte>, sum: byte, ord: nat, last: bool)
    requires 0 < ord
  {
    && s[0] == (if last then ord + 0x40 else ord)
    && s[11] == 15 && s[12] == 0 && s[13] == sum && s[26] == 0 && s[27] == 0
    && forall j :: 0 <= j < 13 ==> CharIn(s, CharPlace(j), name, 13 * (ord - 1) + j)
  }

  /** Character i of the name, or none, in the two bytes from p on. */
  ghost predicate CharIn(s: Slot, p: nat, name: seq<byte>, i: nat)
    requires p + 1 < 32
  {
    if i < |name| then s[p] == name[i] && s[p + 1] == 0 else s[p] == 0xFF && s[p + 1] == 0xFF
  }

  lemma WideAt(s: Slot, p: nat, name: seq<byte>, from: nat, n: nat, j: nat)
    requires p + 2 * n <= 32 && s[p..p + 2 * n] == Wide(name, from, n) && j < n
    ensures CharIn(s, p + 2 * j, name, from + j)
  {
    assert s[p + 2 * j] == s[p..p + 2 * n][2 * j] && s[p + 2 * j + 1] == s[p..p + 2 * n][2 * j + 1];
  }

  lemma LongSlotBytes(name: seq<byte>, sum: byte, ord: nat, last: bool)
    requires 0 < ord < 0x40
    ensures LongSlotHas(LongSlot(name, sum, ord, last), name, sum, ord, last)
  {
    hide Wide, LongSlot, CharIn;
    var start, s := 13 * (ord - 1), LongSlot(name, sum, ord, last);
    LongSlotAt(name, sum, ord, last);
    LongSlotEnd(name, sum, ord, last);
    forall j | 0 <= j < 13 ensures CharIn(s, CharPlace(j), name, start + j) {
      if j < 5 { WideAt(s, 1, name, start, 5, j); }
      else if j < 11 { WideAt(s, 14, name, start + 5, 6, j - 5); }
      else { WideAt(s, 28, name, start + 11, 2, j - 11); }
    }
  }

  lemma LongSlotEnd(name: seq<byte>, sum: byte, ord: nat, last: bool)
    requires 0 < ord
    ensures LongSlot(name, sum, ord, last)[26] == 0 && LongSlot(name, sum, ord, last)[27] == 0
  {
    hide Wide, OrderByte;
    var start := (ord - 1) * 13;
    var front := [OrderByte(ord, last)] + Wide(name, start, 5) + [LFN, 0, sum] + Wide(name, start + 5, 6);
    assert |front| == 26;
    assert LongSlot(name, sum, ord, last) == front + [0, 0] + Wide(name, start + 11, 2);
  }

  /** The 32 bytes of a short slot: name, attributes, the cluster in two halves, and zeros. */
  ghost predicate ShortSlotHas(s: Slot, sfn: seq<byte>, attr: byte, cluster: nat) {
    && s[..11] == sfn && s[11] == attr && (forall x :: 12 <= x < 20 || 22 <= x < 26 || 28 <= x < 32 ==> s[x] == 0)
    && cluster == s[26] as int + 0x100 * s[27] as int + 0x1_0000 * s[20] as int + 0x100_0000 * s[21] as int
  }

  lemma ShortSlotBytes(sfn: seq<byte>, attr: byte, cluster: nat)
    requires |sfn| == 11 && cluster < ENTRY_MASK
    ensures ShortSlotHas(ShortSlot(sfn, attr, cluster), sfn, attr, cluster)
  {
    ShortSlotFields(sfn, attr, cluster);
    var s := ShortSlot(sfn, attr, cluster);
    var high, low := [cluster / 0x1_0000 % 0x100, cluster / 0x100_0000], [cluster % 0x100, cluster / 0x100 % 0x100];
    ZerosBetween(sfn, attr, high, low, s);
    assert FirstCluster(s) == cluster;
  }

  lemma ZerosBetween(sfn: seq<byte>, attr: byte, high: seq<byte>, low: seq<byte>, s: Slot)
    requires |sfn| == 11 && |high| == 2 && |low| == 2 && s == sfn + [attr] + Zeros(8) + high + Zeros(4) + low + Zeros(4)
    ensures forall x :: 12 <= x < 20 || 22 <= x < 26 || 28 <= x < 32 ==> s[x] == 0
  {
  }

  lemma {:induction false} LongSlotIn(name: seq<byte>, sum: byte, ord: nat, count: nat, i: nat)
    requires i < ord <= count
    ensures LongSlots(name, sum, ord, count)[i] == LongSlot(name, sum, ord - i, ord - i == count)
  {
    if i > 0 { LongSlotIn(name, sum, ord - 1, count, i - 1); }
  }

  /** The slots of a new entry: the parts of its name from the last to the first, each with the checksum of the short
      name, and then the short slot. */
  lemma EntryBytes(name: seq<byte>, attr: byte, cluster: nat, i: nat)
    requires cluster < ENTRY_MASK && i <= (|name| + 12) / 13 < 0x40
    ensures var n, sfn, ents := (|name| + 12) / 13, ShortForm(name), Entries(name, attr, cluster);
      && |ents| == n + 1
      && if i < n then LongSlotHas(ents[i], name, Checksum(sfn), n - i, i == 0) else ShortSlotHas(ents[i], sfn, attr, cluster)
  {
    hide LongSlotHas, ShortSlotHas, LongSlot, ShortSlot, ShortForm;
    var n, sfn := PartCount(name), ShortForm(name);
    if i < n {
      LongSlotIn(name, Checksum(sfn), n, n, i);
      LongSlotBytes(name, Checksum(sfn), n - i, i == 0);
    } else {
      ShortSlotBytes(sfn, attr, cluster);
    }
  }
}
