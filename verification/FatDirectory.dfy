/** Directory entries of drivers/fs/fat32.c as values: how names are stored and how a directory is listed. */
module FatDirectory {
  import opened Arithmetic
  import opened FatLayout

  type Slot = s: seq<byte> | |s| == 32 witness seq(32, _ => 0)

  // Offsets in a slot.
  const ATTR: nat := 11
  const CLUSTER_HIGH: nat := 20
  const CLUSTER_LOW: nat := 26
  const FILE_SIZE: nat := 28

  const LFN: byte := 0x0F
  const DELETED: byte := 0xE5
  const MAX_NAME: nat := 255

  predicate Bit(b: byte, weight: nat)
    requires weight > 0
  {
    b / weight % 2 == 1
  }

  predicate IsLast(s: Slot) { Bit(s[0], 0x40) }

  function Order(s: Slot): nat { s[0] % 0x20 }

  function U16(s: Slot, at: nat): nat
    requires at + 2 <= 32
  {
    s[at] as int + 0x100 * s[at + 1] as int
  }

  function FirstCluster(s: Slot): nat { 0x1_0000 * U16(s, CLUSTER_HIGH) + U16(s, CLUSTER_LOW) }

  function Size(s: Slot): nat { U16(s, FILE_SIZE) + 0x1_0000 * U16(s, FILE_SIZE + 2) }

  // ------------------------------------------------------------------ listing

  /** The low bytes of the 13 characters of a long-name slot. */
  function Chars(s: Slot): (cs: seq<byte>)
    ensures |cs| == 13
  {
    [s[1], s[3], s[5], s[7], s[9], s[14], s[16], s[18], s[20], s[22], s[24], s[28], s[30]]
  }

  predicate Stop(c: byte) { c == 0x00 || c == 0xFF }

  function UntilStop(cs: seq<byte>): (r: seq<byte>)
    ensures r <= cs
  {
    if cs == [] || Stop(cs[0]) then [] else [cs[0]] + UntilStop(cs[1..])
  }

  function UntilSpace(cs: seq<byte>): (r: seq<byte>)
    ensures r <= cs
  {
    if cs == [] || cs[0] == ' ' as int then [] else [cs[0]] + UntilSpace(cs[1..])
  }

  /** shortname_to_string: NAME or NAME.EXT, each part cut at its first space. */
  function ShortName(s: Slot): seq<byte> {
    var ext := s[8..11];
    UntilSpace(s[..8]) + if ext == [32, 32, 32] then [] else ['.' as int] + UntilSpace(ext)
  }

  function Cut(name: seq<byte>): seq<byte> { if |name| > MAX_NAME then name[..MAX_NAME] else name }

  /** The parts glued together from the last to the first, as the listing does. */
  function JoinDown(parts: seq<seq<byte>>, n: nat): seq<byte>
    requires n <= |parts|
  {
    if n == 0 then [] else parts[n - 1] + JoinDown(parts, n - 1)
  }

  /** The parts glued together from the first to the last, the order in which they are stored. */
  function JoinUp(parts: seq<seq<byte>>, n: nat): seq<byte>
    requires n <= |parts|
  {
    if n == 0 then [] else JoinUp(parts, n - 1) + parts[n - 1]
  }

  datatype Found = Found(name: seq<byte>, attr: byte, firstCluster: nat, size: nat)

  /** State of fat32_list_dir between two slots. */
  datatype Listing = Listing(out: seq<Found>, parts: seq<seq<byte>>, present: nat, done: bool) {
    ghost predicate Valid() { |parts| == 20 && present <= 20 }
  }

  function NoParts(): (r: seq<seq<byte>>)
    ensures |r| == 20
  {
    seq(20, _ => [])
  }

  function Start(): Listing { Listing([], NoParts(), 0, false) }

  /** A long-name slot: its part is kept; the slot marked last comes first and clears what was collected. */
  function CollectPart(st: Listing, s: Slot): (r: Listing)
    requires st.Valid()
    ensures r.Valid()
  {
    var parts := if IsLast(s) then NoParts() else st.parts;
    var ord := Order(s);
    if 0 < ord <= 20
    then st.(parts := parts[ord - 1 := UntilStop(Chars(s))], present := if IsLast(s) then ord else st.present)
    else st.(parts := parts)
  }

  function FoundBy(st: Listing, s: Slot): Found
    requires st.Valid()
  {
    Found(if st.present > 0 then Cut(JoinDown(st.parts, st.present)) else ShortName(s), s[ATTR], FirstCluster(s), Size(s))
  }

  /** One slot of fat32_list_dir, as written: a name of signed characters never equals 0xE5, so the test for a
      deleted entry has no effect. */
  function Step(st: Listing, s: Slot, max: nat): (r: Listing)
    requires st.Valid()
    ensures r.Valid()
  {
    if st.done then st
    else if s[0] == 0 then st.(done := true)
    else if s[ATTR] == LFN then CollectPart(st, s)
    else if Bit(s[ATTR], 0x08) then st.(present := 0)
    else if |st.out| >= max then st.(done := true)
    else st.(out := st.out + [FoundBy(st, s)], present := 0)
  }

  function Scan(st: Listing, slots: seq<Slot>, max: nat): (r: Listing)
    requires st.Valid()
    ensures r.Valid()
    decreases |slots|
  {
    if slots == [] then st else Scan(Step(st, slots[0], max), slots[1..], max)
  }

  /** What fat32_list_dir returns for a directory with these slots. */
  function ListOf(slots: seq<Slot>, max: nat): seq<Found> { Scan(Start(), slots, max).out }

  lemma {:induction false} ScanConcat(st: Listing, a: seq<Slot>, b: seq<Slot>, max: nat)
    requires st.Valid()
    ensures Scan(st, a + b, max) == Scan(Scan(st, a, max), b, max)
    decreases |a|
  {
    if a == [] {
      assert a + b == b;
    } else {
      assert (a + b)[1..] == a[1..] + b;
      ScanConcat(Step(st, a[0], max), a[1..], b, max);
    }
  }

  lemma {:induction false} ScanDone(st: Listing, slots: seq<Slot>, max: nat)
    requires st.Valid() && (st.done || (slots != [] && slots[0][0] == 0) || slots == [])
    ensures Scan(st, slots, max).out == st.out
    decreases |slots|
  {
    if slots != [] { ScanDone(Step(st, slots[0], max), slots[1..], max); }
  }

  /** What fat32_read_dir returns: the slots before the end mark that are not long names. Here too the test for a
      deleted entry has no effect. */
  function ReadOf(slots: seq<Slot>, max: nat): (r: seq<Slot>)
    ensures |r| <= max
  {
    if slots == [] || slots[0][0] == 0 then []
    else if slots[0][ATTR] == LFN then ReadOf(slots[1..], max)
    else if max == 0 then []
    else [slots[0]] + ReadOf(slots[1..], max - 1)
  }

  /** Whether reading these slots meets the end mark, or a slot too many. */
  predicate ReadStops(slots: seq<Slot>, max: nat) {
    slots != [] &&
      (slots[0][0] == 0
       || if slots[0][ATTR] == LFN then ReadStops(slots[1..], max) else max == 0 || ReadStops(slots[1..], max - 1))
  }

  /** One slot more is read. */
  lemma {:induction false} ReadNext(a: seq<Slot>, s: Slot, max: nat)
    requires !ReadStops(a, max)
    ensures ReadStops(a + [s], max) <==> s[0] == 0 || (s[ATTR] != LFN && |ReadOf(a, max)| >= max)
    ensures ReadOf(a + [s], max) == ReadOf(a, max) + if ReadStops(a + [s], max) || s[ATTR] == LFN then [] else [s]
  {
    if a == [] {
      assert a + [s] == [s];
    } else {
      assert (a + [s])[0] == a[0] && (a + [s])[1..] == a[1..] + [s];
      ReadNext(a[1..], s, if a[0][ATTR] == LFN then max else max - 1);
    }
  }

  /** Nothing is read behind the place where reading stops. */
  lemma {:induction false} ReadEnds(a: seq<Slot>, b: seq<Slot>, max: nat)
    requires ReadStops(a, max)
    ensures ReadStops(a + b, max) && ReadOf(a + b, max) == ReadOf(a, max)
  {
    assert (a + b)[0] == a[0] && (a + b)[1..] == a[1..] + b;
    if a[0][0] != 0 && (a[0][ATTR] == LFN || max > 0) { ReadEnds(a[1..], b, if a[0][ATTR] == LFN then max else max - 1); }
  }

  // ------------------------------------------------------ how many, and from where

  /** Slot j comes before the end mark. */
  ghost predicate Reached(slots: seq<Slot>, j: nat) {
    j < |slots| && forall i :: 0 <= i <= j ==> slots[i][0] != 0
  }

  /** The slots that fat32_list_dir shows, and those that fat32_read_dir does. */
  predicate Listable(s: Slot) { s[ATTR] != LFN && !Bit(s[ATTR], 0x08) }

  /** How many entries the listing counts in front of the end mark. */
  function Counted(slots: seq<Slot>): nat {
    if slots == [] || slots[0][0] == 0 then 0 else (if Listable(slots[0]) then 1 else 0) + Counted(slots[1..])
  }

  function ReadCounted(slots: seq<Slot>): nat {
    if slots == [] || slots[0][0] == 0 then 0 else (if slots[0][ATTR] != LFN then 1 else 0) + ReadCounted(slots[1..])
  }

  lemma {:induction false} ScanCount(st: Listing, slots: seq<Slot>, max: nat)
    requires st.Valid() && !st.done && |st.out| <= max
    ensures |Scan(st, slots, max).out| == Min(max, |st.out| + Counted(slots))
    decreases |slots|
  {
    if slots != [] {
      var st1 := Step(st, slots[0], max);
      if st1.done { ScanDone(st1, slots[1..], max); } else { ScanCount(st1, slots[1..], max); }
    }
  }

  /** The number of entries listed. */
  lemma ListCount(slots: seq<Slot>, max: nat)
    ensures |ListOf(slots, max)| == Min(max, Counted(slots))
  {
    ScanCount(Start(), slots, max);
  }

  lemma {:induction false} ReadCount(slots: seq<Slot>, max: nat)
    ensures |ReadOf(slots, max)| == Min(max, ReadCounted(slots))
  {
    if slots != [] && slots[0][0] != 0 {
      if slots[0][ATTR] == LFN { ReadCount(slots[1..], max); } else if max > 0 { ReadCount(slots[1..], max - 1); }
    }
  }

  /** Two states that go on alike: the same parts of a long name, if any are to be used. */
  ghost predicate Alike(a: Listing, b: Listing) {
    a.done == b.done && a.present == b.present && (a.present > 0 ==> a.parts == b.parts)
  }

  lemma {:induction false} ScanAlike(a: Listing, b: Listing, first: seq<Found>, slots: seq<Slot>, max: nat)
    requires a.Valid() && b.Valid() && Alike(a, b) && a.out == first + b.out && |a.out| <= max
    ensures Scan(a, slots, max).out == first + Scan(b, slots, max - |first|).out
    decreases |slots|
  {
    if slots != [] {
      StepAlike(a, b, first, slots[0], max);
      ScanAlike(Step(a, slots[0], max), Step(b, slots[0], max - |first|), first, slots[1..], max);
    }
  }

  lemma StepAlike(a: Listing, b: Listing, first: seq<Found>, s: Slot, max: nat)
    requires a.Valid() && b.Valid() && Alike(a, b) && a.out == first + b.out && |a.out| <= max
    ensures var a1, b1 := Step(a, s, max), Step(b, s, max - |first|);
      Alike(a1, b1) && a1.out == first + b1.out && |a1.out| <= max
  {
    hide Chars, JoinDown, UntilStop, ShortName, FirstCluster, Size, Cut;
  }

  /** Where no long name is under way, what follows is listed as if it stood alone. */
  lemma ScanFresh(st: Listing, slots: seq<Slot>, max: nat)
    requires st.Valid() && !st.done && st.present == 0 && |st.out| <= max
    ensures Scan(st, slots, max).out == st.out + ListOf(slots, max - |st.out|)
  {
    assert st.out == st.out + [];
    ScanAlike(st, Start(), st.out, slots, max);
  }

  // ----------------------------------------------------------------- encoding

  function Upper(c: byte): byte { if 'a' as int <= c <= 'z' as int then c - 32 else c }

  function UpperAll(cs: seq<byte>): (r: seq<byte>)
    ensures |r| == |cs|
  {
    seq(|cs|, i requires 0 <= i < |cs| => Upper(cs[i]))
  }

  function Padded(cs: seq<byte>, n: nat): (r: seq<byte>)
    ensures |r| == n
  {
    if |cs| >= n then cs[..n] else cs + seq(n - |cs|, _ => ' ' as int)
  }

  lemma PaddedIs(cs: seq<byte>, n: nat, r: seq<byte>)
    requires |r| == n && forall x :: 0 <= x < n ==> r[x] == if x < |cs| then cs[x] else 32
    ensures r == Padded(cs, n)
  {
  }

  /** Index of the first dot, or the length. */
  function DotAt(name: seq<byte>): (i: nat)
    ensures i <= |name|
    ensures forall j :: 0 <= j < i ==> name[j] != '.' as int
    ensures i < |name| ==> name[i] == '.' as int
  {
    if name == [] || name[0] == '.' as int then 0 else 1 + DotAt(name[1..])
  }

  /** make_sfn: eight characters before the first dot, three behind it, in upper case. */
  function ShortForm(name: seq<byte>): (r: seq<byte>)
    ensures |r| == 11
  {
    var dot := DotAt(name);
    Padded(UpperAll(name[..dot]), 8) + Padded(UpperAll(if dot < |name| then name[dot + 1..] else []), 3)
  }

  /** shortname_checksum: rotate right, add, in eight bits. */
  function Checksum(cs: seq<byte>): byte
  {
    if cs == [] then 0
    else
      var sum := Checksum(cs[..|cs| - 1]);
      (sum / 2 + sum % 2 * 0x80 + cs[|cs| - 1]) % 0x100
  }

  lemma RotateAdd(a: byte, b: byte, c: byte, d: byte)
    ensures var x, y := (a / 2 + a % 2 * 0x80 + c) % 0x100, (b / 2 + b % 2 * 0x80 + d) % 0x100;
      (c == d && a != b ==> x != y) && (a == b && c != d ==> x != y)
  {
    var p, q := a / 2 + a % 2 * 0x80, b / 2 + b % 2 * 0x80;
    Rotated(a, p);
    Rotated(b, q);
    AddSame(p, q, c, d);
  }

  lemma Rotated(a: byte, p: int)
    requires p == a / 2 + a % 2 * 0x80
    ensures 0 <= p < 0x100 && a == p % 0x80 * 2 + p / 0x80
  {
  }

  lemma AddSame(p: int, q: int, c: byte, d: byte)
    requires 0 <= p < 0x100 && 0 <= q < 0x100
    ensures (c == d && p != q ==> (p + c) % 0x100 != (q + d) % 0x100) && (p == q && c != d ==> (p + c) % 0x100 != (q + d) % 0x100)
  {
    assert (p + c) % 0x100 == if p + c < 0x100 then p + c else p + c - 0x100;
    assert (q + d) % 0x100 == if q + d < 0x100 then q + d else q + d - 0x100;
  }

  /** A change of any one character changes the checksum. */
  lemma {:induction false} ChecksumDetects(cs: seq<byte>, i: nat, x: byte)
    requires i < |cs| && x != cs[i]
    ensures Checksum(cs[i := x]) != Checksum(cs)
  {
    var n := |cs| - 1;
    var ds := cs[i := x];
    if i == n {
      assert ds[..n] == cs[..n];
    } else {
      assert ds[..n] == cs[..n][i := x];
      ChecksumDetects(cs[..n], i, x);
    }
    RotateAdd(Checksum(cs[..n]), Checksum(ds[..n]), cs[n], ds[n]);
  }

  function PartCount(name: seq<byte>): nat { (|name| + 12) / 13 }

  /** The i-th stretch of 13 characters, i from 0. */
  function Part(name: seq<byte>, i: nat): (r: seq<byte>)
    requires i < PartCount(name)
    ensures 1 <= |r| <= 13
  {
    name[13 * i..if 13 * (i + 1) <= |name| then 13 * (i + 1) else |name|]
  }

  function OrderByte(ord: nat, last: bool): byte {
    var b := ord % 0x100;
    if last && b / 0x40 % 2 == 0 then b + 0x40 else b
  }

  /** Characters from..from+n of the name as 16-bit values, 0xFFFF behind its end. */
  function Wide(name: seq<byte>, from: nat, n: nat): (r: seq<byte>)
    ensures |r| == 2 * n
  {
    seq(2 * n, k requires 0 <= k < 2 * n =>
      if from + k / 2 < |name| then (if k % 2 == 0 then name[from + k / 2] else 0) else 0xFF)
  }

  function LongSlot(name: seq<byte>, sum: byte, ord: nat, last: bool): Slot
    requires 0 < ord
  {
    var start := (ord - 1) * 13;
    [OrderByte(ord, last)] + Wide(name, start, 5) + [LFN, 0, sum] + Wide(name, start + 5, 6) + [0, 0] + Wide(name, start + 11, 2)
  }

  function LongSlots(name: seq<byte>, sum: byte, ord: nat, count: nat): (r: seq<Slot>)
    ensures |r| == ord
  {
    if ord == 0 then [] else [LongSlot(name, sum, ord, ord == count)] + LongSlots(name, sum, ord - 1, count)
  }

  function Zeros(n: nat): (r: seq<byte>)
    ensures |r| == n
  {
    seq(n, _ => 0)
  }

  function ShortSlot(sfn: seq<byte>, attr: byte, cluster: nat): Slot
    requires |sfn| == 11 && cluster < ENTRY_MASK
  {
    sfn + [attr] + Zeros(8) + [cluster / 0x1_0000 % 0x100, cluster / 0x100_0000] + Zeros(4)
      + [cluster % 0x100, cluster / 0x100 % 0x100] + Zeros(4)
  }

  /** The slots of a new entry: the long name, highest part first, then the short entry. */
  function Entries(name: seq<byte>, attr: byte, cluster: nat): (r: seq<Slot>)
    requires cluster < ENTRY_MASK
    ensures |r| == PartCount(name) + 1
  {
    var sfn := ShortForm(name);
    LongSlots(name, Checksum(sfn), PartCount(name), PartCount(name)) + [ShortSlot(sfn, attr, cluster)]
  }

  // --------------------------------------------------------------- round trip

  predicate Printable(name: seq<byte>) { forall i :: 0 <= i < |name| ==> 0x20 <= name[i] < 0x7F }

  lemma {:induction false} UntilStopAt(cs: seq<byte>, n: nat)
    requires n <= |cs| && (forall i :: 0 <= i < n ==> !Stop(cs[i])) && (n < |cs| ==> Stop(cs[n]))
    ensures UntilStop(cs) == cs[..n]
  {
    if n > 0 {
      UntilStopAt(cs[1..], n - 1);
      assert cs[..n] == [cs[0]] + cs[1..][..n - 1];
    }
  }

  /** The bytes of a long-name slot, piece by piece. */
  lemma LongSlotAt(name: seq<byte>, sum: byte, ord: nat, last: bool)
    requires 0 < ord
    ensures var s, start := LongSlot(name, sum, ord, last), (ord - 1) * 13;
      && s[0] == OrderByte(ord, last) && s[ATTR] == LFN && s[12] == 0 && s[13] == sum
      && s[1..11] == Wide(name, start, 5) && s[14..26] == Wide(name, start + 5, 6) && s[28..32] == Wide(name, start + 11, 2)
  {
    hide Wide, OrderByte;
    var start := (ord - 1) * 13;
    var a, b, c := Wide(name, start, 5), Wide(name, start + 5, 6), Wide(name, start + 11, 2);
    var s := LongSlot(name, sum, ord, last);
    assert s == [OrderByte(ord, last)] + a + [LFN, 0, sum] + b + [0, 0] + c;
    assert s[1..11] == a && s[14..26] == b && s[28..32] == c;
  }

  lemma CharAt(name: seq<byte>, sum: byte, ord: nat, last: bool, j: nat)
    requires 0 < ord && j < 13
    ensures Chars(LongSlot(name, sum, ord, last))[j] ==
      if (ord - 1) * 13 + j < |name| then name[(ord - 1) * 13 + j] else 0xFF
  {
    hide LongSlot;
    LongSlotAt(name, sum, ord, last);
    var s, start := LongSlot(name, sum, ord, last), (ord - 1) * 13;
    if j < 5 { assert Chars(s)[j] == s[1..11][2 * j]; }
    else if j < 11 { assert Chars(s)[j] == s[14..26][2 * (j - 5)]; }
    else { assert Chars(s)[j] == s[28..32][2 * (j - 11)]; }
  }

  lemma OrderReadsBack(ord: nat, last: bool)
    requires 0 < ord <= 20
    ensures var b := OrderByte(ord, last); b != 0 && b % 0x20 == ord && Bit(b, 0x40) == last
  {
  }

  /** A stored part reads back. */
  lemma PartReadsBack(name: seq<byte>, sum: byte, ord: nat, last: bool)
    requires Printable(name) && 0 < ord <= PartCount(name) && ord <= 20
    ensures var s := LongSlot(name, sum, ord, last);
      s[0] != 0 && s[ATTR] == LFN && Order(s) == ord && IsLast(s) == last && UntilStop(Chars(s)) == Part(name, ord - 1)
  {
    hide LongSlot, Chars, OrderByte;
    LongSlotAt(name, sum, ord, last);
    OrderReadsBack(ord, last);
    var cs := Chars(LongSlot(name, sum, ord, last));
    var start := (ord - 1) * 13;
    var p := Part(name, ord - 1);
    forall j | 0 <= j < 13 ensures cs[j] == if start + j < |name| then name[start + j] else 0xFF {
      CharAt(name, sum, ord, last, j);
    }
    UntilStopAt(cs, |p|);
  }

  ghost predicate Holds(parts: seq<seq<byte>>, name: seq<byte>, from: nat) {
    |parts| == 20 && forall i :: from <= i < PartCount(name) && i < 20 ==> parts[i] == Part(name, i)
  }

  /** Scanning the long-name slots collects the parts. */
  lemma {:induction false} ScanLong(st: Listing, name: seq<byte>, sum: byte, ord: nat, max: nat)
    requires st.Valid() && !st.done && Printable(name) && ord <= PartCount(name) <= 20
    requires ord < PartCount(name) ==> Holds(st.parts, name, ord) && st.present == PartCount(name)
    requires 0 < PartCount(name)
    ensures var r := Scan(st, LongSlots(name, sum, ord, PartCount(name)), max);
      r.out == st.out && !r.done && Holds(r.parts, name, 0) && r.present == PartCount(name)
    decreases ord
  {
    if ord > 0 {
      PartReadsBack(name, sum, ord, ord == PartCount(name));
      var s := LongSlot(name, sum, ord, ord == PartCount(name));
      var st1 := Step(st, s, max);
      assert st1 == CollectPart(st, s);
      ScanLong(st1, name, sum, ord - 1, max);
      assert LongSlots(name, sum, ord, PartCount(name))[1..] == LongSlots(name, sum, ord - 1, PartCount(name));
    }
  }

  function Parts(name: seq<byte>): (r: seq<seq<byte>>)
    ensures |r| == PartCount(name)
  {
    seq(PartCount(name), i requires 0 <= i < PartCount(name) => Part(name, i))
  }

  /** The name under which the listing shows a stored long name. */
  function Listed(name: seq<byte>): seq<byte> { Cut(JoinDown(Parts(name), PartCount(name))) }

  lemma {:induction false} JoinSame(a: seq<seq<byte>>, b: seq<seq<byte>>, n: nat)
    requires n <= |a| && n <= |b| && forall i :: 0 <= i < n ==> a[i] == b[i]
    ensures JoinDown(a, n) == JoinDown(b, n)
  {
    if n > 0 { JoinSame(a, b, n - 1); }
  }

  /** In storage order the parts of a name make up the name again. */
  lemma {:induction false} JoinUpRestores(name: seq<byte>, n: nat)
    requires n <= PartCount(name)
    ensures JoinUp(Parts(name), n) == name[..if 13 * n <= |name| then 13 * n else |name|]
  {
    if n > 0 { JoinUpRestores(name, n - 1); }
  }

  lemma {:induction false} JoinDownLength(name: seq<byte>, n: nat)
    requires n <= PartCount(name)
    ensures |JoinDown(Parts(name), n)| == if 13 * n <= |name| then 13 * n else |name|
  {
    if n > 0 { JoinDownLength(name, n - 1); }
  }

  /** Up to 13 characters a name is listed as it was stored. */
  lemma ShortNamesListed(name: seq<byte>)
    requires 0 < |name| <= 13
    ensures Listed(name) == name
  {
    assert PartCount(name) == 1 && Part(name, 0) == name;
    assert JoinDown(Parts(name), 1) == Part(name, 0) + JoinDown(Parts(name), 0);
  }

  /** Where the listed name of n characters takes its i-th from: the last part comes first, then the parts of 13
      before it, each in its own order. */
  function Source(n: nat, i: nat): (j: nat)
    requires i < n
    ensures j < n
  {
    var full := (n - 1) / 13;
    var tail := n - 13 * full;
    if i < tail then 13 * full + i else 13 * (full - 1 - (i - tail) / 13) + (i - tail) % 13
  }

  lemma PartAt(name: seq<byte>, k: nat, x: nat)
    requires k < PartCount(name)
    ensures |Part(name, k)| == if 13 * (k + 1) <= |name| then 13 else |name| - 13 * k
    ensures x < |Part(name, k)| ==> 13 * k + x < |name| && Part(name, k)[x] == name[13 * k + x]
  {
  }

  lemma Thirteen(i: nat)
    ensures if i < 13 then i / 13 == 0 && i % 13 == i else (i - 13) / 13 == i / 13 - 1 && (i - 13) % 13 == i % 13
  {
  }

  lemma {:induction false} FullPartsAt(name: seq<byte>, m: nat, i: nat)
    requires 13 * m <= |name| && i < 13 * m
    ensures |JoinDown(Parts(name), m)| == 13 * m && i / 13 < m && JoinDown(Parts(name), m)[i] == name[13 * (m - 1 - i / 13) + i % 13]
  {
    hide Part;
    JoinDownLength(name, m);
    JoinDownLength(name, m - 1);
    Thirteen(i);
    if i < 13 { PartAt(name, m - 1, i); } else { PartAt(name, m - 1, 0); FullPartsAt(name, m - 1, i - 13); }
  }

  /** Character by character, the name under which a stored name is listed. */
  lemma ListedAt(name: seq<byte>, i: nat)
    requires i < |name| <= MAX_NAME
    ensures |Listed(name)| == |name| && Listed(name)[i] == name[Source(|name|, i)]
  {
    hide Part, JoinDown;
    var n, k := |name|, PartCount(name);
    var full := (n - 1) / 13;
    var tail := n - 13 * full;
    JoinDownLength(name, k);
    JoinDownLength(name, full);
    JoinDownStep(name, full);
    PartAt(name, full, i);
    if i >= tail { FullPartsAt(name, full, i - tail); }
  }

  lemma JoinDownStep(name: seq<byte>, m: nat)
    requires m < PartCount(name)
    ensures JoinDown(Parts(name), m + 1) == Part(name, m) + JoinDown(Parts(name), m)
  {
  }

  /** A name is listed as it was stored exactly if it is not cut and every character equals the one listed in its
      place. */
  lemma ListedExactly(name: seq<byte>)
    ensures Listed(name) == name
      <==> |name| <= MAX_NAME && forall i :: 0 <= i < |name| ==> name[i] == name[Source(|name|, i)]
  {
    JoinDownLength(name, PartCount(name));
    if |name| <= MAX_NAME {
      forall i | 0 <= i < |name| ensures Listed(name)[i] == name[Source(|name|, i)] { ListedAt(name, i); }
    }
  }

  /** So equal characters hide the order of the parts, at any length. */
  lemma EqualCharactersListed(c: byte, n: nat)
    requires n <= MAX_NAME
    ensures Listed(seq(n, _ => c)) == seq(n, _ => c)
  {
    var name: seq<byte> := seq(n, _ => c);
    ListedExactly(name);
  }

  /** An A and then Bs. */
  function Telltale(n: nat): (r: seq<byte>)
    requires 0 < n
    ensures |r| == n && r[0] == 'A' as int && forall i :: 0 < i < n ==> r[i] == 'B' as int
  {
    seq(n, i => if i == 0 then 'A' as int else 'B' as int)
  }

  /** Beyond 13 characters the order of the parts matters: this name comes back changed. */
  lemma LongNamesScrambled(n: nat)
    requires 13 < n <= MAX_NAME
    ensures Printable(Telltale(n)) && Listed(Telltale(n)) != Telltale(n)
  {
    hide Listed, Telltale;
    ListedAt(Telltale(n), 0);
    FirstSource(n);
  }

  lemma FirstSource(n: nat)
    requires 13 < n
    ensures 0 < Source(n, 0)
  {
  }

  /** All names of n characters are listed as stored exactly when one long-name slot holds them. */
  lemma ListedFaithfully(n: nat)
    requires 0 < n <= MAX_NAME
    ensures (forall name :: Printable(name) && |name| == n ==> Listed(name) == name) <==> n <= 13
  {
    if n <= 13 {
      forall name | Printable(name) && |name| == n ensures Listed(name) == name { ShortNamesListed(name); }
    } else {
      LongNamesScrambled(n);
    }
  }

  /** A long name as the specification has it stored: with a terminator, unless it fills its last slot. */
  function Ended(name: seq<byte>): (r: seq<byte>) { if |name| % 13 == 0 then name else name + [0] }

  /** The stored slots are those of the specification exactly if the name fills its last slot; otherwise the place
      of the terminator holds padding. */
  lemma Unterminated(name: seq<byte>, sum: byte)
    ensures PartCount(Ended(name)) == PartCount(name)
    ensures var k := PartCount(name); LongSlots(name, sum, k, k) == LongSlots(Ended(name), sum, k, k) <==> |name| % 13 == 0
    ensures |name| % 13 != 0 ==>
      Chars(LongSlot(name, sum, PartCount(name), true))[|name| % 13] == 0xFF
      && Chars(LongSlot(Ended(name), sum, PartCount(name), true))[|name| % 13] == 0
  {
    hide LongSlot, Chars;
    LastPart(|name|);
    if |name| % 13 != 0 {
      var k := PartCount(name);
      CharAt(name, sum, k, true, |name| % 13);
      CharAt(Ended(name), sum, k, true, |name| % 13);
      assert LongSlots(name, sum, k, k)[0] == LongSlot(name, sum, k, true);
      assert LongSlots(Ended(name), sum, k, k)[0] == LongSlot(Ended(name), sum, k, true);
    }
  }

  lemma LastPart(n: nat)
    ensures n % 13 != 0 ==> (n + 12) / 13 == n / 13 + 1 == (n + 13) / 13 && ((n + 12) / 13 - 1) * 13 + n % 13 == n
  {
  }

  // --------------------------------------------------------- a new entry shows

  lemma FourBytes(v: nat)
    requires v < 0x1_0000_0000
    ensures v == 0x1_0000 * (v / 0x1_0000 % 0x100 + 0x100 * (v / 0x100_0000)) + (v % 0x100 + 0x100 * (v / 0x100 % 0x100))
  {
    var x := v / 0x100;
    var y := x / 0x100;
    assert v / 0x1_0000 == y && v / 0x100_0000 == y / 0x100;
    assert v == v % 0x100 + 0x100 * x && x == x % 0x100 + 0x100 * y && y == y % 0x100 + 0x100 * (y / 0x100);
  }

  lemma ShortSlotPieces(sfn: seq<byte>, attr: byte, z: seq<byte>, high: seq<byte>, z': seq<byte>, low: seq<byte>, s: Slot)
    requires |sfn| == 11 && |z| == 8 && |high| == 2 && |z'| == 4 && |low| == 2
    requires s == sfn + [attr] + z + high + z' + low + z'
    ensures s[..11] == sfn && s[ATTR] == attr && s[20..22] == high && s[26..28] == low && s[28..32] == z'
  {
  }

  lemma ShortSlotFields(sfn: seq<byte>, attr: byte, cluster: nat)
    requires |sfn| == 11 && cluster < ENTRY_MASK
    ensures var s := ShortSlot(sfn, attr, cluster);
      s[..11] == sfn && s[ATTR] == attr && FirstCluster(s) == cluster && Size(s) == 0
  {
    var s := ShortSlot(sfn, attr, cluster);
    ShortSlotPieces(sfn, attr, Zeros(8), [cluster / 0x1_0000 % 0x100, cluster / 0x100_0000], Zeros(4),
                    [cluster % 0x100, cluster / 0x100 % 0x100], s);
    FourBytes(cluster);
    assert s[20] == s[20..22][0] && s[21] == s[20..22][1] && s[26] == s[26..28][0] && s[27] == s[26..28][1];
    assert s[28] == s[28..32][0] && s[29] == s[28..32][1] && s[30] == s[28..32][2] && s[31] == s[28..32][3];
  }

  lemma ShortFormFirst(name: seq<byte>)
    requires Printable(name) && name != []
    ensures 0x20 <= ShortForm(name)[0] < 0x7F
  {
    var dot := DotAt(name);
    if dot > 0 { assert UpperAll(name[..dot])[0] == Upper(name[0]); }
  }

  /** Scanning the slots of a new entry adds exactly that entry to the listing. */
  lemma ScanEntries(st: Listing, name: seq<byte>, attr: byte, cluster: nat, max: nat)
    requires st.Valid() && !st.done && |st.out| < max && Printable(name) && 0 < |name| <= 195
    requires (attr == 0x20 || attr == 0x10) && cluster < ENTRY_MASK
    ensures var r := Scan(st, Entries(name, attr, cluster), max);
      !r.done && r.present == 0 && r.out == st.out + [Found(Listed(name), attr, cluster, 0)]
  {
    hide ShortForm, ShortSlot, LongSlots;
    var sfn, k := ShortForm(name), PartCount(name);
    var long, s := LongSlots(name, Checksum(sfn), k, k), ShortSlot(sfn, attr, cluster);
    ScanConcat(st, long, [s], max);
    ScanLong(st, name, Checksum(sfn), k, max);
    var st1 := Scan(st, long, max);
    ShortSlotFields(sfn, attr, cluster);
    ShortFormFirst(name);
    assert s[0] == s[..11][0];
    JoinSame(st1.parts, Parts(name), k);
    assert Scan(st1, [s], max) == Step(st1, s, max);
  }

  /** m used slots, none of them deleted, and behind them an end mark or nothing. */
  ghost predicate Tidy(slots: seq<Slot>, m: nat) {
    && m <= |slots|
    && (forall j :: 0 <= j < m ==> slots[j][0] != 0 && slots[j][0] != DELETED)
    && (m < |slots| ==> slots[m][0] == 0)
  }

  lemma {:induction false} ScanGrows(st: Listing, slots: seq<Slot>, max: nat)
    requires st.Valid() && forall j :: 0 <= j < |slots| ==> slots[j][0] != 0
    ensures var r := Scan(st, slots, max); st.out <= r.out && (r.done && !st.done ==> |r.out| >= max)
    decreases |slots|
  {
    if slots != [] { ScanGrows(Step(st, slots[0], max), slots[1..], max); }
  }

  lemma ListTidy(slots: seq<Slot>, m: nat, max: nat)
    requires Tidy(slots, m)
    ensures ListOf(slots, max) == Scan(Start(), slots[..m], max).out
    ensures |ListOf(slots, max)| < max ==> !Scan(Start(), slots[..m], max).done
  {
    assert slots == slots[..m] + slots[m..];
    ScanConcat(Start(), slots[..m], slots[m..], max);
    ScanDone(Scan(Start(), slots[..m], max), slots[m..], max);
    ScanGrows(Start(), slots[..m], max);
  }
}
