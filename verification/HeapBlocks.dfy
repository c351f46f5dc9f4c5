/** The kernel heap (mem/heap.c) as a value: the list of blocks in address order.
    The class in Heap.dfy keeps the same list in memory, as headers linked by addresses. */
module HeapBlocks {
  const WORD: nat := 0x1_0000_0000_0000_0000 // size_t is 64 bits wide
  const HEADER: nat := 32                    // BLOCK_SIZE

  datatype Block = Block(addr: nat, size: nat, free: bool) {
    function Ptr(): nat { addr + HEADER }
    function End(): nat { addr + HEADER + size }
  }

  /** The ALIGN16 macro. Its subtraction wraps at 0 and its addition wraps above 2^64 - 16. */
  function Align16(x: nat): nat {
    if x == 0 || x > WORD - 16 then 0 else (x - 1) / 16 * 16 + 16
  }

  /** The case split is the macro's own expression in 64-bit arithmetic. */
  lemma Align16Wraps(x: nat)
    requires x < WORD
    ensures Align16(x) == ((x - 1) % WORD / 16 * 16 + 16) % WORD
  {
    if 0 < x { assert (x - 1) % WORD == x - 1; }
  }

  /** The rounding covers the request exactly when it does not wrap. */
  lemma Align16Meaning(x: nat)
    requires x < WORD
    ensures Align16(x) % 16 == 0
    ensures x <= WORD - 16 ==> x <= Align16(x) < x + 16
    ensures Align16(x) >= x <==> x <= WORD - 16
  {
  }

  // ---------------------------------------------------------------- invariant

  /** The blocks cover [lo, hi): each starts where the one before it ends. */
  ghost predicate Tiled(bs: seq<Block>, lo: nat, hi: nat) {
    && (bs == [] ==> lo == hi)
    && (bs != [] ==> bs[0].addr == lo && bs[|bs| - 1].End() == hi)
    && forall i, j {:trigger bs[i], bs[j]} :: 0 <= i && j == i + 1 && j < |bs| ==> bs[j].addr == bs[i].End()
  }

  /** No two neighbours are both free. */
  ghost predicate Coalesced(bs: seq<Block>) {
    forall i, j {:trigger bs[i], bs[j]} :: 0 <= i && j == i + 1 && j < |bs| ==> !(bs[i].free && bs[j].free)
  }

  ghost predicate WellFormed(bs: seq<Block>, lo: nat, hi: nat) {
    bs != [] && Tiled(bs, lo, hi) && Coalesced(bs)
  }

  ghost predicate Aligned(bs: seq<Block>) {
    forall i :: 0 <= i < |bs| ==> bs[i].addr % 16 == 0 && bs[i].size % 16 == 0
  }

  lemma Adjacent(bs: seq<Block>, lo: nat, hi: nat, i: nat)
    requires Tiled(bs, lo, hi) && i + 1 < |bs|
    ensures bs[i + 1].addr == bs[i].End()
  {
  }

  lemma {:induction false} Ordered(bs: seq<Block>, lo: nat, hi: nat, i: nat, j: nat)
    requires Tiled(bs, lo, hi) && i < j < |bs|
    ensures lo <= bs[i].addr && bs[i].End() <= bs[j].addr && bs[j].End() <= hi
    decreases |bs| - i
  {
    assert bs[i + 1].addr == bs[i].End();
    if i + 1 < j { Ordered(bs, lo, hi, i + 1, j); } else { Bounded(bs, lo, hi, j); }
    Bounded(bs, lo, hi, i);
  }

  lemma {:induction false} Bounded(bs: seq<Block>, lo: nat, hi: nat, i: nat)
    requires Tiled(bs, lo, hi) && i < |bs|
    ensures lo <= bs[i].addr && bs[i].End() <= hi
  {
    var j: nat := i;
    while j > 0
      invariant j <= i && bs[j].addr <= bs[i].addr
    { assert bs[j - 1].End() == bs[j].addr; j := j - 1; }
    j := i;
    while j + 1 < |bs|
      invariant i <= j < |bs| && bs[i].End() <= bs[j].End()
    { assert bs[j + 1].addr == bs[j].End(); j := j + 1; }
  }

  lemma AllOrdered(bs: seq<Block>, lo: nat, hi: nat)
    requires Tiled(bs, lo, hi)
    ensures forall i :: 0 <= i < |bs| ==> lo <= bs[i].addr && bs[i].End() <= hi
    ensures forall i, j {:trigger bs[i], bs[j]} :: 0 <= i < j < |bs| ==> bs[i].End() <= bs[j].addr
  {
    forall i | 0 <= i < |bs| ensures lo <= bs[i].addr && bs[i].End() <= hi { Bounded(bs, lo, hi, i); }
    forall i, j | 0 <= i < j < |bs| ensures bs[i].End() <= bs[j].addr { Ordered(bs, lo, hi, i, j); }
  }

  // --------------------------------------------------------------- operations

  predicate Fits(b: Block, need: nat) { b.free && b.size >= need }

  /** Index of the first free block of at least `need` bytes, or |bs|. */
  function FirstFit(bs: seq<Block>, need: nat): (i: nat)
    ensures i <= |bs|
    ensures forall j :: 0 <= j < i ==> !Fits(bs[j], need)
    ensures i < |bs| ==> Fits(bs[i], need)
  {
    if bs == [] then 0 else if Fits(bs[0], need) then 0 else 1 + FirstFit(bs[1..], need)
  }

  /** split_block: if there is more than a header left behind `need` bytes, the rest becomes a free block. */
  function Cut(b: Block, need: nat): (bs: seq<Block>)
    requires b.size >= need
    ensures 1 <= |bs| <= 2
  {
    if b.size > need + HEADER
    then [b.(size := need), Block(b.Ptr() + need, b.size - need - HEADER, true)]
    else [b]
  }

  /** What becomes of the chosen block: cut to size and marked used. */
  function Carve(b: Block, need: nat): (bs: seq<Block>)
    requires b.size >= need
    ensures 1 <= |bs| <= 2
  {
    var c := Cut(b, need);
    c[0 := c[0].(free := false)]
  }

  function Place(bs: seq<Block>, i: nat, need: nat): seq<Block>
    requires i < |bs| && bs[i].size >= need
  {
    bs[..i] + Carve(bs[i], need) + bs[i + 1..]
  }

  /** kmalloc: the new block list and the returned address, 0 standing for NULL. */
  function Malloc(bs: seq<Block>, n: nat): (seq<Block>, nat) {
    var i := FirstFit(bs, Align16(n));
    if i == |bs| then (bs, 0) else (Place(bs, i, Align16(n)), bs[i].Ptr())
  }

  /** Block i swallows its right neighbour. */
  function Absorb(bs: seq<Block>, i: nat): (r: seq<Block>)
    requires i + 1 < |bs|
  {
    bs[..i] + [bs[i].(size := bs[i].size + HEADER + bs[i + 1].size)] + bs[i + 2..]
  }

  function ReleaseRight(bs: seq<Block>, i: nat): (r: seq<Block>)
    requires i < |bs|
    ensures i < |r|
  {
    var fs := bs[i := bs[i].(free := true)];
    if i + 1 < |bs| && bs[i + 1].free then Absorb(fs, i) else fs
  }

  /** Block i becomes free and merges with its right, then with its left neighbour. */
  function Release(bs: seq<Block>, i: nat): (r: seq<Block>)
    requires i < |bs|
  {
    var rs := ReleaseRight(bs, i);
    if i > 0 && rs[i - 1].free then Absorb(rs, i - 1) else rs
  }

  /** Index of the block whose payload starts at p, or |bs|. */
  function Find(bs: seq<Block>, p: nat): (i: nat)
    ensures i <= |bs|
    ensures i < |bs| ==> bs[i].Ptr() == p
    ensures forall j :: 0 <= j < i ==> bs[j].Ptr() != p
  {
    if bs == [] then 0 else if bs[0].Ptr() == p then 0 else 1 + Find(bs[1..], p)
  }

  ghost predicate IsLive(bs: seq<Block>, p: nat) {
    Find(bs, p) < |bs| && !bs[Find(bs, p)].free
  }

  function BlockOf(bs: seq<Block>, p: nat): Block
    requires Find(bs, p) < |bs|
  {
    bs[Find(bs, p)]
  }

  function Free(bs: seq<Block>, p: nat): seq<Block> {
    if Find(bs, p) < |bs| then Release(bs, Find(bs, p)) else bs
  }

  /** krealloc: shrinking requests keep the block; growing ones allocate, and on success free the old block. */
  function Realloc(bs: seq<Block>, p: nat, n: nat): (seq<Block>, nat)
    requires p == 0 || Find(bs, p) < |bs|
  {
    if p == 0 then Malloc(bs, n)
    else if BlockOf(bs, p).size >= n then (bs, p)
    else
      var (r, q) := Malloc(bs, n);
      if q == 0 then (bs, 0) else (Free(r, p), q)
  }

  /** The live allocations. */
  ghost function Live(bs: seq<Block>): set<Block> {
    set b | b in bs && !b.free
  }

  function Used(bs: seq<Block>): nat {
    if bs == [] then 0 else (if bs[0].free then 0 else bs[0].size) + Used(bs[1..])
  }

  function Unused(bs: seq<Block>): nat {
    if bs == [] then 0 else (if bs[0].free then bs[0].size else 0) + Unused(bs[1..])
  }

  lemma {:induction false} NullNotFound(bs: seq<Block>, p: nat)
    requires p < HEADER
    ensures Find(bs, p) == |bs|
  {
    if bs != [] { NullNotFound(bs[1..], p); }
  }

  // ------------------------------------------------------- invariant preserved

  lemma FindLive(bs: seq<Block>, lo: nat, hi: nat, i: nat)
    requires Tiled(bs, lo, hi) && i < |bs|
    ensures Find(bs, bs[i].Ptr()) == i
  {
    var k := Find(bs, bs[i].Ptr());
    if k < i { Ordered(bs, lo, hi, k, i); }
  }

  lemma TiledConcat(a: seq<Block>, b: seq<Block>, lo: nat, mid: nat, hi: nat)
    requires Tiled(a, lo, mid) && Tiled(b, mid, hi)
    ensures Tiled(a + b, lo, hi)
  {
    var r := a + b;
    forall i, j {:trigger r[i], r[j]} | 0 <= i && j == i + 1 && j < |r| ensures r[j].addr == r[i].End() {
      if j < |a| { assert r[i] == a[i] && r[j] == a[j]; }
      else if i >= |a| { assert r[i] == b[i - |a|] && r[j] == b[j - |a|]; }
    }
  }

  lemma TiledSlices(bs: seq<Block>, lo: nat, hi: nat, i: nat, k: nat)
    requires Tiled(bs, lo, hi) && i < k <= |bs|
    ensures Tiled(bs[..i], lo, bs[i].addr) && Tiled(bs[k..], bs[k - 1].End(), hi)
  {
    if i > 0 { assert bs[i].addr == bs[i - 1].End(); }
    if k < |bs| { assert bs[k].addr == bs[k - 1].End(); }
  }

  /** Replacing neighbours i..k by blocks that cover the same range keeps a well-formed list,
      provided the new blocks do not bring two free ones together. */
  lemma Splice(bs: seq<Block>, lo: nat, hi: nat, i: nat, k: nat, c: seq<Block>)
    requires Tiled(bs, lo, hi) && i < k <= |bs| && c != []
    requires Tiled(c, bs[i].addr, bs[k - 1].End())
    ensures Tiled(bs[..i] + c + bs[k..], lo, hi)
    ensures Coalesced(bs[..i]) && Coalesced(c) && Coalesced(bs[k..])
            && (i > 0 ==> !(bs[i - 1].free && c[0].free)) && (k < |bs| ==> !(c[|c| - 1].free && bs[k].free))
            ==> Coalesced(bs[..i] + c + bs[k..])
    ensures Aligned(bs) && Aligned(c) ==> Aligned(bs[..i] + c + bs[k..])
  {
    TiledSlices(bs, lo, hi, i, k);
    TiledConcat(bs[..i], c, lo, bs[i].addr, bs[k - 1].End());
    TiledConcat(bs[..i] + c, bs[k..], lo, bs[k - 1].End(), hi);
    if Coalesced(bs[..i]) && Coalesced(c) && Coalesced(bs[k..])
      && (i > 0 ==> !(bs[i - 1].free && c[0].free)) && (k < |bs| ==> !(c[|c| - 1].free && bs[k].free)) {
      CoalescedConcat(bs[..i], c);
      CoalescedConcat(bs[..i] + c, bs[k..]);
    }
  }

  lemma CoalescedConcat(a: seq<Block>, b: seq<Block>)
    requires Coalesced(a) && Coalesced(b)
    requires a != [] && b != [] ==> !(a[|a| - 1].free && b[0].free)
    ensures Coalesced(a + b)
  {
    var r := a + b;
    forall i, j {:trigger r[i], r[j]} | 0 <= i && j == i + 1 && j < |r| ensures !(r[i].free && r[j].free) {
      if j < |a| { assert r[i] == a[i] && r[j] == a[j]; }
      else if i >= |a| { assert r[i] == b[i - |a|] && r[j] == b[j - |a|]; }
    }
  }

  /** Between split_block and the marking the list is still tiled. */
  lemma CutTiled(bs: seq<Block>, lo: nat, hi: nat, i: nat, need: nat)
    requires Tiled(bs, lo, hi) && i < |bs| && Fits(bs[i], need)
    ensures Tiled(bs[..i] + Cut(bs[i], need) + bs[i + 1..], lo, hi)
  {
    assert Tiled(Cut(bs[i], need), bs[i].addr, bs[i].End());
    Splice(bs, lo, hi, i, i + 1, Cut(bs[i], need));
  }

  lemma CutLive(bs: seq<Block>, i: nat, need: nat)
    requires i < |bs| && Fits(bs[i], need)
    ensures Live(bs[..i] + Cut(bs[i], need) + bs[i + 1..]) == Live(bs)
  {
    var c := Cut(bs[i], need);
    LiveConcat(bs[..i], c);
    LiveConcat(bs[..i] + c, bs[i + 1..]);
    LiveSplit(bs, i);
    assert Live(c) == Live([bs[i]]);
  }

  lemma PlaceKeeps(bs: seq<Block>, lo: nat, hi: nat, i: nat, need: nat)
    requires WellFormed(bs, lo, hi) && i < |bs| && Fits(bs[i], need)
    ensures WellFormed(Place(bs, i, need), lo, hi)
    ensures Aligned(bs) && need % 16 == 0 ==> Aligned(Place(bs, i, need))
  {
    hide Tiled, Coalesced;
    var c := Carve(bs[i], need);
    CarveTiled(bs[i], need);
    CoalescedSlices(bs, i, i + 1);
    NotBothFree(bs, i);
    assert Aligned(bs) && need % 16 == 0 ==> Aligned(c);
    Splice(bs, lo, hi, i, i + 1, c);
  }

  lemma CarveTiled(b: Block, need: nat)
    requires Fits(b, need)
    ensures Tiled(Carve(b, need), b.addr, b.End()) && Coalesced(Carve(b, need))
  {
  }

  lemma NotBothFree(bs: seq<Block>, i: nat)
    requires Coalesced(bs) && i < |bs|
    ensures i > 0 ==> !(bs[i - 1].free && bs[i].free)
    ensures i + 1 < |bs| ==> !(bs[i].free && bs[i + 1].free)
  {
  }

  lemma PlaceLive(bs: seq<Block>, lo: nat, hi: nat, i: nat, need: nat) returns (b: Block)
    requires WellFormed(bs, lo, hi) && i < |bs| && Fits(bs[i], need)
    ensures b == Carve(bs[i], need)[0] && b !in bs
    ensures Live(Place(bs, i, need)) == Live(bs) + {b}
    ensures Find(bs, b.Ptr()) == i == Find(Place(bs, i, need), b.Ptr())
    ensures Place(bs, i, need)[i] == b
  {
    var r, c := Place(bs, i, need), Carve(bs[i], need);
    b := c[0];
    PlaceKeeps(bs, lo, hi, i, need);
    assert r[i] == b;
    FindLive(bs, lo, hi, i);
    FindLive(r, lo, hi, i);
    if b in bs {
      var k :| 0 <= k < |bs| && bs[k] == b;
      FindLive(bs, lo, hi, k);
    }
    assert Live(c) == {b};
    LiveConcat(bs[..i], c);
    LiveConcat(bs[..i] + c, bs[i + 1..]);
    LiveSplit(bs, i);
  }

  lemma LiveConcat(a: seq<Block>, b: seq<Block>)
    ensures Live(a + b) == Live(a) + Live(b)
  {
  }

  lemma LiveSplit(bs: seq<Block>, i: nat)
    requires i < |bs|
    ensures Live(bs) == Live(bs[..i]) + Live([bs[i]]) + Live(bs[i + 1..])
  {
    assert bs == bs[..i] + [bs[i]] + bs[i + 1..];
    LiveConcat(bs[..i], [bs[i]]);
    LiveConcat(bs[..i] + [bs[i]], bs[i + 1..]);
  }

  /** Allocation keeps the invariant and adds exactly one live block, whose address is returned,
      with at least the aligned size and at most a header more; NULL leaves everything alone. */
  lemma MallocKeeps(bs: seq<Block>, lo: nat, hi: nat, n: nat) returns (b: Block)
    requires WellFormed(bs, lo, hi) && n < WORD
    ensures var (r, p) := Malloc(bs, n);
      && WellFormed(r, lo, hi)
      && (Aligned(bs) ==> Aligned(r))
      && (p == 0 ==> r == bs)
      && (p != 0 ==> b !in bs && IsLive(r, p) && b == BlockOf(r, p))
      && (p != 0 ==> Align16(n) <= b.size <= Align16(n) + HEADER)
      && (p != 0 ==> Live(r) == Live(bs) + {b} && !IsLive(bs, p))
  {
    var i := FirstFit(bs, Align16(n));
    if i < |bs| {
      Align16Meaning(n);
      PlaceKeeps(bs, lo, hi, i, Align16(n));
      b := PlaceLive(bs, lo, hi, i, Align16(n));
      assert Place(bs, i, Align16(n))[i] == b;
    } else {
      b := bs[0];
    }
  }

  lemma AbsorbLive(bs: seq<Block>, i: nat)
    requires i + 1 < |bs| && bs[i].free && bs[i + 1].free
    ensures Live(Absorb(bs, i)) == Live(bs)
  {
    var m := bs[i].(size := bs[i].size + HEADER + bs[i + 1].size);
    LiveConcat(bs[..i], [m]);
    LiveConcat(bs[..i] + [m], bs[i + 2..]);
    assert bs == bs[..i] + bs[i..i + 2] + bs[i + 2..];
    LiveConcat(bs[..i], bs[i..i + 2]);
    LiveConcat(bs[..i] + bs[i..i + 2], bs[i + 2..]);
    assert Live([m]) == {} && Live(bs[i..i + 2]) == {};
  }

  /** Release as one replacement: the freed block and its free neighbours become one free block. */
  lemma ReleaseShape(bs: seq<Block>, lo: nat, hi: nat, i: nat) returns (a: nat, k: nat, m: Block)
    requires Tiled(bs, lo, hi) && i < |bs|
    ensures a == (if i > 0 && bs[i - 1].free then i - 1 else i)
    ensures k == (if i + 1 < |bs| && bs[i + 1].free then i + 2 else i + 1)
    ensures m.free && m.addr == bs[a].addr && m.End() == bs[k - 1].End()
    ensures Release(bs, i) == bs[..a] + [m] + bs[k..]
  {
    hide Tiled, ReleaseRight, Absorb;
    a := if i > 0 && bs[i - 1].free then i - 1 else i;
    k := if i + 1 < |bs| && bs[i + 1].free then i + 2 else i + 1;
    var m1 := ReleasedRight(bs, i, k);
    if i + 1 < |bs| { Adjacent(bs, lo, hi, i); }
    if i > 0 { Adjacent(bs, lo, hi, i - 1); }
    if a < i {
      m := bs[a].(size := bs[a].size + HEADER + m1.size);
      AbsorbedLeft(bs, i, k, m1);
    } else {
      m := m1;
    }
  }

  lemma ReleasedRight(bs: seq<Block>, i: nat, k: nat) returns (m: Block)
    requires i < |bs| && k == if i + 1 < |bs| && bs[i + 1].free then i + 2 else i + 1
    ensures ReleaseRight(bs, i) == bs[..i] + [m] + bs[k..]
    ensures m == bs[i].(free := true, size := if k == i + 2 then bs[i].size + HEADER + bs[i + 1].size else bs[i].size)
  {
    m := bs[i].(free := true, size := if k == i + 2 then bs[i].size + HEADER + bs[i + 1].size else bs[i].size);
    var fs := bs[i := bs[i].(free := true)];
    assert fs == bs[..i] + [bs[i].(free := true)] + bs[i + 1..];
    if k == i + 2 { assert fs[i + 2..] == bs[i + 2..] && fs[..i] == bs[..i]; }
  }

  lemma AbsorbedLeft(bs: seq<Block>, i: nat, k: nat, m: Block)
    requires 0 < i < k <= |bs|
    ensures Absorb(bs[..i] + [m] + bs[k..], i - 1)
      == bs[..i - 1] + [bs[i - 1].(size := bs[i - 1].size + HEADER + m.size)] + bs[k..]
  {
    var rs := bs[..i] + [m] + bs[k..];
    assert rs[..i - 1] == bs[..i - 1] && rs[i + 1..] == bs[k..];
  }

  lemma ReleaseTiled(bs: seq<Block>, lo: nat, hi: nat, i: nat, a: nat, k: nat, m: Block)
    requires WellFormed(bs, lo, hi) && a <= i < k <= |bs| && m.addr == bs[a].addr && m.End() == bs[k - 1].End()
    requires a > 0 ==> !bs[a - 1].free
    requires k < |bs| ==> !bs[k].free
    ensures WellFormed(bs[..a] + [m] + bs[k..], lo, hi)
    ensures Aligned(bs) ==> Aligned(bs[..a] + [m] + bs[k..])
  {
    hide Tiled, Coalesced;
    OneTiled(m);
    OneCoalesced(m);
    CoalescedSlices(bs, a, k);
    assert Aligned(bs) ==> Aligned([m]) by { assert m.size == bs[k - 1].addr + bs[k - 1].size - bs[a].addr; }
    Splice(bs, lo, hi, a, k, [m]);
  }

  lemma CoalescedSlices(bs: seq<Block>, i: nat, k: nat)
    requires Coalesced(bs) && i <= k <= |bs|
    ensures Coalesced(bs[..i]) && Coalesced(bs[k..])
  {
  }

  lemma OneCoalesced(b: Block)
    ensures Coalesced([b])
  {
  }

  lemma OneTiled(b: Block)
    ensures Tiled([b], b.addr, b.End())
  {
  }

  /** Freeing a live block keeps the invariant and takes exactly that block out of the live ones. */
  lemma ReleaseKeeps(bs: seq<Block>, lo: nat, hi: nat, i: nat)
    requires WellFormed(bs, lo, hi) && i < |bs| && !bs[i].free
    ensures WellFormed(Release(bs, i), lo, hi)
    ensures Aligned(bs) ==> Aligned(Release(bs, i))
    ensures Live(Release(bs, i)) == Live(bs) - {bs[i]}
  {
    var a, k, m := ReleaseShape(bs, lo, hi, i);
    assert a > 0 ==> !bs[a - 1].free by { if a == i - 1 > 0 { assert !bs[a].free || !bs[a - 1].free; } }
    assert k < |bs| ==> !bs[k].free by { if k == i + 2 < |bs| { assert !bs[k - 1].free || !bs[k].free; } }
    ReleaseTiled(bs, lo, hi, i, a, k, m);
    ReleaseLive(bs, lo, hi, i, a, k, m);
  }

  lemma ReleaseLive(bs: seq<Block>, lo: nat, hi: nat, i: nat, a: nat, k: nat, m: Block)
    requires Tiled(bs, lo, hi) && a <= i < k <= |bs| && !bs[i].free && m.free
    requires forall j :: a <= j < k && j != i ==> bs[j].free
    ensures Live(bs[..a] + [m] + bs[k..]) == Live(bs) - {bs[i]}
  {
    var r := bs[..a] + [m] + bs[k..];
    hide Tiled;
    forall b | b in Live(r) ensures b in Live(bs) - {bs[i]} {
      var j :| 0 <= j < |r| && r[j] == b;
      var l := if j < a then j else j - a - 1 + k;
      assert bs[l] == b && l != i;
      FindLive(bs, lo, hi, i);
      FindLive(bs, lo, hi, l);
    }
    forall b | b in Live(bs) - {bs[i]} ensures b in Live(r) {
      var j :| 0 <= j < |bs| && bs[j] == b;
      assert r[if j < a then j else j - k + a + 1] == b;
    }
  }

  /** kfree of a live pointer, in terms of the address. */
  lemma FreeKeeps(bs: seq<Block>, lo: nat, hi: nat, p: nat) returns (b: Block)
    requires WellFormed(bs, lo, hi) && IsLive(bs, p)
    ensures WellFormed(Free(bs, p), lo, hi)
    ensures Aligned(bs) ==> Aligned(Free(bs, p))
    ensures b == BlockOf(bs, p) && b in Live(bs) && Live(Free(bs, p)) == Live(bs) - {b}
  {
    b := bs[Find(bs, p)];
    ReleaseKeeps(bs, lo, hi, Find(bs, p));
  }

  lemma LivePtr(bs: seq<Block>, lo: nat, hi: nat, p: nat)
    requires Tiled(bs, lo, hi)
    ensures IsLive(bs, p) <==> exists b :: b in Live(bs) && b.Ptr() == p
  {
    if b :| b in Live(bs) && b.Ptr() == p {
      var i :| 0 <= i < |bs| && bs[i] == b;
      FindLive(bs, lo, hi, i);
    }
  }

  /** A live pointer names the same block in any list that still has that block live. */
  lemma LiveStays(bs: seq<Block>, r: seq<Block>, lo: nat, hi: nat, p: nat)
    requires Tiled(bs, lo, hi) && Tiled(r, lo, hi) && IsLive(bs, p) && BlockOf(bs, p) in Live(r)
    ensures IsLive(r, p) && BlockOf(r, p) == BlockOf(bs, p)
  {
    var i :| 0 <= i < |r| && r[i] == BlockOf(bs, p);
    FindLive(r, lo, hi, i);
  }

  // ------------------------------------------- the live blocks determine the list

  lemma HeadReaches(bs: seq<Block>, cs: seq<Block>, lo: nat, hi: nat)
    requires Tiled(bs, lo, hi) && Coalesced(bs) && Tiled(cs, lo, hi)
    requires Live(bs) == Live(cs) && bs != [] && cs != [] && bs[0].free && cs[0].free
    ensures cs[0].End() <= bs[0].End()
  {
    AllOrdered(cs, lo, hi);
    if |bs| > 1 {
      assert bs[1].addr == bs[0].End() && bs[1] in Live(bs);
      var k :| 0 <= k < |cs| && cs[k] == bs[1];
    }
  }

  lemma Head(bs: seq<Block>, cs: seq<Block>, lo: nat, hi: nat)
    requires Tiled(bs, lo, hi) && Coalesced(bs) && Tiled(cs, lo, hi) && Coalesced(cs)
    requires Live(bs) == Live(cs) && bs != [] && cs != []
    ensures bs[0] == cs[0]
  {
    AllOrdered(bs, lo, hi);
    AllOrdered(cs, lo, hi);
    if !bs[0].free {
      assert bs[0] in Live(cs);
    } else if !cs[0].free {
      assert cs[0] in Live(bs);
    } else {
      HeadReaches(bs, cs, lo, hi);
      HeadReaches(cs, bs, lo, hi);
    }
  }

  lemma TailLive(bs: seq<Block>, lo: nat, hi: nat)
    requires Tiled(bs, lo, hi) && bs != []
    ensures Live(bs[1..]) == Live(bs) - {bs[0]}
    ensures Tiled(bs[1..], bs[0].End(), hi)
  {
    AllOrdered(bs, lo, hi);
    assert bs == [bs[0]] + bs[1..];
    LiveConcat([bs[0]], bs[1..]);
    TiledSlices(bs, lo, hi, 0, 1);
  }

  /** Two well-formed lists over the same memory with the same live blocks are the same list. */
  lemma {:induction false} Canonical(bs: seq<Block>, cs: seq<Block>, lo: nat, hi: nat)
    requires Tiled(bs, lo, hi) && Coalesced(bs) && Tiled(cs, lo, hi) && Coalesced(cs)
    requires Live(bs) == Live(cs)
    ensures bs == cs
  {
    if bs == [] {
      if cs != [] { Bounded(cs, lo, hi, 0); }
    } else if cs == [] {
      Bounded(bs, lo, hi, 0);
    } else {
      Head(bs, cs, lo, hi);
      TailLive(bs, lo, hi);
      TailLive(cs, lo, hi);
      assert Coalesced(bs[1..]) && Coalesced(cs[1..]);
      Canonical(bs[1..], cs[1..], bs[0].End(), hi);
      assert bs == [bs[0]] + bs[1..] && cs == [cs[0]] + cs[1..];
    }
  }

  /** Freeing what was just allocated restores the exact block list. */
  lemma FreeUndoesMalloc(bs: seq<Block>, lo: nat, hi: nat, n: nat)
    requires WellFormed(bs, lo, hi) && n < WORD && Malloc(bs, n).1 != 0
    ensures Free(Malloc(bs, n).0, Malloc(bs, n).1) == bs
  {
    var (r, p) := Malloc(bs, n);
    var b := MallocKeeps(bs, lo, hi, n);
    var c := FreeKeeps(r, lo, hi, p);
    assert b == c by {
      var i, j :| 0 <= i < |r| && r[i] == b && 0 <= j < |r| && r[j] == c;
      FindLive(r, lo, hi, i);
      FindLive(r, lo, hi, j);
    }
    Canonical(Free(r, p), bs, lo, hi);
  }

  /** With nothing live the heap is one free block of everything but its header. */
  lemma AllFreed(bs: seq<Block>, lo: nat, hi: nat)
    requires WellFormed(bs, lo, hi) && Live(bs) == {}
    ensures lo + HEADER <= hi && bs == [Block(lo, hi - lo - HEADER, true)]
  {
    Bounded(bs, lo, hi, 0);
    var cs := [Block(lo, hi - lo - HEADER, true)];
    assert Live(cs) == {};
    Canonical(bs, cs, lo, hi);
  }

  // ----------------------------------------------------- allocation is complete

  /** [a, a + len) lies in the heap and touches no live block, header or payload. */
  ghost predicate Vacant(bs: seq<Block>, lo: nat, hi: nat, a: nat, len: nat) {
    lo <= a && a + len <= hi && forall b :: b in Live(bs) ==> a + len <= b.addr || b.End() <= a
  }

  lemma BlockAt(bs: seq<Block>, lo: nat, hi: nat, a: nat) returns (k: nat)
    requires Tiled(bs, lo, hi) && lo <= a < hi
    ensures k < |bs| && bs[k].addr <= a < bs[k].End()
  {
    k := 0;
    while bs[k].End() <= a
      invariant k < |bs| && bs[k].addr <= a
      decreases |bs| - k
    {
      assert k + 1 < |bs| ==> bs[k + 1].addr == bs[k].End();
      k := k + 1;
    }
  }

  lemma VacantInFree(bs: seq<Block>, lo: nat, hi: nat, a: nat, len: nat) returns (k: nat)
    requires WellFormed(bs, lo, hi) && Vacant(bs, lo, hi, a, len) && len > 0
    ensures k < |bs| && bs[k].free && bs[k].addr <= a && a + len <= bs[k].End()
  {
    k := BlockAt(bs, lo, hi, a);
    var b := bs[k];
    assert b.free || b in Live(bs);
    if k + 1 < |bs| {
      assert !(bs[k].free && bs[k + 1].free) && bs[k + 1].addr == bs[k].End();
      assert bs[k + 1] in Live(bs);
    }
  }

  lemma FreeIsVacant(bs: seq<Block>, lo: nat, hi: nat, i: nat, len: nat)
    requires Tiled(bs, lo, hi) && i < |bs| && bs[i].free && len <= HEADER + bs[i].size
    ensures Vacant(bs, lo, hi, bs[i].addr, len)
  {
    AllOrdered(bs, lo, hi);
  }

  /** A header and the aligned payload of a request for n bytes would fit at address a. */
  ghost predicate RoomAt(bs: seq<Block>, lo: nat, hi: nat, a: nat, n: nat) {
    Vacant(bs, lo, hi, a, HEADER + Align16(n))
  }

  /** kmalloc fails exactly when no header plus aligned payload fits between the live blocks,
      and otherwise takes the lowest place where one does. */
  lemma MallocComplete(bs: seq<Block>, lo: nat, hi: nat, n: nat)
    requires WellFormed(bs, lo, hi)
    ensures Malloc(bs, n).1 == 0 <==> !exists a :: RoomAt(bs, lo, hi, a, n)
    ensures Malloc(bs, n).1 != 0 ==>
              && RoomAt(bs, lo, hi, Malloc(bs, n).1 - HEADER, n)
              && forall a :: RoomAt(bs, lo, hi, a, n) ==> Malloc(bs, n).1 - HEADER <= a
  {
    var i := FirstFit(bs, Align16(n));
    AllOrdered(bs, lo, hi);
    if i < |bs| {
      FreeIsVacant(bs, lo, hi, i, HEADER + Align16(n));
      assert RoomAt(bs, lo, hi, bs[i].addr, n);
    }
    forall a | RoomAt(bs, lo, hi, a, n) ensures i < |bs| && bs[i].addr <= a {
      var k := VacantInFree(bs, lo, hi, a, HEADER + Align16(n));
      assert Fits(bs[k], Align16(n));
    }
  }

  /** How much of the free block kmalloc takes: the request rounded up to 16, if more than another header is left over,
      which then heads a free block of what remains; otherwise all of it. */
  lemma MallocSplits(bs: seq<Block>, lo: nat, hi: nat, n: nat) returns (f: Block)
    requires WellFormed(bs, lo, hi) && n <= 0xFFFF_FFFF_FFFF_FFF0 && Malloc(bs, n).1 != 0
    ensures var (r, p) := Malloc(bs, n); var need := (n + 15) / 16 * 16;
      && f in bs && f.free && f.addr + 32 == p && f.size >= need && IsLive(r, p)
      && (f.size > need + 32 ==> BlockOf(r, p).size == need && Block(p + need, f.size - need - 32, true) in r)
      && (f.size <= need + 32 ==> BlockOf(r, p).size == f.size)
  {
    var i, a := FirstFit(bs, Align16(n)), Align16(n);
    f := bs[i];
    assert a == (n + 15) / 16 * 16;
    var b := PlaceLive(bs, lo, hi, i, a);
    var c, r := Carve(f, a), Place(bs, i, a);
    assert r[i] == c[0];
    if f.size > a + HEADER { assert r[i + 1] == c[1]; }
  }

  /** krealloc: a request the block holds returns the pointer and changes nothing. A larger one is answered by kmalloc,
      and on success the new block takes the place of the old one among the live ones. */
  lemma ReallocDoes(bs: seq<Block>, lo: nat, hi: nat, p: nat, n: nat)
    requires WellFormed(bs, lo, hi) && IsLive(bs, p) && p != 0 && n < WORD
    ensures n <= BlockOf(bs, p).size ==> Realloc(bs, p, n) == (bs, p)
    ensures BlockOf(bs, p).size < n ==> Realloc(bs, p, n).1 == Malloc(bs, n).1
    ensures BlockOf(bs, p).size < n && Malloc(bs, n).1 == 0 ==> Realloc(bs, p, n).0 == bs
    ensures BlockOf(bs, p).size < n && Malloc(bs, n).1 != 0 ==>
      && Find(Malloc(bs, n).0, Malloc(bs, n).1) < |Malloc(bs, n).0|
      && Live(Realloc(bs, p, n).0) == Live(bs) + {BlockOf(Malloc(bs, n).0, Malloc(bs, n).1)} - {BlockOf(bs, p)}
  {
    if BlockOf(bs, p).size < n && Malloc(bs, n).1 != 0 {
      var b := MallocKeeps(bs, lo, hi, n);
      LiveStays(bs, Malloc(bs, n).0, lo, hi, p);
      var c := FreeKeeps(Malloc(bs, n).0, lo, hi, p);
    }
  }

  // ------------------------------------------------------------- conservation

  /** The two sums, block by block. */
  lemma {:induction false} SumsGrow(bs: seq<Block>, b: Block)
    ensures Used([]) == Unused([]) == 0
    ensures Used(bs + [b]) == Used(bs) + if b.free then 0 else b.size
    ensures Unused(bs + [b]) == Unused(bs) + if b.free then b.size else 0
  {
    if bs == [] {
      assert bs + [b] == [b] && [b][1..] == [];
    } else {
      assert (bs + [b])[1..] == bs[1..] + [b];
      SumsGrow(bs[1..], b);
    }
  }

  /** used + free + one header per block = total. */
  lemma {:induction false} Conservation(bs: seq<Block>, lo: nat, hi: nat)
    requires Tiled(bs, lo, hi)
    ensures Used(bs) + Unused(bs) + HEADER * |bs| == hi - lo
  {
    if bs != [] {
      TiledSlices(bs, lo, hi, 0, 1);
      Conservation(bs[1..], bs[0].End(), hi);
    }
  }

  /** Payloads of live blocks overlap neither each other nor any header. */
  lemma LiveIsolated(bs: seq<Block>, lo: nat, hi: nat, b: Block, c: Block, k: nat)
    requires Tiled(bs, lo, hi) && b in bs && c in bs && b.Ptr() <= k < b.End()
    ensures lo + HEADER <= k < hi
    ensures b != c ==> !(c.Ptr() <= k < c.End())
    ensures !(c.addr <= k < c.Ptr())
  {
    AllOrdered(bs, lo, hi);
  }
}
