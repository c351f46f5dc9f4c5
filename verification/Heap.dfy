/** The allocator itself (mem/heap.c): headers and payloads share one memory, indexed by address.
    A header field is held whole by the cell of its first byte; payload cells hold what the owner stores. */
module KernelHeap {
  import opened HeapBlocks

  // Offsets of the fields of heap_block_t.
  const SIZE: nat := 0
  const FREE: nat := 8
  const NEXT: nat := 16
  const PREV: nat := 24

  ghost function NextOf(bs: seq<Block>, i: nat): nat { if i + 1 < |bs| then bs[i + 1].addr else 0 }

  ghost function PrevOf(bs: seq<Block>, i: nat): nat
    requires i <= |bs|
  {
    if i > 0 then bs[i - 1].addr else 0
  }

  ghost predicate Header(m: seq<int>, b: Block, next: nat, prev: nat) {
    && b.Ptr() <= |m|
    && m[b.addr + SIZE] == b.size
    && m[b.addr + FREE] == (if b.free then 1 else 0)
    && m[b.addr + NEXT] == next
    && m[b.addr + PREV] == prev
  }

  ghost predicate HeaderAt(m: seq<int>, bs: seq<Block>, i: int)
    requires 0 <= i < |bs|
  {
    Header(m, bs[i], NextOf(bs, i), PrevOf(bs, i))
  }

  /** Every header in memory describes its block, with `next` and `prev` inverse to each other. */
  ghost predicate Linked(m: seq<int>, bs: seq<Block>) {
    forall i {:trigger HeaderAt(m, bs, i)} :: 0 <= i < |bs| ==> HeaderAt(m, bs, i)
  }

  /** The bytes an allocation holds. */
  ghost function Payload(m: seq<int>, b: Block): seq<int> {
    if b.End() <= |m| then m[b.Ptr()..b.End()] else []
  }

  /** The first n bytes of the allocation exist and are zero. */
  ghost predicate Zeroed(m: seq<int>, b: Block, n: nat) {
    n <= |Payload(m, b)| && forall k :: 0 <= k < n ==> Payload(m, b)[k] == 0
  }

  /** The payloads of the given blocks hold the same bytes before and after. */
  ghost predicate Kept(live: set<Block>, m: seq<int>, m': seq<int>) {
    |m| == |m'| && forall b :: b in live ==> Payload(m, b) == Payload(m', b)
  }

  /** m' differs from m at most in [a, e) and in cell x. */
  ghost predicate ChangedIn(m: seq<int>, m': seq<int>, a: nat, e: nat, x: int) {
    |m| == |m'| && forall f :: 0 <= f < |m| && !(a <= f < e) && f != x ==> m[f] == m'[f]
  }

  /** The cell that points back at blocks i..k of the list, if there is one. */
  ghost function BackLink(bs: seq<Block>, k: nat): int {
    if k < |bs| then bs[k].addr + PREV else -1
  }

  /** Relinking: when neighbours i..k are replaced by blocks c whose headers are in place, when the next
      block points back at the last of c, and nothing else outside the range changed, all headers are right. */
  lemma Relink(m: seq<int>, m': seq<int>, bs: seq<Block>, lo: nat, hi: nat, i: nat, k: nat, c: seq<Block>)
    requires Tiled(bs, lo, hi) && Linked(m, bs) && i < k <= |bs|
    requires c != [] && c[0].addr == bs[i].addr
    requires ChangedIn(m, m', bs[i].addr, bs[k - 1].End(), BackLink(bs, k))
    requires k < |bs| ==> bs[k].Ptr() <= |m| && m'[bs[k].addr + PREV] == c[|c| - 1].addr
    requires var r := bs[..i] + c + bs[k..]; forall j {:trigger HeaderAt(m', r, j)} :: i <= j < i + |c| ==> HeaderAt(m', r, j)
    ensures Linked(m', bs[..i] + c + bs[k..])
  {
    hide Tiled;
    var r := bs[..i] + c + bs[k..];
    forall j | 0 <= j < |r| ensures HeaderAt(m', r, j) {
      if j < i {
        Ordered(bs, lo, hi, j, i);
        assert HeaderAt(m, bs, j) && r[j] == bs[j];
        if k < |bs| { Ordered(bs, lo, hi, j, k); }
      } else if j >= i + |c| {
        var l := j - i - |c| + k;
        Ordered(bs, lo, hi, k - 1, l);
        if l > k { Ordered(bs, lo, hi, k, l); }
        if k - 1 > i { Ordered(bs, lo, hi, i, k - 1); }
        assert HeaderAt(m, bs, l) && r[j] == bs[l];
      }
    }
  }

  lemma KeptOutside(m: seq<int>, m': seq<int>, bs: seq<Block>, lo: nat, hi: nat, i: nat, k: nat)
    requires Tiled(bs, lo, hi) && i < k <= |bs| && ChangedIn(m, m', bs[i].addr, bs[k - 1].End(), BackLink(bs, k))
    requires forall j :: i <= j < k ==> bs[j].free
    ensures Kept(Live(bs), m, m')
  {
    AllOrdered(bs, lo, hi);
  }

  lemma SplitLinked(m: seq<int>, m': seq<int>, bs: seq<Block>, lo: nat, hi: nat, i: nat, size: nat)
    requires Tiled(bs, lo, hi) && Linked(m, bs) && i < |bs| && bs[i].free && bs[i].size > size + HEADER
    requires bs[i].End() <= |m'| && LinkedRest(m, m', bs[i].addr, size, bs[i].size, NextOf(bs, i))
    ensures Linked(m', bs[..i] + Cut(bs[i], size) + bs[i + 1..]) && Kept(Live(bs), m, m')
  {
    var c := Cut(bs[i], size);
    var r := bs[..i] + c + bs[i + 1..];
    assert HeaderAt(m, bs, i);
    if i + 1 < |bs| { assert HeaderAt(m, bs, i + 1) && bs[i + 1].addr == bs[i].End(); }
    assert r[i] == c[0] && r[i + 1] == c[1] && NextOf(r, i + 1) == NextOf(bs, i) && PrevOf(r, i) == PrevOf(bs, i);
    assert HeaderAt(m', r, i) && HeaderAt(m', r, i + 1);
    Relink(m, m', bs, lo, hi, i, i + 1, c);
    KeptOutside(m, m', bs, lo, hi, i, i + 1);
  }

  /** What the stores of split_block do to memory. */
  ghost predicate LinkedRest(m: seq<int>, m': seq<int>, block: nat, size: nat, whole: nat, next: nat)
    requires whole > size + HEADER && block + HEADER + whole <= |m'|
  {
    var rest := block + HEADER + size;
    && ChangedIn(m, m', block, block + HEADER + whole, if next != 0 then next + PREV else -1)
    && m'[block + SIZE] == size && m'[block + FREE] == m[block + FREE]
    && m'[block + NEXT] == rest && m'[block + PREV] == m[block + PREV]
    && m'[rest + SIZE] == whole - size - HEADER && m'[rest + FREE] == 1
    && m'[rest + NEXT] == next && m'[rest + PREV] == block
    && (next != 0 ==> next + PREV < |m'| && m'[next + PREV] == rest)
  }

  lemma MarkLinked(m: seq<int>, m': seq<int>, bs: seq<Block>, lo: nat, hi: nat, i: nat, free: bool)
    requires Tiled(bs, lo, hi) && Linked(m, bs) && i < |bs| && bs[i].Ptr() <= |m|
    requires m' == m[bs[i].addr + FREE := if free then 1 else 0]
    ensures Linked(m', bs[i := bs[i].(free := free)]) && Kept(Live(bs), m, m')
    ensures Tiled(bs[i := bs[i].(free := free)], lo, hi)
  {
    MarkHeaders(m, m', bs, lo, hi, i, free);
    AllOrdered(bs, lo, hi);
  }

  lemma MarkHeaders(m: seq<int>, m': seq<int>, bs: seq<Block>, lo: nat, hi: nat, i: nat, free: bool)
    requires Tiled(bs, lo, hi) && Linked(m, bs) && i < |bs| && bs[i].Ptr() <= |m|
    requires m' == m[bs[i].addr + FREE := if free then 1 else 0]
    ensures Linked(m', bs[i := bs[i].(free := free)])
  {
    hide Tiled;
    var r := bs[i := bs[i].(free := free)];
    forall j | 0 <= j < |r| ensures HeaderAt(m', r, j) {
      assert HeaderAt(m, bs, j) && NextOf(r, j) == NextOf(bs, j) && PrevOf(r, j) == PrevOf(bs, j);
      if j < i { Ordered(bs, lo, hi, j, i); } else if i < j { Ordered(bs, lo, hi, i, j); }
    }
  }

  /** The stores of a merge: size and next of block i, and prev of the block behind the one it swallows. */
  ghost predicate Merged(m: seq<int>, m': seq<int>, bs: seq<Block>, i: nat)
    requires i + 1 < |bs| && bs[i].Ptr() <= |m| && (i + 2 < |bs| ==> bs[i + 2].Ptr() <= |m|)
  {
    var a := bs[i].addr;
    var m1 := m[a + SIZE := bs[i].size + HEADER + bs[i + 1].size][a + NEXT := NextOf(bs, i + 1)];
    m' == if i + 2 < |bs| then m1[bs[i + 2].addr + PREV := a] else m1
  }

  lemma AbsorbHeader(m: seq<int>, m': seq<int>, bs: seq<Block>, i: nat)
    requires i + 1 < |bs| && HeaderAt(m, bs, i) && (i + 2 < |bs| ==> bs[i + 2].Ptr() <= |m|) && Merged(m, m', bs, i)
    requires bs[i + 1].addr == bs[i].End() && (i + 2 < |bs| ==> bs[i + 2].addr == bs[i + 1].End())
    ensures ChangedIn(m, m', bs[i].addr, bs[i + 1].End(), BackLink(bs, i + 2)) && HeaderAt(m', Absorb(bs, i), i)
    ensures i + 2 < |bs| ==> m'[bs[i + 2].addr + PREV] == bs[i].addr
  {
    var r := Absorb(bs, i);
    assert r[i] == bs[i].(size := bs[i].size + HEADER + bs[i + 1].size);
    assert NextOf(r, i) == NextOf(bs, i + 1) && PrevOf(r, i) == PrevOf(bs, i);
  }

  lemma AbsorbLinked(m: seq<int>, m': seq<int>, bs: seq<Block>, lo: nat, hi: nat, i: nat)
    requires Tiled(bs, lo, hi) && Linked(m, bs) && i + 1 < |bs| && bs[i].free && bs[i + 1].free
    requires HeaderAt(m, bs, i) && HeaderAt(m, bs, i + 1)
    requires (i + 2 < |bs| ==> bs[i + 2].Ptr() <= |m|) && Merged(m, m', bs, i)
    ensures Linked(m', Absorb(bs, i)) && Kept(Live(bs), m, m') && Tiled(Absorb(bs, i), lo, hi)
  {
    hide Tiled, ChangedIn, Merged;
    var c := [bs[i].(size := bs[i].size + HEADER + bs[i + 1].size)];
    Adjacent(bs, lo, hi, i);
    if i + 2 < |bs| { Adjacent(bs, lo, hi, i + 1); }
    OneTiled(c[0]);
    AbsorbHeader(m, m', bs, i);
    assert Absorb(bs, i) == bs[..i] + c + bs[i + 2..];
    Relink(m, m', bs, lo, hi, i, i + 2, c);
    KeptOutside(m, m', bs, lo, hi, i, i + 2);
    Splice(bs, lo, hi, i, i + 2, c);
  }

  /** Stores inside the payload of block i disturb no header and no other live payload. */
  lemma PayloadLinked(m: seq<int>, m': seq<int>, bs: seq<Block>, lo: nat, hi: nat, i: nat)
    requires Tiled(bs, lo, hi) && Linked(m, bs) && i < |bs|
    requires ChangedIn(m, m', bs[i].Ptr(), bs[i].End(), -1)
    ensures Linked(m', bs) && Kept(Live(bs) - {bs[i]}, m, m')
  {
    PayloadHeaders(m, m', bs, lo, hi, i);
    AllOrdered(bs, lo, hi);
  }

  lemma PayloadHeaders(m: seq<int>, m': seq<int>, bs: seq<Block>, lo: nat, hi: nat, i: nat)
    requires Tiled(bs, lo, hi) && Linked(m, bs) && i < |bs|
    requires ChangedIn(m, m', bs[i].Ptr(), bs[i].End(), -1)
    ensures Linked(m', bs)
  {
    hide Tiled;
    forall j | 0 <= j < |bs| ensures HeaderAt(m', bs, j) {
      assert HeaderAt(m, bs, j);
      if j < i { Ordered(bs, lo, hi, j, i); } else if i < j { Ordered(bs, lo, hi, i, j); }
    }
  }

  lemma KeptPayload(live: set<Block>, m: seq<int>, m': seq<int>, b: Block)
    requires Kept(live, m, m') && b in live
    ensures Payload(m', b) == Payload(m, b)
  {
  }

  lemma KeptTrans(l: set<Block>, l': set<Block>, m: seq<int>, m1: seq<int>, m2: seq<int>)
    requires Kept(l, m, m1) && Kept(l', m1, m2) && l' <= l
    ensures Kept(l', m, m2)
  {
  }

  /** k bytes have gone from p to q, and nothing else has changed outside [q, e). */
  ghost predicate CopiedTo(m: seq<int>, m': seq<int>, p: nat, q: nat, e: nat, k: nat) {
    && ChangedIn(m, m', q, e, -1) && p + k <= |m| && q + k <= |m|
    && forall l {:trigger m[l]} :: p <= l < p + k ==> m'[q + (l - p)] == m[l]
  }

  lemma CopyByte(m: seq<int>, m': seq<int>, p: nat, q: nat, e: nat, k: nat)
    requires CopiedTo(m, m', p, q, e, k) && p + k < |m| && q + k < |m| && q + k < e
    requires !(q <= p + k < e)
    ensures CopiedTo(m, m'[q + k := m'[p + k]], p, q, e, k + 1)
  {
  }

  lemma CopyStart(m: seq<int>, p: nat, q: nat, e: nat)
    requires p <= |m| && q <= |m|
    ensures CopiedTo(m, m, p, q, e, 0)
  {
  }

  lemma CopyOutside(m: seq<int>, m': seq<int>, p: nat, q: nat, e: nat, k: nat, x: nat)
    requires CopiedTo(m, m', p, q, e, k) && x < |m| && !(q <= x < e)
    ensures |m'| == |m| && m'[x] == m[x]
  {
  }

  lemma CopyMeans(m: seq<int>, m': seq<int>, b: Block, c: Block)
    requires CopiedTo(m, m', b.Ptr(), c.Ptr(), c.End(), b.size)
    ensures ChangedIn(m, m', c.Ptr(), c.End(), -1)
  {
  }

  lemma CopiedPrefix(m: seq<int>, m': seq<int>, b: Block, c: Block)
    requires |m| == |m'| && b.End() <= |m| && c.End() <= |m| && b.size <= c.size
    requires CopiedTo(m, m', b.Ptr(), c.Ptr(), c.End(), b.size)
    ensures Payload(m, b) <= Payload(m', c)
  {
    var p, q := Payload(m, b), Payload(m', c);
    forall k | 0 <= k < b.size ensures p[k] == q[k] { assert m[b.Ptr() + k] == p[k]; }
    assert p == q[..b.size];
  }

  /** The product of two 64-bit sizes: exact where it fits in 64 bits, and taken modulo 2^64 in general. */
  function Product(nmemb: nat, size: nat): (r: nat)
    ensures r < WORD && (nmemb * size < WORD ==> r == nmemb * size)
  {
    nmemb * size % WORD
  }

  lemma ProductWraps(nmemb: nat, size: nat) returns (k: nat)
    ensures nmemb * size == Product(nmemb, size) + k * 0x1_0000_0000_0000_0000
  {
    k := nmemb * size / WORD;
  }

  class Heap {
    const mem: array<int>
    var heapHead: nat
    var heapBase: nat
    var heapTotal: nat
    ghost var blocks: seq<Block>

    ghost predicate Valid()
      reads this, mem
    {
      && 0 < heapBase == heapHead && heapBase + heapTotal <= mem.Length <= WORD
      && WellFormed(blocks, heapBase, heapBase + heapTotal)
      && Linked(mem[..], blocks)
    }

    constructor (memory: array<int>)
      ensures mem == memory
    {
      mem := memory;
    }

    /** heap_init: one free block over the whole range. */
    method HeapInit(start: nat, size: nat)
      requires 0 < start && HEADER <= size && start + size <= mem.Length <= WORD
      modifies this, mem
      ensures Valid() && heapBase == start && heapTotal == size
      ensures blocks == [Block(start, size - HEADER, true)]
      ensures start % 16 == 0 && size % 16 == 0 ==> Aligned(blocks)
    {
      heapBase := start;
      heapTotal := size;
      heapHead := heapBase;
      mem[heapHead + SIZE] := heapTotal - HEADER;
      mem[heapHead + FREE] := 1;
      mem[heapHead + NEXT] := 0;
      mem[heapHead + PREV] := 0;
      blocks := [Block(start, size - HEADER, true)];
    }

    /** The stores of split_block: a header for the rest, linked in behind the block. */
    method LinkRest(block: nat, size: nat, ghost whole: nat, ghost next: nat)
      requires whole > size + HEADER && block + HEADER + whole <= mem.Length
      requires mem[block + SIZE] == whole && mem[block + NEXT] == next
      requires next != 0 ==> next == block + HEADER + whole && next + HEADER <= mem.Length
      modifies mem
      ensures LinkedRest(old(mem[..]), mem[..], block, size, whole, next)
    {
      var newBlock := block + HEADER + size;
      mem[newBlock + SIZE] := mem[block + SIZE] - size - HEADER;
      mem[newBlock + FREE] := 1;
      mem[newBlock + NEXT] := mem[block + NEXT];
      mem[newBlock + PREV] := block;
      if mem[block + NEXT] != 0 { mem[mem[block + NEXT] + PREV] := newBlock; }
      mem[block + SIZE] := size;
      mem[block + NEXT] := newBlock;
    }

    /** split_block: cut the rest off block i if there is more than a header of it. */
    method SplitBlock(block: nat, size: nat, ghost i: nat)
      requires Valid() && i < |blocks| && blocks[i].addr == block && Fits(blocks[i], size)
      modifies this`blocks, mem
      ensures blocks == old(blocks)[..i] + Cut(old(blocks)[i], size) + old(blocks)[i + 1..]
      ensures Linked(mem[..], blocks)
      ensures Kept(Live(old(blocks)), old(mem[..]), mem[..])
    {
      ghost var bs, m := blocks, mem[..];
      ghost var lo, hi := heapBase, heapBase + heapTotal;
      assert HeaderAt(m, bs, i);
      if mem[block + SIZE] > size + HEADER {
        Bounded(bs, lo, hi, i);
        if i + 1 < |bs| { Bounded(bs, lo, hi, i + 1); assert bs[i + 1].addr == bs[i].End(); }
        LinkRest(block, size, bs[i].size, NextOf(bs, i));
        blocks := bs[..i] + Cut(bs[i], size) + bs[i + 1..];
        SplitLinked(m, mem[..], bs, lo, hi, i, size);
      } else {
        assert blocks == bs[..i] + [bs[i]] + bs[i + 1..];
      }
    }

    /** The store `block->free = ...`. */
    method SetFree(block: nat, free: bool, ghost i: nat, ghost lo: nat, ghost hi: nat)
      requires Tiled(blocks, lo, hi) && Linked(mem[..], blocks) && i < |blocks| && blocks[i].addr == block
      modifies this`blocks, mem
      ensures blocks == old(blocks)[i := old(blocks)[i].(free := free)]
      ensures free ==> Live(blocks) <= Live(old(blocks))
      ensures Tiled(blocks, lo, hi) && Linked(mem[..], blocks)
      ensures Kept(Live(old(blocks)), old(mem[..]), mem[..])
    {
      ghost var bs, m := blocks, mem[..];
      assert HeaderAt(m, bs, i);
      mem[block + FREE] := if free then 1 else 0;
      blocks := bs[i := bs[i].(free := free)];
      MarkLinked(m, mem[..], bs, lo, hi, i, free);
    }

    /** The body of kmalloc's search once block i fits: split, mark used. */
    method Take(curr: nat, need: nat, ghost i: nat) returns (ptr: nat)
      requires Valid() && i < |blocks| && blocks[i].addr == curr && Fits(blocks[i], need)
      modifies this`blocks, mem
      ensures Valid()
      ensures blocks == Place(old(blocks), i, need) && ptr == old(blocks)[i].Ptr()
      ensures Kept(Live(old(blocks)), old(mem[..]), mem[..])
    {
      ghost var lo, hi, bs := heapBase, heapBase + heapTotal, blocks;
      PlaceKeeps(bs, lo, hi, i, need);
      CutTiled(bs, lo, hi, i, need);
      CutLive(bs, i, need);
      SplitBlock(curr, need, i);
      SetFree(curr, false, i, lo, hi);
      assert blocks == Place(bs, i, need);
      return curr + HEADER;
    }

    /** kmalloc: first fit along the list. */
    method Kmalloc(size: nat) returns (ptr: nat)
      requires Valid() && size < WORD
      modifies this`blocks, mem
      ensures Valid()
      ensures (blocks, ptr) == Malloc(old(blocks), size)
      ensures Kept(Live(old(blocks)), old(mem[..]), mem[..])
      ensures ptr == 0 ==> mem[..] == old(mem[..])
    {
      var need := Align16(size);
      var curr := heapHead;
      ghost var i: nat := 0;
      while curr != 0
        invariant Valid() && blocks == old(blocks) && mem[..] == old(mem[..])
        invariant i <= |blocks| && curr == (if i < |blocks| then blocks[i].addr else 0)
        invariant i < |blocks| ==> 0 < blocks[i].addr
        invariant forall j :: 0 <= j < i ==> !Fits(blocks[j], need)
        decreases |blocks| - i
      {
        assert HeaderAt(mem[..], blocks, i);
        if mem[curr + FREE] != 0 && mem[curr + SIZE] >= need {
          ptr := Take(curr, need, i);
          return;
        }
        curr := mem[curr + NEXT];
        i := i + 1;
        if i < |blocks| { Bounded(blocks, heapBase, heapBase + heapTotal, i); }
      }
      return 0;
    }

    /** The merge both arms of kfree perform: block i swallows the free block behind it. */
    method Merge(block: nat, ghost i: nat, ghost lo: nat, ghost hi: nat)
      requires Tiled(blocks, lo, hi) && Linked(mem[..], blocks) && 0 < lo
      requires i + 1 < |blocks| && blocks[i].addr == block && blocks[i].free && blocks[i + 1].free
      modifies this`blocks, mem
      ensures blocks == Absorb(old(blocks), i) && Live(blocks) == Live(old(blocks))
      ensures Tiled(blocks, lo, hi) && Linked(mem[..], blocks)
      ensures Kept(Live(old(blocks)), old(mem[..]), mem[..])
    {
      ghost var bs, m := blocks, mem[..];
      assert HeaderAt(m, bs, i) && HeaderAt(m, bs, i + 1) && bs[i + 1].addr == bs[i].End();
      if i + 2 < |bs| { assert HeaderAt(m, bs, i + 2) && bs[i + 2].addr == bs[i + 1].End(); }
      var next := mem[block + NEXT];
      mem[block + SIZE] := mem[block + SIZE] + HEADER + mem[next + SIZE];
      mem[block + NEXT] := mem[next + NEXT];
      if mem[block + NEXT] != 0 { mem[mem[block + NEXT] + PREV] := block; }
      blocks := Absorb(bs, i);
      AbsorbLive(bs, i);
      AbsorbLinked(m, mem[..], bs, lo, hi, i);
    }

    /** First arm of kfree: merge with a free right neighbour. */
    method MergeRight(block: nat, ghost i: nat, ghost lo: nat, ghost hi: nat)
      requires Tiled(blocks, lo, hi) && Linked(mem[..], blocks) && 0 < lo
      requires i < |blocks| && blocks[i].addr == block && blocks[i].free
      modifies this`blocks, mem
      ensures Tiled(blocks, lo, hi) && Linked(mem[..], blocks)
      ensures blocks == if i + 1 < |old(blocks)| && old(blocks)[i + 1].free then Absorb(old(blocks), i) else old(blocks)
      ensures Live(blocks) == Live(old(blocks))
      ensures Kept(Live(old(blocks)), old(mem[..]), mem[..])
    {
      assert HeaderAt(mem[..], blocks, i);
      if i + 1 < |blocks| { assert HeaderAt(mem[..], blocks, i + 1); Bounded(blocks, lo, hi, i + 1); }
      if mem[block + NEXT] != 0 && mem[mem[block + NEXT] + FREE] != 0 {
        Merge(block, i, lo, hi);
      }
    }

    /** Second arm of kfree: merge into a free left neighbour. */
    method MergeLeft(block: nat, ghost i: nat, ghost lo: nat, ghost hi: nat)
      requires Tiled(blocks, lo, hi) && Linked(mem[..], blocks) && 0 < lo
      requires i < |blocks| && blocks[i].addr == block && blocks[i].free
      modifies this`blocks, mem
      ensures Tiled(blocks, lo, hi) && Linked(mem[..], blocks)
      ensures blocks == if i > 0 && old(blocks)[i - 1].free then Absorb(old(blocks), i - 1) else old(blocks)
      ensures Live(blocks) == Live(old(blocks))
      ensures Kept(Live(old(blocks)), old(mem[..]), mem[..])
    {
      assert HeaderAt(mem[..], blocks, i);
      if i > 0 { assert HeaderAt(mem[..], blocks, i - 1); Bounded(blocks, lo, hi, i - 1); }
      if mem[block + PREV] != 0 && mem[mem[block + PREV] + FREE] != 0 {
        Merge(mem[block + PREV], i - 1, lo, hi);
      }
    }

    /** kfree from the marking on. */
    method ReleaseBlock(block: nat, ghost i: nat, ghost lo: nat, ghost hi: nat)
      requires Tiled(blocks, lo, hi) && Linked(mem[..], blocks) && 0 < lo
      requires i < |blocks| && blocks[i].addr == block
      modifies this`blocks, mem
      ensures Linked(mem[..], blocks) && blocks == Release(old(blocks), i)
      ensures Kept(Live(blocks), old(mem[..]), mem[..])
    {
      ghost var m := mem[..];
      SetFree(block, true, i, lo, hi);
      ghost var m1, live := mem[..], Live(blocks);
      MergeRight(block, i, lo, hi);
      ghost var m2 := mem[..];
      MergeLeft(block, i, lo, hi);
      KeptTrans(live, live, m1, m2, mem[..]);
      KeptTrans(Live(old(blocks)), live, m, m1, mem[..]);
    }

    /** kfree of a live pointer; NULL is ignored. */
    method Kfree(ptr: nat)
      requires Valid() && (ptr == 0 || IsLive(blocks, ptr))
      modifies this`blocks, mem
      ensures Valid()
      ensures blocks == Free(old(blocks), ptr)
      ensures ptr == 0 ==> mem[..] == old(mem[..])
      ensures Kept(Live(blocks), old(mem[..]), mem[..])
    {
      hide Tiled, Linked, Live, Release;
      if ptr == 0 {
        NullNotFound(blocks, 0);
        return;
      }
      ghost var i := Find(blocks, ptr);
      ReleaseKeeps(blocks, heapBase, heapBase + heapTotal, i);
      ReleaseBlock(ptr - HEADER, i, heapBase, heapBase + heapTotal);
    }

    /** A store by the owner of a live allocation. */
    method Store(ptr: nat, k: nat, v: int)
      requires Valid() && IsLive(blocks, ptr) && k < BlockOf(blocks, ptr).size
      modifies mem
      ensures Valid()
      ensures var b := BlockOf(blocks, ptr);
        && k < |Payload(old(mem[..]), b)| && Payload(mem[..], b) == Payload(old(mem[..]), b)[k := v]
        && Kept(Live(blocks) - {b}, old(mem[..]), mem[..])
    {
      ghost var i := Find(blocks, ptr);
      Bounded(blocks, heapBase, heapBase + heapTotal, i);
      ghost var m := mem[..];
      mem[ptr + k] := v;
      PayloadLinked(m, mem[..], blocks, heapBase, heapBase + heapTotal, i);
    }

    /** The byte loop of krealloc, which looks up the size in the old block's header each time. */
    method CopyBytes(newptr: nat, ptr: nat, ghost size: nat, ghost e: nat)
      requires HEADER <= ptr && ptr + size <= mem.Length && newptr + size <= e <= mem.Length && mem[ptr - HEADER + SIZE] == size
      requires ptr + size <= newptr || e <= ptr - HEADER
      modifies mem
      ensures CopiedTo(old(mem[..]), mem[..], ptr, newptr, e, size)
    {
      hide CopiedTo;
      ghost var m := mem[..];
      var block := ptr - HEADER;
      CopyStart(m, ptr, newptr, e);
      var k := 0;
      while k < mem[block + SIZE]
        invariant 0 <= k <= mem[block + SIZE] == size
        invariant CopiedTo(m, mem[..], ptr, newptr, e, k)
      {
        CopyByte(m, mem[..], ptr, newptr, e, k);
        mem[newptr + k] := mem[ptr + k];
        k := k + 1;
        CopyOutside(m, mem[..], ptr, newptr, e, k, block + SIZE);
      }
    }

    /** It goes from the payload of block i into that of block j. */
    method CopyPayload(newptr: nat, ptr: nat, ghost i: nat, ghost j: nat)
      requires Valid() && i < |blocks| && j < |blocks| && i != j
      requires blocks[i].Ptr() == ptr && blocks[j].Ptr() == newptr && blocks[i].size <= blocks[j].size
      modifies mem
      ensures Valid() && Kept(Live(blocks) - {blocks[j]}, old(mem[..]), mem[..])
      ensures Payload(old(mem[..]), blocks[i]) <= Payload(mem[..], blocks[j])
    {
      hide Tiled, Live, CopiedTo;
      ghost var lo, hi, m := heapBase, heapBase + heapTotal, mem[..];
      if i < j { Ordered(blocks, lo, hi, i, j); } else { Ordered(blocks, lo, hi, j, i); }
      Bounded(blocks, lo, hi, i);
      Bounded(blocks, lo, hi, j);
      assert HeaderAt(m, blocks, i);
      CopyBytes(newptr, ptr, blocks[i].size, blocks[j].End());
      CopyMeans(m, mem[..], blocks[i], blocks[j]);
      CopiedPrefix(m, mem[..], blocks[i], blocks[j]);
      PayloadLinked(m, mem[..], blocks, lo, hi, j);
    }

    /** krealloc from the copying on. */
    method MoveTo(ptr: nat, newptr: nat)
      requires Valid() && IsLive(blocks, ptr) && IsLive(blocks, newptr) && ptr != newptr
      requires BlockOf(blocks, ptr).size <= BlockOf(blocks, newptr).size
      modifies this`blocks, mem
      ensures Valid() && blocks == Free(old(blocks), ptr)
      ensures IsLive(blocks, newptr) && BlockOf(blocks, newptr) == BlockOf(old(blocks), newptr)
      ensures Live(blocks) == Live(old(blocks)) - {BlockOf(old(blocks), ptr)}
      ensures Payload(old(mem[..]), BlockOf(old(blocks), ptr)) <= Payload(mem[..], BlockOf(blocks, newptr))
      ensures Kept(Live(blocks) - {BlockOf(blocks, newptr)}, old(mem[..]), mem[..])
    {
      hide Linked, Free, Payload;
      ghost var lo, hi, bs, m := heapBase, heapBase + heapTotal, blocks, mem[..];
      ghost var i, j := Find(bs, ptr), Find(bs, newptr);
      CopyPayload(newptr, ptr, i, j);
      ghost var m1 := mem[..];
      ghost var c := FreeKeeps(bs, lo, hi, ptr);
      Kfree(ptr);
      LiveStays(bs, blocks, lo, hi, newptr);
      KeptTrans(Live(bs) - {bs[j]}, Live(blocks) - {bs[j]}, m, m1, mem[..]);
      KeptPayload(Live(blocks), m1, mem[..], bs[j]);
    }

    /** krealloc of a block that is too small: allocate, copy, free the old one. */
    method Grow(ptr: nat, size: nat) returns (newptr: nat)
      requires Valid() && IsLive(blocks, ptr) && BlockOf(blocks, ptr).size < size <= WORD - 16
      modifies this`blocks, mem
      ensures Valid()
      ensures (blocks, newptr) == Realloc(old(blocks), ptr, size)
      ensures newptr == 0 ==> mem[..] == old(mem[..])
      ensures Kept(Live(old(blocks)) * Live(blocks), old(mem[..]), mem[..])
      ensures newptr != 0 ==>
        && IsLive(blocks, newptr) && BlockOf(blocks, newptr).size >= size
        && Payload(old(mem[..]), BlockOf(old(blocks), ptr)) <= Payload(mem[..], BlockOf(blocks, newptr))
    {
      ghost var lo, hi, bs, m := heapBase, heapBase + heapTotal, blocks, mem[..];
      Align16Meaning(size);
      ghost var b := MallocKeeps(bs, lo, hi, size);
      NullNotFound(bs, 0);
      newptr := Kmalloc(size);
      if newptr == 0 { return; }
      ghost var rs, m1 := blocks, mem[..];
      KeptPayload(Live(bs), m, m1, BlockOf(bs, ptr));
      LiveStays(bs, rs, lo, hi, ptr);
      MoveTo(ptr, newptr);
      KeptTrans(Live(bs), Live(bs) * Live(blocks), m, m1, mem[..]);
    }

    /** krealloc: the old contents are a prefix of the new block's; on NULL nothing changed. */
    method Krealloc(ptr: nat, size: nat) returns (newptr: nat)
      requires Valid() && (ptr == 0 || IsLive(blocks, ptr)) && size <= WORD - 16
      modifies this`blocks, mem
      ensures Valid()
      ensures (blocks, newptr) == Realloc(old(blocks), ptr, size)
      ensures newptr == 0 ==> blocks == old(blocks) && mem[..] == old(mem[..])
      ensures newptr != 0 ==> IsLive(blocks, newptr) && BlockOf(blocks, newptr).size >= size
      ensures ptr != 0 && size <= BlockOf(old(blocks), ptr).size ==> newptr == ptr && blocks == old(blocks) && mem[..] == old(mem[..])
      ensures Kept(Live(old(blocks)) * Live(blocks), old(mem[..]), mem[..])
      ensures ptr != 0 && newptr != 0 ==>
        Payload(old(mem[..]), BlockOf(old(blocks), ptr)) <= Payload(mem[..], BlockOf(blocks, newptr))
    {
      hide WellFormed, Malloc, Free;
      NullNotFound(blocks, 0);
      if ptr == 0 {
        Align16Meaning(size);
        ghost var b := MallocKeeps(blocks, heapBase, heapBase + heapTotal, size);
        newptr := Kmalloc(size);
        return;
      }
      assert HeaderAt(mem[..], blocks, Find(blocks, ptr));
      if mem[ptr - HEADER + SIZE] >= size { return ptr; }
      newptr := Grow(ptr, size);
    }

    /** kcalloc: kmalloc of the product taken modulo 2^64, then zeros over that many bytes. */
    method Kcalloc(nmemb: nat, size: nat) returns (ptr: nat)
      requires Valid() && Product(nmemb, size) <= WORD - 16
      modifies this`blocks, mem
      ensures Valid()
      ensures (blocks, ptr) == Malloc(old(blocks), Product(nmemb, size))
      ensures Kept(Live(old(blocks)), old(mem[..]), mem[..])
      ensures ptr == 0 ==> mem[..] == old(mem[..])
      ensures ptr != 0 ==> IsLive(blocks, ptr) && Zeroed(mem[..], BlockOf(blocks, ptr), Product(nmemb, size))
    {
      hide WellFormed, Malloc, Linked, IsLive, Product;
      var total := Product(nmemb, size);
      ptr := AllocateZeroed(total);
    }

    method AllocateZeroed(total: nat) returns (ptr: nat)
      requires Valid() && total <= WORD - 16
      modifies this`blocks, mem
      ensures Valid()
      ensures (blocks, ptr) == Malloc(old(blocks), total)
      ensures Kept(Live(old(blocks)), old(mem[..]), mem[..])
      ensures ptr == 0 ==> mem[..] == old(mem[..])
      ensures ptr != 0 ==> IsLive(blocks, ptr) && Zeroed(mem[..], BlockOf(blocks, ptr), total)
    {
      ghost var bs, m := blocks, mem[..];
      Align16Meaning(total);
      ghost var b := MallocKeeps(bs, heapBase, heapBase + heapTotal, total);
      ptr := Kmalloc(total);
      if ptr == 0 { return; }
      ghost var m1 := mem[..];
      Zero(ptr, total);
      KeptTrans(Live(bs), Live(bs), m, m1, mem[..]);
    }

    /** The byte loop of kcalloc. */
    method Zero(ptr: nat, total: nat)
      requires Valid() && IsLive(blocks, ptr) && total <= BlockOf(blocks, ptr).size
      modifies mem
      ensures Valid()
      ensures Kept(Live(blocks) - {BlockOf(blocks, ptr)}, old(mem[..]), mem[..])
      ensures Zeroed(mem[..], BlockOf(blocks, ptr), total)
    {
      ghost var m, j := mem[..], Find(blocks, ptr);
      Bounded(blocks, heapBase, heapBase + heapTotal, j);
      for k := 0 to total
        invariant ChangedIn(m, mem[..], ptr, blocks[j].End(), -1)
        invariant forall l :: ptr <= l < ptr + k ==> mem[l] == 0
      {
        mem[ptr + k] := 0;
      }
      PayloadLinked(m, mem[..], blocks, heapBase, heapBase + heapTotal, j);
    }

    /** heap_used: the bytes of live payload. */
    method HeapUsed() returns (used: nat)
      requires Valid()
      ensures used == Used(blocks)
    {
      used := 0;
      var curr := heapHead;
      ghost var i: nat := 0;
      while curr != 0
        invariant i <= |blocks| && curr == (if i < |blocks| then blocks[i].addr else 0)
        invariant i < |blocks| ==> 0 < blocks[i].addr
        invariant used + Used(blocks[i..]) == Used(blocks)
        decreases |blocks| - i
      {
        assert HeaderAt(mem[..], blocks, i);
        if mem[curr + FREE] == 0 { used := used + mem[curr + SIZE]; }
        curr := mem[curr + NEXT];
        i := i + 1;
        if i < |blocks| { Bounded(blocks, heapBase, heapBase + heapTotal, i); }
      }
    }

    /** heap_free: the bytes of free payload. */
    method HeapFree() returns (free: nat)
      requires Valid()
      ensures free == Unused(blocks)
    {
      free := 0;
      var curr := heapHead;
      ghost var i: nat := 0;
      while curr != 0
        invariant i <= |blocks| && curr == (if i < |blocks| then blocks[i].addr else 0)
        invariant i < |blocks| ==> 0 < blocks[i].addr
        invariant free + Unused(blocks[i..]) == Unused(blocks)
        decreases |blocks| - i
      {
        assert HeaderAt(mem[..], blocks, i);
        if mem[curr + FREE] != 0 { free := free + mem[curr + SIZE]; }
        curr := mem[curr + NEXT];
        i := i + 1;
        if i < |blocks| { Bounded(blocks, heapBase, heapBase + heapTotal, i); }
      }
    }
  }
}
