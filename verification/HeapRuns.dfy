/** Whole runs of the heap: any sequence of calls and of stores by the owners of live allocations. */
module HeapRuns {
  import opened HeapBlocks
  import opened KernelHeap

  datatype Snapshot = Snapshot(blocks: seq<Block>, mem: seq<int>)

  datatype Request =
    | Allocate(n: nat)
    | AllocateZero(nmemb: nat, size: nat)
    | Reallocate(p: nat, n: nat)
    | Discard(p: nat)
    | Write(p: nat, k: nat, v: int)

  /** What the heap demands of its callers: live pointers, and sizes that do not wrap. */
  ghost predicate Legal(bs: seq<Block>, r: Request) {
    match r
    case Allocate(n) => n < WORD
    case AllocateZero(nmemb, size) => nmemb * size <= WORD - 16
    case Reallocate(p, n) => (p == 0 || IsLive(bs, p)) && n <= WORD - 16
    case Discard(p) => p == 0 || IsLive(bs, p)
    case Write(p, k, v) => IsLive(bs, p) && k < BlockOf(bs, p).size
  }

  /** The block list after a request, and the answer. */
  function After(bs: seq<Block>, r: Request): (seq<Block>, nat)
    requires r.Reallocate? ==> r.p == 0 || Find(bs, r.p) < |bs|
  {
    match r
    case Allocate(n) => Malloc(bs, n)
    case AllocateZero(nmemb, size) => Malloc(bs, nmemb * size)
    case Reallocate(p, n) => Realloc(bs, p, n)
    case Discard(p) => (Free(bs, p), 0)
    case Write(p, k, v) => (bs, 0)
  }

  /** What a request leaves unchanged in memory, and what it puts there. */
  ghost predicate Stored(s: Snapshot, r: Request, ret: nat, s': Snapshot)
    requires Legal(s.blocks, r)
  {
    match r
    case Allocate(n) => Kept(Live(s.blocks), s.mem, s'.mem)
    case AllocateZero(nmemb, size) =>
      && Kept(Live(s.blocks), s.mem, s'.mem)
      && (ret != 0 ==> IsLive(s'.blocks, ret) && Zeroed(s'.mem, BlockOf(s'.blocks, ret), nmemb * size))
    case Reallocate(p, n) =>
      && Kept(Live(s.blocks) * Live(s'.blocks), s.mem, s'.mem)
      && (p != 0 && ret != 0 ==>
            && IsLive(s'.blocks, ret)
            && Payload(s.mem, BlockOf(s.blocks, p)) <= Payload(s'.mem, BlockOf(s'.blocks, ret)))
    case Discard(p) => Kept(Live(s'.blocks), s.mem, s'.mem)
    case Write(p, k, v) =>
      && Kept(Live(s.blocks) - {BlockOf(s.blocks, p)}, s.mem, s'.mem)
      && k < |Payload(s.mem, BlockOf(s.blocks, p))|
      && Payload(s'.mem, BlockOf(s.blocks, p)) == Payload(s.mem, BlockOf(s.blocks, p))[k := v]
  }

  /** One call, with its answer and its effect on the block list and on memory. */
  ghost predicate Step(s: Snapshot, r: Request, ret: nat, s': Snapshot) {
    Legal(s.blocks, r) && (s'.blocks, ret) == After(s.blocks, r) && Stored(s, r, ret, s')
  }

  ghost function Snap(h: Heap): Snapshot
    reads h, h.mem
  {
    Snapshot(h.blocks, h.mem[..])
  }

  /** Every call of the allocator is such a step. */
  method Serve(h: Heap, r: Request) returns (ret: nat)
    requires h.Valid() && Legal(h.blocks, r)
    modifies h`blocks, h.mem
    ensures h.Valid() && Step(old(Snap(h)), r, ret, Snap(h))
  {
    hide Malloc, Realloc, Free, Live, Kept, Zeroed, Payload, IsLive, WellFormed, Linked, Aligned;
    ret := 0;
    match r
    case Allocate(n) => ret := h.Kmalloc(n);
    case AllocateZero(nmemb, size) => ret := h.Kcalloc(nmemb, size);
    case Reallocate(p, n) => ret := h.Krealloc(p, n);
    case Discard(p) => h.Kfree(p);
    case Write(p, k, v) => h.Store(p, k, v);
  }

  /** The request names allocation p as its subject. */
  predicate Touches(r: Request, p: nat) {
    match r
    case Allocate(_) => false
    case AllocateZero(_, _) => false
    case Reallocate(q, _) => q == p
    case Discard(q) => q == p
    case Write(q, _, _) => q == p
  }

  lemma ReallocKeeps(bs: seq<Block>, lo: nat, hi: nat, p: nat, n: nat)
    requires WellFormed(bs, lo, hi) && (p == 0 || IsLive(bs, p)) && n <= WORD - 16
    ensures WellFormed(Realloc(bs, p, n).0, lo, hi)
    ensures Aligned(bs) ==> Aligned(Realloc(bs, p, n).0)
    ensures forall b :: b in Live(bs) && b.Ptr() != p ==> b in Live(Realloc(bs, p, n).0)
    ensures Realloc(bs, p, n).1 == 0 ==> Realloc(bs, p, n).0 == bs
  {
    var b := MallocKeeps(bs, lo, hi, n);
    NullNotFound(bs, 0);
    var (r, q) := Malloc(bs, n);
    if p != 0 && BlockOf(bs, p).size < n && q != 0 {
      LiveStays(bs, r, lo, hi, p);
      var c := FreeKeeps(r, lo, hi, p);
    }
  }

  lemma AfterKeeps(bs: seq<Block>, r: Request, lo: nat, hi: nat)
    requires WellFormed(bs, lo, hi) && Legal(bs, r)
    ensures WellFormed(After(bs, r).0, lo, hi)
    ensures Aligned(bs) ==> Aligned(After(bs, r).0)
    ensures forall b :: b in Live(bs) && !Touches(r, b.Ptr()) ==> b in Live(After(bs, r).0)
  {
    match r
    case Allocate(n) => var b := MallocKeeps(bs, lo, hi, n);
    case AllocateZero(nmemb, size) => var b := MallocKeeps(bs, lo, hi, nmemb * size);
    case Reallocate(p, n) => ReallocKeeps(bs, lo, hi, p, n);
    case Discard(p) =>
      NullNotFound(bs, 0);
      if p != 0 { var b := FreeKeeps(bs, lo, hi, p); }
    case Write(p, k, v) =>
  }

  lemma StepIsolates(s: Snapshot, r: Request, ret: nat, s': Snapshot, lo: nat, hi: nat, b: Block)
    requires WellFormed(s.blocks, lo, hi) && Step(s, r, ret, s')
    requires b in Live(s.blocks) && !Touches(r, b.Ptr())
    ensures b in Live(s'.blocks) && Payload(s'.mem, b) == Payload(s.mem, b)
  {
    AfterKeeps(s.blocks, r, lo, hi);
  }

  /** A run: states, and between them requests with their answers. */
  ghost predicate Run(ss: seq<Snapshot>, rs: seq<Request>, rets: seq<nat>) {
    && |ss| == |rs| + 1 && |rets| == |rs|
    && forall i :: 0 <= i < |rs| ==> Step(ss[i], rs[i], rets[i], ss[i + 1])
  }

  /** The invariant holds in every state of every run. */
  lemma {:induction false} RunKeeps(ss: seq<Snapshot>, rs: seq<Request>, rets: seq<nat>, lo: nat, hi: nat, i: nat)
    requires Run(ss, rs, rets) && WellFormed(ss[0].blocks, lo, hi) && i <= |rs|
    ensures WellFormed(ss[i].blocks, lo, hi)
    ensures Aligned(ss[0].blocks) ==> Aligned(ss[i].blocks)
    ensures Used(ss[i].blocks) + Unused(ss[i].blocks) + HEADER * |ss[i].blocks| == hi - lo
  {
    if i > 0 {
      RunKeeps(ss, rs, rets, lo, hi, i - 1);
      assert Step(ss[i - 1], rs[i - 1], rets[i - 1], ss[i - 1 + 1]);
      AfterKeeps(ss[i - 1].blocks, rs[i - 1], lo, hi);
    }
    Conservation(ss[i].blocks, lo, hi);
  }

  /** An allocation that no request of the run names is still live at the end, in the same place,
      with the same size and the same bytes. */
  lemma {:induction false} RunIsolates(ss: seq<Snapshot>, rs: seq<Request>, rets: seq<nat>, lo: nat, hi: nat, b: Block, i: nat)
    requires Run(ss, rs, rets) && WellFormed(ss[0].blocks, lo, hi) && i <= |rs|
    requires b in Live(ss[0].blocks) && forall j :: 0 <= j < i ==> !Touches(rs[j], b.Ptr())
    ensures b in Live(ss[i].blocks) && Payload(ss[i].mem, b) == Payload(ss[0].mem, b)
  {
    if i > 0 {
      RunIsolates(ss, rs, rets, lo, hi, b, i - 1);
      RunKeeps(ss, rs, rets, lo, hi, i - 1);
      assert Step(ss[i - 1], rs[i - 1], rets[i - 1], ss[i - 1 + 1]);
      StepIsolates(ss[i - 1], rs[i - 1], rets[i - 1], ss[i], lo, hi, b);
    }
  }

  /** Whatever two runs did, if the same allocations are live then the block lists are the same. */
  lemma RunsConverge(ss: seq<Snapshot>, rs: seq<Request>, rets: seq<nat>, ts: seq<Snapshot>, qs: seq<Request>, rets': seq<nat>,
                     lo: nat, hi: nat)
    requires Run(ss, rs, rets) && Run(ts, qs, rets')
    requires WellFormed(ss[0].blocks, lo, hi) && WellFormed(ts[0].blocks, lo, hi)
    requires Live(ss[|rs|].blocks) == Live(ts[|qs|].blocks)
    ensures ss[|rs|].blocks == ts[|qs|].blocks
  {
    RunKeeps(ss, rs, rets, lo, hi, |rs|);
    RunKeeps(ts, qs, rets', lo, hi, |qs|);
    Canonical(ss[|rs|].blocks, ts[|qs|].blocks, lo, hi);
  }

  function FreeAll(bs: seq<Block>, ps: seq<nat>): seq<Block>
    decreases |ps|
  {
    if ps == [] then bs else FreeAll(Free(bs, ps[0]), ps[1..])
  }

  ghost function Ptrs(live: set<Block>): set<nat> {
    set b | b in live :: b.Ptr()
  }

  lemma PtrsWithout(live: set<Block>, c: Block)
    requires c in live && forall b :: b in live && b.Ptr() == c.Ptr() ==> b == c
    ensures Ptrs(live - {c}) == Ptrs(live) - {c.Ptr()}
  {
  }

  lemma NoPtrs(live: set<Block>)
    ensures Ptrs(live) == {} ==> live == {}
  {
    assert forall b :: b in live ==> b.Ptr() in Ptrs(live);
  }

  lemma SamePtr(bs: seq<Block>, lo: nat, hi: nat, b: Block, c: Block)
    requires Tiled(bs, lo, hi) && b in bs && c in bs && b.Ptr() == c.Ptr()
    ensures b == c
  {
    var i, j :| 0 <= i < |bs| && bs[i] == b && 0 <= j < |bs| && bs[j] == c;
    FindLive(bs, lo, hi, i);
    FindLive(bs, lo, hi, j);
  }

  /** Freeing p ends the life of p and of nothing else. */
  lemma FreePtrs(bs: seq<Block>, lo: nat, hi: nat, p: nat) returns (r: seq<Block>)
    requires WellFormed(bs, lo, hi) && p in Ptrs(Live(bs))
    ensures r == Free(bs, p) && WellFormed(r, lo, hi) && Ptrs(Live(r)) == Ptrs(Live(bs)) - {p}
  {
    LivePtr(bs, lo, hi, p);
    var c := FreeKeeps(bs, lo, hi, p);
    r := Free(bs, p);
    forall b | b in Live(bs) && b.Ptr() == c.Ptr() ensures b == c { SamePtr(bs, lo, hi, b, c); }
    PtrsWithout(Live(bs), c);
  }

  lemma RestOf(ps: seq<nat>)
    requires ps != [] && forall i, j :: 0 <= i < j < |ps| ==> ps[i] != ps[j]
    ensures (set p | p in ps[1..]) == (set p | p in ps) - {ps[0]} && ps[0] in (set p | p in ps)
  {
    assert ps == [ps[0]] + ps[1..];
  }

  /** Freeing every live pointer once, in any order, leaves the single free block of heap_init. */
  lemma {:induction false} FreeAllRestores(bs: seq<Block>, lo: nat, hi: nat, ps: seq<nat>)
    requires WellFormed(bs, lo, hi)
    requires forall i, j :: 0 <= i < j < |ps| ==> ps[i] != ps[j]
    requires Ptrs(Live(bs)) == set p | p in ps
    ensures lo + HEADER <= hi && FreeAll(bs, ps) == [Block(lo, hi - lo - HEADER, true)]
    decreases |ps|
  {
    hide WellFormed, Free, Ptrs, Live;
    if ps == [] {
      NoPtrs(Live(bs));
      AllFreed(bs, lo, hi);
    } else {
      var r := FreePtrs(bs, lo, hi, ps[0]);
      RestOf(ps);
      FreeAllRestores(r, lo, hi, ps[1..]);
    }
  }
}
