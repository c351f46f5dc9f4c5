/** Finding room for a new directory entry and putting it there (fat32_create_file, fat32_create_dir). */
module FatPlace {
  import opened Arithmetic
  import opened FatLayout
  import opened FatTable
  import opened FatVolume
  import opened FatFile
  import opened FatDirectory
  import opened FatDirOps

  // ------------------------------------------------------------ in one sector

  predicate FreeSlot(s: Slot) { s[0] == 0 || s[0] == DELETED }

  /** Slots e..e+n of the sector are free. */
  predicate Window(sec: seq<Slot>, e: nat, n: nat)
    requires |sec| == 16
  {
    e + n <= 16 && forall i :: e <= i < e + n ==> FreeSlot(sec[i])
  }

  /** Where the search stops: at a free window, or at an end mark with n slots left in the sector. */
  predicate Fit(sec: seq<Slot>, e: nat, n: nat)
    requires |sec| == 16
  {
    e + n <= 16 && e < 16 && (Window(sec, e, n) || sec[e][0] == 0)
  }

  /** n slots' worth of bytes. */
  function Flat(ents: seq<Slot>): (r: seq<byte>)
    ensures |r| == 32 * |ents|
  {
    if ents == [] then [] else ents[0] + Flat(ents[1..])
  }

  /** The sector with the entries put in; at an end mark the rest of it is cleared first. */
  function PutAt(s: Sector, e: nat, n: nat, bytes: seq<byte>): Sector
    requires Fit(SectorSlots(s), e, n) && |bytes| == 32 * n
  {
    PutOn(if Window(SectorSlots(s), e, n) then s else s[..32 * e] + Zeros(512 - 32 * e), e, n, bytes)
  }

  lemma {:induction false} FlatAt(ents: seq<Slot>, i: nat)
    requires i < |ents|
    ensures Flat(ents)[32 * i..32 * i + 32] == ents[i]
  {
    if i > 0 {
      FlatAt(ents[1..], i - 1);
      assert Flat(ents)[32 * i..32 * i + 32] == Flat(ents[1..])[32 * (i - 1)..32 * (i - 1) + 32];
    }
  }

  lemma PatchedSlot(base: Sector, e: nat, n: nat, bytes: seq<byte>, i: nat)
    requires e + n <= 16 && |bytes| == 32 * n && i < 16
    ensures SlotOf(Patched(base, 32 * e, bytes), i) ==
      if e <= i < e + n then bytes[32 * (i - e)..32 * (i - e) + 32] else SlotOf(base, i)
  {
    var p := Patched(base, 32 * e, bytes);
    var want := if e <= i < e + n then bytes[32 * (i - e)..32 * (i - e) + 32] else SlotOf(base, i);
    forall x | 0 <= x < 32 ensures SlotOf(p, i)[x] == want[x] {
      PatchedAt(base, 32 * e, bytes, 32 * i + x);
    }
  }

  lemma ClearedSlot(s: Sector, e: nat, i: nat)
    requires e <= 16 && i < 16
    ensures SlotOf(s[..32 * e] + Zeros(512 - 32 * e), i) == if i < e then SlotOf(s, i) else Zeros(32)
  {
    var c: Sector := s[..32 * e] + Zeros(512 - 32 * e);
    var want := if i < e then SlotOf(s, i) else Zeros(32);
    forall x | 0 <= x < 32 ensures SlotOf(c, i)[x] == want[x] {
      assert SlotOf(c, i)[x] == c[32 * i + x];
      assert c[32 * i + x] == if i < e then s[32 * i + x] else 0;
    }
  }

  lemma MarkedSlot(s: Sector, m: nat, i: nat)
    requires m < 16 && i < 16
    ensures SlotOf(s[32 * m := 0], i) == if i == m then SlotOf(s, i)[0 := 0] else SlotOf(s, i)
  {
  }

  /** The entries at slot e, and an end mark behind them. */
  function PutOn(base: Sector, e: nat, n: nat, bytes: seq<byte>): Sector
    requires e + n <= 16 && |bytes| == 32 * n
  {
    var put := Patched(base, 32 * e, bytes);
    if e + n < 16 then put[32 * (e + n) := 0] else put
  }

  function Marked(s: Slot, mark: bool): Slot { if mark then s[0 := 0] else s }

  lemma PutOnSlot(base: Sector, e: nat, ents: seq<Slot>, i: nat)
    requires e + |ents| <= 16 && i < 16
    ensures SlotOf(PutOn(base, e, |ents|, Flat(ents)), i) ==
      if e <= i < e + |ents| then ents[i - e] else Marked(SlotOf(base, i), i == e + |ents|)
  {
    hide Flat, SlotOf, Patched;
    PatchedSlot(base, e, |ents|, Flat(ents), i);
    if e + |ents| < 16 { MarkedSlot(Patched(base, 32 * e, Flat(ents)), e + |ents|, i); }
    if e <= i < e + |ents| { FlatAt(ents, i - e); }
  }

  /** Whether n slots fit at slot e, by the first bytes of the slots there. */
  lemma FitBytes(s: Sector, e: nat, n: nat)
    ensures Fit(SectorSlots(s), e, n) <==>
      && e < 16 && e + n <= 16
      && ((forall i :: e <= i < e + n ==> s[32 * i] == 0 || s[32 * i] == 0xE5) || s[32 * e] == 0)
  {
    var sec := SectorSlots(s);
    assert forall i :: 0 <= i < 16 ==> sec[i][0] == s[32 * i];
    if e + n <= 16 && forall i :: e <= i < e + n ==> s[32 * i] == 0 || s[32 * i] == 0xE5 {
      forall i | e <= i < e + n ensures FreeSlot(sec[i]) { assert sec[i][0] == s[32 * i]; }
    }
  }

  /** The sector afterwards, byte by byte: the new slots, an end mark behind them, and the rest as it was, or zeros
      behind the new slots where they did not all take the place of free ones. */
  lemma PutBytes(s: Sector, e: nat, n: nat, bytes: seq<byte>, x: nat)
    requires Fit(SectorSlots(s), e, n) && |bytes| == 32 * n && x < 512
    ensures PutAt(s, e, n, bytes)[x] ==
      if 32 * e <= x < 32 * (e + n) then bytes[x - 32 * e]
      else if x == 32 * (e + n) then 0
      else if x < 32 * e || Window(SectorSlots(s), e, n) then s[x] else 0
  {
    hide Fit, Window, SectorSlots, Patched;
    FitsIn(s, e, n);
    var base: Sector := if Window(SectorSlots(s), e, n) then s else s[..32 * e] + Zeros(512 - 32 * e);
    PatchedAt(base, 32 * e, bytes, x);
  }

  lemma FitsIn(s: Sector, e: nat, n: nat)
    requires Fit(SectorSlots(s), e, n)
    ensures e + n <= 16
  {
  }

  /** The two nested loops over the slots of a sector, and the write into the buffer. */
  method PlaceInSector(sector: Sector, bytes: seq<byte>, total: nat) returns (found: bool, e: nat, sector': Sector)
    requires 1 <= total && |bytes| == 32 * total
    ensures found ==> Fit(SectorSlots(sector), e, total) && sector' == PutAt(sector, e, total, bytes)
    ensures forall i: nat :: i < (if found then e else 16) ==> !Fit(SectorSlots(sector), i, total)
  {
    found, e, sector' := false, 0, sector;
    ghost var sec := SectorSlots(sector);
    var off := 0;
    while off <= 512 - 32 * (total as int)
      invariant off == 32 * e && !found
      invariant forall i: nat :: i < e ==> !Fit(sec, i, total)
      decreases 512 - off
    {
      var freeOk := true;
      var j := 0;
      while j < total
        invariant 0 <= j <= total && freeOk && forall i :: e <= i < e + j ==> FreeSlot(sec[i])
      {
        assert sec[e + j][0] == sector[off + j * 32];
        if sector[off + j * 32] != 0x00 && sector[off + j * 32] != 0xE5 { freeOk := false; break; }
        j := j + 1;
      }
      assert freeOk <==> Window(sec, e, total) by { assert j < total ==> !FreeSlot(sec[e + j]); }
      assert sec[e][0] == sector[off];
      if freeOk || sector[off] == 0x00 {
        if !freeOk { sector' := sector[..off] + Zeros(512 - off); }
        sector' := Patched(sector', off, bytes);
        var end := off + total * 32;
        if end < 512 { sector' := sector'[end := 0x00]; }
        found := true;
        return;
      }
      off := off + 32;
      e := e + 1;
    }
  }

  // ---------------------------------------------------- extending a directory

  function ZeroSector(): Sector { seq(512, _ => 0) }

  /** The sectors of directory ch are as they were, the new ones of ch1 are zero unless they fail, and the rest
      of the data area is as it was. */
  ghost predicate Extended(g: Geometry, d: seq<Sector>, d1: seq<Sector>, ch: seq<nat>, ch1: seq<nat>, bad: set<nat>) {
    && Mounted(g, |d|) && |d1| == |d| && OnVolume(g, ch) && OnVolume(g, ch1) && ch <= ch1
    && SectorCount(g, ch) <= SectorCount(g, ch1)
    && (forall k: nat :: k < SectorCount(g, ch) ==> DirSector(g, d1, ch1, k) == DirSector(g, d, ch, k))
    && (forall k :: SectorCount(g, ch) <= k < SectorCount(g, ch1) ==>
          DirSector(g, d1, ch1, k) == ZeroSector() || exists l :: InFile(g, ch1, l) && l in bad)
    && (forall l :: g.dataStart <= l < |d| && !InFile(g, ch1, l) ==> d1[l] == d[l])
  }

  /** The n sectors from `base` on are zero unless they fail; all others are the same. */
  ghost predicate ClearedRange(d: seq<Sector>, d': seq<Sector>, bad: set<nat>, base: nat, n: nat) {
    && |d'| == |d|
    && forall l :: 0 <= l < |d| ==> if base <= l < base + n then d'[l] == ZeroSector() || l in bad else d'[l] == d[l]
  }

  /** The loop that clears the sectors of a cluster. Failing writes go unnoticed. */
  method ZeroCluster(v: FatVolume, c: nat)
    requires v.Valid() && IsCluster(v.g, c)
    modifies v.disk
    ensures v.Valid() && v.Fat() == old(v.Fat()) && (old(v.InSync()) ==> v.InSync())
    ensures ClearedRange(old(v.disk[..]), v.disk[..], v.bad, ClusterLba(v.g, c), v.g.spc)
  {
    hide Table, ZeroSector, FatVolume.Coherent, Mounted, ClusterLba, FatVolume.InSync;
    ghost var g, d := v.g, v.disk[..];
    ghost var base := ClusterLba(g, c);
    for s := 0 to v.g.spc
      invariant v.Valid() && v.Fat() == old(v.Fat()) && ClearedRange(d, v.disk[..], v.bad, base, s)
      invariant old(v.InSync()) ==> v.InSync()
    {
      ClusterLbaBounds(g, |d|, c, s);
      var ok := v.WriteSector(ClusterLba(v.g, c) + s, ZeroSector());
    }
  }

  lemma OldSector(g: Geometry, ch: seq<nat>, c: nat, k: nat)
    requires 0 < g.spc && OnVolume(g, ch) && OnVolume(g, ch + [c]) && k < SectorCount(g, ch)
    ensures Quotient(k, g.spc) < |ch| && FileLba(g, ch + [c], k) == FileLba(g, ch, k)
  {
    DivLess(k, |ch|, g.spc);
  }

  lemma NewSector(g: Geometry, ch: seq<nat>, c: nat, s: nat)
    requires 0 < g.spc && OnVolume(g, ch) && OnVolume(g, ch + [c]) && s < g.spc
    ensures var k := SectorCount(g, ch) + s;
      k < SectorCount(g, ch + [c]) && Quotient(k, g.spc) < |ch + [c]| && FileLba(g, ch + [c], k) == ClusterLba(g, (ch + [c])[|ch|]) + s
  {
    DivIs(SectorCount(g, ch) + s, |ch|, s, g.spc);
    MulNext(|ch|, g.spc);
  }

  lemma NewInFile(g: Geometry, ch: seq<nat>, c: nat, s: nat)
    requires 0 < g.spc && OnVolume(g, ch) && OnVolume(g, ch + [c]) && s < g.spc
    ensures InFile(g, ch + [c], ClusterLba(g, (ch + [c])[|ch|]) + s)
  {
    NewSector(g, ch, c, s);
    InFileAt(g, ch + [c], SectorCount(g, ch) + s);
  }

  /** An old sector of the directory is not in the new cluster. */
  lemma OldNotNew(g: Geometry, n: nat, ch: seq<nat>, c: nat, k: nat, s: nat)
    requires Mounted(g, n) && OnVolume(g, ch) && OnVolume(g, ch + [c]) && k < SectorCount(g, ch) && s < g.spc
    ensures Quotient(k, g.spc) < |ch| && FileLba(g, ch, k) != ClusterLba(g, (ch + [c])[|ch|]) + s
  {
    OldSector(g, ch, c, k);
    NewSector(g, ch, c, s);
    FileLbaInjective(g, n, ch + [c], k, SectorCount(g, ch) + s);
  }

  lemma ExtendedByOne(g: Geometry, d: seq<Sector>, d1: seq<Sector>, d2: seq<Sector>, ch: seq<nat>, c: nat, bad: set<nat>)
    requires Mounted(g, |d|) && OnVolume(g, ch) && OnVolume(g, ch + [c]) && IsCluster(g, c)
    requires SameData(g, d, d1) && ClearedRange(d1, d2, bad, ClusterLba(g, c), g.spc)
    ensures Extended(g, d, d2, ch, ch + [c], bad)
  {
    var ch1 := ch + [c];
    var base := ClusterLba(g, c);
    assert ch1[|ch|] == c;
    TimesMono(|ch|, |ch1|, g.spc);
    MountedBasics(g, |d|);
    hide ZeroSector, ClusterLba, Mounted, FileLba, OnVolume;
    forall k: nat | k < SectorCount(g, ch) ensures DirSector(g, d2, ch1, k) == DirSector(g, d, ch, k) {
      OldSector(g, ch, c, k);
      FileLbaBounds(g, |d|, ch, k);
      var l := FileLba(g, ch, k);
      if base <= l < base + g.spc { OldNotNew(g, |d|, ch, c, k, l - base); }
    }
    forall k | SectorCount(g, ch) <= k < SectorCount(g, ch1)
      ensures DirSector(g, d2, ch1, k) == ZeroSector() || exists l :: InFile(g, ch1, l) && l in bad
    {
      MulNext(|ch|, g.spc);
      NewSector(g, ch, c, k - SectorCount(g, ch));
      FileLbaBounds(g, |d|, ch1, k);
      InFileAt(g, ch1, k);
    }
    forall l | g.dataStart <= l < |d| && !InFile(g, ch1, l) ensures d2[l] == d[l] {
      if base <= l < base + g.spc {
        NewInFile(g, ch, c, l - base);
      }
    }
  }

  lemma AppendedFree(tab: seq<nat>, tab': seq<nat>, last: nat, c: nat)
    requires last < |tab| && 2 <= c < |tab| && tab[c] == 0 && tab' == tab[last := c][c := LAST]
    ensures FreeSet(tab') < FreeSet(tab)
  {
    assert c in FreeSet(tab) && c !in FreeSet(tab');
  }

  ghost function FreeSet(tab: seq<nat>): set<nat> {
    set c | 2 <= c < |tab| && tab[c] == 0
  }

  lemma AppendedTook(g: Geometry, tab: seq<nat>, chains: set<seq<nat>>, ch: seq<nat>, c: nat)
    requires |tab| == 2 + g.clusters && Forest(tab, chains) && ch in chains && ch != [] && IsCluster(g, c) && tab[c] == 0
    ensures ch[|ch| - 1] < |tab| && Took(g, tab, tab[ch[|ch| - 1] := c][c := LAST], [c])
  {
    ForestChain(tab, chains, ch);
    assert ch[|ch| - 1] in ch;
    MemberUsed(tab, ch, ch[|ch| - 1]);
    hide Forest, Chain;
  }

  /** A full directory gets another cluster: linked in, then cleared. 0 when no cluster is free. */
  method ExtendDir(v: FatVolume, last: nat, ghost chains: set<seq<nat>>, ghost ch: seq<nat>) returns (newcl: nat)
    requires v.Valid() && v.FatUsable() && Forest(v.Fat(), chains) && ch in chains && ch != [] && ch[|ch| - 1] == last
    modifies v`cachedFatSector, v`fatCache, v`nextFreeHint, v.disk
    ensures v.Valid() && (old(v.InSync()) ==> v.InSync())
    ensures newcl == 0 ==> v.disk[..] == old(v.disk[..]) && forall c :: IsCluster(v.g, c) ==> v.Fat()[c] != 0
    ensures newcl != 0 ==>
      && FreeSet(v.Fat()) < FreeSet(old(v.Fat())) && Took(v.g, old(v.Fat()), v.Fat(), [newcl])
      && Forest(v.Fat(), chains - {ch} + {ch + [newcl]}) && Chain(v.Fat(), ch + [newcl])
      && Extended(v.g, old(v.disk[..]), v.disk[..], ch, ch + [newcl], v.bad)
  {
    ghost var g, d, tab := v.g, v.disk[..], v.Fat();
    ChainOnVolume(g, tab, ch);
    hide Chain, Forest, Table, Mounted, Extended, ClusterLba, FatVolume.Coherent, FatVolume.InSync, OnVolume, ClearedRange, SameData, FreeSet;
    assert ch[|ch| - 1] < |tab| by { ForestChain(tab, chains, ch); ChainStep(tab, ch, |ch| - 1); }
    newcl := Append(v, last, chains, ch);
    if newcl == 0 { return; }
    ghost var d1 := v.disk[..];
    AppendedFree(tab, v.Fat(), last, newcl);
    AppendedTook(g, tab, chains, ch, newcl);
    ForestChain(v.Fat(), chains - {ch} + {ch + [newcl]}, ch + [newcl]);
    ChainOnVolume(g, v.Fat(), ch + [newcl]);
    ZeroCluster(v, newcl);
    ExtendedByOne(g, d, d1, v.disk[..], ch, newcl, v.bad);
  }

  lemma ExtendedNone(g: Geometry, d: seq<Sector>, ch: seq<nat>, bad: set<nat>)
    requires Mounted(g, |d|) && OnVolume(g, ch)
    ensures Extended(g, d, d, ch, ch, bad)
  {
    hide DirSector, Mounted;
  }

  lemma ExtendedTrans(g: Geometry, d: seq<Sector>, d1: seq<Sector>, d2: seq<Sector>, ch: seq<nat>, ch1: seq<nat>, c: nat, bad: set<nat>)
    requires Extended(g, d, d1, ch, ch1, bad) && Extended(g, d1, d2, ch1, ch1 + [c], bad)
    ensures Extended(g, d, d2, ch, ch1 + [c], bad)
  {
    var ch2 := ch1 + [c];
    MountedBasics(g, |d|);
    hide ZeroSector, ClusterLba, Mounted, FileLba, DirSector;
    forall l | InFile(g, ch1, l) ensures InFile(g, ch2, l) {
      var k: nat :| Quotient(k, g.spc) < |ch1| && FileLba(g, ch1, k) == l;
      PrefixSector(g, ch1, c, k);
      InFileAt(g, ch2, k);
    }
  }

  lemma PrefixSector(g: Geometry, ch: seq<nat>, c: nat, k: nat)
    requires 0 < g.spc && OnVolume(g, ch) && OnVolume(g, ch + [c]) && Quotient(k, g.spc) < |ch|
    ensures FileLba(g, ch + [c], k) == FileLba(g, ch, k)
  {
  }

  // ------------------------------------------------------- placing the entries

  /** Sector k is the first of the directory with a fit for n slots. */
  ghost predicate NoFitBefore(g: Geometry, d: seq<Sector>, ch: seq<nat>, n: nat, k: nat)
    requires Mounted(g, |d|) && OnVolume(g, ch)
  {
    forall k', e: nat :: 0 <= k' < k && k' < SectorCount(g, ch) && e < 16 ==> !Fit(SectorSlots(DirSector(g, d, ch, k')), e, n)
  }

  /** From disk d to d', the directory grew to ch1 if it had to, and the entries went into the first sector with
      a fit, k, at the first slot that fits, e. */
  ghost predicate Placed(g: Geometry, d: seq<Sector>, d1: seq<Sector>, d': seq<Sector>, ch: seq<nat>, ch1: seq<nat>, bad: set<nat>,
                         n: nat, bytes: seq<byte>, k: nat, e: nat) {
    && Extended(g, d, d1, ch, ch1, bad) && k < SectorCount(g, ch1) && |bytes| == 32 * n
    && (ch1 != ch ==> SectorCount(g, ch) <= k)
    && NoFitBefore(g, d1, ch1, n, k)
    && Fit(SectorSlots(DirSector(g, d1, ch1, k)), e, n)
    && (forall e' :: 0 <= e' < e ==> !Fit(SectorSlots(DirSector(g, d1, ch1, k)), e', n))
    && Quotient(k, g.spc) < |ch1| && FileLba(g, ch1, k) < |d1|
    && d' == d1[FileLba(g, ch1, k) := PutAt(DirSector(g, d1, ch1, k), e, n, bytes)]
  }

  /** No cluster is free, and no sector of the directory has a fit for n slots. */
  ghost predicate Full(g: Geometry, tab: seq<nat>, d: seq<Sector>, ch: seq<nat>, n: nat) {
    && Mounted(g, |d|) && OnVolume(g, ch) && |tab| == 2 + g.clusters
    && (forall c :: IsCluster(g, c) ==> tab[c] != 0) && NoFitBefore(g, d, ch, n, SectorCount(g, ch))
  }

  /** Why entries for n slots cannot be placed. */
  ghost predicate Blocked(g: Geometry, tab: seq<nat>, d: seq<Sector>, ch: seq<nat>, bad: set<nat>, n: nat) {
    Full(g, tab, d, ch, n) || (0 < g.spc && OnVolume(g, ch) && exists l :: InFile(g, ch, l) && l in bad)
  }

  lemma BlockedByFull(g: Geometry, tab: seq<nat>, d: seq<Sector>, ch: seq<nat>, bad: set<nat>, n: nat)
    requires Full(g, tab, d, ch, n)
    ensures Blocked(g, tab, d, ch, bad, n)
  {
  }

  lemma BlockedByBad(g: Geometry, tab: seq<nat>, d: seq<Sector>, ch: seq<nat>, bad: set<nat>, n: nat)
    requires 0 < g.spc && OnVolume(g, ch) && exists l :: InFile(g, ch, l) && l in bad
    ensures Blocked(g, tab, d, ch, bad, n)
  {
  }

  datatype Outcome = NoRoom | Done | Failed

  lemma NoFitNext(g: Geometry, d: seq<Sector>, ch: seq<nat>, n: nat, k: nat)
    requires Mounted(g, |d|) && OnVolume(g, ch) && NoFitBefore(g, d, ch, n, k) && k < SectorCount(g, ch)
    requires forall e: nat :: e < 16 ==> !Fit(SectorSlots(DirSector(g, d, ch, k)), e, n)
    ensures NoFitBefore(g, d, ch, n, k + 1)
  {
    hide Fit, DirSector, SectorSlots;
  }

  /** The search through the sectors of one cluster, and the write of the sector that has room. */
  method PlaceInCluster(v: FatVolume, cl: nat, bytes: seq<byte>, total: nat, ghost idx: nat, ghost ch: seq<nat>)
    returns (r: Outcome, ghost k: nat, ghost e: nat)
    requires v.Valid() && OnVolume(v.g, ch) && idx < |ch| && cl == ch[idx] && 1 <= total && |bytes| == 32 * total
    requires NoFitBefore(v.g, v.disk[..], ch, total, Times(idx, v.g.spc))
    modifies v.disk
    ensures v.Valid() && v.Fat() == old(v.Fat()) && (old(v.InSync()) ==> v.InSync())
    ensures !r.Done? ==> v.disk[..] == old(v.disk[..])
    ensures r.NoRoom? ==> NoFitBefore(v.g, v.disk[..], ch, total, Times(idx + 1, v.g.spc))
    ensures r.Done? ==> Placed(v.g, old(v.disk[..]), old(v.disk[..]), v.disk[..], ch, ch, v.bad, total, bytes, k, e)
    ensures r.Done? ==> Times(idx, v.g.spc) <= k
    ensures r.Failed? ==> exists l :: InFile(v.g, ch, l) && l in v.bad
  {
    hide DirLba, FileLba, InFile, Fit, PutAt, NoFitBefore, Extended, Table, Mounted, OnVolume, SectorSlots, FatVolume.Coherent, FatVolume.InSync;
    ghost var g, d := v.g, v.disk[..];
    ExtendedNone(g, d, ch, v.bad);
    MulNext(idx, g.spc);
    k, e := idx * g.spc, 0;
    var sector: Sector := seq(512, _ => 0);
    for s := 0 to v.g.spc
      invariant v.Valid() && v.disk[..] == d && v.Fat() == old(v.Fat()) && (old(v.InSync()) ==> v.InSync())
      invariant k == idx * g.spc + s && NoFitBefore(g, d, ch, total, k)
    {
      var lba := ChainSector(v, cl, s, idx, ch);
      var ok, found, off, patched;
      ok, sector := ReadDirSector(v, cl, s, sector, idx, ch);
      if !ok { return Failed, k, 0; }
      found, off, patched := PlaceInSector(sector, bytes, total);
      if found {
        assert lba !in v.bad || exists l :: InFile(g, ch, l) && l in v.bad by { InFileAt(g, ch, k); }
        ok := v.WriteSector(lba, patched);
        if !ok { return Failed, k, 0; }
        return Done, k, off;
      }
      NoFitNext(g, d, ch, total, k);
      k := k + 1;
    }
    r := NoRoom;
  }

  lemma NoFitExtended(g: Geometry, d: seq<Sector>, d1: seq<Sector>, ch: seq<nat>, ch1: seq<nat>, bad: set<nat>, n: nat)
    requires Extended(g, d, d1, ch, ch1, bad) && NoFitBefore(g, d, ch, n, SectorCount(g, ch))
    ensures NoFitBefore(g, d1, ch1, n, SectorCount(g, ch))
  {
    hide Fit, DirSector, SectorSlots, Mounted, OnVolume;
  }

  lemma NoFitStart(g: Geometry, d: seq<Sector>, ch: seq<nat>, n: nat)
    requires Mounted(g, |d|) && OnVolume(g, ch)
    ensures NoFitBefore(g, d, ch, n, Times(0, g.spc))
  {
  }

  lemma PlacedAfter(g: Geometry, d: seq<Sector>, d1: seq<Sector>, d': seq<Sector>, ch: seq<nat>, ch1: seq<nat>, bad: set<nat>,
                    n: nat, bytes: seq<byte>, k: nat, e: nat)
    requires Extended(g, d, d1, ch, ch1, bad) && Placed(g, d1, d1, d', ch1, ch1, bad, n, bytes, k, e)
    requires ch1 != ch ==> SectorCount(g, ch) <= k
    ensures Placed(g, d, d1, d', ch, ch1, bad, n, bytes, k, e)
  {
    hide Extended, NoFitBefore, DirSector, FileLba, PutAt, Fit, SectorSlots, Mounted;
  }

  lemma ExtendedIs(g: Geometry, d: seq<Sector>, d1: seq<Sector>, ch: seq<nat>, ch1: seq<nat>, bad: set<nat>)
    requires Extended(g, d, d1, ch, ch1, bad)
    ensures OnVolume(g, ch1)
  {
  }

  lemma SameSet(chains: set<seq<nat>>, ch: seq<nat>)
    requires ch in chains
    ensures chains - {ch} + {ch} == chains
  {
  }

  lemma SwapSet(chains: set<seq<nat>>, ch: seq<nat>, ch1: seq<nat>)
    requires ch1 !in chains - {ch}
    ensures chains - {ch} + {ch1} - {ch1} == chains - {ch}
  {
  }

  /** The step to the next cluster of the directory, which is added when there is none; 0 when that fails. */
  method NextOrNew(v: FatVolume, cl: nat, ghost d: seq<Sector>, ghost total: nat, ghost idx: nat, ghost chains: set<seq<nat>>, ghost ch: seq<nat>, ghost ch1: seq<nat>)
    returns (cl': nat, ghost ch2: seq<nat>)
    requires v.Valid() && v.FatUsable() && Forest(v.Fat(), chains) && ch1 in chains && ch <= ch1
    requires Extended(v.g, d, v.disk[..], ch, ch1, v.bad) && idx < |ch1| && cl == ch1[idx]
    requires NoFitBefore(v.g, v.disk[..], ch1, total, Times(idx + 1, v.g.spc))
    modifies v`cachedFatSector, v`fatCache, v`nextFreeHint, v.disk
    ensures v.Valid() && (old(v.InSync()) ==> v.InSync()) && ch1 <= ch2 && Forest(v.Fat(), chains - {ch1} + {ch2})
    ensures Extended(v.g, d, v.disk[..], ch, ch2, v.bad) && OnVolume(v.g, ch2)
    ensures cl' == 0 ==> Full(v.g, v.Fat(), v.disk[..], ch2, total)
    ensures cl' != 0 ==> idx + 1 < |ch2| && cl' == ch2[idx + 1] && NoFitBefore(v.g, v.disk[..], ch2, total, Times(idx + 1, v.g.spc))
    ensures cl' != 0 ==> FreeSet(v.Fat()) < FreeSet(old(v.Fat())) || (v.Fat() == old(v.Fat()) && ch2 == ch1)
    ensures if ch2 == ch1 then v.Fat() == old(v.Fat()) else
      cl' != 0 && ch2 == ch1 + [cl'] && Took(v.g, old(v.Fat()), v.Fat(), [cl']) && |ch1| == idx + 1
  {
    hide InFile, NoFitBefore, Extended, Table, Mounted, OnVolume, Chain, Forest, FatVolume.Coherent, FatVolume.InSync, FatVolume.Lookup, FreeSet, Times;
    ghost var g, d1, tab := v.g, v.disk[..], v.Fat();
    ForestChain(tab, chains, ch1);
    ChainStep(tab, ch1, idx);
    if idx + 1 < |ch1| { ChainStep(tab, ch1, idx + 1); }
    assert idx + 1 == |ch1| ==> Times(idx + 1, g.spc) == SectorCount(g, ch1);
    ExtendedIs(g, d, d1, ch, ch1, v.bad);
    ch2 := ch1;
    SameSet(chains, ch1);
    cl' := v.GetNextCluster(cl);
    if cl' >= END {
      cl' := ExtendDir(v, cl, chains, ch1);
      if cl' == 0 { return; }
      ch2 := ch1 + [cl'];
      ExtendedTrans(g, d, d1, v.disk[..], ch, ch1, cl', v.bad);
      ExtendedIs(g, d, v.disk[..], ch, ch2, v.bad);
      NoFitExtended(g, d1, v.disk[..], ch1, ch2, v.bad, total);
    }
  }

  /** The directory has grown from ch to ch1 by free clusters, and if it has, the search is past its old end. */
  ghost predicate GrewTo(g: Geometry, tab: seq<nat>, tab': seq<nat>, ch: seq<nat>, ch1: seq<nat>, idx: nat) {
    ch <= ch1 && Took(g, tab, tab', ch1[|ch|..]) && (ch1 != ch ==> |ch| <= idx)
  }

  lemma GrewNone(g: Geometry, tab: seq<nat>, ch: seq<nat>)
    requires |tab| == 2 + g.clusters
    ensures GrewTo(g, tab, tab, ch, ch, 0)
  {
    assert ch[|ch|..] == [];
    TookNone(g, tab);
  }

  lemma GrewMore(g: Geometry, tab: seq<nat>, tab1: seq<nat>, tab2: seq<nat>, ch: seq<nat>, ch1: seq<nat>, ch2: seq<nat>, c: nat, idx: nat)
    requires GrewTo(g, tab, tab1, ch, ch1, idx)
    requires if ch2 == ch1 then tab2 == tab1 else ch2 == ch1 + [c] && Took(g, tab1, tab2, [c]) && |ch1| == idx + 1
    ensures GrewTo(g, tab, tab2, ch, ch2, idx + 1) && Took(g, tab, tab2, ch2[|ch|..])
  {
    if ch2 != ch1 {
      TookMore(g, tab, tab1, tab2, ch1[|ch|..], c);
      assert ch2[|ch|..] == ch1[|ch|..] + [c];
    }
  }

  lemma GrewBehind(g: Geometry, tab: seq<nat>, tab': seq<nat>, ch: seq<nat>, ch1: seq<nat>, idx: nat, k: nat)
    requires GrewTo(g, tab, tab', ch, ch1, idx) && Times(idx, g.spc) <= k
    ensures Took(g, tab, tab', ch1[|ch|..]) && (ch1 != ch ==> SectorCount(g, ch) <= k)
  {
    if ch1 != ch { TimesMono(|ch|, idx, g.spc); }
  }

  /** Where the search is: in the idx-th cluster of the directory, which has grown from ch to ch1. */
  ghost predicate Searching(g: Geometry, d: seq<Sector>, d': seq<Sector>, tab: seq<nat>, tab': seq<nat>, chains: set<seq<nat>>,
                            ch: seq<nat>, ch1: seq<nat>, bad: set<nat>, idx: nat, n: nat) {
    && Forest(tab', chains - {ch} + {ch1}) && Extended(g, d, d', ch, ch1, bad) && OnVolume(g, ch1) && |d'| == |d|
    && idx < |ch1| && NoFitBefore(g, d', ch1, n, Times(idx, g.spc)) && GrewTo(g, tab, tab', ch, ch1, idx)
  }

  /** The search in one cluster. */
  method PlaceHere(v: FatVolume, cl: nat, bytes: seq<byte>, total: nat, ghost d: seq<Sector>, ghost tab: seq<nat>,
                   ghost chains: set<seq<nat>>, ghost ch: seq<nat>, ghost ch1: seq<nat>, ghost idx: nat)
    returns (r: Outcome, ghost k: nat, ghost e: nat)
    requires v.Valid() && Searching(v.g, d, v.disk[..], tab, v.Fat(), chains, ch, ch1, v.bad, idx, total)
    requires cl == ch1[idx] && 1 <= total && |bytes| == 32 * total
    modifies v.disk
    ensures v.Valid() && v.Fat() == old(v.Fat()) && (old(v.InSync()) ==> v.InSync())
    ensures !r.Done? ==> v.disk[..] == old(v.disk[..])
    ensures r.NoRoom? ==> NoFitBefore(v.g, v.disk[..], ch1, total, Times(idx + 1, v.g.spc))
    ensures r.Done? ==> Placed(v.g, d, old(v.disk[..]), v.disk[..], ch, ch1, v.bad, total, bytes, k, e)
    ensures r.Failed? ==> Blocked(v.g, v.Fat(), v.disk[..], ch1, v.bad, total)
  {
    hide InFile, NoFitBefore, Placed, Extended, Table, Mounted, OnVolume, Forest, FatVolume.Coherent, FatVolume.InSync, Times, Full, Blocked, Took, GrewTo;
    ghost var g, d1 := v.g, v.disk[..];
    MountedBasics(g, |d1|);
    r, k, e := PlaceInCluster(v, cl, bytes, total, idx, ch1);
    if r.Failed? { BlockedByBad(g, v.Fat(), v.disk[..], ch1, v.bad, total); }
    if r.Done? {
      GrewBehind(g, tab, v.Fat(), ch, ch1, idx, k);
      PlacedAfter(g, d, d1, v.disk[..], ch, ch1, v.bad, total, bytes, k, e);
    }
  }

  /** And the way to the next one. */
  method GoOn(v: FatVolume, cl: nat, total: nat, ghost d: seq<Sector>, ghost tab: seq<nat>, ghost chains: set<seq<nat>>, ghost ch: seq<nat>,
              ghost ch1: seq<nat>, ghost idx: nat)
    returns (cl': nat, ghost ch2: seq<nat>)
    requires v.Valid() && v.FatUsable() && Searching(v.g, d, v.disk[..], tab, v.Fat(), chains, ch, ch1, v.bad, idx, total)
    requires cl == ch1[idx] && NoFitBefore(v.g, v.disk[..], ch1, total, Times(idx + 1, v.g.spc))
    requires Forest(tab, chains) && ch in chains && ch != []
    modifies v`cachedFatSector, v`fatCache, v`nextFreeHint, v.disk
    ensures v.Valid() && (old(v.InSync()) ==> v.InSync())
    ensures cl' != 0 ==> Searching(v.g, d, v.disk[..], tab, v.Fat(), chains, ch, ch2, v.bad, idx + 1, total) && cl' == ch2[idx + 1]
    ensures cl' != 0 ==> FreeSet(v.Fat()) < FreeSet(old(v.Fat())) || (v.Fat() == old(v.Fat()) && ch2 == ch1)
    ensures cl' == 0 ==> Extended(v.g, d, v.disk[..], ch, ch2, v.bad) && Forest(v.Fat(), chains - {ch} + {ch2})
    ensures cl' == 0 ==> Blocked(v.g, v.Fat(), v.disk[..], ch2, v.bad, total) && ch <= ch2 && Took(v.g, tab, v.Fat(), ch2[|ch|..])
  {
    hide InFile, NoFitBefore, Extended, Table, Mounted, OnVolume, Chain, Forest, FatVolume.Coherent, FatVolume.InSync, FreeSet, Times, Full, Blocked, Took;
    ghost var g, tab1 := v.g, v.Fat();
    NotAmong(tab, chains, ch, ch1);
    SwapSet(chains, ch, ch1);
    cl', ch2 := NextOrNew(v, cl, d, total, idx, chains - {ch} + {ch1}, ch, ch1);
    GrewMore(g, tab, tab1, v.Fat(), ch, ch1, ch2, cl', idx);
    if cl' == 0 { BlockedByFull(g, v.Fat(), v.disk[..], ch2, v.bad, total); }
  }

  lemma SearchStarts(g: Geometry, d: seq<Sector>, tab: seq<nat>, chains: set<seq<nat>>, ch: seq<nat>, bad: set<nat>, n: nat)
    requires Mounted(g, |d|) && |tab| == 2 + g.clusters && Forest(tab, chains) && ch in chains && ch != []
    ensures Searching(g, d, d, tab, tab, chains, ch, ch, bad, 0, n)
  {
    hide NoFitBefore, Extended, Mounted, OnVolume, Forest, Took, GrewTo, Times, Chain;
    ForestChain(tab, chains, ch);
    ChainOnVolume(g, tab, ch);
    ExtendedNone(g, d, ch, bad);
    NoFitStart(g, d, ch, n);
    SameSet(chains, ch);
    GrewNone(g, tab, ch);
  }

  /** The search for room in the directory, extending it when it is full, until the entries are in place.
      It fails only when a sector of the directory fails, or when nothing fits and no cluster is free. */
  method PlaceEntries(v: FatVolume, dir: nat, bytes: seq<byte>, total: nat, ghost chains: set<seq<nat>>, ghost ch: seq<nat>)
    returns (ok: bool, ghost d1: seq<Sector>, ghost ch1: seq<nat>, ghost k: nat, ghost e: nat)
    requires v.Valid() && v.FatUsable() && Forest(v.Fat(), chains) && ch in chains && ch != [] && ch[0] == dir
    requires 1 <= total && |bytes| == 32 * total
    modifies v`cachedFatSector, v`fatCache, v`nextFreeHint, v.disk
    ensures v.Valid() && (old(v.InSync()) ==> v.InSync()) && ch <= ch1
    ensures Forest(v.Fat(), chains - {ch} + {ch1}) && Took(v.g, old(v.Fat()), v.Fat(), ch1[|ch|..])
    ensures ok ==> Placed(v.g, old(v.disk[..]), d1, v.disk[..], ch, ch1, v.bad, total, bytes, k, e)
    ensures !ok ==> Extended(v.g, old(v.disk[..]), v.disk[..], ch, ch1, v.bad)
    ensures !ok ==> Blocked(v.g, v.Fat(), v.disk[..], ch1, v.bad, total)
  {
    hide InFile, NoFitBefore, Placed, Extended, Table, Mounted, OnVolume, Chain, Forest, FatVolume.Coherent, FatVolume.InSync, FreeSet, Times, Full,
      Blocked, Took;
    ghost var d, tab := v.disk[..], v.Fat();
    SearchStarts(v.g, d, tab, chains, ch, v.bad, total);
    var cl := dir;
    ghost var idx: nat := 0;
    ch1 := ch;
    while true
      invariant v.Valid() && (old(v.InSync()) ==> v.InSync())
      invariant Searching(v.g, d, v.disk[..], tab, v.Fat(), chains, ch, ch1, v.bad, idx, total) && cl == ch1[idx]
      decreases FreeSet(v.Fat()), |ch1| - idx
    {
      d1 := v.disk[..];
      var r;
      r, k, e := PlaceHere(v, cl, bytes, total, d, tab, chains, ch, ch1, idx);
      if !r.NoRoom? { return r.Done?, d1, ch1, k, e; }
      cl, ch1 := GoOn(v, cl, total, d, tab, chains, ch, ch1, idx);
      if cl == 0 { return false, d1, ch1, k, e; }
      idx := idx + 1;
    }
  }
}
