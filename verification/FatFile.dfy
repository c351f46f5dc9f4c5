/** File contents on the volume: the bytes of a chain of clusters, chain extension, writing and reading. */
module FatFile {
  import opened Arithmetic
  import opened FatLayout
  import opened FatTable
  import opened FatVolume

  // Division by sectors_per_cluster, a variable, is kept behind names.
  function Quotient(a: nat, n: nat): nat
    requires 0 < n
  {
    a / n
  }

  function Rest(a: nat, n: nat): (r: nat)
    requires 0 < n
    ensures r < n
  {
    a % n
  }

  lemma MountedBasics(g: Geometry, n: nat)
    requires Mounted(g, n)
    ensures 0 < g.spc && 2 + g.clusters <= BAD
  {
  }

  // --------------------------------------------------------- bytes of a chain

  ghost predicate OnVolume(g: Geometry, ch: seq<nat>) {
    && (forall i :: 0 <= i < |ch| ==> IsCluster(g, ch[i]))
    && (forall i, j :: 0 <= i < j < |ch| ==> ch[i] != ch[j])
  }

  function ClusterSize(g: Geometry): nat { g.spc * 512 }

  /** The bytes a chain can hold. */
  function Capacity(g: Geometry, ch: seq<nat>): nat { |ch| * ClusterSize(g) }

  /** The k-th sector of the chain. */
  function FileLba(g: Geometry, ch: seq<nat>, k: nat): nat
    requires 0 < g.spc && OnVolume(g, ch) && Quotient(k, g.spc) < |ch|
  {
    ClusterLba(g, ch[Quotient(k, g.spc)]) + Rest(k, g.spc)
  }

  lemma SectorIndex(g: Geometry, m: nat, i: nat)
    requires 0 < g.spc && i < m * ClusterSize(g)
    ensures Quotient(i / 512, g.spc) < m && Quotient(i / 512, g.spc) == i / ClusterSize(g)
    ensures i % ClusterSize(g) / 512 == Rest(i / 512, g.spc)
    ensures i % ClusterSize(g) % 512 == i % 512
  {
    var k := i / 512;
    var q, s, r := Quotient(k, g.spc), Rest(k, g.spc), i % 512;
    assert k == q * g.spc + s by { assert k == Quotient(k, g.spc) * g.spc + Rest(k, g.spc); }
    assert q * ClusterSize(g) == q * g.spc * 512;
    assert i == q * ClusterSize(g) + (512 * s + r);
    DivIs(i, q, 512 * s + r, ClusterSize(g));
    if q >= m { MulMono(m, q, ClusterSize(g)); }
  }

  /** Byte i of the chain's contents. */
  ghost function ByteAt(g: Geometry, d: seq<Sector>, ch: seq<nat>, i: nat): byte
    requires Mounted(g, |d|) && OnVolume(g, ch) && i < Capacity(g, ch)
  {
    SectorIndex(g, |ch|, i);
    FileLbaBounds(g, |d|, ch, i / 512);
    d[FileLba(g, ch, i / 512)][i % 512]
  }

  /** Where on the disk byte i of a chain lies: in the (i / cluster size)-th of its clusters, which follow one another
      from the start of the data area on, the first one numbered 2. */
  function FileAddress(g: Geometry, ch: seq<nat>, i: nat): nat
    requires 0 < g.spc && Quotient(i, 512 * g.spc) < |ch| && ch[Quotient(i, 512 * g.spc)] >= 2
  {
    512 * (g.dataStart + (ch[Quotient(i, 512 * g.spc)] - 2) * g.spc) + Rest(i, 512 * g.spc)
  }

  lemma ByteOnDisk(g: Geometry, d: seq<Sector>, ch: seq<nat>, i: nat)
    requires Mounted(g, |d|) && OnVolume(g, ch) && i < Capacity(g, ch)
    ensures Quotient(i, 512 * g.spc) < |ch| && Quotient(i / 512, g.spc) < |ch|
    ensures FileAddress(g, ch, i) < 512 * |d| && ByteAt(g, d, ch, i) == DiskByte(d, FileAddress(g, ch, i))
    ensures FileLba(g, ch, i / 512) == FileAddress(g, ch, i) / 512
  {
    SectorIndex(g, |ch|, i);
    FileLbaBounds(g, |d|, ch, i / 512);
    var size := ClusterSize(g);
    var c, r := ch[i / size], i % size;
    assert r == 512 * (r / 512) + r % 512;
    SectorByte(d, FileLba(g, ch, i / 512), i % 512);
    assert 512 * ClusterLba(g, c) + r == 512 * FileLba(g, ch, i / 512) + i % 512;
  }

  lemma FileLbaBounds(g: Geometry, n: nat, ch: seq<nat>, k: nat)
    requires Mounted(g, n) && OnVolume(g, ch) && Quotient(k, g.spc) < |ch|
    ensures g.dataStart <= FileLba(g, ch, k) < n
  {
    ClusterLbaBounds(g, n, ch[Quotient(k, g.spc)], Rest(k, g.spc));
  }

  lemma SectorsOfOne(g: Geometry, n: nat, ch: seq<nat>, q: nat, s: nat, q': nat, s': nat)
    requires Mounted(g, n) && OnVolume(g, ch) && q < |ch| && q' < |ch| && s < g.spc && s' < g.spc && (q != q' || s != s')
    ensures ClusterLba(g, ch[q]) + s != ClusterLba(g, ch[q']) + s'
  {
    hide ClusterLba;
    ClustersDisjoint(g, n, ch[q], s, ch[q'], s');
  }

  lemma QuotientAndRest(k: nat, k': nat, n: nat)
    requires 0 < n && k != k'
    ensures Quotient(k, n) != Quotient(k', n) || Rest(k, n) != Rest(k', n)
  {
    assert k == k / n * n + k % n && k' == k' / n * n + k' % n;
  }

  lemma FileLbaInjective(g: Geometry, n: nat, ch: seq<nat>, k: nat, k': nat)
    requires Mounted(g, n) && OnVolume(g, ch) && Quotient(k, g.spc) < |ch| && Quotient(k', g.spc) < |ch| && k != k'
    ensures FileLba(g, ch, k) != FileLba(g, ch, k')
  {
    MountedBasics(g, n);
    hide ClusterLba, Mounted, OnVolume;
    QuotientAndRest(k, k', g.spc);
    SectorsOfOne(g, n, ch, Quotient(k, g.spc), Rest(k, g.spc), Quotient(k', g.spc), Rest(k', g.spc));
  }

  /** The sectors of a chain. */
  ghost predicate InFile(g: Geometry, ch: seq<nat>, l: nat)
    requires 0 < g.spc && OnVolume(g, ch)
  {
    exists k: nat :: Quotient(k, g.spc) < |ch| && FileLba(g, ch, k) == l
  }

  /** Replacing sector k of the chain changes the bytes in that sector only. */
  lemma SectorStored(g: Geometry, d: seq<Sector>, ch: seq<nat>, k: nat, s: Sector, i: nat)
    requires Mounted(g, |d|) && OnVolume(g, ch) && Quotient(k, g.spc) < |ch| && i < Capacity(g, ch)
    requires FileLba(g, ch, k) < |d|
    ensures ByteAt(g, d[FileLba(g, ch, k) := s], ch, i) == if i / 512 == k then s[i % 512] else ByteAt(g, d, ch, i)
  {
    SectorIndex(g, |ch|, i);
    FileLbaBounds(g, |d|, ch, i / 512);
    if i / 512 != k { FileLbaInjective(g, |d|, ch, k, i / 512); }
  }

  /** The clusters of a chain in the table are on the volume. */
  lemma ChainOnVolume(g: Geometry, tab: seq<nat>, ch: seq<nat>)
    requires |tab| == 2 + g.clusters <= BAD && Chain(tab, ch)
    ensures OnVolume(g, ch)
  {
    forall i, j | 0 <= i < j < |ch| ensures ch[i] != ch[j] {
      if ch[i] == ch[j] { ChainDistinct(tab, ch, i, j); }
    }
  }

  // ------------------------------------------------------------------ writing

  /** The contents with `data` laid over them from `offset` on. */
  ghost predicate Spliced(g: Geometry, d: seq<Sector>, d': seq<Sector>, ch: seq<nat>, offset: nat, data: seq<byte>)
    requires Mounted(g, |d|) && |d'| == |d| && OnVolume(g, ch)
  {
    forall i :: 0 <= i < Capacity(g, ch) ==>
      ByteAt(g, d', ch, i) == if offset <= i < offset + |data| then data[i - offset] else ByteAt(g, d, ch, i)
  }

  /** Nothing but sectors of the chain differs. */
  ghost predicate OnlyFile(g: Geometry, d: seq<Sector>, d': seq<Sector>, ch: seq<nat>)
    requires 0 < g.spc && OnVolume(g, ch)
  {
    |d'| == |d| && forall l :: 0 <= l < |d| && !InFile(g, ch, l) ==> d'[l] == d[l]
  }

  /** Sector s with `piece` laid over it from `at` on. */
  function Patched(s: Sector, at: nat, piece: seq<byte>): Sector
    requires at + |piece| <= 512
  {
    s[..at] + piece + s[at + |piece|..]
  }

  lemma PatchedAt(s: Sector, at: nat, piece: seq<byte>, x: nat)
    requires at + |piece| <= 512 && x < 512
    ensures Patched(s, at, piece)[x] == if at <= x < at + |piece| then piece[x - at] else s[x]
  {
  }

  lemma SpliceStep(g: Geometry, d: seq<Sector>, d1: seq<Sector>, ch: seq<nat>, offset: nat, data: seq<byte>, pos: nat, chunk: nat)
    requires Mounted(g, |d|) && |d1| == |d| && OnVolume(g, ch) && pos + chunk <= |data|
    requires offset + |data| <= Capacity(g, ch) && 0 < chunk && (offset + pos) % 512 + chunk <= 512
    requires Spliced(g, d, d1, ch, offset, data[..pos]) && OnlyFile(g, d, d1, ch)
    requires Quotient((offset + pos) / 512, g.spc) < |ch| && FileLba(g, ch, (offset + pos) / 512) < |d|
    ensures var l := FileLba(g, ch, (offset + pos) / 512);
      var d2 := d1[l := Patched(d1[l], (offset + pos) % 512, data[pos..pos + chunk])];
      Spliced(g, d, d2, ch, offset, data[..pos + chunk]) && OnlyFile(g, d, d2, ch)
  {
    hide FileLba, ByteAt, Patched, Mounted;
    var k := (offset + pos) / 512;
    var l := FileLba(g, ch, k);
    var at := (offset + pos) % 512;
    var s := Patched(d1[l], at, data[pos..pos + chunk]);
    var d2 := d1[l := s];
    forall i | 0 <= i < Capacity(g, ch)
      ensures ByteAt(g, d2, ch, i) == if offset <= i < offset + (pos + chunk) then data[i - offset] else ByteAt(g, d, ch, i)
    {
      SectorStored(g, d1, ch, k, s, i);
      if i / 512 == k {
        PatchedAt(d1[l], at, data[pos..pos + chunk], i % 512);
        SectorStored(g, d1, ch, k, d1[l], i);
        assert d1[l := d1[l]] == d1;
        assert i - (offset + pos) == i % 512 - at;
      }
    }
    assert InFile(g, ch, l);
  }

  /** Where the write position stands: its cluster and sector, and the cluster after a step inside one sector. */
  lemma Position(g: Geometry, cur: nat, next: nat)
    requires 0 < g.spc && cur < next <= (cur / 512 + 1) * 512
    ensures cur % ClusterSize(g) / 512 == Rest(cur / 512, g.spc) && cur / ClusterSize(g) == Quotient(cur / 512, g.spc)
    ensures cur % ClusterSize(g) % 512 == cur % 512
    ensures next % ClusterSize(g) == 0 ==> next / ClusterSize(g) == cur / ClusterSize(g) + 1
    ensures next % ClusterSize(g) != 0 ==> next / ClusterSize(g) == cur / ClusterSize(g)
  {
    var cs := ClusterSize(g);
    SectorIndex(g, cur / cs + 1, cur);
    assert cur == cur / cs * cs + cur % cs;
    var w := cur % cs + (next - cur);
    assert cur % cs / 512 + 1 <= g.spc;
    assert w <= cs;
    if w < cs { DivIs(next, cur / cs, w, cs); } else { assert next == (cur / cs + 1) * cs; DivIs(next, cur / cs + 1, 0, cs); }
  }

  lemma DivLess(i: nat, m: nat, n: nat)
    requires 0 < n && i < m * n
    ensures i / n < m
  {
    assert i == i / n * n + i % n;
    if i / n >= m { MulMono(m, i / n, n); }
  }

  /** One round of the write loop: `chunk` bytes of buf from `pos` on go into sector `lba` at `secOff`.
      A whole sector is written directly, a part of one is read, patched and written back. */
  method WritePiece(v: FatVolume, lba: nat, secOff: nat, buf: seq<byte>, pos: nat, scratch: Sector) returns (ok: bool, chunk: nat, sector: Sector)
    requires v.Valid() && v.g.dataStart <= lba < v.disk.Length && secOff < 512 && pos < |buf|
    modifies v.disk
    ensures v.Valid() && v.Fat() == old(v.Fat())
    ensures chunk == (if 512 - secOff < |buf| - pos then 512 - secOff else |buf| - pos)
    ensures ok == (lba !in v.bad)
    ensures v.disk[..] == if ok then old(v.disk[..])[lba := Patched(old(v.disk[lba]), secOff, buf[pos..pos + chunk])] else old(v.disk[..])
  {
    sector := scratch;
    if secOff == 0 && |buf| - pos >= 512 {
      chunk := 512;
      assert Patched(v.disk[lba], 0, buf[pos..pos + 512]) == buf[pos..pos + 512];
      ok := v.WriteSector(lba, buf[pos..pos + 512]);
    } else {
      chunk := 512 - secOff;
      if chunk > |buf| - pos { chunk := |buf| - pos; }
      ok, sector := v.ReadSector(lba, sector);
      if !ok { return; }
      sector := Patched(sector, secOff, buf[pos..pos + chunk]);
      ok := v.WriteSector(lba, sector);
    }
  }

  /** The position in the chain of the cluster that holds byte `off`. */
  function ClusterOf(g: Geometry, off: nat): nat
    requires 0 < g.spc
  {
    Quotient(off, ClusterSize(g))
  }

  /** Sector and offset of the write position. */
  method Locate(v: FatVolume, cl: nat, curOff: nat, ghost ch: seq<nat>) returns (lba: nat, secOff: nat)
    requires Mounted(v.g, v.disk.Length) && OnVolume(v.g, ch) && curOff < Capacity(v.g, ch)
    requires ClusterOf(v.g, curOff) < |ch| && cl == ch[ClusterOf(v.g, curOff)]
    ensures Quotient(curOff / 512, v.g.spc) < |ch| && lba == FileLba(v.g, ch, curOff / 512) && secOff == curOff % 512
    ensures v.g.dataStart <= lba < v.disk.Length
  {
    var clusterSize := v.g.spc * 512;
    var within := curOff % clusterSize;
    var secInCluster := within / 512;
    secOff := within % 512;
    Position(v.g, curOff, curOff + 1);
    FileLbaBounds(v.g, v.disk.Length, ch, curOff / 512);
    lba := ClusterLba(v.g, cl) + secInCluster;
  }

  /** After a step of `chunk` bytes inside one sector: the next cluster, if a new one begins and bytes remain. */
  method Advance(v: FatVolume, cl: nat, ghost prev: nat, curOff: nat, more: bool, ghost ch: seq<nat>) returns (next: nat)
    requires v.Valid() && v.FatUsable() && Chain(v.Fat(), ch)
    requires prev < curOff <= (prev / 512 + 1) * 512 && ClusterOf(v.g, prev) < |ch| && cl == ch[ClusterOf(v.g, prev)]
    requires more ==> curOff < Capacity(v.g, ch)
    modifies v`cachedFatSector, v`fatCache
    ensures v.Valid()
    ensures more ==> ClusterOf(v.g, curOff) < |ch| && next == ch[ClusterOf(v.g, curOff)]
  {
    var clusterSize := v.g.spc * 512;
    Position(v.g, prev, curOff);
    next := cl;
    if curOff % clusterSize == 0 && more {
      DivLess(curOff, |ch|, clusterSize);
      ChainStep(v.Fat(), ch, ClusterOf(v.g, prev));
      next := v.GetNextCluster(cl);
    }
  }

  /** The write loop of fat32_write_file_data: from the offset on, sector by sector. It stops at the first
      sector that fails, with the bytes before it written. */
  method WriteChain(v: FatVolume, first: nat, buf: seq<byte>, offset: nat, ghost ch: seq<nat>) returns (ok: bool, ghost done: nat)
    requires v.Valid() && v.FatUsable() && Chain(v.Fat(), ch) && ch[0] == first
    requires 0 < |buf| && offset + |buf| <= Capacity(v.g, ch)
    modifies v`cachedFatSector, v`fatCache, v.disk
    ensures v.Valid() && v.Fat() == old(v.Fat()) && (old(v.InSync()) ==> v.InSync()) && OnVolume(v.g, ch) && done <= |buf|
    ensures Spliced(v.g, old(v.disk[..]), v.disk[..], ch, offset, buf[..done])
    ensures OnlyFile(v.g, old(v.disk[..]), v.disk[..], ch)
    ensures ok <==> done == |buf|
    ensures !ok ==> exists l :: InFile(v.g, ch, l) && l in v.bad
  {
    hide ByteAt, FileLba, ClusterOf, Patched, Spliced, OnlyFile, InFile, Chain, Capacity, Table;
    ghost var g, tab, d := v.g, v.Fat(), v.disk[..];
    ChainOnVolume(g, tab, ch);
    SplicedNone(g, d, ch, offset, buf);
    var pos, curOff := 0, offset;
    var cl := Skip(v, first, curOff, ch);
    var sector: Sector := seq(512, _ => 0);
    while pos < |buf|
      invariant v.Valid() && v.Fat() == tab && pos <= |buf| && curOff == offset + pos
      invariant pos < |buf| ==> ClusterOf(g, curOff) < |ch| && cl == ch[ClusterOf(g, curOff)]
      invariant Spliced(g, d, v.disk[..], ch, offset, buf[..pos]) && OnlyFile(g, d, v.disk[..], ch)
      decreases |buf| - pos
    {
      var lba, secOff := Locate(v, cl, curOff, ch);
      ghost var d1 := v.disk[..];
      var wr, chunk;
      wr, chunk, sector := WritePiece(v, lba, secOff, buf, pos, sector);
      if !wr {
        InFileAt(g, ch, curOff / 512);
        FileKeepsTables(g, d, d1, ch);
        return false, pos;
      }
      SpliceStep(g, d, d1, ch, offset, buf, pos, chunk);
      pos := pos + chunk;
      curOff := curOff + chunk;
      cl := Advance(v, cl, curOff - chunk, curOff, pos < |buf|, ch);
    }
    FileKeepsTables(g, d, v.disk[..], ch);
    return true, |buf|;
  }

  lemma FileKeepsTables(g: Geometry, d: seq<Sector>, d': seq<Sector>, ch: seq<nat>)
    requires Mounted(g, |d|) && OnVolume(g, ch) && OnlyFile(g, d, d', ch)
    ensures forall t :: 0 <= t < g.fatCount ==> Table(g, d', t) == Table(g, d, t)
  {
    hide FileLba;
    forall l | 0 <= l < g.dataStart && l < |d| ensures !InFile(g, ch, l) {
      forall k: nat | Quotient(k, g.spc) < |ch| ensures FileLba(g, ch, k) != l { FileLbaBounds(g, |d|, ch, k); }
    }
    forall t | 0 <= t < g.fatCount ensures Table(g, d', t) == Table(g, d, t) { SameTable(g, d, d', t); }
  }

  lemma InFileAt(g: Geometry, ch: seq<nat>, k: nat)
    requires 0 < g.spc && OnVolume(g, ch) && Quotient(k, g.spc) < |ch|
    ensures InFile(g, ch, FileLba(g, ch, k))
  {
  }

  lemma SplicedNone(g: Geometry, d: seq<Sector>, ch: seq<nat>, offset: nat, data: seq<byte>)
    requires Mounted(g, |d|) && OnVolume(g, ch)
    ensures Spliced(g, d, d, ch, offset, data[..0]) && OnlyFile(g, d, d, ch)
  {
  }

  /** Stepping over the clusters before the offset. */
  method Skip(v: FatVolume, first: nat, offset: nat, ghost ch: seq<nat>) returns (cl: nat)
    requires v.Valid() && v.FatUsable() && Chain(v.Fat(), ch) && ch[0] == first
    requires offset < Capacity(v.g, ch)
    modifies v`cachedFatSector, v`fatCache
    ensures v.Valid() && ClusterOf(v.g, offset) < |ch| && cl == ch[ClusterOf(v.g, offset)]
  {
    DivLess(offset, |ch|, ClusterSize(v.g));
    var skip := Quotient(offset, v.g.spc * 512);
    cl := first;
    for i := 0 to skip
      invariant v.Valid() && cl == ch[i]
    {
      ChainStep(v.Fat(), ch, i);
      cl := v.GetNextCluster(cl);
    }
  }

  // ---------------------------------------------------------------- extension

  /** The data area is the same. */
  ghost predicate SameData(g: Geometry, d: seq<Sector>, d': seq<Sector>) {
    |d| == |d'| && forall l :: g.dataStart <= l < |d| ==> d'[l] == d[l]
  }

  /** The two table writes that put newcl behind last. */
  method Link(v: FatVolume, last: nat, newcl: nat)
    requires v.Valid() && v.FatUsable() && last < 2 + v.g.clusters && IsCluster(v.g, newcl)
    modifies v`cachedFatSector, v.disk
    ensures v.Valid() && SameData(v.g, old(v.disk[..]), v.disk[..]) && (old(v.InSync()) ==> v.InSync())
    ensures v.Fat() == old(v.Fat())[last := newcl][newcl := LAST]
  {
    assert newcl % ENTRY_MASK == newcl && LAST % ENTRY_MASK == LAST;
    hide Table, Mounted, FatVolume.Coherent, FatVolume.InSync;
    v.PutEntry(last, newcl);
    v.PutEntry(newcl, LAST);
  }

  /** find_free_cluster when the FAT sectors transfer: a free cluster, or none is left. */
  method PickFree(v: FatVolume) returns (newcl: nat)
    requires v.Valid() && v.FatUsable()
    modifies v`cachedFatSector, v`fatCache, v`nextFreeHint
    ensures v.Valid()
    ensures newcl == 0 ==> forall c :: IsCluster(v.g, c) ==> v.Fat()[c] != 0
    ensures newcl != 0 ==> IsCluster(v.g, newcl) && v.Fat()[newcl] == 0
  {
    hide Table, FatVolume.Lookup, FatVolume.Coherent;
    ghost var k;
    newcl, k := v.FindFreeCluster();
    if newcl == 0 {
      forall c | IsCluster(v.g, c) ensures v.Fat()[c] != 0 { v.LookupFat(c); }
    } else {
      v.LookupFat(newcl);
    }
  }

  /** Link a free cluster behind the last cluster of a chain; 0 when there is none. */
  method Append(v: FatVolume, last: nat, ghost chains: set<seq<nat>>, ghost ch: seq<nat>) returns (newcl: nat)
    requires v.Valid() && v.FatUsable() && Forest(v.Fat(), chains) && ch in chains && ch != [] && ch[|ch| - 1] == last
    modifies v`cachedFatSector, v`fatCache, v`nextFreeHint, v.disk
    ensures v.Valid() && SameData(v.g, old(v.disk[..]), v.disk[..]) && (old(v.InSync()) ==> v.InSync())
    ensures newcl == 0 ==> v.disk[..] == old(v.disk[..]) && forall c :: IsCluster(v.g, c) ==> v.Fat()[c] != 0
    ensures newcl != 0 ==>
      && IsCluster(v.g, newcl) && old(v.Fat())[newcl] == 0 && newcl !in ch
      && v.Fat() == old(v.Fat())[last := newcl][newcl := LAST]
      && Forest(v.Fat(), chains - {ch} + {ch + [newcl]})
  {
    ghost var tab := v.Fat();
    assert InTable(tab, last) && |tab| == 2 + v.g.clusters <= BAD by { ChainStep(tab, ch, |ch| - 1); }
    hide Chain, Forest, Table, Mounted, FatVolume.Coherent, FatVolume.InSync;
    newcl := PickFree(v);
    if newcl == 0 { return; }
    Link(v, last, newcl);
    Grown(tab, v.Fat(), chains, ch, newcl);
  }

  lemma Grown(tab: seq<nat>, tab': seq<nat>, chains: set<seq<nat>>, ch: seq<nat>, c: nat)
    requires Forest(tab, chains) && ch in chains && ch != [] && InTable(tab, c) && tab[c] == 0 && ch[|ch| - 1] < |tab|
    requires tab' == tab[ch[|ch| - 1] := c][c := LAST]
    ensures Forest(tab', chains - {ch} + {ch + [c]}) && c !in ch
  {
    GrowChain(tab, chains, ch, c);
  }

  lemma ForestChain(tab: seq<nat>, chains: set<seq<nat>>, ch: seq<nat>)
    requires Forest(tab, chains) && ch in chains
    ensures Chain(tab, ch) && |tab| <= BAD
  {
  }

  lemma NotAmong(tab: seq<nat>, chains: set<seq<nat>>, ch: seq<nat>, ch': seq<nat>)
    requires Forest(tab, chains) && ch in chains && ch != [] && ch <= ch'
    ensures ch' !in chains - {ch}
  {
    assert ch[0] in ch && ch'[0] in ch';
  }

  /** Walking a chain to its end: the remaining length is the measure. */
  method Measure(v: FatVolume, first: nat, ghost ch: seq<nat>) returns (cl: nat, chainLen: nat)
    requires v.Valid() && v.FatUsable() && Chain(v.Fat(), ch) && ch[0] == first
    modifies v`cachedFatSector, v`fatCache
    ensures v.Valid() && chainLen == |ch| && cl == ch[|ch| - 1]
  {
    cl, chainLen := first, 1;
    while true
      invariant v.Valid() && 1 <= chainLen <= |ch| && cl == ch[chainLen - 1]
      decreases |ch| - chainLen
    {
      ChainStep(v.Fat(), ch, chainLen - 1);
      var next := v.GetNextCluster(cl);
      if next >= END { break; }
      chainLen := chainLen + 1;
      cl := next;
    }
  }

  /** The clusters were free in the table. */
  ghost predicate Fresh(g: Geometry, tab: seq<nat>, cs: seq<nat>) {
    |tab| == 2 + g.clusters && forall i :: 0 <= i < |cs| ==> IsCluster(g, cs[i]) && tab[cs[i]] == 0
  }

  /** From table tab to tab' exactly the clusters cs were taken from the free ones. */
  ghost predicate Took(g: Geometry, tab: seq<nat>, tab': seq<nat>, cs: seq<nat>) {
    && Fresh(g, tab, cs) && |tab'| == |tab|
    && forall c :: IsCluster(g, c) ==> (tab'[c] == 0 <==> tab[c] == 0 && c !in cs)
  }

  lemma TookNone(g: Geometry, tab: seq<nat>)
    requires |tab| == 2 + g.clusters
    ensures Took(g, tab, tab, [])
  {
  }

  lemma TookMore(g: Geometry, tab: seq<nat>, tab1: seq<nat>, tab2: seq<nat>, cs: seq<nat>, c: nat)
    requires Took(g, tab, tab1, cs) && Took(g, tab1, tab2, [c])
    ensures Took(g, tab, tab2, cs + [c])
  {
    assert c in [c] && [c][0] == c;
  }

  /** From table tab to tab', chain ch of the forest grew to ch' by formerly free clusters, and no cluster was freed. */
  ghost predicate Longer(g: Geometry, tab: seq<nat>, tab': seq<nat>, chains: set<seq<nat>>, ch: seq<nat>, ch': seq<nat>) {
    && Forest(tab', chains - {ch} + {ch'}) && ch <= ch' && Fresh(g, tab, ch'[|ch|..])
    && |tab| == |tab'| && forall c :: 0 <= c < |tab| && tab'[c] == 0 ==> tab[c] == 0
  }

  lemma LongerStart(g: Geometry, tab: seq<nat>, chains: set<seq<nat>>, ch: seq<nat>)
    requires Forest(tab, chains) && ch in chains && |tab| == 2 + g.clusters
    ensures Longer(g, tab, tab, chains, ch, ch)
  {
    assert chains - {ch} + {ch} == chains;
  }

  lemma LongerStep(g: Geometry, tab: seq<nat>, tab1: seq<nat>, tab2: seq<nat>, chains: set<seq<nat>>, ch: seq<nat>, ch1: seq<nat>, c: nat)
    requires Forest(tab, chains) && ch in chains && ch != [] && Longer(g, tab, tab1, chains, ch, ch1)
    requires |tab1| == 2 + g.clusters && IsCluster(g, c) && tab1[c] == 0 && ch1[|ch1| - 1] < |tab1|
    requires tab2 == tab1[ch1[|ch1| - 1] := c][c := LAST]
    ensures Longer(g, tab, tab2, chains, ch, ch1 + [c])
  {
    hide Chain;
    var now := chains - {ch} + {ch1};
    NotAmong(tab, chains, ch, ch1);
    assert now - {ch1} == chains - {ch};
    hide Forest;
    Grown(tab1, tab2, now, ch1, c);
    assert (ch1 + [c])[|ch|..] == ch1[|ch|..] + [c];
  }

  /** The two loops of fat32_write_file_data that measure the chain and lengthen it to the clusters needed. */
  method EnsureLength(v: FatVolume, first: nat, need: nat, ghost chains: set<seq<nat>>, ghost ch: seq<nat>)
    returns (ok: bool, ghost ch': seq<nat>)
    requires v.Valid() && v.FatUsable() && Forest(v.Fat(), chains) && ch in chains && ch != [] && ch[0] == first
    modifies v`cachedFatSector, v`fatCache, v`nextFreeHint, v.disk
    ensures v.Valid() && SameData(v.g, old(v.disk[..]), v.disk[..]) && (old(v.InSync()) ==> v.InSync())
    ensures Longer(v.g, old(v.Fat()), v.Fat(), chains, ch, ch')
    ensures ok ==> |ch'| == if need > |ch| then need else |ch|
    ensures !ok ==> |ch'| < need && forall c :: IsCluster(v.g, c) ==> v.Fat()[c] != 0
  {
    ghost var tab := v.Fat();
    LongerStart(v.g, tab, chains, ch);
    ForestChain(tab, chains, ch);
    var cl, chainLen := Measure(v, first, ch);
    ChainStep(tab, ch, |ch| - 1);
    hide Chain, Forest, Longer, Table, Mounted, FatVolume.Coherent, FatVolume.InSync;
    ch' := ch;
    while chainLen < need
      invariant v.Valid() && SameData(v.g, old(v.disk[..]), v.disk[..]) && (old(v.InSync()) ==> v.InSync())
      invariant Longer(v.g, tab, v.Fat(), chains, ch, ch') && |ch| <= chainLen == |ch'| && cl == ch'[|ch'| - 1] < |v.Fat()|
      invariant |ch'| <= (if need > |ch| then need else |ch|)
      decreases need - chainLen
    {
      ghost var before := v.Fat();
      var newcl := PickFree(v);
      if newcl == 0 { return false, ch'; }
      Link(v, cl, newcl);
      LongerStep(v.g, tab, before, v.Fat(), chains, ch, ch', newcl);
      ch' := ch' + [newcl];
      chainLen := chainLen + 1;
      cl := newcl;
    }
    ok := true;
  }

  /** The data area differs at most in the sectors of the chain. */
  ghost predicate OnlyFileData(g: Geometry, d: seq<Sector>, d': seq<Sector>, ch: seq<nat>)
    requires 0 < g.spc && OnVolume(g, ch)
  {
    |d| == |d'| && forall l :: g.dataStart <= l < |d| && !InFile(g, ch, l) ==> d'[l] == d[l]
  }

  lemma SplicedFrom(g: Geometry, d: seq<Sector>, d1: seq<Sector>, d2: seq<Sector>, ch: seq<nat>, offset: nat, data: seq<byte>)
    requires Mounted(g, |d|) && SameData(g, d, d1) && |d2| == |d1| && OnVolume(g, ch)
    requires Spliced(g, d1, d2, ch, offset, data) && OnlyFile(g, d1, d2, ch)
    ensures Spliced(g, d, d2, ch, offset, data) && OnlyFileData(g, d, d2, ch)
  {
    hide FileLba, Capacity, InFile;
    forall i | 0 <= i < Capacity(g, ch) ensures ByteAt(g, d1, ch, i) == ByteAt(g, d, ch, i) {
      SectorIndexIn(g, ch, i);
      FileLbaBounds(g, |d|, ch, i / 512);
    }
  }

  lemma SectorIndexIn(g: Geometry, ch: seq<nat>, i: nat)
    requires 0 < g.spc && i < Capacity(g, ch)
    ensures Quotient(i / 512, g.spc) < |ch|
  {
    SectorIndex(g, |ch|, i);
  }

  lemma CeilDiv(n: nat, k: nat)
    requires 0 < n && 0 < k
    ensures 1 <= (n + k - 1) / k && n <= (n + k - 1) / k * k
  {
    var q := (n + k - 1) / k;
    assert n + k - 1 == q * k + (n + k - 1) % k;
    assert q <= 0 ==> q * k <= 0;
  }

  /** How many clusters hold n bytes. */
  function ClustersFor(g: Geometry, n: nat): nat
    requires 0 < g.spc
  {
    Quotient(n + ClusterSize(g) - 1, ClusterSize(g))
  }

  /** They hold them, and one less would not. */
  lemma ClustersForLeast(g: Geometry, n: nat)
    requires 0 < g.spc
    ensures n <= ClustersFor(g, n) * (512 * g.spc)
    ensures ClustersFor(g, n) > 0 ==> (ClustersFor(g, n) - 1) * (512 * g.spc) < n
  {
    var size := ClusterSize(g);
    var q := ClustersFor(g, n);
    assert n + size - 1 == q * size + (n + size - 1) % size;
    if q > 0 { MulNext(q - 1, size); }
  }

  /** The chain of the file named by `firstCluster`: there already, or not at all when that is 0. */
  ghost predicate Names(firstCluster: nat, chains: set<seq<nat>>, ch: seq<nat>) {
    if firstCluster == 0 then ch == [] else ch in chains && ch != [] && ch[0] == firstCluster
  }

  /** A file without clusters gets its first one. */
  method AllocateFirst(v: FatVolume, firstCluster: nat, ghost chains: set<seq<nat>>, ghost ch: seq<nat>)
    returns (first: nat, ghost chains': set<seq<nat>>, ghost ch': seq<nat>)
    requires v.Valid() && v.FatUsable() && Forest(v.Fat(), chains) && Names(firstCluster, chains, ch)
    modifies v`cachedFatSector, v`fatCache, v`nextFreeHint, v.disk
    ensures v.Valid() && SameData(v.g, old(v.disk[..]), v.disk[..]) && (old(v.InSync()) ==> v.InSync())
    ensures Forest(v.Fat(), chains') && Names(first, chains', ch')
    ensures ch <= ch' && chains' - {ch'} == chains - {ch} && Fresh(v.g, old(v.Fat()), ch'[|ch|..])
    ensures forall c :: IsCluster(v.g, c) && v.Fat()[c] == 0 ==> old(v.Fat())[c] == 0
    ensures ch' == if first == 0 then [] else if firstCluster == 0 then [first] else ch
    ensures first == 0 ==> chains' == chains && forall c :: IsCluster(v.g, c) ==> v.Fat()[c] != 0
  {
    hide Forest, Table, Mounted, FatVolume.Coherent, FatVolume.InSync, StoredIn;
    ghost var tab := v.Fat();
    first, chains', ch' := firstCluster, chains, ch;
    NoEmptyChain(tab, chains);
    if first == 0 {
      first := PickFree(v);
      if first == 0 { return; }
      NewChain(tab, chains, first);
      assert LAST % ENTRY_MASK == LAST;
      v.PutEntry(first, LAST);
      chains', ch' := chains + {[first]}, [first];
    }
  }

  lemma NoEmptyChain(tab: seq<nat>, chains: set<seq<nat>>)
    requires Forest(tab, chains)
    ensures [] !in chains
  {
  }

  lemma FreshAfter(g: Geometry, tab: seq<nat>, tab1: seq<nat>, ch: seq<nat>, ch1: seq<nat>, ch2: seq<nat>)
    requires ch <= ch1 <= ch2 && Fresh(g, tab, ch1[|ch|..]) && Fresh(g, tab1, ch2[|ch1|..])
    requires forall c :: IsCluster(g, c) && tab1[c] == 0 ==> tab[c] == 0
    ensures Fresh(g, tab, ch2[|ch|..])
  {
    var cs := ch2[|ch|..];
    forall i | 0 <= i < |cs| ensures IsCluster(g, cs[i]) && tab[cs[i]] == 0 {
      if i < |ch1| - |ch| { assert cs[i] == ch1[|ch|..][i]; } else { assert cs[i] == ch2[|ch1|..][i - (|ch1| - |ch|)]; }
    }
  }

  lemma SameDataTrans(g: Geometry, d: seq<Sector>, d1: seq<Sector>, d2: seq<Sector>)
    requires SameData(g, d, d1) && SameData(g, d1, d2)
    ensures SameData(g, d, d2)
  {
  }

  lemma LongerIs(g: Geometry, tab: seq<nat>, tab': seq<nat>, chains: set<seq<nat>>, ch: seq<nat>, ch': seq<nat>)
    requires Longer(g, tab, tab', chains, ch, ch') && |tab'| == 2 + g.clusters <= BAD
    ensures Forest(tab', chains - {ch} + {ch'}) && ch <= ch' && Fresh(g, tab, ch'[|ch|..])
    ensures Chain(tab', ch') && OnVolume(g, ch')
  {
    ForestChain(tab', chains - {ch} + {ch'}, ch');
    ChainOnVolume(g, tab', ch');
  }

  /** The allocations of fat32_write_file_data: a first cluster if there is none, then as many as are needed. */
  method Allocate(v: FatVolume, firstCluster: nat, need: nat, ghost chains: set<seq<nat>>, ghost ch: seq<nat>)
    returns (ok: bool, first: nat, ghost chains': set<seq<nat>>, ghost ch': seq<nat>)
    requires v.Valid() && v.FatUsable() && Forest(v.Fat(), chains) && Names(firstCluster, chains, ch) && 0 < need
    modifies v`cachedFatSector, v`fatCache, v`nextFreeHint, v.disk
    ensures v.Valid() && SameData(v.g, old(v.disk[..]), v.disk[..]) && (old(v.InSync()) ==> v.InSync())
    ensures Forest(v.Fat(), chains') && chains' == chains - {ch} + (if ch' == [] then {} else {ch'})
    ensures ch <= ch' && Fresh(v.g, old(v.Fat()), ch'[|ch|..]) && OnVolume(v.g, ch')
    ensures ok ==> |ch'| == Max(|ch|, need) && ch'[0] == first && Chain(v.Fat(), ch')
    ensures !ok ==> |ch'| < need && forall c :: IsCluster(v.g, c) ==> v.Fat()[c] != 0
  {
    ghost var g, tab, d := v.g, v.Fat(), v.disk[..];
    MountedBasics(g, |d|);
    NoEmptyChain(tab, chains);
    ghost var chains1, ch1;
    first, chains1, ch1 := AllocateFirst(v, firstCluster, chains, ch);
    if first == 0 { return false, 0, chains1, ch1; }
    hide Forest, Chain, Longer, Fresh, Table, Mounted, SameData, OnVolume, FatVolume.InSync, FatVolume.Coherent;
    ghost var tab1, d1 := v.Fat(), v.disk[..];
    ok, ch' := EnsureLength(v, first, need, chains1, ch1);
    chains' := chains1 - {ch1} + {ch'};
    LongerIs(g, tab1, v.Fat(), chains1, ch1, ch');
    FreshAfter(g, tab, tab1, ch, ch1, ch');
    SameDataTrans(g, d, d1, v.disk[..]);
  }

  /** fat32_write_file_data from the allocation of a first cluster to the end of the write loop, and the
      resets at its end; an empty buffer is refused. The file's entry names `firstCluster`, 0 for an empty file.
      On success the bytes [offset, offset + |buf|) of the file's chain are buf, every other byte of the chain is
      as before, nothing else in the data area changed, and the chain has grown by no more clusters than needed.
      The result is the size, or -1 when no free cluster is left or a sector of the file fails. */
  method WriteFileData(v: FatVolume, firstCluster: nat, buf: seq<byte>, offset: nat, ghost chains: set<seq<nat>>, ghost ch: seq<nat>)
    returns (result: int, ghost chains': set<seq<nat>>, ghost ch': seq<nat>, ghost done: nat)
    requires v.Valid() && v.FatUsable() && Forest(v.Fat(), chains) && Names(firstCluster, chains, ch)
    requires offset + |buf| + ClusterSize(v.g) <= 0x1_0000_0000
    modifies v`cachedFatSector, v`fatCache, v`nextFreeHint, v.disk
    ensures v.Valid() && (old(v.InSync()) ==> v.InSync())
    ensures |buf| == 0 ==> result == -1 && chains' == chains && ch' == ch && v.disk[..] == old(v.disk[..])
    ensures Forest(v.Fat(), chains') && chains' == chains - {ch} + (if ch' == [] then {} else {ch'})
    ensures ch <= ch' && Fresh(v.g, old(v.Fat()), ch'[|ch|..]) && OnVolume(v.g, ch') && done <= |buf|
    ensures Spliced(v.g, old(v.disk[..]), v.disk[..], ch', offset, buf[..done])
    ensures OnlyFileData(v.g, old(v.disk[..]), v.disk[..], ch')
    ensures result == (if 0 < |buf| == done then |buf| else -1)
    ensures result != -1 ==> offset + |buf| <= Capacity(v.g, ch') && v.cachedFatSector == NO_SECTOR && v.nextFreeHint == 2
    ensures |ch'| <= Max(|ch|, ClustersFor(v.g, offset + |buf|)) && (result != -1 ==> |ch'| == Max(|ch|, ClustersFor(v.g, offset + |buf|)))
    ensures result == -1 && 0 < |buf| ==>
      (forall c :: IsCluster(v.g, c) ==> v.Fat()[c] != 0) || (exists l :: InFile(v.g, ch', l) && l in v.bad)
  {
    hide Forest, Chain, Fresh, Table, Mounted, SameData, Spliced, OnlyFile, OnlyFileData, Capacity, FatVolume.InSync, FatVolume.Coherent;
    ghost var g, d := v.g, v.disk[..];
    MountedBasics(g, |d|);
    if |buf| == 0 {
      NothingWritten(g, v.Fat(), d, firstCluster, chains, ch, offset);
      return -1, chains, ch, 0;
    }
    var clusterSize := v.g.spc * 512;
    var needSize := offset + |buf|;
    CeilDiv(needSize, clusterSize);
    var ok, first;
    ok, first, chains', ch' := Allocate(v, firstCluster, (needSize + clusterSize - 1) / clusterSize, chains, ch);
    ghost var d1 := v.disk[..];
    if !ok {
      SplicedNone(g, d1, ch', offset, buf);
      SplicedFrom(g, d, d1, d1, ch', offset, buf[..0]);
      return -1, chains', ch', 0;
    }
    CapacityCovers(g, ch', needSize);
    var wr;
    wr, done := WriteChain(v, first, buf, offset, ch');
    SplicedFrom(g, d, d1, v.disk[..], ch', offset, buf[..done]);
    if !wr { return -1, chains', ch', done; }
    Finish(v);
    result := |buf|;
  }

  lemma NothingWritten(g: Geometry, tab: seq<nat>, d: seq<Sector>, firstCluster: nat, chains: set<seq<nat>>, ch: seq<nat>, offset: nat)
    requires Mounted(g, |d|) && |tab| == 2 + g.clusters && Forest(tab, chains) && Names(firstCluster, chains, ch)
    ensures chains == chains - {ch} + (if ch == [] then {} else {ch}) && Fresh(g, tab, ch[|ch|..]) && OnVolume(g, ch)
    ensures Spliced(g, d, d, ch, offset, []) && OnlyFileData(g, d, d, ch)
  {
    NoEmptyChain(tab, chains);
    if ch != [] {
      ForestChain(tab, chains, ch);
      ChainOnVolume(g, tab, ch);
    }
    SplicedNone(g, d, ch, offset, []);
  }

  /** The resets at the end of a successful write. */
  method Finish(v: FatVolume)
    requires v.Valid()
    modifies v`cachedFatSector, v`nextFreeHint
    ensures v.Valid() && v.cachedFatSector == NO_SECTOR && v.nextFreeHint == 2
  {
    v.cachedFatSector := NO_SECTOR;
    v.nextFreeHint := 2;
  }

  lemma CapacityCovers(g: Geometry, ch: seq<nat>, n: nat)
    requires 0 < g.spc && 0 < n && Quotient(n + ClusterSize(g) - 1, ClusterSize(g)) <= |ch|
    ensures n <= Capacity(g, ch)
  {
    CeilDiv(n, ClusterSize(g));
    MulMono((n + ClusterSize(g) - 1) / ClusterSize(g), |ch|, ClusterSize(g));
  }

  // ------------------------------------------------------------------ reading

  /** The sector of byte i of the chain transfers. */
  ghost predicate Transfers(g: Geometry, ch: seq<nat>, bad: set<nat>, i: nat)
    requires 0 < g.spc && OnVolume(g, ch) && i < Capacity(g, ch)
  {
    SectorIndexIn(g, ch, i);
    FileLba(g, ch, i / 512) !in bad
  }

  /** The first n cells of buf are the first n bytes of the chain, wherever the sector transfers. */
  ghost predicate Loaded(g: Geometry, d: seq<Sector>, ch: seq<nat>, bad: set<nat>, buf: seq<byte>, n: nat)
    requires Mounted(g, |d|) && OnVolume(g, ch)
  {
    && n <= |buf| && n <= Capacity(g, ch)
    && forall i :: 0 <= i < n && Transfers(g, ch, bad, i) ==> buf[i] == ByteAt(g, d, ch, i)
  }

  lemma SectorOf(g: Geometry, idx: nat, s: nat, m: nat)
    requires s < g.spc && idx < m
    ensures Quotient((idx * g.spc + s), g.spc) == idx && Rest((idx * g.spc + s), g.spc) == s
    ensures (idx * g.spc + s) * 512 == idx * ClusterSize(g) + s * 512
    ensures (idx * g.spc + s + 1) * 512 <= m * ClusterSize(g)
  {
    DivIs(idx * g.spc + s, idx, s, g.spc);
    MulMono(idx + 1, m, ClusterSize(g));
    assert idx * g.spc * 512 == idx * ClusterSize(g);
    assert (idx + 1) * ClusterSize(g) == idx * ClusterSize(g) + ClusterSize(g);
  }

  lemma LoadedMore(g: Geometry, d: seq<Sector>, ch: seq<nat>, bad: set<nat>, b: seq<byte>, b': seq<byte>, k: nat, copy: nat)
    requires Mounted(g, |d|) && OnVolume(g, ch) && Quotient(k, g.spc) < |ch| && copy <= 512 && FileLba(g, ch, k) < |d|
    requires Loaded(g, d, ch, bad, b, k * 512) && k * 512 + copy <= |b| == |b'| && k * 512 + copy <= Capacity(g, ch)
    requires b'[..k * 512] == b[..k * 512]
    requires FileLba(g, ch, k) !in bad ==> b'[k * 512..k * 512 + copy] == d[FileLba(g, ch, k)][..copy]
    ensures Loaded(g, d, ch, bad, b', k * 512 + copy)
  {
    hide FileLba, Capacity;
    forall i | 0 <= i < k * 512 + copy && Transfers(g, ch, bad, i) ensures b'[i] == ByteAt(g, d, ch, i) {
      if i >= k * 512 {
        assert i / 512 == k && i % 512 == i - k * 512;
        assert b'[i] == b'[k * 512..k * 512 + copy][i - k * 512];
      } else {
        assert b'[i] == b'[..k * 512][i] == b[..k * 512][i];
      }
    }
  }

  /** One round of the inner loop of fat32_read_file: sector `lba`, the k-th of the chain. */
  method ReadPart(v: FatVolume, lba: nat, buf: array<byte>, size: nat, total: nat, scratch: Sector, ghost k: nat, ghost ch: seq<nat>)
    returns (total': nat, sector: Sector)
    requires Mounted(v.g, v.disk.Length) && OnVolume(v.g, ch) && Quotient(k, v.g.spc) < |ch| && lba == FileLba(v.g, ch, k)
    requires lba < v.disk.Length && size <= buf.Length && total == k * 512 < size && (k + 1) * 512 <= Capacity(v.g, ch)
    modifies buf
    ensures total' == Min(size, total + 512)
    ensures old(Loaded(v.g, v.disk[..], ch, v.bad, buf[..], total)) ==> Loaded(v.g, v.disk[..], ch, v.bad, buf[..], total')
    ensures forall i :: size <= i < buf.Length ==> buf[i] == old(buf[i])
  {
    hide ByteAt, Loaded, FileLba, Capacity, ClusterLba;
    ghost var g, d, b := v.g, v.disk[..], buf[..];
    var ok;
    ok, sector := v.ReadSector(lba, scratch);
    var copy := if size - total > 512 then 512 else size - total;
    forall i | 0 <= i < copy { buf[total + i] := sector[i]; }
    if Loaded(g, d, ch, v.bad, b, total) {
      assert buf[..][..total] == b[..total] && buf[..][total..total + copy] == sector[..copy];
      LoadedMore(g, d, ch, v.bad, b, buf[..], k, copy);
    }
    assert v.disk[..] == d;
    total' := total + copy;
  }

  /** The inner loop of fat32_read_file: one cluster, or what is wanted of it. */
  method ReadCluster(v: FatVolume, cluster: nat, buf: array<byte>, size: nat, total0: nat, scratch: Sector, ghost idx: nat, ghost ch: seq<nat>)
    returns (total: nat, sector: Sector)
    requires Mounted(v.g, v.disk.Length) && OnVolume(v.g, ch) && idx < |ch| && cluster == ch[idx]
    requires size <= buf.Length && total0 == idx * ClusterSize(v.g) < size
    modifies buf
    ensures total == Min(size, total0 + ClusterSize(v.g))
    ensures old(Loaded(v.g, v.disk[..], ch, v.bad, buf[..], total0)) ==> Loaded(v.g, v.disk[..], ch, v.bad, buf[..], total)
    ensures forall i :: size <= i < buf.Length ==> buf[i] == old(buf[i])
  {
    hide ByteAt, Loaded, FileLba;
    ghost var g, d := v.g, v.disk[..];
    ghost var good := Loaded(g, d, ch, v.bad, buf[..], total0);
    total, sector := total0, scratch;
    for s := 0 to v.g.spc
      invariant total == total0 + s * 512 < size
      invariant good ==> Loaded(g, d, ch, v.bad, buf[..], total)
      invariant forall i :: size <= i < buf.Length ==> buf[i] == old(buf[i])
    {
      ghost var k := idx * g.spc + s;
      var lba := ChainSector(v, cluster, s, idx, ch);
      total, sector := ReadPart(v, lba, buf, size, total, sector, k, ch);
      if total >= size { break; }
    }
  }

  /** Sector s of the idx-th cluster of a chain. */
  method ChainSector(v: FatVolume, cluster: nat, s: nat, ghost idx: nat, ghost ch: seq<nat>) returns (lba: nat)
    requires Mounted(v.g, v.disk.Length) && OnVolume(v.g, ch) && idx < |ch| && cluster == ch[idx] && s < v.g.spc
    ensures var k := idx * v.g.spc + s;
      && Quotient(k, v.g.spc) < |ch| && lba == FileLba(v.g, ch, k) && v.g.dataStart <= lba < v.disk.Length
      && k * 512 == idx * ClusterSize(v.g) + s * 512 && (k + 1) * 512 <= Capacity(v.g, ch)
  {
    SectorOf(v.g, idx, s, |ch|);
    FileLbaBounds(v.g, v.disk.Length, ch, idx * v.g.spc + s);
    lba := ClusterLba(v.g, cluster) + s;
  }

  /** fat32_read_file: the first min(size, capacity) bytes of the chain. Its result is that number,
      whether or not sectors fail; the bytes of every sector that transfers are right. */
  method ReadFile(v: FatVolume, firstCluster: nat, buf: array<byte>, size: nat, ghost ch: seq<nat>) returns (total: int)
    requires v.Valid() && v.FatUsable() && size <= buf.Length
    requires firstCluster >= 2 ==> Chain(v.Fat(), ch) && ch[0] == firstCluster
    modifies v`cachedFatSector, v`fatCache, buf
    ensures v.Valid()
    ensures firstCluster < 2 ==> total == -1 && buf[..] == old(buf[..])
    ensures firstCluster >= 2 ==> OnVolume(v.g, ch) && total == Min(size, Capacity(v.g, ch))
    ensures firstCluster >= 2 ==> Loaded(v.g, v.disk[..], ch, v.bad, buf[..], total)
    ensures forall i :: size <= i < buf.Length ==> buf[i] == old(buf[i])
  {
    hide ByteAt, Loaded, FileLba, Chain, Table, FatVolume.Lookup, FatVolume.Coherent;
    if firstCluster < 2 { return -1; }
    ghost var g, d := v.g, v.disk[..];
    MountedBasics(g, |d|);
    ChainOnVolume(g, v.Fat(), ch);
    ChainStart(v.Fat(), ch);
    LoadedNone(g, d, ch, v.bad, buf[..]);
    var cluster := firstCluster;
    var n: nat := 0;
    var sector: Sector := seq(512, _ => 0);
    ghost var idx: nat := 0;
    while cluster < END && n < size
      invariant v.Valid() && idx <= |ch| && n == Min(size, idx * ClusterSize(g))
      invariant if idx < |ch| then cluster == ch[idx] else cluster >= END
      invariant Loaded(g, d, ch, v.bad, buf[..], n)
      invariant forall i :: size <= i < buf.Length ==> buf[i] == old(buf[i])
      decreases |ch| - idx
    {
      MulNext(idx, ClusterSize(g));
      n, sector := ReadCluster(v, cluster, buf, size, n, sector, idx, ch);
      ChainStep(v.Fat(), ch, idx);
      cluster := v.GetNextCluster(cluster);
      idx := idx + 1;
    }
    MulMono(idx, |ch|, ClusterSize(g));
    total := n;
  }

  lemma LoadedNone(g: Geometry, d: seq<Sector>, ch: seq<nat>, bad: set<nat>, buf: seq<byte>)
    requires Mounted(g, |d|) && OnVolume(g, ch)
    ensures Loaded(g, d, ch, bad, buf, 0)
  {
  }

  /** Reading back after a write: wherever the sectors transfer, the written range holds the written bytes and the
      rest what was there before. */
  lemma ReadsBack(g: Geometry, d: seq<Sector>, d': seq<Sector>, ch: seq<nat>, bad: set<nat>, offset: nat, data: seq<byte>, out: seq<byte>, n: nat)
    requires Mounted(g, |d|) && |d'| == |d| && OnVolume(g, ch)
    requires Spliced(g, d, d', ch, offset, data) && Loaded(g, d', ch, bad, out, n) && offset + |data| <= n
    ensures forall i :: 0 <= i < n && Transfers(g, ch, bad, i) ==>
      out[i] == if offset <= i < offset + |data| then data[i - offset] else ByteAt(g, d, ch, i)
    ensures (forall i :: offset <= i < offset + |data| ==> Transfers(g, ch, bad, i)) ==> out[offset..offset + |data|] == data
  {
    hide ByteAt, Transfers;
    if forall i :: offset <= i < offset + |data| ==> Transfers(g, ch, bad, i) {
      forall x | 0 <= x < |data| ensures out[offset..offset + |data|][x] == data[x] {
        assert Transfers(g, ch, bad, offset + x);
      }
    }
  }

  lemma ClustersApart(g: Geometry, n: nat, chains: set<seq<nat>>, a: seq<nat>, b: seq<nat>, q: nat, s: nat, q': nat, s': nat)
    requires Mounted(g, n) && Disjoint(chains) && a in chains && b in chains && a != b
    requires OnVolume(g, a) && OnVolume(g, b) && q < |a| && q' < |b| && s < g.spc && s' < g.spc
    ensures ClusterLba(g, a[q]) + s != ClusterLba(g, b[q']) + s'
  {
    hide ClusterLba;
    assert a[q] in a && b[q'] in b && a[q] != b[q'];
    ClustersDisjoint(g, n, a[q], s, b[q'], s');
  }

  /** Two files of a forest share no sector. */
  lemma FilesApart(g: Geometry, n: nat, chains: set<seq<nat>>, a: seq<nat>, b: seq<nat>, k: nat, k': nat)
    requires Mounted(g, n) && Disjoint(chains) && a in chains && b in chains && a != b
    requires OnVolume(g, a) && OnVolume(g, b) && Quotient(k, g.spc) < |a| && Quotient(k', g.spc) < |b|
    ensures FileLba(g, a, k) != FileLba(g, b, k')
  {
    MountedBasics(g, n);
    hide ClusterLba, Disjoint, Mounted, OnVolume;
    ClustersApart(g, n, chains, a, b, Quotient(k, g.spc), Rest(k, g.spc), Quotient(k', g.spc), Rest(k', g.spc));
  }

  lemma NotInOther(g: Geometry, n: nat, chains: set<seq<nat>>, a: seq<nat>, b: seq<nat>, k: nat)
    requires Mounted(g, n) && Disjoint(chains) && a in chains && b in chains && a != b
    requires OnVolume(g, a) && OnVolume(g, b) && Quotient(k, g.spc) < |b|
    ensures !InFile(g, a, FileLba(g, b, k))
  {
    hide FileLba, Disjoint;
    forall k': nat | Quotient(k', g.spc) < |a| ensures FileLba(g, a, k') != FileLba(g, b, k) {
      FilesApart(g, n, chains, a, b, k', k);
    }
  }

  /** A write to one file does not change a byte of any other. */
  lemma OtherFilesKept(g: Geometry, tab: seq<nat>, chains: set<seq<nat>>, a: seq<nat>, b: seq<nat>, d: seq<Sector>, d': seq<Sector>, i: nat)
    requires Mounted(g, |d|) && |tab| == 2 + g.clusters && Forest(tab, chains) && a in chains && b in chains && a != b
    requires OnVolume(g, a) && OnVolume(g, b) && OnlyFileData(g, d, d', a) && i < Capacity(g, b)
    ensures ByteAt(g, d', b, i) == ByteAt(g, d, b, i)
  {
    hide FileLba, InFile, Capacity;
    SectorIndexIn(g, b, i);
    FileLbaBounds(g, |d|, b, i / 512);
    NotInOther(g, |d|, chains, a, b, i / 512);
  }
}
