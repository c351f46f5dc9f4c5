/** Where things are on a FAT32 volume: bytes in sectors, entries in the FATs, clusters in the data area. */
module FatLayout {
  type byte = b: int | 0 <= b < 256
  type Sector = s: seq<byte> | |s| == 512 witness seq(512, _ => 0)

  const ENTRY_MASK: nat := 0x1000_0000 // values are kept modulo 2^28, the mask 0x0FFFFFFF
  const END: nat := 0x0FFF_FFF8        // entries from here on end a chain
  const LAST: nat := 0x0FFF_FFFF       // the end mark the driver writes
  const BAD: nat := 0x0FFF_FFF7        // the specification's mark for an unusable cluster
  const NO_SECTOR: nat := 0xFFFF_FFFF

  // ------------------------------------------------------ little-endian words

  function U32(s: Sector, at: nat): nat
    requires at + 4 <= 512
  {
    s[at] as int + 0x100 * s[at + 1] as int + 0x1_0000 * s[at + 2] as int + 0x100_0000 * s[at + 3] as int
  }

  function PutU32(s: Sector, at: nat, v: nat): Sector
    requires at + 4 <= 512 && v < 0x1_0000_0000
  {
    s[at := v % 0x100][at + 1 := v / 0x100 % 0x100][at + 2 := v / 0x1_0000 % 0x100][at + 3 := v / 0x100_0000]
  }

  /** A stored word reads back, and words elsewhere are not disturbed. */
  lemma PutGetU32(s: Sector, at: nat, v: nat, at': nat)
    requires at + 4 <= 512 && at' + 4 <= 512 && v < 0x1_0000_0000
    ensures U32(PutU32(s, at, v), at) == v
    ensures at + 4 <= at' || at' + 4 <= at ==> U32(PutU32(s, at, v), at') == U32(s, at')
  {
    assert v == v % 0x100 + 0x100 * (v / 0x100 % 0x100) + 0x1_0000 * (v / 0x1_0000 % 0x100) + 0x100_0000 * (v / 0x100_0000);
  }

  /** Storing the word a sector already holds changes nothing, and only that. */
  lemma PutSame(s: Sector, at: nat, v: nat)
    requires at + 4 <= 512 && v < 0x1_0000_0000
    ensures PutU32(s, at, v) == s <==> U32(s, at) == v
  {
    PutGetU32(s, at, v, at);
    if U32(s, at) == v {
      Bytes(s[at], s[at + 1], s[at + 2], s[at + 3]);
    }
  }

  lemma Bytes(a: byte, b: byte, c: byte, d: byte)
    ensures var v := a as int + 0x100 * b as int + 0x1_0000 * c as int + 0x100_0000 * d as int;
      v % 0x100 == a && v / 0x100 % 0x100 == b && v / 0x1_0000 % 0x100 == c && v / 0x100_0000 == d
  {
    var y := c as int + 0x100 * d as int;
    var x := b as int + 0x100 * y;
    var v := a as int + 0x100 * x;
    assert v / 0x100 == x && x / 0x100 == y && y / 0x100 == d;
    assert v / 0x1_0000 == v / 0x100 / 0x100 && v / 0x100_0000 == v / 0x1_0000 / 0x100;
  }

  // --------------------------------------------- the disk as one run of bytes

  function DiskByte(d: seq<Sector>, a: nat): byte
    requires a < 512 * |d|
  {
    d[a / 512][a % 512]
  }

  /** The little-endian number of the four bytes from a on. */
  function DiskNumber(d: seq<Sector>, a: nat): nat
    requires a + 4 <= 512 * |d|
  {
    DiskByte(d, a) as int + 0x100 * DiskByte(d, a + 1) as int + 0x1_0000 * DiskByte(d, a + 2) as int
      + 0x100_0000 * DiskByte(d, a + 3) as int
  }

  lemma SectorByte(d: seq<Sector>, l: nat, x: nat)
    requires l < |d| && x < 512
    ensures 512 * l + x < 512 * |d| && DiskByte(d, 512 * l + x) == d[l][x]
  {
    assert (512 * l + x) / 512 == l && (512 * l + x) % 512 == x;
  }

  // ------------------------------------------------------------------ geometry

  /** What mounting leaves behind. `clusters` is total_clusters, `spc` sectors_per_cluster. */
  datatype Geometry = Geometry(fatStart: nat, fatSectors: nat, fatCount: nat, dataStart: nat, spc: nat, clusters: nat, root: nat)

  /** A mounted volume on a disk of the given number of sectors: the FATs hold an entry for every cluster
      and lie before the data area, which lies on the disk. Sector numbers have 28 bits. */
  predicate Mounted(g: Geometry, sectors: nat) {
    && 1 <= g.fatCount < 256 && 1 <= g.spc < 256 && 1 <= g.clusters
    && 2 + g.clusters <= g.fatSectors * 128 && 2 + g.clusters <= BAD
    && g.fatStart + g.fatCount * g.fatSectors <= g.dataStart
    && g.dataStart + g.clusters * g.spc <= sectors <= 0x1000_0000
    && IsCluster(g, g.root)
  }

  predicate IsCluster(g: Geometry, c: int) { 2 <= c < 2 + g.clusters }

  /** The sector of FAT copy t that holds the entry of cluster c. */
  function FatLba(g: Geometry, t: nat, c: nat): nat { g.fatStart + t * g.fatSectors + c * 4 / 512 }

  function ClusterLba(g: Geometry, c: nat): nat
    requires 2 <= c
  {
    g.dataStart + (c - 2) * g.spc
  }

  lemma FatLbaBounds(g: Geometry, n: nat, t: nat, c: nat)
    requires Mounted(g, n) && t < g.fatCount && c < 2 + g.clusters
    ensures g.fatStart + t * g.fatSectors <= FatLba(g, t, c) < g.fatStart + (t + 1) * g.fatSectors
    ensures FatLba(g, t, c) < g.dataStart <= n
    ensures c * 4 % 512 + 4 <= 512 && c * 4 % 4 == 0
  {
    hide Mounted;
    FatFits(g, n);
    assert c * 4 / 512 < g.fatSectors;
    Strided(t, g.fatCount, g.fatSectors, c * 4 / 512);
  }

  lemma FatFits(g: Geometry, n: nat)
    requires Mounted(g, n)
    ensures 2 + g.clusters <= g.fatSectors * 128 && g.fatStart + g.fatCount * g.fatSectors <= g.dataStart <= n
  {
  }

  lemma MulMono(a: nat, b: nat, k: nat)
    requires a <= b
    ensures a * k <= b * k
  {
  }

  lemma MulNext(a: nat, k: nat)
    ensures (a + 1) * k == a * k + k
  {
  }

  /** Different entries lie in different words, copy by copy. */
  lemma FatLbaInjective(g: Geometry, n: nat, t: nat, c: nat, t': nat, c': nat)
    requires Mounted(g, n) && t < g.fatCount && c < 2 + g.clusters && t' < g.fatCount && c' < 2 + g.clusters
    ensures t != t' ==> FatLba(g, t, c) != FatLba(g, t', c')
    ensures t == t' && c != c' && FatLba(g, t, c) == FatLba(g, t', c') ==>
              c * 4 % 512 + 4 <= c' * 4 % 512 || c' * 4 % 512 + 4 <= c * 4 % 512
  {
    FatLbaBounds(g, n, t, c);
    FatLbaBounds(g, n, t', c');
    if t < t' { MulMono(t + 1, t', g.fatSectors); }
    if t' < t { MulMono(t' + 1, t, g.fatSectors); }
  }

  lemma ClusterLbaBounds(g: Geometry, n: nat, c: nat, s: nat)
    requires Mounted(g, n) && IsCluster(g, c) && s < g.spc
    ensures g.dataStart <= ClusterLba(g, c) + s < n
    ensures ClusterLba(g, c) + s < g.dataStart + (c - 1) * g.spc
  {
    hide Mounted;
    DataOnDisk(g, n);
    Strided(c - 2, g.clusters, g.spc, s);
  }

  lemma DataOnDisk(g: Geometry, n: nat)
    requires Mounted(g, n)
    ensures g.dataStart + g.clusters * g.spc <= n
  {
  }

  /** A place in the a-th of m strides of k. */
  lemma Strided(a: nat, m: nat, k: nat, s: nat)
    requires a < m && s < k
    ensures a * k + s < (a + 1) * k <= m * k
  {
    MulNext(a, k);
    MulMono(a + 1, m, k);
  }

  /** Clusters occupy disjoint ranges of sectors, all behind the FATs. */
  lemma ClustersDisjoint(g: Geometry, n: nat, c: nat, s: nat, c': nat, s': nat)
    requires Mounted(g, n) && IsCluster(g, c) && IsCluster(g, c') && s < g.spc && s' < g.spc
    requires c != c' || s != s'
    ensures ClusterLba(g, c) + s != ClusterLba(g, c') + s'
  {
    ClusterLbaBounds(g, n, c, s);
    ClusterLbaBounds(g, n, c', s');
    if c < c' { MulMono(c - 1, c' - 2, g.spc); }
    if c' < c { MulMono(c' - 1, c - 2, g.spc); }
  }

  // ----------------------------------------------------------------- the table

  function Entry(g: Geometry, d: seq<Sector>, t: nat, c: nat): nat
    requires Mounted(g, |d|) && t < g.fatCount && c < 2 + g.clusters
  {
    Word(g, d, t, c) % ENTRY_MASK
  }

  /** The stored word of cluster c in copy t, reserved bits included. */
  function Word(g: Geometry, d: seq<Sector>, t: nat, c: nat): nat
    requires Mounted(g, |d|) && t < g.fatCount && c < 2 + g.clusters
  {
    FatLbaBounds(g, |d|, t, c);
    U32(d[FatLba(g, t, c)], c * 4 % 512)
  }

  /** Where on the disk the entry of cluster c in copy t begins: four bytes to an entry, copy behind copy. */
  function EntryStart(g: Geometry, t: nat, c: nat): nat { 512 * (g.fatStart + t * g.fatSectors) + 4 * c }

  lemma EntryPlace(g: Geometry, n: nat, t: nat, c: nat)
    requires Mounted(g, n) && t < g.fatCount && c < 2 + g.clusters
    ensures EntryStart(g, t, c) + 4 <= 512 * n && EntryStart(g, t, c) == 512 * FatLba(g, t, c) + c * 4 % 512
    ensures FatLba(g, t, c) < n && c * 4 % 512 + 4 <= 512
    ensures FatLba(g, 0, c) == g.fatStart + c / 128
  {
    hide Mounted;
    FatLbaBounds(g, n, t, c);
    assert 4 * c == 512 * (c * 4 / 512) + c * 4 % 512;
  }

  /** The word of an entry is the little-endian number of the four bytes there. */
  lemma WordBytes(g: Geometry, d: seq<Sector>, t: nat, c: nat)
    requires Mounted(g, |d|) && t < g.fatCount && c < 2 + g.clusters
    ensures EntryStart(g, t, c) + 4 <= 512 * |d| && Word(g, d, t, c) == DiskNumber(d, EntryStart(g, t, c))
    ensures Table(g, d, t)[c] == DiskNumber(d, EntryStart(g, t, c)) % 0x1000_0000
  {
    hide Mounted, FatLba, DiskByte, EntryStart;
    EntryPlace(g, |d|, t, c);
    var l, x := FatLba(g, t, c), c * 4 % 512;
    SectorByte(d, l, x);
    SectorByte(d, l, x + 1);
    SectorByte(d, l, x + 2);
    SectorByte(d, l, x + 3);
  }

  /** A stored word changes no byte but its own four. */
  lemma PutElsewhere(d: seq<Sector>, l: nat, x: nat, v: nat, a: nat)
    requires l < |d| && x + 4 <= 512 && v < 0x1_0000_0000 && a < 512 * |d| && !(512 * l + x <= a < 512 * l + x + 4)
    ensures DiskByte(d[l := PutU32(d[l], x, v)], a) == DiskByte(d, a)
  {
    assert a == 512 * (a / 512) + a % 512;
  }

  /** The four bits of a stored word that the specification reserves. */
  function Reserved(word: nat): nat { word / ENTRY_MASK }

  /** FAT copy t as a table from cluster numbers to entries. */
  function Table(g: Geometry, d: seq<Sector>, t: nat): (tab: seq<nat>)
    requires Mounted(g, |d|) && t < g.fatCount
    ensures |tab| == 2 + g.clusters
  {
    seq(2 + g.clusters, c requires 0 <= c < 2 + g.clusters => Entry(g, d, t, c))
  }

  /** Two disks that agree on all FAT sectors have the same tables. */
  ghost predicate SameBelow(d: seq<Sector>, d': seq<Sector>, limit: nat) {
    |d| == |d'| && forall l :: 0 <= l < limit && l < |d| ==> d[l] == d'[l]
  }

  lemma SameTable(g: Geometry, d: seq<Sector>, d': seq<Sector>, t: nat)
    requires Mounted(g, |d|) && SameBelow(d, d', g.dataStart) && t < g.fatCount
    ensures Table(g, d', t) == Table(g, d, t)
  {
    forall c | 0 <= c < 2 + g.clusters ensures Table(g, d', t)[c] == Table(g, d, t)[c] {
      FatLbaBounds(g, |d|, t, c);
    }
  }

  /** Storing a word for c in copy t changes that word of that copy and no other. */
  lemma WordStored(g: Geometry, d: seq<Sector>, t: nat, c: nat, v: nat, t': nat, k: nat)
    requires Mounted(g, |d|) && t < g.fatCount && c < 2 + g.clusters && t' < g.fatCount && k < 2 + g.clusters && v < ENTRY_MASK
    requires FatLba(g, t, c) < |d| && c * 4 % 512 + 4 <= 512
    ensures var d' := d[FatLba(g, t, c) := PutU32(d[FatLba(g, t, c)], c * 4 % 512, v)];
      Word(g, d', t', k) == if t' == t && k == c then v else Word(g, d, t', k)
  {
    hide PutU32, U32, FatLba;
    FatLbaBounds(g, |d|, t', k);
    FatLbaInjective(g, |d|, t, c, t', k);
    PutGetU32(d[FatLba(g, t, c)], c * 4 % 512, v, k * 4 % 512);
  }

  /** Storing a word into the entry of c in copy t changes that entry of that copy and nothing else in any table. */
  lemma EntryStored(g: Geometry, d: seq<Sector>, t: nat, c: nat, v: nat, t': nat)
    requires Mounted(g, |d|) && t < g.fatCount && c < 2 + g.clusters && t' < g.fatCount && v < ENTRY_MASK
    requires FatLba(g, t, c) < |d| && c * 4 % 512 + 4 <= 512
    ensures var d' := d[FatLba(g, t, c) := PutU32(d[FatLba(g, t, c)], c * 4 % 512, v)];
      Table(g, d', t') == if t' == t then Table(g, d, t)[c := v] else Table(g, d, t')
  {
    hide PutU32, U32, FatLba, Word;
    var d' := d[FatLba(g, t, c) := PutU32(d[FatLba(g, t, c)], c * 4 % 512, v)];
    var tab := if t' == t then Table(g, d, t)[c := v] else Table(g, d, t');
    forall k | 0 <= k < 2 + g.clusters ensures Table(g, d', t')[k] == tab[k] { WordStored(g, d, t, c, v, t', k); }
  }
}
