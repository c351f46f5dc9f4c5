/** One mounted volume (drivers/fs/fat32.c): the disk, the one-sector FAT cache, the search hint. */
module FatVolume {
  import opened FatLayout
  import opened FatTable

  /** The disk after the first k FAT copies got value v for cluster c. */
  ghost function Mirrored(g: Geometry, d: seq<Sector>, c: nat, v: nat, k: nat): (r: seq<Sector>)
    requires Mounted(g, |d|) && c < 2 + g.clusters && k <= g.fatCount
    ensures |r| == |d|
  {
    if k == 0 then d
    else
      var r := Mirrored(g, d, c, v, k - 1);
      FatLbaBounds(g, |d|, k - 1, c);
      var l := FatLba(g, k - 1, c);
      r[l := PutU32(r[l], c * 4 % 512, v % ENTRY_MASK)]
  }

  /** Word by word, reserved bits included: the first k copies have the new word, all others are as before. */
  lemma {:induction false} MirroredWords(g: Geometry, d: seq<Sector>, c: nat, v: nat, k: nat, t: nat, x: nat)
    requires Mounted(g, |d|) && c < 2 + g.clusters && k <= g.fatCount && t < g.fatCount && x < 2 + g.clusters
    ensures Word(g, Mirrored(g, d, c, v, k), t, x) == if t < k && x == c then v % ENTRY_MASK else Word(g, d, t, x)
  {
    hide PutU32, Word, FatLba;
    if k > 0 {
      MirroredWords(g, d, c, v, k - 1, t, x);
      FatLbaBounds(g, |d|, k - 1, c);
      WordStored(g, Mirrored(g, d, c, v, k - 1), k - 1, c, v % ENTRY_MASK, t, x);
    }
  }

  /** fat_write_fat_entry keeps the reserved bits of a copy's word exactly if they were clear. */
  lemma ReservedKept(g: Geometry, d: seq<Sector>, c: nat, v: nat, t: nat)
    requires Mounted(g, |d|) && c < 2 + g.clusters && t < g.fatCount
    ensures var d' := Mirrored(g, d, c, v, g.fatCount);
      Reserved(Word(g, d', t, c)) == Reserved(Word(g, d, t, c)) <==> Word(g, d, t, c) < ENTRY_MASK
  {
    hide Word;
    MirroredWords(g, d, c, v, g.fatCount, t, c);
  }

  /** A volume whose word for c has them set: the store clears them. */
  lemma ReservedLost(g: Geometry, d: seq<Sector>, c: nat, v: nat)
    requires Mounted(g, |d|) && c < 2 + g.clusters && Word(g, d, 0, c) == 0xF000_0000
    ensures Reserved(Word(g, d, 0, c)) == 15 && Reserved(Word(g, Mirrored(g, d, c, v, g.fatCount), 0, c)) == 0
  {
    hide Word;
    MirroredWords(g, d, c, v, g.fatCount, 0, c);
  }

  /** The first k copies have the new entry, all else in every copy is as before, and so are all other sectors. */
  lemma {:induction false} MirroredTables(g: Geometry, d: seq<Sector>, c: nat, v: nat, k: nat)
    requires Mounted(g, |d|) && c < 2 + g.clusters && k <= g.fatCount
    ensures forall t :: 0 <= t < g.fatCount ==>
      Table(g, Mirrored(g, d, c, v, k), t) == if t < k then Table(g, d, t)[c := v % ENTRY_MASK] else Table(g, d, t)
    ensures forall l :: 0 <= l < |d| && (forall t :: 0 <= t < k ==> l != FatLba(g, t, c)) ==> Mirrored(g, d, c, v, k)[l] == d[l]
  {
    hide PutU32, Table, FatLba;
    if k > 0 {
      MirroredTables(g, d, c, v, k - 1);
      FatLbaBounds(g, |d|, k - 1, c);
      var r := Mirrored(g, d, c, v, k - 1);
      forall t | 0 <= t < g.fatCount
        ensures Table(g, Mirrored(g, d, c, v, k), t) == if t < k then Table(g, d, t)[c := v % ENTRY_MASK] else Table(g, d, t)
      {
        EntryStored(g, r, k - 1, c, v % ENTRY_MASK, t);
      }
    }
  }

  /** From disk d to d', the four bytes of cluster c in the first k copies became the little-endian value modulo 2^28,
      and no other byte of the disk changed. */
  ghost predicate StoredIn(g: Geometry, d: seq<Sector>, d': seq<Sector>, c: nat, v: nat, k: nat) {
    && |d'| == |d|
    && (forall t :: 0 <= t < k ==> EntryStart(g, t, c) + 4 <= 512 * |d| && DiskNumber(d', EntryStart(g, t, c)) == v % 0x1000_0000)
    && (forall a :: 0 <= a < 512 * |d| && Outside(g, c, k, a) ==> DiskByte(d', a) == DiskByte(d, a))
  }

  /** Address a is in none of the first k copies' entries of cluster c. */
  ghost predicate Outside(g: Geometry, c: nat, k: nat, a: nat) {
    forall t :: 0 <= t < k ==> !(EntryStart(g, t, c) <= a < EntryStart(g, t, c) + 4)
  }

  lemma {:induction false} MirroredByte(g: Geometry, d: seq<Sector>, c: nat, v: nat, k: nat, a: nat)
    requires Mounted(g, |d|) && c < 2 + g.clusters && k <= g.fatCount && a < 512 * |d| && Outside(g, c, k, a)
    ensures DiskByte(Mirrored(g, d, c, v, k), a) == DiskByte(d, a)
  {
    hide Mounted, PutU32, DiskByte, FatLba, EntryStart;
    if k > 0 {
      MirroredByte(g, d, c, v, k - 1, a);
      EntryPlace(g, |d|, k - 1, c);
      assert !(EntryStart(g, k - 1, c) <= a < EntryStart(g, k - 1, c) + 4);
      PutElsewhere(Mirrored(g, d, c, v, k - 1), FatLba(g, k - 1, c), c * 4 % 512, v % ENTRY_MASK, a);
    }
  }

  /** The store of fat_write_fat_entry, byte by byte of the disk. */
  lemma MirroredBytes(g: Geometry, d: seq<Sector>, c: nat, v: nat, k: nat)
    requires Mounted(g, |d|) && c < 2 + g.clusters && k <= g.fatCount
    ensures StoredIn(g, d, Mirrored(g, d, c, v, k), c, v, k)
  {
    hide Mounted, Mirrored, DiskByte, DiskNumber, FatLba, EntryStart, Word, Outside;
    var d' := Mirrored(g, d, c, v, k);
    forall t | 0 <= t < k
      ensures EntryStart(g, t, c) + 4 <= 512 * |d| && DiskNumber(d', EntryStart(g, t, c)) == v % 0x1000_0000
    {
      MirroredWords(g, d, c, v, k, t, c);
      WordBytes(g, d', t, c);
    }
    forall a | 0 <= a < 512 * |d| && Outside(g, c, k, a) ensures DiskByte(d', a) == DiskByte(d, a) {
      MirroredByte(g, d, c, v, k, a);
    }
  }

  class FatVolume {
    const g: Geometry
    const disk: array<Sector>
    const bad: set<nat> // sectors whose transfers fail
    var cachedFatSector: nat
    var fatCache: Sector
    var nextFreeHint: nat
    var currentDir: nat

    /** The cached FAT sector is what the disk holds. */
    ghost predicate Coherent()
      reads this, disk
    {
      cachedFatSector != NO_SECTOR ==>
        && g.fatStart <= cachedFatSector < g.fatStart + g.fatSectors && cachedFatSector < disk.Length
        && cachedFatSector !in bad && fatCache == disk[cachedFatSector]
    }

    ghost predicate Valid()
      reads this, disk
    {
      && Mounted(g, disk.Length) && Coherent()
      && 2 <= nextFreeHint <= 3 + g.clusters
    }

    /** All FAT sectors can be read and written. */
    ghost predicate FatUsable() {
      forall l :: g.fatStart <= l < g.dataStart ==> l !in bad
    }

    /** What a lookup answers: the entry of the first copy, or an end mark when its sector fails. */
    ghost function Lookup(c: nat): nat
      requires Mounted(g, disk.Length) && c < 2 + g.clusters
      reads disk
    {
      if FatLba(g, 0, c) in bad then LAST else Entry(g, disk[..], 0, c)
    }

    ghost function Fat(): seq<nat>
      requires Mounted(g, disk.Length)
      reads disk
    {
      Table(g, disk[..], 0)
    }

    lemma LookupFat(c: nat)
      requires Mounted(g, disk.Length) && FatUsable() && c < 2 + g.clusters
      ensures Lookup(c) == Fat()[c]
    {
      FatLbaBounds(g, disk.Length, 0, c);
    }

    /** All FAT copies agree. */
    ghost predicate InSync()
      requires Mounted(g, disk.Length)
      reads disk
    {
      forall t :: 0 <= t < g.fatCount ==> Table(g, disk[..], t) == Fat()
    }

    /** State after fat32_mount. */
    constructor (g: Geometry, disk: array<Sector>, bad: set<nat>)
      requires Mounted(g, disk.Length)
      ensures Valid() && this.g == g && this.disk == disk && this.bad == bad
      ensures currentDir == g.root && nextFreeHint == 3
    {
      this.g := g;
      this.disk := disk;
      this.bad := bad;
      cachedFatSector := NO_SECTOR;
      fatCache := seq(512, _ => 0);
      nextFreeHint := 3;
      currentDir := g.root;
    }

    /** ata_read_sector: a failing transfer leaves the caller's buffer as it was. */
    method ReadSector(lba: nat, buffer: Sector) returns (ok: bool, s: Sector)
      requires lba < disk.Length
      ensures ok == (lba !in bad) && s == if ok then disk[lba] else buffer
    {
      ok := lba !in bad;
      s := if ok then disk[lba] else buffer;
    }

    /** ata_write_sector. Writes to the data area cannot make the FAT cache stale. */
    method WriteSector(lba: nat, s: Sector) returns (ok: bool)
      requires lba < disk.Length
      modifies disk
      ensures old(Valid()) && g.dataStart <= lba ==> Valid() && Fat() == old(Fat()) && (old(InSync()) ==> InSync())
      ensures ok == (lba !in bad) && disk[..] == if ok then old(disk[..])[lba := s] else old(disk[..])
    {
      hide Table;
      ok := lba !in bad;
      ghost var d := disk[..];
      if ok { disk[lba] := s; }
      if old(Valid()) && g.dataStart <= lba {
        MulMono(1, g.fatCount, g.fatSectors);
        forall t | 0 <= t < g.fatCount ensures Table(g, disk[..], t) == Table(g, d, t) { SameTable(g, d, disk[..], t); }
      }
    }

    /** fat32_get_next_cluster: through the cache, the same answer as from the disk. */
    method GetNextCluster(cluster: nat) returns (next: nat)
      requires Valid() && cluster < 2 + g.clusters
      modifies this`cachedFatSector, this`fatCache
      ensures Valid() && next == Lookup(cluster)
      ensures FatUsable() ==> next == Fat()[cluster]
      ensures EntryStart(g, 0, cluster) + 4 <= 512 * disk.Length
      ensures next == if g.fatStart + cluster / 128 in bad then 0x0FFF_FFFF
                      else DiskNumber(disk[..], EntryStart(g, 0, cluster)) % 0x1000_0000
    {
      hide EntryStart, DiskNumber;
      EntryPlace(g, disk.Length, 0, cluster);
      WordBytes(g, disk[..], 0, cluster);
      FatLbaBounds(g, disk.Length, 0, cluster);
      var fatOffset := cluster * 4;
      var fatSector := g.fatStart + fatOffset / 512;
      var entOffset := fatOffset % 512;
      if fatSector != cachedFatSector {
        var ok, s := ReadSector(fatSector, fatCache);
        if !ok { return LAST; }
        fatCache := s;
        cachedFatSector := fatSector;
      }
      next := U32(fatCache, entOffset) % ENTRY_MASK;
    }

    /** One round of fat_write_fat_entry: read, patch and write back the sector of copy t. */
    method StoreInCopy(t: nat, cluster: nat, value: nat) returns (ok: bool)
      requires Mounted(g, disk.Length) && t < g.fatCount && cluster < 2 + g.clusters && FatLba(g, t, cluster) < disk.Length
      requires cluster * 4 % 512 + 4 <= 512
      modifies disk
      ensures ok == (FatLba(g, t, cluster) !in bad)
      ensures var d, l := old(disk[..]), FatLba(g, t, cluster);
        disk[..] == if ok then d[l := PutU32(d[l], cluster * 4 % 512, value % ENTRY_MASK)] else d
    {
      var fatOffset := cluster * 4;
      var fatSector := g.fatStart + t * g.fatSectors + fatOffset / 512;
      var rd, sector := ReadSector(fatSector, seq(512, _ => 0));
      if !rd { return false; }
      sector := PutU32(sector, fatOffset % 512, value % ENTRY_MASK);
      ok := WriteSector(fatSector, sector);
    }

    /** Storing the entry is going to leave a stale cache: the first copy's sector transfers but some copy's does
        not, and the cache holds that first sector with a different word. */
    ghost predicate GoesStale(cluster: nat, value: nat)
      requires Mounted(g, disk.Length) && cluster < 2 + g.clusters
      reads this, disk
    {
      && FatLba(g, 0, cluster) !in bad && (exists t :: 0 <= t < g.fatCount && FatLba(g, t, cluster) in bad)
      && cachedFatSector == FatLba(g, 0, cluster) && Word(g, disk[..], 0, cluster) != value % ENTRY_MASK
    }

    /** fat_write_fat_entry: copy after copy until one fails. Only success empties the cache, so after a
        failure behind the first copy the cache may be stale. */
    method WriteFatEntry(cluster: nat, value: nat) returns (ok: bool, ghost copies: nat)
      requires Valid() && cluster < 2 + g.clusters
      modifies this`cachedFatSector, disk
      ensures copies <= g.fatCount && disk[..] == Mirrored(g, old(disk[..]), cluster, value, copies)
      ensures forall t :: 0 <= t < copies ==> FatLba(g, t, cluster) !in bad
      ensures ok <==> copies == g.fatCount
      ensures if ok then cachedFatSector == NO_SECTOR else
        FatLba(g, copies, cluster) in bad && cachedFatSector == old(cachedFatSector)
      ensures ok <==> forall t :: 0 <= t < g.fatCount ==> FatLba(g, t, cluster) !in bad
      ensures !Valid() <==> old(GoesStale(cluster, value))
      ensures StoredIn(g, old(disk[..]), disk[..], cluster, value, copies)
      ensures ok <==> forall t :: 0 <= t < g.fatCount ==> EntryStart(g, t, cluster) / 512 !in bad
    {
      hide U32, PutU32, FatLba, Word, EntryStart, StoredIn;
      ghost var d := disk[..];
      ghost var cached := cachedFatSector;
      ok, copies := true, 0;
      for t := 0 to g.fatCount
        invariant t == copies <= g.fatCount && disk[..] == Mirrored(g, d, cluster, value, copies)
        invariant forall t' :: 0 <= t' < t ==> FatLba(g, t', cluster) !in bad
        invariant cachedFatSector == cached
        invariant ok
      {
        FatLbaBounds(g, disk.Length, t, cluster);
        ok := StoreInCopy(t, cluster, value);
        if !ok { break; }
        copies := copies + 1;
      }
      if ok { cachedFatSector := NO_SECTOR; }
      MirroredFirst(g, d, cluster, value, copies);
      MirroredBytes(g, d, cluster, value, copies);
      forall t | 0 <= t < g.fatCount ensures EntryStart(g, t, cluster) / 512 == FatLba(g, t, cluster) {
        EntryPlace(g, disk.Length, t, cluster);
      }
    }

    /** fat_write_fat_entry when the FAT sectors transfer: every copy gets the new entry and nothing else,
        identical copies stay identical, and no sector outside the FATs changes. */
    method PutEntry(cluster: nat, value: nat)
      requires Valid() && FatUsable() && cluster < 2 + g.clusters
      modifies this`cachedFatSector, disk
      ensures Valid()
      ensures forall t :: 0 <= t < g.fatCount ==>
        Table(g, disk[..], t) == Table(g, old(disk[..]), t)[cluster := value % ENTRY_MASK]
      ensures forall t, x :: 0 <= t < g.fatCount && 0 <= x < 2 + g.clusters ==>
        Word(g, disk[..], t, x) == if x == cluster then value % ENTRY_MASK else Word(g, old(disk[..]), t, x)
      ensures Fat() == old(Fat())[cluster := value % ENTRY_MASK] && (old(InSync()) ==> InSync())
      ensures forall l :: 0 <= l < disk.Length && !(g.fatStart <= l < g.dataStart) ==> disk[l] == old(disk[l])
      ensures StoredIn(g, old(disk[..]), disk[..], cluster, value, g.fatCount)
    {
      hide FatLba, Mirrored, Table, Mounted, Word, StoredIn, EntryStart;
      ghost var d := disk[..];
      SomeCopy(g, |d|);
      var ok, copies := WriteFatEntry(cluster, value);
      forall t | 0 <= t < g.fatCount ensures g.fatStart <= FatLba(g, t, cluster) < g.dataStart {
        FatLbaBounds(g, disk.Length, t, cluster);
      }
      ghost var d' := disk[..];
      assert d' == Mirrored(g, d, cluster, value, g.fatCount);
      forall t, x | 0 <= t < g.fatCount && 0 <= x < 2 + g.clusters
        ensures Word(g, d', t, x) == if x == cluster then value % ENTRY_MASK else Word(g, d, t, x)
      {
        MirroredWords(g, d, cluster, value, g.fatCount, t, x);
      }
      MirroredTables(g, d, cluster, value, g.fatCount);
      assert forall t :: 0 <= t < g.fatCount ==> Table(g, d', t) == Table(g, d, t)[cluster := value % ENTRY_MASK];
      if old(InSync()) {
        forall t | 0 <= t < g.fatCount ensures Table(g, d', t) == Table(g, d', 0) {
          assert Table(g, d, t) == Table(g, d, 0);
        }
      }
    }

    /** find_free_cluster: the first free entry in cyclic order from the hint, or 0 when there is none.
        Entries whose sector cannot be read pass for used. */
    method FindFreeCluster() returns (cluster: nat, ghost k: nat)
      requires Valid()
      modifies this`cachedFatSector, this`fatCache, this`nextFreeHint
      ensures Valid()
      ensures cluster == 0 ==> nextFreeHint == old(nextFreeHint) && forall c :: IsCluster(g, c) ==> Lookup(c) != 0
      ensures cluster != 0 ==>
        && k < g.clusters && cluster == Probe(g.clusters, old(nextFreeHint), k) && Lookup(cluster) == 0
        && (forall j :: 0 <= j < k ==> Lookup(Probe(g.clusters, old(nextFreeHint), j)) != 0)
        && nextFreeHint == (if cluster + 1 == 2 + g.clusters then 2 else cluster + 1)
    {
      hide Lookup;
      var start := nextFreeHint;
      k := 0;
      for iter := 0 to g.clusters
        invariant Valid() && nextFreeHint == start && k == iter
        invariant forall j :: 0 <= j < iter ==> Lookup(Probe(g.clusters, start, j)) != 0
      {
        var cl := 2 + (start - 2 + iter) % g.clusters;
        assert cl == Probe(g.clusters, start, iter);
        var next := GetNextCluster(cl);
        if next == 0 {
          nextFreeHint := cl + 1;
          if nextFreeHint >= 2 + g.clusters { nextFreeHint := 2; }
          return cl, k;
        }
        k := k + 1;
      }
      forall c | IsCluster(g, c) ensures Lookup(c) != 0 {
        var j := ProbeVisits(g.clusters, start, c);
      }
      return 0, k;
    }
  }

  lemma SomeCopy(g: Geometry, n: nat)
    requires Mounted(g, n)
    ensures 1 <= g.fatCount
  {
  }

  /** Which sectors the mirrored store changes, seen from one of them: the first copy's. */
  lemma MirroredFirst(g: Geometry, d: seq<Sector>, c: nat, v: nat, k: nat)
    requires Mounted(g, |d|) && c < 2 + g.clusters && k <= g.fatCount
    ensures FatLba(g, 0, c) < |d|
    ensures var r := Mirrored(g, d, c, v, k); var l := FatLba(g, 0, c);
      && (r[l] == d[l] <==> k == 0 || Word(g, d, 0, c) == v % ENTRY_MASK)
      && forall m :: g.fatStart <= m < g.fatStart + g.fatSectors && m < |d| && m != l ==> r[m] == d[m]
  {
    hide PutU32, U32;
    FatLbaBounds(g, |d|, 0, c);
    if k > 0 {
      MirroredFirst(g, d, c, v, k - 1);
      FatLbaBounds(g, |d|, k - 1, c);
      PutSame(d[FatLba(g, 0, c)], c * 4 % 512, v % ENTRY_MASK);
      if k > 1 { FatLbaInjective(g, |d|, k - 1, c, 0, c); MulMono(1, k - 1, g.fatSectors); }
    }
  }
}
