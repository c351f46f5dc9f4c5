/** Directory operations of drivers/fs/fat32.c on the volume: listing, and putting new entries in place. */
module FatDirOps {
  import opened FatLayout
  import opened FatTable
  import opened FatVolume
  import opened FatFile
  import opened FatDirectory
  import opened FatBytes

  // --------------------------------------------------- directories as slot lists

  function SlotOf(s: Sector, e: nat): Slot
    requires e < 16
  {
    s[32 * e..32 * e + 32]
  }

  function SectorSlots(s: Sector): (r: seq<Slot>)
    ensures |r| == 16
  {
    seq(16, e requires 0 <= e < 16 => SlotOf(s, e))
  }

  function Times(a: nat, b: nat): nat { a * b }

  function SectorCount(g: Geometry, ch: seq<nat>): nat { Times(|ch|, g.spc) }

  /** The k-th sector of a directory. */
  ghost function DirSector(g: Geometry, d: seq<Sector>, ch: seq<nat>, k: nat): Sector
    requires Mounted(g, |d|) && OnVolume(g, ch) && k < SectorCount(g, ch)
  {
    DivLess(k, |ch|, g.spc);
    FileLbaBounds(g, |d|, ch, k);
    d[FileLba(g, ch, k)]
  }

  /** The slots of the first n sectors of a directory. */
  ghost function SlotsTo(g: Geometry, d: seq<Sector>, ch: seq<nat>, n: nat): (r: seq<Slot>)
    requires Mounted(g, |d|) && OnVolume(g, ch) && n <= SectorCount(g, ch)
    ensures |r| == 16 * n
  {
    if n == 0 then [] else SlotsTo(g, d, ch, n - 1) + SectorSlots(DirSector(g, d, ch, n - 1))
  }

  ghost function DirSlots(g: Geometry, d: seq<Sector>, ch: seq<nat>): seq<Slot>
    requires Mounted(g, |d|) && OnVolume(g, ch)
  {
    SlotsTo(g, d, ch, SectorCount(g, ch))
  }

  lemma {:induction false} SlotsPrefix(g: Geometry, d: seq<Sector>, ch: seq<nat>, k: nat, n: nat)
    requires Mounted(g, |d|) && OnVolume(g, ch) && k <= n <= SectorCount(g, ch)
    ensures SlotsTo(g, d, ch, k) <= SlotsTo(g, d, ch, n)
    decreases n - k
  {
    hide DirSector;
    if k < n { SlotsPrefix(g, d, ch, k, n - 1); }
  }

  /** Slot 16k + e is slot e of sector k. */
  lemma SlotAt(g: Geometry, d: seq<Sector>, ch: seq<nat>, n: nat, k: nat, e: nat)
    requires Mounted(g, |d|) && OnVolume(g, ch) && k < n <= SectorCount(g, ch) && e < 16
    ensures SlotsTo(g, d, ch, n)[16 * k + e] == SlotOf(DirSector(g, d, ch, k), e)
  {
    hide DirSector;
    SlotsPrefix(g, d, ch, k + 1, n);
  }

  /** The slots of a directory are its bytes, 32 to a slot. */
  lemma SlotBytes(g: Geometry, d: seq<Sector>, ch: seq<nat>, j: nat, x: nat)
    requires Mounted(g, |d|) && OnVolume(g, ch) && j < |DirSlots(g, d, ch)| && x < 32
    ensures |DirSlots(g, d, ch)| * 32 == Capacity(g, ch) && 32 * j + x < Capacity(g, ch)
    ensures DirSlots(g, d, ch)[j][x] == ByteAt(g, d, ch, 32 * j + x)
  {
    hide FileLba, Mounted, OnVolume;
    var k, e, i := j / 16, j % 16, 32 * j + x;
    assert |ch| * g.spc * 512 == |ch| * (g.spc * 512);
    assert j == 16 * k + e;
    assert i / 512 == k && i % 512 == 32 * e + x;
    SlotAt(g, d, ch, SectorCount(g, ch), k, e);
  }

  // ------------------------------------------------------------------ listing

  /** lfn_copy_part: the three runs of characters one after the other, up to a stop. */
  method LfnCopyPart(s: Slot) returns (dst: seq<byte>)
    ensures dst == UntilStop(Chars(s)) && PartOf(dst, s)
  {
    hide PartOf, UntilStop;
    PartIs(s);
    dst := [];
    var cs := Chars(s);
    for i := 0 to 13
      invariant dst == cs[..i] && forall j :: 0 <= j < i ==> !Stop(cs[j])
    {
      if cs[i] == 0x00 || cs[i] == 0xFF {
        UntilStopAt(cs, i);
        return;
      }
      dst := dst + [cs[i]];
    }
    UntilStopAt(cs, 13);
  }

  lemma {:induction false} UntilSpaceAt(cs: seq<byte>, n: nat)
    requires n <= |cs| && (forall i :: 0 <= i < n ==> cs[i] != 32) && (n < |cs| ==> cs[n] == 32)
    ensures UntilSpace(cs) == cs[..n]
  {
    if n > 0 {
      UntilSpaceAt(cs[1..], n - 1);
      assert cs[..n] == [cs[0]] + cs[1..][..n - 1];
    }
  }

  method CopyToSpace(cs: seq<byte>) returns (out: seq<byte>)
    ensures out == UntilSpace(cs)
  {
    out := [];
    for i := 0 to |cs|
      invariant out == cs[..i] && forall j :: 0 <= j < i ==> cs[j] != 32
    {
      if cs[i] == 32 {
        UntilSpaceAt(cs, i);
        return;
      }
      out := out + [cs[i]];
    }
    UntilSpaceAt(cs, |cs|);
  }

  /** shortname_to_string. */
  method ShortnameToString(s: Slot) returns (out: seq<byte>)
    ensures out == ShortName(s) && ShortNamed(out, s)
  {
    ShortNameIs(s);
    out := CopyToSpace(s[..8]);
    var ext := s[8..11];
    var hasExt := false;
    for i := 0 to 3
      invariant hasExt <==> exists j :: 0 <= j < i && ext[j] != 32
    {
      if ext[i] != 32 { hasExt := true; }
    }
    assert hasExt <==> ext != [32, 32, 32];
    if hasExt {
      var e := CopyToSpace(ext);
      out := out + (['.' as int] + e);
    }
  }

  /** The loop that glues the parts of a long name together, from the last to the first. */
  method JoinParts(parts: seq<seq<byte>>, present: nat) returns (name: seq<byte>)
    requires present <= |parts|
    ensures name == Cut(JoinDown(parts, present))
  {
    name := [];
    var i := present;
    while i > 0
      invariant 0 <= i <= present && Cut(name) == name && Cut(name + JoinDown(parts, i)) == Cut(JoinDown(parts, present))
    {
      i := i - 1;
      ghost var before := name;
      var k := 0;
      while k < |parts[i]| && |name| < MAX_NAME
        invariant k <= |parts[i]| && name == before + parts[i][..k] && |name| <= MAX_NAME
      {
        name := name + [parts[i][k]];
        k := k + 1;
      }
      assert before + JoinDown(parts, i + 1) == before + parts[i] + JoinDown(parts, i);
      CutShort(before, parts[i], k, JoinDown(parts, i));
    }
    assert name + JoinDown(parts, 0) == name;
  }

  lemma CutShort(a: seq<byte>, p: seq<byte>, k: nat, rest: seq<byte>)
    requires k <= |p| && |a + p[..k]| <= MAX_NAME && (k == |p| || |a| + k == MAX_NAME)
    ensures Cut(a + p[..k] + rest) == Cut(a + p + rest)
  {
    if k == |p| { assert p[..k] == p; } else { assert (a + p[..k] + rest)[..MAX_NAME] == (a + p + rest)[..MAX_NAME]; }
  }

  lemma OneSlot(s: Sector, e: nat)
    requires e < 16
    ensures var slots := SectorSlots(s);
      slots[e] == s[32 * e..32 * e + 32]
  {
  }

  /** fat32_list_dir looks no further: the end marker, or a full result. */
  predicate Enough(st: Listing, s: Slot, max: nat) {
    s[0] == 0 || (s[ATTR] != LFN && !Bit(s[ATTR], 0x08) && |st.out| >= max)
  }

  /** The value of a plain char, which is signed here. */
  function SignedChar(b: byte): int { if b < 0x80 then b else b - 0x100 }

  /** One slot in fat32_list_dir. */
  method ListSlot(ent: Slot, out0: seq<Found>, parts0: seq<seq<byte>>, present0: nat, max: nat)
    returns (out: seq<Found>, parts: seq<seq<byte>>, present: nat)
    requires |parts0| == 20 && present0 <= 20 && !Enough(Listing(out0, parts0, present0, false), ent, max)
    ensures |parts| == 20 && present <= 20
    ensures Listing(out, parts, present, false) == Step(Listing(out0, parts0, present0, false), ent, max)
  {
    out, parts, present := out0, parts0, present0;
    if ent[ATTR] == LFN {
      var ord := Order(ent);
      if IsLast(ent) { parts := NoParts(); }
      if 0 < ord <= 20 {
        var part := LfnCopyPart(ent);
        parts := parts[ord - 1 := part];
        if IsLast(ent) { present := ord; }
      }
    } else if SignedChar(ent[0]) == 0xE5 || Bit(ent[ATTR], 0x08) {
      present := 0;
    } else {
      var name;
      if present > 0 { name := JoinParts(parts, present); } else { name := ShortnameToString(ent); }
      out := out + [Found(name, ent[ATTR], FirstCluster(ent), Size(ent))];
      present := 0;
    }
  }

  /** One more slot of a sector is scanned, or the last that matters. */
  lemma ScanSlot(st0: Listing, slots: seq<Slot>, e: nat, max: nat)
    requires st0.Valid() && e < |slots|
    ensures Scan(st0, slots[..e + 1], max) == Step(Scan(st0, slots[..e], max), slots[e], max)
    ensures Step(Scan(st0, slots[..e], max), slots[e], max).done
      ==> Scan(st0, slots, max) == Step(Scan(st0, slots[..e], max), slots[e], max)
  {
    var st := Scan(st0, slots[..e], max);
    SplitBehind(slots, e);
    ScanConcat(st0, slots[..e], [slots[e]], max);
    ScanOne(st, slots[e], max);
    var st' := Step(st, slots[e], max);
    if st'.done {
      ScanConcat(st0, slots[..e + 1], slots[e + 1..], max);
      ScanStops(st', slots[e + 1..], max);
    }
  }

  lemma SplitBehind<T>(s: seq<T>, e: nat)
    requires e < |s|
    ensures s[..e + 1] == s[..e] + [s[e]] && s[..e + 1] + s[e + 1..] == s
  {
  }

  lemma ScanOne(st: Listing, s: Slot, max: nat)
    requires st.Valid()
    ensures Scan(st, [s], max) == Step(st, s, max) && Step(st, s, max).Valid()
  {
  }

  /** The slots of one sector in fat32_list_dir. */
  method ListSector(sector: Sector, out0: seq<Found>, parts0: seq<seq<byte>>, present0: nat, max: nat)
    returns (out: seq<Found>, parts: seq<seq<byte>>, present: nat, done: bool)
    requires |parts0| == 20 && present0 <= 20
    ensures |parts| == 20 && present <= 20
    ensures Listing(out, parts, present, done) == Scan(Listing(out0, parts0, present0, false), SectorSlots(sector), max)
  {
    hide Scan, SectorSlots;
    out, parts, present, done := out0, parts0, present0, false;
    ghost var st0, slots := Listing(out0, parts0, present0, false), SectorSlots(sector);
    ScanNone(st0, slots, max);
    var off := 0;
    ghost var e: nat := 0;
    while off < 512
      invariant off == 32 * e <= 512
      invariant |parts| == 20 && present <= 20 && !done
      invariant Listing(out, parts, present, false) == Scan(st0, slots[..e], max)
    {
      var ent: Slot := sector[off..off + 32];
      OneSlot(sector, e);
      ScanSlot(st0, slots, e, max);
      if Enough(Listing(out, parts, present, false), ent, max) {
        done := true;
        return;
      }
      out, parts, present := ListSlot(ent, out, parts, present, max);
      off, e := off + 32, e + 1;
    }
    assert slots[..16] == slots;
  }

  lemma ScanNone(st: Listing, slots: seq<Slot>, max: nat)
    requires st.Valid()
    ensures Scan(st, slots[..0], max) == st
  {
  }

  lemma {:induction false} ScanStops(st: Listing, slots: seq<Slot>, max: nat)
    requires st.Valid() && st.done
    ensures Scan(st, slots, max) == st
    decreases |slots|
  {
    if slots != [] { ScanStops(st, slots[1..], max); }
  }

  /** The k-th sector of a directory, as a sector of the disk. */
  ghost function DirLba(g: Geometry, ch: seq<nat>, k: nat): nat
    requires 0 < g.spc && OnVolume(g, ch) && k < SectorCount(g, ch)
  {
    DivLess(k, |ch|, g.spc);
    FileLba(g, ch, k)
  }

  /** The first k sectors of a directory transfer. */
  ghost predicate GoodTo(g: Geometry, ch: seq<nat>, bad: set<nat>, k: nat)
    requires 0 < g.spc && OnVolume(g, ch)
  {
    k <= SectorCount(g, ch) && forall j :: 0 <= j < k ==> DirLba(g, ch, j) !in bad
  }

  /** Read sector s of the idx-th cluster of a directory, the k-th of its sectors. */
  method ReadDirSector(v: FatVolume, cl: nat, s: nat, scratch: Sector, ghost idx: nat, ghost ch: seq<nat>) returns (ok: bool, sector: Sector)
    requires Mounted(v.g, v.disk.Length) && OnVolume(v.g, ch) && idx < |ch| && cl == ch[idx] && s < v.g.spc
    ensures var k := idx * v.g.spc + s;
      && k < SectorCount(v.g, ch)
      && (ok <==> DirLba(v.g, ch, k) !in v.bad)
      && (ok ==> sector == DirSector(v.g, v.disk[..], ch, k))
      && (!ok ==> exists l :: InFile(v.g, ch, l) && l in v.bad)
  {
    var lba := ChainSector(v, cl, s, idx, ch);
    MulNext(idx, v.g.spc);
    MulMono(idx + 1, |ch|, v.g.spc);
    InFileAt(v.g, ch, idx * v.g.spc + s);
    ok, sector := v.ReadSector(lba, scratch);
  }

  /** Listing a directory fails at sector k: that sector fails, and those before it do not end the listing. */
  ghost predicate ListFailsAt(g: Geometry, d: seq<Sector>, bad: set<nat>, ch: seq<nat>, max: nat, k: nat)
    requires Mounted(g, |d|) && OnVolume(g, ch)
  {
    k < SectorCount(g, ch) && DirLba(g, ch, k) in bad && !Scan(Start(), SlotsTo(g, d, ch, k), max).done
  }

  ghost predicate ListFails(g: Geometry, d: seq<Sector>, bad: set<nat>, ch: seq<nat>, max: nat)
    requires Mounted(g, |d|) && OnVolume(g, ch)
  {
    exists k: nat :: ListFailsAt(g, d, bad, ch, max, k)
  }

  /** Once the scan is done, the slots behind do not matter. */
  lemma ListStops(g: Geometry, d: seq<Sector>, ch: seq<nat>, k: nat, n: nat, st: Listing, max: nat)
    requires Mounted(g, |d|) && OnVolume(g, ch) && k <= n <= SectorCount(g, ch)
    requires st.Valid() && st.done && Scan(Start(), SlotsTo(g, d, ch, k), max) == st
    ensures Scan(Start(), SlotsTo(g, d, ch, n), max) == st
  {
    var all, some := SlotsTo(g, d, ch, n), SlotsTo(g, d, ch, k);
    SlotsPrefix(g, d, ch, k, n);
    assert all == some + all[16 * k..];
    ScanConcat(Start(), some, all[16 * k..], max);
    ScanStops(st, all[16 * k..], max);
  }

  lemma ListHolds(g: Geometry, d: seq<Sector>, bad: set<nat>, ch: seq<nat>, max: nat, k: nat)
    requires Mounted(g, |d|) && OnVolume(g, ch) && GoodTo(g, ch, bad, k)
    requires k == SectorCount(g, ch) || Scan(Start(), SlotsTo(g, d, ch, k), max).done
    ensures !ListFails(g, d, bad, ch, max)
    ensures ListOf(DirSlots(g, d, ch), max) == Scan(Start(), SlotsTo(g, d, ch, k), max).out
  {
    hide SlotsTo, Mounted, OnVolume, DirLba;
    var st := Scan(Start(), SlotsTo(g, d, ch, k), max);
    forall j: nat ensures !ListFailsAt(g, d, bad, ch, max, j) {
      if k <= j < SectorCount(g, ch) { ListStops(g, d, ch, k, j, st, max); }
    }
    if k < SectorCount(g, ch) { ListStops(g, d, ch, k, SectorCount(g, ch), st, max); }
  }

  /** The sectors of one cluster in fat32_list_dir. */
  method ListCluster(v: FatVolume, cl: nat, out0: seq<Found>, parts0: seq<seq<byte>>, present0: nat, scratch: Sector, max: nat,
                     ghost idx: nat, ghost ch: seq<nat>)
    returns (ok: bool, out: seq<Found>, parts: seq<seq<byte>>, present: nat, done: bool, sector: Sector, ghost k: nat)
    requires Mounted(v.g, v.disk.Length) && OnVolume(v.g, ch) && idx < |ch| && cl == ch[idx]
    requires |parts0| == 20 && present0 <= 20 && GoodTo(v.g, ch, v.bad, Times(idx, v.g.spc))
    requires Listing(out0, parts0, present0, false) == Scan(Start(), SlotsTo(v.g, v.disk[..], ch, Times(idx, v.g.spc)), max)
    ensures |parts| == 20 && present <= 20 && k <= SectorCount(v.g, ch)
    ensures !ok ==> ListFailsAt(v.g, v.disk[..], v.bad, ch, max, k)
    ensures ok ==> GoodTo(v.g, ch, v.bad, k)
    ensures ok ==> Listing(out, parts, present, done) == Scan(Start(), SlotsTo(v.g, v.disk[..], ch, k), max)
    ensures ok && !done ==> k == Times(idx + 1, v.g.spc)
  {
    hide FileLba, DirSector, DirLba, InFile, Scan, SectorSlots, Mounted, OnVolume;
    ghost var g, d := v.g, v.disk[..];
    ok, out, parts, present, done, sector := true, out0, parts0, present0, false, scratch;
    k := idx * g.spc;
    MulNext(idx, g.spc);
    MountedBasics(g, |d|);
    for s := 0 to v.g.spc
      invariant |parts| == 20 && present <= 20 && k == idx * g.spc + s && GoodTo(g, ch, v.bad, k)
      invariant Listing(out, parts, present, false) == Scan(Start(), SlotsTo(g, d, ch, k), max)
    {
      ok, sector := ReadDirSector(v, cl, s, sector, idx, ch);
      if !ok { return; }
      ScanConcat(Start(), SlotsTo(g, d, ch, k), SectorSlots(sector), max);
      out, parts, present, done := ListSector(sector, out, parts, present, max);
      k := k + 1;
      if done { return; }
    }
  }

  /** fat32_list_dir: the entries of the directory, or -2 exactly when a sector fails before the listing ends. */
  method ListDir(v: FatVolume, cluster: nat, max: nat, ghost ch: seq<nat>) returns (count: int, out: seq<Found>)
    requires v.Valid() && v.FatUsable() && Chain(v.Fat(), ch) && ch[0] == cluster
    modifies v`cachedFatSector, v`fatCache
    ensures v.Valid() && OnVolume(v.g, ch)
    ensures if ListFails(v.g, v.disk[..], v.bad, ch, max) then count == -2
            else count == |out| && out == ListOf(DirSlots(v.g, v.disk[..], ch), max) && Lists(DirSlots(v.g, v.disk[..], ch), max, out)
  {
    hide FileLba, DirSector, InFile, Chain, Scan, SectorSlots, Table, FatVolume.Lookup, FatVolume.Coherent, Mounted, SlotsTo, Times, GoodTo,
      ListFailsAt, ListOf, Lists;
    ghost var g, d := v.g, v.disk[..];
    MountedBasics(g, |d|);
    ChainOnVolume(g, v.Fat(), ch);
    ListLists(DirSlots(g, d, ch), max);
    ChainStart(v.Fat(), ch);
    var parts, present: nat, done := NoParts(), 0, false;
    out := [];
    var cl, sector: Sector := cluster, seq(512, _ => 0);
    ghost var idx: nat, k: nat := 0, 0;
    StartScan(g, d, v.bad, ch, max);
    NoTimes(g.spc);
    while cl < END
      invariant v.Valid() && idx <= |ch| && (if idx < |ch| then cl == ch[idx] else cl >= END)
      invariant |parts| == 20 && present <= 20 && k == Times(idx, g.spc) <= SectorCount(g, ch) && GoodTo(g, ch, v.bad, k)
      invariant Listing(out, parts, present, false) == Scan(Start(), SlotsTo(g, d, ch, k), max)
      decreases |ch| - idx
    {
      var ok;
      ok, out, parts, present, done, sector, k := ListCluster(v, cl, out, parts, present, sector, max, idx, ch);
      if !ok { return -2, out; }
      if done {
        ListHolds(g, d, v.bad, ch, max, k);
        return |out|, out;
      }
      ChainStep(v.Fat(), ch, idx);
      cl := v.GetNextCluster(cl);
      idx := idx + 1;
    }
    ListHolds(g, d, v.bad, ch, max, k);
    count := |out|;
  }

  lemma NoTimes(n: nat)
    ensures Times(0, n) == 0
  {
  }

  lemma TimesMono(a: nat, b: nat, n: nat)
    requires a <= b
    ensures Times(a, n) <= Times(b, n)
  {
    MulMono(a, b, n);
  }

  lemma StartScan(g: Geometry, d: seq<Sector>, bad: set<nat>, ch: seq<nat>, max: nat)
    requires Mounted(g, |d|) && OnVolume(g, ch)
    ensures Scan(Start(), SlotsTo(g, d, ch, 0), max) == Start() && GoodTo(g, ch, bad, 0)
    ensures ReadOf(SlotsTo(g, d, ch, 0), max) == [] && !ReadStops(SlotsTo(g, d, ch, 0), max)
  {
  }

  // ------------------------------------------------------------- short listing

  /** The slots of one sector in fat32_read_dir, behind those read before. */
  method ReadSectorSlots(sector: Sector, out0: seq<Slot>, max: nat, ghost before: seq<Slot>) returns (out: seq<Slot>, done: bool)
    requires out0 == ReadOf(before, max) && !ReadStops(before, max)
    ensures out == ReadOf(before + SectorSlots(sector), max) && done == ReadStops(before + SectorSlots(sector), max)
  {
    hide ReadOf, ReadStops, SectorSlots;
    out, done := out0, false;
    ghost var slots := SectorSlots(sector);
    var off := 0;
    ghost var e: nat := 0;
    assert before + slots[..0] == before;
    while off < 512
      invariant off == 32 * e <= 512
      invariant out == ReadOf(before + slots[..e], max) && !ReadStops(before + slots[..e], max)
    {
      var ent: Slot := sector[off..off + 32];
      OneSlot(sector, e);
      ReadNext(before + slots[..e], ent, max);
      SplitFrom(before, slots, e);
      if ent[0] == 0 || (ent[ATTR] != LFN && |out| >= max) {
        ReadEnds(before + slots[..e + 1], slots[e + 1..], max);
        return out, true;
      }
      if ent[ATTR] != LFN && SignedChar(ent[0]) != 0xE5 {
        out := out + [ent];
      }
      off, e := off + 32, e + 1;
    }
    assert slots[..16] == slots;
  }

  lemma SplitFrom<T>(a: seq<T>, s: seq<T>, e: nat)
    requires e < |s|
    ensures a + s[..e + 1] == a + s[..e] + [s[e]] && a + s[..e + 1] + s[e + 1..] == a + s
  {
  }

  /** Reading a directory fails at sector k: that sector fails, and those before it do not end the reading. */
  ghost predicate ReadFailsAt(g: Geometry, d: seq<Sector>, bad: set<nat>, ch: seq<nat>, max: nat, k: nat)
    requires Mounted(g, |d|) && OnVolume(g, ch)
  {
    k < SectorCount(g, ch) && DirLba(g, ch, k) in bad && !ReadStops(SlotsTo(g, d, ch, k), max)
  }

  ghost predicate ReadFails(g: Geometry, d: seq<Sector>, bad: set<nat>, ch: seq<nat>, max: nat)
    requires Mounted(g, |d|) && OnVolume(g, ch)
  {
    exists k: nat :: ReadFailsAt(g, d, bad, ch, max, k)
  }

  lemma ReadBehind(g: Geometry, d: seq<Sector>, ch: seq<nat>, k: nat, n: nat, max: nat)
    requires Mounted(g, |d|) && OnVolume(g, ch) && k <= n <= SectorCount(g, ch) && ReadStops(SlotsTo(g, d, ch, k), max)
    ensures ReadStops(SlotsTo(g, d, ch, n), max) && ReadOf(SlotsTo(g, d, ch, n), max) == ReadOf(SlotsTo(g, d, ch, k), max)
  {
    var all, some := SlotsTo(g, d, ch, n), SlotsTo(g, d, ch, k);
    SlotsPrefix(g, d, ch, k, n);
    assert all == some + all[16 * k..];
    ReadEnds(some, all[16 * k..], max);
  }

  lemma ReadHolds(g: Geometry, d: seq<Sector>, bad: set<nat>, ch: seq<nat>, max: nat, k: nat)
    requires Mounted(g, |d|) && OnVolume(g, ch) && GoodTo(g, ch, bad, k)
    requires k == SectorCount(g, ch) || ReadStops(SlotsTo(g, d, ch, k), max)
    ensures !ReadFails(g, d, bad, ch, max)
    ensures ReadOf(DirSlots(g, d, ch), max) == ReadOf(SlotsTo(g, d, ch, k), max)
  {
    hide SlotsTo, Mounted, OnVolume, DirLba;
    forall j: nat ensures !ReadFailsAt(g, d, bad, ch, max, j) {
      if k <= j < SectorCount(g, ch) { ReadBehind(g, d, ch, k, j, max); }
    }
    if k < SectorCount(g, ch) { ReadBehind(g, d, ch, k, SectorCount(g, ch), max); }
  }

  method ReadDirCluster(v: FatVolume, cl: nat, out0: seq<Slot>, scratch: Sector, max: nat, ghost idx: nat, ghost ch: seq<nat>)
    returns (ok: bool, out: seq<Slot>, done: bool, sector: Sector, ghost k: nat)
    requires Mounted(v.g, v.disk.Length) && OnVolume(v.g, ch) && idx < |ch| && cl == ch[idx] && GoodTo(v.g, ch, v.bad, Times(idx, v.g.spc))
    requires out0 == ReadOf(SlotsTo(v.g, v.disk[..], ch, Times(idx, v.g.spc)), max)
    requires !ReadStops(SlotsTo(v.g, v.disk[..], ch, Times(idx, v.g.spc)), max)
    ensures k <= SectorCount(v.g, ch)
    ensures !ok ==> ReadFailsAt(v.g, v.disk[..], v.bad, ch, max, k)
    ensures ok ==> GoodTo(v.g, ch, v.bad, k)
    ensures ok ==> out == ReadOf(SlotsTo(v.g, v.disk[..], ch, k), max) && done == ReadStops(SlotsTo(v.g, v.disk[..], ch, k), max)
    ensures ok && !done ==> k == Times(idx + 1, v.g.spc)
  {
    hide FileLba, DirSector, DirLba, InFile, ReadOf, ReadStops, SectorSlots, Mounted, OnVolume;
    ghost var g, d := v.g, v.disk[..];
    ok, out, done, sector := true, out0, false, scratch;
    k := idx * g.spc;
    MulNext(idx, g.spc);
    MountedBasics(g, |d|);
    for s := 0 to v.g.spc
      invariant k == idx * g.spc + s && GoodTo(g, ch, v.bad, k)
      invariant out == ReadOf(SlotsTo(g, d, ch, k), max) && !ReadStops(SlotsTo(g, d, ch, k), max)
    {
      ok, sector := ReadDirSector(v, cl, s, sector, idx, ch);
      if !ok { return; }
      out, done := ReadSectorSlots(sector, out, max, SlotsTo(g, d, ch, k));
      k := k + 1;
      if done { return; }
    }
  }

  /** fat32_read_dir: the short slots of a directory as they are on disk, or -2 exactly when a sector fails before
      the reading ends. */
  method ReadDir(v: FatVolume, cluster: nat, max: nat, ghost ch: seq<nat>) returns (count: int, out: seq<Slot>)
    requires v.Valid() && v.FatUsable() && Chain(v.Fat(), ch) && ch[0] == cluster
    modifies v`cachedFatSector, v`fatCache
    ensures v.Valid() && OnVolume(v.g, ch)
    ensures if ReadFails(v.g, v.disk[..], v.bad, ch, max) then count == -2
            else count == |out| && out == ReadOf(DirSlots(v.g, v.disk[..], ch), max) && Reads(DirSlots(v.g, v.disk[..], ch), max, out)
  {
    hide FileLba, DirSector, InFile, Chain, ReadOf, ReadStops, Table, FatVolume.Lookup, FatVolume.Coherent, Mounted, SlotsTo, Times, GoodTo,
      ReadFailsAt, Reads;
    ghost var g, d := v.g, v.disk[..];
    MountedBasics(g, |d|);
    ChainOnVolume(g, v.Fat(), ch);
    ReadReads(DirSlots(g, d, ch), max);
    ChainStart(v.Fat(), ch);
    NoTimes(g.spc);
    StartScan(g, d, v.bad, ch, max);
    out := [];
    var cl, sector: Sector := cluster, seq(512, _ => 0);
    ghost var idx: nat, k: nat := 0, 0;
    while cl < END
      invariant v.Valid() && idx <= |ch| && (if idx < |ch| then cl == ch[idx] else cl >= END)
      invariant k == Times(idx, g.spc) <= SectorCount(g, ch) && GoodTo(g, ch, v.bad, k)
      invariant out == ReadOf(SlotsTo(g, d, ch, k), max) && !ReadStops(SlotsTo(g, d, ch, k), max)
      decreases |ch| - idx
    {
      var ok, done;
      ok, out, done, sector, k := ReadDirCluster(v, cl, out, sector, max, idx, ch);
      if !ok { return -2, out; }
      if done {
        ReadHolds(g, d, v.bad, ch, max, k);
        return |out|, out;
      }
      ChainStep(v.Fat(), ch, idx);
      cl := v.GetNextCluster(cl);
      idx := idx + 1;
    }
    ReadHolds(g, d, v.bad, ch, max, k);
    count := |out|;
  }
}
