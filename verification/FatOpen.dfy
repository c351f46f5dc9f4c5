/** How fat32_write_file_data comes by its file: it looks the name up in the current directory, and creates the file
    and looks again where it is missing. */
module FatOpen {
  import opened Arithmetic
  import opened Options
  import opened FatLayout
  import opened FatTable
  import opened FatVolume
  import opened FatFile
  import opened FatDirectory
  import opened FatDirOps
  import opened FatPlace
  import opened FatReuse
  import opened FatCreate
  import opened FatPath
  import opened FatTree

  predicate IsFile(f: Found, name: seq<byte>) { !IsDirAttr(f.attr) && SameName(f.name, name) }

  /** The first entry in the listing that is no directory and has the name up to case. */
  function FindFile(list: seq<Found>, name: seq<byte>): (f: Option<Found>)
    ensures f.Some? ==> f.value in list && IsFile(f.value, name)
    ensures f.None? ==> forall x :: x in list ==> !IsFile(x, name)
  {
    if list == [] then None
    else if IsFile(list[0], name) then Some(list[0])
    else FindFile(list[1..], name)
  }

  lemma {:induction false} FindsFirst(list: seq<Found>, name: seq<byte>, i: nat)
    requires i < |list| && IsFile(list[i], name) && forall j :: 0 <= j < i ==> !IsFile(list[j], name)
    ensures FindFile(list, name) == Some(list[i])
  {
    if i > 0 { FindsFirst(list[1..], name, i - 1); }
  }

  /** The loop over the listing. */
  method SearchFile(list: seq<Found>, name: seq<byte>) returns (f: Option<Found>)
    ensures f == FindFile(list, name)
  {
    hide SameName;
    for i := 0 to |list|
      invariant FindFile(list, name) == FindFile(list[i..], name)
    {
      if !IsDirAttr(list[i].attr) {
        var c := StrcasecmpAscii(list[i].name, name);
        if c == 0 { return Some(list[i]); }
      }
    }
    f := None;
  }

  /** The file of that name in directory ch; none where the listing fails. */
  ghost function FileIn(g: Geometry, d: seq<Sector>, bad: set<nat>, ch: seq<nat>, name: seq<byte>): Option<Found>
    requires Mounted(g, |d|) && OnVolume(g, ch)
  {
    if ListFails(g, d, bad, ch, 64) then None else FindFile(ListOf(DirSlots(g, d, ch), 64), name)
  }

  /** One listing and one search of it. */
  method LookUp(v: FatVolume, name: seq<byte>, ghost ch: seq<nat>) returns (f: Option<Found>)
    requires v.Valid() && v.FatUsable() && Chain(v.Fat(), ch) && ch[0] == v.currentDir
    modifies v`cachedFatSector, v`fatCache
    ensures v.Valid() && OnVolume(v.g, ch) && f == FileIn(v.g, v.disk[..], v.bad, ch, name)
  {
    hide ListFails, ListOf, DirSlots, Chain, Table, FindFile;
    var n, list := ListDir(v, v.currentDir, 64, ch);
    f := None;
    if n >= 0 { f := SearchFile(list, name); }
  }

  /** The lookup, and for offset 0 the creation and the second lookup. A file that is not found then is in the
      directory all the same. */
  method OpenFile(v: FatVolume, name: seq<byte>, offset: nat, ghost chains: set<seq<nat>>, ghost ch: seq<nat>)
    returns (f: Option<Found>, ghost made: bool, ghost d1: seq<Sector>, ghost ch1: seq<nat>, ghost k: nat, ghost e: nat)
    requires v.Valid() && v.FatUsable() && Forest(v.Fat(), chains) && ch in chains && ch != [] && ch[0] == v.currentDir
    modifies v`cachedFatSector, v`fatCache, v`nextFreeHint, v.disk
    ensures v.Valid() && OnVolume(v.g, ch) && OnVolume(v.g, ch1) && ch <= ch1 && Forest(v.Fat(), chains - {ch} + {ch1})
    ensures made ==> offset == 0 && FileIn(v.g, old(v.disk[..]), v.bad, ch, name).None?
    ensures made ==> Placed(v.g, old(v.disk[..]), d1, v.disk[..], ch, ch1, v.bad, PartCount(name) + 1, Flat(Entries(name, 0x20, 0)), k, e)
    ensures made ==> f == FileIn(v.g, v.disk[..], v.bad, ch1, name)
    ensures !made ==> f == FileIn(v.g, old(v.disk[..]), v.bad, ch, name) && Extended(v.g, old(v.disk[..]), v.disk[..], ch, ch1, v.bad)
    ensures !made && (f.Some? || offset != 0) ==> v.disk[..] == old(v.disk[..]) && ch1 == ch
    ensures !made && f.None? && offset == 0 ==> Blocked(v.g, v.Fat(), v.disk[..], ch1, v.bad, PartCount(name) + 1)
    ensures v.bad == {} && offset == 0 && FileIn(v.g, old(v.disk[..]), {}, ch, name).None? ==>
      (made <==> Room(v.g, old(v.Fat()), old(v.disk[..]), ch, PartCount(name) + 1))
  {
    hide Placed, Blocked, Extended, Forest, Table, Mounted, FatVolume.Coherent, FatVolume.InSync, Entries, Flat, Took, Room, HasFree, Chain, FileIn,
      OnVolume;
    ghost var d := v.disk[..];
    ForestChain(v.Fat(), chains, ch);
    SameSet(chains, ch);
    f := LookUp(v, name, ch);
    ExtendedNone(v.g, d, ch, v.bad);
    made, d1, ch1, k, e := false, d, ch, 0, 0;
    if f.Some? || offset != 0 { return; }
    var r;
    r, d1, ch1, k, e := CreateFile(v, name, chains, ch);
    ForestChain(v.Fat(), chains - {ch} + {ch1}, ch1);
    ChainOnVolume(v.g, v.Fat(), ch1);
    if r != 0 { return; }
    made := true;
    f := LookUp(v, name, ch1);
  }

  /** In a tidy directory with m used slots the second lookup finds a file if and only if the entry is listed, that
      is if it fits in the sector of the end mark and the listing has room, and is listed under its name up to case,
      or a file of that name comes to light behind it. A name of up to 13 characters is; the call is in vain for any
      other that is not, though the entry is there. */
  lemma NewFileFound(g: Geometry, d: seq<Sector>, d1: seq<Sector>, d': seq<Sector>, ch: seq<nat>, ch1: seq<nat>, bad: set<nat>,
                     name: seq<byte>, k: nat, e: nat, m: nat)
    requires Placed(g, d, d1, d', ch, ch1, bad, PartCount(name) + 1, Flat(Entries(name, 0x20, 0)), k, e)
    requires Sound(g, ch, bad) && Sound(g, ch1, bad) && Tidy(DirSlots(g, d, ch), m) && Printable(name) && 0 < |name| <= 195
    requires FileIn(g, d, bad, ch, name).None?
    ensures |d'| == |d|
    ensures var s, n := DirSlots(g, d, ch), PartCount(name) + 1; var shown := |ListOf(s, 64)|;
      FileIn(g, d', bad, ch1, name) ==
        if m % 16 + n > 16 || shown >= 64 then None
        else FoundAgain(Found(Listed(name), 0x20, 0, 0), ListOf(Uncovered(s, m, n), 63 - shown), name)
    ensures |name| <= 13 ==> SameName(Listed(name), name)
  {
    hide Placed, Extended, Sound, Tidy, ListOf, DirSlots, Entries, Inserted, Listed, Flat, Printable, OnVolume, Mounted, SectorCount, Uncovered,
      SameName, ListFails, FindFile, FoundAgain;
    PlacedIs(g, d, d1, d', ch, ch1, bad, Entries(name, 0x20, 0), k, e, m);
    CreateThenList(g, d, d1, d', ch, ch1, bad, name, 0x20, 0, k, e, m, 64);
    SoundShows(g, d, bad, ch, 64);
    SoundShows(g, d', bad, ch1, 64);
    var list := ListOf(DirSlots(g, d, ch), 64);
    if m % 16 + PartCount(name) + 1 <= 16 && |list| < 64 {
      FindNew(list, Found(Listed(name), 0x20, 0, 0), ListOf(Uncovered(DirSlots(g, d, ch), m, PartCount(name) + 1), 63 - |list|), name);
    }
    if |name| <= 13 { SameIfShort(name); }
  }

  /** The new entry if it is listed under its name, and otherwise what else of that name there is. */
  function FoundAgain(f: Found, more: seq<Found>, name: seq<byte>): Option<Found> {
    if SameName(f.name, name) then Some(f) else FindFile(more, name)
  }

  lemma {:induction false} FindBehind(a: seq<Found>, b: seq<Found>, name: seq<byte>)
    requires FindFile(a, name).None?
    ensures FindFile(a + b, name) == FindFile(b, name)
  {
    if a == [] {
      assert a + b == b;
    } else {
      assert (a + b)[0] == a[0] && (a + b)[1..] == a[1..] + b;
      assert !IsFile(a[0], name);
      FindBehind(a[1..], b, name);
    }
  }

  lemma FindNew(list: seq<Found>, f: Found, more: seq<Found>, name: seq<byte>)
    requires FindFile(list, name).None? && f.attr == 0x20
    ensures FindFile(list + [f] + more, name) == FoundAgain(f, more, name)
  {
    hide SameName;
    assert list + [f] + more == list + ([f] + more) && ([f] + more)[1..] == more;
    FindBehind(list, [f] + more, name);
  }

  lemma SameIfShort(name: seq<byte>)
    requires 0 < |name| <= 13 && Printable(name)
    ensures SameName(Listed(name), name)
  {
    ShortNamesListed(name);
  }
}
