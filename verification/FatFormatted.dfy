/** From a freshly formatted volume on: directories inside directories, as deep as there are clusters. */
module FatFormatted {
  import opened Arithmetic
  import opened Options
  import opened FatLayout
  import opened FatTable
  import opened FatVolume
  import opened FatFile
  import opened FatDirectory
  import opened FatDirOps
  import opened FatPlace
  import opened FatReuse
  import opened FatCreate
  import opened FatPath
  import opened FatTree
  import opened FatRoutes

  /** Only the root directory is in use, it is one cluster of zeros, and every sector transfers. */
  ghost predicate Formatted(w: Volume) {
    && w.Valid() && w.bad == {} && RootAlone(w.g, w.Tab())
    && forall s :: 0 <= s < w.g.spc ==> RootSector(w.g, s) < |w.d| && w.d[RootSector(w.g, s)] == ZeroSector()
  }

  function RootSector(g: Geometry, s: nat): nat
    requires g.root >= 2
  {
    ClusterLba(g, g.root) + s
  }

  ghost predicate RootAlone(g: Geometry, tab: seq<nat>) {
    && |tab| == 2 + g.clusters && IsCluster(g, g.root) && tab[g.root] >= END
    && forall c :: IsCluster(g, c) && c != g.root ==> tab[c] == 0
  }

  lemma FormattedForest(g: Geometry, tab: seq<nat>)
    requires RootAlone(g, tab) && |tab| <= BAD
    ensures Forest(tab, {[g.root]}) && OnVolume(g, [g.root])
  {
    var ch := [g.root];
    assert Chain(tab, ch) && g.root in ch;
  }

  /** The numbers of n clusters. */
  function Clusters(n: nat): (r: set<nat>)
    ensures |r| == n && forall c :: c in r <==> 2 <= c < 2 + n
  {
    if n == 0 then {} else Clusters(n - 1) + {1 + n}
  }

  lemma AllButRoot(g: Geometry, tab: seq<nat>)
    requires RootAlone(g, tab)
    ensures |FreeSet(tab)| + 1 == g.clusters
  {
    var all := Clusters(g.clusters);
    assert g.root in all && FreeSet(tab) == all - {g.root};
  }

  /** The root of a formatted volume is empty. */
  lemma FormattedRoot(w: Volume)
    requires Formatted(w)
    ensures OnVolume(w.g, [w.g.root]) && HasFit(w.g, w.d, [w.g.root], 2)
    ensures forall j :: 0 <= j < |DirSlots(w.g, w.d, [w.g.root])| ==> DirSlots(w.g, w.d, [w.g.root])[j][0] == 0
  {
    hide RootAlone, Mounted;
    var g, ch := w.g, [w.g.root];
    MountedBasics(g, |w.d|);
    FormattedForest(g, w.Tab());
    RootCounted(g);
    forall k | 0 <= k < g.spc ensures DirSector(g, w.d, ch, k) == ZeroSector() {
      DivIs(k, 0, k, g.spc);
      assert FileLba(g, ch, k) == RootSector(g, k);
    }
    ZeroSlots(0);
    assert Fit(SectorSlots(DirSector(g, w.d, ch, 0)), 0, 2);
    var slots := DirSlots(g, w.d, ch);
    forall j | 0 <= j < |slots| ensures slots[j][0] == 0 {
      SlotAt(g, w.d, ch, g.spc, j / 16, j % 16);
      ZeroSlots(j % 16);
    }
  }

  lemma RootCounted(g: Geometry)
    ensures SectorCount(g, [g.root]) == g.spc
  {
  }

  /** An empty directory has room for any name. */
  lemma EmptyHasRoom(slots: seq<Slot>, name: seq<byte>, c: nat)
    requires Plain(name) && forall j :: 0 <= j < |slots| ==> slots[j][0] == 0
    ensures RoomFor(slots, name, c, 0)
  {
    hide ListOf, ReadOf;
    ReadEnd(slots, 32);
    ReadEnd([], 31);
    ListEnd(slots, 64);
    ListEnd([], 63);
  }

  lemma FormattedStart(w: Volume)
    requires Formatted(w)
    ensures At(w, w.g.root, {[w.g.root]}, [w.g.root], [w.g.root], []) && Roomy(w, [w.g.root], 0) && FreeCount(w) + 1 == w.g.clusters
  {
    hide RootAlone, RoomFor, HasFit, DirSlots, Plain, Forest, Mounted, Table;
    var ch := [w.g.root];
    FormattedForest(w.g, w.Tab());
    FormattedRoot(w);
    AllButRoot(w.g, w.Tab());
    var slots := DirSlots(w.g, w.d, ch);
    forall name | Plain(name) ensures Accepts(w, ch, name, 0) {
      forall c | 2 <= c < |w.Tab()| && w.Tab()[c] == 0 ensures RoomFor(slots, name, c, 0) { EmptyHasRoom(slots, name, c); }
    }
    assert ch in {ch};
    assert Headed({ch}, w.g.root);
  }

  lemma Ready(w: Volume, dir: nat, chains: set<seq<nat>>, ch: seq<nat>, cs: seq<nat>, names: seq<seq<byte>>, m: nat, name: seq<byte>)
    requires At(w, dir, chains, ch, cs, names) && Roomy(w, ch, m) && Plain(name)
    ensures Accepts(w, ch, name, m) && HasFit(w.g, w.d, ch, 2)
  {
    hide At, Accepts;
  }

  /** Changing into the last directory of a route from the one before it works. */
  lemma Arrives(w: Volume, c: nat, chains: set<seq<nat>>, ch: seq<nat>, cs: seq<nat>, names: seq<seq<byte>>)
    requires At(w, c, chains, ch, cs, names) && names != []
    ensures w.Valid() && w.bad == {} && |cs| == |names| + 1 && c >= 2
    ensures var k := |names| - 1; w.Dir(cs[k]) && Resolve(w, cs[k], names[k]) == Some(c) && 0 !in names[k]
  {
    hide Forest, Heads, OnVolume, Resolve, Volume.Dir, Volume.Listing, Volume.Shorts, Mounted;
    var k := |names| - 1;
    assert Child(w, cs[k], names[k], cs[k + 1]);
    Descend(w, cs[k], names[k], c);
  }

  lemma Standing(w: Volume, dir: nat, chains: set<seq<nat>>, ch: seq<nat>, cs: seq<nat>, names: seq<seq<byte>>)
    requires At(w, dir, chains, ch, cs, names)
    ensures w.Valid() && w.bad == {} && |cs| == |names| + 1 && Route(w, cs, names) && cs[|names|] == dir
  {
    hide Forest, Heads, OnVolume, Child;
  }

  /** fat32_create_dir and fat32_change_dir in turns, from the root of a formatted volume on: a directory is made for
      each name as long as there are clusters, one inside the other, and they make up a route, so that all the path
      results hold of them. */
  method MakeRoute(v: FatVolume, names: seq<seq<byte>>) returns (made: nat, ghost cs: seq<nat>)
    requires v.Valid() && Formatted(AtRest(v)) && v.currentDir == v.g.root && forall i :: 0 <= i < |names| ==> Plain(names[i])
    modifies v`cachedFatSector, v`fatCache, v`nextFreeHint, v`currentDir, v.disk
    ensures v.Valid() && made <= |names| && made == Min(|names|, v.g.clusters - 1)
    ensures Route(AtRest(v), cs, names[..made]) && |cs| == made + 1 && v.currentDir == cs[made]
  {
    hide Formatted, At, Roomy, Route, Plain, FreeCount, HasFit, FatVolume.Coherent, Volume.Tab, Mounted;
    ghost var chains, ch, m := {[v.g.root]}, [v.g.root], 0;
    cs := ch;
    FormattedStart(AtRest(v));
    made := 0;
    assert names[..0] == [];
    while made < |names|
      invariant v.Valid() && made <= |names|
      invariant At(AtRest(v), v.currentDir, chains, ch, cs, names[..made]) && Roomy(AtRest(v), ch, m)
      invariant made + FreeCount(AtRest(v)) + 1 == v.g.clusters
    {
      Standing(AtRest(v), v.currentDir, chains, ch, cs, names[..made]);
      Ready(AtRest(v), v.currentDir, chains, ch, cs, names[..made], m, names[made]);
      var result, c;
      ghost var ch1;
      result, c, ch1 := MakeDirectory(v, names[made], chains, ch, cs, names[..made], m);
      if result != 0 { break; }
      chains, ch, cs, m := ChainsAfter(chains, ch, ch1, c), [c], cs + [c], 2;
      assert names[..made + 1] == names[..made] + [names[made]];
      made := made + 1;
      Arrives(AtRest(v), c, chains, ch, cs, names[..made]);
      result := ChangeDir(v, names[made - 1]);
    }
    Standing(AtRest(v), v.currentDir, chains, ch, cs, names[..made]);
  }
}
