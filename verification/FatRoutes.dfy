/** Creating a directory at the end of a route keeps the route and makes it longer. */
module FatRoutes {
  import opened Arithmetic
  import opened Options
  import opened FatLayout
  import opened FatTable
  import opened FatVolume
  import opened FatFile
  import opened FatDirectory
  import opened FatDirOps
  import opened FatPlace
  import opened FatReuse
  import opened FatCreate
  import opened FatPath
  import opened FatTree

  // ------------------------------------------------------ asking for fewer entries

  lemma {:induction false} ScanFewer(st: Listing, slots: seq<Slot>, a: nat, b: nat)
    requires st.Valid() && !st.done && |st.out| <= a <= b
    ensures Scan(st, slots, a).out <= Scan(st, slots, b).out
    ensures |Scan(st, slots, a).out| == Min(a, |Scan(st, slots, b).out|)
    decreases |slots|
  {
    if slots != [] {
      var x, y := Step(st, slots[0], a), Step(st, slots[0], b);
      if x == y && !x.done {
        ScanFewer(x, slots[1..], a, b);
      } else {
        ScanDone(x, slots[1..], a);
        OnlyGrows(y, slots[1..], b);
        if y.done { ScanDone(y, slots[1..], b); }
      }
    }
  }

  lemma {:induction false} OnlyGrows(st: Listing, slots: seq<Slot>, max: nat)
    requires st.Valid()
    ensures st.out <= Scan(st, slots, max).out
    decreases |slots|
  {
    if slots != [] { OnlyGrows(Step(st, slots[0], max), slots[1..], max); }
  }

  /** A listing of fewer entries is the beginning of a longer one. */
  lemma ListFewer(slots: seq<Slot>, a: nat, b: nat)
    requires a <= b
    ensures ListOf(slots, a) == ListOf(slots, b)[..Min(a, |ListOf(slots, b)|)]
  {
    ScanFewer(Start(), slots, a, b);
  }

  // ----------------------------------------------------------- routes do not turn back

  lemma ParentUnique(w: Volume, a: nat, m: seq<byte>, b: nat, n: seq<byte>, c: nat)
    requires w.Valid() && Child(w, a, m, c) && Child(w, b, n, c)
    ensures a == b
  {
    hide Volume.Dir, Volume.Listing, Volume.Shorts, Offers, NamesOnly, Mounted;
  }

  /** No directory comes twice on a route. */
  lemma {:induction false} RouteDistinct(w: Volume, cs: seq<nat>, names: seq<seq<byte>>, i: nat, j: nat)
    requires w.Valid() && Route(w, cs, names) && i < j <= |names|
    ensures cs[i] != cs[j]
  {
    hide Child, Mounted;
    assert Child(w, cs[j - 1], names[j - 1], cs[j - 1 + 1]);
    if i == 0 {
      ChildCluster(w, cs[j - 1], names[j - 1], cs[j]);
    } else {
      assert Child(w, cs[i - 1], names[i - 1], cs[i - 1 + 1]);
      RouteDistinct(w, cs, names, i - 1, j - 1);
      if cs[i] == cs[j] { ParentUnique(w, cs[i - 1], names[i - 1], cs[j - 1], names[j - 1], cs[i]); }
    }
  }

  // ------------------------------------------------------- directories that stay

  /** Nothing the path results look at in directory c has changed. */
  ghost predicate SameDir(w: Volume, w': Volume, c: nat)
    requires w.Valid() && w'.Valid()
  {
    && w.Dir(c) && w'.Dir(c) && w.Listing(c, 64) == w'.Listing(c, 64) && w.Listing(c, 2) == w'.Listing(c, 2)
    && w.Shorts(c) == w'.Shorts(c)
  }

  lemma ChildStays(w: Volume, w': Volume, p: nat, name: seq<byte>, c: nat)
    requires w.Valid() && w'.Valid() && w'.g == w.g && Child(w, p, name, c) && SameDir(w, w', p) && SameDir(w, w', c)
    ensures Child(w', p, name, c)
  {
    hide Volume.Dir, Volume.Listing, Volume.Shorts, Offers, NamesOnly, Mounted, IsDotDot;
  }

  /** Slots that say nothing new about the parent: each ".." among them was there before. */
  predicate NoOtherParent(more: seq<Slot>, shorts: seq<Slot>) {
    forall s :: s in more && IsDotDot(s) ==> s in shorts
  }

  /** A child that itself reads longer, without another parent, stays a child. */
  lemma ChildStaysGrown(w: Volume, w': Volume, p: nat, name: seq<byte>, c: nat, more: seq<Slot>)
    requires w.Valid() && w'.Valid() && w'.g == w.g && Child(w, p, name, c) && SameDir(w, w', p)
    requires w.Dir(c) && w'.Dir(c) && w'.Listing(c, 2) == w.Listing(c, 2)
    requires w'.Shorts(c) == w.Shorts(c) + more && NoOtherParent(more, w.Shorts(c))
    ensures Child(w', p, name, c)
  {
    hide Volume.Dir, Volume.Listing, Volume.Shorts, Offers, NamesOnly, Mounted, IsDotDot;
    var x :| x in w.Shorts(c) && IsDotDot(x);
    assert x in w'.Shorts(c);
  }

  /** A directory with the same chain and the same sectors. */
  lemma SameViews(w: Volume, w': Volume, a: seq<nat>)
    requires w.Valid() && w'.Valid() && w'.g == w.g && w'.bad == w.bad && |w'.d| == |w.d|
    requires Chain(w.Tab(), a) && Chain(w'.Tab(), a) && OnVolume(w.g, a)
    requires forall k: nat :: k < SectorCount(w.g, a) ==> DirSector(w.g, w'.d, a, k) == DirSector(w.g, w.d, a, k)
    ensures a != [] && SameDir(w, w', a[0])
  {
    DirChainIs(w.Tab(), a);
    DirChainIs(w'.Tab(), a);
    hide DirSector, Mounted, OnVolume, Chain, Volume.Tab, IsDir, SlotsTo, Scan, ReadStops, DirLba;
    forall n: nat | n <= SectorCount(w.g, a) ensures SlotsTo(w.g, w'.d, a, n) == SlotsTo(w.g, w.d, a, n) {
      SlotsSame(w.g, w.d, w'.d, a, n);
    }
    SameFails(w.g, w.d, w'.d, w.bad, a, 64);
    SameFails(w.g, w.d, w'.d, w.bad, a, 2);
    SameFails(w.g, w.d, w'.d, w.bad, a, 32);
  }

  lemma SameFails(g: Geometry, d: seq<Sector>, d': seq<Sector>, bad: set<nat>, ch: seq<nat>, max: nat)
    requires Mounted(g, |d|) && |d'| == |d| && OnVolume(g, ch)
    requires forall n: nat :: n <= SectorCount(g, ch) ==> SlotsTo(g, d', ch, n) == SlotsTo(g, d, ch, n)
    ensures ListFails(g, d', bad, ch, max) == ListFails(g, d, bad, ch, max)
    ensures ReadFails(g, d', bad, ch, max) == ReadFails(g, d, bad, ch, max)
    ensures DirSlots(g, d', ch) == DirSlots(g, d, ch)
  {
    hide Mounted, OnVolume, Scan, ReadStops, SlotsTo, DirLba;
    forall k: nat ensures ListFailsAt(g, d', bad, ch, max, k) == ListFailsAt(g, d, bad, ch, max, k) {}
    forall k: nat ensures ReadFailsAt(g, d', bad, ch, max, k) == ReadFailsAt(g, d, bad, ch, max, k) {}
  }

  /** What a creation in directory ch1 with new cluster c writes lies in no other directory. */
  lemma OtherDirKept(g: Geometry, d: seq<Sector>, d0: seq<Sector>, d1: seq<Sector>, d2: seq<Sector>, d': seq<Sector>,
                     ch: seq<nat>, ch1: seq<nat>, a: seq<nat>, bad: set<nat>, ents: seq<Slot>, c: nat, k: nat, e: nat, s: Sector,
                     tab: seq<nat>, chains: set<seq<nat>>, x: nat)
    requires Mounted(g, |d|) && SameData(g, d, d0) && ents != []
    requires Placed(g, d0, d1, d2, ch, ch1, bad, |ents|, Flat(ents), k, e)
    requires IsCluster(g, c) && FilledRange(d2, d', bad, s, ClusterLba(g, c), g.spc)
    requires |tab| == 2 + g.clusters && Forest(tab, chains) && ch1 in chains && [c] in chains && a in chains && a != ch1 && a != [c]
    requires OnVolume(g, a) && x < SectorCount(g, a)
    ensures |d'| == |d| && DirSector(g, d', a, x) == DirSector(g, d, a, x)
  {
    hide Placed, Forest, OnVolume, Mounted, ClusterLba, Flat, FileLba, InFile, Disjoint, Chain;
    MountedBasics(g, |d|);
    ForestChain(tab, chains, [c]);
    ForestChain(tab, chains, ch1);
    ChainOnVolume(g, tab, [c]);
    ChainOnVolume(g, tab, ch1);
    DivLess(x, |a|, g.spc);
    FileLbaBounds(g, |d|, a, x);
    ForestDisjoint(tab, chains);
    PlacedElsewhere(g, d0, d1, d2, ch, ch1, bad, ents, k, e);
    var l := FileLba(g, a, x);
    NotInOther(g, |d|, chains, ch1, a, x);
    NotInOther(g, |d|, chains, [c], a, x);
    ClusterInFile(g, c, l);
  }

  lemma ForestDisjoint(tab: seq<nat>, chains: set<seq<nat>>)
    requires Forest(tab, chains)
    ensures Disjoint(chains)
  {
  }

  lemma PlacedElsewhere(g: Geometry, d: seq<Sector>, d1: seq<Sector>, d': seq<Sector>, ch: seq<nat>, ch1: seq<nat>, bad: set<nat>,
                        ents: seq<Slot>, k: nat, e: nat)
    requires Placed(g, d, d1, d', ch, ch1, bad, |ents|, Flat(ents), k, e) && ents != []
    ensures 0 < g.spc && OnVolume(g, ch1) && |d'| == |d|
    ensures forall l :: g.dataStart <= l < |d| && !InFile(g, ch1, l) ==> d'[l] == d[l]
  {
    hide DirSector, SectorSlots, FileLba, PutAt, Flat, NoFitBefore, Fit, OnVolume;
    MountedBasics(g, |d|);
    InFileAt(g, ch1, k);
  }

  /** The sectors of a one-cluster chain are those of its cluster. */
  lemma ClusterInFile(g: Geometry, c: nat, l: nat)
    requires 0 < g.spc && IsCluster(g, c) && OnVolume(g, [c])
    ensures InFile(g, [c], l) <==> ClusterLba(g, c) <= l < ClusterLba(g, c) + g.spc
  {
    hide ClusterLba;
    if ClusterLba(g, c) <= l < ClusterLba(g, c) + g.spc {
      var k := l - ClusterLba(g, c);
      DivIs(k, 0, k, g.spc);
      InFileAt(g, [c], k);
    }
  }

  // -------------------------------------------------------------- a longer route

  /** Every directory of the route is the first cluster of a chain of its own. */
  ghost predicate Heads(chains: set<seq<nat>>, cs: seq<nat>) {
    forall i :: 0 <= i < |cs| ==> Headed(chains, cs[i])
  }

  ghost predicate Headed(chains: set<seq<nat>>, c: nat) { exists a :: a in chains && a != [] && a[0] == c }

  /** The state in which fat32_create_dir leaves the disk after it succeeded, as its contract has it: d before, d0
      with the new cluster's table entry, d1 with the parent grown if it had to, d2 with the entries in place. */
  ghost predicate DirMade(g: Geometry, d: seq<Sector>, d0: seq<Sector>, d1: seq<Sector>, d2: seq<Sector>, d': seq<Sector>,
                          ch: seq<nat>, ch1: seq<nat>, bad: set<nat>, name: seq<byte>, c: nat, k: nat, e: nat) {
    && IsCluster(g, c) && c < ENTRY_MASK && ch1 != [] && ch1[0] < ENTRY_MASK && c !in ch1 && SameData(g, d, d0)
    && Placed(g, d0, d1, d2, ch, ch1, bad, PartCount(name) + 1, Flat(Entries(name, 0x10, c)), k, e)
    && FilledRange(d2, d', bad, DotSector(c, ch1[0]), ClusterLba(g, c), g.spc)
  }

  /** The chains afterwards. */
  ghost function ChainsAfter(chains: set<seq<nat>>, ch: seq<nat>, ch1: seq<nat>, c: nat): set<seq<nat>> {
    chains + {[c]} - {ch} + {ch1}
  }

  /** Every directory but the parent shows what it showed. */
  lemma OthersSame(g: Geometry, d: seq<Sector>, d0: seq<Sector>, d1: seq<Sector>, d2: seq<Sector>, d': seq<Sector>,
                   ch: seq<nat>, ch1: seq<nat>, bad: set<nat>, name: seq<byte>, c: nat, k: nat, e: nat, chains: set<seq<nat>>, x: nat)
    requires Mounted(g, |d|) && Mounted(g, |d'|) && DirMade(g, d, d0, d1, d2, d', ch, ch1, bad, name, c, k, e)
    requires Forest(Table(g, d, 0), chains) && Forest(Table(g, d', 0), ChainsAfter(chains, ch, ch1, c))
    requires Headed(chains, x) && ch != [] && x != ch[0] && x != c && ch1[0] == ch[0]
    ensures |d'| == |d| && SameDir(Volume(g, d, bad), Volume(g, d', bad), x)
  {
    hide Placed, FilledRange, Forest, Table, Mounted, Chain, SameData, ClusterLba, DotSector, Entries, Flat, DirSector, SectorCount, SameDir, OnVolume;
    var a :| a in chains && a != [] && a[0] == x;
    var after := ChainsAfter(chains, ch, ch1, c);
    assert a in after && ch1 in after && [c] in after;
    MountedBasics(g, |d|);
    SomeCopy(g, |d|);
    ForestChain(Table(g, d, 0), chains, a);
    ForestChain(Table(g, d', 0), after, a);
    ChainOnVolume(g, Table(g, d, 0), a);
    var ents := Entries(name, 0x10, c);
    SameLength(g, d, d0, d1, d2, d', ch, ch1, bad, name, c, k, e);
    forall i: nat | i < SectorCount(g, a) ensures DirSector(g, d', a, i) == DirSector(g, d, a, i) {
      OtherDirKept(g, d, d0, d1, d2, d', ch, ch1, a, bad, ents, c, k, e, DotSector(c, ch1[0]), Table(g, d', 0), after, i);
    }
    SameViews(Volume(g, d, bad), Volume(g, d', bad), a);
  }

  lemma SameLength(g: Geometry, d: seq<Sector>, d0: seq<Sector>, d1: seq<Sector>, d2: seq<Sector>, d': seq<Sector>,
                   ch: seq<nat>, ch1: seq<nat>, bad: set<nat>, name: seq<byte>, c: nat, k: nat, e: nat)
    requires DirMade(g, d, d0, d1, d2, d', ch, ch1, bad, name, c, k, e)
    ensures |d'| == |d|
  {
    hide DirSector, SectorSlots, FileLba, PutAt, Flat, NoFitBefore, Fit, OnVolume, Mounted, DotSector, Entries;
  }

  /** What is asked of the parent's slots: m of them used and none deleted, room in the sector of the end mark, room
      in what the listings ask for, and nothing of that name or cluster, nor another parent, also in what comes to
      light when the new slots fill that sector. */
  ghost predicate RoomFor(slots: seq<Slot>, name: seq<byte>, c: nat, m: nat) {
    && Tidy(slots, m) && m % 16 + 2 <= 16 && Plain(name) && Unused(slots, m, name, c)
    && NoOtherParent(MoreRead(slots, m, |ReadOf(slots, 32)|), ReadOf(slots, 32))
  }

  /** The parent afterwards: more short slots, but no other parent among them, and the same first two entries. */
  lemma ParentGrown(g: Geometry, d: seq<Sector>, d0: seq<Sector>, d1: seq<Sector>, d2: seq<Sector>, d': seq<Sector>,
                    ch: seq<nat>, ch1: seq<nat>, bad: set<nat>, name: seq<byte>, c: nat, k: nat, e: nat, m: nat) returns (more: seq<Slot>)
    requires Mounted(g, |d|) && Mounted(g, |d'|) && DirMade(g, d, d0, d1, d2, d', ch, ch1, bad, name, c, k, e)
    requires OnVolume(g, [c]) && Sound(g, [c], bad) && OnVolume(g, ch1) && Sound(g, ch1, bad)
    requires OnVolume(g, ch) && Sound(g, ch, bad) && RoomFor(DirSlots(g, d, ch), name, c, m)
    requires Chain(Table(g, d, 0), ch) && Chain(Table(g, d', 0), ch1) && ch != [] && ch1[0] == ch[0]
    ensures var w, w', p := Volume(g, d, bad), Volume(g, d', bad), ch[0];
      && w.Dir(p) && w'.Dir(p) && w'.Shorts(p) == w.Shorts(p) + more && NoOtherParent(more, w.Shorts(p))
      && (w.Listing(p, 2).Some? && |w.Listing(p, 2).value| == 2 ==> w'.Listing(p, 2) == w.Listing(p, 2))
  {
    hide Placed, FilledRange, Forest, Table, Mounted, Chain, SameData, ClusterLba, DotSector, Entries, Flat, DirSlots, SectorCount, OnVolume, Sound,
      Tidy, Plain, Listed, MoreListed, MoreRead, IsDotDot, ListOf, ReadOf, ShortForm, ShortSlot, ListFails, ReadFails, Volume.Listing, Volume.Shorts, IsDir;
    ParentShows(g, d, d0, d1, d2, d', ch, ch1, bad, name, c, k, e, m);
    var w, w' := Volume(g, d, bad), Volume(g, d', bad);
    Shown(w, ch, 2);
    Shown(w', ch1, 2);
    var slots, s := DirSlots(g, d, ch), ShortSlot(ShortForm(name), 0x10, c);
    more := [s] + MoreRead(slots, m, |ReadOf(slots, 32)|);
    PlainNotDotDot(name, c);
    ListFewer(DirSlots(g, d, ch), 2, 64);
    ListFewer(DirSlots(g, d', ch1), 2, 64);
    var l := ListOf(slots, 64);
    if |l| >= 2 { assert (l + [Found(name, 0x10, c, 0)] + MoreListed(slots, m, |l|))[..2] == l[..2]; }
  }

  lemma PlainNotDotDot(name: seq<byte>, c: nat)
    requires Plain(name) && c < ENTRY_MASK
    ensures !IsDotDot(ShortSlot(ShortForm(name), 0x10, c))
  {
    hide ShortForm, ShortSlot;
    PlainForm(name);
    var s := ShortSlot(ShortForm(name), 0x10, c);
    ShortSlotFields(ShortForm(name), 0x10, c);
    assert s[0] == s[..11][0] == ShortForm(name)[..8][0];
    assert Padded(name, 8)[0] == name[0];
  }

  /** A free cluster heads no chain. */
  lemma NotHead(tab: seq<nat>, chains: set<seq<nat>>, cs: seq<nat>, c: nat, i: nat)
    requires Forest(tab, chains) && Heads(chains, cs) && c < |tab| && tab[c] == 0 && i < |cs|
    ensures cs[i] != c
  {
    hide Chain, Forest;
    assert Headed(chains, cs[i]);
    var a :| a in chains && a != [] && a[0] == cs[i];
    ForestChain(tab, chains, a);
    assert a[0] in a;
    MemberUsed(tab, a, a[0]);
  }

  lemma HeadsAfter(chains: set<seq<nat>>, ch: seq<nat>, ch1: seq<nat>, c: nat, cs: seq<nat>)
    requires Heads(chains, cs) && ch != [] && ch1 != [] && ch1[0] == ch[0]
    ensures Heads(ChainsAfter(chains, ch, ch1, c), cs + [c])
  {
    var after := ChainsAfter(chains, ch, ch1, c);
    forall i | 0 <= i < |cs + [c]| ensures Headed(after, (cs + [c])[i]) {
      if i == |cs| {
        if [c] == ch { assert ch1 in after; } else { assert [c] in after; }
      } else {
        assert Headed(chains, cs[i]);
        var a :| a in chains && a != [] && a[0] == cs[i];
        if a == ch { assert ch1 in after; } else { assert a in after; }
      }
    }
  }

  /** An earlier directory of the route stays the parent of the next one. */
  lemma EarlierStays(g: Geometry, d: seq<Sector>, d0: seq<Sector>, d1: seq<Sector>, d2: seq<Sector>, d': seq<Sector>,
                     ch: seq<nat>, ch1: seq<nat>, bad: set<nat>, name: seq<byte>, c: nat, k: nat, e: nat, m: nat,
                     chains: set<seq<nat>>, cs: seq<nat>, names: seq<seq<byte>>, i: nat)
    requires Mounted(g, |d|) && Mounted(g, |d'|) && DirMade(g, d, d0, d1, d2, d', ch, ch1, bad, name, c, k, e)
    requires OnVolume(g, ch) && OnVolume(g, ch1) && OnVolume(g, [c]) && Sound(g, ch, bad) && Sound(g, ch1, bad) && Sound(g, [c], bad)
    requires RoomFor(DirSlots(g, d, ch), name, c, m)
    requires Forest(Table(g, d, 0), chains) && Forest(Table(g, d', 0), ChainsAfter(chains, ch, ch1, c))
    requires ch in chains && ch != [] && ch1 != [] && ch1[0] == ch[0] && c < |Table(g, d, 0)| && Table(g, d, 0)[c] == 0
    requires Route(Volume(g, d, bad), cs, names) && Heads(chains, cs) && cs[|names|] == ch[0] && i < |names|
    ensures Child(Volume(g, d', bad), cs[i], names[i], cs[i + 1])
  {
    hide DirMade, RoomFor, Forest, Table, Mounted, Sound, Child, SameDir, OnVolume, Chain, Volume.Dir, Volume.Listing, Volume.Shorts, IsDotDot;
    SomeCopy(g, |d|);
    var w, w', tab := Volume(g, d, bad), Volume(g, d', bad), Table(g, d, 0);
    assert Child(w, cs[i], names[i], cs[i + 1]);
    RouteDistinct(w, cs, names, i, |names|);
    NotHead(tab, chains, cs, c, i);
    assert Headed(chains, cs[i]);
    OthersSame(g, d, d0, d1, d2, d', ch, ch1, bad, name, c, k, e, chains, cs[i]);
    if i + 1 == |names| {
      ForestChain(tab, chains, ch);
      ForestChain(Table(g, d', 0), ChainsAfter(chains, ch, ch1, c), ch1);
      var more := ParentGrown(g, d, d0, d1, d2, d', ch, ch1, bad, name, c, k, e, m);
      ChildSecond(w, cs[i], names[i], cs[i + 1]);
      ChildStaysGrown(w, w', cs[i], names[i], cs[i + 1], more);
    } else {
      RouteDistinct(w, cs, names, i + 1, |names|);
      NotHead(tab, chains, cs, c, i + 1);
      assert Headed(chains, cs[i + 1]);
      OthersSame(g, d, d0, d1, d2, d', ch, ch1, bad, name, c, k, e, chains, cs[i + 1]);
      ChildStays(w, w', cs[i], names[i], cs[i + 1]);
    }
  }

  lemma ChildSecond(w: Volume, p: nat, name: seq<byte>, c: nat)
    requires w.Valid() && Child(w, p, name, c)
    ensures w.Dir(c) && w.Listing(c, 2).Some? && |w.Listing(c, 2).value| == 2
  {
    hide Volume.Dir, Volume.Listing, Volume.Shorts, Offers, NamesOnly, Mounted;
  }

  /** And the new directory is a child of the last one. */
  lemma LastAdded(g: Geometry, d: seq<Sector>, d0: seq<Sector>, d1: seq<Sector>, d2: seq<Sector>, d': seq<Sector>,
                  ch: seq<nat>, ch1: seq<nat>, bad: set<nat>, name: seq<byte>, c: nat, k: nat, e: nat, m: nat, chains: set<seq<nat>>)
    requires Mounted(g, |d|) && Mounted(g, |d'|) && DirMade(g, d, d0, d1, d2, d', ch, ch1, bad, name, c, k, e)
    requires OnVolume(g, ch) && OnVolume(g, [c]) && OnVolume(g, ch1) && Sound(g, ch1, bad) && Sound(g, [c], bad)
    requires RoomFor(DirSlots(g, d, ch), name, c, m)
    requires Forest(Table(g, d', 0), ChainsAfter(chains, ch, ch1, c)) && ch != [] && ch1 != []
    requires ch1[0] == ch[0] && c != g.root
    ensures Child(Volume(g, d', bad), ch[0], name, c)
  {
    hide Placed, FilledRange, Forest, Table, Mounted, Sound, Child, OnVolume, Chain, Tidy, Plain, Unused, DirSlots, Entries, Flat, DotSector, SameData,
      ClusterLba;
    SomeCopy(g, |d'|);
    var after := ChainsAfter(chains, ch, ch1, c);
    assert ch1 in after && [c] in after;
    ForestChain(Table(g, d', 0), after, ch1);
    ForestChain(Table(g, d', 0), after, [c]);
    CreatedChild(g, d, d0, d1, d2, d', ch, ch1, bad, name, c, k, e, m);
  }

  /** fat32_create_dir in the last directory of a route keeps the route and adds the new directory to it. */
  lemma RouteGrows(g: Geometry, d: seq<Sector>, d0: seq<Sector>, d1: seq<Sector>, d2: seq<Sector>, d': seq<Sector>,
                   ch: seq<nat>, ch1: seq<nat>, bad: set<nat>, name: seq<byte>, c: nat, k: nat, e: nat, m: nat,
                   chains: set<seq<nat>>, cs: seq<nat>, names: seq<seq<byte>>)
    requires Mounted(g, |d|) && Mounted(g, |d'|) && DirMade(g, d, d0, d1, d2, d', ch, ch1, bad, name, c, k, e)
    requires OnVolume(g, ch) && OnVolume(g, ch1) && OnVolume(g, [c]) && Sound(g, ch, bad) && Sound(g, ch1, bad) && Sound(g, [c], bad)
    requires RoomFor(DirSlots(g, d, ch), name, c, m)
    requires Forest(Table(g, d, 0), chains) && Forest(Table(g, d', 0), ChainsAfter(chains, ch, ch1, c))
    requires ch in chains && ch != [] && ch1 != [] && ch1[0] == ch[0] && c < |Table(g, d, 0)| && Table(g, d, 0)[c] == 0
    requires Route(Volume(g, d, bad), cs, names) && Heads(chains, cs) && cs[|names|] == ch[0]
    ensures Route(Volume(g, d', bad), cs + [c], names + [name])
    ensures Heads(ChainsAfter(chains, ch, ch1, c), cs + [c])
  {
    hide DirMade, RoomFor, Forest, Table, Mounted, Sound, Child, OnVolume;
    SomeCopy(g, |d|);
    var w', tab := Volume(g, d', bad), Table(g, d, 0);
    NotHead(tab, chains, cs, c, 0);
    NotHead(tab, chains, cs, c, |names|);
    forall i | 0 <= i < |names| ensures Child(w', cs[i], names[i], cs[i + 1]) {
      EarlierStays(g, d, d0, d1, d2, d', ch, ch1, bad, name, c, k, e, m, chains, cs, names, i);
    }
    LastAdded(g, d, d0, d1, d2, d', ch, ch1, bad, name, c, k, e, m, chains);
    HeadsAfter(chains, ch, ch1, c, cs);
  }

  /** The parent has room for the name whichever free cluster the new directory gets. */
  ghost predicate RoomForAny(tab: seq<nat>, slots: seq<Slot>, name: seq<byte>, m: nat) {
    forall c :: 2 <= c < |tab| && tab[c] == 0 ==> RoomFor(slots, name, c, m)
  }

  // ------------------------------------------------- a new directory has room

  lemma DotsHaveRoom(s: seq<Slot>, c: nat, parent: nat, name: seq<byte>, x: nat)
    requires c < ENTRY_MASK && parent < ENTRY_MASK && DotsAt(s, c, parent) && Plain(name) && x != c && x != parent
    ensures RoomFor(s, name, x, 2)
  {
    hide ShortSlot, ListOf, ReadOf, Tidy, DotSlot;
    NewDirTidy(s, c, parent);
    ListDots(s, c, parent, 64);
    ReadDots(s, c, parent, 32);
    assert Uncovered(s, 2, 2) == [];
    ReadEnd([], 29);
    ListEnd([], 61);
    DotNotPlain(name);
  }

  lemma DotNotPlain(name: seq<byte>)
    requires Plain(name)
    ensures !SameName([46], name) && !SameName([46, 46], name)
  {
    Differ([46], name, 0);
    Differ([46, 46], name, 0);
  }

  /** A directory just created has room for any name, and a fit for its two slots. */
  lemma NewDirRoom(g: Geometry, d: seq<Sector>, d': seq<Sector>, c: nat, parent: nat, tab: seq<nat>)
    requires Mounted(g, |d'|) && IsCluster(g, c) && c < ENTRY_MASK && parent < ENTRY_MASK
    requires FilledRange(d, d', {}, DotSector(c, parent), ClusterLba(g, c), g.spc) && OnVolume(g, [c])
    requires c < |tab| && tab[c] != 0 && parent < |tab| && tab[parent] != 0
    ensures HasFit(g, d', [c], 2)
    ensures forall name :: Plain(name) ==> RoomForAny(tab, DirSlots(g, d', [c]), name, 2)
  {
    hide ClusterLba, Mounted, DotSector, RoomFor, DirSector, DotSlot, DirSlots, Plain;
    MountedBasics(g, |d|);
    AllSound(g, [c]);
    DotSlots(c, parent);
    FirstDirSector(g, d, d', {}, c, DotSector(c, parent));
    assert Fit(SectorSlots(DotSector(c, parent)), 2, 2);
    NewDirSlot(g, d, d', {}, c, parent, 0, 0);
    NewDirSlot(g, d, d', {}, c, parent, 0, 1);
    NewDirSlot(g, d, d', {}, c, parent, 0, 2);
    var slots := DirSlots(g, d', [c]);
    forall name, x | Plain(name) && 2 <= x < |tab| && tab[x] == 0 ensures RoomFor(slots, name, x, 2) {
      DotsHaveRoom(slots, c, parent, name, x);
    }
  }

  lemma FreeCounted(g: Geometry, tab: seq<nat>)
    requires |tab| == 2 + g.clusters
    ensures HasFree(g, tab) <==> |FreeSet(tab)| != 0
  {
    if c :| IsCluster(g, c) && tab[c] == 0 { assert c in FreeSet(tab); }
    if |FreeSet(tab)| != 0 {
      var c :| c in FreeSet(tab);
      assert IsCluster(g, c);
    }
  }

  /** The counter of free clusters after a creation in a directory with a fit. */
  lemma OneTaken(g: Geometry, tab: seq<nat>, tab': seq<nat>, c: nat, ch: seq<nat>)
    requires |tab| == 2 + g.clusters && IsCluster(g, c) && tab[c] == 0 && Took(g, tab[c := LAST], tab', ch[|ch|..])
    ensures |FreeSet(tab')| + 1 == |FreeSet(tab)|
  {
    assert c in FreeSet(tab);
    assert FreeSet(tab') == FreeSet(tab) - {c};
  }

  /** The current directory is the last of a route, and heads the chain ch of a forest. */
  ghost predicate At(w: Volume, dir: nat, chains: set<seq<nat>>, ch: seq<nat>, cs: seq<nat>, names: seq<seq<byte>>) {
    && w.Valid() && w.bad == {} && Forest(w.Tab(), chains) && ch in chains && ch != [] && ch[0] == dir && OnVolume(w.g, ch)
    && Route(w, cs, names) && Heads(chains, cs) && cs[|names|] == dir
  }

  /** Directory ch, with m used slots, has room for the name. */
  ghost predicate Accepts(w: Volume, ch: seq<nat>, name: seq<byte>, m: nat) {
    w.Valid() && OnVolume(w.g, ch) && RoomForAny(w.Tab(), DirSlots(w.g, w.d, ch), name, m)
  }

  lemma NextAt(w: Volume, chains: set<seq<nat>>, ch: seq<nat>, ch1: seq<nat>, c: nat, cs: seq<nat>, names: seq<seq<byte>>)
    requires w.Valid() && w.bad == {} && Forest(w.Tab(), ChainsAfter(chains, ch, ch1, c)) && OnVolume(w.g, [c])
    requires ch != [] && ch <= ch1 && c !in ch1 && Route(w, cs, names) && cs[|names|] == c && Heads(ChainsAfter(chains, ch, ch1, c), cs)
    ensures At(w, c, ChainsAfter(chains, ch, ch1, c), [c], cs, names)
  {
    hide Forest, OnVolume, Child;
    assert ch1[0] == ch[0] && [c] != ch;
  }

  /** It has room for any name, and a fit for two slots. */
  ghost predicate Roomy(w: Volume, ch: seq<nat>, m: nat) {
    HasFit(w.g, w.d, ch, 2) && forall name :: Plain(name) ==> Accepts(w, ch, name, m)
  }

  /** Once cluster c is taken there is still room for two slots in the directory. */
  ghost predicate RoomBeside(w: Volume, c: nat, ch: seq<nat>) {
    w.Valid() && 0 < c < |w.Tab()| && Room(w.g, w.Tab()[c := LAST], w.d, ch, 2)
  }

  ghost function FreeCount(w: Volume): nat
    requires w.Valid()
  {
    |FreeSet(w.Tab())|
  }

  /** fat32_create_dir in the last directory of a route, on a volume whose sectors all transfer: the route gets longer,
      and the new directory has room for the next one. It fails only when no cluster is left; where the parent has a
      fit it succeeds exactly if one is free, and takes one. */
  method MakeDirectory(v: FatVolume, name: seq<byte>, ghost chains: set<seq<nat>>, ghost ch: seq<nat>, ghost cs: seq<nat>,
                       ghost names: seq<seq<byte>>, ghost m: nat)
    returns (result: int, c: nat, ghost ch1: seq<nat>)
    requires v.Valid() && At(AtRest(v), v.currentDir, chains, ch, cs, names) && Plain(name)
    requires Accepts(AtRest(v), ch, name, m)
    modifies v`cachedFatSector, v`fatCache, v`nextFreeHint, v.disk
    ensures v.Valid() && (result == 0 || result == -1)
    ensures result == 0 <==> RoomBeside(old(AtRest(v)), c, ch)
    ensures result == 0 ==> At(AtRest(v), c, ChainsAfter(chains, ch, ch1, c), [c], cs + [c], names + [name])
    ensures result == 0 ==> Roomy(AtRest(v), [c], 2)
    ensures result == -1 ==> FreeCount(AtRest(v)) == 0
    ensures old(FreeCount(AtRest(v))) == 0 ==> v.disk[..] == old(v.disk[..])
    ensures HasFit(v.g, old(v.disk[..]), ch, 2) ==>
      if result == 0 then FreeCount(AtRest(v)) + 1 == old(FreeCount(AtRest(v))) else old(FreeCount(AtRest(v))) == 0
  {
    hide Placed, Extended, Blocked, Forest, Table, RoomFor, Flat, Entries, FilledRange, DotSector, SameData, Route, Plain, OnVolume, Heads,
      FatVolume.Coherent, FatVolume.InSync, InFile, Mounted, DirSlots, HasFit, Took, FreeSet;
    ghost var g, d, tab := v.g, v.disk[..], v.Fat();
    SomeCopy(g, |d|);
    MountedBasics(g, |d|);
    PlainForm(name);
    FreeCounted(g, tab);
    ghost var d0, d1, d2, k, e;
    result, c, d0, d1, d2, ch1, k, e := CreateDir(v, name, chains, ch);
    FreeCounted(g, v.Fat());
    if result == 0 {
      assert RoomFor(DirSlots(g, d, ch), name, c, m);
      ghost var after := ChainsAfter(chains, ch, ch1, c);
      ChainsVolume(g, v.disk[..], after, ch1, c);
      AllSound(g, ch);
      AllSound(g, ch1);
      AllSound(g, [c]);
      RouteGrows(g, d, d0, d1, d2, v.disk[..], ch, ch1, {}, name, c, k, e, m, chains, cs, names);
      DirCluster(v.Fat(), after, ch1);
      DirCluster(v.Fat(), after, [c]);
      NewDirRoom(g, d2, v.disk[..], c, ch[0], v.Fat());
      RouteLength(AtRest(v), cs + [c], names + [name]);
      NextAt(AtRest(v), chains, ch, ch1, c, cs + [c], names + [name]);
      if HasFit(g, d, ch, 2) {
        FitSame(g, d, d0, ch, 2);
        NotGrown(g, d0, d1, d2, ch, ch1, {}, 2, Flat(Entries(name, 0x10, c)), k, e);
        OneTaken(g, tab, v.Fat(), c, ch);
      }
    }
  }

  lemma RouteLength(w: Volume, cs: seq<nat>, names: seq<seq<byte>>)
    requires w.Valid() && Route(w, cs, names)
    ensures |cs| == |names| + 1
  {
  }

  lemma FitSame(g: Geometry, d: seq<Sector>, d': seq<Sector>, ch: seq<nat>, n: nat)
    requires Mounted(g, |d|) && SameData(g, d, d') && HasFit(g, d, ch, n) && n <= 16
    ensures HasFit(g, d', ch, n)
  {
    hide HasFit;
    RoomSame(g, [], d, d', ch, n);
  }

  lemma ChainsVolume(g: Geometry, d: seq<Sector>, chains: set<seq<nat>>, ch: seq<nat>, c: nat)
    requires Mounted(g, |d|) && 0 < g.fatCount && Forest(Table(g, d, 0), chains) && ch in chains && (c !in ch ==> [c] in chains)
    ensures OnVolume(g, ch) && (c !in ch ==> OnVolume(g, [c]))
  {
    hide Forest, Table, OnVolume, Chain;
    ForestChain(Table(g, d, 0), chains, ch);
    ChainOnVolume(g, Table(g, d, 0), ch);
    if c !in ch {
      ForestChain(Table(g, d, 0), chains, [c]);
      ChainOnVolume(g, Table(g, d, 0), [c]);
    }
  }
}
