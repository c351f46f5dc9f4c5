/** The FAT as a table: chains of clusters, the forest they form, and the search for a free entry. */
module FatTable {
  import opened Arithmetic
  import opened FatLayout

  ghost predicate InTable(tab: seq<nat>, c: int) { 2 <= c < |tab| }

  /** ch lists the clusters of one chain: each entry names the next cluster, the last one ends the chain. */
  ghost predicate Chain(tab: seq<nat>, ch: seq<nat>) {
    && ch != []
    && (forall i :: 0 <= i < |ch| ==> InTable(tab, ch[i]))
    && (forall i, j {:trigger ch[i], ch[j]} :: 0 <= i && j == i + 1 && j < |ch| ==> tab[ch[i]] == ch[j])
    && tab[ch[|ch| - 1]] >= END
  }

  /** Following the entries from cluster to cluster, up to one of 0x0FFFFFF8 or more. */
  lemma ChainFollows(tab: seq<nat>, ch: seq<nat>, i: nat)
    requires Chain(tab, ch) && i < |ch|
    ensures 2 <= ch[i] < |tab| && if i + 1 < |ch| then tab[ch[i]] == ch[i + 1] else tab[ch[i]] >= 0x0FFF_FFF8
  {
    if i + 1 < |ch| { assert tab[ch[i]] == ch[i + 1]; }
  }

  lemma ChainStart(tab: seq<nat>, ch: seq<nat>)
    requires Chain(tab, ch)
    ensures ch != []
  {
  }

  lemma ChainStep(tab: seq<nat>, ch: seq<nat>, i: nat)
    requires Chain(tab, ch) && |tab| <= END && i < |ch|
    ensures InTable(tab, ch[i]) && (tab[ch[i]] >= END <==> i == |ch| - 1)
    ensures i + 1 < |ch| ==> tab[ch[i]] == ch[i + 1]
  {
    if i + 1 < |ch| { assert tab[ch[i]] == ch[i + 1]; }
  }

  /** Two chains that meet are the same from there on. */
  lemma {:induction false} ChainsMerge(tab: seq<nat>, a: seq<nat>, b: seq<nat>, i: nat, j: nat)
    requires Chain(tab, a) && Chain(tab, b) && |tab| <= END
    requires i < |a| && j < |b| && a[i] == b[j]
    ensures |a| - i == |b| - j && a[i..] == b[j..]
    decreases |a| - i
  {
    ChainStep(tab, a, i);
    ChainStep(tab, b, j);
    if i + 1 < |a| { ChainsMerge(tab, a, b, i + 1, j + 1); }
    assert a[i..] == [a[i]] + a[i + 1..] && b[j..] == [b[j]] + b[j + 1..];
  }

  /** A chain never comes back to a cluster. */
  lemma ChainDistinct(tab: seq<nat>, ch: seq<nat>, i: nat, j: nat)
    requires Chain(tab, ch) && |tab| <= END && i < |ch| && j < |ch| && ch[i] == ch[j]
    ensures i == j
  {
    ChainsMerge(tab, ch, ch, i, j);
  }

  // -------------------------------------------------------------------- forest

  ghost predicate AllChains(tab: seq<nat>, chains: set<seq<nat>>) {
    forall ch :: ch in chains ==> Chain(tab, ch)
  }

  ghost predicate Disjoint(chains: set<seq<nat>>) {
    forall a, b, c :: a in chains && b in chains && c in a && c in b ==> a == b
  }

  ghost predicate OnSome(chains: set<seq<nat>>, c: nat) {
    exists ch :: ch in chains && c in ch
  }

  predicate InUse(tab: seq<nat>, c: nat)
    requires c < |tab|
  {
    tab[c] != 0 && tab[c] != BAD
  }

  ghost predicate Covered(tab: seq<nat>, chains: set<seq<nat>>) {
    forall c: nat :: InTable(tab, c) && InUse(tab, c) ==> OnSome(chains, c)
  }

  /** The chains are pairwise disjoint, and every used entry belongs to one of them. */
  ghost predicate Forest(tab: seq<nat>, chains: set<seq<nat>>) {
    |tab| <= BAD && AllChains(tab, chains) && Disjoint(chains) && Covered(tab, chains)
  }

  /** Members of chains are in use. */
  lemma MemberUsed(tab: seq<nat>, ch: seq<nat>, c: nat)
    requires Chain(tab, ch) && c in ch && |tab| <= BAD
    ensures InTable(tab, c) && InUse(tab, c)
  {
    var i :| 0 <= i < |ch| && ch[i] == c;
    ChainStep(tab, ch, i);
  }

  lemma ChainFrame(tab: seq<nat>, tab': seq<nat>, ch: seq<nat>)
    requires Chain(tab, ch) && |tab'| == |tab| && forall c :: c in ch && InTable(tab, c) ==> tab'[c] == tab[c]
    ensures Chain(tab', ch)
  {
    forall i, j {:trigger ch[i], ch[j]} | 0 <= i && j == i + 1 && j < |ch| ensures tab'[ch[i]] == ch[j] {
      assert ch[i] in ch;
    }
    assert ch[|ch| - 1] in ch;
  }

  /** A free cluster becomes a chain of its own. */
  lemma NewChain(tab: seq<nat>, chains: set<seq<nat>>, c: nat)
    requires Forest(tab, chains) && InTable(tab, c) && tab[c] == 0
    ensures Forest(tab[c := LAST], chains + {[c]})
    ensures [c] !in chains
  {
    var tab' := tab[c := LAST];
    var chains' := chains + {[c]};
    forall ch | ch in chains ensures Chain(tab', ch) && c !in ch {
      if c in ch { MemberUsed(tab, ch, c); }
      ChainFrame(tab, tab', ch);
    }
    assert c in [c] && [c] in chains';
    assert Disjoint(chains') by { hide Chain; }
    forall x: nat | InTable(tab', x) && InUse(tab', x) ensures OnSome(chains', x) {
      if x != c {
        assert OnSome(chains, x);
        var ch :| ch in chains && x in ch;
        assert ch in chains';
      }
    }
  }

  lemma GrownChain(tab: seq<nat>, ch: seq<nat>, c: nat)
    requires Chain(tab, ch) && |tab| <= BAD && InTable(tab, c) && tab[c] == 0
    ensures c !in ch && Chain(tab[ch[|ch| - 1] := c][c := LAST], ch + [c])
  {
    var last := ch[|ch| - 1];
    var tab' := tab[last := c][c := LAST];
    if c in ch { MemberUsed(tab, ch, c); }
    var g := ch + [c];
    forall i, j {:trigger g[i], g[j]} | 0 <= i && j == i + 1 && j < |g| ensures tab'[g[i]] == g[j] {
      if j < |ch| {
        ChainStep(tab, ch, i);
        ChainStep(tab, ch, |ch| - 1);
        assert g[i] == ch[i] && g[j] == ch[j] && ch[i] in ch;
      }
    }
  }

  /** A free cluster is linked to the end of one chain: that chain grows by it and nothing else changes. */
  lemma GrowChain(tab: seq<nat>, chains: set<seq<nat>>, ch: seq<nat>, c: nat)
    requires Forest(tab, chains) && ch in chains && InTable(tab, c) && tab[c] == 0
    ensures Forest(tab[ch[|ch| - 1] := c][c := LAST], chains - {ch} + {ch + [c]})
    ensures c !in ch
  {
    var last := ch[|ch| - 1];
    var tab' := tab[last := c][c := LAST];
    GrownChain(tab, ch, c);
    assert last in ch;
    forall o | o in chains && o != ch ensures Chain(tab', o) && c !in o {
      if c in o { MemberUsed(tab, o, c); }
      ChainFrame(tab, tab', o);
    }
    GrownDisjoint(chains, ch, c);
    GrownCovers(tab, tab', chains, ch, c);
  }

  lemma GrownCovers(tab: seq<nat>, tab': seq<nat>, chains: set<seq<nat>>, ch: seq<nat>, c: nat)
    requires Covered(tab, chains) && ch in chains && |tab'| == |tab|
    requires forall x :: 0 <= x < |tab| && x != c && x !in ch ==> tab'[x] == tab[x]
    ensures Covered(tab', chains - {ch} + {ch + [c]})
  {
    var chains' := chains - {ch} + {ch + [c]};
    var grown := ch + [c];
    assert grown in chains';
    forall x: nat | InTable(tab', x) && InUse(tab', x) ensures OnSome(chains', x) {
      if x == c || x in ch {
        assert x in grown;
      } else {
        assert InUse(tab, x) && OnSome(chains, x);
        var o :| o in chains && x in o;
        assert o in chains';
      }
    }
  }

  lemma GrownDisjoint(chains: set<seq<nat>>, ch: seq<nat>, c: nat)
    requires ch in chains && Disjoint(chains) && forall o :: o in chains && o != ch ==> c !in o
    ensures Disjoint(chains - {ch} + {ch + [c]})
  {
    var g := ch + [c];
    assert forall x :: x in g <==> x in ch || x == c;
  }

  // ------------------------------------------------------------ cyclic search

  /** The k-th cluster looked at when the search starts at the hint. */
  function Probe(n: nat, hint: nat, k: nat): (c: nat)
    requires 0 < n && 2 <= hint
    ensures 2 <= c < 2 + n
  {
    2 + (hint - 2 + k) % n
  }

  /** The search goes upwards one cluster at a time, from the hint on, and round to cluster 2 behind the last. */
  lemma ProbeNext(n: nat, hint: nat, k: nat)
    requires 0 < n && 2 <= hint
    ensures hint < 2 + n ==> Probe(n, hint, 0) == hint
    ensures Probe(n, hint, k + 1) == if Probe(n, hint, k) + 1 < 2 + n then Probe(n, hint, k) + 1 else 2
  {
    var x := hint - 2 + k;
    Successor(x, n);
    assert hint - 2 + (k + 1) == x + 1;
    if hint < 2 + n { DivIs(hint - 2, 0, hint - 2, n); }
  }

  /** n probes visit every cluster exactly once. */
  lemma ProbeVisits(n: nat, hint: nat, c: nat) returns (k: nat)
    requires 0 < n && 2 <= hint && 2 <= c < 2 + n
    ensures k < n && Probe(n, hint, k) == c
    ensures forall j :: 0 <= j < n && Probe(n, hint, j) == c ==> j == k
  {
    hide Probe;
    var a := (hint - 2) % n;
    k := if c - 2 >= a then c - 2 - a else c - 2 - a + n;
    ProbeIs(n, hint, k);
    forall j | 0 <= j < n && Probe(n, hint, j) == c ensures j == k { ProbeIs(n, hint, j); }
  }

  lemma ProbeIs(n: nat, hint: nat, k: nat)
    requires k < n && 2 <= hint
    ensures var a := (hint - 2) % n; a < n && Probe(n, hint, k) == if a + k < n then 2 + a + k else 2 + a + k - n
  {
    ModWrap(hint - 2, k, n);
    DivIs(k, 0, k, n);
  }
}
