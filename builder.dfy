/**
 * What one step of insertion does to the graph, as functions of the graph
 * before the step: find_next_state (FindNext), add_new_state (AddState),
 * get_next_state (NextState) and the walk insert performs (Walk). The
 * methods of Automaton.Dfa are proved equal to these.
 */
module Builder {
  import opened Options
  import opened Graphemes
  import opened Graphs

  /**
   * find_next_state's test on the j-th neighbour: the label has the grapheme's
   * display value and a maximum equal to the grapheme's or one below it.
   */
  predicate Reusable(adj: seq<Edge>, j: nat, g: Grapheme)
    requires j < |adj|
  {
    var seen := NeighbourLabel(adj, j);
    seen.value == g.value && (seen.maximum == g.maximum - 1 || seen.maximum == g.maximum)
  }

  /** The first neighbour position at or after `from` that passes the test. */
  function FirstReusable(adj: seq<Edge>, g: Grapheme, from: nat): (r: Option<nat>)
    ensures r.Some? ==> from <= r.value < |adj| && Reusable(adj, r.value, g)
    ensures r.Some? ==> forall j :: from <= j < r.value ==> !Reusable(adj, j, g)
    ensures r.None? ==> forall j :: from <= j < |adj| ==> !Reusable(adj, j, g)
    decreases |adj| - from
  {
    if from >= |adj| then None
    else if Reusable(adj, from, g) then Some(from)
    else FirstReusable(adj, g, from + 1)
  }

  /**
   * find_next_state: the graph afterwards and the state reached, if an
   * existing edge of `cur` can be followed for `g`.
   */
  function FindNext(gr: Graph, cur: nat, g: Grapheme): (r: (Graph, Option<nat>))
    requires cur < |gr|
    ensures r.1.None? ==> r.0 == gr
    ensures r.1.None? ==> forall j :: 0 <= j < |gr[cur]| ==> !Reusable(gr[cur], j, g)
    ensures r.1.Some? ==>
      exists k :: 0 <= k < |gr[cur]| && gr[cur][k].target == r.1.value &&
        gr[cur][k].grapheme.value == g.value &&
        ((gr[cur][k].grapheme.maximum == g.maximum && r.0 == gr) ||
         (gr[cur][k].grapheme.maximum == g.maximum - 1 &&
          r.0 == gr[cur := gr[cur][k := Edge(Widen(gr[cur][k].grapheme, g), r.1.value)]]))
  {
    var adj := gr[cur];
    match FirstReusable(adj, g, 0)
    case None => (gr, None)
    case Some(j) =>
      var k := FindEdge(adj, adj[j].target).value;
      var seen := adj[k].grapheme;
      if seen.maximum == g.maximum - 1 then
        (gr[cur := adj[k := Edge(Widen(seen, g), adj[k].target)]], Some(adj[k].target))
      else
        (gr, Some(adj[k].target))
  }

  /**
   * add_new_state: a brand-new state, joined to `cur` by one new edge
   * carrying `g`; nothing else changes.
   */
  function AddState(gr: Graph, cur: nat, g: Grapheme): (r: (Graph, nat))
    requires cur < |gr|
    ensures r.1 == |gr| && |r.0| == |gr| + 1 && r.0[r.1] == []
    ensures r.0[cur] == gr[cur] + [Edge(g, r.1)]
    ensures forall s :: 0 <= s < |gr| && s != cur ==> r.0[s] == gr[s]
    ensures EdgeCount(r.0) == EdgeCount(gr) + 1
  {
    var adj := gr[cur] + [Edge(g, |gr|)];
    EdgeCountUpdate(gr, cur, adj);
    assert (gr[cur := adj] + [[]])[..|gr|] == gr[cur := adj];
    (gr[cur := adj] + [[]], |gr|)
  }

  /** Following a reusable edge keeps the graph well formed and reaches one of its states. */
  lemma FindNextWellFormed(gr: Graph, cur: nat, g: Grapheme)
    requires WellFormed(gr) && cur < |gr|
    ensures var r := FindNext(gr, cur, g);
      WellFormed(r.0) && |r.0| == |gr| && (r.1.Some? ==> r.1.value < |gr|)
  {
    var r := FindNext(gr, cur, g);
    if r.1.Some? {
      var k :| 0 <= k < |gr[cur]| && gr[cur][k].target == r.1.value &&
        gr[cur][k].grapheme.value == g.value &&
        ((gr[cur][k].grapheme.maximum == g.maximum && r.0 == gr) ||
         (gr[cur][k].grapheme.maximum == g.maximum - 1 &&
          r.0 == gr[cur := gr[cur][k := Edge(Widen(gr[cur][k].grapheme, g), r.1.value)]]));
    }
  }

  /**
   * get_next_state: follow a reusable edge if there is one (no state is
   * added), otherwise add one state and one edge. Either way the number of
   * edges minus the number of states is kept.
   */
  function NextState(gr: Graph, cur: nat, g: Grapheme): (r: (Graph, nat))
    requires WellFormed(gr) && cur < |gr|
    ensures WellFormed(r.0) && r.1 < |r.0|
  {
    FindNextWellFormed(gr, cur, g);
    var (after, next) := FindNext(gr, cur, g);
    match next
    case Some(t) => (after, t)
    case None => AddState(gr, cur, g)
  }

  /**
   * get_next_state adds at most one state: when none is added the state
   * reached is an existing successor of `cur` and no adjacency list changes
   * length; otherwise the new state has no out-edges and `cur` gains one
   * edge to it carrying `g`. Either way the number of edges minus the
   * number of states is kept.
   */
  lemma NextStateEffect(gr: Graph, cur: nat, g: Grapheme)
    requires WellFormed(gr) && cur < |gr|
    ensures var r := NextState(gr, cur, g);
      |r.0| == |gr| ==> exists j :: 0 <= j < |gr[cur]| && gr[cur][j].target == r.1
    ensures var r := NextState(gr, cur, g);
      |r.0| == |gr| ==> forall s :: 0 <= s < |gr| ==> |r.0[s]| == |gr[s]|
    ensures var r := NextState(gr, cur, g);
      |r.0| != |gr| ==>
        |r.0| == |gr| + 1 && r.1 == |gr| && r.0[r.1] == [] && r.0[cur] == gr[cur] + [Edge(g, r.1)]
    ensures var r := NextState(gr, cur, g);
      EdgeCount(r.0) + |gr| == EdgeCount(gr) + |r.0|
  {
    var (after, next) := FindNext(gr, cur, g);
    if next.Some? {
      var t := next.value;
      var k :| 0 <= k < |gr[cur]| && gr[cur][k].target == t && gr[cur][k].grapheme.value == g.value &&
        ((gr[cur][k].grapheme.maximum == g.maximum && after == gr) ||
         (gr[cur][k].grapheme.maximum == g.maximum - 1 &&
          after == gr[cur := gr[cur][k := Edge(Widen(gr[cur][k].grapheme, g), t)]]));
      EdgeCountUpdate(gr, cur, gr[cur][k := Edge(Widen(gr[cur][k].grapheme, g), t)]);
    }
  }

  /**
   * The walk `insert` performs for a cluster from state `cur`: the graph
   * afterwards and the state reached at the end, one get_next_state per
   * grapheme in order.
   */
  function Walk(gr: Graph, cur: nat, cluster: seq<Grapheme>): (r: (Graph, nat))
    requires WellFormed(gr) && cur < |gr|
    ensures WellFormed(r.0) && r.1 < |r.0|
    decreases |cluster|
  {
    if cluster == [] then (gr, cur)
    else
      var n := |cluster| - 1;
      var (before, at) := Walk(gr, cur, cluster[..n]);
      NextState(before, at, cluster[n])
  }

  /**
   * A walk adds at most one state per grapheme and keeps the number of edges
   * minus the number of states.
   */
  lemma {:induction false} WalkGrowth(gr: Graph, cur: nat, cluster: seq<Grapheme>)
    requires WellFormed(gr) && cur < |gr|
    ensures var r := Walk(gr, cur, cluster);
      |gr| <= |r.0| <= |gr| + |cluster| && EdgeCount(r.0) + |gr| == EdgeCount(gr) + |r.0|
    decreases |cluster|
  {
    if cluster != [] {
      var n := |cluster| - 1;
      var (before, at) := Walk(gr, cur, cluster[..n]);
      WalkGrowth(gr, cur, cluster[..n]);
      NextStateEffect(before, at, cluster[n]);
    }
  }

  /**
   * The graph and final states after inserting clusters in order into a
   * fresh automaton (one state, initial and not final): each insert walks
   * its cluster from state 0 and makes the state reached final. Every final
   * state is a state of the graph.
   */
  ghost function Inserted(clusters: seq<seq<Grapheme>>): (r: (Graph, set<nat>))
    ensures WellFormed(r.0) && 0 < |r.0| && r.1 <= States(|r.0|)
    decreases |clusters|
  {
    if clusters == [] then ([[]], {})
    else
      var n := |clusters| - 1;
      var (g, finals) := Inserted(clusters[..n]);
      var (h, s) := Walk(g, 0, clusters[n]);
      WalkGrowth(g, 0, clusters[n]);
      (h, finals + {s})
  }

  /**
   * A walk from a state without out-edges adds one state per grapheme and
   * ends in a state without out-edges.
   */
  lemma {:induction false} WalkFromLeaf(gr: Graph, cur: nat, cluster: seq<Grapheme>)
    requires WellFormed(gr) && cur < |gr| && gr[cur] == []
    ensures var r := Walk(gr, cur, cluster);
      |r.0| == |gr| + |cluster| && r.0[r.1] == []
    decreases |cluster|
  {
    if cluster != [] {
      var n := |cluster| - 1;
      var (before, at) := Walk(gr, cur, cluster[..n]);
      WalkFromLeaf(gr, cur, cluster[..n]);
      NextFromLeaf(before, at, cluster[n]);
    }
  }

  /** From a state without out-edges the step always adds a state. */
  lemma NextFromLeaf(gr: Graph, cur: nat, g: Grapheme)
    requires WellFormed(gr) && cur < |gr| && gr[cur] == []
    ensures NextState(gr, cur, g) == (gr[cur := [Edge(g, |gr|)]] + [[]], |gr|)
  {
    assert FirstReusable(gr[cur], g, 0) == None;
    assert FindNext(gr, cur, g) == (gr, None);
    assert NextState(gr, cur, g) == AddState(gr, cur, g);
    assert gr[cur] + [Edge(g, |gr|)] == [Edge(g, |gr|)];
  }

  /** Inserting n graphemes into a fresh automaton gives n + 1 states and n edges. */
  lemma InsertIntoFresh(cluster: seq<Grapheme>)
    ensures |Walk([[]], 0, cluster).0| == |cluster| + 1
    ensures EdgeCount(Walk([[]], 0, cluster).0) == |cluster|
  {
    var empty: Graph := [[]];
    assert EdgeCount(empty) == 0;
    WalkFromLeaf(empty, 0, cluster);
    WalkGrowth(empty, 0, cluster);
  }

  /** A walk over a longer cluster is one more step after the walk over its prefix. */
  lemma WalkSnoc(gr: Graph, cur: nat, cluster: seq<Grapheme>, g: Grapheme)
    requires WellFormed(gr) && cur < |gr|
    ensures var r := Walk(gr, cur, cluster);
      Walk(gr, cur, cluster + [g]) == NextState(r.0, r.1, g)
  {
    assert (cluster + [g])[..|cluster|] == cluster;
  }

  /** One walk step from a state without out-edges, given the walk over the prefix. */
  lemma WalkLeafStep(gr: Graph, cur: nat, cluster: seq<Grapheme>, g: Grapheme, h: Graph, s: nat)
    requires WellFormed(gr) && cur < |gr|
    requires Walk(gr, cur, cluster) == (h, s) && s < |h| && h[s] == []
    ensures Walk(gr, cur, cluster + [g]) == (h[s := [Edge(g, |h|)]] + [[]], |h|)
  {
    WalkSnoc(gr, cur, cluster, g);
    NextFromLeaf(h, s, g);
  }

  /**
   * g is the chain a cluster makes in a fresh automaton: state i has one
   * edge, labelled with the i-th grapheme, to state i + 1, and the last
   * state has none.
   */
  predicate IsChain(g: Graph, cluster: seq<Grapheme>) {
    |g| == |cluster| + 1 && g[|cluster|] == [] &&
    forall i :: 0 <= i < |cluster| ==> g[i] == [Edge(cluster[i], i + 1)]
  }

  /** Hanging one more edge and an empty state on the end of a chain gives the chain of the longer cluster. */
  lemma ChainSnoc(h: Graph, cluster: seq<Grapheme>, g: Grapheme)
    requires IsChain(h, cluster)
    ensures IsChain(h[|cluster| := [Edge(g, |cluster| + 1)]] + [[]], cluster + [g])
  {
    var n := |cluster|;
    var next := h[n := [Edge(g, n + 1)]] + [[]];
    forall i | 0 <= i < n + 1 ensures next[i] == [Edge((cluster + [g])[i], i + 1)] {
      if i < n {
        assert (cluster + [g])[i] == cluster[i] && next[i] == h[i];
      }
    }
  }

  /** Inserting a cluster into a fresh automaton builds its chain and ends in the last state. */
  lemma {:induction false} FreshWalk(cluster: seq<Grapheme>)
    ensures IsChain(Walk([[]], 0, cluster).0, cluster) && Walk([[]], 0, cluster).1 == |cluster|
    decreases |cluster|
  {
    if cluster != [] {
      var n := |cluster| - 1;
      var init := cluster[..n];
      var (h, s) := Walk([[]], 0, init);
      assert IsChain(h, init) && s == n by {
        FreshWalk(init);
      }
      assert Walk([[]], 0, cluster) == (h[s := [Edge(cluster[n], |h|)]] + [[]], |h|) by {
        assert init + [cluster[n]] == cluster;
        WalkLeafStep([[]], 0, init, cluster[n], h, s);
      }
      assert init + [cluster[n]] == cluster;
      ChainSnoc(h, init, cluster[n]);
    }
  }

  /**
   * From state s, g is read along an existing edge to t without change: the
   * first reusable neighbour leads to t and its label has g's maximum.
   */
  predicate Follows(gr: Graph, s: nat, g: Grapheme, t: nat)
    requires s < |gr|
  {
    match FirstReusable(gr[s], g, 0)
    case None => false
    case Some(j) => NeighbourLabel(gr[s], j).maximum == g.maximum && gr[s][j].target == t
  }

  /** Reading g along such an edge reaches t and leaves the graph as it was. */
  lemma FollowStep(gr: Graph, s: nat, g: Grapheme, t: nat)
    requires WellFormed(gr) && s < |gr| && Follows(gr, s, g, t)
    ensures NextState(gr, s, g) == (gr, t)
  {
    var j := FirstReusable(gr[s], g, 0).value;
    var k := FindEdge(gr[s], gr[s][j].target).value;
    assert gr[s][k].target == t;
  }

  /**
   * Trie-style reuse: when every grapheme of the cluster can be read along an
   * existing edge of the path, the walk follows the path, ends in its last
   * state and leaves the graph unchanged.
   */
  lemma {:induction false} WalkAlongPath(gr: Graph, cluster: seq<Grapheme>, path: seq<nat>)
    requires WellFormed(gr) && |path| == |cluster| + 1 && path[0] < |gr|
    requires forall i :: 0 <= i < |cluster| ==> path[i] < |gr| && Follows(gr, path[i], cluster[i], path[i + 1])
    ensures Walk(gr, path[0], cluster) == (gr, path[|cluster|])
    decreases |cluster|
  {
    if cluster != [] {
      var n := |cluster| - 1;
      assert cluster[..n] + [cluster[n]] == cluster;
      WalkAlongPath(gr, cluster[..n], path[..n + 1]);
      WalkSnoc(gr, path[0], cluster[..n], cluster[n]);
      FollowStep(gr, path[n], cluster[n], path[n + 1]);
    }
  }

  /** Following, from state 0, the two edges of a chain whose labels are a and b reuses them. */
  lemma ReusePrefix(gr: Graph, a: Grapheme, b: Grapheme)
    requires WellFormed(gr) && |gr| > 2 && gr[0] == [Edge(a, 1)] && gr[1] == [Edge(b, 2)]
    ensures Walk(gr, 0, [a, b]) == (gr, 2)
  {
    assert FirstReusable(gr[0], a, 0) == Some(0);
    assert FirstReusable(gr[1], b, 0) == Some(0);
    WalkAlongPath(gr, [a, b], [0, 1, 2]);
  }

  /**
   * After a shared prefix that ends in state 2, whose only edge carries a
   * grapheme with another display value than x, the rest of the cluster
   * [x, d] adds two states and two edges.
   */
  lemma Diverge(gr: Graph, prefix: seq<Grapheme>, c: Grapheme, x: Grapheme, d: Grapheme)
    requires WellFormed(gr) && |gr| > 3 && gr[2] == [Edge(c, 3)] && c.value != x.value
    requires Walk(gr, 0, prefix) == (gr, 2)
    ensures var r := Walk(gr, 0, prefix + [x, d]).0;
      |r| == |gr| + 2 && EdgeCount(r) == EdgeCount(gr) + 2
  {
    assert prefix + [x] + [d] == prefix + [x, d];
    var (h, s) := NextState(gr, 2, x);
    assert s == |gr| && |h| == |gr| + 1 && h[s] == [] by {
      assert !Reusable(gr[2], 0, x);
      assert FirstReusable(gr[2], x, 0) == None;
      NextStateEffect(gr, 2, x);
    }
    WalkSnoc(gr, 0, prefix, x);
    WalkLeafStep(gr, 0, prefix + [x], d, h, s);
    WalkGrowth(gr, 0, prefix + [x, d]);
  }

  /**
   * Two clusters that share their first two graphemes and differ in the
   * display value of the third: the second insertion reuses the two edges
   * of the common prefix and adds two states, so the automaton goes from
   * 5 states and 4 edges to 7 states and 6 edges.
   */
  lemma InsertDivergingPair(a: Grapheme, b: Grapheme, c: Grapheme, d: Grapheme, x: Grapheme)
    requires c.value != x.value
    ensures var first := Walk([[]], 0, [a, b, c, d]).0;
      |first| == 5 && EdgeCount(first) == 4 &&
      var second := Walk(first, 0, [a, b, x, d]).0;
      |second| == 7 && EdgeCount(second) == 6
  {
    var first := Walk([[]], 0, [a, b, c, d]).0;
    assert |first| == 5 && EdgeCount(first) == 4 by {
      InsertIntoFresh([a, b, c, d]);
    }
    assert first[0] == [Edge(a, 1)] && first[1] == [Edge(b, 2)] && first[2] == [Edge(c, 3)] by {
      FreshWalk([a, b, c, d]);
    }
    assert Walk(first, 0, [a, b]) == (first, 2) by {
      ReusePrefix(first, a, b);
    }
    assert [a, b] + [x, d] == [a, b, x, d];
    Diverge(first, [a, b], c, x, d);
  }

  /** The chain four graphemes make in a fresh automaton. */
  lemma FreshChainOfFour(a: Grapheme, b: Grapheme, c: Grapheme, d: Grapheme)
    ensures Walk([[]], 0, [a, b, c, d]).0 == [[Edge(a, 1)], [Edge(b, 2)], [Edge(c, 3)], [Edge(d, 4)], []]
    ensures Walk([[]], 0, [a, b, c, d]).1 == 4
  {
    FreshWalk([a, b, c, d]);
  }

  /**
   * The graph the two clusters of InsertDivergingPair build: the chain of
   * the first, and a branch from state 2 for the second's last two graphemes.
   * The first ends in state 4 and the second in state 6.
   */
  lemma DivergingPairGraph(a: Grapheme, b: Grapheme, c: Grapheme, d: Grapheme, x: Grapheme)
    requires c.value != x.value
    ensures Walk([[]], 0, [a, b, c, d]).1 == 4
    ensures var first := Walk([[]], 0, [a, b, c, d]).0;
      Walk(first, 0, [a, b, x, d]) ==
        ([[Edge(a, 1)], [Edge(b, 2)], [Edge(c, 3), Edge(x, 5)], [Edge(d, 4)], [], [Edge(d, 6)], []], 6)
  {
    var first: Graph := [[Edge(a, 1)], [Edge(b, 2)], [Edge(c, 3)], [Edge(d, 4)], []];
    var h: Graph := [[Edge(a, 1)], [Edge(b, 2)], [Edge(c, 3), Edge(x, 5)], [Edge(d, 4)], [], []];
    assert [a, b] + [x] == [a, b, x] && [a, b, x] + [d] == [a, b, x, d];
    assert first[2] + [Edge(x, 5)] == [Edge(c, 3), Edge(x, 5)];
    assert first[2 := first[2] + [Edge(x, 5)]] + [[]] == h;
    assert h[5 := [Edge(d, 6)]] + [[]] ==
      [[Edge(a, 1)], [Edge(b, 2)], [Edge(c, 3), Edge(x, 5)], [Edge(d, 4)], [], [Edge(d, 6)], []];
    FreshChainOfFour(a, b, c, d);
    ReusePrefix(first, a, b);
    assert NextState(first, 2, x) == (h, 5) by {
      assert !Reusable(first[2], 0, x);
      assert FirstReusable(first[2], x, 0) == None;
    }
    WalkSnoc(first, 0, [a, b], x);
    WalkLeafStep(first, 0, [a, b, x], d, h, 5);
  }

  /** The graphemes of a cluster's first k + 1 positions: those of its first k and the next one. */
  lemma GraphemesSnoc(cluster: seq<Grapheme>, k: nat)
    requires k < |cluster|
    ensures (set i | 0 <= i < k + 1 :: cluster[i]) == (set i | 0 <= i < k :: cluster[i]) + {cluster[k]}
  {
    var before, after := set i | 0 <= i < k :: cluster[i], set i | 0 <= i < k + 1 :: cluster[i];
    forall g | g in after ensures g in before + {cluster[k]} {
      var i :| 0 <= i < k + 1 && cluster[i] == g;
    }
  }

  /** The one-code-point grapheme of a character. */
  function Char(c: char): (g: Grapheme) {
    Grapheme([c], c as int, c as int)
  }

  /** "abcd" then "abxd": 5 states and 4 edges, then 7 states and 6 edges. */
  lemma InsertAbcdThenAbxd()
    ensures var first := Walk([[]], 0, [Char('a'), Char('b'), Char('c'), Char('d')]).0;
      |first| == 5 && EdgeCount(first) == 4 &&
      var second := Walk(first, 0, [Char('a'), Char('b'), Char('x'), Char('d')]).0;
      |second| == 7 && EdgeCount(second) == 6
  {
    InsertDivergingPair(Char('a'), Char('b'), Char('c'), Char('d'), Char('x'));
  }
}
