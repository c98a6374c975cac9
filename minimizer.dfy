/**
 * The pure parts of minimization: the initial partition, the preimage a
 * splitter class has for one grapheme (get_parent_states), and the edge the
 * rebuild copies for one old edge.
 */
module Minimizer {
  import opened Options
  import opened Graphemes
  import opened Graphs
  import opened Partitions
  import Builder

  /**
   * get_initial_partition: two classes, the non-final states first and the
   * final states second, together exactly the states of the graph.
   */
  function InitialPartition(n: nat, finals: set<nat>): (p: seq<set<nat>>)
    ensures |p| == 2 && IsPartition(p, States(n))
    ensures p[0] !! finals && p[1] <= finals
  {
    var all := States(n);
    var p := [all - finals, all * finals];
    UnionSnoc([], all - finals);
    UnionSnoc([all - finals], all * finals);
    assert [all - finals] == [] + [all - finals] && p == [all - finals] + [all * finals];
    p
  }

  /**
   * The approximate "same symbol" test of the preimage: same display value
   * and a shared maximum or a shared minimum.
   */
  predicate LabelMatches(edgeLabel: Grapheme, s: Grapheme) {
    edgeLabel.value == s.value && (edgeLabel.maximum == s.maximum || edgeLabel.minimum == s.minimum)
  }

  /** The edge p has towards q, as find_edge returns it, exists and matches s. */
  predicate ParentEdgeMatches(g: Graph, p: nat, q: nat, s: Grapheme)
    requires p < |g|
  {
    match FindEdge(g[p], q)
    case None => false
    case Some(k) => LabelMatches(g[p][k].grapheme, s)
  }

  /**
   * The parent get_parent_states records for q: the first state, counting up
   * from `from`, whose edge to q matches s (the scan stops there).
   */
  function ParentOf(g: Graph, q: nat, s: Grapheme, from: nat): (r: Option<nat>)
    ensures r.Some? ==> from <= r.value < |g| && ParentEdgeMatches(g, r.value, q, s)
    ensures r.Some? ==> forall p :: from <= p < r.value ==> !ParentEdgeMatches(g, p, q, s)
    ensures r.None? ==> forall p :: from <= p < |g| ==> !ParentEdgeMatches(g, p, q, s)
    decreases |g| - from
  {
    if from >= |g| then None
    else if ParentEdgeMatches(g, from, q, s) then Some(from)
    else ParentOf(g, q, s, from + 1)
  }

  /**
   * get_parent_states: the preimage X of the class a for s. Every member of
   * X has a matching edge into a, and every state of a that has a matching
   * parent contributes one.
   */
  function ParentStates(g: Graph, a: set<nat>, s: Grapheme): (x: set<nat>)
    ensures forall p :: p in x ==> p < |g| && exists q :: q in a && ParentEdgeMatches(g, p, q, s)
    ensures forall q :: q in a && (exists p :: 0 <= p < |g| && ParentEdgeMatches(g, p, q, s)) ==>
      exists p :: p in x && ParentEdgeMatches(g, p, q, s)
  {
    set q | q in a && ParentOf(g, q, s, 0).Some? :: ParentOf(g, q, s, 0).value
  }

  /** Each state of a contributes at most one parent, so |X| <= |A|. */
  lemma {:induction false} ParentStatesBound(g: Graph, a: set<nat>, s: Grapheme)
    ensures |ParentStates(g, a, s)| <= |a|
    decreases a
  {
    if a != {} {
      var q :| q in a;
      ParentStatesBound(g, a - {q}, s);
      var parent := ParentOf(g, q, s, 0);
      var rest := ParentStates(g, a - {q}, s);
      var added := if parent.Some? then {parent.value} else {};
      assert ParentStates(g, a, s) == rest + added;
    }
  }

  /** One step of the refinement loop of minimize: the worklist class taken as splitter and the grapheme. */
  datatype Splitter = Splitter(block: set<nat>, symbol: Grapheme)

  /**
   * xs are the preimages a run of the refinement loop over g refines init
   * by, in order, and sp the splitters they come from: the i-th preimage is
   * that of a class of one of the partitions reached before the i-th
   * refinement, for a grapheme of the alphabet.
   */
  ghost predicate SplitterTrace(g: Graph, alphabet: set<Grapheme>, init: seq<set<nat>>, xs: seq<set<nat>>, sp: seq<Splitter>) {
    |xs| == |sp| &&
    forall i :: 0 <= i < |sp| ==>
      sp[i].symbol in alphabet && xs[i] == ParentStates(g, sp[i].block, sp[i].symbol) && Reached(init, xs[..i], sp[i].block)
  }

  /** A trace grows by one more preimage and the splitter it comes from. */
  lemma TraceSnoc(g: Graph, alphabet: set<Grapheme>, init: seq<set<nat>>, xs: seq<set<nat>>, x: set<nat>,
                  sp: seq<Splitter>, s: Splitter)
    requires SplitterTrace(g, alphabet, init, xs, sp)
    requires s.symbol in alphabet && x == ParentStates(g, s.block, s.symbol) && Reached(init, xs, s.block)
    ensures SplitterTrace(g, alphabet, init, xs + [x], sp + [s])
  {
    var ys, tp := xs + [x], sp + [s];
    forall i | 0 <= i < |tp|
      ensures tp[i].symbol in alphabet && ys[i] == ParentStates(g, tp[i].block, tp[i].symbol)
      ensures Reached(init, ys[..i], tp[i].block)
    {
      assert ys[..i] == xs[..i];
    }
  }

  /** order lists the graphemes of s, each once: its last entry is in s and the rest lists the others. */
  ghost predicate Enumerates(order: seq<Grapheme>, s: set<Grapheme>)
    decreases |order|
  {
    if order == [] then s == {}
    else
      var n := |order| - 1;
      order[n] in s && Enumerates(order[..n], s - {order[n]})
  }

  /** An enumeration holds exactly the graphemes of the set, each once. */
  lemma {:induction false} EnumeratesMembers(order: seq<Grapheme>, s: set<Grapheme>)
    requires Enumerates(order, s)
    ensures forall c :: c in order <==> c in s
    ensures forall i, j :: 0 <= i < j < |order| ==> order[i] != order[j]
    ensures |order| == |s|
    decreases |order|
  {
    if order != [] {
      var n := |order| - 1;
      var rest, c := order[..n], order[n];
      EnumeratesMembers(rest, s - {c});
      assert order == rest + [c];
      forall i, j | 0 <= i < j < |order| ensures order[i] != order[j] {
        assert order[i] == rest[i] && rest[i] in rest;
      }
    }
  }

  /** Listing one more grapheme, not listed yet, enumerates one more. */
  lemma EnumeratesSnoc(order: seq<Grapheme>, s: set<Grapheme>, c: Grapheme)
    requires Enumerates(order, s) && c !in s
    ensures Enumerates(order + [c], s + {c})
  {
    assert (order + [c])[..|order|] == order;
    assert (s + {c}) - {c} == s;
  }

  /** One more round over an enumeration of s keeps every round an enumeration of s. */
  lemma EnumeratesEach(orders: seq<seq<Grapheme>>, order: seq<Grapheme>, s: set<Grapheme>)
    requires forall t :: 0 <= t < |orders| ==> Enumerates(orders[t], s)
    requires Enumerates(order, s)
    ensures forall t :: 0 <= t < |orders + [order]| ==> Enumerates((orders + [order])[t], s)
  {
    forall t | 0 <= t < |orders + [order]| ensures Enumerates((orders + [order])[t], s) {
      if t < |orders| { assert (orders + [order])[t] == orders[t]; }
    }
  }

  /** Moving c from the graphemes still to do to those done keeps the two apart and their union whole. */
  lemma TakeGrapheme(alphabet: set<Grapheme>, done: set<Grapheme>, todo: set<Grapheme>, c: Grapheme)
    requires c in todo && done !! todo && done + todo == alphabet
    ensures done + {c} !! todo - {c} && (done + {c}) + (todo - {c}) == alphabet
  {
  }

  /**
   * One round of the refinement loop for the class a taken from the
   * worklist: for each grapheme of order in turn, the pass for the preimage
   * of a and the worklist update for the splits it made.
   */
  function RoundSteps(g: Graph, a: set<nat>, order: seq<Grapheme>, p: seq<set<nat>>, w: seq<set<nat>>): (r: (seq<set<nat>>, seq<set<nat>>))
    ensures Union(r.0) == Union(p) && (Disjoint(p) ==> Disjoint(r.0))
    ensures |r.1| >= |w|
  {
    if order == [] then (p, w)
    else
      var n := |order| - 1;
      var (q, v) := RoundSteps(g, a, order[..n], p, w);
      var x := ParentStates(g, a, order[n]);
      (Refine(q, x), PushAll(v, Replacements(q, x)))
  }

  /**
   * The refinement loop from partition p and worklist w: one round per
   * entry of orders, each for the class at the head of the worklist, taken
   * off it, and the graphemes in that entry's order; rounds past an empty
   * worklist change nothing.
   */
  function Run(g: Graph, orders: seq<seq<Grapheme>>, p: seq<set<nat>>, w: seq<set<nat>>): (r: (seq<set<nat>>, seq<set<nat>>))
    ensures Union(r.0) == Union(p) && (Disjoint(p) ==> Disjoint(r.0))
  {
    if orders == [] then (p, w)
    else
      var n := |orders| - 1;
      var (q, v) := Run(g, orders[..n], p, w);
      if v == [] then (q, v) else RoundSteps(g, v[0], orders[n], q, v[1..])
  }

  /** A round grows by the pass and the worklist update for one more grapheme. */
  lemma RoundStepsSnoc(g: Graph, a: set<nat>, order: seq<Grapheme>, c: Grapheme, p: seq<set<nat>>, w: seq<set<nat>>)
    ensures RoundSteps(g, a, order + [c], p, w) ==
      var (q, v) := RoundSteps(g, a, order, p, w);
      var x := ParentStates(g, a, c);
      (Refine(q, x), PushAll(v, Replacements(q, x)))
  {
    assert (order + [c])[..|order|] == order;
  }

  /** A run grows by one more round, taken for the head of the worklist it reached. */
  lemma RunSnoc(g: Graph, orders: seq<seq<Grapheme>>, order: seq<Grapheme>, p: seq<set<nat>>, w: seq<set<nat>>)
    requires Run(g, orders, p, w).1 != []
    ensures Run(g, orders + [order], p, w) ==
      var (q, v) := Run(g, orders, p, w);
      RoundSteps(g, v[0], order, q, v[1..])
  {
    assert (orders + [order])[..|orders|] == orders;
  }

  /**
   * The edge the rebuild makes from the j-th neighbour of a representative
   * whose out-edges are adj: it leads to the new state of the neighbour's
   * class and carries the label find_edge reads for that neighbour, which is
   * the label of the first edge to the same neighbour.
   */
  function CopiedEdge(adj: seq<Edge>, j: nat, classes: seq<set<nat>>): (e: Edge)
    requires j < |adj| && adj[j].target in Union(classes)
    ensures e.target < |classes| && adj[j].target in classes[e.target]
  {
    Edge(NeighbourLabel(adj, j), ClassOf(classes, adj[j].target))
  }

  /**
   * The copied label is that of an edge at or before j to the same
   * neighbour, and the j-th edge's own label when no earlier edge leads there.
   */
  lemma CopiedEdgeLabel(adj: seq<Edge>, j: nat, classes: seq<set<nat>>)
    requires j < |adj| && adj[j].target in Union(classes)
    ensures exists k :: 0 <= k <= j && adj[k].target == adj[j].target && CopiedEdge(adj, j, classes).grapheme == adj[k].grapheme
    ensures (forall k :: 0 <= k < j ==> adj[k].target != adj[j].target) ==>
      CopiedEdge(adj, j, classes).grapheme == adj[j].grapheme
  {
    var k := FindEdge(adj, adj[j].target).value;
    assert k <= j;
  }

  /** The out-edges the rebuild gives the new state of a class whose representative has out-edges adj. */
  function CopiedEdges(adj: seq<Edge>, classes: seq<set<nat>>): (r: seq<Edge>)
    requires forall j :: 0 <= j < |adj| ==> adj[j].target in Union(classes)
    ensures |r| == |adj|
    ensures forall j :: 0 <= j < |r| ==> r[j] == CopiedEdge(adj, j, classes)
  {
    seq(|adj|, j requires 0 <= j < |adj| => CopiedEdge(adj, j, classes))
  }

  /** Every edge of g leads to a member of some class. */
  predicate Covered(g: Graph, classes: seq<set<nat>>) {
    forall s, j :: 0 <= s < |g| && 0 <= j < |g[s]| ==> g[s][j].target in Union(classes)
  }

  /** Classes that cover every state of a well-formed graph cover every edge. */
  lemma CoveredByPartition(g: Graph, classes: seq<set<nat>>)
    requires WellFormed(g) && States(|g|) <= Union(classes)
    ensures Covered(g, classes)
  {
    forall s, j | 0 <= s < |g| && 0 <= j < |g[s]| ensures g[s][j].target in Union(classes) {
      assert g[s][j].target in States(|g|);
    }
  }

  /** Representatives that are states of g, one per class. */
  predicate Representatives(g: Graph, classes: seq<set<nat>>, reps: seq<nat>) {
    |reps| == |classes| && forall k :: 0 <= k < |reps| ==> reps[k] < |g|
  }

  /**
   * The graph recreate_graph builds: state k is the class classes[k] and has
   * the copied out-edges of its representative reps[k]. Every edge leads to
   * one of the new states.
   */
  function RebuiltGraph(g: Graph, classes: seq<set<nat>>, reps: seq<nat>): (h: Graph)
    requires Covered(g, classes) && Representatives(g, classes, reps)
    ensures |h| == |classes| && WellFormed(h)
    ensures forall k :: 0 <= k < |h| ==> h[k] == CopiedEdges(g[reps[k]], classes)
  {
    seq(|classes|, k requires 0 <= k < |classes| => CopiedEdges(g[reps[k]], classes))
  }

  /**
   * The new states the copies of the first n edges of adj mark final: the
   * new targets of those edges whose old target is final.
   */
  function FinalTargets(adj: seq<Edge>, n: nat, finals: set<nat>, classes: seq<set<nat>>): (r: set<nat>)
    requires n <= |adj| && forall j :: 0 <= j < |adj| ==> adj[j].target in Union(classes)
    ensures forall t :: t in r ==> t < |classes|
  {
    if n == 0 then {}
    else
      var t := adj[n - 1].target;
      FinalTargets(adj, n - 1, finals, classes) + if t in finals then {ClassOf(classes, t)} else {}
  }

  /** The copies of the first n edges mark t final exactly when one of them enters t from a final old target. */
  lemma {:induction false} FinalTargetsMembers(adj: seq<Edge>, n: nat, finals: set<nat>, classes: seq<set<nat>>)
    requires n <= |adj| && forall j :: 0 <= j < |adj| ==> adj[j].target in Union(classes)
    ensures forall t :: t in FinalTargets(adj, n, finals, classes) <==>
      exists j :: 0 <= j < n && adj[j].target in finals && t == ClassOf(classes, adj[j].target)
  {
    if n > 0 {
      FinalTargetsMembers(adj, n - 1, finals, classes);
    }
  }

  /**
   * The final states of the rebuilt graph, representative by representative:
   * the new targets of copied edges whose old target was final.
   */
  function RebuiltFinals(g: Graph, finals: set<nat>, classes: seq<set<nat>>, reps: seq<nat>): (r: set<nat>)
    requires Covered(g, classes) && forall k :: 0 <= k < |reps| ==> reps[k] < |g|
    ensures forall t :: t in r ==> t < |classes|
  {
    if reps == [] then {}
    else
      var n := |reps| - 1;
      var adj := g[reps[n]];
      RebuiltFinals(g, finals, classes, reps[..n]) + FinalTargets(adj, |adj|, finals, classes)
  }

  /** The new state t is entered by a copy of an edge of a representative whose old target was final. */
  predicate EnteredFromFinal(g: Graph, finals: set<nat>, classes: seq<set<nat>>, reps: seq<nat>, t: nat)
    requires Covered(g, classes) && forall k :: 0 <= k < |reps| ==> reps[k] < |g|
  {
    exists k, j :: 0 <= k < |reps| && 0 <= j < |g[reps[k]]| &&
      g[reps[k]][j].target in finals && t == ClassOf(classes, g[reps[k]][j].target)
  }

  /** A new state is final exactly when a copied edge enters it from a final old target. */
  lemma {:induction false} RebuiltFinalsMembers(g: Graph, finals: set<nat>, classes: seq<set<nat>>, reps: seq<nat>)
    requires Covered(g, classes) && forall k :: 0 <= k < |reps| ==> reps[k] < |g|
    ensures forall t :: t in RebuiltFinals(g, finals, classes, reps) <==> EnteredFromFinal(g, finals, classes, reps, t)
  {
    if reps != [] {
      var n := |reps| - 1;
      var adj := g[reps[n]];
      var init := reps[..n];
      RebuiltFinalsMembers(g, finals, classes, init);
      FinalTargetsMembers(adj, |adj|, finals, classes);
      forall t ensures t in RebuiltFinals(g, finals, classes, reps) <==> EnteredFromFinal(g, finals, classes, reps, t) {
        if t in RebuiltFinals(g, finals, classes, init) {
          var k, j :| 0 <= k < n && 0 <= j < |g[init[k]]| &&
            g[init[k]][j].target in finals && t == ClassOf(classes, g[init[k]][j].target);
          assert init[k] == reps[k];
        } else if t in FinalTargets(adj, |adj|, finals, classes) {
          var j :| 0 <= j < |adj| && adj[j].target in finals && t == ClassOf(classes, adj[j].target);
          assert g[reps[n]][j] == adj[j];
        } else if EnteredFromFinal(g, finals, classes, reps, t) {
          var k, j :| 0 <= k < |reps| && 0 <= j < |g[reps[k]]| &&
            g[reps[k]][j].target in finals && t == ClassOf(classes, g[reps[k]][j].target);
        }
      }
    }
  }

  /**
   * When the classes partition the states and never mix final and non-final
   * states, every state the rebuild marks final stands for a class of final
   * states only.
   */
  lemma RebuiltFinalsAreFinal(g: Graph, finals: set<nat>, classes: seq<set<nat>>, reps: seq<nat>)
    requires Covered(g, classes) && Representatives(g, classes, reps)
    requires Disjoint(classes) && Separates(classes, finals)
    ensures forall t :: t in RebuiltFinals(g, finals, classes, reps) ==> classes[t] <= finals
  {
    RebuiltFinalsMembers(g, finals, classes, reps);
    forall t | t in RebuiltFinals(g, finals, classes, reps) ensures classes[t] <= finals {
      var k, j :| 0 <= k < |reps| && 0 <= j < |g[reps[k]]| &&
        g[reps[k]][j].target in finals && t == ClassOf(classes, g[reps[k]][j].target);
      assert g[reps[k]][j].target in classes[t] * finals;
    }
  }

  /**
   * Final marking follows edges only: a class that no edge of a
   * representative enters is not final after the rebuild, even when all of
   * its members were final.
   */
  lemma UnenteredFinalIsDropped(g: Graph, finals: set<nat>, classes: seq<set<nat>>, reps: seq<nat>, t: nat)
    requires Covered(g, classes) && forall k :: 0 <= k < |reps| ==> reps[k] < |g|
    requires t < |classes|
    requires forall k, j :: 0 <= k < |reps| && 0 <= j < |g[reps[k]]| ==> g[reps[k]][j].target !in classes[t]
    ensures t !in RebuiltFinals(g, finals, classes, reps)
  {
    RebuiltFinalsMembers(g, finals, classes, reps);
    forall k, j | 0 <= k < |reps| && 0 <= j < |g[reps[k]]| && g[reps[k]][j].target in finals
      ensures t != ClassOf(classes, g[reps[k]][j].target)
    {
      var q := g[reps[k]][j].target;
      assert q in classes[ClassOf(classes, q)] && q !in classes[t];
    }
  }

  /**
   * Inserting the empty cluster makes the initial state final; no edge
   * enters it, so the rebuild of that one-state automaton has no final state.
   */
  lemma EmptyClusterIsLost()
    ensures Builder.Inserted([[]]) == ([[]], {0})
    ensures RebuiltFinals([[]], {0}, [{0}], [0]) == {}
  {
    var clusters: seq<seq<Grapheme>> := [[]];
    assert clusters[..0] == [];
    UnionSnoc([], {0});
    assert [{0}] == [] + [{0}];
  }

  /** The edge count of a five-state graph, state by state. */
  lemma EdgeCountOfFive(h: Graph)
    requires |h| == 5
    ensures EdgeCount(h) == |h[0]| + |h[1]| + |h[2]| + |h[3]| + |h[4]|
  {
    assert h[..4][..3] == h[..3] && h[..3][..2] == h[..2] && h[..2][..1] == h[..1] && h[..1][..0] == [];
    assert h[..5] == h;
    assert EdgeCount(h[..1]) == |h[0]|;
    assert EdgeCount(h[..2]) == EdgeCount(h[..1]) + |h[1]|;
    assert EdgeCount(h[..3]) == EdgeCount(h[..2]) + |h[2]|;
    assert EdgeCount(h[..4]) == EdgeCount(h[..3]) + |h[3]|;
  }

  /** Every state the classes {0}, {1}, {2}, {3, 5}, {4, 6} hold lies in their union. */
  lemma DivergingPairCovers()
    ensures var classes: seq<set<nat>> := [{0}, {1}, {2}, {3, 5}, {4, 6}];
      forall t :: 1 <= t <= 6 ==> t in Union(classes)
  {
    var classes: seq<set<nat>> := [{0}, {1}, {2}, {3, 5}, {4, 6}];
    InUnion(classes, 1);
    InUnion(classes, 2);
    InUnion(classes, 3);
    InUnion(classes, 4);
  }

  /** The states of a seven-state graph, written out. */
  lemma SevenStates()
    ensures States(7) == {0, 1, 2, 3, 4, 5, 6}
  {
    assert States(1) == {0};
    assert States(2) == {0, 1};
    assert States(3) == {0, 1, 2};
    assert States(4) == {0, 1, 2, 3};
    assert States(5) == {0, 1, 2, 3, 4};
    assert States(6) == {0, 1, 2, 3, 4, 5};
  }

  /** The union of {0}, {1}, {2}, {3, 5}, {4, 6}, class by class. */
  lemma DivergingPairUnion()
    ensures Union([{0}, {1}, {2}, {3, 5}, {4, 6}]) == {0, 1, 2, 3, 4, 5, 6}
  {
    var p0: seq<set<nat>> := [];
    var p1 := p0 + [{0}];
    var p2 := p1 + [{1}];
    var p3 := p2 + [{2}];
    var p4 := p3 + [{3, 5}];
    var p5 := p4 + [{4, 6}];
    assert p5 == [{0}, {1}, {2}, {3, 5}, {4, 6}];
    assert Union(p0) == {};
    UnionSnoc(p0, {0});
    UnionSnoc(p1, {1});
    UnionSnoc(p2, {2});
    UnionSnoc(p3, {3, 5});
    UnionSnoc(p4, {4, 6});
  }

  /**
   * {0}, {1}, {2}, {3, 5}, {4, 6} partition the seven states of the graph
   * "abcd" then "abxd" build, and separate its final states 4 and 6.
   */
  lemma DivergingPairPartition()
    ensures IsPartition([{0}, {1}, {2}, {3, 5}, {4, 6}], States(7))
    ensures Separates([{0}, {1}, {2}, {3, 5}, {4, 6}], {4, 6})
  {
    var classes: seq<set<nat>> := [{0}, {1}, {2}, {3, 5}, {4, 6}];
    assert Disjoint(classes) && Separates(classes, {4, 6});
    DivergingPairUnion();
    SevenStates();
  }

  /**
   * The rebuild half of minimizing the graph that "abcd" then "abxd" build
   * (any four graphemes and a fifth x with another display value than c):
   * over the classes {0}, {1}, {2}, {3, 5}, {4, 6}, whichever representatives
   * are chosen, the rebuilt graph has 5 states and 5 edges.
   */
  lemma RebuildDivergingPair(a: Grapheme, b: Grapheme, c: Grapheme, d: Grapheme, x: Grapheme, reps: seq<nat>)
    requires |reps| == 5
    requires forall k :: 0 <= k < 5 ==> reps[k] in [{0}, {1}, {2}, {3, 5}, {4, 6}][k]
    ensures var g: Graph := [[Edge(a, 1)], [Edge(b, 2)], [Edge(c, 3), Edge(x, 5)], [Edge(d, 4)], [], [Edge(d, 6)], []];
      var classes: seq<set<nat>> := [{0}, {1}, {2}, {3, 5}, {4, 6}];
      Covered(g, classes) && Representatives(g, classes, reps) &&
      |RebuiltGraph(g, classes, reps)| == 5 && EdgeCount(RebuiltGraph(g, classes, reps)) == 5
  {
    var g: Graph := [[Edge(a, 1)], [Edge(b, 2)], [Edge(c, 3), Edge(x, 5)], [Edge(d, 4)], [], [Edge(d, 6)], []];
    var classes: seq<set<nat>> := [{0}, {1}, {2}, {3, 5}, {4, 6}];
    assert reps[0] == 0 && reps[1] == 1 && reps[2] == 2;
    assert reps[3] in {3, 5} && reps[4] in {4, 6};
    DivergingPairCovers();
    assert Covered(g, classes);
    var h := RebuiltGraph(g, classes, reps);
    assert |h[0]| == 1 && |h[1]| == 1 && |h[2]| == 2 && |h[3]| == 1 && |h[4]| == 0;
    EdgeCountOfFive(h);
  }
}
