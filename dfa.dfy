/**
 * The automaton itself: its alphabet, its graph, its initial state and its
 * final states, changed in place by insertion and replaced by minimization.
 */
module Automaton {
  import opened Options
  import opened Graphemes
  import opened Graphs
  import opened Builder
  import opened Partitions
  import opened Minimizer

  class Dfa {
    var alphabet: set<Grapheme>
    var graph: Graph
    var initialState: nat
    var finalStates: set<nat>

    /** Edges and the initial state are states of the graph, and so are the final states. */
    ghost predicate Valid()
      reads this
    {
      WellFormed(graph) && initialState < |graph| && finalStates <= States(|graph|)
    }

    /** new: one state, the initial one, no edges, no final states and an empty alphabet. */
    constructor ()
      ensures Valid()
      ensures StateCount() == 1 && EdgeCount(graph) == 0 && graph == [[]]
      ensures initialState == 0 && finalStates == {} && alphabet == {}
    {
      alphabet := {};
      graph := [[]];
      initialState := 0;
      finalStates := {};
    }

    /** state_count: the number of state identifiers in use. */
    function StateCount(): (n: nat)
      reads this
      ensures n == |States(|graph|)|
    {
      |graph|
    }

    /** is_final_state: only states of the graph can be final. */
    function IsFinalState(s: nat): (b: bool)
      reads this
      requires Valid()
      ensures b <==> s in finalStates
      ensures b ==> s < StateCount()
    {
      s in finalStates
    }

    /** add_new_state: a new state joined to `current` by one new edge labelled `g`. */
    method AddNewState(current: nat, g: Grapheme) returns (next: nat)
      requires Valid() && current < |graph|
      modifies this
      ensures Valid()
      ensures (graph, next) == AddState(old(graph), current, g)
      ensures alphabet == old(alphabet) && initialState == old(initialState) && finalStates == old(finalStates)
    {
      next := |graph|;
      graph := graph + [[]];
      graph := graph[current := graph[current] + [Edge(g, next)]];
      assert graph == old(graph)[current := old(graph)[current] + [Edge(g, next)]] + [[]];
    }

    /**
     * find_next_state: scan the neighbours of `current` in order for a
     * reusable edge; widen its label when the grapheme's maximum is one
     * more than the label's.
     */
    method FindNextState(current: nat, g: Grapheme) returns (next: Option<nat>)
      requires Valid() && current < |graph|
      modifies this
      ensures Valid()
      ensures (graph, next) == FindNext(old(graph), current, g)
      ensures alphabet == old(alphabet) && initialState == old(initialState) && finalStates == old(finalStates)
    {
      var adj := graph[current];
      var j := 0;
      while j < |adj|
        invariant j <= |adj| && graph == old(graph) && adj == graph[current]
        invariant FirstReusable(adj, g, j) == FirstReusable(adj, g, 0)
      {
        var target := adj[j].target;
        var k := FindEdge(adj, target).value;
        var seen := adj[k].grapheme;
        if seen.value != g.value {
          j := j + 1;
          continue;
        }
        if seen.maximum == g.maximum - 1 {
          graph := graph[current := adj[k := Edge(Widen(seen, g), target)]];
          return Some(target);
        } else if seen.maximum == g.maximum {
          return Some(target);
        }
        j := j + 1;
      }
      return None;
    }

    /** get_next_state: follow a reusable edge, or add a state and an edge. */
    method GetNextState(current: nat, g: Grapheme) returns (next: nat)
      requires Valid() && current < |graph|
      modifies this
      ensures Valid()
      ensures (graph, next) == NextState(old(graph), current, g)
      ensures alphabet == old(alphabet) && initialState == old(initialState) && finalStates == old(finalStates)
    {
      var found := FindNextState(current, g);
      match found
      case Some(t) =>
        next := t;
      case None =>
        next := AddNewState(current, g);
    }

    /**
     * insert: walk the cluster from the initial state, adding every grapheme
     * to the alphabet, and make the state reached final.
     */
    method Insert(cluster: seq<Grapheme>)
      requires Valid()
      modifies this
      ensures Valid()
      ensures graph == Walk(old(graph), old(initialState), cluster).0
      ensures finalStates == old(finalStates) + {Walk(old(graph), old(initialState), cluster).1}
      ensures alphabet == old(alphabet) + set k | 0 <= k < |cluster| :: cluster[k]
      ensures initialState == old(initialState)
    {
      var current: nat := initialState;
      for k := 0 to |cluster|
        invariant Valid()
        invariant initialState == old(initialState) && finalStates == old(finalStates)
        invariant (graph, current) == Walk(old(graph), old(initialState), cluster[..k])
        invariant alphabet == old(alphabet) + set i | 0 <= i < k :: cluster[i]
      {
        assert cluster[..k + 1][..k] == cluster[..k];
        GraphemesSnoc(cluster, k);
        alphabet := alphabet + {cluster[k]};
        current := GetNextState(current, cluster[k]);
      }
      assert cluster[..|cluster|] == cluster;
      finalStates := finalStates + {current};
    }

    /**
     * The refinement loop of minimize: starting from the initial partition
     * and a worklist holding its classes, take the head of the worklist and
     * run a round for it until the worklist is empty. The result is what
     * Run computes for the grapheme order of each round, and each order
     * lists the alphabet once. It is also the initial partition refined by
     * the preimages xs in turn, each of a class taken from the worklist, so
     * it partitions the states and never puts a final and a non-final state
     * into one class; and no preimage used splits any of its classes.
     */
    method RefinePartition() returns (p: seq<set<nat>>, ghost xs: seq<set<nat>>, ghost splitters: seq<Splitter>,
                                      ghost orders: seq<seq<Grapheme>>)
      requires Valid()
      ensures Run(graph, orders, InitialPartition(|graph|, finalStates), InitialPartition(|graph|, finalStates)) == (p, [])
      ensures forall t :: 0 <= t < |orders| ==> Enumerates(orders[t], alphabet)
      ensures p == RefineAll(InitialPartition(|graph|, finalStates), xs)
      ensures SplitterTrace(graph, alphabet, InitialPartition(|graph|, finalStates), xs, splitters)
      ensures forall i :: 0 <= i < |xs| ==> Refine(p, xs[i]) == p
      ensures IsPartition(p, States(|graph|))
      ensures Separates(p, finalStates)
    {
      var all := States(|graph|);
      var init := InitialPartition(|graph|, finalStates);
      p := init;
      xs, splitters, orders := [], [], [];
      var w := p;
      NonEmptyBound(p, all);
      while w != []
        invariant (p, w) == Run(graph, orders, init, init)
        invariant forall t :: 0 <= t < |orders| ==> Enumerates(orders[t], alphabet)
        invariant p == RefineAll(init, xs)
        invariant SplitterTrace(graph, alphabet, init, xs, splitters)
        invariant forall a :: a in w ==> Reached(init, xs, a)
        invariant forall i :: 0 <= i < |xs| ==> Separates(p, xs[i])
        invariant IsPartition(p, all) && Separates(p, finalStates)
        invariant |NonEmpty(p)| <= |graph|
        decreases |graph| - |NonEmpty(p)|, |w|
      {
        ghost var count, pending := |NonEmpty(p)|, |w|;
        var a := w[0];
        assert a in w;
        ghost var order;
        p, w, order, xs, splitters := RefineRound(init, a, p, w[1..], xs, splitters);
        RunSnoc(graph, orders, order, init, init);
        EnumeratesEach(orders, order, alphabet);
        orders := orders + [order];
        NonEmptyBound(p, all);
      }
      forall i | 0 <= i < |xs| ensures Refine(p, xs[i]) == p {
        SeparatedIsStable(p, xs[i]);
      }
    }

    /**
     * One round of the refinement loop, for the class a taken off the
     * worklist w0: for each grapheme of the alphabet, in some order, split
     * every class by the preimage of a and update the worklist with the
     * splits. The round extends the trace of preimages and splitters, keeps
     * every earlier preimage separated, and each class it adds to the
     * partition is one more entry on the worklist.
     */
    method RefineRound(ghost init: seq<set<nat>>, a: set<nat>, p0: seq<set<nat>>, w0: seq<set<nat>>,
                       ghost xs0: seq<set<nat>>, ghost sp0: seq<Splitter>)
      returns (p: seq<set<nat>>, w: seq<set<nat>>, ghost order: seq<Grapheme>, ghost xs: seq<set<nat>>, ghost splitters: seq<Splitter>)
      requires p0 == RefineAll(init, xs0) && SplitterTrace(graph, alphabet, init, xs0, sp0)
      requires Reached(init, xs0, a) && forall b :: b in w0 ==> Reached(init, xs0, b)
      requires forall i :: 0 <= i < |xs0| ==> Separates(p0, xs0[i])
      requires IsPartition(p0, States(|graph|)) && Separates(p0, finalStates)
      ensures (p, w) == RoundSteps(graph, a, order, p0, w0) && Enumerates(order, alphabet)
      ensures p == RefineAll(init, xs) && SplitterTrace(graph, alphabet, init, xs, splitters)
      ensures forall b :: b in w ==> Reached(init, xs, b)
      ensures forall i :: 0 <= i < |xs| ==> Separates(p, xs[i])
      ensures IsPartition(p, States(|graph|)) && Separates(p, finalStates)
      ensures |NonEmpty(p0)| <= |NonEmpty(p)| && |NonEmpty(p)| - |NonEmpty(p0)| == |w| - |w0|
    {
      p, w, order, xs, splitters := p0, w0, [], xs0, sp0;
      var symbols := alphabet;
      ghost var done: set<Grapheme> := {};
      while symbols != {}
        invariant (p, w) == RoundSteps(graph, a, order, p0, w0)
        invariant done !! symbols && done + symbols == alphabet && Enumerates(order, done)
        invariant p == RefineAll(init, xs) && SplitterTrace(graph, alphabet, init, xs, splitters)
        invariant forall b :: b in w ==> Reached(init, xs, b)
        invariant Reached(init, xs, a)
        invariant forall i :: 0 <= i < |xs| ==> Separates(p, xs[i])
        invariant IsPartition(p, States(|graph|)) && Separates(p, finalStates)
        invariant |NonEmpty(p0)| <= |NonEmpty(p)| && |NonEmpty(p)| - |NonEmpty(p0)| == |w| - |w0|
        decreases symbols
      {
        var symbol :| symbol in symbols;
        EnumeratesSnoc(order, done, symbol);
        TakeGrapheme(alphabet, done, symbols, symbol);
        done, symbols := done + {symbol}, symbols - {symbol};
        var x := ParentStates(graph, a, symbol);
        ghost var before := p;
        WorklistStep(init, xs, x, w);
        RefineAllSnoc(init, xs, x);
        TraceSnoc(graph, alphabet, init, xs, x, splitters, Splitter(a, symbol));
        ReachedSnoc(init, xs, x, a);
        RoundStepsSnoc(graph, a, order, symbol, p0, w0);
        SeparatesAll(p, xs, x);
        var replacements;
        p, replacements := SplitClasses(p, x);
        w := UpdateWorklist(w, replacements);
        xs, splitters := xs + [x], splitters + [Splitter(a, symbol)];
        order := order + [symbol];
        RefineCount(before, x);
        RefineSeparates(before, x, finalStates);
      }
      assert done == alphabet;
    }

    /**
     * recreate_graph: one new state per class, every member mapped to it;
     * the out-edges of one representative per class copied; a new state made
     * final when a copied edge enters it from a final old target; the class
     * of the old initial state made initial. The graph, the initial state
     * and the final states are replaced together.
     */
    method RecreateGraph(classes: seq<set<nat>>) returns (ghost reps: seq<nat>)
      requires Valid()
      requires IsPartition(classes, States(|graph|))
      requires forall k :: 0 <= k < |classes| ==> classes[k] != {}
      modifies this
      ensures alphabet == old(alphabet)
      ensures Valid()
      ensures Representatives(old(graph), classes, reps)
      ensures forall k :: 0 <= k < |classes| ==> reps[k] in classes[k]
      ensures graph == RebuiltGraph(old(graph), classes, reps)
      ensures initialState == ClassOf(classes, old(initialState))
      ensures finalStates == RebuiltFinals(old(graph), old(finalStates), classes, reps)
    {
      var newGraph, newInitial, newFinals;
      newGraph, newInitial, newFinals, reps := Rebuild(graph, initialState, finalStates, classes);
      initialState := newInitial;
      finalStates := newFinals;
      graph := newGraph;
    }

    /**
     * minimize: refine the partition, drop its empty classes and rebuild the
     * graph over the rest. The classes are the non-empty classes of the
     * partition a complete run of the refinement loop reaches. The state
     * count never grows, the initial state becomes its class, and a new
     * state is final only if every member of its class was final.
     */
    method Minimize() returns (ghost xs: seq<set<nat>>, ghost splitters: seq<Splitter>, ghost orders: seq<seq<Grapheme>>,
                               ghost classes: seq<set<nat>>, ghost reps: seq<nat>)
      requires Valid()
      modifies this
      ensures Valid()
      ensures var init := InitialPartition(old(|graph|), old(finalStates));
        Run(old(graph), orders, init, init) == (RefineAll(init, xs), []) && classes == NonEmpty(RefineAll(init, xs))
      ensures forall t :: 0 <= t < |orders| ==> Enumerates(orders[t], alphabet)
      ensures forall i :: 0 <= i < |xs| ==>
        Refine(RefineAll(InitialPartition(old(|graph|), old(finalStates)), xs), xs[i]) ==
        RefineAll(InitialPartition(old(|graph|), old(finalStates)), xs)
      ensures SplitterTrace(old(graph), alphabet, InitialPartition(old(|graph|), old(finalStates)), xs, splitters)
      ensures IsPartition(classes, States(old(|graph|))) && Separates(classes, old(finalStates))
      ensures forall k :: 0 <= k < |classes| ==> classes[k] != {}
      ensures Representatives(old(graph), classes, reps) && Covered(old(graph), classes)
      ensures forall k :: 0 <= k < |classes| ==> reps[k] in classes[k]
      ensures graph == RebuiltGraph(old(graph), classes, reps)
      ensures finalStates == RebuiltFinals(old(graph), old(finalStates), classes, reps)
      ensures |graph| <= old(|graph|)
      ensures initialState == ClassOf(classes, old(initialState))
      ensures forall t :: t in finalStates ==> classes[t] <= old(finalStates)
      ensures alphabet == old(alphabet)
    {
      var p;
      p, xs, splitters, orders := RefinePartition();
      NonEmptyBound(p, States(|graph|));
      var nonEmpty := NonEmpty(p);
      classes := nonEmpty;
      NonEmptySeparates(p, finalStates);
      CoveredByPartition(graph, classes);
      ghost var oldGraph: Graph, oldFinals: set<nat> := graph, finalStates;
      reps := RecreateGraph(nonEmpty);
      RebuiltFinalsAreFinal(oldGraph, oldFinals, classes, reps);
    }
  }

  /**
   * The two passes of recreate_graph over the old graph g: the new graph,
   * initial state and final states, and the representative chosen per class.
   */
  method Rebuild(g: Graph, initial: nat, finals: set<nat>, classes: seq<set<nat>>)
    returns (newGraph: Graph, newInitial: nat, newFinals: set<nat>, ghost reps: seq<nat>)
    requires WellFormed(g) && initial < |g|
    requires IsPartition(classes, States(|g|))
    requires forall k :: 0 <= k < |classes| ==> classes[k] != {}
    ensures Covered(g, classes)
    ensures Representatives(g, classes, reps)
    ensures forall k :: 0 <= k < |classes| ==> reps[k] in classes[k]
    ensures newGraph == RebuiltGraph(g, classes, reps)
    ensures newInitial == ClassOf(classes, initial)
    ensures newFinals == RebuiltFinals(g, finals, classes, reps)
  {
    CoveredByPartition(g, classes);
    var mapping, found := MapStates(classes, initial);
    newInitial := found.value;
    forall s | s in Union(classes) ensures s < |g| && s in mapping && mapping[s] == ClassOf(classes, s) {
      assert s in mapping.Keys;
    }
    newGraph, newFinals, reps := CopyClasses(g, finals, classes, mapping);
  }

  /**
   * The second pass of recreate_graph: for each class in turn, a
   * representative chosen from it and its out-edges copied to the class's
   * new state, collecting the new states they mark final.
   */
  method CopyClasses(g: Graph, finals: set<nat>, classes: seq<set<nat>>, mapping: map<nat, nat>)
    returns (newGraph: Graph, newFinals: set<nat>, ghost reps: seq<nat>)
    requires Covered(g, classes)
    requires forall k :: 0 <= k < |classes| ==> classes[k] != {}
    requires Disjoint(classes)
    requires forall s :: s in Union(classes) ==> s < |g| && s in mapping && mapping[s] == ClassOf(classes, s)
    ensures Representatives(g, classes, reps)
    ensures forall k :: 0 <= k < |classes| ==> reps[k] in classes[k]
    ensures newGraph == RebuiltGraph(g, classes, reps)
    ensures newFinals == RebuiltFinals(g, finals, classes, reps)
  {
    newGraph := seq(|classes|, k => []);
    newFinals := {};
    reps := [];
    for k := 0 to |classes|
      invariant |newGraph| == |classes| && |reps| == k
      invariant forall i :: 0 <= i < k ==> reps[i] in classes[i] && reps[i] < |g|
      invariant forall i :: 0 <= i < k ==> newGraph[i] == CopiedEdges(g[reps[i]], classes)
      invariant forall i :: k <= i < |classes| ==> newGraph[i] == []
      invariant newFinals == RebuiltFinals(g, finals, classes, reps)
    {
      var rep :| rep in classes[k];
      InUnion(classes, k);
      var source := mapping[rep];
      var edges, targets := CopyEdges(g[rep], mapping, finals, classes);
      ghost var grown := reps + [rep];
      assert grown[..k] == reps && grown[k] == rep;
      assert RebuiltFinals(g, finals, classes, grown) == newFinals + targets;
      newGraph := newGraph[source := newGraph[source] + edges];
      newFinals := newFinals + targets;
      reps := grown;
    }
    assert newGraph == RebuiltGraph(g, classes, reps);
  }

  /**
   * The first pass of recreate_graph: every member of every class mapped to
   * the new state of the class, the last class holding it winning, and the
   * new initial state found the same way.
   */
  method MapStates(classes: seq<set<nat>>, initial: nat) returns (mapping: map<nat, nat>, newInitial: Option<nat>)
    ensures mapping.Keys == Union(classes)
    ensures forall s :: s in mapping ==> mapping[s] == ClassOf(classes, s)
    ensures newInitial.Some? <==> initial in Union(classes)
    ensures newInitial.Some? ==> newInitial.value == ClassOf(classes, initial)
  {
    mapping, newInitial := map[], None;
    for k := 0 to |classes|
      invariant mapping.Keys == Union(classes[..k])
      invariant forall s :: s in mapping ==> mapping[s] == ClassOf(classes[..k], s)
      invariant newInitial.Some? <==> initial in Union(classes[..k])
      invariant newInitial.Some? ==> newInitial.value == ClassOf(classes[..k], initial)
    {
      assert classes[..k + 1] == classes[..k] + [classes[k]];
      UnionSnoc(classes[..k], classes[k]);
      ghost var before := mapping;
      mapping, newInitial := MapClass(mapping, newInitial, classes[k], k, initial);
      forall s | s in mapping ensures mapping[s] == ClassOf(classes[..k + 1], s) {
        ClassOfSnoc(classes[..k], classes[k], s);
      }
      if initial in Union(classes[..k + 1]) {
        ClassOfSnoc(classes[..k], classes[k], initial);
      }
    }
    assert classes[..|classes|] == classes;
  }

  /** The inner loop of the first pass: every member of one class mapped to its new state k. */
  method MapClass(mapping: map<nat, nat>, newInitial: Option<nat>, members: set<nat>, k: nat, initial: nat)
    returns (m: map<nat, nat>, ni: Option<nat>)
    ensures m.Keys == mapping.Keys + members
    ensures forall s :: s in m ==> m[s] == if s in members then k else mapping[s]
    ensures ni == if initial in members then Some(k) else newInitial
  {
    m, ni := mapping, newInitial;
    var rest := members;
    while rest != {}
      invariant rest <= members
      invariant m.Keys == mapping.Keys + (members - rest)
      invariant forall s :: s in m ==> m[s] == if s in members - rest then k else mapping[s]
      invariant ni == if initial in members - rest then Some(k) else newInitial
      decreases rest
    {
      var s :| s in rest;
      if s == initial {
        ni := Some(k);
      }
      m := m[s := k];
      rest := rest - {s};
    }
  }

  /**
   * The inner loop of the second pass: the copies of a representative's
   * out-edges, and the new states they mark final.
   */
  method CopyEdges(adj: seq<Edge>, mapping: map<nat, nat>, finals: set<nat>, classes: seq<set<nat>>)
    returns (edges: seq<Edge>, targets: set<nat>)
    requires forall j :: 0 <= j < |adj| ==> adj[j].target in Union(classes)
    requires forall s :: s in Union(classes) ==> s in mapping && mapping[s] == ClassOf(classes, s)
    ensures edges == CopiedEdges(adj, classes)
    ensures targets == FinalTargets(adj, |adj|, finals, classes)
  {
    edges, targets := [], {};
    assert edges == CopiedEdges(adj, classes)[..0];
    for j := 0 to |adj|
      invariant |edges| == j && forall i :: 0 <= i < j ==> edges[i] == CopiedEdge(adj, i, classes)
      invariant targets == FinalTargets(adj, j, finals, classes)
    {
      var oldTarget := adj[j].target;
      var edge := FindEdge(adj, oldTarget).value;
      var newTarget := mapping[oldTarget];
      assert Edge(adj[edge].grapheme, newTarget) == CopiedEdge(adj, j, classes);
      edges := edges + [Edge(adj[edge].grapheme, newTarget)];
      if oldTarget in finals {
        targets := targets + {newTarget};
      }
    }
  }

  /** The graphemes of a sequence of clusters. */
  function AlphabetOf(clusters: seq<seq<Grapheme>>): (r: set<Grapheme>)
    ensures forall g :: g in r <==> exists k :: 0 <= k < |clusters| && g in clusters[k]
  {
    if clusters == [] then {}
    else
      var n := |clusters| - 1;
      AlphabetOf(clusters[..n]) + set g | g in clusters[n]
  }

  /**
   * from: a fresh automaton, every cluster inserted in order, then
   * minimized. The result is the rebuild of the inserted graph over the
   * non-empty classes of a complete refinement run on it, one round per
   * worklist class and each round over the whole alphabet; its initial
   * state is the class of state 0.
   */
  method FromClusters(clusters: seq<seq<Grapheme>>)
    returns (dfa: Dfa, ghost orders: seq<seq<Grapheme>>, ghost classes: seq<set<nat>>, ghost reps: seq<nat>)
    ensures fresh(dfa) && dfa.Valid()
    ensures dfa.alphabet == AlphabetOf(clusters)
    ensures var (g, finals) := Inserted(clusters);
      var init := InitialPartition(|g|, finals);
      Run(g, orders, init, init).1 == [] && classes == NonEmpty(Run(g, orders, init, init).0)
    ensures forall t :: 0 <= t < |orders| ==> Enumerates(orders[t], AlphabetOf(clusters))
    ensures IsPartition(classes, States(|Inserted(clusters).0|)) && forall k :: 0 <= k < |classes| ==> classes[k] != {}
    ensures Covered(Inserted(clusters).0, classes) && Representatives(Inserted(clusters).0, classes, reps)
    ensures forall k :: 0 <= k < |classes| ==> reps[k] in classes[k]
    ensures dfa.graph == RebuiltGraph(Inserted(clusters).0, classes, reps)
    ensures dfa.finalStates == RebuiltFinals(Inserted(clusters).0, Inserted(clusters).1, classes, reps)
    ensures dfa.initialState == ClassOf(classes, 0)
  {
    dfa := new Dfa();
    for k := 0 to |clusters|
      invariant fresh(dfa) && dfa.Valid()
      invariant dfa.alphabet == AlphabetOf(clusters[..k])
      invariant (dfa.graph, dfa.finalStates) == Inserted(clusters[..k]) && dfa.initialState == 0
    {
      assert clusters[..k + 1][..k] == clusters[..k];
      dfa.Insert(clusters[k]);
    }
    assert clusters[..|clusters|] == clusters;
    ghost var xs, splitters;
    xs, splitters, orders, classes, reps := dfa.Minimize();
  }

  /**
   * The test of minimize on "abcd" then "abxd": the two inserts build seven
   * states, with 4 and 6 final; the classes {0}, {1}, {2}, {3, 5}, {4, 6}
   * partition them and separate the final states; and rebuilding over those
   * classes gives 5 states and 5 edges whichever representatives are chosen.
   */
  lemma MinimizeAbcdAbxd(reps: seq<nat>)
    requires |reps| == 5
    requires forall k :: 0 <= k < 5 ==> reps[k] in [{0}, {1}, {2}, {3, 5}, {4, 6}][k]
    ensures var first := Walk([[]], 0, [Char('a'), Char('b'), Char('c'), Char('d')]);
      var second := Walk(first.0, 0, [Char('a'), Char('b'), Char('x'), Char('d')]);
      var classes: seq<set<nat>> := [{0}, {1}, {2}, {3, 5}, {4, 6}];
      first.1 == 4 && second.1 == 6 && |second.0| == 7 &&
      IsPartition(classes, States(|second.0|)) && Separates(classes, {first.1, second.1}) &&
      Covered(second.0, classes) && Representatives(second.0, classes, reps) &&
      |RebuiltGraph(second.0, classes, reps)| == 5 && EdgeCount(RebuiltGraph(second.0, classes, reps)) == 5
  {
    DivergingPairGraph(Char('a'), Char('b'), Char('c'), Char('d'), Char('x'));
    DivergingPairPartition();
    RebuildDivergingPair(Char('a'), Char('b'), Char('c'), Char('d'), Char('x'), reps);
  }
}
