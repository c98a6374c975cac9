/** The small value types the automaton is built from. */
module Options {
  datatype Option<T> = None | Some(value: T)
}

/**
 * A grapheme: one character, or a contiguous range of code points that share
 * a display value. Only the fields the automaton looks at are modelled.
 */
module Graphemes {
  datatype Grapheme = Grapheme(value: string, minimum: int, maximum: int)

  function Min(a: int, b: int): (m: int) { if a <= b then a else b }

  function Max(a: int, b: int): (m: int) { if a <= b then b else a }

  /**
   * The label that replaces an edge label `existing` when the grapheme `next`
   * extends its range: the smallest range covering both, shown with `next`'s value.
   */
  function Widen(existing: Grapheme, next: Grapheme): (r: Grapheme)
    ensures r.value == next.value
    ensures r.minimum <= existing.minimum && r.minimum <= next.minimum
    ensures r.minimum == existing.minimum || r.minimum == next.minimum
    ensures r.maximum >= existing.maximum && r.maximum >= next.maximum
    ensures r.maximum == existing.maximum || r.maximum == next.maximum
  {
    Grapheme(next.value, Min(existing.minimum, next.minimum), Max(existing.maximum, next.maximum))
  }
}

/**
 * The automaton's graph as an arena: states are the indices 0 .. |g|-1 and
 * g[s] lists the outgoing edges of state s in the order they were added.
 */
module Graphs {
  import opened Options
  import opened Graphemes

  datatype Edge = Edge(grapheme: Grapheme, target: nat)

  type Graph = seq<seq<Edge>>

  /** Every edge leads to a state of the graph. */
  predicate WellFormed(g: Graph) {
    forall s, j :: 0 <= s < |g| && 0 <= j < |g[s]| ==> g[s][j].target < |g|
  }

  /** The identifiers of a graph with n states: exactly 0 .. n-1. */
  function States(n: nat): (r: set<nat>)
    ensures forall s: int :: s in r <==> 0 <= s < n
    ensures |r| == n
  {
    if n == 0 then {} else States(n - 1) + {n - 1}
  }

  /** The number of edges of the graph. */
  function EdgeCount(g: Graph): (n: nat) {
    if g == [] then 0 else EdgeCount(g[..|g| - 1]) + |g[|g| - 1]|
  }

  lemma {:induction false} EdgeCountUpdate(g: Graph, s: nat, adj: seq<Edge>)
    requires s < |g|
    ensures EdgeCount(g[s := adj]) == EdgeCount(g) - |g[s]| + |adj|
  {
    var n := |g|;
    var h := g[s := adj];
    assert h[..n - 1] == if s == n - 1 then g[..n - 1] else g[..n - 1][s := adj];
    if s < n - 1 {
      EdgeCountUpdate(g[..n - 1], s, adj);
    }
  }

  /**
   * The edge petgraph's find_edge returns for a source whose out-edges are adj:
   * the first one leading to t, or None.
   */
  function FindEdge(adj: seq<Edge>, t: nat): (r: Option<nat>)
    ensures r.Some? ==> r.value < |adj| && adj[r.value].target == t
    ensures r.Some? ==> forall j :: 0 <= j < r.value ==> adj[j].target != t
    ensures r.None? ==> forall j :: 0 <= j < |adj| ==> adj[j].target != t
  {
    if adj == [] then None
    else if adj[0].target == t then Some(0)
    else match FindEdge(adj[1..], t)
      case None => None
      case Some(k) => Some(k + 1)
  }

  /**
   * The label the source reads for its j-th neighbour: the label of the edge
   * find_edge returns for that neighbour (the j-th edge itself unless an
   * earlier edge leads to the same state).
   */
  function NeighbourLabel(adj: seq<Edge>, j: nat): (l: Grapheme)
    requires j < |adj|
  {
    adj[FindEdge(adj, adj[j].target).value].grapheme
  }
}
