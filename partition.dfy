/**
 * The bookkeeping of the minimizer: a partition is an ordered sequence of
 * classes (sets of states); the worklist is a sequence of classes still to
 * be used as splitters.
 */
module Partitions {

  /** Every state that belongs to some class. */
  function Union(p: seq<set<nat>>): (u: set<nat>) {
    set k, s | 0 <= k < |p| && s in p[k] :: s
  }

  /** The classes are pairwise disjoint. */
  predicate Disjoint(p: seq<set<nat>>) {
    forall i, j :: 0 <= i < j < |p| ==> p[i] !! p[j]
  }

  /** p splits `all` into pairwise-disjoint classes. */
  predicate IsPartition(p: seq<set<nat>>, all: set<nat>) {
    Disjoint(p) && Union(p) == all
  }

  /** No class holds both a member of f and a state outside f. */
  predicate Separates(p: seq<set<nat>>, f: set<nat>) {
    forall k :: 0 <= k < |p| ==> p[k] <= f || p[k] !! f
  }

  lemma UnionSnoc(p: seq<set<nat>>, c: set<nat>)
    ensures Union(p + [c]) == Union(p) + c
  {
    var q := p + [c];
    forall s | s in Union(q) ensures s in Union(p) + c {
      var k :| 0 <= k < |q| && s in q[k];
      if k < |p| { assert s in p[k]; }
    }
    forall s | s in Union(p) + c ensures s in Union(q) {
      if s in c { assert s in q[|p|]; } else { var k :| 0 <= k < |p| && s in p[k]; assert s in q[k]; }
    }
  }

  lemma UnionAppend(a: seq<set<nat>>, b: seq<set<nat>>)
    ensures Union(a + b) == Union(a) + Union(b)
  {
    var q := a + b;
    forall s | s in Union(q) ensures s in Union(a) + Union(b) {
      var k :| 0 <= k < |q| && s in q[k];
      if k < |a| { assert s in a[k]; } else { assert s in b[k - |a|]; }
    }
    forall s | s in Union(a) + Union(b) ensures s in Union(q) {
      if s in Union(a) {
        var k :| 0 <= k < |a| && s in a[k]; assert s in q[k];
      } else {
        var k :| 0 <= k < |b| && s in b[k]; assert s in q[|a| + k];
      }
    }
  }

  lemma DisjointSnoc(p: seq<set<nat>>, c: set<nat>)
    ensures Disjoint(p + [c]) <==> Disjoint(p) && Union(p) !! c
  {
    var q := p + [c];
    if Disjoint(q) {
      assert forall i, j :: 0 <= i < j < |p| ==> p[i] == q[i] && p[j] == q[j];
      forall s | s in Union(p) ensures s !in c {
        var k :| 0 <= k < |p| && s in p[k];
        assert q[k] !! q[|p|];
      }
    }
    if Disjoint(p) && Union(p) !! c {
      forall i, j | 0 <= i < j < |q| ensures q[i] !! q[j] {
        if j == |p| {
          forall s | s in q[i] ensures s !in c { assert s in Union(p); }
        }
      }
    }
  }

  lemma InUnion(p: seq<set<nat>>, k: nat)
    requires k < |p|
    ensures p[k] <= Union(p)
  {
  }

  lemma DisjointAppend(a: seq<set<nat>>, b: seq<set<nat>>)
    ensures Disjoint(a) && Disjoint(b) && Union(a) !! Union(b) ==> Disjoint(a + b)
  {
    var q := a + b;
    if Disjoint(a) && Disjoint(b) && Union(a) !! Union(b) {
      forall i, j | 0 <= i < j < |q| ensures q[i] !! q[j] {
        if i < |a| && |a| <= j {
          InUnion(a, i);
          InUnion(b, j - |a|);
        }
      }
    }
  }

  /** The non-empty classes of p, in order: what minimize hands to the rebuild. */
  function NonEmpty(p: seq<set<nat>>): (q: seq<set<nat>>)
    ensures |q| <= |p|
    ensures forall k :: 0 <= k < |q| ==> q[k] != {} && q[k] in p
    ensures Union(q) == Union(p)
    ensures Disjoint(p) ==> Disjoint(q)
  {
    if p == [] then []
    else
      var n := |p| - 1;
      var rest := NonEmpty(p[..n]);
      assert p == p[..n] + [p[n]];
      UnionSnoc(p[..n], p[n]);
      DisjointSnoc(p[..n], p[n]);
      if p[n] == {} then rest
      else
        UnionSnoc(rest, p[n]);
        DisjointSnoc(rest, p[n]);
        rest + [p[n]]
  }

  lemma {:induction false} NonEmptyAppend(a: seq<set<nat>>, b: seq<set<nat>>)
    ensures NonEmpty(a + b) == NonEmpty(a) + NonEmpty(b)
    decreases |b|
  {
    if b == [] {
      assert a + b == a;
    } else {
      var n := |b| - 1;
      assert a + b == (a + b[..n]) + [b[n]];
      assert (a + b)[..|a + b| - 1] == a + b[..n];
      NonEmptyAppend(a, b[..n]);
    }
  }

  /** A partition of `all` has at most |all| non-empty classes. */
  lemma {:induction false} NonEmptyBound(p: seq<set<nat>>, all: set<nat>)
    requires IsPartition(p, all)
    ensures |NonEmpty(p)| <= |all|
    decreases |p|
  {
    if p != [] {
      var n := |p| - 1;
      assert p == p[..n] + [p[n]];
      UnionSnoc(p[..n], p[n]);
      DisjointSnoc(p[..n], p[n]);
      NonEmptyBound(p[..n], Union(p[..n]));
      assert |all| == |Union(p[..n])| + |p[n]|;
    }
  }

  /**
   * What happens to one class Y for the preimage X: it is replaced by X∩Y
   * followed by Y\X when both are non-empty, and kept otherwise.
   */
  function Split(y: set<nat>, x: set<nat>): (r: seq<set<nat>>)
    ensures Union(r) == y && Disjoint(r)
    ensures forall k :: 0 <= k < |r| ==> r[k] <= y
    ensures |NonEmpty(r)| == |NonEmpty([y])| + |r| - 1
  {
    Singleton(y);
    if x * y != {} && y - x != {} then
      Pair(x * y, y - x);
      [x * y, y - x]
    else
      [y]
  }

  /** A list of one class covers it and has one non-empty class unless it is empty. */
  lemma Singleton(a: set<nat>)
    ensures Union([a]) == a && Disjoint([a])
    ensures |NonEmpty([a])| == if a == {} then 0 else 1
  {
    UnionSnoc([], a);
    assert [a] == [] + [a];
    assert [a][..0] == [];
  }

  /** A list of two classes covers their union and is disjoint when they are. */
  lemma Pair(a: set<nat>, b: set<nat>)
    ensures Union([a, b]) == a + b
    ensures a !! b ==> Disjoint([a, b])
    ensures |NonEmpty([a, b])| == (if a == {} then 0 else 1) + (if b == {} then 0 else 1)
  {
    Singleton(a);
    UnionSnoc([a], b);
    assert [a, b] == [a] + [b];
    assert [a, b][..1] == [a];
  }

  /** One split recorded by the cursor pass: the class Y and its halves I and D. */
  datatype Replacement = Replacement(y: set<nat>, i: set<nat>, d: set<nat>)

  /** The splits one pass of the cursor over p performs for the preimage x, in order. */
  function Replacements(p: seq<set<nat>>, x: set<nat>): (rs: seq<Replacement>)
    ensures |rs| <= |p|
    ensures forall k :: 0 <= k < |rs| ==>
      rs[k].y in p && rs[k].i == x * rs[k].y && rs[k].d == rs[k].y - x && rs[k].i != {} && rs[k].d != {}
  {
    if p == [] then []
    else
      var n := |p| - 1;
      var y := p[n];
      Replacements(p[..n], x) + (if x * y != {} && y - x != {} then [Replacement(y, x * y, y - x)] else [])
  }

  /**
   * The partition after one pass of the cursor: every class split in place.
   * The union is kept and disjointness is kept.
   */
  function Refine(p: seq<set<nat>>, x: set<nat>): (q: seq<set<nat>>)
    ensures Union(q) == Union(p)
    ensures Disjoint(p) ==> Disjoint(q)
  {
    if p == [] then []
    else
      var n := |p| - 1;
      var rest := Refine(p[..n], x);
      assert p == p[..n] + [p[n]];
      RefineStep(p[..n], p[n], x, rest);
      rest + Split(p[n], x)
  }

  /** Refining one more class appends its split, and records it when both halves are non-empty. */
  lemma RefineSnoc(p: seq<set<nat>>, k: nat, x: set<nat>)
    requires k < |p|
    ensures Refine(p[..k + 1], x) == Refine(p[..k], x) + Split(p[k], x)
    ensures Replacements(p[..k + 1], x) == Replacements(p[..k], x) +
      if x * p[k] != {} && p[k] - x != {} then [Replacement(p[k], x * p[k], p[k] - x)] else []
  {
    assert p[..k + 1][..k] == p[..k];
  }

  /** Each split the pass records adds exactly one non-empty class. */
  lemma {:induction false} RefineCount(p: seq<set<nat>>, x: set<nat>)
    ensures |NonEmpty(Refine(p, x))| == |NonEmpty(p)| + |Replacements(p, x)|
  {
    if p != [] {
      var n := |p| - 1;
      var init, y := p[..n], p[n];
      assert p == init + [y];
      var rest := Refine(init, x);
      RefineCount(init, x);
      assert Refine(p, x) == rest + Split(y, x);
      assert Replacements(p, x) == Replacements(init, x) +
        if x * y != {} && y - x != {} then [Replacement(y, x * y, y - x)] else [];
      RefineStep(init, y, x, rest);
    }
  }

  /** The inductive step of Refine's contract: appending the split of one more class. */
  lemma RefineStep(init: seq<set<nat>>, y: set<nat>, x: set<nat>, rest: seq<set<nat>>)
    requires Union(rest) == Union(init)
    requires Disjoint(init) ==> Disjoint(rest)
    ensures Union(rest + Split(y, x)) == Union(init + [y])
    ensures Disjoint(init + [y]) ==> Disjoint(rest + Split(y, x))
    ensures |NonEmpty(rest + Split(y, x))| - |NonEmpty(init + [y])| ==
      |NonEmpty(rest)| - |NonEmpty(init)| + (if x * y != {} && y - x != {} then 1 else 0)
  {
    var tail := Split(y, x);
    UnionSnoc(init, y);
    UnionAppend(rest, tail);
    DisjointSnoc(init, y);
    DisjointAppend(rest, tail);
    NonEmptyAppend(rest, tail);
    NonEmptyAppend(init, [y]);
  }

  /** Dropping the empty classes keeps the separation of f. */
  lemma NonEmptySeparates(p: seq<set<nat>>, f: set<nat>)
    requires Separates(p, f)
    ensures Separates(NonEmpty(p), f)
  {
    var q := NonEmpty(p);
    forall k | 0 <= k < |q| ensures q[k] <= f || q[k] !! f {
      var i :| 0 <= i < |p| && p[i] == q[k];
    }
  }

  /** Refining never puts a member of f and a non-member into one class. */
  lemma {:induction false} RefineSeparates(p: seq<set<nat>>, x: set<nat>, f: set<nat>)
    requires Separates(p, f)
    ensures Separates(Refine(p, x), f)
    decreases |p|
  {
    if p != [] {
      var n := |p| - 1;
      RefineSeparates(p[..n], x, f);
      var rest, tail := Refine(p[..n], x), Split(p[n], x);
      assert Refine(p, x) == rest + tail;
      forall k | 0 <= k < |rest + tail| ensures (rest + tail)[k] <= f || (rest + tail)[k] !! f {
        if k >= |rest| { assert tail[k - |rest|] <= p[n]; }
      }
    }
  }

  /**
   * The index of the class a state is mapped to when the rebuild records
   * old state -> new state class by class: the last class holding it, which
   * is its only class when the classes are disjoint.
   */
  function ClassOf(p: seq<set<nat>>, s: nat): (k: nat)
    requires s in Union(p)
    ensures k < |p| && s in p[k]
    ensures forall j :: k < j < |p| ==> s !in p[j]
    ensures Disjoint(p) ==> forall j :: 0 <= j < |p| && s in p[j] ==> j == k
  {
    var n := |p| - 1;
    if s in p[n] then n
    else
      assert p == p[..n] + [p[n]];
      UnionSnoc(p[..n], p[n]);
      var k := ClassOf(p[..n], s);
      assert p[k] == p[..n][k];
      k
  }

  /** Recording one more class c moves exactly its members to it and keeps the others' classes. */
  lemma ClassOfSnoc(p: seq<set<nat>>, c: set<nat>, s: nat)
    requires s in Union(p + [c])
    ensures s in c ==> ClassOf(p + [c], s) == |p|
    ensures s !in c ==> s in Union(p) && ClassOf(p + [c], s) == ClassOf(p, s)
  {
    UnionSnoc(p, c);
    if s !in c {
      var k := ClassOf(p + [c], s);
      var j := ClassOf(p, s);
      assert (p + [c])[j] == p[j];
      assert p[k] == (p + [c])[k];
    }
  }

  /** The first position of a class in the worklist. */
  function IndexOf(w: seq<set<nat>>, c: set<nat>): (k: nat)
    requires c in w
    ensures k < |w| && w[k] == c
    ensures forall j :: 0 <= j < k ==> w[j] != c
  {
    if w[0] == c then 0 else 1 + IndexOf(w[1..], c)
  }

  /**
   * The worklist update for one split: if Y is waiting, its first occurrence
   * is replaced by both halves; otherwise only the smaller half is pushed,
   * I when they are the same size.
   */
  function Push(w: seq<set<nat>>, r: Replacement): (v: seq<set<nat>>)
    ensures |v| == |w| + 1
    ensures r.y !in w ==> v[..|w|] == w
    ensures r.y !in w ==> v[|w|] in {r.i, r.d} && |v[|w|]| <= |r.i| && |v[|w|]| <= |r.d|
    ensures r.y !in w && |r.i| == |r.d| ==> v[|w|] == r.i
  {
    if r.y in w then
      var k := IndexOf(w, r.y);
      w[..k] + w[k + 1..] + [r.i, r.d]
    else if |r.i| <= |r.d| then w + [r.i]
    else w + [r.d]
  }

  /** When Y is waiting, Push trades one copy of Y for both halves. */
  lemma PushReplaces(w: seq<set<nat>>, r: Replacement)
    requires r.y in w
    ensures multiset(Push(w, r)) == multiset(w) - multiset{r.y} + multiset{r.i, r.d}
  {
    var k := IndexOf(w, r.y);
    assert w == w[..k] + [w[k]] + w[k + 1..];
  }

  /** The worklist after the updates for a pass's splits, in order: one more entry per split. */
  function PushAll(w: seq<set<nat>>, rs: seq<Replacement>): (v: seq<set<nat>>)
    ensures |v| == |w| + |rs|
  {
    if rs == [] then w else Push(PushAll(w, rs[..|rs| - 1]), rs[|rs| - 1])
  }

  /**
   * The cursor pass over the partition for the preimage x: returns the
   * refined partition and the splits it made, in order.
   */
  method SplitClasses(p: seq<set<nat>>, x: set<nat>) returns (q: seq<set<nat>>, replacements: seq<Replacement>)
    ensures q == Refine(p, x)
    ensures replacements == Replacements(p, x)
  {
    q, replacements := [], [];
    for k := 0 to |p|
      invariant q == Refine(p[..k], x)
      invariant replacements == Replacements(p[..k], x)
    {
      var y := p[k];
      RefineSnoc(p, k, x);
      var i := x * y;
      if i == {} {
        q := q + [y];
        continue;
      }
      var d := y - x;
      if d == {} {
        q := q + [y];
        continue;
      }
      replacements := replacements + [Replacement(y, i, d)];
      q := q + [i, d];
    }
    assert p[..|p|] == p;
  }

  /** The worklist update loop for the splits of one pass. */
  method UpdateWorklist(w: seq<set<nat>>, replacements: seq<Replacement>) returns (v: seq<set<nat>>)
    ensures v == PushAll(w, replacements)
  {
    v := w;
    for k := 0 to |replacements|
      invariant v == PushAll(w, replacements[..k])
    {
      var r := replacements[k];
      ghost var before := v;
      assert replacements[..k + 1][..k] == replacements[..k];
      assert PushAll(w, replacements[..k + 1]) == Push(before, r);
      if r.y in v {
        var idx := IndexOf(v, r.y);
        v := v[..idx] + v[idx + 1..];
        v := v + [r.i];
        v := v + [r.d];
        assert v == before[..idx] + before[idx + 1..] + [r.i, r.d];
      } else if |r.i| <= |r.d| {
        v := v + [r.i];
      } else {
        v := v + [r.d];
      }
      assert v == Push(before, r);
    }
    assert replacements[..|replacements|] == replacements;
  }

  /** The partition after refining p by each preimage of xs in turn. */
  function RefineAll(p: seq<set<nat>>, xs: seq<set<nat>>): (q: seq<set<nat>>)
    ensures Union(q) == Union(p)
    ensures Disjoint(p) ==> Disjoint(q)
  {
    if xs == [] then p else Refine(RefineAll(p, xs[..|xs| - 1]), xs[|xs| - 1])
  }

  /** Refining by one more preimage refines the partition reached so far. */
  lemma RefineAllSnoc(p: seq<set<nat>>, xs: seq<set<nat>>, x: set<nat>)
    ensures RefineAll(p, xs + [x]) == Refine(RefineAll(p, xs), x)
  {
    assert (xs + [x])[..|xs|] == xs;
  }

  /**
   * Any sequence of refinements of a partition of `all` that separates f is
   * again a partition of `all` that separates f.
   */
  lemma {:induction false} RefineAllPartition(p: seq<set<nat>>, xs: seq<set<nat>>, all: set<nat>, f: set<nat>)
    requires IsPartition(p, all) && Separates(p, f)
    ensures IsPartition(RefineAll(p, xs), all) && Separates(RefineAll(p, xs), f)
    decreases |xs|
  {
    if xs != [] {
      var n := |xs| - 1;
      RefineAllPartition(p, xs[..n], all, f);
      RefineSeparates(RefineAll(p, xs[..n]), xs[n], f);
    }
  }

  /** a is a class of one of the partitions p passes through while refined by xs. */
  ghost predicate Reached(p: seq<set<nat>>, xs: seq<set<nat>>, a: set<nat>) {
    a in RefineAll(p, xs) || (xs != [] && Reached(p, xs[..|xs| - 1], a))
  }

  /** Both halves of every split a pass records are classes of the refined partition. */
  lemma {:induction false} ReplacementHalves(p: seq<set<nat>>, x: set<nat>, r: Replacement)
    requires r in Replacements(p, x)
    ensures r.i in Refine(p, x) && r.d in Refine(p, x)
    decreases |p|
  {
    var n := |p| - 1;
    var y := p[n];
    var rest, tail := Refine(p[..n], x), Split(y, x);
    var rs := Replacements(p[..n], x);
    assert Refine(p, x) == rest + tail;
    if r in rs {
      ReplacementHalves(p[..n], x, r);
    } else {
      assert r == Replacement(y, x * y, y - x);
      assert tail == [x * y, y - x];
    }
  }

  /** An entry of Push(w, r) was waiting in w or is a half of r. */
  lemma PushMembers(w: seq<set<nat>>, r: Replacement, a: set<nat>)
    requires a in Push(w, r)
    ensures a in w || a == r.i || a == r.d
  {
    if r.y in w {
      var k := IndexOf(w, r.y);
      assert Push(w, r) == w[..k] + w[k + 1..] + [r.i, r.d];
    }
  }

  /** An entry of PushAll(w, rs) was waiting in w or is a half of one of rs. */
  lemma {:induction false} PushAllMembers(w: seq<set<nat>>, rs: seq<Replacement>, a: set<nat>)
    requires a in PushAll(w, rs)
    ensures a in w || exists k :: 0 <= k < |rs| && (a == rs[k].i || a == rs[k].d)
    decreases |rs|
  {
    if rs != [] {
      var n := |rs| - 1;
      PushMembers(PushAll(w, rs[..n]), rs[n], a);
      if a in PushAll(w, rs[..n]) {
        PushAllMembers(w, rs[..n], a);
        if a !in w {
          var k :| 0 <= k < n && (a == rs[..n][k].i || a == rs[..n][k].d);
          assert rs[k] == rs[..n][k];
        }
      }
    }
  }

  /** A class reached before one more refinement is still reached. */
  lemma ReachedSnoc(p: seq<set<nat>>, xs: seq<set<nat>>, x: set<nat>, a: set<nat>)
    requires Reached(p, xs, a)
    ensures Reached(p, xs + [x], a)
  {
    assert (xs + [x])[..|xs|] == xs;
  }

  /**
   * One step of the refinement loop keeps the worklist honest: after refining
   * by x and pushing the halves of its splits, every waiting class is a class
   * of a partition reached so far.
   */
  lemma WorklistStep(p: seq<set<nat>>, xs: seq<set<nat>>, x: set<nat>, w: seq<set<nat>>)
    requires forall a :: a in w ==> Reached(p, xs, a)
    ensures forall a :: a in PushAll(w, Replacements(RefineAll(p, xs), x)) ==> Reached(p, xs + [x], a)
  {
    var q := RefineAll(p, xs);
    var rs := Replacements(q, x);
    RefineAllSnoc(p, xs, x);
    forall a | a in PushAll(w, rs) ensures Reached(p, xs + [x], a) {
      PushAllMembers(w, rs, a);
      if a in w {
        ReachedSnoc(p, xs, x, a);
      } else {
        var k :| 0 <= k < |rs| && (a == rs[k].i || a == rs[k].d);
        ReplacementHalves(q, x, rs[k]);
      }
    }
  }

  lemma SeparatesConcat(a: seq<set<nat>>, b: seq<set<nat>>, f: set<nat>)
    requires Separates(a, f) && Separates(b, f)
    ensures Separates(a + b, f)
  {
    forall k | 0 <= k < |a + b| ensures (a + b)[k] <= f || (a + b)[k] !! f {
      if k < |a| { assert (a + b)[k] == a[k]; } else { assert (a + b)[k] == b[k - |a|]; }
    }
  }

  /** A class kept whole by a pass lies inside x or outside it. */
  lemma SplitSeparates(y: set<nat>, x: set<nat>)
    ensures Separates(Split(y, x), x)
  {
    if x * y != {} && y - x != {} {
      assert Split(y, x) == [x * y, y - x];
    } else if x * y == {} {
      forall e | e in y ensures e !in x { assert e in x ==> e in x * y; }
      assert Split(y, x) == [y];
    } else {
      forall e | e in y ensures e in x { assert e !in x ==> e in y - x; }
      assert Split(y, x) == [y];
    }
  }

  /** A class inside x or outside it is kept whole by a pass for x. */
  lemma SplitOfSeparated(y: set<nat>, x: set<nat>)
    requires y <= x || y !! x
    ensures Split(y, x) == [y]
  {
    if y <= x {
      assert y - x == {};
    } else {
      assert x * y == {};
    }
  }

  /** After a pass for x, no class mixes members of x with non-members. */
  lemma {:induction false} RefineSeparatesPreimage(p: seq<set<nat>>, x: set<nat>)
    ensures Separates(Refine(p, x), x)
    decreases |p|
  {
    if p != [] {
      var n := |p| - 1;
      RefineSeparatesPreimage(p[..n], x);
      SplitSeparates(p[n], x);
      SeparatesConcat(Refine(p[..n], x), Split(p[n], x), x);
    }
  }

  /** A pass for x leaves unchanged a partition none of whose classes x splits. */
  lemma {:induction false} SeparatedIsStable(p: seq<set<nat>>, x: set<nat>)
    requires Separates(p, x)
    ensures Refine(p, x) == p
    decreases |p|
  {
    if p != [] {
      var n := |p| - 1;
      var y := p[n];
      assert Separates(p[..n], x) by {
        forall k | 0 <= k < n ensures p[..n][k] <= x || p[..n][k] !! x { assert p[..n][k] == p[k]; }
      }
      SeparatedIsStable(p[..n], x);
      SplitOfSeparated(y, x);
      calc {
        Refine(p, x);
        Refine(p[..n], x) + Split(y, x);
        p[..n] + [y];
        { assert p == p[..n] + [y]; }
        p;
      }
    }
  }

  /**
   * One more pass for x keeps every earlier preimage separated and
   * separates x as well.
   */
  lemma SeparatesAll(p: seq<set<nat>>, xs: seq<set<nat>>, x: set<nat>)
    requires forall i :: 0 <= i < |xs| ==> Separates(p, xs[i])
    ensures forall i :: 0 <= i < |xs + [x]| ==> Separates(Refine(p, x), (xs + [x])[i])
  {
    forall i | 0 <= i < |xs + [x]| ensures Separates(Refine(p, x), (xs + [x])[i]) {
      if i < |xs| {
        RefineSeparates(p, x, xs[i]);
      } else {
        RefineSeparatesPreimage(p, x);
      }
    }
  }
}
