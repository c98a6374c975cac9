# grex's automaton builder and minimizer, in Dafny

grex turns a list of test strings into one regular expression. Its first
step is to build an automaton that accepts exactly those strings. Each string
is split into grapheme clusters, and each grapheme is one character or a
range of code points that share a display value. The step has three parts,
all in `src/dfa.rs`:

- **Insertion** (`DFA::new`, `insert`, `get_next_state`, `find_next_state`,
  `add_new_state`). Each cluster is inserted like a trie: the builder walks
  from the initial state and reuses an edge whose label has the grapheme's
  display value and the same maximum. When the label's maximum is one below
  the grapheme's, it widens the label to cover both ranges. Otherwise it adds
  a fresh state and one edge. The state it reaches at the end becomes final.
- **Minimization** (`minimize`, `get_initial_partition`,
  `get_parent_states`). This is Hopcroft-style partition refinement. The
  partition is an ordered list of disjoint state sets. Every class Y that the
  preimage X of a splitter class separates is replaced in place by X∩Y
  followed by Y\X. In the worklist, Y is replaced by both halves when Y is
  waiting; otherwise the smaller half is pushed.
- **Rebuild** (`recreate_graph`). The rebuild makes one new state per
  non-empty class. It copies the out-edges of one representative per class,
  and it swaps in the new graph, the new initial state and the new final
  states together.

The model keeps this structure:

- `graph.dfy`: graphemes, with only the fields the automaton reads (display
  value, minimum, maximum). It also holds the graph as an arena: state `s`
  is the index `s`, and `g[s]` lists its out-edges in the order they were
  added. `FindEdge` is petgraph's `find_edge`, which returns the first edge
  to a target.
- `builder.dfy`: one insertion step as pure functions of the graph
  (`FindNext`, `AddState`, `NextState`) and the walk `insert` performs
  (`Walk`), with their properties.
- `partition.dfy`: partitions and worklists as `seq<set<nat>>`, one cursor
  pass (`Refine`, `Replacements`), a run of passes (`RefineAll`) and the
  worklist rule (`Push`, `PushAll`). The inner loops of `minimize` are the
  methods `SplitClasses` and `UpdateWorklist`, proved equal to those
  functions.
- `minimizer.dfy`: the initial partition, the preimage (`ParentStates`),
  the refinement loop as a function of the grapheme order of each round
  (`RoundSteps`, `Run`, `Enumerates`), the record of the splitters it used
  (`Splitter`, `SplitterTrace`) and what the rebuild produces
  (`RebuiltGraph`, `RebuiltFinals`).
- `dfa.dfy`: the automaton as a class `Automaton.Dfa` whose methods change
  its fields in place. The insertion methods and the rebuild methods are
  proved equal to the functions above. The refinement loop
  (`RefinePartition`, one round per worklist class in `RefineRound`) is
  proved to compute `Run` for the grapheme order it used in each round,
  each order listing the alphabet once, and to stop only with an empty
  worklist. Its result is also the initial partition refined by the
  preimages of a splitter trace, and a further pass for any of those
  preimages changes nothing. The two passes of `recreate_graph` are
  the heap-free methods `Rebuild`, `MapStates`, `MapClass`, `CopyClasses` and
  `CopyEdges`. `FromClusters` is `DFA::from`; `Builder.Inserted` is the graph and
  final states its inserts build.

Where the code and its documentation disagree, the model follows the code:

- `get_initial_partition` binds its first class to a name that says "final",
  but the predicate it partitions by is "not final". The first class
  therefore holds the non-final states, as `Minimizer.InitialPartition`
  states.
- `recreate_graph` marks a new state final only when a copied edge enters it
  from a final old target. It does not check whether some member of the class
  was final. A final state that no edge enters is dropped. Inserting the
  empty cluster makes the initial state final, and the rebuild then loses
  that. `Minimizer.UnenteredFinalIsDropped` states the general rule and
  `Minimizer.EmptyClusterIsLost` shows it on the smallest such automaton.

## Model

| member | source | states |
|---|---|---|
| Graphemes.Widen | src/dfa.rs:120-124 | the widened label keeps the new grapheme's display value and spans the smaller minimum and the larger maximum of the two |
| Graphs.States | src/dfa.rs:199-203 | the state identifiers of an n-state graph are exactly 0 .. n-1, and there are n of them |
| Graphs.FindEdge | src/dfa.rs:113 | find_edge returns the first edge to the target, or None exactly when no edge leads there |
| Builder.FirstReusable | src/dfa.rs:112-131 | the neighbour find_next_state stops at is the first one whose label has the grapheme's value and whose maximum equals the grapheme's maximum or is one below it; None means no neighbour qualifies |
| Builder.FindNext | src/dfa.rs:111-133 | on None the graph is unchanged and no neighbour is reusable; on Some the target is that of a reusable edge, and either nothing changes (equal maximum) or only that edge's label is widened (maximum one below) |
| Builder.AddState | src/dfa.rs:135-140 | add_new_state returns a brand-new state without out-edges, joined to the current state by exactly one new edge with the label; every other state is unchanged and the edge count grows by one |
| Builder.FindNextWellFormed | src/dfa.rs:111-133 | following or widening an edge adds no state and keeps every edge inside the graph |
| Builder.NextState | src/dfa.rs:104-109 | the graph after get_next_state is well formed and the state returned belongs to it |
| Builder.NextStateEffect | src/dfa.rs:104-109 | get_next_state adds at most one state: with no new state, the state reached is an existing successor and no adjacency list changes length; otherwise the new state is a leaf entered by one new edge carrying the label; edges minus states is kept |
| Builder.Walk | src/dfa.rs:94-100 | the walk of insert leaves a well-formed graph and ends in one of its states |
| Builder.WalkGrowth | src/dfa.rs:94-100 | a walk adds at most one state per grapheme and keeps edges minus states |
| Builder.WalkFromLeaf | src/dfa.rs:94-100 | a walk from a state without out-edges adds exactly one state per grapheme and ends in a state without out-edges |
| Builder.NextFromLeaf | src/dfa.rs:104-109 | from a state without out-edges, get_next_state always adds a state |
| Builder.InsertIntoFresh | src/dfa.rs:277-281 | inserting n graphemes into a fresh automaton gives n + 1 states and n edges |
| Builder.FreshWalk | src/dfa.rs:82-100 | inserting a cluster into a fresh automaton builds a chain labelled by the cluster and ends in its last state |
| Builder.FollowStep | src/dfa.rs:104-130 | when the first reusable edge out of a state has exactly the grapheme's maximum, get_next_state follows it to its target and changes nothing |
| Builder.WalkAlongPath | src/dfa.rs:94-100 | a cluster whose every grapheme is followed, state by state along a path, without widening reuses those edges: the walk ends at the path's last state and leaves the graph unchanged |
| Builder.ReusePrefix | src/dfa.rs:111-130 | a two-grapheme cluster that matches a two-edge chain out of the initial state exactly is walked along that chain without changing the graph |
| Builder.Diverge | src/dfa.rs:104-109 | after a shared prefix, a grapheme with another display value starts a new branch: two more graphemes add two states and two edges |
| Builder.InsertDivergingPair | src/dfa.rs:373-379 | inserting two four-grapheme clusters that differ in the third display value gives 5 states and 4 edges, then 7 states and 6 edges |
| Builder.InsertAbcdThenAbxd | src/dfa.rs:373-379 | "abcd" then "abxd": 5 states and 4 edges, then 7 states and 6 edges |
| Builder.FreshChainOfFour | src/dfa.rs:373-375 | four graphemes inserted into a fresh automaton build the chain 0 → 1 → 2 → 3 → 4, and the walk ends in state 4 |
| Builder.DivergingPairGraph | src/dfa.rs:373-379 | the second cluster reuses the edges to states 1 and 2, adds an edge to a new state 5 after state 2's old edge, and one from 5 to a new state 6, where it ends; the first ends in state 4 |
| Builder.Inserted | src/dfa.rs:42-48 | the graph that inserting the clusters in order into a fresh automaton builds is well formed and non-empty, and its final states are states of it |
| Builder.ChainSnoc | src/dfa.rs:135-140 | adding a state and one edge to it at the end of a chain gives the chain of the longer cluster |
| Partitions.NonEmpty | src/dfa.rs:196 | dropping the empty classes keeps the covered states and disjointness and leaves only classes of p |
| Partitions.NonEmptyBound | src/dfa.rs:196 | a partition of a state set has at most as many non-empty classes as states |
| Partitions.Split | src/dfa.rs:155-175 | one class Y is replaced by pieces that cover exactly Y and are disjoint; the number of non-empty classes grows by one exactly when it is split |
| Partitions.Replacements | src/dfa.rs:170 | every recorded split has I = X∩Y and D = Y\X, both non-empty, for a class Y of the partition |
| Partitions.Refine | src/dfa.rs:155-177 | a cursor pass keeps the covered states and keeps the classes disjoint |
| Partitions.RefineCount | src/dfa.rs:155-177 | every recorded split adds exactly one non-empty class |
| Partitions.RefineStep | src/dfa.rs:155-177 | appending one class's split keeps coverage and disjointness and adds one non-empty class exactly when the class is split |
| Partitions.RefineSeparates | src/dfa.rs:155-177 | refinement never puts a final and a non-final state into one class |
| Partitions.NonEmptySeparates | src/dfa.rs:196 | dropping the empty classes keeps final and non-final states apart |
| Partitions.RefineAll | src/dfa.rs:148-193 | refining by a sequence of preimages in turn keeps the covered states and keeps the classes disjoint |
| Partitions.RefineAllPartition | src/dfa.rs:148-193 | any run of passes turns a partition of the states that separates the final ones into another such partition |
| Partitions.ReplacementHalves | src/dfa.rs:170-176 | both halves I and D of every recorded split are classes of the refined partition |
| Partitions.SplitSeparates | src/dfa.rs:156-168 | a class a pass keeps whole lies entirely inside X or entirely outside it |
| Partitions.SplitOfSeparated | src/dfa.rs:156-168 | a class inside X or outside it is kept whole: one of I and D is empty |
| Partitions.RefineSeparatesPreimage | src/dfa.rs:155-177 | after a pass for X no class holds both a member of X and a non-member |
| Partitions.SeparatedIsStable | src/dfa.rs:155-177 | a pass for X leaves unchanged a partition none of whose classes X splits |
| Partitions.SeparatesAll | src/dfa.rs:148-177 | one more pass keeps every earlier preimage from splitting a class and adds its own |
| Partitions.ClassOf | src/dfa.rs:234-243 | the new state a member is mapped to is a class holding it, the last one; it is the only one when the classes are disjoint |
| Partitions.IndexOf | src/dfa.rs:183 | position finds the first occurrence of Y in the worklist |
| Partitions.Push | src/dfa.rs:181-191 | the worklist grows by one; when Y is not waiting, the rest is unchanged and the smaller half is pushed, I on a tie |
| Partitions.PushReplaces | src/dfa.rs:182-186 | when Y is waiting, one copy of Y is traded for I and D |
| Partitions.PushAll | src/dfa.rs:181-192 | the worklist grows by one entry per split |
| Partitions.PushMembers | src/dfa.rs:182-190 | an entry of the worklist after one update was waiting before or is a half of the split |
| Partitions.PushAllMembers | src/dfa.rs:181-192 | an entry of the worklist after a pass's updates was waiting before or is a half of one of the splits |
| Partitions.WorklistStep | src/dfa.rs:149-192 | after a pass and its worklist updates, every waiting class is a class of a partition reached so far |
| Partitions.SplitClasses | src/dfa.rs:155-177 | the cursor loop computes the refined partition and the splits, in order |
| Partitions.UpdateWorklist | src/dfa.rs:181-192 | the worklist loop applies the rule to every split in order |
| Minimizer.InitialPartition | src/dfa.rs:199-206 | exactly two disjoint classes that cover all states: the non-final states first, the final ones second |
| Minimizer.ParentOf | src/dfa.rs:212-222 | the parent recorded for q is the first state whose edge to q matches, and none when no state has one |
| Minimizer.ParentStates | src/dfa.rs:208-226 | every member of X has a matching edge into A, and every state of A that has a matching parent contributes one |
| Minimizer.ParentStatesBound | src/dfa.rs:211-222 | because of the break, each state of A contributes at most one parent, so the preimage is no larger than A |
| Minimizer.EnumeratesMembers | src/dfa.rs:151 | a round's grapheme order holds exactly the graphemes of the alphabet, each once |
| Minimizer.EnumeratesSnoc | src/dfa.rs:151 | visiting one more grapheme, not visited yet, extends the order to one more grapheme |
| Minimizer.EnumeratesEach | src/dfa.rs:148-151 | every round of a run iterates the whole alphabet |
| Minimizer.RoundSteps | src/dfa.rs:151-192 | a round of passes, each with its worklist updates, keeps the covered states and disjointness and never shortens the worklist |
| Minimizer.Run | src/dfa.rs:148-193 | the refinement loop, one round per class taken from the head of the worklist, keeps the covered states and disjointness |
| Minimizer.RoundStepsSnoc | src/dfa.rs:151-192 | one more grapheme in a round is one more pass for its preimage of the splitter class, then the worklist update for that pass's splits |
| Minimizer.RunSnoc | src/dfa.rs:148-151 | while the worklist is not empty, one more round takes its head as the splitter class and runs on the rest of it |
| Minimizer.TraceSnoc | src/dfa.rs:149-152 | a run's trace grows by the preimage of a class reached so far, for a grapheme of the alphabet, and stays a trace |
| Minimizer.CopiedEdge | src/dfa.rs:249-258 | a copied edge leads to the new state of the class holding the old target |
| Minimizer.CopiedEdgeLabel | src/dfa.rs:250-255 | the copied label is that of the first edge to the same neighbour, which is the edge's own label when no earlier edge leads there |
| Minimizer.CopiedEdges | src/dfa.rs:249-263 | a representative's copied edges are as many as its out-edges, each copied in order |
| Minimizer.RebuiltGraph | src/dfa.rs:234-264 | the rebuilt graph has one state per class, whose out-edges are the copies of its representative's, and every edge leads to a new state |
| Minimizer.FinalTargets | src/dfa.rs:260-262 | the new states marked final by one representative's edges are new states |
| Minimizer.FinalTargetsMembers | src/dfa.rs:249-263 | a new state is marked by a representative's edges exactly when one of them enters it from a final old target |
| Minimizer.RebuiltFinals | src/dfa.rs:245-264 | the rebuilt final states are states of the rebuilt graph |
| Minimizer.RebuiltFinalsMembers | src/dfa.rs:245-264 | a new state is final exactly when some representative's copied edge enters it from a final old target |
| Minimizer.RebuiltFinalsAreFinal | src/dfa.rs:245-264 | when the classes never mix final and non-final states, every new final state stands for a class of final states only |
| Minimizer.UnenteredFinalIsDropped | src/dfa.rs:260-262 | a new state whose class no out-edge of any representative enters is not final after the rebuild, whatever its members were |
| Minimizer.EmptyClusterIsLost | src/dfa.rs:94-101 | inserting the empty cluster into a fresh automaton leaves one state, final, yet the rebuild over the class {0} has no final state |
| Minimizer.DivergingPairPartition | src/dfa.rs:381-383 | {0}, {1}, {2}, {3, 5}, {4, 6} partition the seven states and keep the final states 4 and 6 apart from the others |
| Minimizer.RebuildDivergingPair | src/dfa.rs:381-383 | rebuilding the seven-state graph over {0}, {1}, {2}, {3, 5}, {4, 6} gives 5 states and 5 edges for every choice of representatives |
| Automaton.Dfa.constructor | src/dfa.rs:82-92 | a fresh automaton has one state, the initial one, no edges, no final states and an empty alphabet |
| Automaton.Dfa.StateCount | src/dfa.rs:51-53 | the state count is the number of state identifiers in use |
| Automaton.Dfa.IsFinalState | src/dfa.rs:68-70 | a state is final exactly when it is in the final set, and only states of the graph are |
| Automaton.Dfa.AddNewState | src/dfa.rs:135-140 | the method's new graph and result are AddState's, and the other fields are unchanged |
| Automaton.Dfa.FindNextState | src/dfa.rs:111-133 | the neighbour loop computes FindNext, widening the label in place |
| Automaton.Dfa.GetNextState | src/dfa.rs:104-109 | the method's new graph and result are NextState's |
| Automaton.Dfa.Insert | src/dfa.rs:94-102 | the graph afterwards is the walk's; the state reached is added to the final states, which keep the old ones; every grapheme of the cluster is added to the alphabet |
| Automaton.Dfa.RefinePartition | src/dfa.rs:143-194 | the loop starts from the initial partition with its classes as the worklist, terminates, and returns what `Run` computes for the rounds it made, each over the whole alphabet once, with the worklist then empty; the result is the initial partition refined along a splitter trace, a partition of all states that never mixes final and non-final states, and a further pass for any preimage used changes nothing |
| Automaton.Dfa.RefineRound | src/dfa.rs:149-192 | one round for the class taken off the worklist computes `RoundSteps` for an order listing the alphabet once, extends the splitter trace, keeps every preimage used from splitting a class, and adds one worklist entry per new class |
| Automaton.Dfa.RecreateGraph | src/dfa.rs:228-268 | the new graph is the rebuilt one for representatives chosen from their classes, the initial state is the class of the old one, the final states are the rebuilt ones, and the automaton stays valid |
| Automaton.Dfa.Minimize | src/dfa.rs:143-197 | the classes are the non-empty classes of the partition a complete run of the refinement loop reaches (worklist empty, each round over the whole alphabet, stable under every preimage used), and they are rebuilt over representatives from their classes: the state count never grows, the initial state becomes its class, and every new final state stands for final old states only |
| Automaton.Rebuild | src/dfa.rs:229-264 | the two passes over a partition with non-empty classes produce the rebuilt graph, the class of the initial state and the rebuilt final states |
| Automaton.CopyClasses | src/dfa.rs:245-264 | the second pass picks one representative per class and produces the rebuilt graph and final states |
| Automaton.MapStates | src/dfa.rs:232-243 | the first pass maps exactly the states of the classes, each to the class that holds it, and finds the initial state's class exactly when some class holds it |
| Automaton.MapClass | src/dfa.rs:237-242 | the inner loop maps every member of the class to its new state and nothing else changes |
| Automaton.CopyEdges | src/dfa.rs:249-263 | the inner loop produces a representative's copied edges and the new states they mark final |
| Automaton.AlphabetOf | src/dfa.rs:42-46 | a grapheme is in the alphabet exactly when it occurs in some cluster |
| Automaton.FromClusters | src/dfa.rs:42-49 | from builds a valid automaton whose alphabet is the graphemes of all clusters, and whose graph, final states and initial state are the rebuild of the inserted graph over the non-empty classes of a complete refinement run on it, with state 0's class initial |
| Automaton.MinimizeAbcdAbxd | src/dfa.rs:373-383 | "abcd" then "abxd" end in states 4 and 6 of a seven-state graph; {0}, {1}, {2}, {3, 5}, {4, 6} partition it and separate the final states, and the rebuild over them has 5 states and 5 edges for every choice of representatives |

## Left out

- Integer width: `maximum - 1` at src/dfa.rs:120 is computed on unbounded integers. In the source it is a `u32` and would underflow for a maximum of 0.
- Neighbour order: petgraph's `neighbors`, `neighbors_directed` and `edges_directed` iterate in an order fixed by the library, which is not part of this model. The model fixes one order: a state's out-edges in the order they were added, and parents in ascending state order. The `outgoing_edges` test (src/dfa.rs:295-317) depends on that order and is not stated.
- Set iteration order: the model lets the alphabet and each class be iterated in any order (arbitrary choice with `:|`), and that includes the source's orders: the `BTreeSet` alphabet in ascending `Ord` order, the `HashSet` classes in an order the hasher fixes. The results are stated for the order each round used (`Run`, `Enumerates`), not for the ascending one. The representative of a class is therefore some member, not a particular one.
- `states_in_depth_first_order` and `outgoing_edges` (src/dfa.rs:55-66) are thin wrappers over petgraph's `Dfs` and edge iterator, which are not part of this model.
- `println` and the Graphviz output (src/dfa.rs:72-80) are debugging I/O.
- `is_output_colorized` and the construction of graphemes and clusters (`Grapheme::new`, `chars()`, `GraphemeCluster`) belong to modules that are not part of this model. A grapheme is its display value, minimum and maximum, and a cluster is a sequence of graphemes.
- The linked-list cursor of `minimize` (src/dfa.rs:146, 155-179) is modelled by its net effect. One pass builds the refined partition as a new sequence, in which each split class is replaced in place by I followed by D.
- Automaton.Dfa.Minimize: the partition reached is stated as `Run` of the grapheme orders the rounds used, not evaluated on a particular graph. So the test at src/dfa.rs:381-383 and 395-396 ("abcd" and "abxd" minimize to 5 states and 5 edges) is proved only for its rebuild half: `Automaton.MinimizeAbcdAbxd` shows that the classes {0}, {1}, {2}, {3, 5}, {4, 6} give 5 states and 5 edges, but not that `Run` on that graph ends with them. Stability is stated for the preimages the run used, not for every class of the result and every grapheme.
- Automaton.Dfa.Minimize: does not state that the minimized automaton accepts the same strings or is minimal. The source neither states nor tests this. The approximate label match, the per-state `break` in `get_parent_states` and the edge-only final marking mean it need not hold.
- Automaton.Dfa.RecreateGraph: requires a partition of the states into non-empty classes, which is what `minimize`, its only caller, passes. The source itself needs less: non-empty classes, and the initial state and every edge target in some class (it unwraps those lookups). For overlapping classes it maps a state to the last class holding it; `Partitions.ClassOf` models that rule, but the method's contract does not cover overlapping classes.
- Node creation in `recreate_graph` (src/dfa.rs:234-235) is folded into allocating one empty adjacency list per class before the edges are copied.
