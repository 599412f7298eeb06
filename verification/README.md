# ConcreteVerticesGraph in Dafny

This project models `ConcreteVerticesGraph`, a mutable, weighted, directed graph over string labels. It also models the package-private `Vertex` class that stores the graph.

- The graph is a list of vertices.
- Each vertex owns a label and a map from target label to edge weight.
- A weight of 0 means "no edge" and is never stored.
- No two vertices share a label.

The model has three modules:

- `VertexEdges` (`vertex.dfy`) is the `Vertex` class. It holds the `Vertex` datatype and the edge-map operations `SetTarget`, `GetTargets`, `GetTargetsMap`, `GetWeight` and `IsVertexInTargets`. It also holds the vertex invariant `WeightsPositive`.
- `ConcreteVerticesGraph` (`graph.dfy`) models the graph.
  - The representation is `Graph = seq<Vertex>`, in the same order as the Java `ArrayList`.
  - The representation invariant `Valid` requires distinct labels and positive weights.
  - The abstraction function `View` maps each label to its edge map.
  - `EdgeWeight(view, s, t)` is the weight of edge s→t, or 0 when the edge is absent.
  - The operations are `Add`, `Set`, `Remove`, `Vertices`, `Sources` and `Targets`, plus the helpers `HasVertex` and `IsVerticesNotDuplicate`.
  - Each mutator is a pure function. It takes the old list and returns `Step(graph, result)`: the new list, plus the value the Java method returns.
  - The contracts are stated against `View`.
- `GraphProperties` (`properties.dfy`) states the promised behaviour as lemmas. The behavioural lemmas are stated through the observers `Vertices`, `Targets` and `Sources`. They cover round-trips, frame conditions, self-loops and cascading removal. The edge-closure invariant says every edge ends at a vertex. It is stated on `View`, with a few helper lemmas on `AbstractGraph` values.

Each loop of the graph operations is modelled as a recursion that computes the same result as the loop. `HasVertex`, `SetFirst`, `ClearFirst` and `StripTarget` go front to back, as the Java loops do. The Java loops for `targets` and `remove` also go front to back, but let the last match win. `Targets` and `LastIndexOf` therefore search from the back. The duplicate-label check `IsVerticesNotDuplicate` keeps its two nested loops as a method.

- `targets` keeps the last vertex with a matching label, so `Targets` takes the last match.
- `sources` puts one entry per vertex, with later entries overriding earlier ones. `Sources` adds the entries in the same order, recursing on the prefix before the last vertex.
- `remove` strips the label from every vertex and then deletes the last matching position, as `StripTarget` and `LastIndexOf` do.

## Model

| member | source | states |
|---|---|---|
| VertexEdges.SetTarget | src/graph/ConcreteVerticesGraph.java:215-240 | a zero weight deletes the target and a positive weight inserts or replaces it; every other target keeps its weight; positive weights stay positive |
| VertexEdges.SetTargetEdgeMap | src/graph/ConcreteVerticesGraph.java:220-240 | the edge map after `setTarget` does not depend on whether the edge existed: zero deletes the key, a positive weight overwrites it |
| VertexEdges.GetWeight | src/graph/ConcreteVerticesGraph.java:267-274 | the weight of an existing edge of a vertex that keeps its invariant is positive; a missing edge is excluded by the precondition |
| VertexEdges.NewVertex | src/graph/ConcreteVerticesGraph.java:188-195 | a new vertex carries the given label, has no targets and satisfies the invariant |
| VertexEdges.AreWeightsPositive | src/graph/ConcreteVerticesGraph.java:202-213 | the run-time weight check passes every vertex whose weights are all positive and fails every vertex holding a negative weight |
| VertexEdges.IsVertexInTargets | src/graph/ConcreteVerticesGraph.java:276-289 | the primitive accessor, key membership in the edge map; it has no contract of its own, and its answers are fixed by the contracts of `SetTarget`, `NewVertex` and `GetTargets` and by `VariousTargets` |
| VertexEdges.GetTargets | src/graph/ConcreteVerticesGraph.java:250-256 | a label is among the targets exactly when `isVertexInTargets` answers true for it |
| VertexEdges.GetTargetsMap | src/graph/ConcreteVerticesGraph.java:258-265 | the map's keys are exactly the targets, each key holds the weight `getWeight` reads, and every weight is positive when the vertex keeps its invariant |
| VertexEdges.VariousTargets | test/graph/ConcreteVerticesGraphTest.java:104-129 | `isVertexInTargets` and `getWeight` read back the edges to three targets and a self-loop; after a zero `setTarget` T1 is gone while T2, T3 and V1 remain with their weights; an unset label is not a target |
| VertexEdges.CheckAdmitsZeroWeight | src/graph/ConcreteVerticesGraph.java:206-213 | a vertex holding a zero weight passes the run-time check although it breaks the positive-weight invariant |
| ConcreteVerticesGraph.HasVertex | src/graph/ConcreteVerticesGraph.java:143-155 | true exactly when the label is a vertex of the abstract graph |
| ConcreteVerticesGraph.IsVerticesNotDuplicate | src/graph/ConcreteVerticesGraph.java:30-45 | the pairwise comparison answers true exactly when no two vertices share a label |
| ConcreteVerticesGraph.Add | src/graph/ConcreteVerticesGraph.java:47-56 | returns true exactly when the label was absent, and then adds it with no edges; otherwise the list is unchanged; labels stay distinct |
| ConcreteVerticesGraph.SetFirst | src/graph/ConcreteVerticesGraph.java:64-73 | on the vertex labelled `source`, sets the edge to `target` and returns its previous weight (0 if none); other vertices are untouched |
| ConcreteVerticesGraph.ClearFirst | src/graph/ConcreteVerticesGraph.java:75-85 | deletes the edge source→target if present and returns its old weight (0 if absent); nothing else changes |
| ConcreteVerticesGraph.Set | src/graph/ConcreteVerticesGraph.java:58-87 | a negative weight changes nothing and returns 0; otherwise it returns the previous weight of source→target, leaves that edge with the new weight (zero means absent), and leaves every other edge unchanged; a positive weight adds exactly the missing endpoints; the invariant is kept |
| ConcreteVerticesGraph.StripTarget | src/graph/ConcreteVerticesGraph.java:94-101 | every vertex keeps its label and loses only its edge into the removed label |
| ConcreteVerticesGraph.LastIndexOf | src/graph/ConcreteVerticesGraph.java:94-97 | the index found holds the label, and no later vertex has it |
| ConcreteVerticesGraph.ViewRemoveAt | src/graph/ConcreteVerticesGraph.java:102 | deleting one position of a list with distinct labels removes exactly that label from the abstract graph |
| ConcreteVerticesGraph.Remove | src/graph/ConcreteVerticesGraph.java:89-107 | returns true exactly when the label was present; if so, the label leaves the vertex set and every remaining edge map loses its edge to it; otherwise nothing changes; the invariant is kept |
| ConcreteVerticesGraph.Vertices | src/graph/ConcreteVerticesGraph.java:109-117 | the set of labels is exactly the key set of the abstract graph |
| ConcreteVerticesGraph.Sources | src/graph/ConcreteVerticesGraph.java:119-129 | maps exactly the vertices with an edge into `target` to that edge's weight |
| ConcreteVerticesGraph.Targets | src/graph/ConcreteVerticesGraph.java:131-141 | the edge map of `source`, or the empty map when `source` is not a vertex |
| ConcreteVerticesGraph.ViewWeightsPositive | src/graph/ConcreteVerticesGraph.java:180-183 | in a valid graph every edge seen through the abstraction has a positive weight |
| GraphProperties.ObservedWeight | src/graph/ConcreteVerticesGraph.java:131-141 | the weight a caller reads through `targets` is the abstract edge weight |
| GraphProperties.EmptyBaseline | test/graph/GraphInstanceTest.java:71-75 | a new graph is valid, has no vertices, and has empty `targets` and `sources` for every label |
| GraphProperties.AddInsertsLabel | test/graph/GraphInstanceTest.java:82-100 | `add` answers true exactly for an absent label; afterwards the label is a vertex, no other vertex changes, and no edge changes |
| GraphProperties.AddTwice | test/graph/GraphInstanceTest.java:102-109 | a second `add` of the same label returns false and leaves the graph unchanged |
| GraphProperties.SetPositiveRoundTrip | test/graph/GraphInstanceTest.java:115-133 | after a positive `set` both endpoints are vertices, `targets(source)` and `sources(target)` both hold the weight, and the call returned the old weight |
| GraphProperties.SetFrame | src/graph/ConcreteVerticesGraph.java:59-87 | `set` with a non-negative weight changes no edge other than the one it names |
| GraphProperties.SelfLoopOnEmpty | src/graph/ConcreteVerticesGraph.java:62-69 | `set(a, a, w)` on a new graph returns 0 and creates the single vertex `a` with `targets(a) == {a: w}` |
| GraphProperties.SelfLoop | test/graph/GraphInstanceTest.java:146-155 | `set(a, a, w)` returns the previous a→a weight, adds at most the one vertex `a` (none when `a` already exists), and `targets(a)` shows the edge a→a with weight w |
| GraphProperties.SetZeroClears | test/graph/GraphInstanceTest.java:135-144 | `set` with weight 0 returns the old weight, leaves the vertex set unchanged, and leaves no edge source→target |
| GraphProperties.SetThenClear | test/graph/GraphInstanceTest.java:170-181 | setting and then clearing an edge returns the weight set, keeps both endpoints, and restores every other edge |
| GraphProperties.PreviousWeightReturned | test/graph/GraphInstanceTest.java:157-168 | each `set` of an edge returns the weight stored by the previous `set` of that edge |
| GraphProperties.RemoveCascades | src/graph/ConcreteVerticesGraph.java:89-107 | `remove` answers whether the label was present; afterwards the label is not a vertex and every edge not touching it is kept; if it was present, no vertex targets it and it has no sources |
| GraphProperties.RemoveLeavesNoEdgeInto | src/graph/ConcreteVerticesGraph.java:89-107 | in a graph whose every edge ends at a vertex, after `remove(l)` no vertex targets `l` and `l` has no sources, whether or not `l` was present |
| GraphProperties.AddKeepsEdgesClosed | src/graph/ConcreteVerticesGraph.java:47-56 | `add` keeps every edge ending at a vertex |
| GraphProperties.SetKeepsEdgesClosed | src/graph/ConcreteVerticesGraph.java:59-87 | `set` keeps every edge ending at a vertex |
| GraphProperties.RemoveKeepsEdgesClosed | src/graph/ConcreteVerticesGraph.java:93-101 | `remove` keeps every edge ending at a vertex, because it strips the edges into the removed label |
| GraphProperties.AddRemoveRoundTrip | src/graph/ConcreteVerticesGraph.java:89-107 | removing a freshly added label restores the abstract graph, so the vertex set and every `targets` and `sources` answer are as before |
| GraphProperties.Walkthrough | src/graph/ConcreteVerticesGraph.java:47-107 | add V1; set V1→V2 to 2; set it to 5; remove V2. The calls return true, 0, 2 and true, and V1 is left alone with no edges |

## Left out

- `toString` of both classes: these are diagnostic summaries with no structural contract.
- `checkRep` as a run-time assertion: the invariants are the predicates `Valid` and `WeightsPositive`. Every mutator requires and ensures `Valid`. `IsVerticesNotDuplicate` and `AreWeightsPositive` model the checks themselves, as a loop and as a quantifier.
- Reference equality on labels: the Java code compares labels with `==` (lines 38, 65, 77, 95, 135, 150). The model uses value equality on `string` everywhere. This is a deliberate correction. With `==`, two equal but distinct `String` objects would count as different labels.
- VertexEdges.SetTarget: requires `weight >= 0`. Given a negative weight, the Java method stores it, through `replace` on an existing target (line 227) or `put` on an absent one (line 236). The following `checkRep` (lines 228 and 237, then 199 and 208) then throws `AssertionError` when assertions are enabled, as the test suite requires. The graph never passes a negative weight.
- VertexEdges.GetWeight: requires the edge to exist. On a missing target the Java method unboxes `null` and throws `NullPointerException` (line 273). Every caller checks first (lines 66, 77 and 123).
- `null` labels: the Java code accepts `null` as a label in `add`, `set`, `remove` and the observers, through `==` and `HashMap`. A Dafny `string` cannot be `null`, so this case is not modelled.
- ConcreteVerticesGraph.Targets: requires distinct labels, which the representation invariant guarantees. The Java method takes the last matching vertex whatever the state.
- ConcreteVerticesGraph.Sources: requires distinct labels, which the representation invariant guarantees.
- `vertices.indexOf(testVertex)` finds a vertex by object identity. The model uses the vertex's position instead.
- Mutation and aliasing: each mutator returns a new immutable list, so the defensive copies made by `getTargets`, `getTargetsMap` and the observers have no counterpart.
- The generic `Graph<L>` interface: labels are fixed to `string`, as in `ConcreteVerticesGraph`. The unused `CheckedInputStream` import is not modelled.
- Java `int` overflow: weights are unbounded integers. The code never does arithmetic on them, so no wrap-around can occur.

## Findings

| source | as written | input that shows it | evidently intended | confidence | as-written member | corrected member |
|---|---|---|---|---|---|---|
| src/graph/ConcreteVerticesGraph.java:206-213 | `areWeightsPositive` rejects only weights `< 0` | a vertex `V1` with edge `T1` of weight 0 passes the check | reject every weight that is not positive, as the method's comment and the invariant at line 183 say | medium, not executed; `setTarget` never stores 0, so no reachable state shows it | VertexEdges.CheckAdmitsZeroWeight | VertexEdges.WeightsPositive, kept by VertexEdges.SetTarget |
