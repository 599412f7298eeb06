/** A mutable weighted directed graph over string labels, represented as a
    list of vertices that each own their outgoing edges. Every mutator is a
    pure function from the old list to a `Step` holding the new list and
    the value the mutator returns. */
module ConcreteVerticesGraph {
  import opened VertexEdges

  type Graph = seq<Vertex>

  /** The list after a mutation, and the value the mutation returns. */
  datatype Step<T> = Step(graph: Graph, result: T)

  /** Abstract state: each label to its outgoing edges. */
  type AbstractGraph = map<string, map<string, int>>

  /** No two vertices of the list share a label. */
  predicate NamesDistinct(g: Graph)
  {
    forall i, j :: 0 <= i < j < |g| ==> g[i].name != g[j].name
  }

  /** Representation invariant of the graph. */
  predicate Valid(g: Graph)
  {
    && NamesDistinct(g)
    && forall i :: 0 <= i < |g| ==> WeightsPositive(g[i])
  }

  /** Abstraction function: a label maps to the edge map of the first vertex
      carrying it (with distinct labels there is only one). */
  ghost function View(g: Graph): AbstractGraph
  {
    if g == [] then map[] else View(g[1..])[g[0].name := g[0].targets]
  }

  /** Weight of the edge s -> t in an abstract graph, 0 when there is none. */
  ghost function EdgeWeight(m: AbstractGraph, s: string, t: string): int
  {
    if s in m && t in m[s] then m[s][t] else 0
  }

  /** Every edge of an abstract graph ends at one of its vertices. */
  ghost predicate EdgesClosed(m: AbstractGraph)
  {
    forall s, t :: s in m && t in m[s] ==> t in m
  }

  /** Index characterisation of `View`: the labels of the view are exactly
      the labels in the list, and with distinct labels each one maps to the
      edges of its vertex. */
  lemma {:induction false} ViewIndex(g: Graph)
    ensures forall n :: n in View(g) <==> exists i :: 0 <= i < |g| && g[i].name == n
    ensures NamesDistinct(g) ==>
              forall i :: 0 <= i < |g| ==> g[i].name in View(g) && View(g)[g[i].name] == g[i].targets
  {
    if g != [] {
      var rest := g[1..];
      ViewIndex(rest);
      assert forall i :: 1 <= i < |g| ==> g[i] == rest[i - 1];
      forall n | n in View(g)
        ensures exists i :: 0 <= i < |g| && g[i].name == n
      {
        if n != g[0].name {
          assert n in View(rest);
          var k :| 0 <= k < |rest| && rest[k].name == n;
          assert g[k + 1].name == n;
        }
      }
      forall n | exists i :: 0 <= i < |g| && g[i].name == n
        ensures n in View(g)
      {
        var i :| 0 <= i < |g| && g[i].name == n;
        if i > 0 {
          assert rest[i - 1].name == n;
        }
      }
      if NamesDistinct(g) {
        assert NamesDistinct(rest);
        forall i | 0 <= i < |g|
          ensures g[i].name in View(g) && View(g)[g[i].name] == g[i].targets
        {
          if i > 0 {
            assert rest[i - 1] == g[i];
            assert g[i].name != g[0].name;
          }
        }
      }
    }
  }

  /** Appending a vertex adds its label to the view unless the label is already there. */
  lemma {:induction false} ViewAppend(g: Graph, v: Vertex)
    ensures View(g + [v]) == if v.name in View(g) then View(g) else View(g)[v.name := v.targets]
  {
    if g != [] {
      assert (g + [v])[1..] == g[1..] + [v];
      ViewAppend(g[1..], v);
    }
  }

  /** With distinct labels the first vertex's label does not occur in the rest. */
  lemma HeadNotInTail(g: Graph)
    requires |g| > 0 && NamesDistinct(g)
    ensures g[0].name !in View(g[1..])
  {
    ViewIndex(g[1..]);
  }

  /** With distinct labels the last vertex's label does not occur before it. */
  lemma LastNotInPrefix(g: Graph)
    requires |g| > 0 && NamesDistinct(g)
    ensures g[|g| - 1].name !in View(g[..|g| - 1])
  {
    var p := g[..|g| - 1];
    ViewIndex(p);
  }

  /** Deleting the vertex at index i removes exactly its label from the view. */
  lemma {:induction false} ViewRemoveAt(g: Graph, i: nat)
    requires NamesDistinct(g) && i < |g|
    ensures NamesDistinct(g[..i] + g[i + 1..])
    ensures View(g[..i] + g[i + 1..]) == View(g) - {g[i].name}
  {
    var h := g[..i] + g[i + 1..];
    RemoveAtNamesDistinct(g, i);
    HeadNotInTail(g);
    if i == 0 {
      assert h == g[1..];
      assert View(g) - {g[0].name} == View(g[1..]) - {g[0].name};
    } else {
      var rest := g[1..];
      assert h[1..] == rest[..i - 1] + rest[i..];
      ViewRemoveAt(rest, i - 1);
      assert h[0] == g[0] && rest[i - 1] == g[i];
      assert View(h) == (View(rest) - {g[i].name})[g[0].name := g[0].targets];
    }
  }

  /** Deleting one position keeps the remaining labels distinct. */
  lemma RemoveAtNamesDistinct(g: Graph, i: nat)
    requires NamesDistinct(g) && i < |g|
    ensures NamesDistinct(g[..i] + g[i + 1..])
  {
    var h := g[..i] + g[i + 1..];
    forall a, b | 0 <= a < b < |h|
      ensures h[a].name != h[b].name
    {
      var a', b' := if a < i then a else a + 1, if b < i then b else b + 1;
      assert h[a] == g[a'] && h[b] == g[b'];
    }
  }

  /** Every edge of the view of a valid list has a positive weight, so a
      zero `EdgeWeight` means the edge is absent. */
  lemma ViewWeightsPositive(g: Graph)
    requires Valid(g)
    ensures forall s, t :: s in View(g) && t in View(g)[s] ==> View(g)[s][t] > 0
  {
    ViewIndex(g);
    forall s, t | s in View(g) && t in View(g)[s]
      ensures View(g)[s][t] > 0
    {
      var k :| 0 <= k < |g| && g[k].name == s;
      assert WeightsPositive(g[k]);
    }
  }

  /** True when some vertex carries the label `name`. */
  function HasVertex(g: Graph, name: string): (b: bool)
    ensures b <==> name in View(g)
  {
    if g == [] then false
    else g[0].name == name || HasVertex(g[1..], name)
  }

  /** The rep-invariant check: compares every pair of distinct positions. */
  method IsVerticesNotDuplicate(g: Graph) returns (ok: bool)
    ensures ok <==> NamesDistinct(g)
  {
    if |g| > 1 {
      for i := 0 to |g|
        invariant forall a, b :: 0 <= a < i && 0 <= b < |g| && a != b ==> g[a].name != g[b].name
      {
        for j := 0 to |g|
          invariant forall b :: 0 <= b < j && b != i ==> g[i].name != g[b].name
        {
          if i != j && g[i].name == g[j].name {
            return false;
          }
        }
      }
    }
    return true;
  }

  /** Inserts a vertex with no edges unless the label is already present. */
  function Add(g: Graph, name: string): (r: Step<bool>)
    requires Valid(g)
    ensures Valid(r.graph)
    ensures r.result <==> name !in View(g)
    ensures r.result ==> View(r.graph) == View(g)[name := map[]]
    ensures !r.result ==> r.graph == g
  {
    if !HasVertex(g, name) then
      ViewIndex(g);
      ViewAppend(g, NewVertex(name));
      Step(g + [NewVertex(name)], true)
    else
      Step(g, false)
  }

  /** Sets the edge source -> target on the first vertex labelled `source`,
      returning the weight it had before (0 if none). */
  function SetFirst(g: Graph, source: string, target: string, weight: int): (r: Step<int>)
    requires weight > 0
    ensures |r.graph| == |g|
    ensures forall i :: 0 <= i < |g| ==>
              r.graph[i].name == g[i].name && (WeightsPositive(g[i]) ==> WeightsPositive(r.graph[i]))
    ensures source in View(g) ==> View(r.graph) == View(g)[source := View(g)[source][target := weight]]
    ensures source !in View(g) ==> r.graph == g
    ensures r.result == EdgeWeight(View(g), source, target)
  {
    if g == [] then Step(g, 0)
    else if g[0].name == source then
      var previous := if IsVertexInTargets(g[0], target) then GetWeight(g[0], target) else 0;
      SetTargetEdgeMap(g[0], target, weight);
      var h := [SetTarget(g[0], target, weight)] + g[1..];
      assert h[0] == SetTarget(g[0], target, weight) && h[1..] == g[1..];
      Step(h, previous)
    else
      var rest := SetFirst(g[1..], source, target, weight);
      var h := [g[0]] + rest.graph;
      assert h[0] == g[0] && h[1..] == rest.graph;
      assert [g[0]] + g[1..] == g;
      Step(h, rest.result)
  }

  /** Deletes the edge source -> target from the first vertex labelled
      `source` that has it, returning its weight (0 if there is none). */
  function ClearFirst(g: Graph, source: string, target: string): (r: Step<int>)
    requires NamesDistinct(g)
    ensures |r.graph| == |g|
    ensures forall i :: 0 <= i < |g| ==>
              r.graph[i].name == g[i].name && (WeightsPositive(g[i]) ==> WeightsPositive(r.graph[i]))
    ensures source in View(g) ==> View(r.graph) == View(g)[source := View(g)[source] - {target}]
    ensures source !in View(g) ==> r.graph == g
    ensures r.result == EdgeWeight(View(g), source, target)
  {
    if g == [] then Step(g, 0)
    else if g[0].name == source && target in GetTargets(g[0]) then
      SetTargetEdgeMap(g[0], target, 0);
      var h := [SetTarget(g[0], target, 0)] + g[1..];
      assert h[0] == SetTarget(g[0], target, 0) && h[1..] == g[1..];
      Step(h, GetWeight(g[0], target))
    else
      assert NamesDistinct(g[1..]);
      var rest := ClearFirst(g[1..], source, target);
      var h := [g[0]] + rest.graph;
      assert h[0] == g[0] && h[1..] == rest.graph;
      assert [g[0]] + g[1..] == g;
      if g[0].name == source then
        HeadNotInTail(g);
        assert View(g)[source] - {target} == View(g)[source];
        Step(h, rest.result)
      else
        Step(h, rest.result)
  }

  /** Sets (weight > 0), deletes (weight == 0) or ignores (weight < 0) the
      edge source -> target, returning the weight the edge had before. A
      positive weight first creates whichever endpoint is missing. */
  function Set(g: Graph, source: string, target: string, weight: int): (r: Step<int>)
    requires Valid(g)
    ensures Valid(r.graph)
    ensures weight < 0 ==> r == Step(g, 0)
    ensures weight >= 0 ==> r.result == EdgeWeight(View(g), source, target)
    ensures weight > 0 ==> View(r.graph).Keys == View(g).Keys + {source, target}
    ensures weight <= 0 ==> View(r.graph).Keys == View(g).Keys
    ensures weight >= 0 ==> forall s, t :: EdgeWeight(View(r.graph), s, t)
                                           == if s == source && t == target then weight
                                              else EdgeWeight(View(g), s, t)
  {
    if weight > 0 then
      var withSource := Add(g, source).graph;
      var withBoth := Add(withSource, target).graph;
      var r := SetFirst(withBoth, source, target, weight);
      SetEdgeEffect(View(g), View(withSource), View(withBoth), View(r.graph), source, target, weight);
      r
    else if weight == 0 && HasVertex(g, source) then
      var r := ClearFirst(g, source, target);
      ClearEdgeEffect(View(g), View(r.graph), source, target);
      r
    else
      Step(g, 0)
  }

  /** The abstract effect of creating both endpoints and then setting a
      positive edge on the source. */
  lemma SetEdgeEffect(m: AbstractGraph, m1: AbstractGraph, m2: AbstractGraph, m3: AbstractGraph,
                      source: string, target: string, weight: int)
    requires weight > 0
    requires m1 == if source in m then m else m[source := map[]]
    requires m2 == if target in m1 then m1 else m1[target := map[]]
    requires m3 == m2[source := m2[source][target := weight]]
    ensures m3.Keys == m.Keys + {source, target}
    ensures EdgeWeight(m2, source, target) == EdgeWeight(m, source, target)
    ensures forall s, t :: EdgeWeight(m3, s, t)
                           == if s == source && t == target then weight else EdgeWeight(m, s, t)
  {
    assert m2.Keys == m.Keys + {source, target};
    assert forall s :: s in m ==> m2[s] == m[s];
    assert forall s :: s in m2 && s !in m ==> m2[s] == map[];
    forall s, t
      ensures EdgeWeight(m3, s, t) == if s == source && t == target then weight else EdgeWeight(m, s, t)
    {
      if s != source {
        assert EdgeWeight(m3, s, t) == EdgeWeight(m2, s, t);
      }
    }
  }

  /** The abstract effect of deleting an edge from an existing source. */
  lemma ClearEdgeEffect(m: AbstractGraph, m1: AbstractGraph, source: string, target: string)
    requires source in m
    requires m1 == m[source := m[source] - {target}]
    ensures m1.Keys == m.Keys
    ensures forall s, t :: EdgeWeight(m1, s, t)
                           == if s == source && t == target then 0 else EdgeWeight(m, s, t)
  {
  }

  /** Strips every edge into `name` from every vertex. */
  function StripTarget(g: Graph, name: string): (r: Graph)
    ensures |r| == |g|
    ensures forall i :: 0 <= i < |g| ==> r[i].name == g[i].name && r[i].targets == g[i].targets - {name}
  {
    if g == [] then []
    else
      var v := if name in GetTargets(g[0]) then SetTarget(g[0], name, 0) else g[0];
      SetTargetEdgeMap(g[0], name, 0);
      [v] + StripTarget(g[1..], name)
  }

  /** Position of the last vertex labelled `name`. */
  function LastIndexOf(g: Graph, name: string): (i: nat)
    requires exists k :: 0 <= k < |g| && g[k].name == name
    ensures i < |g| && g[i].name == name
    ensures forall k :: i < k < |g| ==> g[k].name != name
  {
    if g[|g| - 1].name == name then |g| - 1
    else
      var p := g[..|g| - 1];
      var k :| 0 <= k < |g| && g[k].name == name;
      assert p[k].name == name;
      LastIndexOf(p, name)
  }

  /** Removes the vertex labelled `name` and every edge into it. */
  function Remove(g: Graph, name: string): (r: Step<bool>)
    requires Valid(g)
    ensures Valid(r.graph)
    ensures r.result <==> name in View(g)
    ensures !r.result ==> r.graph == g
    ensures r.result ==> View(r.graph) == map n | n in View(g) && n != name :: View(g)[n] - {name}
  {
    if HasVertex(g, name) then
      ViewIndex(g);
      var stripped := StripTarget(g, name);
      var i := LastIndexOf(g, name);
      var h := stripped[..i] + stripped[i + 1..];
      RemoveEffect(g, stripped, i, name);
      Step(h, true)
    else
      Step(g, false)
  }

  /** A list whose vertices lost the edges into `name`, position by
      position, has the correspondingly stripped view. */
  lemma {:induction false} ViewStripped(g: Graph, s: Graph, name: string)
    requires |s| == |g|
    requires forall k :: 0 <= k < |g| ==> s[k].name == g[k].name && s[k].targets == g[k].targets - {name}
    ensures View(s) == map n | n in View(g) :: View(g)[n] - {name}
  {
    if g != [] {
      ViewStripped(g[1..], s[1..], name);
      var m, m' := View(g[1..]), View(s[1..]);
      assert View(s) == m'[g[0].name := g[0].targets - {name}];
      assert View(g) == m[g[0].name := g[0].targets];
    }
  }

  /** The view and invariant after stripping `name` and deleting its vertex. */
  lemma RemoveEffect(g: Graph, s: Graph, i: nat, name: string)
    requires Valid(g) && i < |g| && g[i].name == name
    requires |s| == |g|
    requires forall k :: 0 <= k < |g| ==> s[k].name == g[k].name && s[k].targets == g[k].targets - {name}
    ensures Valid(s[..i] + s[i + 1..])
    ensures View(s[..i] + s[i + 1..]) == map n | n in View(g) && n != name :: View(g)[n] - {name}
  {
    var h := s[..i] + s[i + 1..];
    StrippedNamesDistinct(g, s, name);
    ViewRemoveAt(s, i);
    RemoveAtWeightsPositive(g, s, h, i, name);
    ViewStripped(g, s, name);
  }

  /** Stripping edges keeps every label, so distinct labels stay distinct. */
  lemma StrippedNamesDistinct(g: Graph, s: Graph, name: string)
    requires NamesDistinct(g) && |s| == |g|
    requires forall k :: 0 <= k < |g| ==> s[k].name == g[k].name
    ensures NamesDistinct(s)
  {
    forall a, b | 0 <= a < b < |s|
      ensures s[a].name != s[b].name
    {
      assert g[a].name != g[b].name;
    }
  }

  /** Deleting one position of a stripped valid list leaves only vertices
      whose weights are positive. */
  lemma RemoveAtWeightsPositive(g: Graph, s: Graph, h: Graph, i: nat, name: string)
    requires Valid(g) && i < |g| && |s| == |g| && h == s[..i] + s[i + 1..]
    requires forall k :: 0 <= k < |g| ==> s[k].targets == g[k].targets - {name}
    ensures forall k :: 0 <= k < |h| ==> WeightsPositive(h[k])
  {
    forall k | 0 <= k < |h|
      ensures WeightsPositive(h[k])
    {
      var j := if k < i then k else k + 1;
      assert h[k] == s[j];
      assert WeightsPositive(g[j]);
    }
  }

  /** The set of all vertex labels. */
  function Vertices(g: Graph): (vs: set<string>)
    ensures vs == View(g).Keys
  {
    if g == [] then {} else {g[0].name} + Vertices(g[1..])
  }

  /** The outgoing edges of `source`; the last vertex so labelled wins, and
      an absent label has none. */
  function Targets(g: Graph, source: string): (m: map<string, int>)
    requires NamesDistinct(g)
    ensures source in View(g) ==> m == View(g)[source]
    ensures source !in View(g) ==> m == map[]
  {
    if g == [] then map[]
    else
      var p := g[..|g| - 1];
      var last := g[|g| - 1];
      assert p + [last] == g;
      ViewAppend(p, last);
      LastNotInPrefix(g);
      if last.name == source then GetTargetsMap(last)
      else Targets(p, source)
  }

  /** The incoming edges of `target`: each vertex with an edge into it,
      mapped to that edge's weight. */
  function Sources(g: Graph, target: string): (m: map<string, int>)
    requires NamesDistinct(g)
    ensures forall s :: s in m <==> s in View(g) && target in View(g)[s]
    ensures forall s :: s in m ==> m[s] == View(g)[s][target]
  {
    if g == [] then map[]
    else
      var p := g[..|g| - 1];
      var last := g[|g| - 1];
      assert p + [last] == g;
      ViewAppend(p, last);
      LastNotInPrefix(g);
      var before := Sources(p, target);
      if IsVertexInTargets(last, target) then before[last.name := GetWeight(last, target)]
      else before
  }
}
