/** Properties of the graph operations as a caller sees them through the
    observers `Vertices`, `Targets` and `Sources`. */
module GraphProperties {
  import opened ConcreteVerticesGraph

  /** The weight a caller reads for source -> target: the entry of
      `Targets(g, s)`, or 0 when there is none. */
  function ObservedWeight(g: Graph, s: string, t: string): (w: int)
    requires NamesDistinct(g)
    ensures w == EdgeWeight(View(g), s, t)
  {
    var ts := Targets(g, s);
    if t in ts then ts[t] else 0
  }

  /** A new graph has no vertices and no edges, and every edge ends at a vertex. */
  lemma EmptyBaseline(name: string)
    ensures Valid([]) && EdgesClosed(View([]))
    ensures Vertices([]) == {}
    ensures Targets([], name) == map[] && Sources([], name) == map[]
  {
  }

  /** `add` reports a new name exactly when it was absent; afterwards the
      name is a vertex and no other vertex appeared or vanished. */
  lemma AddInsertsLabel(g: Graph, name: string)
    requires Valid(g)
    ensures var r := Add(g, name);
            && (r.result <==> name !in Vertices(g))
            && Vertices(r.graph) == Vertices(g) + {name}
            && (r.result ==> Targets(r.graph, name) == map[])
            && forall s, t :: ObservedWeight(r.graph, s, t) == ObservedWeight(g, s, t)
  {
  }

  /** Adding a name twice: the second call answers false and changes nothing. */
  lemma AddTwice(g: Graph, name: string)
    requires Valid(g)
    ensures var g1 := Add(g, name).graph;
            !Add(g1, name).result && Add(g1, name).graph == g1
  {
    AddInsertsLabel(g, name);
  }

  /** A positive `set` creates both endpoints, records the weight where both
      `targets(source)` and `sources(target)` see it, and returns the old weight. */
  lemma SetPositiveRoundTrip(g: Graph, source: string, target: string, weight: int)
    requires Valid(g) && weight > 0
    ensures var r := Set(g, source, target, weight);
            && r.result == ObservedWeight(g, source, target)
            && Vertices(r.graph) == Vertices(g) + {source, target}
            && target in Targets(r.graph, source) && Targets(r.graph, source)[target] == weight
            && source in Sources(r.graph, target) && Sources(r.graph, target)[source] == weight
  {
    var r := Set(g, source, target, weight);
    assert EdgeWeight(View(r.graph), source, target) == weight;
  }

  /** `set` with a non-negative weight changes only the edge it names. */
  lemma SetFrame(g: Graph, source: string, target: string, weight: int)
    requires Valid(g) && weight >= 0
    ensures var g' := Set(g, source, target, weight).graph;
            forall s, t :: s != source || t != target ==> ObservedWeight(g', s, t) == ObservedWeight(g, s, t)
  {
  }

  /** A self-loop on a fresh graph creates exactly one vertex, whose only
      edge is to itself. */
  lemma SelfLoopOnEmpty(name: string, weight: int)
    requires weight > 0
    ensures var r := Set([], name, name, weight);
            && r.result == 0
            && Vertices(r.graph) == {name}
            && Targets(r.graph, name) == map[name := weight]
  {
    var r := Set([], name, name, weight);
    var m := View(r.graph);
    assert m.Keys == {name};
    ViewWeightsPositive(r.graph);
    forall t | t in m[name]
      ensures t == name
    {
      assert EdgeWeight(m, name, t) == 0 || t == name;
    }
    assert m[name] == map[name := weight];
  }

  /** A self-loop returns the previous weight of the loop, adds at most the
      one vertex `name`, and records the loop with its weight. */
  lemma SelfLoop(g: Graph, name: string, weight: int)
    requires Valid(g) && weight > 0
    ensures var r := Set(g, name, name, weight);
            && r.result == ObservedWeight(g, name, name)
            && Vertices(r.graph) == Vertices(g) + {name}
            && (name in Vertices(g) ==> Vertices(r.graph) == Vertices(g))
            && name in Targets(r.graph, name) && Targets(r.graph, name)[name] == weight
  {
    var r := Set(g, name, name, weight);
    SetPositiveRoundTrip(g, name, name, weight);
    assert {name, name} == {name};
    assert Vertices(r.graph) == Vertices(g) + {name};
    assert name in Targets(r.graph, name) && Targets(r.graph, name)[name] == weight;
  }

  /** `set` with weight 0 removes the edge if it exists, returns its old
      weight, and never creates or removes a vertex. */
  lemma SetZeroClears(g: Graph, source: string, target: string)
    requires Valid(g)
    ensures var r := Set(g, source, target, 0);
            && r.result == ObservedWeight(g, source, target)
            && Vertices(r.graph) == Vertices(g)
            && target !in Targets(r.graph, source)
            && source !in Sources(r.graph, target)
  {
    var r := Set(g, source, target, 0);
    assert EdgeWeight(View(r.graph), source, target) == 0;
    ViewWeightsPositive(r.graph);
  }

  /** Setting an edge and then clearing it returns the weight just set and
      leaves every other edge as it was; both endpoints stay vertices. */
  lemma SetThenClear(g: Graph, source: string, target: string, weight: int)
    requires Valid(g) && weight > 0
    ensures var g1 := Set(g, source, target, weight).graph;
            var r := Set(g1, source, target, 0);
            && r.result == weight
            && Vertices(r.graph) == Vertices(g) + {source, target}
            && forall s, t :: ObservedWeight(r.graph, s, t)
                              == if s == source && t == target then 0 else ObservedWeight(g, s, t)
  {
  }

  /** Each `set` returns the weight the previous `set` of the same edge stored. */
  lemma PreviousWeightReturned(g: Graph, source: string, target: string, w1: int, w2: int)
    requires Valid(g) && w1 > 0 && w2 > 0
    ensures var r1 := Set(g, source, target, w1);
            var r2 := Set(r1.graph, source, target, w2);
            var r3 := Set(r2.graph, source, target, 0);
            r2.result == w1 && r3.result == w2
  {
  }

  /** `remove` answers whether the name was present; afterwards it is not
      a vertex, nothing points at it if it was present, and every edge not
      touching it is kept. */
  lemma RemoveCascades(g: Graph, name: string)
    requires Valid(g)
    ensures var r := Remove(g, name);
            && (r.result <==> name in Vertices(g))
            && Vertices(r.graph) == Vertices(g) - {name}
            && (r.result ==> forall v :: v in Vertices(r.graph) ==> name !in Targets(r.graph, v))
            && (r.result ==> Sources(r.graph, name) == map[])
            && forall s, t :: s != name && t != name ==> ObservedWeight(r.graph, s, t) == ObservedWeight(g, s, t)
  {
    // An absent name leaves the list as it was.
    var r := Remove(g, name);
    if !r.result {
      assert r.graph == g;
    }
  }

  /** In a graph whose every edge ends at a vertex, nothing points at a
      name after `remove`, whether or not it was present. */
  lemma RemoveLeavesNoEdgeInto(g: Graph, name: string)
    requires Valid(g) && EdgesClosed(View(g))
    ensures var g' := Remove(g, name).graph;
            && (forall v :: v in Vertices(g') ==> name !in Targets(g', v))
            && Sources(g', name) == map[]
  {
    RemoveCascades(g, name);
    var r := Remove(g, name);
    if !r.result {
      assert r.graph == g;
      AbsentNameUntargeted(g, name);
    }
  }

  /** When every edge ends at a vertex, a name that is not a vertex is the
      target of no edge. */
  lemma AbsentNameUntargeted(g: Graph, name: string)
    requires NamesDistinct(g) && EdgesClosed(View(g)) && name !in Vertices(g)
    ensures forall v :: v in Vertices(g) ==> name !in Targets(g, v)
    ensures Sources(g, name) == map[]
  {
  }

  /** `add` keeps every edge ending at a vertex. */
  lemma AddKeepsEdgesClosed(g: Graph, name: string)
    requires Valid(g) && EdgesClosed(View(g))
    ensures EdgesClosed(View(Add(g, name).graph))
  {
  }

  /** `set` keeps every edge ending at a vertex: a positive weight creates
      both endpoints, a zero only deletes. */
  lemma SetKeepsEdgesClosed(g: Graph, source: string, target: string, weight: int)
    requires Valid(g) && EdgesClosed(View(g))
    ensures EdgesClosed(View(Set(g, source, target, weight).graph))
  {
    var g' := Set(g, source, target, weight).graph;
    if weight >= 0 {
      ViewWeightsPositive(g);
      ViewWeightsPositive(g');
      EdgesClosedByWeights(View(g), View(g'), source, target, weight);
    }
  }

  /** The abstract step behind `SetKeepsEdgesClosed`. */
  lemma EdgesClosedByWeights(m: AbstractGraph, m': AbstractGraph, source: string, target: string, weight: int)
    requires EdgesClosed(m) && weight >= 0
    requires forall s, t :: s in m && t in m[s] ==> m[s][t] > 0
    requires forall s, t :: s in m' && t in m'[s] ==> m'[s][t] > 0
    requires weight > 0 ==> m'.Keys == m.Keys + {source, target}
    requires weight == 0 ==> m'.Keys == m.Keys
    requires forall s, t :: EdgeWeight(m', s, t) == if s == source && t == target then weight else EdgeWeight(m, s, t)
    ensures EdgesClosed(m')
  {
    forall s, t | s in m' && t in m'[s]
      ensures t in m'
    {
      assert EdgeWeight(m', s, t) > 0;
    }
  }

  /** `remove` keeps every edge ending at a vertex: it strips the edges into
      the removed vertex. */
  lemma RemoveKeepsEdgesClosed(g: Graph, name: string)
    requires Valid(g) && EdgesClosed(View(g))
    ensures EdgesClosed(View(Remove(g, name).graph))
  {
    var m := View(g);
    var m' := View(Remove(g, name).graph);
    forall s, t | s in m' && t in m'[s]
      ensures t in m'
    {
      if Remove(g, name).result {
        assert t in m[s] && t != name;
      }
    }
  }

  /** Adding a fresh name to a graph whose edges end at its vertices and
      removing it again gives back the same abstract graph, so every
      observation agrees. */
  lemma AddRemoveRoundTrip(g: Graph, name: string)
    requires Valid(g) && EdgesClosed(View(g)) && name !in Vertices(g)
    ensures var g1 := Add(g, name).graph;
            var r := Remove(g1, name);
            && r.result
            && View(r.graph) == View(g)
            && Vertices(r.graph) == Vertices(g)
            && (forall s :: Targets(r.graph, s) == Targets(g, s))
            && (forall t :: Sources(r.graph, t) == Sources(g, t))
  {
    var m := View(g);
    var g1 := Add(g, name).graph;
    assert View(g1) == m[name := map[]];
    var r := Remove(g1, name);
    assert r.result;
    UnreferencedRemoval(m, View(g1), View(r.graph), name);
  }

  /** Removing a label that is not a vertex and that no edge points at,
      after inserting it with no edges, restores the abstract graph. */
  lemma UnreferencedRemoval(m: AbstractGraph, m1: AbstractGraph, m': AbstractGraph, name: string)
    requires EdgesClosed(m) && name !in m
    requires m1 == m[name := map[]]
    requires m' == map n | n in m1 && n != name :: m1[n] - {name}
    ensures m' == m
  {
    forall n | n in m
      ensures m[n] - {name} == m[n]
    {
      assert name !in m[n];
    }
  }

  /** In a graph whose edges end at its two vertices `keep` and `gone`,
      where `keep` has no self-loop, removing `gone` leaves `keep` alone
      with no edges. */
  lemma RemoveLeavesIsolatedVertex(g: Graph, keep: string, gone: string)
    requires Valid(g) && EdgesClosed(View(g)) && keep != gone
    requires Vertices(g) == {keep, gone} && ObservedWeight(g, keep, keep) == 0
    ensures var d := Remove(g, gone);
            d.result && Vertices(d.graph) == {keep} && Targets(d.graph, keep) == map[]
  {
    var d := Remove(g, gone);
    var m := View(g);
    ViewWeightsPositive(g);
    assert keep !in m[keep] by {
      assert EdgeWeight(m, keep, keep) == 0;
    }
    OnlyEdgeGoesToRemoved(m, keep, gone);
    assert View(d.graph).Keys == {keep};
  }

  /** If the only vertices are `keep` and `gone`, every edge ends at a vertex,
      and `keep` has no self-loop, then every edge of `keep` goes to `gone`. */
  lemma OnlyEdgeGoesToRemoved(m: AbstractGraph, keep: string, gone: string)
    requires EdgesClosed(m) && m.Keys == {keep, gone} && keep !in m[keep]
    ensures m[keep] - {gone} == map[]
  {
    forall t | t in m[keep]
      ensures t == gone
    {
      assert t in m;
    }
    assert (m[keep] - {gone}).Keys == {};
  }

  /** One positive `set` of the edge v1 -> v2 in a graph on at most the
      vertices v1 and v2, without a self-loop on v1. */
  lemma SetOnPair(g: Graph, v1: string, v2: string, weight: int)
    requires Valid(g) && EdgesClosed(View(g)) && v1 != v2 && weight > 0
    requires Vertices(g) <= {v1, v2} && ObservedWeight(g, v1, v1) == 0
    ensures var r := Set(g, v1, v2, weight);
            && EdgesClosed(View(r.graph))
            && Vertices(r.graph) == {v1, v2}
            && r.result == ObservedWeight(g, v1, v2)
            && ObservedWeight(r.graph, v1, v1) == 0
  {
    SetPositiveRoundTrip(g, v1, v2, weight);
    SetFrame(g, v1, v2, weight);
    SetKeepsEdgesClosed(g, v1, v2, weight);
  }

  /** The sequence add V1; set V1->V2 to w1; set it to w2; remove V2, for
      any two distinct labels. */
  lemma {:induction false} WalkthroughFor(v1: string, v2: string, w1: int, w2: int)
    requires v1 != v2 && w1 > 0 && w2 > 0
    ensures var a := Add([], v1);
            var s1 := Set(a.graph, v1, v2, w1);
            var s2 := Set(s1.graph, v1, v2, w2);
            var d := Remove(s2.graph, v2);
            && a.result
            && s1.result == 0 && Vertices(s1.graph) == {v1, v2}
            && s2.result == w1
            && d.result && Targets(d.graph, v1) == map[] && Vertices(d.graph) == {v1}
  {
    var a := Add([], v1);
    AddInsertsLabel([], v1);
    AddKeepsEdgesClosed([], v1);
    var s1 := Set(a.graph, v1, v2, w1);
    SetOnPair(a.graph, v1, v2, w1);
    var s2 := Set(s1.graph, v1, v2, w2);
    SetOnPair(s1.graph, v1, v2, w2);
    SetPositiveRoundTrip(a.graph, v1, v2, w1);
    RemoveLeavesIsolatedVertex(s2.graph, v1, v2);
  }

  /** The same sequence with the labels V1, V2 and the weights 2 and 5. */
  lemma Walkthrough()
    ensures var a := Add([], "V1");
            var s1 := Set(a.graph, "V1", "V2", 2);
            var s2 := Set(s1.graph, "V1", "V2", 5);
            var d := Remove(s2.graph, "V2");
            && a.result
            && s1.result == 0 && Vertices(s1.graph) == {"V1", "V2"}
            && s2.result == 2
            && d.result && Targets(d.graph, "V1") == map[] && Vertices(d.graph) == {"V1"}
  {
    WalkthroughFor("V1", "V2", 2, 5);
  }
}
