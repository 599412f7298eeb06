/** One node of the adjacency-list representation of a weighted directed
    graph: a label together with the map from target label to edge weight.
    A weight of 0 means "no edge" and is never stored. */
module VertexEdges {

  datatype Vertex = Vertex(name: string, targets: map<string, int>)

  /** Representation invariant of a vertex: every stored weight is strictly positive. */
  predicate WeightsPositive(v: Vertex)
  {
    forall t :: t in v.targets ==> v.targets[t] > 0
  }

  /** The run-time check the vertex performs after each mutation: it only
      rejects NEGATIVE weights, so a stored 0 would pass it. Every vertex
      that keeps the invariant passes, and any negative weight fails it. */
  function AreWeightsPositive(v: Vertex): (ok: bool)
    ensures WeightsPositive(v) ==> ok
    ensures (exists t :: t in v.targets && v.targets[t] < 0) ==> !ok
  {
    forall t :: t in v.targets ==> !(v.targets[t] < 0)
  }

  /** A vertex holding a zero-weight edge passes the check although it breaks
      the invariant "weights are positive" that the check is meant to enforce. */
  lemma CheckAdmitsZeroWeight()
    ensures var v := Vertex("V1", map["T1" := 0]);
            AreWeightsPositive(v) && !WeightsPositive(v)
  {
    var v := Vertex("V1", map["T1" := 0]);
    assert "T1" in v.targets && v.targets["T1"] == 0;
  }

  /** A fresh vertex has no outgoing edges. */
  function NewVertex(name: string): (v: Vertex)
    ensures v.name == name
    ensures WeightsPositive(v)
    ensures forall t :: !IsVertexInTargets(v, t)
  {
    Vertex(name, map[])
  }

  /** True when the vertex has an edge to `target`. */
  function IsVertexInTargets(v: Vertex, target: string): bool
  {
    target in v.targets.Keys
  }

  /** The labels this vertex has an edge to. */
  function GetTargets(v: Vertex): (ts: set<string>)
    ensures forall t :: t in ts <==> IsVertexInTargets(v, t)
  {
    v.targets.Keys
  }

  /** The weight of the edge to `target`; the edge must exist. */
  function GetWeight(v: Vertex, target: string): (w: int)
    requires IsVertexInTargets(v, target)
    ensures WeightsPositive(v) ==> w > 0
  {
    v.targets[target]
  }

  /** The outgoing edges of this vertex with their weights: keyed by exactly
      the targets, each holding the weight `GetWeight` reads. */
  function GetTargetsMap(v: Vertex): (m: map<string, int>)
    ensures m.Keys == GetTargets(v)
    ensures forall t :: t in m ==> IsVertexInTargets(v, t) && m[t] == GetWeight(v, t)
    ensures WeightsPositive(v) ==> forall t :: t in m ==> m[t] > 0
  {
    v.targets
  }

  /** Adds, replaces (weight > 0) or deletes (weight == 0) the edge to `target`. */
  function SetTarget(v: Vertex, target: string, weight: int): (v': Vertex)
    requires weight >= 0
    ensures v'.name == v.name
    ensures weight == 0 ==> !IsVertexInTargets(v', target)
    ensures weight > 0 ==> IsVertexInTargets(v', target) && GetWeight(v', target) == weight
    ensures forall t :: t != target ==> (IsVertexInTargets(v', t) <==> IsVertexInTargets(v, t))
    ensures forall t :: t != target && IsVertexInTargets(v, t) ==> GetWeight(v', t) == GetWeight(v, t)
    ensures WeightsPositive(v) ==> WeightsPositive(v')
  {
    if IsVertexInTargets(v, target) then
      if weight == 0 then v.(targets := v.targets - {target})
      else v.(targets := v.targets[target := weight])
    else
      if weight == 0 then v
      else v.(targets := v.targets[target := weight])
  }

  /** The effect of `SetTarget` on the edge map does not depend on whether
      the edge existed before: a zero deletes the key, a positive weight
      overwrites it. */
  lemma SetTargetEdgeMap(v: Vertex, target: string, weight: int)
    requires weight >= 0
    ensures GetTargetsMap(SetTarget(v, target, weight))
            == if weight == 0 then GetTargetsMap(v) - {target}
               else GetTargetsMap(v)[target := weight]
  {
    var m := GetTargetsMap(v);
    var m' := GetTargetsMap(SetTarget(v, target, weight));
    if weight == 0 {
      assert m'.Keys == m.Keys - {target};
    }
  }

  /** Edges to three targets and a self-loop, each read back with its own
      weight; a later zero deletes one of them and leaves the others. */
  lemma VariousTargets()
    ensures var v0 := NewVertex("V1");
            var v1 := SetTarget(v0, "T1", 1);
            var v2 := SetTarget(v1, "T2", 2);
            var v3 := SetTarget(v2, "T3", 3);
            var v4 := SetTarget(v3, "V1", 3);
            var v5 := SetTarget(v4, "T1", 0);
            && IsVertexInTargets(v4, "T1") && GetWeight(v4, "T1") == 1
            && IsVertexInTargets(v4, "T2") && GetWeight(v4, "T2") == 2
            && IsVertexInTargets(v4, "T3") && GetWeight(v4, "T3") == 3
            && IsVertexInTargets(v4, "V1") && GetWeight(v4, "V1") == 3
            && "T1" !in GetTargets(v5)
            && IsVertexInTargets(v5, "T2") && GetWeight(v5, "T2") == 2
            && IsVertexInTargets(v5, "T3") && GetWeight(v5, "T3") == 3
            && IsVertexInTargets(v5, "V1") && GetWeight(v5, "V1") == 3
            && !IsVertexInTargets(v5, "T4")
  {
  }
}
