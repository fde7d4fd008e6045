/** The dependency graph of mods, keyed by UUID, and its forward
    topological layering (a layered Kahn's algorithm). */
module Graph {
  import opened Wrappers
  import opened Descriptor

  type Uuid = string

  /** For each node, the nodes it depends on: those that must load before it. */
  type Edges = map<Uuid, set<Uuid>>

  /** One `depend_on(dependant, dependency)` call. */
  type Dependency = (ModuleDescription, ModuleDescription)

  // ------------------------------------------------------ building, by value

  /** Adds a descriptor under its hash key, the UUID, unless that UUID is
      already a node (nodes are compared with `SameModule`):
      the first descriptor inserted for a UUID is the one kept. */
  function InsertNode(nodes: map<Uuid, ModuleDescription>, d: ModuleDescription): (r: map<Uuid, ModuleDescription>)
    ensures r.Keys == nodes.Keys + {d.uuid}
    ensures forall u :: u in nodes ==> r[u] == nodes[u]
    ensures d.uuid !in nodes ==> r[d.uuid] == d
  {
    var key := HashKey(d);
    if key in nodes then nodes else nodes[key := d]
  }

  /** Records that `from` depends on `to`, making both nodes. */
  function InsertEdge(edges: Edges, from: Uuid, to: Uuid): (r: Edges)
    ensures r.Keys == edges.Keys + {from, to}
    ensures r[from] == (if from in edges then edges[from] else {}) + {to}
    ensures forall u :: u in r && u != from ==> r[u] == (if u in edges then edges[u] else {})
  {
    var withTo := if to in edges then edges else edges[to := {}];
    withTo[from := (if from in withTo then withTo[from] else {}) + {to}]
  }

  /** The node table after the calls: each call inserts its dependant,
      then its dependency. */
  function BuildNodes(calls: seq<Dependency>): (nodes: map<Uuid, ModuleDescription>)
    ensures forall u :: u in nodes ==> nodes[u].uuid == u
  {
    if calls == [] then map[]
    else
      var last := calls[|calls| - 1];
      InsertNode(InsertNode(BuildNodes(calls[..|calls| - 1]), last.0), last.1)
  }

  /** Some call names `u` as its dependant or its dependency. */
  ghost predicate Mentions(calls: seq<Dependency>, u: Uuid) {
    exists i :: 0 <= i < |calls| && (calls[i].0.uuid == u || calls[i].1.uuid == u)
  }

  /** Some call made `u` depend on `v`. */
  ghost predicate Called(calls: seq<Dependency>, u: Uuid, v: Uuid) {
    exists i :: 0 <= i < |calls| && calls[i].0.uuid == u && calls[i].1.uuid == v
  }

  /** The edge table after the calls. */
  function BuildEdges(calls: seq<Dependency>): (edges: Edges)
    ensures edges.Keys == BuildNodes(calls).Keys
  {
    if calls == [] then map[]
    else
      var last := calls[|calls| - 1];
      InsertEdge(BuildEdges(calls[..|calls| - 1]), last.0.uuid, last.1.uuid)
  }

  /** A UUID named by the last call or by one before it. */
  lemma MentionsSnoc(calls: seq<Dependency>, u: Uuid)
    requires calls != []
    ensures Mentions(calls, u) <==>
      Mentions(calls[..|calls| - 1], u) || calls[|calls| - 1].0.uuid == u || calls[|calls| - 1].1.uuid == u
  {
    var init := calls[..|calls| - 1];
    if Mentions(init, u) {
      var i :| 0 <= i < |init| && (init[i].0.uuid == u || init[i].1.uuid == u);
      assert calls[i] == init[i];
    }
    if Mentions(calls, u) {
      var i :| 0 <= i < |calls| && (calls[i].0.uuid == u || calls[i].1.uuid == u);
      if i < |init| {
        assert init[i] == calls[i];
      }
    }
  }

  /** The nodes are exactly the UUIDs the calls mention. */
  lemma {:induction false} BuildNodesMentioned(calls: seq<Dependency>, u: Uuid)
    ensures u in BuildNodes(calls) <==> Mentions(calls, u)
    decreases |calls|
  {
    if calls != [] {
      var init := calls[..|calls| - 1];
      var last := calls[|calls| - 1];
      assert BuildNodes(calls) == InsertNode(InsertNode(BuildNodes(init), last.0), last.1);
      BuildNodesMentioned(init, u);
      MentionsSnoc(calls, u);
    }
  }

  /** A call made by the last call or by one before it. */
  lemma CalledSnoc(calls: seq<Dependency>, u: Uuid, v: Uuid)
    requires calls != []
    ensures Called(calls, u, v) <==>
      Called(calls[..|calls| - 1], u, v) || (calls[|calls| - 1].0.uuid == u && calls[|calls| - 1].1.uuid == v)
  {
    var init := calls[..|calls| - 1];
    if Called(init, u, v) {
      var i :| 0 <= i < |init| && init[i].0.uuid == u && init[i].1.uuid == v;
      assert calls[i] == init[i];
    }
    if Called(calls, u, v) {
      var i :| 0 <= i < |calls| && calls[i].0.uuid == u && calls[i].1.uuid == v;
      if i < |init| {
        assert init[i] == calls[i];
      }
    }
  }

  /** `u` depends on `v` exactly when some call made it so. */
  lemma {:induction false} BuildEdgesCalled(calls: seq<Dependency>, u: Uuid, v: Uuid)
    requires u in BuildEdges(calls)
    ensures v in BuildEdges(calls)[u] <==> Called(calls, u, v)
    decreases |calls|
  {
    var init := calls[..|calls| - 1];
    var last := calls[|calls| - 1];
    var before := BuildEdges(init);
    assert BuildEdges(calls) == InsertEdge(before, last.0.uuid, last.1.uuid);
    CalledSnoc(calls, u, v);
    if u in before {
      BuildEdgesCalled(init, u, v);
    } else {
      BuildNodesMentioned(init, u);
    }
  }

  /** One more call updates the tables as `depend_on` does. */
  lemma BuildStep(calls: seq<Dependency>, dependant: ModuleDescription, dependency: ModuleDescription)
    ensures BuildNodes(calls + [(dependant, dependency)]) == InsertNode(InsertNode(BuildNodes(calls), dependant), dependency)
    ensures BuildEdges(calls + [(dependant, dependency)]) == InsertEdge(BuildEdges(calls), dependant.uuid, dependency.uuid)
  {
    var calls' := calls + [(dependant, dependency)];
    assert calls'[..|calls'| - 1] == calls;
  }

  /** A node keeps the descriptor of the first call that mentions its UUID. */
  lemma {:induction false} FirstMentionWins(calls: seq<Dependency>, i: nat, d: ModuleDescription)
    requires i < |calls|
    requires d == calls[i].0 || (d == calls[i].1 && calls[i].0.uuid != d.uuid)
    requires !Mentions(calls[..i], d.uuid)
    ensures d.uuid in BuildNodes(calls) && BuildNodes(calls)[d.uuid] == d
    decreases |calls|
  {
    var init := calls[..|calls| - 1];
    if i < |calls| - 1 {
      assert init[..i] == calls[..i];
      FirstMentionWins(init, i, d);
    } else {
      assert init == calls[..i];
      BuildNodesMentioned(init, d.uuid);
    }
  }

  // ------------------------------------------------------------- layering

  /** All nodes of the layers. */
  function Union(layers: seq<set<Uuid>>): set<Uuid> {
    if layers == [] then {} else Union(layers[..|layers| - 1]) + layers[|layers| - 1]
  }

  /** A node is in the union exactly when it is in one of the layers. */
  lemma {:induction false} UnionMember(layers: seq<set<Uuid>>, u: Uuid)
    ensures u in Union(layers) <==> exists i :: 0 <= i < |layers| && u in layers[i]
    decreases |layers|
  {
    if layers != [] {
      var init := layers[..|layers| - 1];
      UnionMember(init, u);
      if exists i :: 0 <= i < |init| && u in init[i] {
        var i :| 0 <= i < |init| && u in init[i];
        assert layers[i] == init[i];
      }
      if exists i :: 0 <= i < |layers| - 1 && u in layers[i] {
        var i :| 0 <= i < |layers| - 1 && u in layers[i];
        assert init[i] == layers[i];
      }
    }
  }

  /** Each layer is part of the union. */
  lemma UnionContains(layers: seq<set<Uuid>>, i: nat)
    requires i < |layers|
    ensures layers[i] <= Union(layers)
  {
    forall u | u in layers[i] ensures u in Union(layers) {
      UnionMember(layers, u);
    }
  }

  /** The nodes not yet emitted whose dependencies all have been. */
  function Ready(edges: Edges, done: set<Uuid>): set<Uuid> {
    set u | u in edges && u !in done && edges[u] <= done
  }

  /** The forward topological layers: each layer is everything that became
      ready once the layers before it were emitted, no layer is empty, and
      together they cover every node. */
  ghost predicate IsLayering(edges: Edges, layers: seq<set<Uuid>>) {
    && (forall i :: 0 <= i < |layers| ==> layers[i] != {} && layers[i] == Ready(edges, Union(layers[..i])))
    && Union(layers) == edges.Keys
  }

  /** Every layer so far is non-empty and is what was ready after the
      layers before it. */
  ghost predicate LayeredPrefix(edges: Edges, layers: seq<set<Uuid>>) {
    forall i :: 0 <= i < |layers| ==> layers[i] != {} && layers[i] == Ready(edges, Union(layers[..i]))
  }

  lemma LayeredPrefixStep(edges: Edges, layers: seq<set<Uuid>>, layer: set<Uuid>)
    requires LayeredPrefix(edges, layers)
    requires layer != {} && layer == Ready(edges, Union(layers))
    ensures LayeredPrefix(edges, layers + [layer])
    ensures Union(layers + [layer]) == Union(layers) + layer
  {
    var layers' := layers + [layer];
    assert layers'[..|layers|] == layers;
    assert forall i :: 0 <= i < |layers| ==> layers'[..i] == layers[..i];
    UnionPrefix(layers', |layers'|);
    assert layers'[..|layers'|] == layers';
  }

  /** When nothing is ready but nodes remain, the remaining nodes are stuck. */
  lemma NothingReadyIsStuck(edges: Edges, done: set<Uuid>)
    requires Closed(edges) && done <= edges.Keys && done != edges.Keys
    requires Ready(edges, done) == {}
    ensures StuckSet(edges, edges.Keys - done)
  {
    var remaining := edges.Keys - done;
    forall u | u in remaining
      ensures edges[u] * remaining != {}
    {
      assert u !in Ready(edges, done);
      var v :| v in edges[u] && v !in done;
      assert v in edges[u] * remaining;
    }
  }

  /** Every edge leads to a node. */
  ghost predicate Closed(edges: Edges) {
    forall u :: u in edges ==> edges[u] <= edges.Keys
  }

  /** A non-empty set of nodes each of which depends on a node of the set:
      following dependencies inside it never ends, so it contains a cycle,
      and no node of it can ever become ready. */
  ghost predicate StuckSet(edges: Edges, s: set<Uuid>) {
    && s != {}
    && s <= edges.Keys
    && forall u :: u in s ==> edges[u] * s != {}
  }

  /** A cycle: a non-empty walk through nodes in which each node depends on
      the next, and the last on the first. */
  ghost predicate IsCycle(edges: Edges, c: seq<Uuid>) {
    && c != []
    && (forall i :: 0 <= i < |c| ==> c[i] in edges)
    && (forall i :: 0 <= i < |c| - 1 ==> c[i] in edges && c[i + 1] in edges[c[i]])
    && c[|c| - 1] in edges && c[0] in edges[c[|c| - 1]]
  }

  /** The nodes of a cycle form a stuck set, so a graph without a stuck set
      has no cycle. */
  lemma CycleIsStuck(edges: Edges, c: seq<Uuid>)
    requires IsCycle(edges, c)
    ensures StuckSet(edges, set u | u in c)
  {
    var s := set u | u in c;
    assert c[0] in s;
    forall u | u in s
      ensures edges[u] * s != {}
    {
      var i :| 0 <= i < |c| && c[i] == u;
      var next := if i + 1 < |c| then c[i + 1] else c[0];
      assert next in edges[u] * s;
    }
  }

  lemma UnionPrefix(layers: seq<set<Uuid>>, k: nat)
    requires 0 < k <= |layers|
    ensures Union(layers[..k]) == Union(layers[..k - 1]) + layers[k - 1]
  {
    assert layers[..k][..k - 1] == layers[..k - 1];
  }

  /** Every dependency of a node lies in an earlier layer. */
  lemma {:induction false} DependenciesInEarlierLayers(edges: Edges, layers: seq<set<Uuid>>, i: nat, u: Uuid, v: Uuid)
    requires IsLayering(edges, layers)
    requires i < |layers| && u in layers[i] && v in edges[u]
    ensures exists j :: 0 <= j < i && v in layers[j]
  {
    assert u in Ready(edges, Union(layers[..i]));
    UnionMember(layers[..i], v);
    var j :| 0 <= j < i && v in layers[..i][j];
    assert layers[..i][j] == layers[j];
  }

  /** No node is in two layers. */
  lemma LayersDisjoint(edges: Edges, layers: seq<set<Uuid>>, i: nat, j: nat)
    requires IsLayering(edges, layers)
    requires i < j < |layers|
    ensures layers[i] !! layers[j]
  {
    UnionContains(layers[..j], i);
    assert layers[..j][i] == layers[i];
  }

  /** A stuck set has no node in any layer. */
  lemma {:induction false} StuckNeverEmitted(edges: Edges, layers: seq<set<Uuid>>, s: set<Uuid>, k: nat)
    requires IsLayering(edges, layers) && StuckSet(edges, s)
    requires k <= |layers|
    ensures Union(layers[..k]) !! s
    decreases k
  {
    if k > 0 {
      StuckNeverEmitted(edges, layers, s, k - 1);
      UnionPrefix(layers, k);
      assert layers[k - 1] == Ready(edges, Union(layers[..k - 1]));
    }
  }

  /** A graph with a layering has no stuck set, and so (`CycleIsStuck`) no
      cycle. */
  lemma LayeringExcludesStuckSets(edges: Edges, layers: seq<set<Uuid>>, s: set<Uuid>)
    requires IsLayering(edges, layers)
    ensures !StuckSet(edges, s)
  {
    if StuckSet(edges, s) {
      assert layers[..|layers|] == layers;
      StuckNeverEmitted(edges, layers, s, |layers|);
    }
  }

  // ----------------------------------------------------------- the object

  /** `AcyclicDependencyGraph` as `main` uses it: a node per UUID and the
      dependencies between them. */
  class DependencyGraph {
    var nodes: map<Uuid, ModuleDescription>
    var edges: Edges

    ghost predicate Valid()
      reads this
    {
      && edges.Keys == nodes.Keys
      && Closed(edges)
      && forall u :: u in nodes ==> nodes[u].uuid == u
    }

    constructor ()
      ensures Valid()
      ensures nodes == map[] && edges == map[]
    {
      nodes := map[];
      edges := map[];
    }

    /** `depend_on(dependant, dependency)`: both become nodes (a UUID already
        present keeps its first descriptor) and `dependant` depends on
        `dependency`. */
    method DependOn(dependant: ModuleDescription, dependency: ModuleDescription)
      requires Valid()
      modifies this
      ensures Valid()
      ensures nodes == InsertNode(InsertNode(old(nodes), dependant), dependency)
      ensures edges == InsertEdge(old(edges), dependant.uuid, dependency.uuid)
    {
      nodes := InsertNode(InsertNode(nodes, dependant), dependency);
      edges := InsertEdge(edges, dependant.uuid, dependency.uuid);
    }

    /** `get_forward_dependency_topological_layers`, as a layered Kahn's
        algorithm: repeatedly emit every node whose dependencies have all been
        emitted. When no node is ready but some remain, those remaining nodes
        are returned as the failure: they form a stuck set. */
    method Layers() returns (r: Result<seq<set<Uuid>>, set<Uuid>>)
      requires Valid()
      ensures r.Ok? ==> IsLayering(edges, r.value)
      ensures r.Err? ==> StuckSet(edges, r.error)
    {
      var layers: seq<set<Uuid>> := [];
      var done: set<Uuid> := {};
      var remaining := edges.Keys;
      while remaining != {}
        invariant done == Union(layers) && done <= edges.Keys && remaining == edges.Keys - done
        invariant LayeredPrefix(edges, layers)
        decreases remaining
      {
        var layer := Ready(edges, done);
        if layer == {} {
          NothingReadyIsStuck(edges, done);
          return Err(remaining);
        }
        LayeredPrefixStep(edges, layers, layer);
        layers := layers + [layer];
        done := done + layer;
        remaining := remaining - layer;
      }
      return Ok(layers);
    }
  }

  /** Kahn's algorithm fails exactly on graphs with a stuck set. */
  lemma LayersFailExactlyOnStuckSets(edges: Edges, r: Result<seq<set<Uuid>>, set<Uuid>>)
    requires r.Ok? ==> IsLayering(edges, r.value)
    requires r.Err? ==> StuckSet(edges, r.error)
    ensures r.Ok? <==> forall s :: !StuckSet(edges, s)
  {
    if r.Ok? {
      forall s ensures !StuckSet(edges, s) {
        LayeringExcludesStuckSets(edges, r.value, s);
      }
    }
  }
}
