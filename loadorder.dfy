/** The load-order rewrite of `main`: find the module list in the settings
    document, find the base game in it, build the dependency graph of the
    installed mods, and replace the list's module entries by the mods in
    forward topological order. */
module LoadOrder {
  import opened Wrappers
  import opened Seqs
  import opened Xml
  import opened Descriptor
  import opened Graph

  /** Where the module list sits in the settings document: the `children` of
      the `Mods` node under `region`/`node`/`children`. */
  const MODLIST_PATH: seq<Step> :=
    [ByName("region"), ByName("node"), ByName("children"), ById("Mods"), ByName("children")]

  datatype LoadError =
    | MissingModList
      /** no entry of the module list names the base game */
    | MissingBaseModule
      /** the search for the base game met an entry without a `Name` */
    | UnnamedModule(index: nat)
      /** the base-game entry lacks a required field */
    | MalformedBaseModule(field: string)
      /** a stuck set: nodes that can never be loaded, since each depends on
          another of them */
    | CycleDetected(stuck: set<Uuid>)

  // ------------------------------------------------------------ base game

  /** The base-game search stops at an entry: either it has no `Name`, which
      the search cannot read past, or its `Name` starts with the prefix. */
  predicate StopsSearch(c: Element) {
    GetAttr(c, "Name").None? || StartsWith(GetAttr(c, "Name").value, BASE_GAME_PREFIX)
  }

  /** The descriptor of the first entry of the module list whose `Name`
      starts with the base-game prefix. */
  function BaseModule(modlist: Element): (r: Result<ModuleDescription, LoadError>)
    ensures r.Ok? ==> IsBaseGame(r.value)
    ensures r.Ok? ==> exists k :: 0 <= k < |modlist.children| && Parse(modlist.children[k]) == Ok(r.value)
    ensures r == Err(MissingBaseModule) <==>
      forall k :: 0 <= k < |modlist.children| ==>
        GetAttr(modlist.children[k], "Name").Some? && !StartsWith(GetAttr(modlist.children[k], "Name").value, BASE_GAME_PREFIX)
    ensures r.Err? ==> !r.error.MissingModList? && !r.error.CycleDetected?
    ensures r.Err? && r.error.UnnamedModule? ==>
      r.error.index < |modlist.children| && GetAttr(modlist.children[r.error.index], "Name").None?
  {
    match FirstIndex(modlist.children, StopsSearch)
    case None => Err(MissingBaseModule)
    case Some(k) =>
      if GetAttr(modlist.children[k], "Name").None? then Err(UnnamedModule(k))
      else match Parse(modlist.children[k])
        case Err(field) => Err(MalformedBaseModule(field))
        case Ok(d) => Ok(d)
  }

  /** The first named entry with the prefix is the base game, provided every
      entry before it is named. */
  lemma BaseModuleIsFirstMatch(modlist: Element, k: nat, d: ModuleDescription)
    requires k < |modlist.children| && Parse(modlist.children[k]) == Ok(d) && IsBaseGame(d)
    requires forall j :: 0 <= j < k ==>
      GetAttr(modlist.children[j], "Name").Some? && !StartsWith(GetAttr(modlist.children[j], "Name").value, BASE_GAME_PREFIX)
    ensures BaseModule(modlist) == Ok(d)
  {
    FirstIndexIs(modlist.children, StopsSearch, k);
  }

  /** The search stops at the first entry that is unnamed or has the prefix,
      and fails there: an unnamed entry is `UnnamedModule`, and a base-game
      entry that lacks a required field is `MalformedBaseModule`. */
  lemma BaseModuleStopsAt(modlist: Element, k: nat)
    requires k < |modlist.children|
    requires forall j :: 0 <= j < k ==>
      GetAttr(modlist.children[j], "Name").Some? && !StartsWith(GetAttr(modlist.children[j], "Name").value, BASE_GAME_PREFIX)
    ensures GetAttr(modlist.children[k], "Name").None? ==> BaseModule(modlist) == Err(UnnamedModule(k))
    ensures (&& GetAttr(modlist.children[k], "Name").Some?
             && StartsWith(GetAttr(modlist.children[k], "Name").value, BASE_GAME_PREFIX)
             && Parse(modlist.children[k]).Err?) ==>
      BaseModule(modlist) == Err(MalformedBaseModule(Parse(modlist.children[k]).error))
  {
    if StopsSearch(modlist.children[k]) {
      FirstIndexIs(modlist.children, StopsSearch, k);
    }
  }

  // --------------------------------------------------- the depend_on calls

  /** The calls made for one mod: it depends on the base game, then on each
      of its declared dependencies in order. */
  function ModuleCalls(base: ModuleDescription, m: Module): (calls: seq<Dependency>)
    ensures |calls| == 1 + |m.dependencies|
    ensures calls[0] == (m.description, base)
    ensures forall j :: 0 <= j < |m.dependencies| ==> calls[1 + j] == (m.description, m.dependencies[j])
  {
    [(m.description, base)]
      + seq(|m.dependencies|, j requires 0 <= j < |m.dependencies| => (m.description, m.dependencies[j]))
  }

  /** The calls made for all mods, in order. */
  function AllCalls(base: ModuleDescription, mods: seq<Module>): (calls: seq<Dependency>)
    decreases |mods|
  {
    if mods == [] then [] else AllCalls(base, mods[..|mods| - 1]) + ModuleCalls(base, mods[|mods| - 1])
  }

  /** Mod `m` has `u` as its UUID and names `v` as the base game or as one
      of its dependencies. */
  ghost predicate DeclaredBy(base: ModuleDescription, m: Module, u: Uuid, v: Uuid) {
    && m.description.uuid == u
    && (v == base.uuid || exists j :: 0 <= j < |m.dependencies| && m.dependencies[j].uuid == v)
  }

  /** Some mod declares that `u` depends on `v`. */
  ghost predicate Declares(base: ModuleDescription, mods: seq<Module>, u: Uuid, v: Uuid) {
    exists i :: 0 <= i < |mods| && DeclaredBy(base, mods[i], u, v)
  }

  lemma CalledAppend(a: seq<Dependency>, b: seq<Dependency>, u: Uuid, v: Uuid)
    ensures Called(a + b, u, v) <==> Called(a, u, v) || Called(b, u, v)
  {
    var ab := a + b;
    if Called(a, u, v) {
      var i :| 0 <= i < |a| && a[i].0.uuid == u && a[i].1.uuid == v;
      assert ab[i] == a[i];
    }
    if Called(b, u, v) {
      var i :| 0 <= i < |b| && b[i].0.uuid == u && b[i].1.uuid == v;
      assert ab[|a| + i] == b[i];
    }
    if Called(ab, u, v) {
      var i :| 0 <= i < |ab| && ab[i].0.uuid == u && ab[i].1.uuid == v;
      if i < |a| {
        assert ab[i] == a[i];
      } else {
        assert ab[i] == b[i - |a|];
      }
    }
  }

  lemma ModuleCallsDeclared(base: ModuleDescription, m: Module, u: Uuid, v: Uuid)
    ensures Called(ModuleCalls(base, m), u, v) <==> DeclaredBy(base, m, u, v)
  {
    var calls := ModuleCalls(base, m);
    if Called(calls, u, v) {
      var i :| 0 <= i < |calls| && calls[i].0.uuid == u && calls[i].1.uuid == v;
      if i > 0 {
        assert m.dependencies[i - 1].uuid == v;
      }
    }
    if DeclaredBy(base, m, u, v) {
      if v == base.uuid {
        assert calls[0].0.uuid == u && calls[0].1.uuid == v;
      } else {
        var j :| 0 <= j < |m.dependencies| && m.dependencies[j].uuid == v;
        assert calls[1 + j].0.uuid == u && calls[1 + j].1.uuid == v;
      }
    }
  }

  /** The calls make `u` depend on `v` exactly when some mod declares it. */
  lemma {:induction false} AllCallsDeclared(base: ModuleDescription, mods: seq<Module>, u: Uuid, v: Uuid)
    ensures Called(AllCalls(base, mods), u, v) <==> Declares(base, mods, u, v)
    decreases |mods|
  {
    if mods != [] {
      var init := mods[..|mods| - 1];
      var m := mods[|mods| - 1];
      AllCallsDeclared(base, init, u, v);
      CalledAppend(AllCalls(base, init), ModuleCalls(base, m), u, v);
      ModuleCallsDeclared(base, m, u, v);
      if Declares(base, init, u, v) {
        var i :| 0 <= i < |init| && DeclaredBy(base, init[i], u, v);
        assert mods[i] == init[i];
      }
      if Declares(base, mods, u, v) {
        var i :| 0 <= i < |mods| && DeclaredBy(base, mods[i], u, v);
        if i < |init| {
          assert init[i] == mods[i];
        }
      }
    }
  }

  /** The dependency graph of the built tables: `u` depends on `v` exactly
      when some mod declares it. */
  lemma GraphEdgesDeclared(base: ModuleDescription, mods: seq<Module>, u: Uuid, v: Uuid)
    requires u in BuildEdges(AllCalls(base, mods))
    ensures v in BuildEdges(AllCalls(base, mods))[u] <==> Declares(base, mods, u, v)
  {
    BuildEdgesCalled(AllCalls(base, mods), u, v);
    AllCallsDeclared(base, mods, u, v);
  }

  lemma PrefixSnoc<T>(front: seq<T>, s: seq<T>, k: nat)
    requires k < |s|
    ensures front + s[..k + 1] == front + s[..k] + [s[k]]
  {
    assert s[..k + 1] == s[..k] + [s[k]];
  }

  /** Both ends of every declared dependency are nodes of the graph. */
  lemma DeclaredAreNodes(base: ModuleDescription, mods: seq<Module>, u: Uuid, v: Uuid)
    requires Declares(base, mods, u, v)
    ensures u in BuildNodes(AllCalls(base, mods)) && v in BuildNodes(AllCalls(base, mods))
  {
    var calls := AllCalls(base, mods);
    AllCallsDeclared(base, mods, u, v);
    var i :| 0 <= i < |calls| && calls[i].0.uuid == u && calls[i].1.uuid == v;
    BuildNodesMentioned(calls, u);
    BuildNodesMentioned(calls, v);
  }

  /** With at least one mod, the base game is a node of the graph. */
  lemma BaseIsNode(base: ModuleDescription, mods: seq<Module>)
    requires mods != []
    ensures base.uuid in BuildEdges(AllCalls(base, mods))
  {
    assert DeclaredBy(base, mods[0], mods[0].description.uuid, base.uuid);
    DeclaredAreNodes(base, mods, mods[0].description.uuid, base.uuid);
  }

  /** In a graph without a stuck set the base game depends on nothing: only a mod
      with the base game's own UUID could give it a dependency, and that mod
      would make it depend on itself. */
  lemma BaseHasNoDependencies(base: ModuleDescription, mods: seq<Module>)
    requires base.uuid in BuildEdges(AllCalls(base, mods))
    requires forall s :: !StuckSet(BuildEdges(AllCalls(base, mods)), s)
    ensures BuildEdges(AllCalls(base, mods))[base.uuid] == {}
  {
    var edges := BuildEdges(AllCalls(base, mods));
    if v :| v in edges[base.uuid] {
      GraphEdgesDeclared(base, mods, base.uuid, v);
      var i :| 0 <= i < |mods| && DeclaredBy(base, mods[i], base.uuid, v);
      assert DeclaredBy(base, mods[i], base.uuid, base.uuid);
      GraphEdgesDeclared(base, mods, base.uuid, base.uuid);
      assert StuckSet(edges, {base.uuid});
    }
  }

  /** Whenever the graph has a layering and there is at least one mod, the
      base game sits in the first layer. */
  lemma BaseInFirstLayer(base: ModuleDescription, mods: seq<Module>, layers: seq<set<Uuid>>)
    requires mods != []
    requires IsLayering(BuildEdges(AllCalls(base, mods)), layers)
    ensures |layers| > 0 && base.uuid in layers[0]
  {
    var edges := BuildEdges(AllCalls(base, mods));
    BaseIsNode(base, mods);
    forall s ensures !StuckSet(edges, s) {
      LayeringExcludesStuckSets(edges, layers, s);
    }
    BaseHasNoDependencies(base, mods);
    assert layers[..0] == [];
    assert base.uuid in Ready(edges, {});
  }

  lemma AllCallsSnoc(base: ModuleDescription, mods: seq<Module>, i: nat)
    requires i < |mods|
    ensures AllCalls(base, mods[..i + 1]) == AllCalls(base, mods[..i]) + ModuleCalls(base, mods[i])
  {
    assert mods[..i + 1][..i] == mods[..i];
  }

  /** One `depend_on` call, with the calls made so far as its history. */
  method Call(g: DependencyGraph, ghost done: seq<Dependency>, dependant: ModuleDescription, dependency: ModuleDescription)
    requires g.Valid() && g.nodes == BuildNodes(done) && g.edges == BuildEdges(done)
    modifies g
    ensures g.Valid()
    ensures g.nodes == BuildNodes(done + [(dependant, dependency)])
    ensures g.edges == BuildEdges(done + [(dependant, dependency)])
  {
    BuildStep(done, dependant, dependency);
    g.DependOn(dependant, dependency);
  }

  /** The `depend_on` calls for one mod: on the base game, then on each of
      its dependencies. */
  method AddModule(g: DependencyGraph, base: ModuleDescription, m: Module, ghost calls: seq<Dependency>)
    requires g.Valid() && g.nodes == BuildNodes(calls) && g.edges == BuildEdges(calls)
    modifies g
    ensures g.Valid()
    ensures g.nodes == BuildNodes(calls + ModuleCalls(base, m))
    ensures g.edges == BuildEdges(calls + ModuleCalls(base, m))
  {
    ghost var mine := ModuleCalls(base, m);
    Call(g, calls, m.description, base);
    ghost var done := calls + [(m.description, base)];
    assert done == calls + mine[..1];
    for j := 0 to |m.dependencies|
      invariant g.Valid()
      invariant done == calls + mine[..1 + j]
      invariant g.nodes == BuildNodes(done) && g.edges == BuildEdges(done)
    {
      Call(g, done, m.description, m.dependencies[j]);
      PrefixSnoc(calls, mine, 1 + j);
      done := done + [(m.description, m.dependencies[j])];
    }
    assert mine[..1 + |m.dependencies|] == mine;
  }

  /** `depend_on` for every mod and each of its dependencies, as the loop in
      `main` makes the calls. */
  method BuildGraph(base: ModuleDescription, mods: seq<Module>) returns (g: DependencyGraph)
    ensures fresh(g) && g.Valid()
    ensures g.nodes == BuildNodes(AllCalls(base, mods))
    ensures g.edges == BuildEdges(AllCalls(base, mods))
  {
    g := new DependencyGraph();
    for i := 0 to |mods|
      invariant fresh(g) && g.Valid()
      invariant g.nodes == BuildNodes(AllCalls(base, mods[..i]))
      invariant g.edges == BuildEdges(AllCalls(base, mods[..i]))
    {
      AddModule(g, base, mods[i], AllCalls(base, mods[..i]));
      AllCallsSnoc(base, mods, i);
    }
    assert mods[..|mods|] == mods;
  }

  // ------------------------------------------------------------- emission

  /** The `ModuleShortDesc` entries of the nodes, in order. */
  function Descs(nodes: map<Uuid, ModuleDescription>, order: seq<Uuid>): (descs: seq<Element>)
    requires forall k :: 0 <= k < |order| ==> order[k] in nodes
    ensures |descs| == |order|
    decreases |order|
  {
    if order == [] then [] else Descs(nodes, order[..|order| - 1]) + [ShortDesc(nodes[order[|order| - 1]])]
  }

  lemma {:induction false} DescsAppend(nodes: map<Uuid, ModuleDescription>, a: seq<Uuid>, b: seq<Uuid>)
    requires forall k :: 0 <= k < |a| ==> a[k] in nodes
    requires forall k :: 0 <= k < |b| ==> b[k] in nodes
    ensures forall k :: 0 <= k < |a + b| ==> (a + b)[k] in nodes
    ensures Descs(nodes, a + b) == Descs(nodes, a) + Descs(nodes, b)
    decreases |b|
  {
    assert forall k :: 0 <= k < |a + b| ==> (a + b)[k] in nodes by {
      forall k | 0 <= k < |a + b| ensures (a + b)[k] in nodes {
        if k >= |a| {
          assert (a + b)[k] == b[k - |a|];
        }
      }
    }
    if b == [] {
      assert a + b == a;
    } else {
      var init := b[..|b| - 1];
      DescsAppend(nodes, a, init);
      assert (a + b)[..|a + b| - 1] == a + init;
    }
  }

  lemma DescsSnoc(nodes: map<Uuid, ModuleDescription>, order: seq<Uuid>, u: Uuid)
    requires forall k :: 0 <= k < |order| ==> order[k] in nodes
    requires u in nodes
    ensures Descs(nodes, order + [u]) == Descs(nodes, order) + [ShortDesc(nodes[u])]
  {
    assert (order + [u])[..|order|] == order;
  }

  /** No UUID occurs twice. */
  ghost predicate Distinct(order: seq<Uuid>) {
    forall a, b :: 0 <= a < b < |order| ==> order[a] != order[b]
  }

  /** Part way through a layer: `added` lists the nodes of the layer not in
      `rest`, once each, and `out` is `list` with their entries appended. */
  ghost predicate LayerEmitted(nodes: map<Uuid, ModuleDescription>, layer: set<Uuid>, rest: set<Uuid>,
                               list: Element, out: Element, added: seq<Uuid>)
  {
    && rest <= layer <= nodes.Keys
    && (forall k :: 0 <= k < |added| ==> added[k] in layer - rest)
    && (forall u :: u in layer - rest ==> u in added)
    && Distinct(added)
    && out.name == list.name && out.attrs == list.attrs
    && out.children == list.children + Descs(nodes, added)
  }

  lemma LayerEmittedStep(nodes: map<Uuid, ModuleDescription>, layer: set<Uuid>, rest: set<Uuid>,
                         list: Element, out: Element, added: seq<Uuid>, u: Uuid)
    requires LayerEmitted(nodes, layer, rest, list, out, added) && u in rest
    ensures LayerEmitted(nodes, layer, rest - {u}, list, Append(out, ShortDesc(nodes[u])), added + [u])
  {
    DescsSnoc(nodes, added, u);
    var added' := added + [u];
    forall k | 0 <= k < |added'| ensures added'[k] in layer - (rest - {u}) {
      if k < |added| {
        assert added'[k] == added[k];
      }
    }
    forall a, b | 0 <= a < b < |added'| ensures added'[a] != added'[b] {
      assert added'[a] == added[a];
      if b == |added| {
        assert added[a] !in rest;
      }
    }
  }

  /** Appends the entries of one layer, in whatever order the layer's set
      yields them. */
  method EmitLayer(nodes: map<Uuid, ModuleDescription>, layer: set<Uuid>, list: Element)
    returns (out: Element, added: seq<Uuid>)
    requires layer <= nodes.Keys
    ensures forall k :: 0 <= k < |added| ==> added[k] in layer
    ensures forall u :: u in layer ==> u in added
    ensures Distinct(added)
    ensures out.name == list.name && out.attrs == list.attrs
    ensures out.children == list.children + Descs(nodes, added)
  {
    out := list;
    added := [];
    var rest := layer;
    while rest != {}
      invariant LayerEmitted(nodes, layer, rest, list, out, added)
      decreases rest
    {
      var u :| u in rest;
      var entry := AsXml(nodes[u]);
      LayerEmittedStep(nodes, layer, rest, list, out, added, u);
      out := Append(out, entry);
      added := added + [u];
      rest := rest - {u};
    }
  }

  /** Where each emitted node came from: `layerOf[k]` is the layer holding
      `order[k]`, and the layers are emitted in order. */
  ghost predicate FromLayers(layers: seq<set<Uuid>>, order: seq<Uuid>, layerOf: seq<nat>) {
    && |layerOf| == |order|
    && (forall k :: 0 <= k < |order| ==> layerOf[k] < |layers| && order[k] in layers[layerOf[k]])
    && (forall a, b :: 0 <= a < b < |order| ==> layerOf[a] <= layerOf[b])
  }

  lemma FromLayersExtend(layers: seq<set<Uuid>>, i: nat, order: seq<Uuid>, layerOf: seq<nat>, added: seq<Uuid>)
    requires i < |layers| && FromLayers(layers[..i], order, layerOf)
    requires forall k :: 0 <= k < |added| ==> added[k] in layers[i]
    ensures FromLayers(layers[..i + 1], order + added, layerOf + seq(|added|, _ => i))
  {
    var layers', order', layerOf' := layers[..i + 1], order + added, layerOf + seq(|added|, _ => i);
    forall k | 0 <= k < |order'|
      ensures layerOf'[k] < |layers'| && order'[k] in layers'[layerOf'[k]]
    {
      if k < |order| {
        assert layers'[layerOf[k]] == layers[..i][layerOf[k]];
      } else {
        assert order'[k] == added[k - |order|];
      }
    }
  }

  lemma AppendAssoc<T>(a: seq<T>, b: seq<T>, c: seq<T>)
    ensures a + b + c == a + (b + c)
  {
  }

  lemma DistinctAppend(a: seq<Uuid>, b: seq<Uuid>)
    requires Distinct(a) && Distinct(b)
    requires forall k, l :: 0 <= k < |a| && 0 <= l < |b| ==> a[k] != b[l]
    ensures Distinct(a + b)
  {
    forall x, y | 0 <= x < y < |a + b| ensures (a + b)[x] != (a + b)[y] {
      if y < |a| {
      } else if x < |a| {
        assert (a + b)[y] == b[y - |a|];
      } else {
        assert (a + b)[x] == b[x - |a|] && (a + b)[y] == b[y - |a|];
      }
    }
  }

  /** After emitting the layers `done`: `order` lists their nodes once each,
      layer after layer, and `out` is `list` with their entries appended. */
  ghost predicate EmittedLayers(nodes: map<Uuid, ModuleDescription>, done: seq<set<Uuid>>, list: Element,
                                out: Element, order: seq<Uuid>, layerOf: seq<nat>)
  {
    && (forall k :: 0 <= k < |order| ==> order[k] in Union(done) && order[k] in nodes)
    && (forall u :: u in Union(done) ==> u in order)
    && Distinct(order)
    && FromLayers(done, order, layerOf)
    && out.name == list.name && out.attrs == list.attrs
    && out.children == list.children + Descs(nodes, order)
  }

  /** Appending the entries of `added` after those of `order` gives the
      entries of `order + added`. */
  lemma EntriesStep(nodes: map<Uuid, ModuleDescription>, list: Element, out: Element, next: Element,
                    order: seq<Uuid>, added: seq<Uuid>)
    requires forall k :: 0 <= k < |order| ==> order[k] in nodes
    requires forall k :: 0 <= k < |added| ==> added[k] in nodes
    requires out.children == list.children + Descs(nodes, order)
    requires next.children == out.children + Descs(nodes, added)
    ensures forall k :: 0 <= k < |order + added| ==> (order + added)[k] in nodes
    ensures next.children == list.children + Descs(nodes, order + added)
  {
    DescsAppend(nodes, order, added);
    AppendAssoc(list.children, Descs(nodes, order), Descs(nodes, added));
  }

  /** Emitting layer `i`, which is disjoint from the layers before it, keeps
      EmittedLayers. */
  lemma EmittedStep(nodes: map<Uuid, ModuleDescription>, layers: seq<set<Uuid>>, i: nat, list: Element,
                    out: Element, order: seq<Uuid>, layerOf: seq<nat>, next: Element, added: seq<Uuid>)
    requires i < |layers| && layers[i] <= nodes.Keys && layers[i] !! Union(layers[..i])
    requires EmittedLayers(nodes, layers[..i], list, out, order, layerOf)
    requires forall k :: 0 <= k < |added| ==> added[k] in layers[i]
    requires forall u :: u in layers[i] ==> u in added
    requires Distinct(added)
    requires next.name == out.name && next.attrs == out.attrs
    requires next.children == out.children + Descs(nodes, added)
    ensures EmittedLayers(nodes, layers[..i + 1], list, next, order + added, layerOf + seq(|added|, _ => i))
  {
    UnionPrefix(layers, i + 1);
    assert layers[..i + 1][..i] == layers[..i];
    var done := Union(layers[..i]);
    EntriesStep(nodes, list, out, next, order, added);
    FromLayersExtend(layers, i, order, layerOf, added);
    forall k, l | 0 <= k < |order| && 0 <= l < |added| ensures order[k] != added[l] {
      assert order[k] in done && added[l] in layers[i];
    }
    DistinctAppend(order, added);
    var order' := order + added;
    forall k | 0 <= k < |order'| ensures order'[k] in Union(layers[..i + 1]) {
      if k >= |order| {
        assert order'[k] == added[k - |order|];
      }
    }
  }

  /** Once every layer of a layering is emitted, every node is listed once
      and the list holds its entry. */
  lemma EmittedAll(nodes: map<Uuid, ModuleDescription>, edges: Edges, layers: seq<set<Uuid>>, list: Element,
                   out: Element, order: seq<Uuid>, layerOf: seq<nat>)
    requires IsLayering(edges, layers) && edges.Keys == nodes.Keys
    requires EmittedLayers(nodes, layers[..|layers|], list, out, order, layerOf)
    ensures forall k :: 0 <= k < |order| ==> order[k] in nodes
    ensures forall u :: u in nodes ==> u in order
    ensures Distinct(order)
    ensures FromLayers(layers, order, layerOf)
    ensures out.name == list.name && out.attrs == list.attrs
    ensures out.children == list.children + Descs(nodes, order)
  {
    assert layers[..|layers|] == layers;
  }

  /** The nested loop over `get_forward_dependency_topological_layers`:
      appends the entry of every node, layer after layer. */
  method EmitLayers(nodes: map<Uuid, ModuleDescription>, edges: Edges, layers: seq<set<Uuid>>, list: Element)
    returns (out: Element, order: seq<Uuid>, ghost layerOf: seq<nat>)
    requires IsLayering(edges, layers) && edges.Keys == nodes.Keys
    ensures forall k :: 0 <= k < |order| ==> order[k] in nodes
    ensures forall u :: u in nodes ==> u in order
    ensures Distinct(order)
    ensures FromLayers(layers, order, layerOf)
    ensures out.name == list.name && out.attrs == list.attrs
    ensures out.children == list.children + Descs(nodes, order)
  {
    out := list;
    order := [];
    layerOf := [];
    for i := 0 to |layers|
      invariant EmittedLayers(nodes, layers[..i], list, out, order, layerOf)
    {
      UnionContains(layers, i);
      assert layers[i] !! Union(layers[..i]) by {
        assert layers[i] == Ready(edges, Union(layers[..i]));
      }
      var next, added := EmitLayer(nodes, layers[i], out);
      EmittedStep(nodes, layers, i, list, out, order, layerOf, next, added);
      out, order, layerOf := next, order + added, layerOf + seq(|added|, _ => i);
    }
    EmittedAll(nodes, edges, layers, list, out, order, layerOf);
  }

  /** In an order that follows a layering, every dependency comes before the
      node that depends on it. */
  lemma DependenciesFirst(edges: Edges, layers: seq<set<Uuid>>, order: seq<Uuid>, layerOf: seq<nat>, a: nat, b: nat)
    requires IsLayering(edges, layers) && FromLayers(layers, order, layerOf)
    requires a < |order| && b < |order| && order[b] in edges && order[a] in edges[order[b]]
    ensures a < b
  {
    var i := layerOf[b];
    DependenciesInEarlierLayers(edges, layers, i, order[b], order[a]);
    var j :| 0 <= j < i && order[a] in layers[j];
    if layerOf[a] < j {
      LayersDisjoint(edges, layers, layerOf[a], j);
    } else if j < layerOf[a] {
      LayersDisjoint(edges, layers, j, layerOf[a]);
    }
  }

  /** An order that lists every node, layer after layer, puts each declared
      dependency before the mod that declares it and names every mod, the
      base game and every declared dependency. */
  lemma EmittedOrderFacts(base: ModuleDescription, mods: seq<Module>, layers: seq<set<Uuid>>,
                          order: seq<Uuid>, layerOf: seq<nat>)
    requires IsLayering(BuildEdges(AllCalls(base, mods)), layers) && FromLayers(layers, order, layerOf)
    requires forall u :: u in BuildNodes(AllCalls(base, mods)) ==> u in order
    ensures forall a, b :: 0 <= a < |order| && 0 <= b < |order| && Declares(base, mods, order[b], order[a]) ==> a < b
    ensures forall i :: 0 <= i < |mods| ==> mods[i].description.uuid in order && base.uuid in order
    ensures forall i, j :: 0 <= i < |mods| && 0 <= j < |mods[i].dependencies| ==> mods[i].dependencies[j].uuid in order
  {
    var edges := BuildEdges(AllCalls(base, mods));
    forall a, b | 0 <= a < |order| && 0 <= b < |order| && Declares(base, mods, order[b], order[a])
      ensures a < b
    {
      DeclaredAreNodes(base, mods, order[b], order[a]);
      GraphEdgesDeclared(base, mods, order[b], order[a]);
      DependenciesFirst(edges, layers, order, layerOf, a, b);
    }
    forall i | 0 <= i < |mods|
      ensures mods[i].description.uuid in order && base.uuid in order
    {
      assert DeclaredBy(base, mods[i], mods[i].description.uuid, base.uuid);
      DeclaredAreNodes(base, mods, mods[i].description.uuid, base.uuid);
    }
    forall i, j | 0 <= i < |mods| && 0 <= j < |mods[i].dependencies|
      ensures mods[i].dependencies[j].uuid in order
    {
      assert DeclaredBy(base, mods[i], mods[i].description.uuid, mods[i].dependencies[j].uuid);
      DeclaredAreNodes(base, mods, mods[i].description.uuid, mods[i].dependencies[j].uuid);
    }
  }

  // ------------------------------------------------------------- the rewrite

  /** The order of the new list: every node once, layer after layer of the
      graph's layering, every mod, the base game and every declared
      dependency named, and each declared dependency before its declarer. */
  ghost predicate EmittedOrder(base: ModuleDescription, mods: seq<Module>, order: seq<Uuid>,
                               layers: seq<set<Uuid>>, layerOf: seq<nat>)
  {
    var nodes := BuildNodes(AllCalls(base, mods));
    && (forall k :: 0 <= k < |order| ==> order[k] in nodes)
    && (forall u :: u in nodes ==> u in order)
    && (forall i :: 0 <= i < |mods| ==> mods[i].description.uuid in order && base.uuid in order)
    && (forall i, j :: 0 <= i < |mods| && 0 <= j < |mods[i].dependencies| ==> mods[i].dependencies[j].uuid in order)
    && (mods == [] ==> order == [])
    && Distinct(order)
    && (forall a, b :: 0 <= a < |order| && 0 <= b < |order| && Declares(base, mods, order[b], order[a]) ==> a < b)
    && IsLayering(BuildEdges(AllCalls(base, mods)), layers)
    && FromLayers(layers, order, layerOf)
    && (mods != [] ==> |layers| > 0 && base.uuid in layers[0])
  }

  /** `doc` is `settings` with the module list at `path` replaced by one with
      the same tag and attributes, holding the old list's non-`node`
      children followed by one entry per node of `order`; navigation still
      finds the list there, and nothing else changed. */
  ghost predicate ListReplaced(settings: Element, path: seq<nat>, doc: Element,
                               nodes: map<Uuid, ModuleDescription>, order: seq<Uuid>)
    requires IsPath(settings, path)
    requires forall k :: 0 <= k < |order| ==> order[k] in nodes
  {
    var modlist := At(settings, path);
    && Locate(doc, MODLIST_PATH) == Some(path)
    && doc == ReplaceAt(settings, path, At(doc, path))
    && At(doc, path).name == modlist.name && At(doc, path).attrs == modlist.attrs
    && At(doc, path).children == RemoveElementsByName(modlist, "node").children + Descs(nodes, order)
  }

  /** `main` from locating the module list to putting the new list in its
      place. The new list keeps the entries of the old one that are not
      `node`s, then holds one `ModuleShortDesc` per node of the dependency
      graph, layer after layer, every dependency before the modules that
      declare it. */
  method Reorder(settings: Element, mods: seq<Module>)
    returns (r: Result<Element, LoadError>, order: seq<Uuid>, ghost layers: seq<set<Uuid>>, ghost layerOf: seq<nat>)
    ensures Locate(settings, MODLIST_PATH).None? <==> r == Err(MissingModList)
    ensures Locate(settings, MODLIST_PATH).Some? ==>
      var path := Locate(settings, MODLIST_PATH).value;
      var modlist := At(settings, path);
      && (BaseModule(modlist).Err? ==> r == Err(BaseModule(modlist).error))
      && (BaseModule(modlist).Ok? ==>
        var base := BaseModule(modlist).value;
        var edges := BuildEdges(AllCalls(base, mods));
        && (r.Err? ==> r.error.CycleDetected? && StuckSet(edges, r.error.stuck))
        && ((forall s :: !StuckSet(edges, s)) ==> r.Ok?)
        && (r.Ok? ==>
          && EmittedOrder(base, mods, order, layers, layerOf)
          && ListReplaced(settings, path, r.value, BuildNodes(AllCalls(base, mods)), order)))
  {
    order, layers, layerOf := [], [], [];
    var located := Locate(settings, MODLIST_PATH);
    if located.None? {
      return Err(MissingModList), order, layers, layerOf;
    }
    var path := located.value;
    var modlist := At(settings, path);
    var base := BaseModule(modlist);
    if base.Err? {
      return Err(base.error), order, layers, layerOf;
    }
    var list := RemoveElementsByName(modlist, "node");
    var g := BuildGraph(base.value, mods);
    var layered := g.Layers();
    if layered.Err? {
      return Err(CycleDetected(layered.error)), order, layers, layerOf;
    }
    layers := layered.value;
    var out;
    out, order, layerOf := EmitLayers(g.nodes, g.edges, layered.value, list);
    EmittedOrderFacts(base.value, mods, layers, order, layerOf);
    if mods != [] {
      BaseInFirstLayer(base.value, mods, layers);
    }
    LocateAfterReplace(settings, MODLIST_PATH, out);
    r := Ok(ReplaceAt(settings, path, out));
  }
}
