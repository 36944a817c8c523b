/** Arcade expansion (aqueduct/compiler/expander.py). */
module Expander {
  import opened Common
  import opened Digraph
  import opened Ast
  import opened Naming
  import opened Splice

  datatype Blueprint = Blueprint(modules: seq<Module>, edges: seq<Edge>, requiredContext: seq<string>)

  /** What `parse` guarantees: schema-valid unique ids, and a graph `detect_cycles` accepts. */
  ghost predicate WellParsed(bp: Blueprint) {
    && Distinct(Ids(bp.modules)) && (forall m :: m in bp.modules ==> ValidName(m.id))
    && Within(AllArcs(bp.modules, bp.edges), IdSet(bp.modules))
    && Acyclic(AllArcs(bp.modules, bp.edges))
  }

  datatype Lookup = NotFound | Unparsable(message: string) | Parsed(bp: Blueprint)

  /** The sub-Blueprint files: a reference and the context passed down determine the parse result. */
  type Store = (string, map<string, string>) -> Lookup

  ghost predicate ParserContract(store: Store) {
    forall ref, ctx :: store(ref, ctx).Parsed? ==> WellParsed(store(ref, ctx).bp)
  }

  datatype ExpandError =
    | DepthExceeded
    | MissingRef(id: Id)
    | SubBlueprintNotFound(id: Id)
    | SubBlueprintInvalid(id: Id, message: string)
    | MissingContext(id: Id, keys: seq<string>)
    | NoEntryModules(id: Id)
    | NoExitModules(id: Id)
    | IdCollision(id: Id)

  // ----- entry and exit modules -----

  function SelectIds(modules: seq<Module>, keep: Module -> bool): (ids: seq<Id>)
    ensures forall x :: x in ids <==> exists m :: m in modules && keep(m) && m.id == x
  {
    if modules == [] then [] else
    var rest := SelectIds(modules[1..], keep);
    assert modules == [modules[0]] + modules[1..];
    if keep(modules[0]) then [modules[0].id] + rest else rest
  }

  function EntryModules(sub: Blueprint): seq<Id> {
    var targets := set e | e in sub.edges :: e.to;
    SelectIds(sub.modules, (m: Module) => m.id !in targets)
  }

  function ExitModules(sub: Blueprint): seq<Id> {
    var sources := set e | e in sub.edges :: e.from;
    SelectIds(sub.modules, (m: Module) => m.id !in sources && m.kind != Egress && m.kind != Probe)
  }

  /** No edge leads into the module. */
  predicate IsEntry(sub: Blueprint, m: Module) {
    m in sub.modules && forall e :: e in sub.edges ==> e.to != m.id
  }

  /** The module produces data and no edge takes it. */
  predicate IsExit(sub: Blueprint, m: Module) {
    && m in sub.modules && m.kind != Egress && m.kind != Probe
    && forall e :: e in sub.edges ==> e.from != m.id
  }

  lemma EndsMean(sub: Blueprint, x: Id)
    ensures x in EntryModules(sub) <==> exists m :: IsEntry(sub, m) && m.id == x
    ensures x in ExitModules(sub) <==> exists m :: IsExit(sub, m) && m.id == x
  {
    forall m | m in sub.modules
      ensures IsEntry(sub, m) <==> m.id !in set e | e in sub.edges :: e.to
      ensures IsExit(sub, m) <==> m.id !in (set e | e in sub.edges :: e.from) && m.kind != Egress && m.kind != Probe
    {
    }
  }

  lemma EndsExist(sub: Blueprint)
    ensures EntryModules(sub) != [] <==> exists m :: IsEntry(sub, m)
    ensures ExitModules(sub) != [] <==> exists m :: IsExit(sub, m)
  {
    hide IsEntry, IsExit, EntryModules, ExitModules;
    forall x
      ensures x in EntryModules(sub) <==> exists m :: IsEntry(sub, m) && m.id == x
      ensures x in ExitModules(sub) <==> exists m :: IsExit(sub, m) && m.id == x
    {
      EndsMean(sub, x);
    }
    if EntryModules(sub) != [] {
      assert EntryModules(sub)[0] in EntryModules(sub);
    }
    if ExitModules(sub) != [] {
      assert ExitModules(sub)[0] in ExitModules(sub);
    }
    if m :| IsEntry(sub, m) {
      assert m.id in EntryModules(sub);
    }
    if m :| IsExit(sub, m) {
      assert m.id in ExitModules(sub);
    }
  }

  lemma HeadIsOnce(modules: seq<Module>, m: Module)
    requires modules != [] && Distinct(Ids(modules)) && m in modules[1..]
    ensures m.id != modules[0].id
  {
    var k :| 0 <= k < |modules[1..]| && modules[1..][k] == m;
    assert Ids(modules)[0] != Ids(modules)[k + 1];
  }

  lemma TailIsDistinct(modules: seq<Module>)
    requires modules != [] && Distinct(Ids(modules))
    ensures Distinct(Ids(modules[1..]))
  {
    assert Ids(modules[1..]) == Ids(modules)[1..];
  }

  lemma DistinctCons<T>(x: T, xs: seq<T>)
    requires Distinct(xs) && x !in xs
    ensures Distinct([x] + xs)
  {
  }

  lemma {:induction false} SelectedOnce(modules: seq<Module>, keep: Module -> bool)
    requires Distinct(Ids(modules))
    ensures Distinct(SelectIds(modules, keep))
  {
    hide Distinct, Ids;
    if modules == [] {
      NothingTwice();
    } else {
      var rest := SelectIds(modules[1..], keep);
      TailIsDistinct(modules);
      SelectedOnce(modules[1..], keep);
      if modules[0].id in rest {
        var m :| m in modules[1..] && keep(m) && m.id == modules[0].id;
        HeadIsOnce(modules, m);
      }
      DistinctCons(modules[0].id, rest);
    }
  }

  lemma NothingTwice()
    ensures Distinct<Id>([])
  {
  }

  /** Each entry and each exit is listed once. */
  lemma EndsOnce(sub: Blueprint)
    requires Distinct(Ids(sub.modules))
    ensures Distinct(EntryModules(sub)) && Distinct(ExitModules(sub))
  {
    var targets, sources := set e | e in sub.edges :: e.to, set e | e in sub.edges :: e.from;
    SelectedOnce(sub.modules, (m: Module) => m.id !in targets);
    SelectedOnce(sub.modules, (m: Module) => m.id !in sources && m.kind != Egress && m.kind != Probe);
  }

  // ----- the pieces one expansion produces -----

  function NamespaceRef(ns: Id, ids: set<Id>, ref: Option<Id>): Option<Id> {
    if ref.Some? && ref.value != "" && ref.value in ids then Some(Namespaced(ns, ref.value)) else None
  }

  function NamespaceModule(ns: Id, ids: set<Id>, m: Module): Module {
    m.(id := Namespaced(ns, m.id),
       attachTo := NamespaceRef(ns, ids, m.attachTo),
       spillway := NamespaceRef(ns, ids, m.spillway),
       dependsOn := seq(|m.dependsOn|, i requires 0 <= i < |m.dependsOn| =>
           if m.dependsOn[i] in ids then Namespaced(ns, m.dependsOn[i]) else m.dependsOn[i]))
  }

  function NamespaceModules(ns: Id, modules: seq<Module>): seq<Module> {
    seq(|modules|, i requires 0 <= i < |modules| => NamespaceModule(ns, IdSet(modules), modules[i]))
  }

  function InternalEdges(ns: Id, edges: seq<Edge>): seq<Edge> {
    seq(|edges|, i requires 0 <= i < |edges| =>
        edges[i].(from := Namespaced(ns, edges[i].from), to := Namespaced(ns, edges[i].to)))
  }

  /** The replacements of one parent edge: it fans out to the entries, or in from the exits. */
  function RewireOne(hub: Id, entries: seq<Id>, exits: seq<Id>, e: Edge): seq<Edge> {
    if e.to == hub then seq(|entries|, i requires 0 <= i < |entries| => e.(to := Namespaced(hub, entries[i])))
    else if e.from == hub then seq(|exits|, i requires 0 <= i < |exits| => e.(from := Namespaced(hub, exits[i])))
    else []
  }

  function Rewire(hub: Id, entries: seq<Id>, exits: seq<Id>, edges: seq<Edge>): seq<Edge> {
    if edges == [] then [] else
    Rewire(hub, entries, exits, edges[..|edges| - 1]) + RewireOne(hub, entries, exits, edges[|edges| - 1])
  }

  function Untouched(hub: Id, edges: seq<Edge>): (r: seq<Edge>)
    ensures forall e :: e in r <==> e in edges && e.from != hub && e.to != hub
  {
    if edges == [] then [] else
    var init, last := Untouched(hub, edges[..|edges| - 1]), edges[|edges| - 1];
    assert edges == edges[..|edges| - 1] + [last];
    if last.from != hub && last.to != hub then init + [last] else init
  }

  method ExpandSingle(arcade: Module, sub: Blueprint, parentEdges: seq<Edge>)
    returns (r: Result<(seq<Module>, seq<Edge>), ExpandError>)
    requires WellParsed(sub)
    ensures r.Ok? <==> EntryModules(sub) != [] && ExitModules(sub) != []
    ensures r.Err? ==>
              r.error == if EntryModules(sub) == [] then NoEntryModules(arcade.id) else NoExitModules(arcade.id)
    ensures r.Ok? ==> r.value.0 == NamespaceModules(arcade.id, sub.modules)
    ensures r.Ok? ==> r.value.1 == InternalEdges(arcade.id, sub.edges)
                                   + Rewire(arcade.id, EntryModules(sub), ExitModules(sub), parentEdges)
    // read off the sub-Blueprint: when it succeeds, and which edges come after the inner ones
    ensures r.Ok? <==> (exists m :: IsEntry(sub, m)) && exists m :: IsExit(sub, m)
    ensures r.Err? ==> (r.error == NoEntryModules(arcade.id) <==> forall m :: !IsEntry(sub, m))
    ensures r.Ok? ==> |r.value.1| >= |sub.edges|
    ensures r.Ok? ==> forall f ::
              f in r.value.1[|sub.edges|..] <==> exists e :: e in parentEdges && StandsFor(arcade.id, sub, e, f)
  {
    hide IsEntry, IsExit, StandsFor, EntryModules, ExitModules, RewireOne, WellParsed;
    var ns, ids := arcade.id, IdSet(sub.modules);
    var expanded: seq<Module> := [];
    for i := 0 to |sub.modules|
      invariant expanded == NamespaceModules(ns, sub.modules)[..i]
    {
      expanded := expanded + [NamespaceModule(ns, ids, sub.modules[i])];
    }
    var entries, exits := EntryModules(sub), ExitModules(sub);
    EndsExist(sub);
    if entries == [] {
      return Err(NoEntryModules(arcade.id));
    }
    if exits == [] {
      return Err(NoExitModules(arcade.id));
    }
    var rewired: seq<Edge> := [];
    for i := 0 to |parentEdges|
      invariant rewired == Rewire(ns, entries, exits, parentEdges[..i])
    {
      assert parentEdges[..i + 1][..i] == parentEdges[..i];
      var some := RewireParentEdge(ns, entries, exits, parentEdges[i]);
      rewired := rewired + some;
    }
    assert parentEdges[..|parentEdges|] == parentEdges;
    var edges := InternalEdges(ns, sub.edges) + rewired;
    assert edges[|sub.edges|..] == rewired;
    forall f ensures f in rewired <==> exists e :: e in parentEdges && StandsFor(ns, sub, e, f) {
      RewiringMeans(ns, sub, parentEdges, f);
    }
    return Ok((expanded, edges));
  }

  /** The body of the rewiring loop: one replacement per entry, or per exit. */
  method RewireParentEdge(hub: Id, entries: seq<Id>, exits: seq<Id>, e: Edge) returns (rewired: seq<Edge>)
    ensures rewired == RewireOne(hub, entries, exits, e)
  {
    rewired := [];
    if e.to == hub {
      for k := 0 to |entries|
        invariant rewired == RewireOne(hub, entries, exits, e)[..k]
      {
        rewired := rewired + [e.(to := Namespaced(hub, entries[k]))];
      }
    } else if e.from == hub {
      for k := 0 to |exits|
        invariant rewired == RewireOne(hub, entries, exits, e)[..k]
      {
        rewired := rewired + [e.(from := Namespaced(hub, exits[k]))];
      }
    }
  }

  // ----- what these pieces are, read off the sub-Blueprint -----

  /** A reference to a module of the sub-Blueprint gets its new name, any other is dropped. */
  ghost predicate RefMoved(hub: Id, sub: Blueprint, before: Option<Id>, after: Option<Id>) {
    if exists n :: n in sub.modules && before == Some(n.id) && n.id != ""
    then after == Some(hub + "__" + before.value) else after.None?
  }

  /** The child that stands for the `k`-th module: a new name, references that follow it, and otherwise the same
      module. */
  lemma ChildMeans(hub: Id, sub: Blueprint, k: nat)
    requires k < |sub.modules|
    ensures |NamespaceModules(hub, sub.modules)| == |sub.modules|
    ensures var c, m := sub.modules[k], NamespaceModules(hub, sub.modules)[k];
            && m.id == hub + "__" + c.id
            && m.kind == c.kind && m.ref == c.ref && m.contextOverride == c.contextOverride
            && RefMoved(hub, sub, c.attachTo, m.attachTo) && RefMoved(hub, sub, c.spillway, m.spillway)
            && |m.dependsOn| == |c.dependsOn|
            && forall i :: 0 <= i < |c.dependsOn| ==>
                 m.dependsOn[i] == if exists n :: n in sub.modules && n.id == c.dependsOn[i]
                                   then hub + "__" + c.dependsOn[i] else c.dependsOn[i]
  {
    var ids := IdSet(sub.modules);
    assert forall x :: x in ids <==> exists n :: n in sub.modules && n.id == x;
  }

  /** The inner edges keep order, port and error types. */
  lemma InnerEdgeMeans(hub: Id, edges: seq<Edge>, k: nat)
    requires k < |edges|
    ensures |InternalEdges(hub, edges)| == |edges|
    ensures InternalEdges(hub, edges)[k]
            == Edge(hub + "__" + edges[k].from, hub + "__" + edges[k].to, edges[k].port, edges[k].errorTypes)
  {
  }

  /** `f` stands for the parent edge `e`: aimed at an entry if `e` led into the Arcade, taken from an exit if it led
      out. */
  ghost predicate StandsFor(hub: Id, sub: Blueprint, e: Edge, f: Edge) {
    && f.port == e.port && f.errorTypes == e.errorTypes
    && if e.to == hub then f.from == e.from && exists m :: IsEntry(sub, m) && f.to == hub + "__" + m.id
       else e.from == hub && f.to == e.to && exists m :: IsExit(sub, m) && f.from == hub + "__" + m.id
  }

  lemma RewiringMeans(hub: Id, sub: Blueprint, edges: seq<Edge>, f: Edge)
    ensures f in Rewire(hub, EntryModules(sub), ExitModules(sub), edges) <==>
            exists e :: e in edges && StandsFor(hub, sub, e, f)
  {
    hide Rewire, IsEntry, IsExit, EntryModules, ExitModules;
    RewiringKeepsPorts(hub, EntryModules(sub), ExitModules(sub), edges, f);
    NamedEnd(hub, sub, f.to);
    NamedEnd(hub, sub, f.from);
  }

  lemma NamedEnd(hub: Id, sub: Blueprint, x: Id)
    ensures (exists c :: c in EntryModules(sub) && x == Namespaced(hub, c)) <==>
            exists m :: IsEntry(sub, m) && x == hub + "__" + m.id
    ensures (exists c :: c in ExitModules(sub) && x == Namespaced(hub, c)) <==>
            exists m :: IsExit(sub, m) && x == hub + "__" + m.id
  {
    hide IsEntry, IsExit, EntryModules, ExitModules;
    forall c
      ensures c in EntryModules(sub) <==> exists m :: IsEntry(sub, m) && m.id == c
      ensures c in ExitModules(sub) <==> exists m :: IsExit(sub, m) && m.id == c
    {
      EndsMean(sub, c);
    }
    if m :| IsEntry(sub, m) && x == hub + "__" + m.id {
      assert m.id in EntryModules(sub) && x == Namespaced(hub, m.id);
    }
    if m :| IsExit(sub, m) && x == hub + "__" + m.id {
      assert m.id in ExitModules(sub) && x == Namespaced(hub, m.id);
    }
  }

  /** The parent edges are rewired one after the other. */
  lemma {:induction false} RewireJoined(hub: Id, entries: seq<Id>, exits: seq<Id>, a: seq<Edge>, b: seq<Edge>)
    ensures Rewire(hub, entries, exits, a + b) == Rewire(hub, entries, exits, a) + Rewire(hub, entries, exits, b)
    decreases |b|
  {
    hide RewireOne;
    if b == [] {
      assert a + b == a;
    } else {
      var init, last := b[..|b| - 1], RewireOne(hub, entries, exits, b[|b| - 1]);
      assert (a + b)[..|a + b| - 1] == a + init;
      RewireJoined(hub, entries, exits, a, init);
      JoinThree(Rewire(hub, entries, exits, a), Rewire(hub, entries, exits, init), last);
    }
  }

  /** And the others stay in order. */
  lemma {:induction false} UntouchedJoined(hub: Id, a: seq<Edge>, b: seq<Edge>)
    ensures Untouched(hub, a + b) == Untouched(hub, a) + Untouched(hub, b)
    decreases |b|
  {
    if b == [] {
      assert a + b == a;
    } else {
      var init, last := b[..|b| - 1], b[|b| - 1];
      assert (a + b)[..|a + b| - 1] == a + init;
      UntouchedJoined(hub, a, init);
      JoinThree(Untouched(hub, a), Untouched(hub, init), [last]);
    }
  }

  lemma JoinThree(a: seq<Edge>, b: seq<Edge>, c: seq<Edge>)
    ensures (a + b) + c == a + (b + c)
  {
  }

  /** How many edges stand for each parent edge. */
  lemma RewiredCount(hub: Id, sub: Blueprint, e: Edge)
    ensures |RewireOne(hub, EntryModules(sub), ExitModules(sub), e)|
            == if e.to == hub then |EntryModules(sub)| else if e.from == hub then |ExitModules(sub)| else 0
  {
  }

  // ----- one expansion as a splice -----

  ghost function SiteOf(hub: Id, sub: Blueprint): Site {
    Site(hub, EdgeArcs(sub.edges), IdSet(sub.modules), Elems(EntryModules(sub)), Elems(ExitModules(sub)))
  }

  lemma SubArcsAcyclic(sub: Blueprint)
    requires WellParsed(sub)
    ensures Acyclic(EdgeArcs(sub.edges)) && Within(EdgeArcs(sub.edges), IdSet(sub.modules))
  {
    var rank := AcyclicHasRank(AllArcs(sub.modules, sub.edges));
    RankedIsAcyclic(EdgeArcs(sub.edges), rank);
  }

  /** A sub-Blueprint can be spliced in: its entries are the modules nothing leads into, and every exit is reached
      from one. */
  lemma SiteIsValid(hub: Id, sub: Blueprint)
    requires WellParsed(sub) && ExitModules(sub) != []
    ensures SiteOf(hub, sub).Valid() && SiteOf(hub, sub).Rooted() && SiteOf(hub, sub).Crossable()
    ensures var s := SiteOf(hub, sub); forall x :: x in s.exits ==> exists e :: e in s.entries && Reach(s.inner, e, x)
  {
    SubArcsAcyclic(sub);
    var s := SiteOf(hub, sub);
    assert ExitModules(sub)[0] in s.exits;
    forall c ensures c in s.entries <==> c in s.nodes && forall d :: d in s.nodes ==> (d, c) !in s.inner {
      HasIncoming(sub, c);
    }
    RootedIsCrossable(s);
  }

  lemma HasIncoming(sub: Blueprint, c: Id)
    requires Within(EdgeArcs(sub.edges), IdSet(sub.modules))
    ensures c in (set e | e in sub.edges :: e.to) <==>
            exists d :: d in IdSet(sub.modules) && (d, c) in EdgeArcs(sub.edges)
  {
    forall e | e in sub.edges ensures (e.from, e.to) in EdgeArcs(sub.edges) {
    }
  }

  lemma {:induction false} RewiredEdges(hub: Id, entries: seq<Id>, exits: seq<Id>, edges: seq<Edge>, f: Edge)
    ensures f in Rewire(hub, entries, exits, edges) <==>
            exists e :: e in edges && f in RewireOne(hub, entries, exits, e)
  {
    if edges != [] {
      RewiredEdges(hub, entries, exits, edges[..|edges| - 1], f);
      assert edges == edges[..|edges| - 1] + [edges[|edges| - 1]];
    }
  }

  /** The rewired edges are the copies of edges into the Arcade aimed at an entry, and of edges out of it taken from
      an exit. */
  lemma RewiringKeepsPorts(hub: Id, entries: seq<Id>, exits: seq<Id>, edges: seq<Edge>, f: Edge)
    ensures f in Rewire(hub, entries, exits, edges) <==>
            exists e :: e in edges && f.port == e.port && f.errorTypes == e.errorTypes &&
              if e.to == hub then f.from == e.from && exists c :: c in entries && f.to == Namespaced(hub, c)
              else e.from == hub && f.to == e.to && exists c :: c in exits && f.from == Namespaced(hub, c)
  {
    RewiredEdges(hub, entries, exits, edges, f);
    forall e | e in edges
      ensures f in RewireOne(hub, entries, exits, e) <==>
              f.port == e.port && f.errorTypes == e.errorTypes &&
              if e.to == hub then f.from == e.from && exists c :: c in entries && f.to == Namespaced(hub, c)
              else e.from == hub && f.to == e.to && exists c :: c in exits && f.from == Namespaced(hub, c)
    {
      RewiredCopies(hub, entries, exits, e, f);
    }
  }

  lemma RewiredCopies(hub: Id, entries: seq<Id>, exits: seq<Id>, e: Edge, f: Edge)
    ensures f in RewireOne(hub, entries, exits, e) <==>
            f.port == e.port && f.errorTypes == e.errorTypes &&
            if e.to == hub then f.from == e.from && exists c :: c in entries && f.to == Namespaced(hub, c)
            else e.from == hub && f.to == e.to && exists c :: c in exits && f.from == Namespaced(hub, c)
  {
    var copies := RewireOne(hub, entries, exits, e);
    if e.to == hub {
      forall c | c in entries ensures e.(to := Namespaced(hub, c)) in copies {
        var i :| 0 <= i < |entries| && entries[i] == c;
        assert copies[i] == e.(to := Namespaced(hub, c));
      }
    } else if e.from == hub {
      forall c | c in exits ensures e.(from := Namespaced(hub, c)) in copies {
        var i :| 0 <= i < |exits| && exits[i] == c;
        assert copies[i] == e.(from := Namespaced(hub, c));
      }
    }
  }

  lemma RewiredArcOrigin(hub: Id, entries: seq<Id>, exits: seq<Id>, edges: seq<Edge>, x: Id, y: Id)
    requires (x, y) in EdgeArcs(Rewire(hub, entries, exits, edges))
    ensures || ((x, hub) in EdgeArcs(edges) && exists c :: c in entries && y == Namespaced(hub, c))
            || ((hub, y) in EdgeArcs(edges) && exists c :: c in exits && x == Namespaced(hub, c))
  {
  }

  lemma FanOut(hub: Id, entries: seq<Id>, exits: seq<Id>, edges: seq<Edge>, x: Id, c: Id)
    requires (x, hub) in EdgeArcs(edges) && c in entries
    ensures (x, Namespaced(hub, c)) in EdgeArcs(Rewire(hub, entries, exits, edges))
  {
  }

  lemma FanIn(hub: Id, entries: seq<Id>, exits: seq<Id>, edges: seq<Edge>, c: Id, y: Id)
    requires (hub, y) in EdgeArcs(edges) && y != hub && c in exits
    ensures (Namespaced(hub, c), y) in EdgeArcs(Rewire(hub, entries, exits, edges))
  {
  }

  lemma RewiredArc(hub: Id, entries: seq<Id>, exits: seq<Id>, edges: seq<Edge>, x: Id, y: Id)
    requires (hub, hub) !in EdgeArcs(edges)
    ensures (x, y) in EdgeArcs(Rewire(hub, entries, exits, edges)) <==>
            || ((x, hub) in EdgeArcs(edges) && exists c :: c in entries && y == Namespaced(hub, c))
            || ((hub, y) in EdgeArcs(edges) && exists c :: c in exits && x == Namespaced(hub, c))
  {
    if (x, y) in EdgeArcs(Rewire(hub, entries, exits, edges)) {
      RewiredArcOrigin(hub, entries, exits, edges, x, y);
    }
    forall c | c in entries && (x, hub) in EdgeArcs(edges) {
      FanOut(hub, entries, exits, edges, x, c);
    }
    forall c | c in exits && (hub, y) in EdgeArcs(edges) {
      FanIn(hub, entries, exits, edges, c, y);
    }
  }

  lemma InternalArc(hub: Id, edges: seq<Edge>, x: Id, y: Id)
    ensures (x, y) in EdgeArcs(InternalEdges(hub, edges)) <==>
            exists c, d :: (c, d) in EdgeArcs(edges) && x == Namespaced(hub, c) && y == Namespaced(hub, d)
  {
    var inner := InternalEdges(hub, edges);
    if (x, y) in EdgeArcs(inner) {
      var k :| 0 <= k < |inner| && (inner[k].from, inner[k].to) == (x, y);
      assert edges[k] in edges && (edges[k].from, edges[k].to) in EdgeArcs(edges);
    }
    if c, d :| (c, d) in EdgeArcs(edges) && x == Namespaced(hub, c) && y == Namespaced(hub, d) {
      var k :| 0 <= k < |edges| && (edges[k].from, edges[k].to) == (c, d);
      assert inner[k] in inner;
    }
  }

  /** The edge list after the parent's rebinding of `edges`. */
  function EdgesAfter(hub: Id, sub: Blueprint, edges: seq<Edge>): seq<Edge> {
    Untouched(hub, edges) + (InternalEdges(hub, sub.edges) + Rewire(hub, EntryModules(sub), ExitModules(sub), edges))
  }

  lemma JoinedArcs(a: seq<Edge>, b: seq<Edge>)
    ensures EdgeArcs(a + b) == EdgeArcs(a) + EdgeArcs(b)
  {
  }

  lemma KeptArc(hub: Id, edges: seq<Edge>, x: Id, y: Id)
    ensures (x, y) in EdgeArcs(Untouched(hub, edges)) <==> (x, y) in EdgeArcs(edges) && x != hub && y != hub
  {
  }

  lemma ExpansionIsSplice(hub: Id, sub: Blueprint, edges: seq<Edge>)
    requires (hub, hub) !in EdgeArcs(edges)
    ensures IsSplice(EdgeArcs(edges), SiteOf(hub, sub), EdgeArcs(EdgesAfter(hub, sub, edges)))
  {
    hide EdgeArcs, Untouched, Rewire, InternalEdges, EntryModules, ExitModules, Namespaced;
    var a, s, after := EdgeArcs(edges), SiteOf(hub, sub), EdgesAfter(hub, sub, edges);
    var kept, inner := Untouched(hub, edges), InternalEdges(hub, sub.edges);
    var rewired := Rewire(hub, EntryModules(sub), ExitModules(sub), edges);
    JoinedArcs(kept, inner + rewired);
    JoinedArcs(inner, rewired);
    forall x, y ensures (x, y) in EdgeArcs(after) <==> SplicedArc(a, s, x, y) {
      KeptArc(hub, edges, x, y);
      InternalArc(hub, sub.edges, x, y);
      RewiredArc(hub, EntryModules(sub), ExitModules(sub), edges, x, y);
    }
  }
}
