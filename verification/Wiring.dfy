/**
 * What a Blueprint and the sub-Blueprints it loads must look like for the compiled graph to be closed
 * (aqueduct/compiler/expander.py, aqueduct/compiler/wirer.py). The condition is read off the inputs; the proofs
 * follow it through every single expansion.
 */
module Wiring {
  import opened Common
  import opened Digraph
  import opened Ast
  import opened Naming
  import Splice
  import opened Expander
  import opened Expansion
  import W = Wirer

  // ----- the ports that reach a module -----

  predicate Into(es: seq<Edge>, id: Id, port: string) {
    exists e :: e in es && e.to == id && e.port == port
  }

  predicate OutOf(es: seq<Edge>, id: Id, port: string) {
    exists e :: e in es && e.from == id && e.port == port
  }

  /** A signal edge leads into the module; a main edge leads into it; a main edge leads out of it. */
  datatype Ends = Ends(signalled: bool, fed: bool, drained: bool)

  const LOOSE := Ends(false, false, false)

  function EndsIn(es: seq<Edge>, id: Id): Ends {
    Ends(Into(es, id, W.SIGNAL), Into(es, id, W.MAIN), OutOf(es, id, W.MAIN))
  }

  /** The ends of a module inside an Arcade whose own ends are `outer`: entries and exits take part in those. */
  function EndsOf(bp: Blueprint, outer: Ends, id: Id): Ends {
    var entry, exit := id in EntryModules(bp), id in ExitModules(bp);
    Ends(
      Into(bp.edges, id, W.SIGNAL) || (entry && outer.signalled),
      Into(bp.edges, id, W.MAIN) || (entry && outer.fed),
      OutOf(bp.edges, id, W.MAIN) || (exit && outer.drained))
  }

  // ----- the condition -----

  /** A Regulator that no signal reaches is compiled away. */
  predicate EndsPassive(m: Module, ends: Ends) {
    m.kind == Regulator && !ends.signalled
  }

  predicate Survives(m: Module, ends: Ends) {
    m.kind != Arcade && !EndsPassive(m, ends)
  }

  function SubOf(m: Module, store: Store): Blueprint {
    if m.kind != Arcade || m.ref.None? then Blueprint([], [], []) else
    match store(m.ref.value, m.contextOverride)
    case Parsed(bp) => bp
    case _ => Blueprint([], [], [])
  }

  /** An end of a main edge: whether it is a passive Regulator, and whether main edges go on behind it. */
  datatype Face = Face(passive: bool, through: bool)

  /** Where a main edge into `m` ends up. */
  function Inwards(m: Module, ends: Ends, store: Store, depth: nat): set<Face>
    decreases MAX_DEPTH + 1 - depth
  {
    if m.kind != Arcade then {Face(EndsPassive(m, ends), ends.drained)}
    else if depth > MAX_DEPTH then {}
    else
      var sub, deeper := SubOf(m, store), depth + 1;
      set c, f | c in sub.modules && c.id in EntryModules(sub)
        && f in Inwards(c, EndsOf(sub, ends, c.id), store, deeper) :: f
  }

  /** Where a main edge out of `m` comes from. */
  function Outwards(m: Module, ends: Ends, store: Store, depth: nat): set<Face>
    decreases MAX_DEPTH + 1 - depth
  {
    if m.kind != Arcade then {Face(EndsPassive(m, ends), ends.fed)}
    else if depth > MAX_DEPTH then {}
    else
      var sub, deeper := SubOf(m, store), depth + 1;
      set c, f | c in sub.modules && c.id in ExitModules(sub)
        && f in Outwards(c, EndsOf(sub, ends, c.id), store, deeper) :: f
  }

  /** A main edge does not join two passive Regulators between which a bypass would have to start or end. */
  predicate Joinable(outwards: set<Face>, inwards: set<Face>) {
    forall a, b :: a in outwards && b in inwards && a.passive && b.passive ==> !a.through && !b.through
  }

  predicate DependsWell(bp: Blueprint, outer: Ends, m: Module) {
    Survives(m, EndsOf(bp, outer, m.id)) ==>
      forall d :: d in m.dependsOn ==> exists n :: n in bp.modules && n.id == d && Survives(n, EndsOf(bp, outer, n.id))
  }

  predicate JoinsWell(bp: Blueprint, outer: Ends, store: Store, depth: nat, e: Edge) {
    forall u, v :: u in bp.modules && v in bp.modules && u.id == e.from && v.id == e.to ==>
      Joinable(Outwards(u, EndsOf(bp, outer, u.id), store, depth), Inwards(v, EndsOf(bp, outer, v.id), store, depth))
  }

  /**
   * A Blueprint loaded by an Arcade with these ends is wired well: no main edge joins passive Regulators, no
   * surviving module depends on an Arcade or on a passive Regulator, and all that holds inside its own Arcades
   * again.
   */
  predicate Wired(bp: Blueprint, outer: Ends, store: Store, depth: nat)
    decreases MAX_DEPTH + 1 - depth
  {
    && (forall e :: e in bp.edges && e.port == W.MAIN ==> JoinsWell(bp, outer, store, depth, e))
    && (forall m :: m in bp.modules ==> DependsWell(bp, outer, m))
    && (depth <= MAX_DEPTH ==>
          forall m :: m in bp.modules && m.kind == Arcade ==>
            Wired(SubOf(m, store), EndsOf(bp, outer, m.id), store, depth + 1))
  }

  // ----- one expansion: the edges -----

  predicate Image(hub: Id, sub: Blueprint, x: Id) {
    exists c :: c in IdSet(sub.modules) && x == Namespaced(hub, c)
  }

  /** No edge reaches the new names yet, and the Arcade has no edge to itself. */
  predicate Clear(hub: Id, sub: Blueprint, es: seq<Edge>) {
    forall e :: e in es ==> !Image(hub, sub, e.from) && !Image(hub, sub, e.to) && !(e.from == hub && e.to == hub)
  }

  /** `f` is the edge `k` of the sub-Blueprint under its new names. */
  predicate Renamed(hub: Id, k: Edge, f: Edge) {
    f.from == Namespaced(hub, k.from) && f.to == Namespaced(hub, k.to) && f.port == k.port
  }

  /** `f` is what the edge `e` of the parent becomes at an entry or an exit. */
  predicate Rewired(hub: Id, sub: Blueprint, e: Edge, f: Edge) {
    && f.port == e.port
    && if e.to == hub then f.from == e.from && exists c :: c in EntryModules(sub) && f.to == Namespaced(hub, c)
       else e.from == hub && f.to == e.to && exists c :: c in ExitModules(sub) && f.from == Namespaced(hub, c)
  }

  predicate Apart(hub: Id, e: Edge) {
    e.from != hub && e.to != hub
  }

  /** Every edge after the expansion has one of three origins. */
  lemma EdgeOrigin(hub: Id, sub: Blueprint, es: seq<Edge>, f: Edge)
    requires f in EdgesAfter(hub, sub, es)
    ensures || (f in es && Apart(hub, f))
            || (exists k :: k in sub.edges && Renamed(hub, k, f))
            || (exists e :: e in es && Rewired(hub, sub, e, f))
  {
    hide EntryModules, ExitModules, Rewire;
    var internal := InternalEdges(hub, sub.edges);
    if f in internal {
      var i :| 0 <= i < |internal| && internal[i] == f;
      assert Renamed(hub, sub.edges[i], f);
    } else {
      RewiringKeepsPorts(hub, EntryModules(sub), ExitModules(sub), es, f);
    }
  }

  lemma KeptEdge(hub: Id, sub: Blueprint, es: seq<Edge>, e: Edge)
    requires e in es && Apart(hub, e)
    ensures e in EdgesAfter(hub, sub, es)
  {
  }

  lemma RenamedEdge(hub: Id, sub: Blueprint, es: seq<Edge>, k: Edge) returns (f: Edge)
    requires k in sub.edges
    ensures f in EdgesAfter(hub, sub, es) && Renamed(hub, k, f)
  {
    var i :| 0 <= i < |sub.edges| && sub.edges[i] == k;
    f := InternalEdges(hub, sub.edges)[i];
  }

  lemma EntryEdge(hub: Id, sub: Blueprint, es: seq<Edge>, e: Edge, c: Id) returns (f: Edge)
    requires e in es && e.to == hub && c in EntryModules(sub)
    ensures f in EdgesAfter(hub, sub, es) && f.from == e.from && f.to == Namespaced(hub, c) && f.port == e.port
  {
    f := e.(to := Namespaced(hub, c));
    RewiringKeepsPorts(hub, EntryModules(sub), ExitModules(sub), es, f);
  }

  lemma ExitEdge(hub: Id, sub: Blueprint, es: seq<Edge>, e: Edge, c: Id) returns (f: Edge)
    requires e in es && e.from == hub && e.to != hub && c in ExitModules(sub)
    ensures f in EdgesAfter(hub, sub, es) && f.from == Namespaced(hub, c) && f.to == e.to && f.port == e.port
  {
    f := e.(from := Namespaced(hub, c));
    RewiringKeepsPorts(hub, EntryModules(sub), ExitModules(sub), es, f);
  }

  // ----- one expansion: the ends of each module -----

  /** Where the children of one Arcade take its place. */
  ghost predicate Spliced(hub: Id, sub: Blueprint, es: seq<Edge>) {
    && WellParsed(sub) && EntryModules(sub) != [] && ExitModules(sub) != [] && Clear(hub, sub, es)
  }

  lemma EndsAreImages(hub: Id, sub: Blueprint)
    requires WellParsed(sub)
    ensures forall c :: c in EntryModules(sub) || c in ExitModules(sub) ==>
            c in IdSet(sub.modules) && Image(hub, sub, Namespaced(hub, c))
    ensures forall k :: k in sub.edges ==> k.from in IdSet(sub.modules) && k.to in IdSet(sub.modules)
  {
    forall k | k in sub.edges ensures k.from in IdSet(sub.modules) && k.to in IdSet(sub.modules) {
      assert (k.from, k.to) in AllArcs(sub.modules, sub.edges);
    }
  }

  lemma IntoOutside(hub: Id, sub: Blueprint, es: seq<Edge>, x: Id, port: string)
    requires Spliced(hub, sub, es) && x != hub && !Image(hub, sub, x)
    ensures Into(EdgesAfter(hub, sub, es), x, port) <==> Into(es, x, port)
  {
    hide EntryModules, ExitModules, EdgesAfter, WellParsed;
    var after := EdgesAfter(hub, sub, es);
    EndsAreImages(hub, sub);
    if e :| e in es && e.to == x && e.port == port {
      if e.from == hub {
        var f := ExitEdge(hub, sub, es, e, ExitModules(sub)[0]);
        assert f in after;
      } else {
        KeptEdge(hub, sub, es, e);
      }
    }
    if f :| f in after && f.to == x && f.port == port {
      EdgeOrigin(hub, sub, es, f);
    }
  }

  lemma OutOfOutside(hub: Id, sub: Blueprint, es: seq<Edge>, x: Id, port: string)
    requires Spliced(hub, sub, es) && x != hub && !Image(hub, sub, x)
    ensures OutOf(EdgesAfter(hub, sub, es), x, port) <==> OutOf(es, x, port)
  {
    hide EntryModules, ExitModules, EdgesAfter, WellParsed;
    var after := EdgesAfter(hub, sub, es);
    EndsAreImages(hub, sub);
    if e :| e in es && e.from == x && e.port == port {
      if e.to == hub {
        var f := EntryEdge(hub, sub, es, e, EntryModules(sub)[0]);
        assert f in after;
      } else {
        KeptEdge(hub, sub, es, e);
      }
    }
    if f :| f in after && f.from == x && f.port == port {
      EdgeOrigin(hub, sub, es, f);
    }
  }

  lemma IntoInside(hub: Id, sub: Blueprint, es: seq<Edge>, c: Id, port: string)
    requires Spliced(hub, sub, es) && c in IdSet(sub.modules)
    ensures Into(EdgesAfter(hub, sub, es), Namespaced(hub, c), port) <==>
            Into(sub.edges, c, port) || (c in EntryModules(sub) && Into(es, hub, port))
  {
    hide EntryModules, ExitModules, EdgesAfter, WellParsed, Namespaced;
    var after, x := EdgesAfter(hub, sub, es), Namespaced(hub, c);
    assert Image(hub, sub, x);
    EndsAreImages(hub, sub);
    forall d | Namespaced(hub, d) == x ensures d == c {
      Splice.SameNamespace(hub, d, c);
    }
    if k :| k in sub.edges && k.to == c && k.port == port {
      var f := RenamedEdge(hub, sub, es, k);
      assert f in after;
    }
    if c in EntryModules(sub) {
      if e :| e in es && e.to == hub && e.port == port {
        var f := EntryEdge(hub, sub, es, e, c);
        assert f in after;
      }
    }
    if f :| f in after && f.to == x && f.port == port {
      EdgeOrigin(hub, sub, es, f);
    }
  }

  lemma OutOfInside(hub: Id, sub: Blueprint, es: seq<Edge>, c: Id, port: string)
    requires Spliced(hub, sub, es) && c in IdSet(sub.modules)
    ensures OutOf(EdgesAfter(hub, sub, es), Namespaced(hub, c), port) <==>
            OutOf(sub.edges, c, port) || (c in ExitModules(sub) && OutOf(es, hub, port))
  {
    hide EntryModules, ExitModules, EdgesAfter, WellParsed, Namespaced;
    var after, x := EdgesAfter(hub, sub, es), Namespaced(hub, c);
    assert Image(hub, sub, x);
    EndsAreImages(hub, sub);
    forall d | Namespaced(hub, d) == x ensures d == c {
      Splice.SameNamespace(hub, d, c);
    }
    if k :| k in sub.edges && k.from == c && k.port == port {
      var f := RenamedEdge(hub, sub, es, k);
      assert f in after;
    }
    if c in ExitModules(sub) {
      if e :| e in es && e.from == hub && e.port == port {
        var f := ExitEdge(hub, sub, es, e, c);
        assert f in after;
      }
    }
    if f :| f in after && f.from == x && f.port == port {
      EdgeOrigin(hub, sub, es, f);
    }
  }

  /** Modules outside the Arcade keep their ends, those inside get theirs from the sub-Blueprint and the Arcade. */
  lemma EndsAfter(hub: Id, sub: Blueprint, es: seq<Edge>, x: Id)
    requires Spliced(hub, sub, es)
    ensures x != hub && !Image(hub, sub, x) ==> EndsIn(EdgesAfter(hub, sub, es), x) == EndsIn(es, x)
    ensures x in IdSet(sub.modules) ==>
              EndsIn(EdgesAfter(hub, sub, es), Namespaced(hub, x)) == EndsOf(sub, EndsIn(es, hub), x)
  {
    hide EntryModules, ExitModules, EdgesAfter, WellParsed, Namespaced, Into, OutOf;
    if x != hub && !Image(hub, sub, x) {
      IntoOutside(hub, sub, es, x, W.SIGNAL);
      IntoOutside(hub, sub, es, x, W.MAIN);
      OutOfOutside(hub, sub, es, x, W.MAIN);
    }
    if x in IdSet(sub.modules) {
      IntoInside(hub, sub, es, x, W.SIGNAL);
      IntoInside(hub, sub, es, x, W.MAIN);
      OutOfInside(hub, sub, es, x, W.MAIN);
    }
  }

  // ----- the condition on a level -----

  function OutAt(m: Module, es: seq<Edge>, store: Store): set<Face> {
    Outwards(m, EndsIn(es, m.id), store, Joins(m.id))
  }

  function InAt(m: Module, es: seq<Edge>, store: Store): set<Face> {
    Inwards(m, EndsIn(es, m.id), store, Joins(m.id))
  }

  predicate EdgeJoins(ms: seq<Module>, es: seq<Edge>, store: Store, e: Edge) {
    forall u, v :: u in ms && v in ms && u.id == e.from && v.id == e.to ==>
      Joinable(OutAt(u, es, store), InAt(v, es, store))
  }

  predicate Provided(ms: seq<Module>, es: seq<Edge>, d: Id) {
    exists n :: n in ms && n.id == d && Survives(n, EndsIn(es, n.id))
  }

  predicate DependenciesMet(ms: seq<Module>, es: seq<Edge>, m: Module) {
    Survives(m, EndsIn(es, m.id)) ==> forall d :: d in m.dependsOn ==> Provided(ms, es, d)
  }

  predicate InnerWired(m: Module, es: seq<Edge>, store: Store) {
    m.kind == Arcade && Joins(m.id) <= MAX_DEPTH ==> Wired(SubOf(m, store), EndsIn(es, m.id), store, Joins(m.id) + 1)
  }

  /** The same for the graph between two expansions, where the nesting level of a module can be read off its id. */
  predicate LevelWired(ms: seq<Module>, es: seq<Edge>, store: Store) {
    && (forall e :: e in es && e.port == W.MAIN ==> EdgeJoins(ms, es, store, e))
    && (forall m :: m in ms ==> DependenciesMet(ms, es, m))
    && (forall m :: m in ms ==> InnerWired(m, es, store))
  }

  /** One Arcade `hub` between other modules, and the Blueprint it stands for. */
  datatype Step = Step(pre: seq<Module>, hub: Module, post: seq<Module>, es: seq<Edge>, sub: Blueprint)
  {
    function Before(): seq<Module> {
      pre + [hub] + post
    }

    function Children(): seq<Module> {
      NamespaceModules(hub.id, sub.modules)
    }

    function After(): seq<Module> {
      pre + Children() + post
    }

    function EdgesThen(): seq<Edge> {
      EdgesAfter(hub.id, sub, es)
    }

    predicate Outside(m: Module) {
      m in pre || m in post
    }

    ghost predicate Valid(store: Store) {
      && hub.kind == Arcade && SubOf(hub, store) == sub && Spliced(hub.id, sub, es)
      && Settled(hub.id) && Joins(hub.id) <= MAX_DEPTH
      && (forall m :: Outside(m) ==> m.id != hub.id && !Image(hub.id, sub, m.id))
      && (forall m, d :: Outside(m) && m.kind != Arcade && d in m.dependsOn ==> !Image(hub.id, sub, d))
    }

    ghost function ChildEnds(c: Id): Ends {
      EndsOf(sub, EndsIn(es, hub.id), c)
    }
  }

  // ----- one expansion: modules -----

  lemma SameLoad(m: Module, n: Module, ends: Ends, store: Store, depth: nat)
    requires m.kind == n.kind && m.ref == n.ref && m.contextOverride == n.contextOverride
    ensures Outwards(m, ends, store, depth) == Outwards(n, ends, store, depth)
    ensures Inwards(m, ends, store, depth) == Inwards(n, ends, store, depth)
    ensures SubOf(m, store) == SubOf(n, store) && Survives(m, ends) == Survives(n, ends)
  {
  }

  lemma OutsideStays(s: Step, store: Store, m: Module)
    requires s.Valid(store) && s.Outside(m)
    ensures EndsIn(s.EdgesThen(), m.id) == EndsIn(s.es, m.id)
    ensures OutAt(m, s.EdgesThen(), store) == OutAt(m, s.es, store)
    ensures InAt(m, s.EdgesThen(), store) == InAt(m, s.es, store)
  {
    hide Outwards, Inwards, EdgesAfter, EndsIn, Spliced;
    EndsAfter(s.hub.id, s.sub, s.es, m.id);
  }

  /** The child that stands for the `k`-th module of the sub-Blueprint. */
  lemma ChildIs(s: Step, store: Store, k: nat)
    requires s.Valid(store) && k < |s.sub.modules|
    ensures k < |s.Children()|
    ensures var c, m := s.sub.modules[k], s.Children()[k];
            && m in s.After() && m.id == Namespaced(s.hub.id, c.id) && m.kind == c.kind
            && SubOf(m, store) == SubOf(c, store)
            && Joins(m.id) == Joins(s.hub.id) + 1 && EndsIn(s.EdgesThen(), m.id) == s.ChildEnds(c.id)
            && OutAt(m, s.EdgesThen(), store) == Outwards(c, s.ChildEnds(c.id), store, Joins(s.hub.id) + 1)
            && InAt(m, s.EdgesThen(), store) == Inwards(c, s.ChildEnds(c.id), store, Joins(s.hub.id) + 1)
            && Survives(m, s.ChildEnds(c.id)) == Survives(c, s.ChildEnds(c.id))
  {
    hide Outwards, Inwards, EdgesAfter, EndsIn, EndsOf, Joins, Settled, EntryModules, ExitModules, Clear;
    var c, m := s.sub.modules[k], s.Children()[k];
    assert m in s.After();
    assert c.id in IdSet(s.sub.modules);
    EndsAfter(s.hub.id, s.sub, s.es, c.id);
    JoinAddsOne(s.hub.id, c.id);
    SameLoad(m, c, s.ChildEnds(c.id), store, Joins(s.hub.id) + 1);
  }

  /** A module with a new name is one of the children. */
  lemma ChildAt(s: Step, store: Store, m: Module, c: Id) returns (k: nat)
    requires s.Valid(store) && m in s.After() && c in IdSet(s.sub.modules) && m.id == Namespaced(s.hub.id, c)
    ensures k < |s.sub.modules| && k < |s.Children()| && s.Children()[k] == m && s.sub.modules[k].id == c
  {
    hide EdgesAfter, Spliced;
    assert Image(s.hub.id, s.sub, m.id);
    assert m in s.Children();
    k :| 0 <= k < |s.Children()| && s.Children()[k] == m;
    Splice.SameNamespace(s.hub.id, s.sub.modules[k].id, c);
  }

  lemma OldName(s: Step, store: Store, m: Module)
    requires s.Valid(store) && m in s.After() && !Image(s.hub.id, s.sub, m.id)
    ensures s.Outside(m)
  {
    hide EdgesAfter, Spliced;
    forall k | 0 <= k < |s.Children()| ensures Image(s.hub.id, s.sub, s.Children()[k].id) {
      assert s.sub.modules[k].id in IdSet(s.sub.modules);
    }
  }

  // ----- one expansion: main edges -----

  lemma KeptJoin(s: Step, store: Store, e: Edge)
    requires s.Valid(store) && e in s.es && Apart(s.hub.id, e)
    ensures EdgeJoins(s.Before(), s.es, store, e) <==> EdgeJoins(s.After(), s.EdgesThen(), store, e)
  {
    hide OutAt, InAt, EdgesAfter, Joinable;
    forall m | m in s.After() && (m.id == e.from || m.id == e.to) ensures s.Outside(m) {
      OldName(s, store, m);
    }
    forall m | s.Outside(m)
      ensures OutAt(m, s.EdgesThen(), store) == OutAt(m, s.es, store)
      ensures InAt(m, s.EdgesThen(), store) == InAt(m, s.es, store)
    {
      OutsideStays(s, store, m);
    }
  }

  lemma InnerJoinHolds(s: Step, store: Store, k: Edge, f: Edge)
    requires s.Valid(store) && k in s.sub.edges && Renamed(s.hub.id, k, f)
    requires JoinsWell(s.sub, EndsIn(s.es, s.hub.id), store, Joins(s.hub.id) + 1, k)
    ensures EdgeJoins(s.After(), s.EdgesThen(), store, f)
  {
    hide OutAt, InAt, EdgesAfter, Joinable, Outwards, Inwards, WellParsed, Clear, EntryModules, ExitModules, Namespaced;
    EndsAreImages(s.hub.id, s.sub);
    forall u, v | u in s.After() && v in s.After() && u.id == f.from && v.id == f.to
      ensures Joinable(OutAt(u, s.EdgesThen(), store), InAt(v, s.EdgesThen(), store))
    {
      var i := ChildAt(s, store, u, k.from);
      var j := ChildAt(s, store, v, k.to);
      ChildIs(s, store, i);
      ChildIs(s, store, j);
    }
  }

  lemma InnerJoinHeld(s: Step, store: Store, k: Edge, f: Edge)
    requires s.Valid(store) && k in s.sub.edges && Renamed(s.hub.id, k, f)
    requires EdgeJoins(s.After(), s.EdgesThen(), store, f)
    ensures JoinsWell(s.sub, EndsIn(s.es, s.hub.id), store, Joins(s.hub.id) + 1, k)
  {
    hide OutAt, InAt, EdgesAfter, Joinable, Outwards, Inwards, WellParsed, Clear, EntryModules, ExitModules, Namespaced,
      EndsIn, EndsOf;
    var ms, deeper, outer := s.sub.modules, Joins(s.hub.id) + 1, EndsIn(s.es, s.hub.id);
    forall u, v | u in ms && v in ms && u.id == k.from && v.id == k.to
      ensures Joinable(Outwards(u, EndsOf(s.sub, outer, u.id), store, deeper),
                       Inwards(v, EndsOf(s.sub, outer, v.id), store, deeper))
    {
      var i :| 0 <= i < |ms| && ms[i] == u;
      var j :| 0 <= j < |ms| && ms[j] == v;
      ChildIs(s, store, i);
      ChildIs(s, store, j);
    }
  }

  lemma FewerFaces(a: set<Face>, b: set<Face>, a': set<Face>, b': set<Face>)
    requires Joinable(a, b) && a' <= a && b' <= b
    ensures Joinable(a', b')
  {
  }

  /** The faces of an entry and of an exit are among those of the Arcade. */
  lemma ChildFaces(s: Step, store: Store, k: nat)
    requires s.Valid(store) && k < |s.sub.modules|
    ensures k < |s.Children()|
    ensures s.sub.modules[k].id in EntryModules(s.sub) ==>
              InAt(s.Children()[k], s.EdgesThen(), store) <= InAt(s.hub, s.es, store)
    ensures s.sub.modules[k].id in ExitModules(s.sub) ==>
              OutAt(s.Children()[k], s.EdgesThen(), store) <= OutAt(s.hub, s.es, store)
  {
    hide EdgesAfter, Spliced, EntryModules, ExitModules, Namespaced, EndsIn, EndsOf, Joins, Step.Children;
    ChildIs(s, store, k);
    assert s.sub.modules[k] in s.sub.modules;
  }

  /** A main edge into the Arcade becomes one to each entry, and the faces of the Arcade are those of its entries. */
  lemma EntryJoinHolds(s: Step, store: Store, e: Edge, f: Edge)
    requires s.Valid(store) && e in s.es && e.to == s.hub.id && Rewired(s.hub.id, s.sub, e, f)
    requires EdgeJoins(s.Before(), s.es, store, e)
    ensures EdgeJoins(s.After(), s.EdgesThen(), store, f)
  {
    hide EdgesAfter, InAt, OutAt, Joinable, WellParsed, EntryModules, ExitModules, Namespaced, Joins, Settled;
    EndsAreImages(s.hub.id, s.sub);
    var c :| c in EntryModules(s.sub) && f.to == Namespaced(s.hub.id, c);
    assert s.hub in s.Before();
    forall u, v | u in s.After() && v in s.After() && u.id == f.from && v.id == f.to
      ensures Joinable(OutAt(u, s.EdgesThen(), store), InAt(v, s.EdgesThen(), store))
    {
      OldName(s, store, u);
      OutsideStays(s, store, u);
      assert u in s.Before();
      var j := ChildAt(s, store, v, c);
      ChildFaces(s, store, j);
      FewerFaces(OutAt(u, s.es, store), InAt(s.hub, s.es, store),
                 OutAt(u, s.EdgesThen(), store), InAt(v, s.EdgesThen(), store));
    }
  }

  lemma EntryJoinHeld(s: Step, store: Store, e: Edge)
    requires s.Valid(store) && e in s.es && e.to == s.hub.id && e.port == W.MAIN
    requires forall f :: f in s.EdgesThen() && f.port == W.MAIN ==> EdgeJoins(s.After(), s.EdgesThen(), store, f)
    ensures EdgeJoins(s.Before(), s.es, store, e)
  {
    hide EdgesAfter, Outwards, WellParsed, EntryModules, ExitModules, Namespaced, EndsIn, EndsOf;
    EndsAreImages(s.hub.id, s.sub);
    forall u, v | u in s.Before() && v in s.Before() && u.id == e.from && v.id == e.to
      ensures Joinable(OutAt(u, s.es, store), InAt(v, s.es, store))
    {
      assert v == s.hub && s.Outside(u);
      OutsideStays(s, store, u);
      forall a, b | a in OutAt(u, s.es, store) && b in InAt(s.hub, s.es, store) && a.passive && b.passive
        ensures !a.through && !b.through
      {
        var deeper := Joins(s.hub.id) + 1;
        var c :| c in s.sub.modules && c.id in EntryModules(s.sub)
          && b in Inwards(c, EndsOf(s.sub, EndsIn(s.es, s.hub.id), c.id), store, deeper);
        var j :| 0 <= j < |s.sub.modules| && s.sub.modules[j] == c;
        ChildIs(s, store, j);
        var f := EntryEdge(s.hub.id, s.sub, s.es, e, c.id);
        assert u in s.After();
        assert Joinable(OutAt(u, s.EdgesThen(), store), InAt(s.Children()[j], s.EdgesThen(), store));
      }
    }
  }

  /** The same for a main edge out of the Arcade and its exits. */
  lemma ExitJoinHolds(s: Step, store: Store, e: Edge, f: Edge)
    requires s.Valid(store) && e in s.es && e.from == s.hub.id && Rewired(s.hub.id, s.sub, e, f)
    requires EdgeJoins(s.Before(), s.es, store, e)
    ensures EdgeJoins(s.After(), s.EdgesThen(), store, f)
  {
    hide EdgesAfter, InAt, OutAt, Joinable, WellParsed, EntryModules, ExitModules, Namespaced, Joins, Settled;
    EndsAreImages(s.hub.id, s.sub);
    var c :| c in ExitModules(s.sub) && f.from == Namespaced(s.hub.id, c);
    assert s.hub in s.Before();
    forall u, v | u in s.After() && v in s.After() && u.id == f.from && v.id == f.to
      ensures Joinable(OutAt(u, s.EdgesThen(), store), InAt(v, s.EdgesThen(), store))
    {
      OldName(s, store, v);
      OutsideStays(s, store, v);
      assert v in s.Before();
      var j := ChildAt(s, store, u, c);
      ChildFaces(s, store, j);
      FewerFaces(OutAt(s.hub, s.es, store), InAt(v, s.es, store),
                 OutAt(u, s.EdgesThen(), store), InAt(v, s.EdgesThen(), store));
    }
  }

  lemma ExitJoinHeld(s: Step, store: Store, e: Edge)
    requires s.Valid(store) && e in s.es && e.from == s.hub.id && e.port == W.MAIN
    requires forall f :: f in s.EdgesThen() && f.port == W.MAIN ==> EdgeJoins(s.After(), s.EdgesThen(), store, f)
    ensures EdgeJoins(s.Before(), s.es, store, e)
  {
    hide EdgesAfter, Inwards, WellParsed, EntryModules, ExitModules, Namespaced, EndsIn, EndsOf;
    EndsAreImages(s.hub.id, s.sub);
    forall u, v | u in s.Before() && v in s.Before() && u.id == e.from && v.id == e.to
      ensures Joinable(OutAt(u, s.es, store), InAt(v, s.es, store))
    {
      assert u == s.hub && s.Outside(v);
      OutsideStays(s, store, v);
      forall a, b | a in OutAt(s.hub, s.es, store) && b in InAt(v, s.es, store) && a.passive && b.passive
        ensures !a.through && !b.through
      {
        var deeper := Joins(s.hub.id) + 1;
        var c :| c in s.sub.modules && c.id in ExitModules(s.sub)
          && a in Outwards(c, EndsOf(s.sub, EndsIn(s.es, s.hub.id), c.id), store, deeper);
        var j :| 0 <= j < |s.sub.modules| && s.sub.modules[j] == c;
        ChildIs(s, store, j);
        var f := ExitEdge(s.hub.id, s.sub, s.es, e, c.id);
        assert v in s.After();
        assert Joinable(OutAt(s.Children()[j], s.EdgesThen(), store), InAt(v, s.EdgesThen(), store));
      }
    }
  }

  ghost predicate EdgesJoin(ms: seq<Module>, es: seq<Edge>, store: Store) {
    forall e :: e in es && e.port == W.MAIN ==> EdgeJoins(ms, es, store, e)
  }

  ghost predicate SubEdgesJoin(s: Step, store: Store) {
    forall k :: k in s.sub.edges && k.port == W.MAIN ==>
      JoinsWell(s.sub, EndsIn(s.es, s.hub.id), store, Joins(s.hub.id) + 1, k)
  }

  lemma EdgesKeepJoining(s: Step, store: Store)
    requires s.Valid(store)
    ensures EdgesJoin(s.Before(), s.es, store) && SubEdgesJoin(s, store) <==> EdgesJoin(s.After(), s.EdgesThen(), store)
  {
    hide EdgesAfter, EdgeJoins, JoinsWell, WellParsed, EntryModules, ExitModules, Namespaced, EndsIn;
    if EdgesJoin(s.Before(), s.es, store) && SubEdgesJoin(s, store) {
      forall f | f in s.EdgesThen() && f.port == W.MAIN ensures EdgeJoins(s.After(), s.EdgesThen(), store, f) {
        EdgeOrigin(s.hub.id, s.sub, s.es, f);
        if f in s.es && Apart(s.hub.id, f) {
          KeptJoin(s, store, f);
        } else if k :| k in s.sub.edges && Renamed(s.hub.id, k, f) {
          InnerJoinHolds(s, store, k, f);
        } else {
          var e :| e in s.es && Rewired(s.hub.id, s.sub, e, f);
          if e.to == s.hub.id {
            EntryJoinHolds(s, store, e, f);
          } else {
            ExitJoinHolds(s, store, e, f);
          }
        }
      }
    }
    if EdgesJoin(s.After(), s.EdgesThen(), store) {
      forall e | e in s.es && e.port == W.MAIN ensures EdgeJoins(s.Before(), s.es, store, e) {
        if e.to == s.hub.id {
          EntryJoinHeld(s, store, e);
        } else if e.from == s.hub.id {
          ExitJoinHeld(s, store, e);
        } else {
          KeptEdge(s.hub.id, s.sub, s.es, e);
          KeptJoin(s, store, e);
        }
      }
      forall k | k in s.sub.edges && k.port == W.MAIN
        ensures JoinsWell(s.sub, EndsIn(s.es, s.hub.id), store, Joins(s.hub.id) + 1, k)
      {
        var f := RenamedEdge(s.hub.id, s.sub, s.es, k);
        InnerJoinHeld(s, store, k, f);
      }
    }
  }

  // ----- one expansion: dependencies -----

  lemma ProvidedOutside(s: Step, store: Store, d: Id)
    requires s.Valid(store) && !Image(s.hub.id, s.sub, d)
    ensures Provided(s.Before(), s.es, d) <==> Provided(s.After(), s.EdgesThen(), d)
  {
    hide EdgesAfter, EndsIn, WellParsed, Clear, EntryModules, ExitModules;
    if n :| n in s.Before() && n.id == d && Survives(n, EndsIn(s.es, n.id)) {
      assert s.Outside(n);
      OutsideStays(s, store, n);
      assert n in s.After();
    }
    if n :| n in s.After() && n.id == d && Survives(n, EndsIn(s.EdgesThen(), n.id)) {
      OldName(s, store, n);
      OutsideStays(s, store, n);
      assert n in s.Before();
    }
  }

  lemma ProvidedInside(s: Step, store: Store, d: Id)
    requires s.Valid(store) && d in IdSet(s.sub.modules)
    ensures Provided(s.After(), s.EdgesThen(), Namespaced(s.hub.id, d)) <==>
            exists n :: n in s.sub.modules && n.id == d && Survives(n, s.ChildEnds(n.id))
  {
    hide EdgesAfter, EndsIn, WellParsed, Clear, EntryModules, ExitModules, EndsOf, Namespaced, Joins, Outwards, Inwards;
    var ms := s.sub.modules;
    if n :| n in ms && n.id == d && Survives(n, s.ChildEnds(n.id)) {
      var i :| 0 <= i < |ms| && ms[i] == n;
      ChildIs(s, store, i);
      assert s.Children()[i] in s.After();
    }
    if m :| m in s.After() && m.id == Namespaced(s.hub.id, d) && Survives(m, EndsIn(s.EdgesThen(), m.id)) {
      var i := ChildAt(s, store, m, d);
      ChildIs(s, store, i);
      assert ms[i] in ms;
    }
  }

  lemma ChildDependency(s: Step, store: Store, k: nat)
    requires s.Valid(store) && k < |s.sub.modules| && k < |s.Children()|
    ensures forall d :: d in s.sub.modules[k].dependsOn ==> d in IdSet(s.sub.modules)
    ensures forall x :: x in s.Children()[k].dependsOn <==>
            exists d :: d in s.sub.modules[k].dependsOn && x == Namespaced(s.hub.id, d)
  {
    hide EdgesAfter, EndsIn, Clear, EntryModules, ExitModules, Namespaced;
    var c, m := s.sub.modules[k], s.Children()[k];
    forall d | d in c.dependsOn ensures d in IdSet(s.sub.modules) {
      assert (d, c.id) in AllArcs(s.sub.modules, s.sub.edges);
    }
    forall d | d in c.dependsOn ensures Namespaced(s.hub.id, d) in m.dependsOn {
      var i :| 0 <= i < |c.dependsOn| && c.dependsOn[i] == d;
      assert m.dependsOn[i] == Namespaced(s.hub.id, d);
    }
  }

  lemma ChildDependenciesMet(s: Step, store: Store, k: nat)
    requires s.Valid(store) && k < |s.sub.modules| && k < |s.Children()|
    ensures DependenciesMet(s.After(), s.EdgesThen(), s.Children()[k]) <==>
            DependsWell(s.sub, EndsIn(s.es, s.hub.id), s.sub.modules[k])
  {
    hide EdgesAfter, EndsIn, Spliced, Provided, Namespaced, EndsOf, NamespaceModules, Outwards, Inwards, Joins;
    ChildIs(s, store, k);
    ChildDependency(s, store, k);
    forall d | d in s.sub.modules[k].dependsOn
      ensures Provided(s.After(), s.EdgesThen(), Namespaced(s.hub.id, d)) <==>
              exists n :: n in s.sub.modules && n.id == d && Survives(n, s.ChildEnds(n.id))
    {
      ProvidedInside(s, store, d);
    }
  }

  lemma OutsideDependenciesMet(s: Step, store: Store, m: Module)
    requires s.Valid(store) && s.Outside(m)
    ensures DependenciesMet(s.Before(), s.es, m) <==> DependenciesMet(s.After(), s.EdgesThen(), m)
  {
    hide EdgesAfter, EndsIn, Spliced, Provided, NamespaceModules, Image;
    OutsideStays(s, store, m);
    if m.kind != Arcade {
      forall d | d in m.dependsOn ensures Provided(s.Before(), s.es, d) <==> Provided(s.After(), s.EdgesThen(), d) {
        ProvidedOutside(s, store, d);
      }
    }
  }

  ghost predicate AllMet(ms: seq<Module>, es: seq<Edge>) {
    forall m :: m in ms ==> DependenciesMet(ms, es, m)
  }

  ghost predicate SubAllMet(s: Step) {
    forall m :: m in s.sub.modules ==> DependsWell(s.sub, EndsIn(s.es, s.hub.id), m)
  }

  /** The modules after the expansion are those outside and the children. */
  lemma Members(s: Step, m: Module)
    ensures m in s.Before() <==> s.Outside(m) || m == s.hub
    ensures m in s.After() <==> s.Outside(m) || m in s.Children()
    ensures |s.Children()| == |s.sub.modules|
  {
  }

  lemma DependenciesStayMet(s: Step, store: Store)
    requires s.Valid(store)
    ensures AllMet(s.Before(), s.es) && SubAllMet(s) <==> AllMet(s.After(), s.EdgesThen())
  {
    hide EdgesAfter, EndsIn, Spliced, NamespaceModules, DependsWell, DependenciesMet;
    var ms := s.sub.modules;
    Members(s, s.hub);
    HubNeedsNothing(s, store);
    if AllMet(s.Before(), s.es) && SubAllMet(s) {
      forall m | m in s.After() ensures DependenciesMet(s.After(), s.EdgesThen(), m) {
        Members(s, m);
        if s.Outside(m) {
          OutsideDependenciesMet(s, store, m);
        } else {
          var k :| 0 <= k < |s.Children()| && s.Children()[k] == m;
          ChildDependenciesMet(s, store, k);
        }
      }
    }
    if AllMet(s.After(), s.EdgesThen()) {
      forall m | m in s.Before() ensures DependenciesMet(s.Before(), s.es, m) {
        Members(s, m);
        if s.Outside(m) {
          OutsideDependenciesMet(s, store, m);
        }
      }
      forall c | c in ms ensures DependsWell(s.sub, EndsIn(s.es, s.hub.id), c) {
        var k :| 0 <= k < |ms| && ms[k] == c;
        assert s.Children()[k] in s.After();
        ChildDependenciesMet(s, store, k);
      }
    }
  }

  lemma HubNeedsNothing(s: Step, store: Store)
    requires s.Valid(store)
    ensures DependenciesMet(s.Before(), s.es, s.hub)
  {
  }

  // ----- one expansion: what is still folded up -----

  ghost predicate AllInner(ms: seq<Module>, es: seq<Edge>, store: Store) {
    forall m :: m in ms ==> InnerWired(m, es, store)
  }

  ghost predicate SubInner(s: Step, store: Store) {
    Joins(s.hub.id) + 1 <= MAX_DEPTH ==>
      forall m :: m in s.sub.modules && m.kind == Arcade ==>
        Wired(SubOf(m, store), EndsOf(s.sub, EndsIn(s.es, s.hub.id), m.id), store, Joins(s.hub.id) + 1 + 1)
  }

  lemma HubUnfolds(s: Step, store: Store)
    requires s.Valid(store)
    ensures InnerWired(s.hub, s.es, store) <==> SubEdgesJoin(s, store) && SubAllMet(s) && SubInner(s, store)
  {
    hide EdgesAfter, EndsIn, Spliced, DependsWell, JoinsWell, EndsOf, Settled, Joins;
  }

  lemma InnerOutside(s: Step, store: Store, m: Module)
    requires s.Valid(store) && s.Outside(m)
    ensures InnerWired(m, s.es, store) <==> InnerWired(m, s.EdgesThen(), store)
  {
    hide EdgesAfter, EndsIn, Spliced, Wired;
    OutsideStays(s, store, m);
  }

  lemma InnerChild(s: Step, store: Store, k: nat)
    requires s.Valid(store) && k < |s.sub.modules| && k < |s.Children()|
    ensures var c := s.sub.modules[k];
            InnerWired(s.Children()[k], s.EdgesThen(), store) <==>
            (Joins(s.hub.id) + 1 <= MAX_DEPTH && c.kind == Arcade ==>
               Wired(SubOf(c, store), EndsOf(s.sub, EndsIn(s.es, s.hub.id), c.id), store, Joins(s.hub.id) + 1 + 1))
  {
    hide EdgesAfter, EndsIn, Spliced, Wired, EndsOf, NamespaceModules, Joins, Outwards, Inwards;
    ChildIs(s, store, k);
  }

  lemma InnerChildren(s: Step, store: Store)
    requires s.Valid(store)
    ensures SubInner(s, store) <==> forall m :: m in s.Children() ==> InnerWired(m, s.EdgesThen(), store)
  {
    hide EdgesAfter, EndsIn, Spliced, NamespaceModules, InnerWired, Wired, EndsOf, Joins;
    var ms := s.sub.modules;
    Members(s, s.hub);
    if SubInner(s, store) {
      forall m | m in s.Children() ensures InnerWired(m, s.EdgesThen(), store) {
        var k :| 0 <= k < |s.Children()| && s.Children()[k] == m;
        InnerChild(s, store, k);
      }
    }
    if forall m :: m in s.Children() ==> InnerWired(m, s.EdgesThen(), store) {
      forall c | c in ms && c.kind == Arcade && Joins(s.hub.id) + 1 <= MAX_DEPTH
        ensures Wired(SubOf(c, store), EndsOf(s.sub, EndsIn(s.es, s.hub.id), c.id), store, Joins(s.hub.id) + 1 + 1)
      {
        var k :| 0 <= k < |ms| && ms[k] == c;
        InnerChild(s, store, k);
        assert s.Children()[k] in s.Children();
      }
    }
  }

  lemma InnerStays(s: Step, store: Store)
    requires s.Valid(store)
    ensures AllInner(s.Before(), s.es, store) <==>
            AllInner(s.After(), s.EdgesThen(), store) && SubEdgesJoin(s, store) && SubAllMet(s)
  {
    hide EdgesAfter, EndsIn, Spliced, NamespaceModules, InnerWired, Wired, SubEdgesJoin, SubAllMet, SubInner, EndsOf,
      Joins;
    hide Step.Before, Step.After, Step.Children;
    HubUnfolds(s, store);
    InnerChildren(s, store);
    forall m | s.Outside(m) ensures InnerWired(m, s.es, store) <==> InnerWired(m, s.EdgesThen(), store) {
      InnerOutside(s, store, m);
    }
    forall m ensures m in s.Before() <==> s.Outside(m) || m == s.hub
             ensures m in s.After() <==> s.Outside(m) || m in s.Children()
    {
      Members(s, m);
    }
  }

  /** One expansion neither repairs nor breaks the wiring. */
  lemma StepKeepsWiring(s: Step, store: Store)
    requires s.Valid(store)
    ensures LevelWired(s.Before(), s.es, store) <==> LevelWired(s.After(), s.EdgesThen(), store)
  {
    hide EdgesAfter, EndsIn, Spliced, NamespaceModules, InnerWired, DependenciesMet, EdgeJoins, SubEdgesJoin, SubAllMet;
    EdgesKeepJoining(s, store);
    DependenciesStayMet(s, store);
    InnerStays(s, store);
  }

  // ----- instances -----

  function Plain(id: Id, kind: ModuleType, dependsOn: seq<Id>): Module {
    Module(id, kind, dependsOn, None, None, None, map[])
  }

  function Loading(id: Id, ref: string): Module {
    Module(id, Arcade, [], None, None, Some(ref), map[])
  }

  function OnArcade(): Blueprint {
    Blueprint([Loading("a", "s"), Plain("m", Channel, ["a"])], [], [])
  }

  function OnPassive(): Blueprint {
    Blueprint([Plain("r", Regulator, []), Plain("m", Channel, ["r"])], [], [])
  }

  function PassiveOnArcade(): Blueprint {
    Blueprint([Loading("a", "s"), Plain("r", Regulator, ["a"])], [], [])
  }

  function ChainOfTwo(): Blueprint {
    Blueprint([Plain("u", Ingress, []), Plain("r1", Regulator, []), Plain("r2", Regulator, []), Plain("v", Egress, [])],
              W.ChainExample(), [])
  }

  function OneIngress(): Blueprint {
    Blueprint([Plain("x", Ingress, [])], [], [])
  }

  /** A dependency on an Arcade is never met, whatever the Arcade holds. */
  lemma DependencyOnArcade(store: Store)
    ensures !Wired(OnArcade(), LOOSE, store, 0)
  {
    var bp := OnArcade();
    assert bp.modules[1] in bp.modules && "a" in bp.modules[1].dependsOn;
    assert !DependsWell(bp, LOOSE, bp.modules[1]);
  }

  /** Nor is one on a Regulator that no signal reaches. */
  lemma DependencyOnPassiveRegulator(store: Store)
    ensures !Wired(OnPassive(), LOOSE, store, 0)
  {
    var bp := OnPassive();
    assert bp.modules[1] in bp.modules && "r" in bp.modules[1].dependsOn;
    assert !DependsWell(bp, LOOSE, bp.modules[1]);
  }

  /** A dependency of a Regulator that is compiled away does no harm, even on an Arcade. */
  lemma RemovedWithItsDependency(store: Store)
    requires forall ref, given :: store(ref, given) == Parsed(OneIngress())
    ensures Wired(PassiveOnArcade(), LOOSE, store, 0)
  {
    var bp := PassiveOnArcade();
    assert SubOf(bp.modules[0], store) == OneIngress();
    assert Wired(OneIngress(), EndsOf(bp, LOOSE, "a"), store, 1);
  }

  /** Two passive Regulators in a row are not wired well. */
  lemma ChainIsNotWired(store: Store)
    ensures !Wired(ChainOfTwo(), LOOSE, store, 0)
  {
    var bp, es := ChainOfTwo(), W.ChainExample();
    hide EntryModules, ExitModules;
    assert es[0] in es && es[1] in es && bp.modules[1] in bp.modules && bp.modules[2] in bp.modules;
    assert !Into(es, "r1", W.SIGNAL) && Into(es, "r1", W.MAIN) && !Into(es, "r2", W.SIGNAL);
    assert EndsOf(bp, LOOSE, "r1").fed && !EndsOf(bp, LOOSE, "r1").signalled && !EndsOf(bp, LOOSE, "r2").signalled;
    assert Face(true, true) in Outwards(bp.modules[1], EndsOf(bp, LOOSE, "r1"), store, 0);
    assert !JoinsWell(bp, LOOSE, store, 0, es[1]);
  }
}
