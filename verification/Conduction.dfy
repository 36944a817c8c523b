/**
 * Which main paths survive expansion (aqueduct/compiler/expander.py:32-167). An Arcade passes a main path on exactly
 * when main edges lead from one of its entries to one of its exits, through whatever Arcades lie between.
 */
module Conduction {
  import opened Common
  import opened Digraph
  import opened Ast
  import opened Naming
  import opened Splice
  import opened Expander
  import opened Expansion
  import opened Wiring
  import opened Closure
  import W = Wirer

  // ----- the condition on the inputs -----

  /** The main edges between modules that are not blocked. */
  function OpenArcs(es: seq<Edge>, blocked: set<Id>): Arcs {
    set a | a in W.MainArcs(es) && a.0 !in blocked && a.1 !in blocked
  }

  /** The Arcades that pass no main path on. */
  ghost function Blocked(ms: seq<Module>, store: Store, depth: nat): set<Id>
    decreases MAX_DEPTH + 1 - depth, 1
  {
    set m | m in ms && !Conducts(m, store, depth) :: m.id
  }

  ghost predicate Conducts(m: Module, store: Store, depth: nat)
    decreases MAX_DEPTH + 1 - depth, 0
  {
    m.kind != Arcade ||
    (depth <= MAX_DEPTH &&
     var sub := SubOf(m, store);
     Crosses(sub, Blocked(sub.modules, store, depth + 1)))
  }

  /** Main edges lead from an entry to an exit past the blocked Arcades. */
  ghost predicate Crosses(sub: Blueprint, blocked: set<Id>) {
    exists c, d ::
      && c in EntryModules(sub) && c !in blocked && d in ExitModules(sub) && d !in blocked
      && Reach(OpenArcs(sub.edges, blocked), c, d)
  }

  // ----- one expansion -----

  /** The same between two expansions, where the nesting level of a module can be read off its id. */
  ghost function BlockedAt(ms: seq<Module>, store: Store): set<Id> {
    set m | m in ms && !Conducts(m, store, Joins(m.id)) :: m.id
  }

  ghost function MainSite(s: Step, store: Store): Site {
    var blocked := Blocked(s.sub.modules, store, Joins(s.hub.id) + 1);
    Site(s.hub.id, OpenArcs(s.sub.edges, blocked), IdSet(s.sub.modules),
         Elems(EntryModules(s.sub)) - blocked, Elems(ExitModules(s.sub)) - blocked)
  }

  lemma HubConducts(s: Step, store: Store)
    requires s.Valid(store)
    ensures Conducts(s.hub, store, Joins(s.hub.id)) <==> MainSite(s, store).Crossable()
  {
    hide Spliced, EntryModules, ExitModules, OpenArcs, Reach, Blocked;
    var site := MainSite(s, store);
    var blocked := Blocked(s.sub.modules, store, Joins(s.hub.id) + 1);
    if e, x :| e in site.entries && x in site.exits && Reach(site.inner, e, x) {
      assert e in EntryModules(s.sub) && x in ExitModules(s.sub);
    }
    if Crosses(s.sub, blocked) {
      var c, d :| c in EntryModules(s.sub) && c !in blocked && d in ExitModules(s.sub) && d !in blocked
                  && Reach(OpenArcs(s.sub.edges, blocked), c, d);
      assert c in site.entries && d in site.exits;
    }
  }

  lemma SameConduction(m: Module, n: Module, store: Store, depth: nat)
    requires m.kind == n.kind && m.ref == n.ref && m.contextOverride == n.contextOverride
    ensures Conducts(m, store, depth) == Conducts(n, store, depth)
  {
  }

  lemma BlockedOutside(s: Step, store: Store, x: Id)
    requires s.Valid(store) && !Image(s.hub.id, s.sub, x)
    ensures x in BlockedAt(s.After(), store) <==> x in BlockedAt(s.Before(), store) - {s.hub.id}
  {
    hide Spliced, Conducts, Step.EdgesThen;
    if m :| m in s.After() && m.id == x && !Conducts(m, store, Joins(m.id)) {
      OldName(s, store, m);
      assert m in s.Before();
    }
    if m :| m in s.Before() && m.id == x && m.id != s.hub.id && !Conducts(m, store, Joins(m.id)) {
      assert s.Outside(m) && m in s.After();
    }
  }

  lemma ChildConducts(s: Step, store: Store, k: nat)
    requires s.Valid(store) && k < |s.sub.modules|
    ensures k < |s.Children()| && s.Children()[k] in s.After()
    ensures s.Children()[k].id == Namespaced(s.hub.id, s.sub.modules[k].id)
    ensures Conducts(s.Children()[k], store, Joins(s.Children()[k].id))
            == Conducts(s.sub.modules[k], store, Joins(s.hub.id) + 1)
  {
    hide EdgesAfter, Clear, Conducts, EntryModules, ExitModules, Namespaced, Joins, Step.EdgesThen, Settled;
    assert s.Children()[k] in s.After();
    assert s.sub.modules[k] in s.sub.modules;
    JoinAddsOne(s.hub.id, s.sub.modules[k].id);
    SameConduction(s.Children()[k], s.sub.modules[k], store, Joins(s.hub.id) + 1);
  }

  lemma BlockedInside(s: Step, store: Store, c: Id)
    requires s.Valid(store) && c in IdSet(s.sub.modules)
    ensures Namespaced(s.hub.id, c) in BlockedAt(s.After(), store) <==>
            c in Blocked(s.sub.modules, store, Joins(s.hub.id) + 1)
  {
    hide Spliced, Conducts, Namespaced, Joins, Step.EdgesThen, Step.After, Step.Children, Settled, NamespaceModules;
    var x, deeper := Namespaced(s.hub.id, c), Joins(s.hub.id) + 1;
    if m :| m in s.After() && m.id == x && !Conducts(m, store, Joins(m.id)) {
      var k := ChildAt(s, store, m, c);
      ChildConducts(s, store, k);
      assert s.sub.modules[k] in s.sub.modules;
    }
    if n :| n in s.sub.modules && n.id == c && !Conducts(n, store, deeper) {
      var k :| 0 <= k < |s.sub.modules| && s.sub.modules[k] == n;
      ChildConducts(s, store, k);
    }
  }

  lemma MainEdge(es: seq<Edge>, x: Id, y: Id) returns (e: Edge)
    requires (x, y) in W.MainArcs(es)
    ensures e in es && e.from == x && e.to == y && e.port == W.MAIN
  {
    e :| e in es && e.port == W.MAIN && (e.from, e.to) == (x, y);
  }

  /** The open arcs before the expansion, the Arcade itself counted as open. */
  ghost function ArcsBefore(s: Step, store: Store): Arcs {
    OpenArcs(s.es, BlockedAt(s.Before(), store) - {s.hub.id})
  }

  ghost function ArcsAfter(s: Step, store: Store): Arcs {
    OpenArcs(s.EdgesThen(), BlockedAt(s.After(), store))
  }

  lemma ArcWasThere(s: Step, store: Store, x: Id, y: Id)
    requires s.Valid(store) && (x, y) in ArcsAfter(s, store)
    ensures SplicedArc(ArcsBefore(s, store), MainSite(s, store), x, y)
  {
    hide EntryModules, ExitModules, EdgesAfter, WellParsed, Namespaced, BlockedAt, Blocked, Joins, Settled, Step.Before,
      Step.After;
    var hub, sub := s.hub.id, s.sub;
    var f := MainEdge(s.EdgesThen(), x, y);
    EdgeOrigin(hub, sub, s.es, f);
    EndsAreImages(hub, sub);
    if f in s.es && Apart(hub, f) {
      BlockedOutside(s, store, x);
      BlockedOutside(s, store, y);
      assert (x, y) in W.MainArcs(s.es);
    } else if k :| k in sub.edges && Renamed(hub, k, f) {
      BlockedInside(s, store, k.from);
      BlockedInside(s, store, k.to);
      assert (k.from, k.to) in W.MainArcs(sub.edges);
      assert (k.from, k.to) in MainSite(s, store).inner;
    } else {
      var e :| e in s.es && Rewired(hub, sub, e, f);
      assert (e.from, e.to) in W.MainArcs(s.es);
      if e.to == hub {
        var c :| c in EntryModules(sub) && y == Namespaced(hub, c);
        BlockedOutside(s, store, x);
        BlockedInside(s, store, c);
        assert c in MainSite(s, store).entries;
      } else {
        var c :| c in ExitModules(sub) && x == Namespaced(hub, c);
        BlockedOutside(s, store, y);
        BlockedInside(s, store, c);
        assert c in MainSite(s, store).exits;
      }
    }
  }

  lemma ArcIsThere(s: Step, store: Store, x: Id, y: Id)
    requires s.Valid(store) && SplicedArc(ArcsBefore(s, store), MainSite(s, store), x, y)
    ensures (x, y) in ArcsAfter(s, store)
  {
    hide EntryModules, ExitModules, EdgesAfter, WellParsed, Namespaced, BlockedAt, Blocked, Joins, Settled, Step.Before,
      Step.After;
    var hub, sub, site, before := s.hub.id, s.sub, MainSite(s, store), ArcsBefore(s, store);
    EndsAreImages(hub, sub);
    if (x, y) in before && x != hub && y != hub {
      var e := MainEdge(s.es, x, y);
      KeptEdge(hub, sub, s.es, e);
      BlockedOutside(s, store, x);
      BlockedOutside(s, store, y);
      assert (e.from, e.to) in W.MainArcs(s.EdgesThen());
    } else if c, d :| (c, d) in site.inner && x == Namespaced(hub, c) && y == Namespaced(hub, d) {
      var k := MainEdge(sub.edges, c, d);
      var f := RenamedEdge(hub, sub, s.es, k);
      BlockedInside(s, store, c);
      BlockedInside(s, store, d);
      assert (f.from, f.to) in W.MainArcs(s.EdgesThen());
    } else if c :| (x, hub) in before && c in site.entries && y == Namespaced(hub, c) {
      var e := MainEdge(s.es, x, hub);
      var f := EntryEdge(hub, sub, s.es, e, c);
      BlockedOutside(s, store, x);
      BlockedInside(s, store, c);
      assert (f.from, f.to) in W.MainArcs(s.EdgesThen());
    } else {
      var c :| (hub, y) in before && c in site.exits && x == Namespaced(hub, c);
      var e := MainEdge(s.es, hub, y);
      var f := ExitEdge(hub, sub, s.es, e, c);
      BlockedOutside(s, store, y);
      BlockedInside(s, store, c);
      assert (f.from, f.to) in W.MainArcs(s.EdgesThen());
    }
  }

  lemma SiteFits(s: Step, store: Store)
    requires s.Valid(store)
    ensures var site, before := MainSite(s, store), ArcsBefore(s, store);
            site.Valid() && Fresh(before, site) && (s.hub.id, s.hub.id) !in before && !site.IsImage(s.hub.id)
    ensures forall x :: MainSite(s, store).IsImage(x) <==> Image(s.hub.id, s.sub, x)
  {
    hide EntryModules, ExitModules, WellParsed, BlockedAt, Blocked, Joins, Settled, Step.Before, Step.After;
    var site, before := MainSite(s, store), ArcsBefore(s, store);
    EndsAreImages(s.hub.id, s.sub);
    forall x ensures site.IsImage(x) <==> Image(s.hub.id, s.sub, x) {
    }
    forall c, d | (c, d) in site.inner ensures c in site.nodes && d in site.nodes {
      var k := MainEdge(s.sub.edges, c, d);
    }
    forall x, y | (x, y) in before
      ensures !Image(s.hub.id, s.sub, x) && !Image(s.hub.id, s.sub, y) && !(x == s.hub.id && y == s.hub.id)
    {
      var e := MainEdge(s.es, x, y);
    }
    forall c ensures s.hub.id != Namespaced(s.hub.id, c) {
      assert |Namespaced(s.hub.id, c)| > |s.hub.id|;
    }
  }

  /** One expansion neither opens nor cuts a main path between the other modules. */
  lemma StepKeepsConduction(s: Step, store: Store, u: Id, v: Id)
    requires s.Valid(store)
    requires u != s.hub.id && v != s.hub.id && !Image(s.hub.id, s.sub, u) && !Image(s.hub.id, s.sub, v)
    ensures Reach(OpenArcs(s.EdgesThen(), BlockedAt(s.After(), store)), u, v) <==>
            Reach(OpenArcs(s.es, BlockedAt(s.Before(), store)), u, v)
  {
    hide EntryModules, ExitModules, WellParsed, Blocked, Joins, Settled, Conducts, Site.Crossable, Reach, Clear, Fresh,
      SplicedArc, Image;
    var site, before, after := MainSite(s, store), ArcsBefore(s, store), ArcsAfter(s, store);
    SiteFits(s, store);
    forall x, y ensures (x, y) in after <==> SplicedArc(before, site, x, y) {
      if (x, y) in after {
        ArcWasThere(s, store, x, y);
      }
      if SplicedArc(before, site, x, y) {
        ArcIsThere(s, store, x, y);
      }
    }
    HubConducts(s, store);
    HubBlocked(s, store);
    if site.Crossable() {
      SpliceReach(before, site, after, u, v);
    } else {
      BlockedSplice(before, site, after, u, v);
    }
  }

  lemma HubBlocked(s: Step, store: Store)
    requires s.Valid(store)
    ensures OpenArcs(s.es, BlockedAt(s.Before(), store)) ==
            if Conducts(s.hub, store, Joins(s.hub.id)) then ArcsBefore(s, store)
            else Off(ArcsBefore(s, store), s.hub.id)
  {
    hide Spliced, Conducts, Joins, Settled;
    assert s.hub in s.Before();
    forall m | m in s.Before() && m.id == s.hub.id ensures m == s.hub {
    }
  }

  // ----- one level -----

  lemma PlainIsOutside(modules: seq<Module>, i: nat, result: seq<Module>, edges: seq<Edge>, edges0: seq<Edge>,
                       depth: nat, sub: Blueprint, u: Id)
    requires LevelOk(modules, edges0, depth) && i < |modules| && modules[i].kind == Arcade && WellParsed(sub)
    requires Midway(modules, i, result, edges, edges0, depth) && u in PlainIds(modules)
    requires Distinct(Ids(result + NamespaceModules(modules[i].id, sub.modules)))
    ensures u != modules[i].id && !Image(modules[i].id, sub, u)
  {
    hide AllArcs, Midway, EntryModules, ExitModules, Joins, Settled;
    ImagesAreFresh(modules, i, result, edges, edges0, depth, sub);
    var m :| m in modules && m.kind != Arcade && m.id == u;
    PlainIsNotArcade(modules, m);
    assert modules[i].id in ArcadeIds(modules);
    assert SiteOf(modules[i].id, sub).IsImage(u) <==> Image(modules[i].id, sub, u);
  }

  ghost predicate SameMainReach(ms: seq<Module>, es: seq<Edge>, ms': seq<Module>, es': seq<Edge>, store: Store,
                                ids: set<Id>)
  {
    forall u, v :: u in ids && v in ids ==>
      (Reach(OpenArcs(es', BlockedAt(ms', store)), u, v) <==> Reach(OpenArcs(es, BlockedAt(ms, store)), u, v))
  }

  lemma ArcadeKeepsConduction(modules: seq<Module>, i: nat, edges0: seq<Edge>, store: Store, depth: nat)
    requires ParserContract(store) && LevelOk(modules, edges0, depth) && depth <= MAX_DEPTH && i < |modules|
    requires FirstFailure(modules, store).None? && Distinct(Ids(FlattenLevel(modules, store)))
    requires modules[i].kind == Arcade
    ensures SameMainReach(FlattenLevel(modules[..i], store) + modules[i..], LevelEdges(modules[..i], edges0, store),
                          FlattenLevel(modules[..i + 1], store) + modules[i + 1..],
                          LevelEdges(modules[..i + 1], edges0, store),
                          store, PlainIds(modules))
  {
    hide OpenArcs, BlockedAt, Reach, LevelOk, Midway, Origins, FlattenLevel, LevelEdges, FirstFailure, Distinct,
      ParserContract, NamespaceModules, EdgesAfter, EntryModules, ExitModules, MissingKeys, Step.Valid, PlainIds, Image;
    var hub, sub := modules[i], SubOf(modules[i], store);
    var result, edges := FlattenLevel(modules[..i], store), LevelEdges(modules[..i], edges0, store);
    NoFailures(modules, store);
    PrefixFails(modules, store, i);
    LevelStep(modules, i, edges0, store);
    PartOfLevel(modules, i, edges0, store, depth);
    PartOfLevel(modules, i + 1, edges0, store, depth);
    StepIsValid(modules, i, result, edges, edges0, depth, store);
    SubIsParsed(store, hub);
    var s := Step(result, hub, modules[i + 1..], edges, sub);
    forall u, v | u in PlainIds(modules) && v in PlainIds(modules)
      ensures Reach(OpenArcs(s.EdgesThen(), BlockedAt(s.After(), store)), u, v) <==>
              Reach(OpenArcs(s.es, BlockedAt(s.Before(), store)), u, v)
    {
      PlainIsOutside(modules, i, result, edges, edges0, depth, sub, u);
      PlainIsOutside(modules, i, result, edges, edges0, depth, sub, v);
      StepKeepsConduction(s, store, u, v);
    }
    assert s.Before() == result + modules[i..];
    assert s.After() == FlattenLevel(modules[..i + 1], store) + modules[i + 1..];
  }

  lemma SubIsParsed(store: Store, m: Module)
    requires ParserContract(store) && m.kind == Arcade && Failure(m, store).None?
    ensures WellParsed(SubOf(m, store))
  {
    assert WellParsed(store(m.ref.value, m.contextOverride).bp);
  }

  lemma LevelBegins(modules: seq<Module>, edges0: seq<Edge>, store: Store)
    ensures var ms, es := FlattenLevel(modules[..0], store) + modules[0..], LevelEdges(modules[..0], edges0, store);
            SameMainReach(modules, edges0, ms, es, store, PlainIds(modules))
  {
    hide Reach, OpenArcs, BlockedAt;
    assert FlattenLevel(modules[..0], store) + modules[0..] == modules;
  }

  lemma {:induction false} LevelKeepsConduction(modules: seq<Module>, i: nat, edges0: seq<Edge>, store: Store,
                                                depth: nat)
    requires ParserContract(store) && LevelOk(modules, edges0, depth) && depth <= MAX_DEPTH && i <= |modules|
    requires FirstFailure(modules, store).None? && Distinct(Ids(FlattenLevel(modules, store)))
    ensures SameMainReach(modules, edges0,
                          FlattenLevel(modules[..i], store) + modules[i..], LevelEdges(modules[..i], edges0, store),
                          store, PlainIds(modules))
  {
    hide SameMainReach, LevelOk, PlainIds, FlattenLevel, LevelEdges, FirstFailure, ParserContract, Distinct, Ids;
    if i == 0 {
      LevelBegins(modules, edges0, store);
    } else {
      LevelKeepsConduction(modules, i - 1, edges0, store, depth);
      var ms := FlattenLevel(modules[..i - 1], store) + modules[i - 1..];
      var es := LevelEdges(modules[..i - 1], edges0, store);
      var ms', es' := FlattenLevel(modules[..i], store) + modules[i..], LevelEdges(modules[..i], edges0, store);
      if modules[i - 1].kind == Arcade {
        ArcadeKeepsConduction(modules, i - 1, edges0, store, depth);
        SameTrans(modules, edges0, ms, es, ms', es', store, PlainIds(modules));
      } else {
        PlainKeepsLevel(modules, i - 1, edges0, store);
      }
    }
  }

  lemma SameTrans(ms: seq<Module>, es: seq<Edge>, ms1: seq<Module>, es1: seq<Edge>, ms2: seq<Module>, es2: seq<Edge>,
                  store: Store, ids: set<Id>)
    requires SameMainReach(ms, es, ms1, es1, store, ids) && SameMainReach(ms1, es1, ms2, es2, store, ids)
    ensures SameMainReach(ms, es, ms2, es2, store, ids)
  {
  }

  // ----- all levels -----

  lemma {:induction false} ExpansionKeepsConduction(modules: seq<Module>, edges: seq<Edge>, store: Store, depth: nat)
    requires ParserContract(store) && LevelOk(modules, edges, depth)
    ensures match ExpandFrom(modules, edges, store, depth)
            case Ok((ms, es)) => SameMainReach(modules, edges, ms, es, store, PlainIds(modules))
            case Err(_) => true
    decreases MAX_DEPTH + 1 - depth
  {
    hide OpenArcs, BlockedAt, Reach, LevelOk, Midway, FlattenLevel, LevelEdges, FirstFailure, PlainIds, Surviving;
    if depth <= MAX_DEPTH && ArcadeIds(modules) != {} && FirstFailure(modules, store).None? {
      var next, edges' := FlattenLevel(modules, store), LevelEdges(modules, edges, store);
      if Distinct(Ids(next)) {
        assert modules[..|modules|] == modules && next + modules[|modules|..] == next;
        LevelKeepsConduction(modules, |modules|, edges, store, depth);
        LevelInvariant(modules, |modules|, edges, store, depth);
        NextLevel(modules, store, next, edges', edges, depth);
        ExpansionKeepsConduction(next, edges', store, depth + 1);
        LevelIsDistinct(modules, edges, depth);
        PlainIdsPersist(modules, store);
      }
    }
  }

  lemma LevelIsDistinct(modules: seq<Module>, edges: seq<Edge>, depth: nat)
    requires LevelOk(modules, edges, depth)
    ensures Distinct(Ids(modules))
  {
  }

  /** Main paths between the modules of a Blueprint are, after expansion, those through Arcades that conduct. */
  lemma MainPathsThrough(bp: Blueprint, store: Store, flat: (seq<Module>, seq<Edge>), u: Id, v: Id)
    requires WellParsed(bp) && ParserContract(store) && ExpandFrom(bp.modules, bp.edges, store, 0) == Ok(flat)
    requires u in PlainIds(bp.modules) && v in PlainIds(bp.modules)
    ensures Reach(W.MainArcs(flat.1), u, v) <==> Reach(OpenArcs(bp.edges, Blocked(bp.modules, store, 0)), u, v)
  {
    hide Reach, LevelOk, W.MainArcs, Conducts, Outcome;
    ParsedIsLevelZero(bp);
    OutcomeHolds(bp.modules, bp.edges, store, 0);
    ExpansionKeepsConduction(bp.modules, bp.edges, store, 0);
    forall m | m in bp.modules ensures Joins(m.id) == 0 {
      ScanName(m.id);
    }
    assert BlockedAt(bp.modules, store) == Blocked(bp.modules, store, 0);
    NothingBlocked(bp, store, flat);
    assert OpenArcs(flat.1, {}) == W.MainArcs(flat.1);
  }

  lemma NothingBlocked(bp: Blueprint, store: Store, flat: (seq<Module>, seq<Edge>))
    requires Outcome(bp.modules, bp.edges, store, 0, flat.0, flat.1)
    ensures BlockedAt(flat.0, store) == {}
  {
    forall m | m in flat.0 ensures m.kind != Arcade {
      assert m.kind == Arcade ==> m.id in ArcadeIds(flat.0);
    }
  }

  // ----- instance -----

  function SignalOnly(): Blueprint {
    Blueprint([Plain("x", Ingress, []), Plain("y", Channel, [])], [Edge("x", "y", W.SIGNAL, [])], [])
  }

  function AcrossArcade(): Blueprint {
    Blueprint([Plain("u", Ingress, []), Loading("a", "s"), Plain("v", Channel, [])],
              [Edge("u", "a", W.MAIN, []), Edge("a", "v", W.MAIN, [])], [])
  }

  /** An Arcade whose entry and exit are joined by a signal alone cuts the main path it lies on. */
  lemma SignalCutsMainPath(store: Store)
    requires forall ref, given :: store(ref, given) == Parsed(SignalOnly())
    ensures Reach(W.MainArcs(AcrossArcade().edges), "u", "v")
    ensures !Reach(OpenArcs(AcrossArcade().edges, Blocked(AcrossArcade().modules, store, 0)), "u", "v")
  {
    var bp, sub := AcrossArcade(), SignalOnly();
    assert bp.edges[0] in bp.edges && bp.edges[1] in bp.edges;
    assert IsPath(W.MainArcs(bp.edges), "u", "v", ["u", "a", "v"]);
    SignalDoesNotConduct(store);
    assert bp.modules[1] in bp.modules;
    var blocked := Blocked(bp.modules, store, 0);
    assert "a" in blocked;
    forall p | IsPath(OpenArcs(bp.edges, blocked), "u", "v", p) ensures false {
      Confined(OpenArcs(bp.edges, blocked), {"u"}, "u", "v", p);
    }
  }

  lemma SignalDoesNotConduct(store: Store)
    requires forall ref, given :: store(ref, given) == Parsed(SignalOnly())
    ensures !Conducts(Loading("a", "s"), store, 0)
  {
    var sub := SignalOnly();
    assert sub.edges[0] in sub.edges;
    assert SubOf(Loading("a", "s"), store) == sub;
    forall blocked ensures OpenArcs(sub.edges, blocked) == {} {
    }
    forall p | IsPath({}, "x", "y", p) ensures false {
      Confined({}, {"x"}, "x", "y", p);
    }
  }
}
