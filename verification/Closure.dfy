/** When the compiled graph is closed: the wiring condition of the inputs, carried through expansion to the flat
    graph. */
module Closure {
  import opened Common
  import opened Digraph
  import opened Ast
  import opened Naming
  import opened Expander
  import opened Expansion
  import opened Wiring
  import W = Wirer

  // ----- one level -----

  lemma StepIsValid(modules: seq<Module>, i: nat, result: seq<Module>, edges: seq<Edge>, edges0: seq<Edge>, depth: nat,
                    store: Store)
    requires ParserContract(store) && LevelOk(modules, edges0, depth) && depth <= MAX_DEPTH
    requires i < |modules| && modules[i].kind == Arcade && Failure(modules[i], store).None?
    requires Midway(modules, i, result, edges, edges0, depth) && Origins(modules[..i], result, depth)
    requires Distinct(Ids(result + NamespaceModules(modules[i].id, SubOf(modules[i], store).modules)))
    ensures Step(result, modules[i], modules[i + 1..], edges, SubOf(modules[i], store)).Valid(store)
  {
    hide AllArcs, Midway, EntryModules, ExitModules;
    var hub, sub := modules[i], SubOf(modules[i], store);
    assert WellParsed(store(hub.ref.value, hub.contextOverride).bp);
    var live := result + modules[i..];
    ImagesAreFresh(modules, i, result, edges, edges0, depth, sub);
    assert Acyclic(AllArcs(live, edges)) by {
      MidwayIsAcyclic(modules, i, result, edges, edges0, depth);
    }
    NoSelfLoop(AllArcs(live, edges), hub.id);
    forall x ensures Image(hub.id, sub, x) <==> SiteOf(hub.id, sub).IsImage(x) {
    }
    forall e | e in edges ensures (e.from, e.to) in AllArcs(live, edges) {
      EdgeIsArc(live, edges, e);
    }
    var s := Step(result, hub, modules[i + 1..], edges, sub);
    forall m | s.Outside(m) ensures m.id != hub.id && !Image(hub.id, sub, m.id) {
      OthersAreNamedApart(modules, i, result, edges0, depth, m);
      if m in result {
        assert m.id in IdSet(result);
      }
    }
    forall m, d | s.Outside(m) && m.kind != Arcade && d in m.dependsOn ensures !Image(hub.id, sub, d) {
      assert m in live;
      DependencyIsArc(live, edges, m, d);
    }
  }

  lemma MidwayIsAcyclic(modules: seq<Module>, i: nat, result: seq<Module>, edges: seq<Edge>, edges0: seq<Edge>,
                        depth: nat)
    requires i <= |modules| && Midway(modules, i, result, edges, edges0, depth)
    ensures Acyclic(AllArcs(result + modules[i..], edges))
  {
  }

  lemma EdgeIsArc(ms: seq<Module>, es: seq<Edge>, e: Edge)
    requires e in es
    ensures (e.from, e.to) in AllArcs(ms, es)
  {
  }

  lemma DependencyIsArc(ms: seq<Module>, es: seq<Edge>, m: Module, d: Id)
    requires m in ms && d in m.dependsOn
    ensures (d, m.id) in AllArcs(ms, es)
  {
  }

  lemma OthersAreNamedApart(modules: seq<Module>, i: nat, result: seq<Module>, edges0: seq<Edge>, depth: nat, m: Module)
    requires LevelOk(modules, edges0, depth) && i < |modules| && modules[i].kind == Arcade
    requires Origins(modules[..i], result, depth) && (m in result || m in modules[i + 1..])
    ensures m.id != modules[i].id && (m in result || Joins(m.id) <= depth)
  {
    hide AllArcs, Joins, Settled;
    if m in modules[..i] {
      var k :| 0 <= k < i && modules[k] == m;
      assert Ids(modules)[k] != Ids(modules)[i];
    } else if m in modules[i + 1..] {
      var k :| 0 <= k < |modules[i + 1..]| && modules[i + 1..][k] == m;
      assert Ids(modules)[i] != Ids(modules)[i + 1 + k];
    }
  }

  lemma {:induction false} FlattenPrefix(modules: seq<Module>, store: Store, i: nat)
    requires i <= |modules| && Distinct(Ids(FlattenLevel(modules, store)))
    ensures Distinct(Ids(FlattenLevel(modules[..i], store)))
    decreases |modules|
  {
    if i == |modules| {
      assert modules[..i] == modules;
    } else {
      var init := modules[..|modules| - 1];
      DistinctIdsPrefix(FlattenLevel(init, store), Replacement(modules[|modules| - 1], store));
      assert init[..i] == modules[..i];
      FlattenPrefix(init, store, i);
    }
  }

  lemma PlainKeepsLevel(modules: seq<Module>, i: nat, edges0: seq<Edge>, store: Store)
    requires FirstFailure(modules, store).None? && i < |modules| && modules[i].kind != Arcade
    ensures FlattenLevel(modules[..i], store) + modules[i..] == FlattenLevel(modules[..i + 1], store) + modules[i + 1..]
    ensures LevelEdges(modules[..i], edges0, store) == LevelEdges(modules[..i + 1], edges0, store)
  {
    hide FlattenLevel, LevelEdges, FirstFailure;
    PrefixFails(modules, store, i);
    LevelStep(modules, i, edges0, store);
    assert modules[i..] == [modules[i]] + modules[i + 1..];
  }

  /** A level is wired well exactly when it is with its first `i` Arcades expanded. */
  lemma {:induction false} LevelKeepsWiring(modules: seq<Module>, i: nat, edges0: seq<Edge>, store: Store, depth: nat)
    requires ParserContract(store) && LevelOk(modules, edges0, depth) && depth <= MAX_DEPTH && i <= |modules|
    requires FirstFailure(modules, store).None? && Distinct(Ids(FlattenLevel(modules, store)))
    ensures LevelWired(FlattenLevel(modules[..i], store) + modules[i..], LevelEdges(modules[..i], edges0, store), store)
            <==> LevelWired(modules, edges0, store)
  {
    hide LevelWired, LevelOk, FirstFailure, ParserContract, Distinct, Ids;
    if i == 0 {
      assert [] + modules[0..] == modules;
    } else {
      LevelKeepsWiring(modules, i - 1, edges0, store, depth);
      if modules[i - 1].kind == Arcade {
        ArcadeKeepsWiring(modules, i - 1, edges0, store, depth);
      } else {
        PlainKeepsLevel(modules, i - 1, edges0, store);
      }
    }
  }

  lemma PrefixFails(modules: seq<Module>, store: Store, i: nat)
    requires i <= |modules| && FirstFailure(modules, store).None?
    ensures FirstFailure(modules[..i], store).None?
  {
    if FirstFailure(modules[..i], store).Some? {
      FailureSticks(modules, store, i);
    }
  }

  /** What is known after the first `i` modules of a level. */
  lemma PartOfLevel(modules: seq<Module>, i: nat, edges0: seq<Edge>, store: Store, depth: nat)
    requires ParserContract(store) && LevelOk(modules, edges0, depth) && i <= |modules|
    requires FirstFailure(modules, store).None? && Distinct(Ids(FlattenLevel(modules, store)))
    ensures var result := FlattenLevel(modules[..i], store);
            && Midway(modules, i, result, LevelEdges(modules[..i], edges0, store), edges0, depth)
            && Origins(modules[..i], result, depth) && Distinct(Ids(result))
  {
    hide Midway, FlattenLevel, LevelEdges, Origins, Distinct, FirstFailure;
    PrefixFails(modules, store, i);
    FlattenPrefix(modules, store, i);
    LevelInvariant(modules, i, edges0, store, depth);
    assert modules[..i] <= modules;
    OriginsHold(modules[..i], store, depth);
  }

  lemma ArcadeKeepsWiring(modules: seq<Module>, i: nat, edges0: seq<Edge>, store: Store, depth: nat)
    requires ParserContract(store) && LevelOk(modules, edges0, depth) && depth <= MAX_DEPTH && i < |modules|
    requires FirstFailure(modules, store).None? && Distinct(Ids(FlattenLevel(modules, store)))
    requires modules[i].kind == Arcade
    ensures LevelWired(FlattenLevel(modules[..i], store) + modules[i..],
                       LevelEdges(modules[..i], edges0, store), store) <==>
            LevelWired(FlattenLevel(modules[..i + 1], store) + modules[i + 1..],
                       LevelEdges(modules[..i + 1], edges0, store), store)
  {
    hide LevelWired, LevelOk, Midway, Origins, FlattenLevel, LevelEdges, FirstFailure, Distinct, ParserContract,
      NamespaceModules, EdgesAfter;
    hide EntryModules, ExitModules, MissingKeys, Step.Valid;
    var hub, sub := modules[i], SubOf(modules[i], store);
    var result, edges := FlattenLevel(modules[..i], store), LevelEdges(modules[..i], edges0, store);
    NoFailures(modules, store);
    PrefixFails(modules, store, i);
    LevelStep(modules, i, edges0, store);
    PartOfLevel(modules, i, edges0, store, depth);
    PartOfLevel(modules, i + 1, edges0, store, depth);
    StepIsValid(modules, i, result, edges, edges0, depth, store);
    var s := Step(result, hub, modules[i + 1..], edges, sub);
    StepKeepsWiring(s, store);
    assert s.Before() == result + modules[i..];
    assert s.After() == FlattenLevel(modules[..i + 1], store) + modules[i + 1..];
  }

  // ----- all levels -----

  /** Expansion as a whole neither repairs nor breaks the wiring. */
  lemma {:induction false} ExpansionKeepsWiring(modules: seq<Module>, edges: seq<Edge>, store: Store, depth: nat)
    requires ParserContract(store) && LevelOk(modules, edges, depth)
    ensures match ExpandFrom(modules, edges, store, depth)
            case Ok((ms, es)) => LevelWired(modules, edges, store) <==> LevelWired(ms, es, store)
            case Err(_) => true
    decreases MAX_DEPTH + 1 - depth
  {
    hide LevelWired, LevelOk, Midway, FlattenLevel, LevelEdges, FirstFailure;
    if depth <= MAX_DEPTH && ArcadeIds(modules) != {} && FirstFailure(modules, store).None? {
      var next, edges' := FlattenLevel(modules, store), LevelEdges(modules, edges, store);
      if Distinct(Ids(next)) {
        assert modules[..|modules|] == modules && next + modules[|modules|..] == next;
        LevelKeepsWiring(modules, |modules|, edges, store, depth);
        LevelInvariant(modules, |modules|, edges, store, depth);
        NextLevel(modules, store, next, edges', edges, depth);
        ExpansionKeepsWiring(next, edges', store, depth + 1);
      }
    }
  }

  lemma TopDepends(bp: Blueprint, m: Module)
    requires WellParsed(bp)
    ensures DependsWell(bp, LOOSE, m) <==> DependenciesMet(bp.modules, bp.edges, m)
  {
    hide Into, OutOf, EntryModules, ExitModules, WellParsed;
    forall id ensures EndsOf(bp, LOOSE, id) == EndsIn(bp.edges, id) {
    }
  }

  lemma TopJoins(bp: Blueprint, store: Store, e: Edge)
    requires WellParsed(bp)
    ensures JoinsWell(bp, LOOSE, store, 0, e) <==> EdgeJoins(bp.modules, bp.edges, store, e)
  {
    hide Into, OutOf, EntryModules, ExitModules, Outwards, Inwards, Joinable;
    forall m | m in bp.modules ensures Joins(m.id) == 0 && EndsOf(bp, LOOSE, m.id) == EndsIn(bp.edges, m.id) {
      ScanName(m.id);
    }
  }

  lemma TopInner(bp: Blueprint, store: Store, m: Module)
    requires WellParsed(bp) && m in bp.modules
    ensures InnerWired(m, bp.edges, store) <==>
            (m.kind == Arcade ==> Wired(SubOf(m, store), EndsOf(bp, LOOSE, m.id), store, 1))
  {
    hide Into, OutOf, EntryModules, ExitModules, Wired;
    ScanName(m.id);
    assert EndsOf(bp, LOOSE, m.id) == EndsIn(bp.edges, m.id);
  }

  lemma TopLevel(bp: Blueprint, store: Store)
    requires WellParsed(bp)
    ensures Wired(bp, LOOSE, store, 0) <==> LevelWired(bp.modules, bp.edges, store)
  {
    hide WellParsed, EndsOf, InnerWired, DependsWell, DependenciesMet, JoinsWell, EdgeJoins, SubOf;
    forall m | m in bp.modules
      ensures DependsWell(bp, LOOSE, m) <==> DependenciesMet(bp.modules, bp.edges, m)
      ensures InnerWired(m, bp.edges, store) <==>
              (m.kind == Arcade ==> Wired(SubOf(m, store), EndsOf(bp, LOOSE, m.id), store, 1))
    {
      TopDepends(bp, m);
      TopInner(bp, store, m);
    }
    forall e ensures JoinsWell(bp, LOOSE, store, 0, e) <==> EdgeJoins(bp.modules, bp.edges, store, e) {
      TopJoins(bp, store, e);
    }
  }

  // ----- the flat graph -----

  /** Every dependency of a surviving module names a surviving module. */
  ghost predicate SurvivingDependencies(ms: seq<Module>, passive: set<Id>) {
    forall m, d :: m in ms && m.id !in passive && d in m.dependsOn ==> d in IdSet(ms) - passive
  }

  lemma PassiveMeans(ms: seq<Module>, es: seq<Edge>, m: Module)
    requires Distinct(Ids(ms)) && m in ms
    ensures m.id in W.PassiveRegulators(ms, es) <==> EndsPassive(m, EndsIn(es, m.id))
  {
    forall n | n in ms && n.id == m.id ensures n == m {
      SameIdSame(ms, m, n);
    }
    assert (exists e :: e in es && e.to == m.id && e.port == W.SIGNAL) <==> Into(es, m.id, W.SIGNAL);
  }

  lemma SameIdSame(ms: seq<Module>, m: Module, n: Module)
    requires Distinct(Ids(ms)) && m in ms && n in ms && m.id == n.id
    ensures m == n
  {
    var i :| 0 <= i < |ms| && ms[i] == m;
    var j :| 0 <= j < |ms| && ms[j] == n;
    assert Ids(ms)[i] == Ids(ms)[j];
  }

  lemma FlatDependencies(ms: seq<Module>, es: seq<Edge>)
    requires ArcadeIds(ms) == {} && Distinct(Ids(ms))
    ensures (forall m :: m in ms ==> DependenciesMet(ms, es, m)) <==>
            SurvivingDependencies(ms, W.PassiveRegulators(ms, es))
  {
    hide EndsPassive, EndsIn, W.PassiveRegulators;
    assert forall m :: m in ms && m.kind == Arcade ==> m.id in ArcadeIds(ms);
    forall m | m in ms ensures m.id in W.PassiveRegulators(ms, es) <==> EndsPassive(m, EndsIn(es, m.id)) {
      PassiveMeans(ms, es, m);
    }
    forall d ensures Provided(ms, es, d) <==> d in IdSet(ms) - W.PassiveRegulators(ms, es) {
    }
  }

  lemma FlatEdge(ms: seq<Module>, es: seq<Edge>, store: Store, e: Edge)
    requires ArcadeIds(ms) == {} && Distinct(Ids(ms)) && Within(EdgeArcs(es), IdSet(ms)) && e in es
    ensures var passive := W.PassiveRegulators(ms, es);
            EdgeJoins(ms, es, store, e) <==>
            (e.from in passive && e.to in passive ==> !Into(es, e.from, W.MAIN) && !OutOf(es, e.to, W.MAIN))
  {
    hide Into, OutOf, W.PassiveRegulators;
    assert forall m :: m in ms && m.kind == Arcade ==> m.id in ArcadeIds(ms);
    assert (e.from, e.to) in EdgeArcs(es);
    var u :| u in ms && u.id == e.from;
    var v :| v in ms && v.id == e.to;
    PassiveMeans(ms, es, u);
    PassiveMeans(ms, es, v);
    forall n | n in ms ensures (n.id == e.from ==> n == u) && (n.id == e.to ==> n == v) {
      if n.id == e.from {
        SameIdSame(ms, n, u);
      }
      if n.id == e.to {
        SameIdSame(ms, n, v);
      }
    }
    assert OutAt(u, es, store) == {Face(EndsPassive(u, EndsIn(es, u.id)), Into(es, u.id, W.MAIN))};
    assert InAt(v, es, store) == {Face(EndsPassive(v, EndsIn(es, v.id)), OutOf(es, v.id, W.MAIN))};
  }

  /** Two passive Regulators in a row, with a main edge before or behind them. */
  ghost predicate Gap(es: seq<Edge>, passive: set<Id>, e: Edge) {
    e.from in passive && e.to in passive && (Into(es, e.from, W.MAIN) || OutOf(es, e.to, W.MAIN))
  }

  lemma GapDangles(es: seq<Edge>, passive: set<Id>, e: Edge)
    requires e in es && e.port == W.MAIN && Gap(es, passive, e)
    ensures W.DanglingBypass(es, passive)
  {
    assert (e.from, e.to) in W.MainArcs(es);
    if f :| f in es && f.to == e.from && f.port == W.MAIN {
      assert (f.from, f.to) in W.MainArcs(es);
    } else {
      var g :| g in es && g.from == e.to && g.port == W.MAIN;
      assert (g.from, g.to) in W.MainArcs(es);
    }
  }

  lemma DanglingHasGap(es: seq<Edge>, passive: set<Id>) returns (e: Edge)
    requires W.DanglingBypass(es, passive)
    ensures e in es && e.port == W.MAIN && Gap(es, passive, e)
  {
    var u, r, v :|
      (u, r) in W.MainArcs(es) && (r, v) in W.MainArcs(es) && r in passive && (u in passive || v in passive);
    var f :| f in es && f.port == W.MAIN && f.from == u && f.to == r;
    var g :| g in es && g.port == W.MAIN && g.from == r && g.to == v;
    e := if u in passive then f else g;
  }

  lemma FlatEdges(ms: seq<Module>, es: seq<Edge>, store: Store)
    requires ArcadeIds(ms) == {} && Distinct(Ids(ms)) && Within(EdgeArcs(es), IdSet(ms))
    ensures EdgesJoin(ms, es, store) <==> !W.DanglingBypass(es, W.PassiveRegulators(ms, es))
  {
    hide W.PassiveRegulators, W.DanglingBypass, EdgeJoins, Into, OutOf;
    var passive := W.PassiveRegulators(ms, es);
    forall e | e in es ensures EdgeJoins(ms, es, store, e) <==> !Gap(es, passive, e) {
      FlatEdge(ms, es, store, e);
    }
    if !EdgesJoin(ms, es, store) {
      var e :| e in es && e.port == W.MAIN && !EdgeJoins(ms, es, store, e);
      GapDangles(es, passive, e);
    }
    if W.DanglingBypass(es, passive) {
      var e := DanglingHasGap(es, passive);
      assert !EdgeJoins(ms, es, store, e);
    }
  }

  /** Without Arcades, being wired well is what closedness after compile-away takes. */
  lemma FlatIsClosed(ms: seq<Module>, es: seq<Edge>, store: Store)
    requires ArcadeIds(ms) == {} && Distinct(Ids(ms)) && Within(EdgeArcs(es), IdSet(ms))
    ensures var passive := W.PassiveRegulators(ms, es);
            LevelWired(ms, es, store) <==> !W.DanglingBypass(es, passive) && SurvivingDependencies(ms, passive)
  {
    hide W.PassiveRegulators, EdgeJoins, DependenciesMet;
    FlatEdges(ms, es, store);
    FlatDependencies(ms, es);
    assert forall m :: m in ms && m.kind == Arcade ==> m.id in ArcadeIds(ms);
  }
}
