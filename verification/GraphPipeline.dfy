/** The graph part of `compile` (aqueduct/compiler/compiler.py): expand, then compile away. */
module GraphPipeline {
  import opened Common
  import opened Digraph
  import opened Ast
  import opened Expander
  import opened Expansion
  import opened Wiring
  import opened Closure
  import opened Conduction
  import W = Wirer
  import ModuleGraph

  /** `parse` accepts a graph exactly when `detect_cycles` raises nothing and returns nothing. */
  method AcceptGraph(bp: Blueprint) returns (ok: bool)
    requires Distinct(Ids(bp.modules)) && forall m :: m in bp.modules ==> Naming.ValidName(m.id)
    ensures ok <==> WellParsed(bp)
  {
    var cycles := ModuleGraph.DetectCycles(bp.modules, bp.edges);
    return cycles.Ok? && cycles.value == [];
  }

  lemma CompiledClosed(ms: seq<Module>, es: seq<Edge>, es': seq<Edge>)
    requires W.Bypassed(es, W.PassiveRegulators(ms, es), es') && Within(EdgeArcs(es), IdSet(ms))
    ensures var passive := W.PassiveRegulators(ms, es);
            Within(AllArcs(W.Without(ms, passive), es'), IdSet(W.Without(ms, passive))) <==>
            !W.DanglingBypass(es, passive) && SurvivingDependencies(ms, passive)
  {
    var passive := W.PassiveRegulators(ms, es);
    var ms' := W.Without(ms, passive);
    W.BypassClosed(ms, es, es');
    W.WithoutIds(ms, es);
    forall m, d | m in ms' && d in m.dependsOn ensures (d, m.id) in DependencyArcs(ms') {
    }
    forall m | m in ms && m.id !in passive ensures m in ms' {
    }
  }

  lemma DistinctSplit(ms: seq<Module>)
    requires ms != [] && Distinct(Ids(ms))
    ensures var init, last := ms[..|ms| - 1], ms[|ms| - 1];
            Distinct(Ids(init)) && forall m :: m in init ==> m.id != last.id
  {
  }

  lemma DistinctSnoc(ms: seq<Module>, last: Module)
    requires Distinct(Ids(ms)) && forall m :: m in ms ==> m.id != last.id
    ensures Distinct(Ids(ms + [last]))
  {
  }

  lemma {:induction false} WithoutDistinct(ms: seq<Module>, gone: set<Id>)
    requires Distinct(Ids(ms))
    ensures Distinct(Ids(W.Without(ms, gone)))
  {
    if ms != [] {
      DistinctSplit(ms);
      WithoutDistinct(ms[..|ms| - 1], gone);
      if ms[|ms| - 1].id !in gone {
        DistinctSnoc(W.Without(ms[..|ms| - 1], gone), ms[|ms| - 1]);
      }
    }
  }

  /** On the flat graph the condition comes out as what compile-away needs. */
  lemma FlatWired(bp: Blueprint, store: Store, flat: (seq<Module>, seq<Edge>))
    requires WellParsed(bp) && ParserContract(store) && ExpandFrom(bp.modules, bp.edges, store, 0) == Ok(flat)
    ensures var passive := W.PassiveRegulators(flat.0, flat.1);
            Wired(bp, LOOSE, store, 0) <==> !W.DanglingBypass(flat.1, passive) && SurvivingDependencies(flat.0, passive)
  {
    hide Wired, LevelWired, LevelOk, AllArcs, Within, W.DanglingBypass, W.PassiveRegulators, SurvivingDependencies,
      ArcadeIds;
    ParsedIsLevelZero(bp);
    OutcomeHolds(bp.modules, bp.edges, store, 0);
    TopLevel(bp, store);
    ExpansionKeepsWiring(bp.modules, bp.edges, store, 0);
    FlatIsClosed(flat.0, flat.1, store);
  }

  /** What the inputs must look like for the compiled graph to be closed: they are wired well. */
  lemma ClosedExactly(bp: Blueprint, store: Store, flat: (seq<Module>, seq<Edge>), es: seq<Edge>)
    requires WellParsed(bp) && ParserContract(store) && ExpandFrom(bp.modules, bp.edges, store, 0) == Ok(flat)
    requires W.Bypassed(flat.1, W.PassiveRegulators(flat.0, flat.1), es)
    ensures var ms := W.Without(flat.0, W.PassiveRegulators(flat.0, flat.1));
            Within(AllArcs(ms, es), IdSet(ms)) <==> Wired(bp, LOOSE, store, 0)
  {
    hide Wired, LevelOk, AllArcs, Within, W.DanglingBypass, W.PassiveRegulators, W.Bypassed, SurvivingDependencies,
      ArcadeIds;
    ParsedIsLevelZero(bp);
    OutcomeHolds(bp.modules, bp.edges, store, 0);
    FlatWired(bp, store, flat);
    CompiledClosed(flat.0, flat.1, es);
  }

  /** Two modules of the Blueprint that are still there are joined by a main path exactly when one joins them in the
      Blueprint, through Arcades that conduct. */
  ghost predicate MainPathsKept(bp: Blueprint, store: Store, compiled: (seq<Module>, seq<Edge>)) {
    forall u, v ::
      u in PlainIds(bp.modules) && v in PlainIds(bp.modules) && u in IdSet(compiled.0) && v in IdSet(compiled.0) ==>
      (Reach(W.MainArcs(compiled.1), u, v) <==> Reach(OpenArcs(bp.edges, Blocked(bp.modules, store, 0)), u, v))
  }

  lemma MainPathsCompose(bp: Blueprint, store: Store, flat: (seq<Module>, seq<Edge>), es: seq<Edge>)
    requires WellParsed(bp) && ParserContract(store) && ExpandFrom(bp.modules, bp.edges, store, 0) == Ok(flat)
    requires W.Bypassed(flat.1, W.PassiveRegulators(flat.0, flat.1), es) && Wired(bp, LOOSE, store, 0)
    ensures MainPathsKept(bp, store, (W.Without(flat.0, W.PassiveRegulators(flat.0, flat.1)), es))
  {
    hide Wired, W.DanglingBypass, W.PassiveRegulators, W.Bypassed, Reach, W.MainArcs, OpenArcs, Blocked, ExpandFrom,
      ParserContract, WellParsed, PlainIds;
    var passive := W.PassiveRegulators(flat.0, flat.1);
    var ms := W.Without(flat.0, passive);
    FlatWired(bp, store, flat);
    forall u, v | u in PlainIds(bp.modules) && v in PlainIds(bp.modules) && u in IdSet(ms) && v in IdSet(ms)
      ensures Reach(W.MainArcs(es), u, v) <==> Reach(OpenArcs(bp.edges, Blocked(bp.modules, store, 0)), u, v)
    {
      MainPathsThrough(bp, store, flat, u, v);
      W.BypassKeepsMainReach(flat.1, passive, es, u, v);
    }
  }

  /** The compiled graph. `flat` is the graph between the two passes. */
  method CompileGraph(bp: Blueprint, store: Store)
    returns (r: Result<(seq<Module>, seq<Edge>), ExpandError>, ghost flat: (seq<Module>, seq<Edge>))
    requires WellParsed(bp) && ParserContract(store)
    // it succeeds exactly when expansion does, on what expansion gives
    ensures match ExpandFrom(bp.modules, bp.edges, store, 0) case Ok(g) => r.Ok? && flat == g case Err(e) => r == Err(e)
    // what it has gone through the second pass: no passive Regulator is left, and bypasses take their place
    ensures r.Ok? ==> r.value.0 == W.Without(flat.0, W.PassiveRegulators(flat.0, flat.1))
    ensures r.Ok? ==> W.Bypassed(flat.1, W.PassiveRegulators(flat.0, flat.1), r.value.1)
    // flat, unambiguous, and acyclic whatever the wiring
    ensures r.Ok? ==> ArcadeIds(r.value.0) == {} && Distinct(Ids(r.value.0))
    ensures r.Ok? ==> Acyclic(AllArcs(r.value.0, r.value.1))
    // closed, hence schedulable, exactly when Blueprint and sub-Blueprints are wired well
    ensures r.Ok? ==> (Within(AllArcs(r.value.0, r.value.1), IdSet(r.value.0)) <==> Wired(bp, LOOSE, store, 0))
    ensures r.Ok? ==> (DependenciesKnown(flat.0) <==> DependenciesSurvive(bp.modules, store, 0))
    // reachability on all ports up to the graph between the passes
    ensures r.Ok? ==> forall u, v :: u in PlainIds(bp.modules) && v in PlainIds(bp.modules) ==>
              (Reach(EdgeArcs(flat.1), u, v) <==> Reach(EdgeArcs(bp.edges), u, v))
    // reachability on the main port, from there on and from the Blueprint on, where it passes the Arcades that conduct
    ensures r.Ok? && !W.DanglingBypass(flat.1, W.PassiveRegulators(flat.0, flat.1)) ==>
              forall u, v :: u in IdSet(r.value.0) && v in IdSet(r.value.0) ==>
              (Reach(W.MainArcs(r.value.1), u, v) <==> Reach(W.MainArcs(flat.1), u, v))
    ensures r.Ok? && Wired(bp, LOOSE, store, 0) ==> MainPathsKept(bp, store, r.value)
  {
    flat := ([], []);
    var expanded := ExpandArcades(bp, store);
    if expanded.Err? {
      return Err(expanded.error), flat;
    }
    flat := expanded.value;
    var ms, es := W.CompileAwayRegulators(expanded.value.0, expanded.value.1);
    ghost var passive := W.PassiveRegulators(flat.0, flat.1);
    W.BypassStaysAcyclic(flat.0, flat.1, passive, es);
    WithoutDistinct(flat.0, passive);
    ClosedExactly(bp, store, flat, es);
    if !W.DanglingBypass(flat.1, passive) {
      forall u, v | u in IdSet(ms) && v in IdSet(ms)
        ensures Reach(W.MainArcs(es), u, v) <==> Reach(W.MainArcs(flat.1), u, v)
      {
        W.BypassKeepsMainReach(flat.1, passive, es, u, v);
      }
    }
    if Wired(bp, LOOSE, store, 0) {
      MainPathsCompose(bp, store, flat, es);
    }
    return Ok((ms, es)), flat;
  }
}
