/** Inputs on which compilation succeeds and still leaves an open graph, or cuts a path: the failing cases, carried
    through it. */
module Instances {
  import opened Common
  import opened Digraph
  import opened Ast
  import opened Naming
  import opened Expander
  import opened Expansion
  import opened Wiring
  import opened Conduction
  import opened GraphPipeline
  import W = Wirer

  /** Every reference loads the same sub-Blueprint. */
  function Always(sub: Blueprint): Store {
    (ref, given) => Parsed(sub)
  }

  ghost predicate Closed(g: (seq<Module>, seq<Edge>)) {
    Within(AllArcs(g.0, g.1), IdSet(g.0))
  }

  /** A single level of Arcades, none of which loads another. */
  lemma OneLevelOnly(bp: Blueprint, store: Store)
    requires ArcadeIds(bp.modules) != {} && forall m :: m in bp.modules && m.kind == Arcade ==> Failure(m, store).None?
    requires Distinct(Ids(FlattenLevel(bp.modules, store))) && ArcadeIds(FlattenLevel(bp.modules, store)) == {}
    ensures ExpandFrom(bp.modules, bp.edges, store, 0)
            == Ok((FlattenLevel(bp.modules, store), LevelEdges(bp.modules, bp.edges, store)))
  {
    hide FlattenLevel, LevelEdges, Failure;
    NoFailures(bp.modules, store);
  }

  lemma FlatOfTwo(m: Module, n: Module, store: Store)
    ensures FlattenLevel([m, n], store) == Replacement(m, store) + Replacement(n, store)
  {
    assert [m, n][..1] == [m] && [m][..0] == [];
    assert FlattenLevel([m], store) == [] + Replacement(m, store);
  }

  lemma FlatOfThree(l: Module, m: Module, n: Module, store: Store)
    ensures FlattenLevel([l, m, n], store) == Replacement(l, store) + Replacement(m, store) + Replacement(n, store)
  {
    hide Replacement;
    assert [l, m, n][..2] == [l, m];
    FlatOfTwo(l, m, store);
  }

  lemma LoadsWell(m: Module, store: Store, sub: Blueprint)
    requires m.ref.Some? && m.ref.value != "" && store(m.ref.value, m.contextOverride) == Parsed(sub)
    requires sub.requiredContext == [] && EntryModules(sub) != [] && ExitModules(sub) != []
    ensures Failure(m, store).None?
  {
    hide EntryModules, ExitModules;
  }

  lemma Parses(bp: Blueprint, rank: Id -> nat)
    requires Distinct(Ids(bp.modules)) && forall m :: m in bp.modules ==> ValidName(m.id)
    requires Within(AllArcs(bp.modules, bp.edges), IdSet(bp.modules)) && Ranked(AllArcs(bp.modules, bp.edges), rank)
    ensures WellParsed(bp)
  {
    RankedIsAcyclic(AllArcs(bp.modules, bp.edges), rank);
  }

  lemma NamesAreValid()
    ensures forall x :: x in {"a", "m", "r", "x", "y", "u", "v", "r1", "r2", "b", "_b", "a_"} ==> ValidName(x)
  {
  }

  // ----- dependencies -----

  lemma OneIngressParses()
    ensures WellParsed(OneIngress()) && EntryModules(OneIngress()) == ["x"] && ExitModules(OneIngress()) == ["x"]
  {
    NamesAreValid();
    RankedIsAcyclic(AllArcs(OneIngress().modules, []), x => 0);
  }

  lemma DependingParses(id: Id, kind: ModuleType)
    requires id in {"m", "r"}
    ensures WellParsed(Blueprint([Loading("a", "s"), Plain(id, kind, ["a"])], [], []))
  {
    NamesAreValid();
    var ms := [Loading("a", "s"), Plain(id, kind, ["a"])];
    assert ms[0] in ms && ms[1] in ms;
    assert AllArcs(ms, []) == {("a", id)};
    RankedIsAcyclic(AllArcs(ms, []), x => if x == "a" then 0 else 1);
  }

  /** What an Arcade becomes when it loads a single module without dependencies. */
  lemma ChildOf(a: Module, sub: Blueprint, id: Id, kind: ModuleType)
    requires a.kind == Arcade && a.ref.Some? && sub.modules == [Plain(id, kind, [])]
    ensures Replacement(a, Always(sub)) == [Plain(Namespaced(a.id, id), kind, [])]
  {
    assert NamespaceModule(a.id, {id}, sub.modules[0]) == Plain(Namespaced(a.id, id), kind, []);
    assert IdSet(sub.modules) == {id} by {
      assert sub.modules[0] in sub.modules;
    }
  }

  lemma DependingExpands(id: Id, kind: ModuleType)
    requires id in {"m", "r"} && kind != Arcade
    ensures ExpandFrom([Loading("a", "s"), Plain(id, kind, ["a"])], [], Always(OneIngress()), 0).Ok?
  {
    var a, m, store := Loading("a", "s"), Plain(id, kind, ["a"]), Always(OneIngress());
    var ms := [a, m];
    assert ms[0] in ms;
    OneIngressParses();
    FlatOfTwo(a, m, store);
    ChildOf(a, OneIngress(), "x", Ingress);
    assert Namespaced("a", "x") == "a__x" && Replacement(m, store) == [m];
    assert FlattenLevel(ms, store) == [Plain("a__x", Ingress, []), m];
    assert Ids([Plain("a__x", Ingress, []), m]) == ["a__x", id];
    LoadsWell(a, store, OneIngress());
    assert a.id in ArcadeIds(ms);
    hide FlattenLevel, Failure, Replacement;
    OneLevelOnly(Blueprint(ms, [], []), store);
  }

  /** A dependency on an Arcade leaves the compiled graph open. */
  method ArcadeDependencyDangles() returns (g: (seq<Module>, seq<Edge>))
    ensures !Closed(g)
  {
    hide WellParsed, ExpandFrom, Wired, LOOSE, DependenciesSurvive, MainPathsKept;
    DependingParses("m", Channel);
    DependingExpands("m", Channel);
    OneIngressParses();
    DependencyOnArcade(Always(OneIngress()));
    var r, _ := CompileGraph(OnArcade(), Always(OneIngress()));
    return r.value;
  }

  /** The same dependency in a Regulator that is compiled away goes with it. */
  method RemovedDependencyCloses() returns (g: (seq<Module>, seq<Edge>))
    ensures Closed(g)
  {
    hide WellParsed, ExpandFrom, Wired, LOOSE, DependenciesSurvive, MainPathsKept;
    DependingParses("r", Regulator);
    DependingExpands("r", Regulator);
    OneIngressParses();
    RemovedWithItsDependency(Always(OneIngress()));
    var r, _ := CompileGraph(PassiveOnArcade(), Always(OneIngress()));
    return r.value;
  }

  lemma NoArcades(bp: Blueprint, store: Store)
    requires ArcadeIds(bp.modules) == {}
    ensures ExpandFrom(bp.modules, bp.edges, store, 0).Ok?
  {
  }

  lemma OnPassiveParses()
    ensures WellParsed(OnPassive()) && ArcadeIds(OnPassive().modules) == {}
  {
    NamesAreValid();
    var ms := OnPassive().modules;
    assert ms[0] in ms && ms[1] in ms;
    assert AllArcs(ms, []) == {("r", "m")};
    RankedIsAcyclic(AllArcs(ms, []), x => if x == "r" then 0 else 1);
  }

  /** So does one on a Regulator without a signal. */
  method RegulatorDependencyDangles() returns (g: (seq<Module>, seq<Edge>))
    ensures !Closed(g)
  {
    hide WellParsed, ExpandFrom, Wired, LOOSE, DependenciesSurvive, MainPathsKept;
    OnPassiveParses();
    OneIngressParses();
    NoArcades(OnPassive(), Always(OneIngress()));
    DependencyOnPassiveRegulator(Always(OneIngress()));
    var r, _ := CompileGraph(OnPassive(), Always(OneIngress()));
    return r.value;
  }

  // ----- bypasses -----

  lemma ChainArcs()
    ensures AllArcs(ChainOfTwo().modules, W.ChainExample()) == {("u", "r1"), ("r1", "r2"), ("r2", "v")}
    ensures IdSet(ChainOfTwo().modules) == {"u", "r1", "r2", "v"}
  {
    var ms, es := ChainOfTwo().modules, W.ChainExample();
    assert EdgeArcs(es) == {("u", "r1"), ("r1", "r2"), ("r2", "v")} by {
      assert es[0] in es && es[1] in es && es[2] in es;
    }
    assert ms[0] in ms && ms[1] in ms && ms[2] in ms && ms[3] in ms;
  }

  lemma ChainParses()
    ensures WellParsed(ChainOfTwo()) && ArcadeIds(ChainOfTwo().modules) == {}
  {
    hide AllArcs, IdSet, ValidName, Acyclic, WellParsed;
    NamesAreValid();
    ChainArcs();
    assert Ids(ChainOfTwo().modules) == ["u", "r1", "r2", "v"];
    Parses(ChainOfTwo(), x => if x == "u" then 0 else if x == "r1" then 1 else if x == "r2" then 2 else 3);
  }

  /** Two passive Regulators in a row leave an edge to a removed module. */
  method ChainDangles() returns (g: (seq<Module>, seq<Edge>))
    ensures !Closed(g)
  {
    hide WellParsed, ExpandFrom, Wired, LOOSE, DependenciesSurvive, MainPathsKept;
    ChainParses();
    OneIngressParses();
    NoArcades(ChainOfTwo(), Always(OneIngress()));
    ChainIsNotWired(Always(OneIngress()));
    var r, _ := CompileGraph(ChainOfTwo(), Always(OneIngress()));
    return r.value;
  }

  // ----- a main path that is cut -----

  lemma SignalOnlyParses()
    ensures WellParsed(SignalOnly()) && EntryModules(SignalOnly()) == ["x"] && ExitModules(SignalOnly()) == ["y"]
  {
    NamesAreValid();
    var ms, es := SignalOnly().modules, SignalOnly().edges;
    assert ms[0] in ms && ms[1] in ms && es[0] in es;
    assert AllArcs(ms, es) == {("x", "y")};
    RankedIsAcyclic(AllArcs(ms, es), x => if x == "x" then 0 else 1);
    assert ms[1..] == [ms[1]] && ms[1..][1..] == [];
  }

  lemma AcrossParses()
    ensures WellParsed(AcrossArcade())
  {
    NamesAreValid();
    var ms, es := AcrossArcade().modules, AcrossArcade().edges;
    assert ms[0] in ms && ms[1] in ms && ms[2] in ms && es[0] in es && es[1] in es;
    assert AllArcs(ms, es) == {("u", "a"), ("a", "v")};
    RankedIsAcyclic(AllArcs(ms, es), x => if x == "u" then 0 else if x == "a" then 1 else 2);
  }

  lemma SignalChildren(a: Module)
    requires a == Loading("a", "s")
    ensures Replacement(a, Always(SignalOnly())) == [Plain("a__x", Ingress, []), Plain("a__y", Channel, [])]
  {
    var ids := IdSet(SignalOnly().modules);
    assert Namespaced("a", "x") == "a__x" && Namespaced("a", "y") == "a__y";
    assert NamespaceModule("a", ids, Plain("x", Ingress, [])) == Plain("a__x", Ingress, []);
    assert NamespaceModule("a", ids, Plain("y", Channel, [])) == Plain("a__y", Channel, []);
  }

  lemma AcrossExpands()
    ensures ExpandFrom(AcrossArcade().modules, AcrossArcade().edges, Always(SignalOnly()), 0).Ok?
  {
    var ms, store := AcrossArcade().modules, Always(SignalOnly());
    hide WellParsed, EntryModules, ExitModules, FlattenLevel, Failure, LevelEdges;
    assert ms[1] in ms;
    SignalOnlyParses();
    FlatOfThree(ms[0], ms[1], ms[2], store);
    SignalChildren(ms[1]);
    assert Replacement(ms[0], store) == [ms[0]] && Replacement(ms[2], store) == [ms[2]];
    hide Replacement;
    var flat := [ms[0], Plain("a__x", Ingress, []), Plain("a__y", Channel, []), ms[2]];
    assert FlattenLevel(ms, store) == flat;
    assert Ids(flat) == ["u", "a__x", "a__y", "v"];
    LoadsWell(ms[1], store, SignalOnly());
    assert ms[1].id in ArcadeIds(ms);
    OneLevelOnly(AcrossArcade(), store);
  }

  /** The main path of the Blueprint is gone in the expanded graph, and every edge and module is still there. */
  method SignalCuts() returns (r: Result<(seq<Module>, seq<Edge>), ExpandError>, ghost flat: (seq<Module>, seq<Edge>))
    ensures r.Ok? && Reach(W.MainArcs(AcrossArcade().edges), "u", "v") && !Reach(W.MainArcs(flat.1), "u", "v")
    ensures Reach(EdgeArcs(flat.1), "u", "v")
  {
    hide WellParsed, ExpandFrom, Wired, LOOSE, DependenciesSurvive, MainPathsKept, Reach, OpenArcs, Blocked;
    var bp, store := AcrossArcade(), Always(SignalOnly());
    AcrossParses();
    SignalOnlyParses();
    AcrossExpands();
    SignalCutsMainPath(store);
    assert bp.modules[0] in bp.modules && bp.modules[2] in bp.modules;
    r, flat := CompileGraph(bp, store);
    MainPathsThrough(bp, store, flat, "u", "v");
    AcrossIsJoined();
  }

  lemma AcrossIsJoined()
    ensures Reach(EdgeArcs(AcrossArcade().edges), "u", "v")
  {
    var es := AcrossArcade().edges;
    assert es[0] in es && es[1] in es;
    assert IsPath(EdgeArcs(es), "u", "v", ["u", "a", "v"]);
  }

  // ----- two names that coincide -----

  function Cousins(): Blueprint {
    Blueprint([Loading("a_", "b"), Loading("a", "_b")], [], [])
  }

  /** Each reference loads one module of that name. */
  function ByName(): Store {
    (ref, given) => Parsed(Blueprint([Plain(if ref == "b" then "b" else "_b", Ingress, [])], [], []))
  }

  lemma CousinsParse()
    ensures WellParsed(Cousins())
  {
    NamesAreValid();
    var ms := Cousins().modules;
    assert ms[0] in ms && ms[1] in ms;
    RankedIsAcyclic(AllArcs(ms, []), x => 0);
  }

  lemma OneModuleParses(id: Id)
    requires ValidName(id)
    ensures var sub := Blueprint([Plain(id, Ingress, [])], [], []);
            WellParsed(sub) && EntryModules(sub) != [] && ExitModules(sub) != []
  {
    var ms := [Plain(id, Ingress, [])];
    RankedIsAcyclic(AllArcs(ms, []), x => 0);
    assert ms[0] in ms && id in EntryModules(Blueprint(ms, [], [])) && id in ExitModules(Blueprint(ms, [], []));
  }

  lemma CousinsFlatten()
    ensures FlattenLevel(Cousins().modules, ByName()) == [Plain("a___b", Ingress, []), Plain("a___b", Ingress, [])]
  {
    var ms, store := Cousins().modules, ByName();
    FlatOfTwo(ms[0], ms[1], store);
    ChildOf(ms[0], Blueprint([Plain("b", Ingress, [])], [], []), "b", Ingress);
    ChildOf(ms[1], Blueprint([Plain("_b", Ingress, [])], [], []), "_b", Ingress);
    assert Namespaced("a_", "b") == "a___b" && Namespaced("a", "_b") == "a___b";
  }

  /** Module `b` in Arcade `a_` and module `_b` in Arcade `a` get the same name, and expansion is refused for it. */
  lemma UnderscoreCollides()
    ensures WellParsed(Cousins()) && ParserContract(ByName())
    ensures ExpandFrom(Cousins().modules, [], ByName(), 0) == Err(IdCollision("a___b"))
  {
    hide FlattenLevel, Failure, Replacement, WellParsed, EntryModules, ExitModules;
    var ms, store := Cousins().modules, ByName();
    NamesAreValid();
    OneModuleParses("b");
    OneModuleParses("_b");
    CousinsParse();
    LoadsWell(ms[0], store, Blueprint([Plain("b", Ingress, [])], [], []));
    LoadsWell(ms[1], store, Blueprint([Plain("_b", Ingress, [])], [], []));
    NoFailures(ms, store);
    CousinsFlatten();
    assert ms[0] in ms && ms[0].id in ArcadeIds(ms);
    var ids := Ids(FlattenLevel(ms, store));
    assert ids == ["a___b", "a___b"] && ids[..1] == ["a___b"] && ids[..1][..0] == [];
    assert FirstClash(ids[..1]) == None;
  }

  // ----- how deep Arcades may nest -----

  /** Each reference loads one Arcade with a reference that is shorter by one, the last one a plain module. */
  function Ladder(): Store {
    (ref, given) => if |ref| <= 1 then Parsed(OneIngress()) else Parsed(Blueprint([Loading("a", ref[1..])], [], []))
  }

  lemma RungParses(ref: string)
    ensures ref != "" ==> WellParsed(Blueprint([Loading("a", ref)], [], []))
    ensures var sub := Blueprint([Loading("a", ref)], [], []); EntryModules(sub) != [] && ExitModules(sub) != []
  {
    NamesAreValid();
    var ms := [Loading("a", ref)];
    RankedIsAcyclic(AllArcs(ms, []), x => 0);
    assert ms[0] in ms && "a" in EntryModules(Blueprint(ms, [], [])) && "a" in ExitModules(Blueprint(ms, [], []));
  }

  lemma NextRung(m: Module, ref: string)
    requires m.kind == Arcade && m.ref == Some(ref) && ref != ""
    ensures FirstFailure([m], Ladder()).None? && LevelEdges([m], [], Ladder()) == []
    ensures var next := FlattenLevel([m], Ladder());
            |next| == 1 && (if |ref| == 1 then next[0].kind != Arcade
                            else next[0].kind == Arcade && next[0].ref == Some(ref[1..]))
  {
    var sub := Ladder()(ref, m.contextOverride).bp;
    OneIngressParses();
    RungParses(ref[1..]);
    LoadsWell(m, Ladder(), sub);
    hide Failure, EntryModules, ExitModules, WellParsed;
    assert [m][..0] == [];
    assert FlattenLevel([m], Ladder()) == [] + NamespaceModules(m.id, sub.modules);
    ChildMeans(m.id, sub, 0);
    assert LevelEdges([m], [], Ladder()) == EdgesAfter(m.id, sub, []);
  }

  lemma Descend(modules: seq<Module>, edges: seq<Edge>, store: Store, depth: nat)
    requires depth <= 10 && ArcadeIds(modules) != {} && FirstFailure(modules, store).None?
    requires Distinct(Ids(FlattenLevel(modules, store)))
    ensures ExpandFrom(modules, edges, store, depth) ==
            ExpandFrom(FlattenLevel(modules, store), LevelEdges(modules, edges, store), store, depth + 1)
  {
    hide FlattenLevel, LevelEdges, FirstFailure, ArcadeIds;
  }

  lemma Bottom(modules: seq<Module>, edges: seq<Edge>, store: Store, depth: nat)
    ensures depth > 10 ==> ExpandFrom(modules, edges, store, depth) == Err(DepthExceeded)
    ensures depth <= 10 && ArcadeIds(modules) == {} ==> ExpandFrom(modules, edges, store, depth).Ok?
  {
    hide FlattenLevel, LevelEdges, FirstFailure, ArcadeIds;
  }

  /** Nesting goes as deep as ten Arcades in one another, and the eleventh is refused for its depth. */
  lemma {:induction false} LadderDepth(m: Module, ref: string, depth: nat)
    requires m.kind == Arcade && m.ref == Some(ref) && ref != ""
    ensures ExpandFrom([m], [], Ladder(), depth).Ok? <==> depth + |ref| <= 10
    ensures depth + |ref| > 10 ==> ExpandFrom([m], [], Ladder(), depth) == Err(DepthExceeded)
    decreases 11 - depth
  {
    hide ExpandFrom, FlattenLevel, LevelEdges, FirstFailure;
    Bottom([m], [], Ladder(), depth);
    if depth <= 10 {
      NextRung(m, ref);
      assert [m][0] in [m] && m.id in ArcadeIds([m]);
      var next := FlattenLevel([m], Ladder());
      assert next == [next[0]];
      Descend([m], [], Ladder(), depth);
      if |ref| > 1 {
        LadderDepth(next[0], ref[1..], depth + 1);
      } else {
        assert ArcadeIds(next) == {};
        Bottom(next, [], Ladder(), depth + 1);
      }
    }
  }
}
