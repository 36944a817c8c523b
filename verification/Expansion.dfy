/** The level-by-level expansion of all Arcades (aqueduct/compiler/expander.py, `expand_arcades`). */
module Expansion {
  import opened Common
  import opened Digraph
  import opened Ast
  import opened Naming
  import opened Splice
  import opened Expander

  const MAX_DEPTH: nat := 10

  // ----- what one level does to the module list -----

  /** The modules that take the place of `m`. */
  function Replacement(m: Module, store: Store): seq<Module> {
    if m.kind != Arcade || m.ref.None? then [m] else
    match store(m.ref.value, m.contextOverride)
    case Parsed(bp) => NamespaceModules(m.id, bp.modules)
    case _ => [m]
  }

  function FlattenLevel(modules: seq<Module>, store: Store): seq<Module> {
    if modules == [] then [] else
    FlattenLevel(modules[..|modules| - 1], store) + Replacement(modules[|modules| - 1], store)
  }

  function ArcadeIds(modules: seq<Module>): set<Id> {
    set m | m in modules && m.kind == Arcade :: m.id
  }

  function PlainIds(modules: seq<Module>): set<Id> {
    set m | m in modules && m.kind != Arcade :: m.id
  }

  lemma {:induction false} PlainModulesStay(modules: seq<Module>, store: Store, m: Module)
    requires m in modules && m.kind != Arcade
    ensures m in FlattenLevel(modules, store)
  {
    var init, last := modules[..|modules| - 1], modules[|modules| - 1];
    assert modules == init + [last];
    if m in init {
      PlainModulesStay(init, store, m);
    } else {
      assert Replacement(last, store) == [m];
    }
  }

  // ----- the state between two levels -----

  /** The current graph at nesting level `depth`: Arcades still to expand carry exactly
      `depth` joins, nothing carries more. */
  ghost predicate LevelOk(modules: seq<Module>, edges: seq<Edge>, depth: nat) {
    && Distinct(Ids(modules))
    && (forall m :: m in modules ==> Joins(m.id) <= depth)
    && (forall m :: m in modules && m.kind == Arcade ==> Settled(m.id) && Joins(m.id) == depth)
    && (forall m, d :: m in modules && d in m.dependsOn ==> Joins(d) <= depth)
    && Within(EdgeArcs(edges), IdSet(modules))
    && Acyclic(AllArcs(modules, edges))
  }

  lemma ParsedIsLevelZero(bp: Blueprint)
    requires WellParsed(bp)
    ensures LevelOk(bp.modules, bp.edges, 0)
  {
    forall m | m in bp.modules ensures Joins(m.id) == 0 && Settled(m.id) {
      ScanName(m.id);
    }
    forall m, d | m in bp.modules && d in m.dependsOn ensures Joins(d) == 0 {
      assert (d, m.id) in AllArcs(bp.modules, bp.edges);
      var n :| n in bp.modules && n.id == d;
    }
    forall u, v | (u, v) in EdgeArcs(bp.edges) ensures u in IdSet(bp.modules) && v in IdSet(bp.modules) {
      assert (u, v) in AllArcs(bp.modules, bp.edges);
    }
  }

  // ----- the state inside one level -----

  /** Ids of the level that have not been expanded away after `i` modules. */
  function Surviving(modules: seq<Module>, i: nat): set<Id>
    requires i <= |modules|
  {
    IdSet(modules) - ArcadeIds(modules[..i])
  }

  /** A dependency of a processed module is processed too, unless an untouched module declares it. */
  ghost predicate DependenciesTracked(modules: seq<Module>, result: seq<Module>) {
    forall m, d :: m in result && d in m.dependsOn ==> d in IdSet(result) || (m in modules && m.kind != Arcade)
  }

  ghost predicate Midway(modules: seq<Module>, i: nat, result: seq<Module>, edges: seq<Edge>, edges0: seq<Edge>,
                         depth: nat)
    requires i <= |modules|
  {
    && Within(EdgeArcs(edges), IdSet(result + modules[i..]))
    && Acyclic(AllArcs(result + modules[i..], edges))
    && DependenciesTracked(modules, result)
    && (forall u, v :: u in Surviving(modules, i) && v in Surviving(modules, i) ==>
          (Reach(EdgeArcs(edges), u, v) <==> Reach(EdgeArcs(edges0), u, v)))
  }

  lemma KeepPlainModule(modules: seq<Module>, i: nat, result: seq<Module>, edges: seq<Edge>, edges0: seq<Edge>,
                        depth: nat)
    requires LevelOk(modules, edges0, depth) && i < |modules| && modules[i].kind != Arcade
    requires Midway(modules, i, result, edges, edges0, depth)
    ensures Midway(modules, i + 1, result + [modules[i]], edges, edges0, depth)
  {
    hide LevelOk, AllArcs, EdgeArcs, Within, Acyclic, Reach;
    assert (result + [modules[i]]) + modules[i + 1..] == result + modules[i..];
    assert modules[..i + 1] == modules[..i] + [modules[i]];
    assert ArcadeIds(modules[..i + 1]) == ArcadeIds(modules[..i]);
    assert IdSet(result) <= IdSet(result + [modules[i]]);
  }

  /** Images of the new children are used nowhere: they have one join more than every older
      id, and the final duplicate check separates them from their cousins. */
  lemma ImagesAreFresh(modules: seq<Module>, i: nat, result: seq<Module>, edges: seq<Edge>, edges0: seq<Edge>,
                       depth: nat, sub: Blueprint)
    requires LevelOk(modules, edges0, depth) && i < |modules| && modules[i].kind == Arcade && WellParsed(sub)
    requires Midway(modules, i, result, edges, edges0, depth)
    requires Distinct(Ids(result + NamespaceModules(modules[i].id, sub.modules)))
    ensures Fresh(AllArcs(result + modules[i..], edges), SiteOf(modules[i].id, sub))
    ensures forall x :: SiteOf(modules[i].id, sub).IsImage(x) ==> Joins(x) == depth + 1 && x !in IdSet(result)
  {
    var s, added := SiteOf(modules[i].id, sub), NamespaceModules(modules[i].id, sub.modules);
    forall x | s.IsImage(x) ensures Joins(x) == depth + 1 && x !in IdSet(result) {
      var c := s.Preimage(x);
      var k :| 0 <= k < |sub.modules| && sub.modules[k].id == c;
      JoinAddsOne(s.hub, c);
      assert added[k].id == x;
      forall m | m in result ensures m.id != x {
        var j :| 0 <= j < |result| && result[j] == m;
        var all := Ids(result + added);
        assert all[j] == m.id && all[|result| + k] == x;
      }
    }
    var live := result + modules[i..];
    forall x, y | (x, y) in AllArcs(live, edges)
      ensures Older(modules, result, depth, x) && Older(modules, result, depth, y)
    {
      LiveEndpoint(modules, i, result, edges, edges0, depth, x, y);
    }
  }

  ghost predicate Older(modules: seq<Module>, result: seq<Module>, depth: nat, x: Id) {
    Joins(x) <= depth || x in IdSet(result)
  }

  lemma LiveEndpoint(modules: seq<Module>, i: nat, result: seq<Module>, edges: seq<Edge>, edges0: seq<Edge>, depth: nat,
                     x: Id, y: Id)
    requires LevelOk(modules, edges0, depth) && i < |modules|
    requires Midway(modules, i, result, edges, edges0, depth)
    requires (x, y) in AllArcs(result + modules[i..], edges)
    ensures Older(modules, result, depth, x) && Older(modules, result, depth, y)
  {
  }

  lemma SpliceArcade(modules: seq<Module>, i: nat, result: seq<Module>, edges: seq<Edge>, edges0: seq<Edge>, depth: nat,
                     sub: Blueprint)
    requires LevelOk(modules, edges0, depth) && i < |modules| && modules[i].kind == Arcade
    requires WellParsed(sub) && ExitModules(sub) != []
    requires Midway(modules, i, result, edges, edges0, depth)
    requires Distinct(Ids(result + NamespaceModules(modules[i].id, sub.modules)))
    ensures Midway(modules, i + 1, result + NamespaceModules(modules[i].id, sub.modules),
                   EdgesAfter(modules[i].id, sub, edges), edges0, depth)
  {
    hide Site.Rooted, Site.Crossable, Reach, EntryModules, ExitModules, EdgesAfter, Fresh, IsSplice;
    var hub, s := modules[i].id, SiteOf(modules[i].id, sub);
    var after, result' := EdgesAfter(hub, sub, edges), result + NamespaceModules(hub, sub.modules);
    SiteIsValid(hub, sub);
    ImagesAreFresh(modules, i, result, edges, edges0, depth, sub);
    NoSelfLoop(AllArcs(result + modules[i..], edges), hub);
    ExpansionIsSplice(hub, sub, edges);
    SpliceStaysClosed(modules, i, result, edges, sub);
    SpliceStaysAcyclic(modules, i, result, edges, sub);
    NewDependencies(modules, result, hub, sub);
    forall u, v | u in Surviving(modules, i + 1) && v in Surviving(modules, i + 1)
      ensures Reach(EdgeArcs(after), u, v) <==> Reach(EdgeArcs(edges0), u, v)
    {
      SurvivorsSkipHub(modules, i, u);
      SurvivorsSkipHub(modules, i, v);
      SpliceReach(EdgeArcs(edges), s, EdgeArcs(after), u, v);
    }
  }

  lemma SurvivorsSkipHub(modules: seq<Module>, i: nat, u: Id)
    requires i < |modules| && modules[i].kind == Arcade && u in Surviving(modules, i + 1)
    ensures u in Surviving(modules, i) && u != modules[i].id && exists m :: m in modules && m.id == u
  {
  }

  lemma NewDependencies(modules: seq<Module>, result: seq<Module>, hub: Id, sub: Blueprint)
    requires WellParsed(sub) && DependenciesTracked(modules, result)
    ensures DependenciesTracked(modules, result + NamespaceModules(hub, sub.modules))
  {
    var result' := result + NamespaceModules(hub, sub.modules);
    assert IdSet(result') == IdSet(result) + IdSet(NamespaceModules(hub, sub.modules));
    forall m, d | m in result' && d in m.dependsOn ensures d in IdSet(result') || (m in modules && m.kind != Arcade) {
      if m !in result {
        ChildDependencies(hub, sub, m, d);
      }
    }
  }

  lemma NoSelfLoop(a: Arcs, u: Id)
    requires Acyclic(a)
    ensures (u, u) !in a
  {
    assert (u, u) in a ==> IsPath(a, u, u, [u, u]);
    assert (u, u) in a ==> OnCycle(a, u);
  }

  lemma ChildDependencies(hub: Id, sub: Blueprint, m: Module, d: Id)
    requires WellParsed(sub) && m in NamespaceModules(hub, sub.modules) && d in m.dependsOn
    ensures d in IdSet(NamespaceModules(hub, sub.modules))
    ensures exists c, e ::
              (c, e) in AllArcs(sub.modules, sub.edges) && d == Namespaced(hub, c) && m.id == Namespaced(hub, e)
  {
    var added := NamespaceModules(hub, sub.modules);
    var k :| 0 <= k < |added| && added[k] == m;
    var j :| 0 <= j < |m.dependsOn| && m.dependsOn[j] == d;
    var c := sub.modules[k].dependsOn[j];
    assert (c, sub.modules[k].id) in AllArcs(sub.modules, sub.edges);
    var n :| 0 <= n < |sub.modules| && sub.modules[n].id == c;
    assert added[n].id == d && added[n] in added;
  }

  lemma ImageIsChild(hub: Id, sub: Blueprint, x: Id)
    requires SiteOf(hub, sub).IsImage(x)
    ensures x in IdSet(NamespaceModules(hub, sub.modules))
  {
    var c := SiteOf(hub, sub).Preimage(x);
    var k :| 0 <= k < |sub.modules| && sub.modules[k].id == c;
    assert NamespaceModules(hub, sub.modules)[k].id == x;
  }

  lemma SpliceStaysClosed(modules: seq<Module>, i: nat, result: seq<Module>, edges: seq<Edge>, sub: Blueprint)
    requires i < |modules| && Within(EdgeArcs(edges), IdSet(result + modules[i..]))
    requires SiteOf(modules[i].id, sub).Valid()
    requires IsSplice(EdgeArcs(edges), SiteOf(modules[i].id, sub), EdgeArcs(EdgesAfter(modules[i].id, sub, edges)))
    requires (modules[i].id, modules[i].id) !in EdgeArcs(edges)
    ensures Within(EdgeArcs(EdgesAfter(modules[i].id, sub, edges)),
                   IdSet(result + NamespaceModules(modules[i].id, sub.modules) + modules[i + 1..]))
  {
    var s, added := SiteOf(modules[i].id, sub), NamespaceModules(modules[i].id, sub.modules);
    var live' := result + added + modules[i + 1..];
    forall x | s.IsImage(x) ensures x in IdSet(live') {
      ImageIsChild(modules[i].id, sub, x);
    }
    assert modules[i..] == [modules[i]] + modules[i + 1..];
    forall x | x in IdSet(result + modules[i..]) && x != s.hub ensures x in IdSet(live') {
    }
    forall x, y | (x, y) in EdgeArcs(EdgesAfter(modules[i].id, sub, edges))
      ensures x in IdSet(live') && y in IdSet(live')
    {
      assert SplicedArc(EdgeArcs(edges), s, x, y);
    }
  }

  lemma SpliceStaysAcyclic(modules: seq<Module>, i: nat, result: seq<Module>, edges: seq<Edge>, sub: Blueprint)
    requires i < |modules| && WellParsed(sub)
    requires SiteOf(modules[i].id, sub).Valid() && Acyclic(AllArcs(result + modules[i..], edges))
    requires Fresh(AllArcs(result + modules[i..], edges), SiteOf(modules[i].id, sub))
    requires IsSplice(EdgeArcs(edges), SiteOf(modules[i].id, sub), EdgeArcs(EdgesAfter(modules[i].id, sub, edges)))
    ensures Acyclic(AllArcs(result + NamespaceModules(modules[i].id, sub.modules) + modules[i + 1..],
                            EdgesAfter(modules[i].id, sub, edges)))
  {
    var hub, s, added := modules[i].id, SiteOf(modules[i].id, sub), NamespaceModules(modules[i].id, sub.modules);
    var full, inner := AllArcs(result + modules[i..], edges), AllArcs(sub.modules, sub.edges);
    var live' := result + added + modules[i + 1..];
    var full' := AllArcs(live', EdgesAfter(hub, sub, edges));
    forall x, y | (x, y) in full'
      ensures
        || (x, y) in full
        || (exists c, d :: (c, d) in inner && x == Namespaced(s.hub, c) && y == Namespaced(s.hub, d))
        || ((x, s.hub) in full && s.IsImage(y))
        || ((s.hub, y) in full && s.IsImage(x))
    {
      if (x, y) in EdgeArcs(EdgesAfter(hub, sub, edges)) {
        assert SplicedArc(EdgeArcs(edges), s, x, y);
      } else {
        var m, d :| m in live' && d in m.dependsOn && (d, m.id) == (x, y);
        if m in added {
          ChildDependencies(hub, sub, m, d);
        } else {
          assert m in result + modules[i..];
        }
      }
    }
    forall x | s.IsImage(x) ensures x != hub {
      assert |x| > |hub|;
    }
    var outer := AcyclicHasRank(full);
    var rank := SpliceKeepsRank(full, s, inner, full', outer);
    RankedIsAcyclic(full', rank);
  }

  // ----- one level -----

  function MissingKeys(required: seq<string>, given: map<string, string>): seq<string> {
    if required == [] then [] else
    var rest := MissingKeys(required[1..], given);
    if required[0] in given then rest else [required[0]] + rest
  }

  /** Why an Arcade cannot be expanded, if it cannot. */
  function Failure(m: Module, store: Store): Option<ExpandError> {
    if m.ref.None? || m.ref.value == "" then Some(MissingRef(m.id)) else
    match store(m.ref.value, m.contextOverride)
    case NotFound => Some(SubBlueprintNotFound(m.id))
    case Unparsable(message) => Some(SubBlueprintInvalid(m.id, message))
    case Parsed(sub) =>
      var missing := MissingKeys(sub.requiredContext, m.contextOverride);
      if missing != [] then Some(MissingContext(m.id, missing))
      else if EntryModules(sub) == [] then Some(NoEntryModules(m.id))
      else if ExitModules(sub) == [] then Some(NoExitModules(m.id))
      else None
  }

  /** The failure of the first Arcade that has one. */
  function FirstFailure(modules: seq<Module>, store: Store): Option<ExpandError> {
    if modules == [] then None else
    var earlier := FirstFailure(modules[..|modules| - 1], store);
    var last := modules[|modules| - 1];
    if earlier.Some? || last.kind != Arcade then earlier else Failure(last, store)
  }

  /** The required keys that are not passed down. */
  lemma {:induction false} MissingMeans(required: seq<string>, given: map<string, string>)
    ensures forall k :: k in MissingKeys(required, given) <==> k in required && k !in given
    ensures |MissingKeys(required, given)| <= |required|
  {
    if required != [] {
      MissingMeans(required[1..], given);
      assert required == [required[0]] + required[1..];
    }
  }

  /** Nothing stands in the way of expanding `m`: it has a reference, the reference loads, all required keys are
      passed down, and data can get in and out. */
  ghost predicate Expands(m: Module, store: Store) {
    && m.ref.Some? && m.ref.value != "" && store(m.ref.value, m.contextOverride).Parsed?
    && var sub := store(m.ref.value, m.contextOverride).bp;
       && (forall k :: k in sub.requiredContext ==> k in m.contextOverride)
       && (exists c :: IsEntry(sub, c)) && (exists c :: IsExit(sub, c))
  }

  /** An Arcade fails exactly when something does, and each failure says what: the earlier in the list, the earlier
      reported. */
  lemma FailureMeans(m: Module, store: Store)
    ensures Failure(m, store).None? <==> Expands(m, store)
    ensures Failure(m, store) == Some(MissingRef(m.id)) <==> m.ref.None? || m.ref.value == ""
    ensures Failure(m, store) == Some(SubBlueprintNotFound(m.id)) <==>
            m.ref.Some? && m.ref.value != "" && store(m.ref.value, m.contextOverride).NotFound?
    ensures forall text :: Failure(m, store) == Some(SubBlueprintInvalid(m.id, text)) <==>
              m.ref.Some? && m.ref.value != "" && store(m.ref.value, m.contextOverride) == Unparsable(text)
    ensures m.ref.Some? && m.ref.value != "" && store(m.ref.value, m.contextOverride).Parsed? ==>
              var sub := store(m.ref.value, m.contextOverride).bp;
              match Failure(m, store)
              case Some(MissingContext(id, keys)) =>
                && id == m.id && keys != []
                && forall k :: k in keys <==> k in sub.requiredContext && k !in m.contextOverride
              case Some(NoEntryModules(id)) =>
                && id == m.id && (forall k :: k in sub.requiredContext ==> k in m.contextOverride)
                && forall c :: !IsEntry(sub, c)
              case Some(NoExitModules(id)) =>
                && id == m.id && (forall k :: k in sub.requiredContext ==> k in m.contextOverride)
                && (exists c :: IsEntry(sub, c)) && forall c :: !IsExit(sub, c)
              case Some(_) => false
              case None => true
  {
    hide IsEntry, IsExit, EntryModules, ExitModules, MissingKeys;
    if m.ref.Some? && m.ref.value != "" && store(m.ref.value, m.contextOverride).Parsed? {
      var sub := store(m.ref.value, m.contextOverride).bp;
      MissingMeans(sub.requiredContext, m.contextOverride);
      EndsExist(sub);
      var missing := MissingKeys(sub.requiredContext, m.contextOverride);
      assert missing != [] ==> missing[0] in missing;
    }
  }

  /** The failure of a level is that of its first Arcade that has one. */
  lemma {:induction false} FirstFailureIsFirst(modules: seq<Module>, store: Store) returns (i: nat)
    requires FirstFailure(modules, store).Some?
    ensures i < |modules| && modules[i].kind == Arcade && Failure(modules[i], store) == FirstFailure(modules, store)
    ensures forall j :: 0 <= j < i && modules[j].kind == Arcade ==> Expands(modules[j], store)
  {
    hide Failure, Expands;
    var init, last := modules[..|modules| - 1], modules[|modules| - 1];
    if FirstFailure(init, store).Some? {
      i := FirstFailureIsFirst(init, store);
    } else {
      i := |modules| - 1;
      NoFailures(init, store);
      forall j | 0 <= j < i && modules[j].kind == Arcade ensures Expands(modules[j], store) {
        assert modules[j] == init[j] && init[j] in init;
        FailureMeans(modules[j], store);
      }
    }
  }

  lemma {:induction false} FlattenJoined(a: seq<Module>, b: seq<Module>, store: Store)
    ensures FlattenLevel(a + b, store) == FlattenLevel(a, store) + FlattenLevel(b, store)
    decreases |b|
  {
    hide Replacement;
    if b == [] {
      assert a + b == a;
    } else {
      assert (a + b)[..|a + b| - 1] == a + b[..|b| - 1];
      FlattenJoined(a, b[..|b| - 1], store);
    }
  }

  /** In the next level every module stands where it or its Arcade stood. */
  lemma LevelInOrder(modules: seq<Module>, i: nat, store: Store)
    requires i < |modules| && (modules[i].kind == Arcade ==> Expands(modules[i], store))
    ensures var m := modules[i];
            FlattenLevel(modules, store) ==
            FlattenLevel(modules[..i], store)
            + (if m.kind == Arcade then NamespaceModules(m.id, store(m.ref.value, m.contextOverride).bp.modules)
               else [m])
            + FlattenLevel(modules[i + 1..], store)
  {
    hide NamespaceModules, Expands, FlattenLevel;
    var m := modules[i];
    FlattenJoined(modules[..i], [m] + modules[i + 1..], store);
    FlattenJoined([m], modules[i + 1..], store);
    assert modules == modules[..i] + ([m] + modules[i + 1..]);
    FlattenOne(m, store);
  }

  lemma FlattenOne(m: Module, store: Store)
    ensures FlattenLevel([m], store) == Replacement(m, store)
    ensures m.kind != Arcade ==> Replacement(m, store) == [m]
    ensures m.kind == Arcade && Expands(m, store) ==>
              Replacement(m, store) == NamespaceModules(m.id, store(m.ref.value, m.contextOverride).bp.modules)
  {
    hide NamespaceModules, IsEntry, IsExit;
    assert [m][..0] == [];
    assert FlattenLevel([m], store) == [] + Replacement(m, store);
  }

  lemma {:induction false} NoFailures(modules: seq<Module>, store: Store)
    ensures FirstFailure(modules, store).None? <==>
            forall m :: m in modules && m.kind == Arcade ==> Failure(m, store).None?
  {
    if modules != [] {
      var init, last := modules[..|modules| - 1], modules[|modules| - 1];
      NoFailures(init, store);
      assert modules == init + [last];
    }
  }

  lemma {:induction false} FailureSticks(modules: seq<Module>, store: Store, i: nat)
    requires i <= |modules| && FirstFailure(modules[..i], store).Some?
    ensures FirstFailure(modules, store) == FirstFailure(modules[..i], store)
    decreases |modules|
  {
    if i < |modules| {
      assert modules[..|modules| - 1][..i] == modules[..i];
      FailureSticks(modules[..|modules| - 1], store, i);
    } else {
      assert modules[..i] == modules;
    }
  }

  /** Resolves one Arcade's reference, checks it, and expands it; the edge list comes back rewired. */
  method LoadAndExpand(m: Module, edges: seq<Edge>, store: Store)
    returns (r: Result<(seq<Module>, seq<Edge>), ExpandError>)
    requires ParserContract(store) && m.kind == Arcade
    ensures r.Ok? <==> Failure(m, store).None?
    ensures r.Err? ==> Failure(m, store) == Some(r.error)
    ensures r.Ok? ==>
              var sub := store(m.ref.value, m.contextOverride).bp;
              WellParsed(sub) && ExitModules(sub) != [] &&
              r.value == (NamespaceModules(m.id, sub.modules), EdgesAfter(m.id, sub, edges))
  {
    if m.ref.None? || m.ref.value == "" {
      return Err(MissingRef(m.id));
    }
    match store(m.ref.value, m.contextOverride)
    case NotFound => return Err(SubBlueprintNotFound(m.id));
    case Unparsable(message) => return Err(SubBlueprintInvalid(m.id, message));
    case Parsed(sub) =>
      var missing := MissingKeys(sub.requiredContext, m.contextOverride);
      if missing != [] {
        return Err(MissingContext(m.id, missing));
      }
      assert WellParsed(store(m.ref.value, m.contextOverride).bp);
      var expanded := ExpandSingle(m, sub, edges);
      if expanded.Err? {
        return Err(expanded.error);
      }
      return Ok((expanded.value.0, Untouched(m.id, edges) + expanded.value.1));
  }

  /** The parent's edge list after all Arcades of `modules` have been spliced, left to right. */
  function LevelEdges(modules: seq<Module>, edges0: seq<Edge>, store: Store): seq<Edge> {
    if modules == [] then edges0 else
    var before, m := LevelEdges(modules[..|modules| - 1], edges0, store), modules[|modules| - 1];
    if m.kind != Arcade || m.ref.None? then before else
    match store(m.ref.value, m.contextOverride)
    case Parsed(sub) => EdgesAfter(m.id, sub, before)
    case _ => before
  }

  lemma LevelStep(modules: seq<Module>, i: nat, edges0: seq<Edge>, store: Store)
    requires i < |modules| && FirstFailure(modules[..i], store).None?
    ensures FlattenLevel(modules[..i + 1], store) == FlattenLevel(modules[..i], store) + Replacement(modules[i], store)
    ensures modules[i].kind != Arcade ==>
              LevelEdges(modules[..i + 1], edges0, store) == LevelEdges(modules[..i], edges0, store)
              && FirstFailure(modules[..i + 1], store).None?
    ensures modules[i].kind == Arcade ==> FirstFailure(modules[..i + 1], store) == Failure(modules[i], store)
    ensures modules[i].kind == Arcade && Failure(modules[i], store).None? ==>
              var sub := store(modules[i].ref.value, modules[i].contextOverride).bp;
              && Replacement(modules[i], store) == NamespaceModules(modules[i].id, sub.modules)
              && LevelEdges(modules[..i + 1], edges0, store) ==
                 EdgesAfter(modules[i].id, sub, LevelEdges(modules[..i], edges0, store))
  {
    assert modules[..i + 1][..i] == modules[..i];
  }

  method ExpandLevel(modules: seq<Module>, edges0: seq<Edge>, store: Store)
    returns (r: Result<(seq<Module>, seq<Edge>), ExpandError>)
    requires ParserContract(store)
    ensures r.Ok? <==> FirstFailure(modules, store).None?
    ensures r.Err? ==> Some(r.error) == FirstFailure(modules, store)
    ensures r.Ok? ==> r.value == (FlattenLevel(modules, store), LevelEdges(modules, edges0, store))
  {
    var result: seq<Module>, edges := [], edges0;
    for i := 0 to |modules|
      invariant result == FlattenLevel(modules[..i], store) && edges == LevelEdges(modules[..i], edges0, store)
      invariant FirstFailure(modules[..i], store).None?
    {
      var m := modules[i];
      LevelStep(modules, i, edges0, store);
      if m.kind != Arcade {
        result := result + [m];
      } else {
        var expanded := LoadAndExpand(m, edges, store);
        if expanded.Err? {
          FailureSticks(modules, store, i + 1);
          return Err(expanded.error);
        }
        result, edges := result + expanded.value.0, expanded.value.1;
      }
    }
    assert modules[..|modules|] == modules;
    return Ok((result, edges));
  }

  /** What holds after `i` modules: unless two ids have already collided, the level is in order. */
  ghost predicate InProgress(modules: seq<Module>, i: nat, result: seq<Module>, edges: seq<Edge>, edges0: seq<Edge>,
                             depth: nat)
    requires i <= |modules|
  {
    LevelOk(modules, edges0, depth) && Distinct(Ids(result)) ==> Midway(modules, i, result, edges, edges0, depth)
  }

  lemma PlainStep(modules: seq<Module>, i: nat, result: seq<Module>, edges: seq<Edge>, edges0: seq<Edge>, depth: nat)
    requires i < |modules| && modules[i].kind != Arcade && InProgress(modules, i, result, edges, edges0, depth)
    ensures InProgress(modules, i + 1, result + [modules[i]], edges, edges0, depth)
  {
    if LevelOk(modules, edges0, depth) && Distinct(Ids(result + [modules[i]])) {
      DistinctIdsPrefix(result, [modules[i]]);
      KeepPlainModule(modules, i, result, edges, edges0, depth);
    }
  }

  lemma ArcadeStep(modules: seq<Module>, i: nat, result: seq<Module>, edges: seq<Edge>, edges0: seq<Edge>, depth: nat,
                   sub: Blueprint)
    requires i < |modules| && modules[i].kind == Arcade && InProgress(modules, i, result, edges, edges0, depth)
    requires WellParsed(sub) && ExitModules(sub) != []
    ensures InProgress(modules, i + 1, result + NamespaceModules(modules[i].id, sub.modules),
                       EdgesAfter(modules[i].id, sub, edges), edges0, depth)
  {
    var added := NamespaceModules(modules[i].id, sub.modules);
    if LevelOk(modules, edges0, depth) && Distinct(Ids(result + added)) {
      DistinctIdsPrefix(result, added);
      SpliceArcade(modules, i, result, edges, edges0, depth, sub);
    }
  }

  lemma LevelStart(modules: seq<Module>, edges0: seq<Edge>, depth: nat)
    ensures InProgress(modules, 0, [], edges0, edges0, depth)
  {
    assert [] + modules[0..] == modules;
  }

  lemma {:induction false} LevelInvariant(modules: seq<Module>, i: nat, edges0: seq<Edge>, store: Store, depth: nat)
    requires ParserContract(store) && FirstFailure(modules, store).None? && i <= |modules|
    ensures InProgress(modules, i, FlattenLevel(modules[..i], store), LevelEdges(modules[..i], edges0, store),
                       edges0, depth)
  {
    hide InProgress, NamespaceModules, EdgesAfter;
    if i == 0 {
      LevelStart(modules, edges0, depth);
    } else {
      LevelInvariant(modules, i - 1, edges0, store, depth);
      var m := modules[i - 1];
      assert modules[..i][..i - 1] == modules[..i - 1];
      var result, edges := FlattenLevel(modules[..i - 1], store), LevelEdges(modules[..i - 1], edges0, store);
      if m.kind != Arcade {
        PlainStep(modules, i - 1, result, edges, edges0, depth);
      } else {
        NoFailures(modules, store);
        assert Failure(m, store).None?;
        ArcadeStep(modules, i - 1, result, edges, edges0, depth, store(m.ref.value, m.contextOverride).bp);
      }
    }
  }

  lemma DistinctIdsPrefix(a: seq<Module>, b: seq<Module>)
    requires Distinct(Ids(a + b))
    ensures Distinct(Ids(a))
  {
    assert Ids(a + b) == Ids(a) + Ids(b);
    DistinctPrefix(Ids(a), Ids(b));
  }

  /** The first id that repeats an earlier one. */
  function FirstClash(ids: seq<Id>): (clash: Option<Id>)
    ensures clash.None? <==> Distinct(ids)
  {
    if ids == [] then None else
    var init, last := ids[..|ids| - 1], ids[|ids| - 1];
    var earlier := FirstClash(init);
    if earlier.Some? then earlier else if last in init then Some(last) else None
  }

  /** The reported id is the first that an earlier one equals. */
  lemma {:induction false} ClashMeans(ids: seq<Id>) returns (i: nat)
    requires FirstClash(ids).Some?
    ensures i < |ids| && FirstClash(ids) == Some(ids[i]) && ids[i] in ids[..i] && Distinct(ids[..i])
  {
    var init := ids[..|ids| - 1];
    if FirstClash(init).Some? {
      i := ClashMeans(init);
      assert init[..i] == ids[..i];
    } else {
      i := |ids| - 1;
    }
  }

  lemma {:induction false} ClashSticks(ids: seq<Id>, i: nat)
    requires i <= |ids| && FirstClash(ids[..i]).Some?
    ensures FirstClash(ids) == FirstClash(ids[..i])
    decreases |ids|
  {
    if i == |ids| {
      assert ids[..i] == ids;
    } else {
      assert ids[..|ids| - 1][..i] == ids[..i];
      ClashSticks(ids[..|ids| - 1], i);
    }
  }

  method CheckCollisions(modules: seq<Module>) returns (clash: Option<Id>)
    ensures clash == FirstClash(Ids(modules))
  {
    hide FirstClash;
    var seen: set<Id> := {};
    ghost var ids := Ids(modules);
    for i := 0 to |modules|
      invariant seen == Elems(ids[..i]) && FirstClash(ids[..i]).None?
    {
      ClashStep(ids, i);
      if modules[i].id in seen {
        ClashSticks(ids, i + 1);
        return Some(modules[i].id);
      }
      seen := seen + {modules[i].id};
    }
    assert ids[..|modules|] == ids;
    return None;
  }

  lemma ClashStep(ids: seq<Id>, i: nat)
    requires i < |ids| && FirstClash(ids[..i]).None?
    ensures FirstClash(ids[..i + 1]) == if ids[i] in ids[..i] then Some(ids[i]) else None
    ensures Elems(ids[..i + 1]) == Elems(ids[..i]) + {ids[i]}
  {
    assert ids[..i + 1][..i] == ids[..i];
    assert ids[..i + 1] == ids[..i] + [ids[i]];
  }

  // ----- all levels -----

  /** The whole recursion: level after level until no Arcade is left, an expansion fails, or two ids collide. */
  function ExpandFrom(modules: seq<Module>, edges: seq<Edge>, store: Store, depth: nat)
    : Result<(seq<Module>, seq<Edge>), ExpandError>
    decreases MAX_DEPTH + 1 - depth
  {
    if depth > MAX_DEPTH then Err(DepthExceeded)
    else if ArcadeIds(modules) == {} then Ok((modules, edges))
    else if FirstFailure(modules, store).Some? then Err(FirstFailure(modules, store).value)
    else
      var next := FlattenLevel(modules, store);
      var clash := FirstClash(Ids(next));
      if clash.Some? then Err(IdCollision(clash.value))
      else ExpandFrom(next, LevelEdges(modules, edges, store), store, depth + 1)
  }

  /** Some Arcade refers to one of `refs`. */
  predicate LeadsInto(modules: seq<Module>, refs: set<string>) {
    exists m :: m in modules && m.kind == Arcade && m.ref.Some? && m.ref.value in refs
  }

  /** Whatever one of the references loads refers to one of them again. */
  ghost predicate Circular(store: Store, refs: set<string>) {
    forall ref, given :: ref in refs && store(ref, given).Parsed? ==> LeadsInto(store(ref, given).bp.modules, refs)
  }

  /** Nesting without end, as in self-reference, is refused rather than followed, whatever other sub-Blueprints there
      are. */
  lemma {:induction false} EndlessNestingFails(modules: seq<Module>, edges: seq<Edge>, store: Store, refs: set<string>,
                                               depth: nat)
    requires Circular(store, refs) && LeadsInto(modules, refs)
    ensures ExpandFrom(modules, edges, store, depth).Err?
    decreases MAX_DEPTH + 1 - depth
  {
    hide Circular, FlattenLevel, LevelEdges, FirstFailure;
    var m :| m in modules && m.kind == Arcade && m.ref.Some? && m.ref.value in refs;
    assert m.id in ArcadeIds(modules);
    if depth <= MAX_DEPTH && FirstFailure(modules, store).None? {
      ArcadesLeadToArcades(modules, store, refs);
      EndlessNestingFails(FlattenLevel(modules, store), LevelEdges(modules, edges, store), store, refs, depth + 1);
    }
  }

  lemma ArcadesLeadToArcades(modules: seq<Module>, store: Store, refs: set<string>)
    requires Circular(store, refs) && LeadsInto(modules, refs) && FirstFailure(modules, store).None?
    ensures LeadsInto(FlattenLevel(modules, store), refs)
  {
    hide FlattenLevel, FirstFailure;
    var m :| m in modules && m.kind == Arcade && m.ref.Some? && m.ref.value in refs;
    NoFailures(modules, store);
    assert Failure(m, store).None?;
    var subs := store(m.ref.value, m.contextOverride).bp.modules;
    var c :| c in subs && c.kind == Arcade && c.ref.Some? && c.ref.value in refs;
    NestedArcadeStays(modules, store, m, c);
  }

  /** An Arcade inside an Arcade is there on the next level, under a new id. */
  lemma {:induction false} NestedArcadeStays(modules: seq<Module>, store: Store, m: Module, c: Module)
    requires m in modules && m.kind == Arcade && Failure(m, store).None?
    requires c in store(m.ref.value, m.contextOverride).bp.modules && c.kind == Arcade
    ensures exists n :: n in FlattenLevel(modules, store) && n.kind == Arcade && n.ref == c.ref
  {
    var init, last := modules[..|modules| - 1], modules[|modules| - 1];
    assert modules == init + [last];
    if last == m {
      var subs := store(m.ref.value, m.contextOverride).bp.modules;
      var k :| 0 <= k < |subs| && subs[k] == c;
      var image := NamespaceModules(m.id, subs)[k];
      assert image in FlattenLevel(modules, store) && image.kind == Arcade && image.ref == c.ref;
    } else {
      NestedArcadeStays(init, store, m, c);
      var n :| n in FlattenLevel(init, store) && n.kind == Arcade && n.ref == c.ref;
      assert n in FlattenLevel(modules, store);
    }
  }

  function SelfReferring(): Blueprint {
    Blueprint([Module("again", Arcade, [], None, None, Some("self"), map[])], [], [])
  }

  /** A Blueprint that loads itself, next to any other sub-Blueprints. */
  lemma SelfReferenceFails(store: Store)
    requires forall given :: store("self", given) == Parsed(SelfReferring())
    ensures ExpandFrom(SelfReferring().modules, [], store, 0).Err?
  {
    assert SelfReferring().modules[0] in SelfReferring().modules;
    EndlessNestingFails(SelfReferring().modules, [], store, {"self"}, 0);
  }

  /** What expansion promises about a level that was in order. */
  ghost predicate Expanded(modules: seq<Module>, edges: seq<Edge>, depth: nat, ms: seq<Module>, es: seq<Edge>) {
    && Distinct(Ids(ms))
    && Within(EdgeArcs(es), IdSet(ms)) && Acyclic(AllArcs(ms, es))
    && (forall u, v :: u in PlainIds(modules) && v in PlainIds(modules) ==>
          u in IdSet(ms) && (Reach(EdgeArcs(es), u, v) <==> Reach(EdgeArcs(edges), u, v)))
    && (forall x :: x in IdSet(ms) && Joins(x) <= depth ==> x in PlainIds(modules))
  }

  /** Where the modules of the next level come from. */
  ghost predicate Origins(modules: seq<Module>, result: seq<Module>, depth: nat) {
    forall m :: m in result ==> (m in modules && m.kind != Arcade) || (Settled(m.id) && Joins(m.id) == depth + 1)
  }

  lemma NextLevelIds(modules: seq<Module>, edges0: seq<Edge>, result: seq<Module>, depth: nat)
    requires LevelOk(modules, edges0, depth) && Origins(modules, result, depth) && DependenciesTracked(modules, result)
    ensures forall m :: m in result ==> Joins(m.id) <= depth + 1
    ensures forall m, d :: m in result && d in m.dependsOn ==> Joins(d) <= depth + 1
    ensures forall x :: x in IdSet(result) && Joins(x) <= depth ==> x in PlainIds(modules)
  {
    forall m, d | m in result && d in m.dependsOn ensures Joins(d) <= depth + 1 {
      if d in IdSet(result) {
        var n :| n in result && n.id == d;
      }
    }
  }

  /** Every module of the next level is a plain module of this one or has one more join. */
  lemma {:induction false} OriginsHold(modules: seq<Module>, store: Store, depth: nat)
    requires ParserContract(store) && FirstFailure(modules, store).None?
    requires forall m :: m in modules && m.kind == Arcade ==> Settled(m.id) && Joins(m.id) == depth
    ensures Origins(modules, FlattenLevel(modules, store), depth)
  {
    if modules != [] {
      var init, last := modules[..|modules| - 1], modules[|modules| - 1];
      assert modules == init + [last];
      OriginsHold(init, store, depth);
      if last.kind == Arcade {
        assert Failure(last, store).None?;
        ChildOrigins(last, store(last.ref.value, last.contextOverride).bp, depth);
      }
    }
  }

  lemma ChildOrigins(arcade: Module, sub: Blueprint, depth: nat)
    requires WellParsed(sub) && Settled(arcade.id) && Joins(arcade.id) == depth
    ensures forall x :: x in NamespaceModules(arcade.id, sub.modules) ==> Settled(x.id) && Joins(x.id) == depth + 1
  {
    var added := NamespaceModules(arcade.id, sub.modules);
    forall x | x in added ensures Settled(x.id) && Joins(x.id) == depth + 1 {
      var k :| 0 <= k < |added| && added[k] == x;
      assert sub.modules[k] in sub.modules;
      JoinAddsOne(arcade.id, sub.modules[k].id);
    }
  }

  lemma NextLevel(modules: seq<Module>, store: Store, result: seq<Module>, edges: seq<Edge>, edges0: seq<Edge>,
                  depth: nat)
    requires ParserContract(store) && LevelOk(modules, edges0, depth) && FirstFailure(modules, store).None?
    requires result == FlattenLevel(modules, store) && Distinct(Ids(result))
    requires Midway(modules, |modules|, result, edges, edges0, depth)
    ensures LevelOk(result, edges, depth + 1)
    ensures forall x :: x in IdSet(result) && Joins(x) <= depth ==> x in PlainIds(modules)
  {
    OriginsHold(modules, store, depth);
    NextLevelIds(modules, edges0, result, depth);
    assert result + modules[|modules|..] == result;
  }

  lemma PlainIdsPersist(modules: seq<Module>, store: Store)
    requires Distinct(Ids(modules))
    ensures PlainIds(modules) <= Surviving(modules, |modules|)
    ensures PlainIds(modules) <= PlainIds(FlattenLevel(modules, store))
  {
    assert modules[..|modules|] == modules;
    forall x | x in PlainIds(modules) ensures x in Surviving(modules, |modules|) {
      var m :| m in modules && m.kind != Arcade && m.id == x;
      PlainIsNotArcade(modules, m);
    }
    forall x | x in PlainIds(modules) ensures x in PlainIds(FlattenLevel(modules, store)) {
      var m :| m in modules && m.kind != Arcade && m.id == x;
      PlainModulesStay(modules, store, m);
    }
  }

  lemma PlainIsNotArcade(modules: seq<Module>, m: Module)
    requires Distinct(Ids(modules)) && m in modules && m.kind != Arcade
    ensures m.id !in ArcadeIds(modules)
  {
  }

  /** No module other than an Arcade depends on an Arcade. */
  ghost predicate PlainDependencies(modules: seq<Module>) {
    forall m, d :: m in modules && m.kind != Arcade && d in m.dependsOn ==> d !in ArcadeIds(modules)
  }

  /** `PlainDependencies` on this level and on every later one. */
  ghost predicate DependenciesSurvive(modules: seq<Module>, store: Store, depth: nat)
    decreases MAX_DEPTH + 1 - depth
  {
    || ArcadeIds(modules) == {}
    || (PlainDependencies(modules)
        && (depth < MAX_DEPTH ==> DependenciesSurvive(FlattenLevel(modules, store), store, depth + 1)))
  }

  ghost predicate DependenciesKnown(modules: seq<Module>) {
    forall m, d :: m in modules && d in m.dependsOn ==> d in IdSet(modules)
  }

  lemma DependenciesOneLevel(modules: seq<Module>, store: Store, result: seq<Module>)
    requires DependenciesKnown(modules) && result == FlattenLevel(modules, store)
    requires DependenciesTracked(modules, result)
    requires PlainDependencies(modules)
    ensures DependenciesKnown(result)
  {
    forall m, d | m in result && d in m.dependsOn ensures d in IdSet(result) {
      if m in modules && m.kind != Arcade {
        assert d in IdSet(modules) && d !in ArcadeIds(modules);
        var n :| n in modules && n.id == d;
        assert n.kind != Arcade;
        PlainModulesStay(modules, store, n);
      }
    }
  }

  /** A dependency on an Arcade dangles for good: its id is never issued again. */
  lemma DanglingStays(modules: seq<Module>, edges: seq<Edge>, depth: nat, ms: seq<Module>, es: seq<Edge>)
    requires LevelOk(modules, edges, depth) && Expanded(modules, edges, depth, ms, es)
    requires forall m :: m in modules && m.kind != Arcade ==> m in ms
    requires !PlainDependencies(modules)
    ensures !DependenciesKnown(ms)
  {
    var m, d :| m in modules && m.kind != Arcade && d in m.dependsOn && d in ArcadeIds(modules);
    if d in IdSet(ms) {
      assert d in PlainIds(modules);
      var n :| n in modules && n.kind != Arcade && n.id == d;
      PlainIsNotArcade(modules, n);
    }
    assert m in ms;
  }

  /** The contract of the recursion. */
  ghost predicate Outcome(modules: seq<Module>, edges: seq<Edge>, store: Store, depth: nat, ms: seq<Module>,
                          es: seq<Edge>)
  {
    && ArcadeIds(ms) == {} && depth <= MAX_DEPTH
    && (forall m :: m in modules && m.kind != Arcade ==> m in ms)
    && (Distinct(Ids(modules)) ==> Distinct(Ids(ms)))
    && (LevelOk(modules, edges, depth) ==> Expanded(modules, edges, depth, ms, es))
    && (LevelOk(modules, edges, depth) && DependenciesKnown(modules) ==>
          (DependenciesKnown(ms) <==> DependenciesSurvive(modules, store, depth)))
  }

  lemma NothingToExpand(modules: seq<Module>, edges: seq<Edge>, store: Store, depth: nat)
    requires ArcadeIds(modules) == {} && depth <= MAX_DEPTH
    ensures Outcome(modules, edges, store, depth, modules, edges)
  {
    assert forall m :: m in modules && m.kind == Arcade ==> m.id in ArcadeIds(modules);
    assert PlainIds(modules) == IdSet(modules);
  }

  lemma ComposeLevels(modules: seq<Module>, edges: seq<Edge>, result: seq<Module>, newEdges: seq<Edge>, depth: nat,
                      ms: seq<Module>, es: seq<Edge>)
    requires Midway(modules, |modules|, result, newEdges, edges, depth)
    requires PlainIds(modules) <= Surviving(modules, |modules|) && PlainIds(modules) <= PlainIds(result)
    requires forall x :: x in IdSet(result) && Joins(x) <= depth ==> x in PlainIds(modules)
    requires Expanded(result, newEdges, depth + 1, ms, es)
    ensures Expanded(modules, edges, depth, ms, es)
  {
  }

  lemma ComposeDependencies(modules: seq<Module>, edges: seq<Edge>, store: Store, result: seq<Module>,
                            newEdges: seq<Edge>, depth: nat, ms: seq<Module>, es: seq<Edge>)
    requires LevelOk(modules, edges, depth) && depth < MAX_DEPTH && ArcadeIds(modules) != {}
    requires result == FlattenLevel(modules, store) && DependenciesTracked(modules, result)
    requires Expanded(modules, edges, depth, ms, es) && DependenciesKnown(modules)
    requires forall m :: m in modules && m.kind != Arcade ==> m in ms
    requires DependenciesKnown(result) ==> (DependenciesKnown(ms) <==> DependenciesSurvive(result, store, depth + 1))
    ensures DependenciesKnown(ms) <==> DependenciesSurvive(modules, store, depth)
  {
    hide LevelOk, Expanded, DependenciesTracked, FlattenLevel, ArcadeIds, DependenciesKnown, PlainDependencies;
    if PlainDependencies(modules) {
      DependenciesOneLevel(modules, store, result);
    } else {
      DanglingStays(modules, edges, depth, ms, es);
    }
  }

  lemma OneMoreLevel(modules: seq<Module>, edges: seq<Edge>, store: Store, depth: nat, result: seq<Module>,
                     newEdges: seq<Edge>, ms: seq<Module>, es: seq<Edge>)
    requires ParserContract(store) && FirstFailure(modules, store).None? && ArcadeIds(modules) != {}
    requires result == FlattenLevel(modules, store) && Distinct(Ids(result))
    requires newEdges == LevelEdges(modules, edges, store)
    requires Outcome(result, newEdges, store, depth + 1, ms, es)
    ensures Outcome(modules, edges, store, depth, ms, es)
  {
    forall m | m in modules && m.kind != Arcade ensures m in ms {
      PlainModulesStay(modules, store, m);
    }
    if LevelOk(modules, edges, depth) {
      LevelInvariant(modules, |modules|, edges, store, depth);
      assert modules[..|modules|] == modules;
      NextLevel(modules, store, result, newEdges, edges, depth);
      PlainIdsPersist(modules, store);
      ComposeLevels(modules, edges, result, newEdges, depth, ms, es);
      if DependenciesKnown(modules) {
        ComposeDependencies(modules, edges, store, result, newEdges, depth, ms, es);
      }
    }
  }

  /** Every successful expansion keeps it. */
  lemma {:induction false} OutcomeHolds(modules: seq<Module>, edges: seq<Edge>, store: Store, depth: nat)
    requires ParserContract(store)
    ensures match ExpandFrom(modules, edges, store, depth)
            case Ok((ms, es)) => Outcome(modules, edges, store, depth, ms, es)
            case Err(_) => true
    decreases MAX_DEPTH + 1 - depth
  {
    hide Outcome, FirstFailure, FlattenLevel, LevelEdges, ArcadeIds;
    if depth <= MAX_DEPTH {
      if ArcadeIds(modules) == {} {
        NothingToExpand(modules, edges, store, depth);
      } else {
        var next, edges' := FlattenLevel(modules, store), LevelEdges(modules, edges, store);
        OutcomeHolds(next, edges', store, depth + 1);
        if ExpandFrom(modules, edges, store, depth).Ok? {
          var (ms, es) := ExpandFrom(modules, edges, store, depth).value;
          OneMoreLevel(modules, edges, store, depth, next, edges', ms, es);
        }
      }
    }
  }

  method ExpandRecursive(modules: seq<Module>, edges: seq<Edge>, store: Store, depth: nat)
    returns (r: Result<(seq<Module>, seq<Edge>), ExpandError>)
    requires ParserContract(store)
    ensures r == ExpandFrom(modules, edges, store, depth)
    ensures r.Ok? ==> Outcome(modules, edges, store, depth, r.value.0, r.value.1)
    decreases MAX_DEPTH + 1 - depth
  {
    hide Outcome, FirstFailure, FlattenLevel, LevelEdges, FirstClash, ArcadeIds;
    OutcomeHolds(modules, edges, store, depth);
    if depth > MAX_DEPTH {
      return Err(DepthExceeded);
    }
    if ArcadeIds(modules) == {} {
      return Ok((modules, edges));
    }
    var level := ExpandLevel(modules, edges, store);
    if level.Err? {
      return Err(level.error);
    }
    var (result, newEdges) := level.value;
    var clash := CheckCollisions(result);
    if clash.Some? {
      return Err(IdCollision(clash.value));
    }
    r := ExpandRecursive(result, newEdges, store, depth + 1);
  }

  /** `expand_arcades`: the entry point, on a Blueprint the parser accepted. */
  method ExpandArcades(bp: Blueprint, store: Store) returns (r: Result<(seq<Module>, seq<Edge>), ExpandError>)
    requires WellParsed(bp) && ParserContract(store)
    // flat, unambiguous, closed and acyclic
    ensures r == ExpandFrom(bp.modules, bp.edges, store, 0)
    ensures r.Ok? ==> ArcadeIds(r.value.0) == {} && Distinct(Ids(r.value.0))
    ensures r.Ok? ==> Within(EdgeArcs(r.value.1), IdSet(r.value.0)) && Acyclic(AllArcs(r.value.0, r.value.1))
    // reachability between the modules of the Blueprint is what it was
    ensures r.Ok? ==> forall m :: m in bp.modules && m.kind != Arcade ==> m in r.value.0
    ensures r.Ok? ==> forall u, v :: u in PlainIds(bp.modules) && v in PlainIds(bp.modules) ==>
              (Reach(EdgeArcs(r.value.1), u, v) <==> Reach(EdgeArcs(bp.edges), u, v))
    // a `depends_on` is left dangling exactly when some module depends on an Arcade
    ensures r.Ok? ==> (DependenciesKnown(r.value.0) <==> DependenciesSurvive(bp.modules, store, 0))
  {
    ParsedIsLevelZero(bp);
    forall m, d | m in bp.modules && d in m.dependsOn ensures d in IdSet(bp.modules) {
      assert (d, m.id) in AllArcs(bp.modules, bp.edges);
    }
    r := ExpandRecursive(bp.modules, bp.edges, store, 0);
  }
}
