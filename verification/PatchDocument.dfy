/**
 * A Blueprint in memory and the operations that change it in place (aqueduct/patch/operations.py). Edge specs and
 * context values are stored uncopied, so an operation may write into the patch that an earlier one came from; how
 * far is part of the contracts.
 */
module PatchDocument {
  import opened Common
  import opened PatchModel
  import opened PatchSharing
  import opened SharedDicts

  class EdgeCell {
    var fields: Fields

    constructor (fields: Fields)
      ensures this.fields == fields
    {
      this.fields := fields;
    }

    method Redirect(newFrom: Option<string>, newTo: Option<string>, newPort: Option<string>)
      modifies `fields
      ensures forall from, to ::
                fields == PatchModel.Redirect(old(fields), Op.ReplaceEdge(from, to, newFrom, newTo, newPort))
    {
      if newFrom.Some? {
        fields := fields["from" := Str(newFrom.value)];
      }
      if newTo.Some? {
        fields := fields["to" := Str(newTo.value)];
      }
      if newPort.Some? {
        fields := fields["port" := Str(newPort.value)];
      }
    }
  }

  ghost function EdgeViews(cells: seq<EdgeCell>): (views: seq<Fields>)
    reads cells
    ensures |views| == |cells| && forall i :: 0 <= i < |cells| ==> views[i] == cells[i].fields
  {
    seq(|cells|, i requires 0 <= i < |cells| reads cells => cells[i].fields)
  }

  lemma EdgeViewsAppend(a: seq<EdgeCell>, b: seq<EdgeCell>)
    ensures EdgeViews(a + b) == EdgeViews(a) + EdgeViews(b)
  {
  }

  ghost function EdgesView(cells: Option<seq<EdgeCell>>): Option<seq<Fields>>
    reads OrEmpty(cells)
  {
    match cells case None => None case Some(s) => Some(EdgeViews(s))
  }

  // ----- the patch -----

  type HeapOp = Op<EdgeCell, Node>

  function EdgesOf(op: HeapOp): seq<EdgeCell> {
    match op
    case InsertModule(_, add, _) => add
    case RemoveModule(_, add) => add
    case AddProbe(_, add) => add
    case AddArcadeRef(_, add, _) => add
    case _ => []
  }

  function ContentOf(op: HeapOp): Node {
    match op case ReplaceContextValue(_, content) => content case _ => Plain(Null)
  }

  /** What the operation says now. */
  ghost function EditOf(op: HeapOp): Edit
    reads EdgesOf(op), if ContentOf(op).Ref? then {ContentOf(op).cell} else {}
  {
    match op
    case ReplaceModuleConfig(id, config) => ReplaceModuleConfig(id, config)
    case SetModuleConfigKey(id, key, v) => SetModuleConfigKey(id, key, v)
    case ReplaceModuleLabel(id, text) => ReplaceModuleLabel(id, text)
    case InsertModule(mod, add, remove) => InsertModule(mod, EdgeViews(add), remove)
    case RemoveModule(id, add) => RemoveModule(id, EdgeViews(add))
    case ReplaceContextValue(key, content) => ReplaceContextValue(key, Meaning(content))
    case AddProbe(mod, add) => AddProbe(mod, EdgeViews(add))
    case ReplaceEdge(from, to, newFrom, newTo, newPort) => ReplaceEdge(from, to, newFrom, newTo, newPort)
    case SetModuleOnFailure(id, policy) => SetModuleOnFailure(id, policy)
    case ReplaceRetryPolicy(policy) => ReplaceRetryPolicy(policy)
    case AddArcadeRef(mod, add, remove) => AddArcadeRef(mod, EdgeViews(add), remove)
    case DeferToHuman => DeferToHuman
    case SetSparkConfig(key, v) => SetSparkConfig(key, v)
  }

  /** The context key that an operation writes. */
  function MarkOf(op: HeapOp): set<seq<string>> {
    if op.ReplaceContextValue? then {Split(op.key)} else {}
  }

  // ----- searching and filtering edges -----

  method FindModuleIndex(ms: seq<Fields>, id: Value) returns (k: nat)
    ensures k == FindModule(ms, id)
  {
    hide FindModule, HasId;
    k := 0;
    while k < |ms| && !HasId(ms[k], id)
      invariant k <= |ms| && forall i :: 0 <= i < k ==> !HasId(ms[i], id)
    {
      k := k + 1;
    }
  }

  method FindEdgeIndex(cells: seq<EdgeCell>, from: Value, to: Value) returns (k: nat)
    ensures k == FindEdge(EdgeViews(cells), from, to)
  {
    hide FindEdge, Joins;
    k := 0;
    while k < |cells| && !Joins(cells[k].fields, from, to)
      invariant k <= |cells| && forall i :: 0 <= i < k ==> !Joins(EdgeViews(cells)[i], from, to)
    {
      k := k + 1;
    }
  }

  /** The edges that do not lead from `from` to `to`, in order. */
  function NotJoining(cells: seq<EdgeCell>, from: Value, to: Value): (r: seq<EdgeCell>)
    reads cells
    ensures forall e :: e in r ==> e in cells
  {
    if cells == [] then [] else
    var init, last := NotJoining(cells[..|cells| - 1], from, to), cells[|cells| - 1];
    if Joins(last.fields, from, to) then init else init + [last]
  }

  /** The edges that neither start nor end at `id`, in order. */
  function NotMentioning(cells: seq<EdgeCell>, id: Value): (r: seq<EdgeCell>)
    reads cells
    ensures forall e :: e in r ==> e in cells
  {
    if cells == [] then [] else
    var init, last := NotMentioning(cells[..|cells| - 1], id), cells[|cells| - 1];
    if Mentions(last.fields, id) then init else init + [last]
  }

  lemma {:induction false} NotJoiningViews(cells: seq<EdgeCell>, from: Value, to: Value)
    ensures EdgeViews(NotJoining(cells, from, to)) == WithoutJoining(EdgeViews(cells), from, to)
    ensures Distinct(cells) ==> Distinct(NotJoining(cells, from, to))
  {
    hide Joins;
    if cells != [] {
      var init, last := cells[..|cells| - 1], cells[|cells| - 1];
      NotJoiningViews(init, from, to);
      assert EdgeViews(cells)[..|cells| - 1] == EdgeViews(init);
      EdgeViewsAppend(NotJoining(init, from, to), [last]);
      assert EdgeViews([last]) == [last.fields];
      assert Distinct(cells) ==> Distinct(init) && last !in init;
    }
  }

  lemma {:induction false} NotMentioningViews(cells: seq<EdgeCell>, id: Value)
    ensures EdgeViews(NotMentioning(cells, id)) == WithoutMentioning(EdgeViews(cells), id)
    ensures Distinct(cells) ==> Distinct(NotMentioning(cells, id))
  {
    hide Mentions;
    if cells != [] {
      var init, last := cells[..|cells| - 1], cells[|cells| - 1];
      NotMentioningViews(init, id);
      assert EdgeViews(cells)[..|cells| - 1] == EdgeViews(init);
      EdgeViewsAppend(NotMentioning(init, id), [last]);
      assert EdgeViews([last]) == [last.fields];
      assert Distinct(cells) ==> Distinct(init) && last !in init;
    }
  }

  lemma {:induction false} NotJoiningAppend(a: seq<EdgeCell>, b: seq<EdgeCell>, from: Value, to: Value)
    ensures NotJoining(a + b, from, to) == NotJoining(a, from, to) + NotJoining(b, from, to)
    decreases |b|
  {
    hide Joins;
    if b == [] {
      assert a + b == a;
    } else {
      assert (a + b)[..|a + b| - 1] == a + b[..|b| - 1];
      NotJoiningAppend(a, b[..|b| - 1], from, to);
    }
  }

  lemma {:induction false} NotMentioningAppend(a: seq<EdgeCell>, b: seq<EdgeCell>, id: Value)
    ensures NotMentioning(a + b, id) == NotMentioning(a, id) + NotMentioning(b, id)
    decreases |b|
  {
    hide Mentions;
    if b == [] {
      assert a + b == a;
    } else {
      assert (a + b)[..|a + b| - 1] == a + b[..|b| - 1];
      NotMentioningAppend(a, b[..|b| - 1], id);
    }
  }

  /** The edges that no spec removes. */
  function DropCells(cells: seq<EdgeCell>, specs: seq<Fields>): (r: seq<EdgeCell>)
    reads cells
    ensures forall e :: e in r ==> e in cells
    decreases |specs|
  {
    if specs == [] then cells else
    var spec := specs[|specs| - 1];
    var before := DropCells(cells, specs[..|specs| - 1]);
    assert forall i :: 0 <= i < |before| ==> before[i] in cells;
    NotJoining(before, Get(spec, "from"), Get(spec, "to"))
  }

  lemma NothingDropped(cells: seq<EdgeCell>, specs: seq<Fields>)
    requires specs == []
    ensures DropCells(cells, specs) == cells
  {
  }

  lemma OneMoreDropped(cells: seq<EdgeCell>, specs: seq<Fields>, i: nat)
    requires i < |specs|
    ensures DropCells(cells, specs[..i + 1])
            == NotJoining(DropCells(cells, specs[..i]), Get(specs[i], "from"), Get(specs[i], "to"))
  {
    assert specs[..i + 1][..i] == specs[..i];
  }

  lemma {:induction false} DropCellsViews(cells: seq<EdgeCell>, specs: seq<Fields>)
    ensures EdgeViews(DropCells(cells, specs)) == Dropped(EdgeViews(cells), specs)
    decreases |specs|
  {
    hide NotJoining;
    if specs != [] {
      var init, spec := specs[..|specs| - 1], specs[|specs| - 1];
      DropCellsViews(cells, init);
      NotJoiningViews(DropCells(cells, init), Get(spec, "from"), Get(spec, "to"));
    }
  }

  lemma {:induction false} DropCellsAppend(a: seq<EdgeCell>, b: seq<EdgeCell>, specs: seq<Fields>)
    ensures DropCells(a + b, specs) == DropCells(a, specs) + DropCells(b, specs)
    decreases |specs|
  {
    hide NotJoining;
    if specs != [] {
      var init, spec := specs[..|specs| - 1], specs[|specs| - 1];
      DropCellsAppend(a, b, init);
      NotJoiningAppend(DropCells(a, init), DropCells(b, init), Get(spec, "from"), Get(spec, "to"));
    }
  }

  /** The edges after an operation: some of those before, then those it adds. */
  function CellsAfter(cells: seq<EdgeCell>, op: HeapOp): (r: seq<EdgeCell>)
    reads cells
    ensures forall e :: e in r ==> e in cells || e in EdgesOf(op)
  {
    match op
    case InsertModule(_, add, remove) => DropCells(cells, remove) + add
    case AddArcadeRef(_, add, remove) => DropCells(cells, remove) + add
    case AddProbe(_, add) => cells + add
    case RemoveModule(id, add) => NotMentioning(cells, Str(id)) + add
    case _ => cells
  }

  // ----- what belongs to the patch -----

  /** The patch owns exactly the edges behind the first `own`. */
  ghost predicate OwnFirst(cells: seq<EdgeCell>, own: nat, patch: set<EdgeCell>) {
    own <= |cells| && forall t :: 0 <= t < |cells| ==> (cells[t] in patch <==> t >= own)
  }

  lemma OwnFirstJoin(first: seq<EdgeCell>, rest: seq<EdgeCell>, patch: set<EdgeCell>)
    requires (forall e :: e in first ==> e !in patch) && forall e :: e in rest ==> e in patch
    ensures OwnFirst(first + rest, |first|, patch)
  {
  }

  lemma OwnAfterDrop(cells: seq<EdgeCell>, own: nat, specs: seq<Fields>, add: seq<EdgeCell>, patch: set<EdgeCell>)
    requires OwnFirst(cells, own, patch) && Elems(add) <= patch
    ensures OwnFirst(DropCells(cells, specs) + add, |Dropped(EdgeViews(cells)[..own], specs)|, patch)
  {
    hide DropCells, Dropped;
    var first, rest := cells[..own], cells[own..];
    assert cells == first + rest && EdgeViews(cells)[..own] == EdgeViews(first);
    DropCellsAppend(first, rest, specs);
    DropCellsViews(first, specs);
    var left, right := DropCells(first, specs), DropCells(rest, specs);
    OwnFirstJoin(left, right + add, patch);
    assert DropCells(cells, specs) + add == left + (right + add);
  }

  lemma OwnAfterRemoval(cells: seq<EdgeCell>, own: nat, id: Value, add: seq<EdgeCell>, patch: set<EdgeCell>)
    requires OwnFirst(cells, own, patch) && Elems(add) <= patch
    ensures OwnFirst(NotMentioning(cells, id) + add, |WithoutMentioning(EdgeViews(cells)[..own], id)|, patch)
  {
    hide NotMentioning, WithoutMentioning;
    var first, rest := cells[..own], cells[own..];
    assert cells == first + rest && EdgeViews(cells)[..own] == EdgeViews(first);
    NotMentioningAppend(first, rest, id);
    NotMentioningViews(first, id);
    var left, right := NotMentioning(first, id), NotMentioning(rest, id);
    OwnFirstJoin(left, right + add, patch);
    assert NotMentioning(cells, id) + add == left + (right + add);
  }

  /** This stays so, and the number of the Blueprint's own edges can be read off the values. */
  lemma OwnStaysFirst(cells: seq<EdgeCell>, own: nat, op: HeapOp, patch: set<EdgeCell>)
    requires OwnFirst(cells, own, patch) && Elems(EdgesOf(op)) <= patch
    ensures OwnFirst(CellsAfter(cells, op), StillThere(EdgeViews(cells), own, EditOf(op)), patch)
  {
    hide DropCells, NotMentioning, Dropped, WithoutMentioning;
    match op
    case InsertModule(_, add, remove) => OwnAfterDrop(cells, own, remove, add, patch);
    case AddArcadeRef(_, add, remove) => OwnAfterDrop(cells, own, remove, add, patch);
    case AddProbe(_, add) => assert forall e :: e in add ==> e in patch;
    case RemoveModule(id, add) => OwnAfterRemoval(cells, own, Str(id), add, patch);
    case _ =>
  }

  lemma OneWayToWrite(d: Doc, own: nat, keys: set<seq<string>>, op: Edit)
    ensures RewiresInserted(d, own, op) ==> op.ReplaceEdge?
    ensures StoresBelow(d, keys, op) ==> op.ReplaceContextValue?
  {
    hide FindEdge, Redirect, Lookup, Split;
  }

  /** A value that is apart from a dictionary is not in it. */
  lemma KeptApart(h: DictCell, n: Node, key: string)
    requires h.Valid() && Sound(n) && Repr(n) !! h.repr
    ensures n.Ref? && key in h.entries ==> h.entries[key] != n
  {
    if n.Ref? && key in h.entries {
      Child(h, key);
      Shape(n.cell);
    }
  }

  /** In the context `n`, what lies at or below the keys in `marks` belongs to the patch, and nothing else does. */
  ghost predicate Marked(n: Node, patch: set<DictCell>, marks: set<seq<string>>)
    requires Sound(n)
    reads if n.Ref? then {n.cell} + n.cell.repr else {}
  {
    n.Ref? ==>
      forall p :: Walk(n.cell, p).Some? ==> (Walk(n.cell, p).value in patch <==> IsMarked(p, marks))
  }

  ghost predicate IsMarked(path: seq<string>, marks: set<seq<string>>) {
    exists m :: m in marks && Starts(path, m)
  }

  lemma OneMoreMark(path: seq<string>, marks: set<seq<string>>, m: seq<string>)
    ensures IsMarked(path, marks + {m}) <==> IsMarked(path, marks) || Starts(path, m)
  {
    hide Starts;
    if Starts(path, m) {
      assert m in marks + {m};
    }
  }

  /** A write below `c` goes into the patch exactly when its key extends a marked one. */
  lemma EntersPatch(n: Node, patch: set<DictCell>, marks: set<seq<string>>, parts: seq<string>)
    requires Sound(n) && n.Ref? && Marked(n, patch, marks) && parts != [] && Holder(n.cell, parts).Some?
    ensures Holder(n.cell, parts).value in patch <==> exists m :: m in marks && m < parts
    ensures Holder(n.cell, parts).value !in patch ==> forall x :: x in Chain(n.cell, parts) ==> x !in patch
  {
    hide DictCell.Valid, Walk, Chain, Starts, Holder;
    var above := parts[..|parts| - 1];
    HolderIsWalked(n.cell, parts);
    forall m | m in marks ensures Starts(above, m) <==> m < parts {
      StartsIsPrefix(above, m);
      assert m <= above ==> m <= parts;
      assert m < parts ==> m == parts[..|m|] == above[..|m|];
    }
    forall x | x in Chain(n.cell, parts) && x in patch ensures Holder(n.cell, parts).value in patch {
      var i := ChainIsWalked(n.cell, parts, x);
      var m :| m in marks && Starts(parts[..i], m);
      StartsIsPrefix(parts[..i], m);
      StartsIsPrefix(above, m);
      assert m == parts[..i][..|m|] == above[..|m|];
    }
  }

  // ----- the document -----

  class BlueprintDoc {
    var modules: Option<seq<Fields>>
    var edges: Option<seq<EdgeCell>>
    var context: Option<Node>
    var rest: Fields

    ghost function ContextNode(): Node
      reads this`context
    {
      if context.Some? then context.value else Plain(Null)
    }

    ghost function ContextCell(): set<DictCell>
      reads this`context
    {
      if ContextNode().Ref? then {ContextNode().cell} else {}
    }

    /** The dictionaries that make up the context. */
    ghost function Dicts(): set<DictCell>
      reads this`context, ContextCell()
    {
      Repr(ContextNode())
    }

    ghost predicate Valid()
      reads this, ContextCell(), Dicts()
    {
      Distinct(OrEmpty(edges)) && Sound(ContextNode())
    }

    ghost function View(): Doc
      reads this, OrEmpty(edges), ContextCell()
    {
      Doc(modules, EdgesView(edges), if context.Some? then Some(Meaning(context.value)) else None, rest)
    }

    constructor (modules: Option<seq<Fields>>, edges: Option<seq<EdgeCell>>, context: Option<Node>, rest: Fields)
      ensures this.modules == modules && this.edges == edges && this.context == context && this.rest == rest
    {
      this.modules, this.edges, this.context, this.rest := modules, edges, context, rest;
    }

    /** The method did what the operation means, or failed as it should. */
    ghost predicate Did(before: Doc, edit: Edit, failure: Option<Failure>)
      reads this, OrEmpty(edges), ContextCell()
    {
      match ApplyOp(before, edit)
      case Ok(d) => failure.None? && View() == d
      case Err(e) => failure == Some(e)
    }

    /** `_find_module`, then one key of it assigned. */
    method PutInModule(id: string, field: string, v: Value) returns (failure: Option<Failure>)
      modifies this`modules
      ensures match EditModule(old(View()), id, PutField(field, v))
              case Ok(d) => failure.None? && View() == d
              case Err(e) => failure == Some(e) && modules == old(modules)
    {
      var ms := OrEmpty(modules);
      var k := FindModuleIndex(ms, Str(id));
      if k == |ms| {
        return Some(ModuleNotFound);
      }
      modules := Some(ms[k := ms[k][field := v]]);
      return None;
    }

    /** `apply_replace_module_config` */
    method ReplaceModuleConfig(id: string, config: Fields) returns (failure: Option<Failure>)
      modifies this`modules
      ensures Did(old(View()), Op.ReplaceModuleConfig(id, config), failure)
    {
      hide EditModule;
      failure := PutInModule(id, "config", Dict(config));
    }

    /** `apply_replace_module_label` */
    method ReplaceModuleLabel(id: string, text: string) returns (failure: Option<Failure>)
      modifies this`modules
      ensures Did(old(View()), Op.ReplaceModuleLabel(id, text), failure)
    {
      hide EditModule;
      failure := PutInModule(id, "label", Str(text));
    }

    /** `apply_set_module_on_failure` */
    method SetModuleOnFailure(id: string, policy: Fields) returns (failure: Option<Failure>)
      modifies this`modules
      ensures Did(old(View()), Op.SetModuleOnFailure(id, policy), failure)
    {
      hide EditModule;
      failure := PutInModule(id, "on_failure", Dict(policy));
    }

    /** `apply_set_module_config_key` */
    method SetModuleConfigKey(id: string, key: string, v: Value) returns (failure: Option<Failure>)
      modifies this`modules
      ensures Did(old(View()), Op.SetModuleConfigKey(id, key, v), failure)
    {
      hide FindModule, SetNestedIn;
      var ms := OrEmpty(modules);
      var k := FindModuleIndex(ms, Str(id));
      if k == |ms| {
        return Some(ModuleNotFound);
      }
      var config := SetNestedIn(if Get(ms[k], "config").Null? then Dict(map[]) else ms[k]["config"], key, v);
      if config.Err? {
        return Some(config.error);
      }
      modules := Some(ms[k := ms[k]["config" := config.value]]);
      return None;
    }

    /** `apply_replace_retry_policy` */
    method ReplaceRetryPolicy(policy: Fields) returns (failure: Option<Failure>)
      modifies this`rest
      ensures Did(old(View()), Op.ReplaceRetryPolicy(policy), failure)
    {
      rest := rest["retry_policy" := Dict(policy)];
      failure := None;
    }

    /** `apply_set_spark_config` */
    method SetSparkConfig(key: string, v: Value) returns (failure: Option<Failure>)
      modifies this`rest
      ensures Did(old(View()), Op.SetSparkConfig(key, v), failure)
    {
      var block := if "spark_config" in rest then rest["spark_config"] else Dict(map[]);
      if !block.Dict? {
        return Some(Crash);
      }
      rest := rest["spark_config" := Dict(block.fields[key := v])];
      failure := None;
    }

    /** `apply_defer_to_human` */
    method DeferToHuman() returns (failure: Option<Failure>)
      ensures Did(old(View()), Op.DeferToHuman, failure)
    {
      failure := None;
    }

    /** `_remove_edges_matching` */
    method RemoveEdgesMatching(specs: seq<Fields>) returns (failure: Option<Failure>)
      requires Distinct(OrEmpty(edges))
      modifies this`edges
      ensures match RemoveEdges(old(EdgesView(edges)), specs)
              case Ok(es) => failure.None? && EdgesView(edges) == es
              case Err(e) => failure == Some(e)
      ensures failure.None? ==> OrEmpty(edges) == old(DropCells(OrEmpty(edges), specs))
      ensures Distinct(OrEmpty(edges)) && forall e :: e in OrEmpty(edges) ==> e in old(OrEmpty(edges))
    {
      hide NotJoining, WithoutJoining, DropCells;
      assert specs[..|specs|] == specs;
      NothingDropped(OrEmpty(edges), specs[..0]);
      for i := 0 to |specs|
        invariant RemoveEdges(old(EdgesView(edges)), specs[..i]) == Ok(EdgesView(edges))
        invariant OrEmpty(edges) == old(DropCells(OrEmpty(edges), specs[..i]))
        invariant Distinct(OrEmpty(edges)) && forall e :: e in OrEmpty(edges) ==> e in old(OrEmpty(edges))
      {
        assert specs[..i + 1][..i] == specs[..i];
        OneMoreDropped(old(OrEmpty(edges)), specs, i);
        var cells, from, to := OrEmpty(edges), Get(specs[i], "from"), Get(specs[i], "to");
        NotJoiningViews(cells, from, to);
        edges := Some(NotJoining(cells, from, to));
        if |OrEmpty(edges)| == |cells| {
          RemovalFails(old(EdgesView(edges)), specs, i + 1);
          return Some(EdgeNotFound);
        }
      }
      return None;
    }

    /** `_add_edges`: the specs themselves are appended, not copies. */
    method AppendEdges(specs: seq<EdgeCell>) returns (failure: Option<Failure>)
      requires Distinct(OrEmpty(edges) + specs)
      modifies this`edges
      ensures match AddEdges(old(EdgesView(edges)), EdgeViews(specs))
              case Ok(es) => failure.None? && EdgesView(edges) == es && OrEmpty(edges) == old(OrEmpty(edges)) + specs
              case Err(e) => failure == Some(e)
    {
      edges := Some(OrEmpty(edges));
      assert specs[..|specs|] == specs && specs[..0] == [];
      for i := 0 to |specs|
        invariant edges.Some? && edges.value == old(OrEmpty(edges)) + specs[..i]
        invariant forall k :: 0 <= k < i ==> CompleteEdge(EdgeViews(specs)[k])
      {
        if "from" !in specs[i].fields || "to" !in specs[i].fields {
          assert !CompleteEdge(EdgeViews(specs)[i]);
          return Some(IncompleteEdge);
        }
        edges := Some(edges.value + [specs[i]]);
        assert specs[..i + 1] == specs[..i] + [specs[i]];
      }
      assert EdgeViews(edges.value) == old(OrEmpty(EdgesView(edges))) + EdgeViews(specs);
      return None;
    }

    /** What inserting modules has in common: append, remove edges, add edges. */
    method AppendWithEdges(mod: Fields, add: seq<EdgeCell>, remove: seq<Fields>) returns (failure: Option<Failure>)
      requires Distinct(OrEmpty(edges) + add)
      modifies this`modules, this`edges
      ensures match AppendModule(old(View()), mod, remove, EdgeViews(add))
              case Ok(d) => failure.None? && View() == d
              case Err(e) => failure == Some(e)
      ensures failure.None? ==> Distinct(OrEmpty(edges))
      ensures failure.None? ==> OrEmpty(edges) == old(DropCells(OrEmpty(edges), remove)) + add
    {
      hide RemoveEdges, AddEdges;
      DistinctPrefix(OrEmpty(edges), add);
      modules := Some(OrEmpty(modules) + [mod]);
      failure := RemoveEdgesMatching(remove);
      if failure.None? {
        DistinctWithNew(old(OrEmpty(edges)), OrEmpty(edges), add);
        failure := AppendEdges(add);
      }
    }

    /** `apply_insert_module` */
    method InsertModule(mod: Fields, add: seq<EdgeCell>, remove: seq<Fields>) returns (failure: Option<Failure>)
      requires Distinct(OrEmpty(edges) + add)
      modifies this`modules, this`edges
      ensures Did(old(View()), Op.InsertModule(mod, EdgeViews(add), remove), failure)
      ensures failure.None? ==> Distinct(OrEmpty(edges))
      ensures failure.None? ==> OrEmpty(edges) == old(DropCells(OrEmpty(edges), remove)) + add
    {
      hide AppendModule, FindModule, DropCells, Distinct;
      if Falsy(Get(mod, "id")) {
        return Some(MissingModuleId);
      }
      var k := FindModuleIndex(OrEmpty(modules), Get(mod, "id"));
      if k < |OrEmpty(modules)| {
        return Some(DuplicateModule);
      }
      failure := AppendWithEdges(mod, add, remove);
    }

    /** `apply_add_arcade_ref` */
    method AddArcadeRef(mod: Fields, add: seq<EdgeCell>, remove: seq<Fields>) returns (failure: Option<Failure>)
      requires Distinct(OrEmpty(edges) + add)
      modifies this`modules, this`edges
      ensures Did(old(View()), Op.AddArcadeRef(mod, EdgeViews(add), remove), failure)
      ensures failure.None? ==> Distinct(OrEmpty(edges))
      ensures failure.None? ==> OrEmpty(edges) == old(DropCells(OrEmpty(edges), remove)) + add
    {
      hide AppendModule, FindModule, DropCells, Distinct;
      if Falsy(Get(mod, "id")) {
        return Some(MissingModuleId);
      }
      if Get(mod, "type") != Str("Arcade") {
        return Some(WrongModuleType);
      }
      if Falsy(Get(mod, "ref")) {
        return Some(MissingRef);
      }
      var k := FindModuleIndex(OrEmpty(modules), Get(mod, "id"));
      if k < |OrEmpty(modules)| {
        return Some(DuplicateModule);
      }
      failure := AppendWithEdges(mod, add, remove);
    }

    /** `apply_add_probe` */
    method AddProbe(mod: Fields, add: seq<EdgeCell>) returns (failure: Option<Failure>)
      requires Distinct(OrEmpty(edges) + add)
      modifies this`modules, this`edges
      ensures Did(old(View()), Op.AddProbe(mod, EdgeViews(add)), failure)
      ensures failure.None? ==> Distinct(OrEmpty(edges))
      ensures failure.None? ==> OrEmpty(edges) == old(OrEmpty(edges)) + add
    {
      hide AppendModule, FindModule, DropCells, Distinct;
      if Falsy(Get(mod, "id")) {
        return Some(MissingModuleId);
      }
      if Get(mod, "type") != Str("Probe") {
        return Some(WrongModuleType);
      }
      if Falsy(Get(mod, "attach_to")) {
        return Some(MissingAttachTo);
      }
      var k := FindModuleIndex(OrEmpty(modules), Get(mod, "attach_to"));
      if k == |OrEmpty(modules)| {
        return Some(ModuleNotFound);
      }
      NothingDropped(OrEmpty(edges), []);
      failure := AppendWithEdges(mod, add, []);
    }

    method DropEdgesMentioning(id: Value)
      requires Distinct(OrEmpty(edges))
      modifies this`edges
      ensures EdgesView(edges) == Some(WithoutMentioning(old(EdgeViews(OrEmpty(edges))), id))
      ensures OrEmpty(edges) == old(NotMentioning(OrEmpty(edges), id))
      ensures Distinct(OrEmpty(edges)) && forall e :: e in OrEmpty(edges) ==> e in old(OrEmpty(edges))
    {
      NotMentioningViews(OrEmpty(edges), id);
      edges := Some(NotMentioning(OrEmpty(edges), id));
    }

    /** The module and every edge at it go; replacement edges are appended. */
    method DropModule(id: Value, add: seq<EdgeCell>) returns (failure: Option<Failure>)
      requires Distinct(OrEmpty(edges) + add)
      modifies this`modules, this`edges
      ensures modules == Some(WithoutModule(old(OrEmpty(modules)), id))
      ensures match AddEdges(Some(WithoutMentioning(old(EdgeViews(OrEmpty(edges))), id)), EdgeViews(add))
              case Ok(es) => failure.None? && EdgesView(edges) == es
              case Err(e) => failure == Some(e)
      ensures failure.None? ==> Distinct(OrEmpty(edges))
      ensures failure.None? ==> OrEmpty(edges) == old(NotMentioning(OrEmpty(edges), id)) + add
    {
      hide AddEdges, WithoutModule, WithoutMentioning;
      DistinctPrefix(OrEmpty(edges), add);
      modules := Some(WithoutModule(OrEmpty(modules), id));
      DropEdgesMentioning(id);
      DistinctWithNew(old(OrEmpty(edges)), OrEmpty(edges), add);
      failure := AppendEdges(add);
    }

    /** `apply_remove_module` */
    method RemoveModule(id: string, add: seq<EdgeCell>) returns (failure: Option<Failure>)
      requires Distinct(OrEmpty(edges) + add)
      modifies this`modules, this`edges
      ensures Did(old(View()), Op.RemoveModule(id, EdgeViews(add)), failure)
      ensures failure.None? ==> Distinct(OrEmpty(edges))
      ensures failure.None? ==> OrEmpty(edges) == old(NotMentioning(OrEmpty(edges), Str(id))) + add
    {
      hide FindModule, AddEdges, WithoutModule, WithoutMentioning;
      var k := FindModuleIndex(OrEmpty(modules), Str(id));
      if k == |OrEmpty(modules)| {
        return Some(ModuleNotFound);
      }
      failure := DropModule(Str(id), add);
    }

    /** `apply_replace_edge`: the edge is rewritten where it lies. */
    method ReplaceEdge(from: string, to: string, newFrom: Option<string>, newTo: Option<string>,
                       newPort: Option<string>, ghost own: nat, ghost patch: set<EdgeCell>)
      returns (failure: Option<Failure>)
      requires Distinct(OrEmpty(edges)) && OwnFirst(OrEmpty(edges), own, patch)
      modifies OrEmpty(edges)
      ensures Did(old(View()), Op.ReplaceEdge(from, to, newFrom, newTo, newPort), failure)
      ensures failure.Some? ==> unchanged(OrEmpty(edges))
      // the patch changes exactly when the first edge that matches is one it inserted, and becomes another
      ensures failure.None? && !RewiresInserted(old(View()), own, Op.ReplaceEdge(from, to, newFrom, newTo, newPort)) ==>
                unchanged(patch)
      ensures failure.None? && RewiresInserted(old(View()), own, Op.ReplaceEdge(from, to, newFrom, newTo, newPort)) ==>
                exists e :: e in patch && e.fields != old(e.fields)
    {
      hide FindEdge, Joins, Get, PatchModel.Redirect, EditModule, AppendModule, AddEdges, SetNestedIn, WithoutModule,
        WithoutMentioning, KnownId, Falsy;
      if newFrom.None? && newTo.None? && newPort.None? {
        return Some(NothingToReplace);
      }
      var cells := OrEmpty(edges);
      var k := FindEdgeIndex(cells, Str(from), Str(to));
      if k == |cells| {
        return Some(EdgeNotFound);
      }
      var edge := cells[k];
      edge.Redirect(newFrom, newTo, newPort);
      ghost var was := old(EdgeViews(cells));
      assert EdgeViews(cells) == was[k := edge.fields];
      assert edge in patch <==> k >= own;
      assert edge.fields == old(edge.fields) ==> unchanged(edge);
      return None;
    }

    /** `apply_replace_context_value`: the value itself is stored, not a copy. */
    method ReplaceContextValue(key: string, content: Node, ghost patch: set<DictCell>, ghost marks: set<seq<string>>)
      returns (failure: Option<Failure>)
      requires Valid() && Sound(content) && Repr(content) !! Dicts() && Repr(content) <= patch
      requires Marked(ContextNode(), patch, marks)
      modifies Dicts()
      ensures Did(old(View()), Op.ReplaceContextValue(key, old(Meaning(content))), failure)
      ensures failure.None? ==> Valid() && Dicts() == old(Dicts()) + old(Repr(content))
      ensures failure.None? ==> Marked(ContextNode(), patch, marks + {Split(key)})
      ensures failure.Some? ==> unchanged(old(Dicts()))
      // the value itself goes where the other keys lead, and every other dictionary keeps its entries
      ensures failure.None? ==> old(ContextNode().Ref?) && old(Holder(ContextNode().cell, Split(key))).Some?
      ensures failure.None? ==>
                forall x :: x in old(Dicts()) ==>
                  x.entries == if x == old(Holder(ContextNode().cell, Split(key))).value
                               then old(x.entries)[Split(key)[|Split(key)| - 1] := content] else old(x.entries)
      // the patch changes exactly when the value goes below a marked key and is not there already
      ensures failure.None? && !StoresBelow(old(View()), marks, Op.ReplaceContextValue(key, old(Meaning(content)))) ==>
                unchanged(old(Dicts()) * patch)
      ensures failure.None? && StoresBelow(old(View()), marks, Op.ReplaceContextValue(key, old(Meaning(content)))) ==>
                exists c :: c in old(Dicts()) && c in patch && c.entries != old(c.entries)
    {
      hide DictCell.Valid, Split, Walk, Chain, SetNested, Starts, Lookup, Holder, IsMarked;
      if context.None? || context == Some(Plain(Null)) {
        return Some(NoContext);
      }
      if context.value.Plain? {
        return Some(SetNestedIn(context.value.v, key, Null).error);
      }
      var cell, parts := context.value.cell, Split(key);
      ghost var was := cell.view;
      OnlyInvalidPaths(was, parts, Meaning(content));
      ghost var holder := Holder(cell, parts);
      if holder.Some? {
        EntersPatch(ContextNode(), patch, marks, parts);
        HolderReads(cell, parts);
        HolderIsWalked(cell, parts);
        KeptApart(holder.value, content, parts[|parts| - 1]);
      }
      var ok := SetNestedAt(cell, parts, content);
      if !ok {
        return Some(InvalidKeyPath);
      }
      forall p | Walk(cell, p).Some? ensures Walk(cell, p).value in patch <==> IsMarked(p, marks + {parts}) {
        OneMoreMark(p, marks, parts);
        if !Starts(p, parts) {
          assert Walk(cell, p) == old(Walk(cell, p));
        }
      }
      return None;
    }

    /** The operations that only assign to the document itself. */
    method ApplyToDocument(op: HeapOp) returns (failure: Option<Failure>)
      requires Distinct(OrEmpty(edges) + EdgesOf(op)) && !op.ReplaceContextValue? && !op.ReplaceEdge?
      modifies this`modules, this`edges, this`rest
      ensures Did(old(View()), old(EditOf(op)), failure)
      ensures failure.None? ==> Distinct(OrEmpty(edges)) && OrEmpty(edges) == old(CellsAfter(OrEmpty(edges), op))
    {
      hide ApplyOp, Did, View, DropCells, NotMentioning;
      DistinctPrefix(OrEmpty(edges), EdgesOf(op));
      match op
      case ReplaceModuleConfig(id, config) => failure := ReplaceModuleConfig(id, config);
      case SetModuleConfigKey(id, key, v) => failure := SetModuleConfigKey(id, key, v);
      case ReplaceModuleLabel(id, text) => failure := ReplaceModuleLabel(id, text);
      case SetModuleOnFailure(id, policy) => failure := SetModuleOnFailure(id, policy);
      case InsertModule(mod, add, remove) => failure := InsertModule(mod, add, remove);
      case RemoveModule(id, add) => failure := RemoveModule(id, add);
      case AddProbe(mod, add) => failure := AddProbe(mod, add);
      case AddArcadeRef(mod, add, remove) => failure := AddArcadeRef(mod, add, remove);
      case ReplaceRetryPolicy(policy) => failure := ReplaceRetryPolicy(policy);
      case SetSparkConfig(key, v) => failure := SetSparkConfig(key, v);
      case DeferToHuman => failure := DeferToHuman();
    }

    /** `apply_operation`. The cells of the patch change exactly when the operation writes into them. */
    method ApplyOperation(op: HeapOp, ghost own: nat, ghost patchEdges: set<EdgeCell>, ghost patch: set<DictCell>,
                          ghost marks: set<seq<string>>)
      returns (failure: Option<Failure>)
      requires Valid() && Distinct(OrEmpty(edges) + EdgesOf(op))
      requires OwnFirst(OrEmpty(edges), own, patchEdges) && Marked(ContextNode(), patch, marks)
      requires Sound(ContentOf(op)) && Repr(ContentOf(op)) !! Dicts() && Repr(ContentOf(op)) <= patch
      modifies this, OrEmpty(edges), Dicts()
      ensures Did(old(View()), old(EditOf(op)), failure)
      ensures failure.None? ==> Valid() && Dicts() == old(Dicts()) + old(Repr(ContentOf(op)))
      ensures failure.None? ==> OrEmpty(edges) == old(CellsAfter(OrEmpty(edges), op))
      ensures failure.None? ==> Marked(ContextNode(), patch, marks + MarkOf(op))
      ensures failure.Some? || !Writes(old(View()), own, marks, old(EditOf(op))) ==>
                unchanged(patchEdges) && unchanged(patch)
      ensures failure.None? && Writes(old(View()), own, marks, old(EditOf(op))) ==>
                || (exists e :: e in patchEdges && e.fields != old(e.fields))
                || (exists c :: c in patch && c.entries != old(c.entries))
    {
      hide DictCell.Valid, Split, ApplyOp, Did, Marked, Sound, View, RewiresInserted, StoresBelow, DropCells,
        NotMentioning, OwnFirst, Distinct, Meaning;
      DistinctPrefix(OrEmpty(edges), EdgesOf(op));
      OneWayToWrite(View(), own, marks, EditOf(op));
      assert marks + {} == marks;
      match op
      case ReplaceContextValue(key, content) =>
        failure := ReplaceContextValue(key, content, patch, marks);
      case ReplaceEdge(from, to, newFrom, newTo, newPort) =>
        failure := ReplaceEdge(from, to, newFrom, newTo, newPort, own, patchEdges);
      case _ =>
        failure := ApplyToDocument(op);
    }

  }

  lemma DistinctWithNew<T>(before: seq<T>, after: seq<T>, new_: seq<T>)
    requires Distinct(before + new_) && Distinct(after) && forall x :: x in after ==> x in before
    ensures Distinct(after + new_)
  {
    forall i, j | 0 <= i < j < |after + new_| ensures (after + new_)[i] != (after + new_)[j] {
      if i < |after| <= j {
        assert after[i] in before;
        var k :| 0 <= k < |before| && before[k] == after[i];
        assert (before + new_)[k] != (before + new_)[|before| + (j - |after|)];
      } else if |after| <= i {
        assert (before + new_)[|before| + (i - |after|)] != (before + new_)[|before| + (j - |after|)];
      }
    }
  }

  lemma {:induction false} OnlyInvalidPaths(d: Fields, parts: seq<string>, v: Value)
    requires parts != []
    ensures SetNested(d, parts, v).Err? ==> SetNested(d, parts, v).error == InvalidKeyPath
    decreases |parts|
  {
    if |parts| > 1 && parts[0] in d && d[parts[0]].Dict? {
      OnlyInvalidPaths(d[parts[0]].fields, parts[1..], v);
    }
  }

  /** A failed removal is final. */
  lemma {:induction false} RemovalFails(es: Option<seq<Fields>>, specs: seq<Fields>, i: nat)
    requires i <= |specs| && RemoveEdges(es, specs[..i]).Err?
    ensures RemoveEdges(es, specs) == RemoveEdges(es, specs[..i])
    decreases |specs|
  {
    if i == |specs| {
      assert specs[..i] == specs;
    } else {
      assert specs[..|specs| - 1][..i] == specs[..i];
      RemovalFails(es, specs[..|specs| - 1], i);
    }
  }

  // ----- copying -----

  method CopyEdges(cells: seq<EdgeCell>) returns (copies: seq<EdgeCell>)
    ensures Distinct(copies) && EdgeViews(copies) == EdgeViews(cells)
    ensures forall e :: e in copies ==> fresh(e)
  {
    copies := [];
    for i := 0 to |cells|
      invariant |copies| == i && Distinct(copies) && forall e :: e in copies ==> fresh(e)
      invariant forall k :: 0 <= k < i ==> copies[k].fields == cells[k].fields
    {
      var cell := new EdgeCell(cells[i].fields);
      copies := copies + [cell];
    }
  }

  /** `_ruamel_copy`: a deep copy, none of whose parts is shared with the original. */
  method CopyDoc(bp: BlueprintDoc) returns (doc: BlueprintDoc)
    requires bp.Valid()
    ensures fresh(doc) && doc.Valid() && doc.View() == bp.View() && fresh(doc.Dicts())
    ensures forall e :: e in OrEmpty(doc.edges) ==> fresh(e)
  {
    hide DictCell.Valid;
    var edges: Option<seq<EdgeCell>>, context: Option<Node> := None, None;
    if bp.edges.Some? {
      var cells := CopyEdges(bp.edges.value);
      edges := Some(cells);
    }
    if bp.context.Some? {
      var node := Copy(bp.context.value);
      context := Some(node);
    }
    doc := new BlueprintDoc(bp.modules, edges, context, bp.rest);
  }
}
