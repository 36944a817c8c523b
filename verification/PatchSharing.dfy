/**
 * Which operations of a patch write into the patch itself (aqueduct/patch/operations.py:124-169, 221-274). Edge
 * specs and context values go into the document uncopied, so a later operation can rewrite them there. All of this
 * is read off values.
 */
module PatchSharing {
  import opened Common
  import opened PatchModel

  /** The edges that no spec removes. */
  function Dropped(es: seq<Fields>, specs: seq<Fields>): seq<Fields> {
    if specs == [] then es else
    var spec := specs[|specs| - 1];
    WithoutJoining(Dropped(es, specs[..|specs| - 1]), Get(spec, "from"), Get(spec, "to"))
  }

  /** How many of the first `own` edges are still there after `op`. */
  function StillThere(es: seq<Fields>, own: nat, op: Edit): nat {
    var first := if own <= |es| then es[..own] else es;
    match op
    case InsertModule(_, _, remove) => |Dropped(first, remove)|
    case AddArcadeRef(_, _, remove) => |Dropped(first, remove)|
    case RemoveModule(id, _) => |WithoutMentioning(first, Str(id))|
    case _ => |first|
  }

  /** How many edges are still the Blueprint's own after the patch: they come first, the inserted ones follow. */
  function OwnEdges(d: Doc, edits: seq<Edit>): nat {
    if edits == [] then |OrEmpty(d.edges)| else
    var before := ApplyAll(d, edits[..|edits| - 1]);
    if before.Err? then 0
    else StillThere(OrEmpty(before.value.edges), OwnEdges(d, edits[..|edits| - 1]), edits[|edits| - 1])
  }

  /** The context keys that a patch writes. */
  function WrittenKeys(edits: seq<Edit>): set<seq<string>> {
    if edits == [] then {} else
    var last := edits[|edits| - 1];
    WrittenKeys(edits[..|edits| - 1]) + if last.ReplaceContextValue? then {Split(last.key)} else {}
  }

  /** `op` changes an edge that stands behind the first `own`. */
  predicate RewiresInserted(d: Doc, own: nat, op: Edit) {
    op.ReplaceEdge? &&
    var es := OrEmpty(d.edges);
    var k := FindEdge(es, Str(op.fromId), Str(op.toId));
    own <= k < |es| && Redirect(es[k], op) != es[k]
  }

  /** `op` stores a dictionary, or a value that is not there yet, below one of the keys. */
  predicate StoresBelow(d: Doc, keys: set<seq<string>>, op: Edit) {
    && op.ReplaceContextValue?
    && (exists key :: key in keys && key < Split(op.key))
    && d.context.Some? && (op.content.Dict? || Lookup(d.context.value, Split(op.key)) != Some(op.content))
  }

  /** Carrying out `op` writes into the patch, `own` edges being the Blueprint's and `keys` those the patch has
      written. */
  predicate Writes(d: Doc, own: nat, keys: set<seq<string>>, op: Edit) {
    RewiresInserted(d, own, op) || StoresBelow(d, keys, op)
  }

  /** Operation `j` succeeds and writes into an edge or a dictionary that an earlier one of the patch inserted. */
  predicate WritesIntoPatch(d: Doc, edits: seq<Edit>, j: nat)
    requires j < |edits|
  {
    var before := ApplyAll(d, edits[..j]);
    && before.Ok? && ApplyOp(before.value, edits[j]).Ok?
    && Writes(before.value, OwnEdges(d, edits[..j]), WrittenKeys(edits[..j]), edits[j])
  }

  /** No operation writes into the patch. */
  ghost predicate LeavesPatchAlone(d: Doc, edits: seq<Edit>) {
    forall j :: 0 <= j < |edits| ==> !WritesIntoPatch(d, edits, j)
  }

  function EdgeSpec(from: string, to: string): Fields {
    map["from" := Str(from), "to" := Str(to)]
  }

  /** Adding an edge that the Blueprint has already and rewiring it is harmless: the Blueprint's own edge comes
      first. */
  lemma RewiringOriginalIsHarmless(mod: Fields)
    requires mod == map["id" := Str("m")]
    ensures var d := Doc(None, Some([EdgeSpec("a", "b")]), None, map[]);
            var edits := [InsertModule(mod, [EdgeSpec("a", "b")], []), ReplaceEdge("a", "b", None, Some("c"), None)];
            && LeavesPatchAlone(d, edits)
            && ApplyAll(d, edits)
                 == Ok(d.(modules := Some([mod]), edges := Some([EdgeSpec("a", "c"), EdgeSpec("a", "b")])))
  {
    var ab := EdgeSpec("a", "b");
    var d := Doc(None, Some([ab]), None, map[]);
    var insert, rewire := InsertModule(mod, [ab], []), ReplaceEdge("a", "b", None, Some("c"), None);
    var edits := [insert, rewire];
    var mid := d.(modules := Some([mod]), edges := Some([ab, ab]));
    assert edits[..1] == [insert] && edits[..0] == [] && [insert][..0] == [];
    assert [] + [mod] == [mod] && [ab] + [ab] == [ab, ab];
    assert AddEdges(RemoveEdges(d.edges, []).value, [ab]) == Ok(mid.edges);
    assert AppendModule(d, mod, [], [ab]) == Ok(mid);
    assert ApplyAll(d, [insert]) == Ok(mid);
    assert [ab, ab][..1] == [ab] && Dropped([ab], []) == [ab];
    assert OwnEdges(d, [insert]) == 1;
    assert FindEdge([ab, ab], Str("a"), Str("b")) == 0;
    assert ab["to" := Str("c")] == EdgeSpec("a", "c");
    assert [ab, ab][0 := EdgeSpec("a", "c")] == [EdgeSpec("a", "c"), ab];
  }

  // ----- context patches that write into themselves -----

  function EmptyContext(): Doc {
    Doc(None, None, Some(Dict(map[])), map[])
  }

  /** `a := v`, and two writes below it. */
  function NestedWrites(v: Value): seq<Edit> {
    [ReplaceContextValue("a", v), ReplaceContextValue("a.x.y", Num(2)), ReplaceContextValue("a.x", Num(5))]
  }

  lemma NestedKeys()
    ensures Split("a") == ["a"] && Split("a.x") == ["a", "x"] && Split("a.x.y") == ["a", "x", "y"]
  {
    UndottedKey("a");
    UndottedKey("x");
    UndottedKey("y");
    SplitAtDot("x", "y");
    SplitAtDot("a", "x");
    SplitAtDot("a", "x.y");
    assert "a.x" == "a" + "." + "x" && "x.y" == "x" + "." + "y" && "a.x.y" == "a" + "." + "x.y";
  }

  lemma LastStep(d: Doc, ops: seq<Edit>, op: Edit)
    ensures ApplyAll(d, ops + [op]) ==
            if ApplyAll(d, ops).Err? then ApplyAll(d, ops)
            else if ApplyOp(ApplyAll(d, ops).value, op).Err?
            then Err((|ops|, ApplyOp(ApplyAll(d, ops).value, op).error))
            else Ok(ApplyOp(ApplyAll(d, ops).value, op).value)
  {
    hide ApplyOp;
    assert (ops + [op])[..|ops|] == ops;
  }

  function OneKey(key: string, v: Value): Value {
    Dict(map[key := v])
  }

  function InContext(v: Value): Doc {
    Doc(None, None, Some(OneKey("a", v)), map[])
  }

  lemma Inserting(v: Value)
    ensures ApplyOp(EmptyContext(), ReplaceContextValue("a", v)) == Ok(InContext(v))
    ensures ApplyAll(EmptyContext(), [ReplaceContextValue("a", v)]) == Ok(InContext(v))
  {
    NestedKeys();
    LastStep(EmptyContext(), [], ReplaceContextValue("a", v));
    var op: Edit := ReplaceContextValue("a", v);
    assert [] + [op] == [op];
  }

  lemma WritingX(v: Value, n: int)
    ensures ApplyOp(InContext(OneKey("x", v)), ReplaceContextValue("a.x", Num(n))) == Ok(InContext(OneKey("x", Num(n))))
  {
    NestedKeys();
    assert ["a", "x"][1..] == ["x"];
    assert map["x" := v]["x" := Num(n)] == map["x" := Num(n)];
    assert map["a" := OneKey("x", v)]["a" := OneKey("x", Num(n))] == map["a" := OneKey("x", Num(n))];
  }

  lemma WritingY(v: Value, n: int)
    ensures ApplyOp(InContext(OneKey("x", OneKey("y", v))), ReplaceContextValue("a.x.y", Num(n)))
            == Ok(InContext(OneKey("x", OneKey("y", Num(n)))))
  {
    NestedKeys();
    var was, now := OneKey("y", v), OneKey("y", Num(n));
    assert ["a", "x", "y"][1..] == ["x", "y"] && ["x", "y"][1..] == ["y"];
    assert map["y" := v]["y" := Num(n)] == map["y" := Num(n)];
    assert map["x" := was]["x" := now] == map["x" := now];
    assert SetNested(map["x" := was], ["x", "y"], Num(n)) == Ok(map["x" := now]);
    assert map["a" := OneKey("x", was)]["a" := OneKey("x", now)] == map["a" := OneKey("x", now)];
  }

  lemma NoWayToY(m: int, n: int)
    ensures ApplyOp(InContext(OneKey("x", Num(m))), ReplaceContextValue("a.x.y", Num(n))) == Err(InvalidKeyPath)
  {
    NestedKeys();
    assert ["a", "x", "y"][1..] == ["x", "y"];
  }

  /** Once `v` has lost the dictionary that the second operation goes through, the patch fails. */
  lemma NestedWritesOutcome()
    ensures ApplyAll(EmptyContext(), NestedWrites(OneKey("x", OneKey("y", Num(1)))))
            == Ok(InContext(OneKey("x", Num(5))))
    ensures ApplyAll(EmptyContext(), NestedWrites(OneKey("x", Num(5)))) == Err((1, InvalidKeyPath))
  {
    hide ApplyAll, ApplyOp, InContext, OneKey, EmptyContext;
    forall v ensures NestedWrites(v) == [NestedWrites(v)[0]] + [NestedWrites(v)[1]] + [NestedWrites(v)[2]] {
    }
    var v, w := OneKey("x", OneKey("y", Num(1))), OneKey("x", Num(5));
    Inserting(v);
    WritingY(Num(1), 2);
    LastStep(EmptyContext(), [NestedWrites(v)[0]], NestedWrites(v)[1]);
    WritingX(OneKey("y", Num(2)), 5);
    LastStep(EmptyContext(), [NestedWrites(v)[0]] + [NestedWrites(v)[1]], NestedWrites(v)[2]);
    Inserting(w);
    NoWayToY(5, 2);
    LastStep(EmptyContext(), [NestedWrites(w)[0]], NestedWrites(w)[1]);
    LastStep(EmptyContext(), [NestedWrites(w)[0]] + [NestedWrites(w)[1]], NestedWrites(w)[2]);
  }

  /** Writing into the patch need not matter: `a := {x: 1}; a.x := 5` leaves `{x: 5}` in its first operation, with
      the same outcome. */
  lemma RepeatedWriteIsHarmless(n: int)
    ensures var edits := [ReplaceContextValue("a", OneKey("x", Num(n))), ReplaceContextValue("a.x", Num(5))];
            && (WritesIntoPatch(EmptyContext(), edits, 1) <==> n != 5)
            && ApplyAll(EmptyContext(), edits) == Ok(InContext(OneKey("x", Num(5))))
  {
    var a: Edit, b: Edit := ReplaceContextValue("a", OneKey("x", Num(n))), ReplaceContextValue("a.x", Num(5));
    Inserting(OneKey("x", Num(n)));
    WritingX(Num(n), 5);
    LastStep(EmptyContext(), [a], b);
    assert [a, b] == [a] + [b] && [a, b][..1] == [a] && [a][..0] == [];
    NestedKeys();
    assert WrittenKeys([a]) == {["a"]};
    assert ["a"] < ["a", "x"];
    hide ApplyAll, ApplyOp;
    assert Lookup(OneKey("a", OneKey("x", Num(n))), ["a", "x"]) == Some(Num(n)) by {
      assert ["a", "x"][1..] == ["x"] && ["x"][1..] == [];
    }
  }

  /** The number of operations that are carried out. */
  function Applied(d: Doc, edits: seq<Edit>): nat {
    match ApplyAll(d, edits) case Ok(_) => |edits| case Err(e) => e.0
  }

  lemma NothingAfterFailure(d: Doc, edits: seq<Edit>, j: nat)
    requires Applied(d, edits) <= j < |edits|
    ensures !WritesIntoPatch(d, edits, j)
  {
    hide ApplyOp, Writes;
    if ApplyAll(d, edits[..j]).Ok? && ApplyOp(ApplyAll(d, edits[..j]).value, edits[j]).Ok? {
      assert edits[..j + 1][..j] == edits[..j];
      FailureAt(d, edits, j + 1);
    }
  }

  /** Everything before the failing operation succeeds. */
  lemma {:induction false} FailureAt(d: Doc, edits: seq<Edit>, i: nat)
    requires i <= |edits| && ApplyAll(d, edits[..i]).Ok?
    ensures i <= Applied(d, edits) <= |edits|
    decreases |edits|
  {
    hide ApplyOp;
    if i == |edits| {
      assert edits[..i] == edits;
    } else {
      assert edits[..|edits| - 1][..i] == edits[..i];
      FailureAt(d, edits[..|edits| - 1], i);
    }
  }
}
