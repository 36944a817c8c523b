/**
 * Applying a whole patch to a Blueprint in memory (aqueduct/patch/apply.py:131-148), and what becomes of the patch
 * itself.
 */
module PatchApply {
  import opened Common
  import opened PatchModel
  import opened PatchSharing
  import opened SharedDicts
  import opened PatchDocument

  // ----- a whole patch -----

  /** The edge specs that the patch owns. */
  ghost function PatchEdges(ops: seq<HeapOp>): set<EdgeCell> {
    set i, e | 0 <= i < |ops| && e in EdgesOf(ops[i]) :: e
  }

  ghost function ContentCells(ops: seq<HeapOp>): set<DictCell> {
    set i | 0 <= i < |ops| && ContentOf(ops[i]).Ref? :: ContentOf(ops[i]).cell
  }

  /** The dictionaries that the patch owns. */
  ghost function PatchDicts(ops: seq<HeapOp>): set<DictCell>
    reads ContentCells(ops)
  {
    set i, c | 0 <= i < |ops| && c in Repr(ContentOf(ops[i])) :: c
  }

  /** A patch as it is loaded: nothing in it is shared. */
  ghost predicate SoundPatch(ops: seq<HeapOp>)
    reads ContentCells(ops), PatchDicts(ops)
  {
    && (forall i :: 0 <= i < |ops| ==> Distinct(EdgesOf(ops[i])))
    && (forall i, j, e :: 0 <= i < j < |ops| && e in EdgesOf(ops[i]) ==> e !in EdgesOf(ops[j]))
    && (forall i :: 0 <= i < |ops| ==> Repr(ContentOf(ops[i])) <= PatchDicts(ops) && Sound(ContentOf(ops[i])))
    && (forall i, j :: 0 <= i < j < |ops| ==> Repr(ContentOf(ops[i])) !! Repr(ContentOf(ops[j])))
  }

  ghost function EditsOf(ops: seq<HeapOp>): (edits: seq<Edit>)
    reads PatchEdges(ops), ContentCells(ops)
    ensures |edits| == |ops| && forall i :: 0 <= i < |ops| ==> edits[i] == EditOf(ops[i])
  {
    seq(|ops|, i requires 0 <= i < |ops| reads PatchEdges(ops), ContentCells(ops) =>
        assert forall e :: e in EdgesOf(ops[i]) ==> e in PatchEdges(ops);
        assert ContentOf(ops[i]).Ref? ==> ContentOf(ops[i]).cell in ContentCells(ops);
        EditOf(ops[i]))
  }

  /** What the objects of a patch hold at one moment. */
  datatype PatchState = PatchState(edges: map<EdgeCell, Fields>, dicts: map<DictCell, map<string, Node>>)

  ghost function StateOf(edges: set<EdgeCell>, dicts: set<DictCell>): PatchState
    reads edges, dicts
  {
    PatchState(map e | e in edges :: e.fields, map c | c in dicts :: c.entries)
  }

  // ----- what is left of a patch while it is applied -----

  /** The operations still to come say what they said at first, and share nothing with the document's cells. */
  ghost predicate Pending(ops: seq<HeapOp>, edits: seq<Edit>, edges: set<EdgeCell>, dicts: set<DictCell>)
    reads PatchEdges(ops), ContentCells(ops), PatchDicts(ops)
  {
    SoundPatch(ops) && EditsOf(ops) == edits && PatchEdges(ops) !! edges && PatchDicts(ops) !! dicts
  }

  lemma ContentsAreOwned(ops: seq<HeapOp>)
    requires SoundPatch(ops)
    ensures ContentCells(ops) <= PatchDicts(ops)
  {
  }

  lemma SoundTail(ops: seq<HeapOp>)
    requires SoundPatch(ops) && ops != []
    ensures SoundPatch(ops[1..]) && EditsOf(ops[1..]) == EditsOf(ops)[1..]
    ensures PatchEdges(ops) == Elems(EdgesOf(ops[0])) + PatchEdges(ops[1..])
    ensures PatchDicts(ops) == Repr(ContentOf(ops[0])) + PatchDicts(ops[1..])
    ensures Elems(EdgesOf(ops[0])) !! PatchEdges(ops[1..]) && Repr(ContentOf(ops[0])) !! PatchDicts(ops[1..])
  {
    hide DictCell.Valid, EditOf, EdgesOf, ContentOf, Sound, Repr;
    var tail := ops[1..];
    assert forall i :: 0 <= i < |tail| ==> tail[i] == ops[i + 1];
    assert forall i :: 0 < i < |ops| ==> tail[i - 1] == ops[i];
    forall c | c in PatchDicts(ops) ensures c in Repr(ContentOf(ops[0])) + PatchDicts(tail) {
      var i :| 0 <= i < |ops| && c in Repr(ContentOf(ops[i]));
      if i > 0 {
        assert c in Repr(ContentOf(tail[i - 1]));
      }
    }
    forall e | e in PatchEdges(ops) ensures e in Elems(EdgesOf(ops[0])) + PatchEdges(tail) {
      var i :| 0 <= i < |ops| && e in EdgesOf(ops[i]);
      if i > 0 {
        assert e in EdgesOf(tail[i - 1]);
      }
    }
  }

  lemma PendingStep(ops: seq<HeapOp>, edits: seq<Edit>, edges: set<EdgeCell>, dicts: set<DictCell>)
    returns (added: set<EdgeCell>, tailEdges: set<EdgeCell>, tailDicts: set<DictCell>)
    requires Pending(ops, edits, edges, dicts) && ops != []
    ensures added == Elems(EdgesOf(ops[0])) && tailEdges == PatchEdges(ops[1..])
    ensures tailDicts == PatchDicts(ops[1..]) + ContentCells(ops[1..])
    ensures Distinct(EdgesOf(ops[0])) && Elems(EdgesOf(ops[0])) !! edges
    ensures Sound(ContentOf(ops[0])) && Repr(ContentOf(ops[0])) !! dicts
    ensures edits != [] && EditOf(ops[0]) == edits[0]
    ensures Pending(ops[1..], edits[1..], edges + Elems(EdgesOf(ops[0])), dicts + Repr(ContentOf(ops[0])))
    ensures PatchEdges(ops[1..]) !! edges + Elems(EdgesOf(ops[0]))
    ensures PatchDicts(ops[1..]) + ContentCells(ops[1..]) !! dicts + Repr(ContentOf(ops[0]))
    ensures PatchEdges(ops) == Elems(EdgesOf(ops[0])) + PatchEdges(ops[1..])
    ensures PatchDicts(ops) == Repr(ContentOf(ops[0])) + PatchDicts(ops[1..])
  {
    hide DictCell.Valid, Sound, PatchEdges, PatchDicts, ContentCells;
    SoundTail(ops);
    ContentsAreOwned(ops[1..]);
    added, tailEdges, tailDicts := Elems(EdgesOf(ops[0])), PatchEdges(ops[1..]),
      PatchDicts(ops[1..]) + ContentCells(ops[1..]);
  }

  lemma DistinctTogether<T>(a: seq<T>, b: seq<T>)
    requires Distinct(a) && Distinct(b) && Elems(a) !! Elems(b)
    ensures Distinct(a + b)
  {
    assert forall i :: 0 <= i < |a| ==> a[i] in Elems(a);
    assert forall i :: 0 <= i < |b| ==> b[i] in Elems(b);
  }

  /** No dictionary of the patch is in the document yet. */
  lemma Unmarked(doc: BlueprintDoc, patch: set<DictCell>)
    requires doc.Valid() && doc.Dicts() !! patch
    ensures Marked(doc.ContextNode(), patch, {})
  {
    hide DictCell.Valid, Walk;
    if doc.ContextNode().Ref? {
      forall p ensures Walk(doc.ContextNode().cell, p).Some? ==> Walk(doc.ContextNode().cell, p).value !in patch {
        WalkStaysInside(doc.ContextNode().cell, p);
      }
    }
  }

  lemma ContextIsOwned(doc: BlueprintDoc)
    requires doc.Valid()
    ensures doc.ContextCell() <= doc.Dicts()
  {
  }

  /**
   * One round of the loop: the next operation is applied, and the rest of the patch stays ready. The objects of the
   * patch, `patchEdges` and `patchDicts`, are left as they were exactly when the operation does not write into them.
   */
  method Advance(working: BlueprintDoc, ops: seq<HeapOp>, ghost edits: seq<Edit>, ghost edges: set<EdgeCell>,
                 ghost dicts: set<DictCell>, ghost own: nat, ghost patchEdges: set<EdgeCell>,
                 ghost patchDicts: set<DictCell>, ghost marks: set<seq<string>>)
    returns (failure: Option<Failure>)
    requires ops != [] && edits != [] && Pending(ops, edits, edges, dicts)
    requires PatchEdges(ops) <= patchEdges && PatchDicts(ops) <= patchDicts
    requires working.Valid() && Marked(working.ContextNode(), patchDicts, marks)
    requires OwnFirst(OrEmpty(working.edges), own, patchEdges)
    requires Elems(OrEmpty(working.edges)) <= edges && working.Dicts() <= dicts
    modifies working, edges, dicts
    ensures working.Did(old(working.View()), edits[0], failure)
    ensures failure.None? ==> working.Valid() && Marked(working.ContextNode(), patchDicts, marks + MarkOf(ops[0]))
    ensures failure.None? ==>
              OwnFirst(OrEmpty(working.edges), StillThere(OrEmpty(old(working.View()).edges), own, edits[0]),
                patchEdges)
    ensures failure.None? ==> Elems(OrEmpty(working.edges)) <= edges + Elems(EdgesOf(ops[0]))
    ensures failure.None? ==> working.Dicts() <= dicts + old(Repr(ContentOf(ops[0])))
    ensures failure.None? ==>
              Pending(ops[1..], edits[1..], edges + Elems(EdgesOf(ops[0])), dicts + old(Repr(ContentOf(ops[0]))))
    ensures PatchEdges(ops) == Elems(EdgesOf(ops[0])) + PatchEdges(ops[1..])
    ensures old(PatchDicts(ops)) == old(Repr(ContentOf(ops[0]))) + PatchDicts(ops[1..])
    ensures failure.Some? || !Writes(old(working.View()), own, marks, edits[0]) ==>
            unchanged(patchEdges) && unchanged(patchDicts)
    ensures failure.None? ==>
              (StateOf(patchEdges, patchDicts) == old(StateOf(patchEdges, patchDicts))
               <==> !Writes(old(working.View()), own, marks, edits[0]))
  {
    hide DictCell.Valid, Marked, BlueprintDoc.Did, BlueprintDoc.View, Writes, OwnFirst, StillThere, Pending, CellsAfter,
      MarkOf, EditOf, EdgesOf, ContentOf, PatchEdges, PatchDicts, ContentCells, Sound, Repr;
    ghost var added, tailEdges, tailDicts := PendingStep(ops, edits, edges, dicts);
    DistinctTogether(OrEmpty(working.edges), EdgesOf(ops[0]));
    OwnStaysFirst(OrEmpty(working.edges), own, ops[0], patchEdges);
    EdgesSeen(working);
    ghost var was, writes := StateOf(patchEdges, patchDicts), Writes(working.View(), own, marks, edits[0]);
    failure := working.ApplyOperation(ops[0], own, patchEdges, patchDicts, marks);
    ghost var now := StateOf(patchEdges, patchDicts);
    if failure.None? && writes {
      if e :| e in patchEdges && e.fields != old(e.fields) {
        assert now.edges[e] != was.edges[e];
      } else {
        var c :| c in patchDicts && c.entries != old(c.entries);
        assert now.dicts[c] != was.dicts[c];
      }
    } else {
      assert now.edges == was.edges && now.dicts == was.dicts;
    }
  }

  lemma EdgesSeen(doc: BlueprintDoc)
    ensures EdgeViews(OrEmpty(doc.edges)) == OrEmpty(doc.View().edges)
  {
  }

  lemma Owned(ops: seq<HeapOp>) returns (edges: set<EdgeCell>, dicts: set<DictCell>)
    requires SoundPatch(ops)
    ensures edges == PatchEdges(ops) && dicts == PatchDicts(ops) && ContentCells(ops) <= dicts
  {
    ContentsAreOwned(ops);
    edges, dicts := PatchEdges(ops), PatchDicts(ops);
  }

  lemma PendingMark(ops: seq<HeapOp>, edits: seq<Edit>, edges: set<EdgeCell>, dicts: set<DictCell>)
    requires Pending(ops, edits, edges, dicts) && ops != []
    ensures edits != [] && MarkOf(ops[0]) == if edits[0].ReplaceContextValue? then {Split(edits[0].key)} else {}
  {
    hide Split, SoundPatch;
    assert EditsOf(ops)[0] == EditOf(ops[0]);
  }

  /** What the loop starts from. */
  lemma Begin(working: BlueprintDoc, ops: seq<HeapOp>, edges: set<EdgeCell>, dicts: set<DictCell>)
    requires SoundPatch(ops) && PatchEdges(ops) !! edges && PatchDicts(ops) !! dicts
    requires working.Valid() && working.Dicts() == dicts && Elems(OrEmpty(working.edges)) == edges
    ensures ops[0..] == ops && EditsOf(ops)[0..] == EditsOf(ops) && EditsOf(ops)[..0] == []
    ensures Pending(ops, EditsOf(ops), edges, dicts) && Marked(working.ContextNode(), PatchDicts(ops), {})
    ensures OwnFirst(OrEmpty(working.edges), OwnEdges(working.View(), []), PatchEdges(ops))
  {
    hide DictCell.Valid, Sound, EditOf, Marked;
    Unmarked(working, PatchDicts(ops));
    var cells := OrEmpty(working.edges);
    assert forall t :: 0 <= t < |cells| ==> cells[t] in Elems(cells);
  }

  lemma NothingApplied(d: Doc)
    ensures ApplyAll(d, []) == Ok(d) && WrittenKeys([]) == {}
  {
  }

  lemma OneMoreEdit(before: Doc, edits: seq<Edit>, i: nat, d: Doc)
    requires i < |edits| && ApplyAll(before, edits[..i]) == Ok(d)
    ensures ApplyOp(d, edits[i]).Ok? ==> ApplyAll(before, edits[..i + 1]) == Ok(ApplyOp(d, edits[i]).value)
    ensures ApplyOp(d, edits[i]).Err? ==> ApplyAll(before, edits) == Err((i, ApplyOp(d, edits[i]).error))
  {
    hide ApplyOp;
    assert edits[..i + 1][..i] == edits[..i];
    if ApplyOp(d, edits[i]).Err? {
      FailureSticks(before, edits, i + 1);
    }
  }

  /** How the two counts that `WritesIntoPatch` looks at grow with the patch. */
  lemma OneMoreCount(before: Doc, edits: seq<Edit>, i: nat, d: Doc)
    requires i < |edits| && ApplyAll(before, edits[..i]) == Ok(d)
    ensures OwnEdges(before, edits[..i + 1]) == StillThere(OrEmpty(d.edges), OwnEdges(before, edits[..i]), edits[i])
    ensures WrittenKeys(edits[..i + 1]) ==
            WrittenKeys(edits[..i]) + if edits[i].ReplaceContextValue? then {Split(edits[i].key)} else {}
    ensures WritesIntoPatch(before, edits, i) <==>
            ApplyOp(d, edits[i]).Ok? && Writes(d, OwnEdges(before, edits[..i]), WrittenKeys(edits[..i]), edits[i])
  {
    hide ApplyOp, ApplyAll, StillThere, Split, Writes;
    assert edits[..i + 1][..i] == edits[..i];
  }

  /** The states that the patch goes through, and the operations that move it from one to another. */
  ghost predicate Traced(history: seq<PatchState>, before: Doc, edits: seq<Edit>, n: nat) {
    && |history| == n + 1 && n <= |edits|
    && forall j :: 0 <= j < n ==> (history[j + 1] == history[j] <==> !WritesIntoPatch(before, edits, j))
  }

  lemma {:induction false} SteadyHistory(history: seq<PatchState>, before: Doc, edits: seq<Edit>, n: nat)
    requires Traced(history, before, edits, n)
    ensures (forall j :: 0 <= j <= n ==> history[j] == history[0]) <==>
            forall j :: 0 <= j < n ==> !WritesIntoPatch(before, edits, j)
  {
    hide WritesIntoPatch;
    if n > 0 {
      var init := history[..n];
      SteadyHistory(init, before, edits, n - 1);
      assert forall j :: 0 <= j < n ==> init[j] == history[j];
      assert history[n - 1 + 1] == history[n - 1] <==> !WritesIntoPatch(before, edits, n - 1);
      assert (forall j :: 0 <= j <= n ==> history[j] == history[0]) <==>
             (forall j :: 0 <= j <= n - 1 ==> init[j] == init[0]) && history[n] == history[n - 1];
    }
  }

  /** The loop over the operations, on the working copy. */
  method ApplyEach(working: BlueprintDoc, ops: seq<HeapOp>, ghost edges0: set<EdgeCell>, ghost dicts0: set<DictCell>)
    returns (failure: Option<(nat, Failure)>, ghost history: seq<PatchState>)
    requires SoundPatch(ops) && working.Valid() && edges0 == Elems(OrEmpty(working.edges)) && dicts0 == working.Dicts()
    requires PatchEdges(ops) !! edges0 && PatchDicts(ops) !! dicts0
    modifies working, edges0, dicts0, PatchEdges(ops), PatchDicts(ops)
    ensures match ApplyAll(old(working.View()), old(EditsOf(ops)))
            case Ok(d) => failure.None? && working.Valid() && working.View() == d
            case Err(e) => failure == Some(e)
    ensures failure.None? ==> Elems(OrEmpty(working.edges)) <= edges0 + PatchEdges(ops)
    ensures Traced(history, old(working.View()), old(EditsOf(ops)), Applied(old(working.View()), old(EditsOf(ops))))
    ensures history[0] == old(StateOf(PatchEdges(ops), PatchDicts(ops)))
    ensures history[|history| - 1] == StateOf(PatchEdges(ops), old(PatchDicts(ops)))
    ensures LeavesPatchAlone(old(working.View()), old(EditsOf(ops))) ==>
            unchanged(PatchEdges(ops)) && unchanged(old(PatchDicts(ops)))
  {
    hide ApplyOp, ApplyAll, DictCell.Valid, Marked, BlueprintDoc.View, BlueprintDoc.Dicts, OwnFirst, StillThere,
      OwnEdges, WrittenKeys, Writes, WritesIntoPatch, Pending, EditOf, EdgesOf, ContentOf, SoundPatch, PatchEdges,
      PatchDicts, ContentCells, EditsOf, Sound, Repr, StateOf;
    ghost var patchEdges, patchDicts := Owned(ops);
    ghost var edits, before := EditsOf(ops), working.View();
    ghost var edges, dicts := edges0, dicts0;
    ghost var own, marks: set<seq<string>> := OwnEdges(before, []), {};
    Begin(working, ops, edges, dicts);
    NothingApplied(before);
    history := [StateOf(patchEdges, patchDicts)];
    ghost var rest, restEdits := ops, edits;
    for i := 0 to |ops|
      invariant rest == ops[i..] && restEdits == edits[i..]
      invariant working.Valid() && ApplyAll(before, edits[..i]) == Ok(working.View())
      invariant Elems(OrEmpty(working.edges)) <= edges && working.Dicts() <= dicts
      invariant edges <= edges0 + patchEdges && dicts <= dicts0 + patchDicts
      invariant Pending(rest, restEdits, edges, dicts)
      invariant PatchEdges(rest) <= patchEdges && PatchDicts(rest) <= patchDicts
      invariant own == OwnEdges(before, edits[..i]) && OwnFirst(OrEmpty(working.edges), own, patchEdges)
      invariant marks == WrittenKeys(edits[..i]) && Marked(working.ContextNode(), patchDicts, marks)
      invariant Traced(history, before, edits, i)
      invariant history[0] == old(StateOf(PatchEdges(ops), PatchDicts(ops)))
      invariant history[i] == StateOf(patchEdges, patchDicts)
      invariant LeavesPatchAlone(before, edits) ==> unchanged(patchEdges) && unchanged(patchDicts)
    {
      ghost var content, added, d := Repr(ContentOf(rest[0])), Elems(EdgesOf(rest[0])), working.View();
      OneMoreEdit(before, edits, i, d);
      OneMoreCount(before, edits, i, d);
      PendingMark(rest, restEdits, edges, dicts);
      var failed := Advance(working, ops[i..], restEdits, edges, dicts, own, patchEdges, patchDicts, marks);
      if failed.Some? {
        return Some((i, failed.value)), history;
      }
      edges, dicts := edges + added, dicts + content;
      own, marks := OwnEdges(before, edits[..i + 1]), marks + MarkOf(rest[0]);
      history := history + [StateOf(patchEdges, patchDicts)];
      rest, restEdits := rest[1..], restEdits[1..];
    }
    assert edits[..|ops|] == edits;
    failure := None;
  }

  /**
   * `apply_patch_to_dict`. The result is the fold of the operations and the input stays as it was; a failure is the
   * first one. `history` is what the patch itself goes through: it is the same after every operation exactly when
   * none writes into it.
   */
  method ApplyPatchToDict(bp: BlueprintDoc, ops: seq<HeapOp>)
    returns (r: Result<BlueprintDoc, (nat, Failure)>, ghost history: seq<PatchState>)
    requires bp.Valid() && SoundPatch(ops)
    requires bp.Dicts() !! PatchDicts(ops) && Elems(OrEmpty(bp.edges)) !! PatchEdges(ops)
    modifies PatchEdges(ops), PatchDicts(ops)
    ensures bp.Valid() && bp.View() == old(bp.View())
    ensures match ApplyAll(old(bp.View()), old(EditsOf(ops)))
            case Ok(d) => r.Ok? && fresh(r.value) && r.value.Valid() && r.value.View() == d
            case Err(e) => r == Err(e)
    ensures bp.edges.None? && r.Ok? && r.value.edges.Some? ==> Elems(r.value.edges.value) <= PatchEdges(ops)
    // one state before each operation and one at the end; an operation changes it exactly when it writes into the patch
    ensures Traced(history, old(bp.View()), old(EditsOf(ops)), Applied(old(bp.View()), old(EditsOf(ops))))
    ensures history[0] == old(StateOf(PatchEdges(ops), PatchDicts(ops)))
    ensures history[|history| - 1] == StateOf(PatchEdges(ops), old(PatchDicts(ops)))
    ensures (forall j :: 0 <= j < |history| ==> history[j] == history[0]) <==>
            LeavesPatchAlone(old(bp.View()), old(EditsOf(ops)))
    ensures LeavesPatchAlone(old(bp.View()), old(EditsOf(ops))) ==>
            unchanged(PatchEdges(ops)) && unchanged(old(PatchDicts(ops)))
  {
    hide ApplyAll, DictCell.Valid, BlueprintDoc.Valid, BlueprintDoc.View, WritesIntoPatch, SoundPatch,
      PatchEdges, PatchDicts, ContentCells, EditsOf, StateOf;
    ContextIsOwned(bp);
    ghost var patchEdges, patchDicts := Owned(ops);
    ghost var before, edits := bp.View(), EditsOf(ops);
    var working := CopyDoc(bp);
    CopiedEdges(bp, working);
    var failure;
    failure, history := ApplyEach(working, ops, Elems(OrEmpty(working.edges)), working.Dicts());
    SteadyHistory(history, before, edits, Applied(before, edits));
    forall j | Applied(before, edits) <= j < |edits| ensures !WritesIntoPatch(before, edits, j) {
      NothingAfterFailure(before, edits, j);
    }
    r := if failure.Some? then Err(failure.value) else Ok(working);
  }

  lemma CopiedEdges(bp: BlueprintDoc, copy: BlueprintDoc)
    requires bp.View() == copy.View()
    ensures bp.edges.None? <==> copy.edges.None?
  {
  }

  // ----- applying a patch again -----

  /** A patch that does not write into itself can be applied again: the outcome is the same. */
  method ApplyTwice(bp: BlueprintDoc, ops: seq<HeapOp>) returns (again: Result<BlueprintDoc, (nat, Failure)>)
    requires bp.Valid() && SoundPatch(ops) && LeavesPatchAlone(bp.View(), EditsOf(ops))
    requires bp.Dicts() !! PatchDicts(ops) && Elems(OrEmpty(bp.edges)) !! PatchEdges(ops)
    modifies PatchEdges(ops), PatchDicts(ops)
    ensures match ApplyAll(old(bp.View()), old(EditsOf(ops)))
            case Ok(d) => again.Ok? && again.value.Valid() && again.value.View() == d
            case Err(e) => again == Err(e)
  {
    hide ApplyAll, DictCell.Valid, BlueprintDoc.View, LeavesPatchAlone, Traced, SoundPatch, PatchEdges, PatchDicts,
      ContentCells, EditsOf, StateOf;
    ghost var patchEdges, patchDicts := Owned(ops);
    var first, _ := ApplyPatchToDict(bp, ops);
    var second, _ := ApplyPatchToDict(bp, ops);
    return second;
  }

  lemma RewireAfterInsert(d: Doc, mod: Fields, to: string)
    requires d == Doc(None, None, None, map[]) && mod == map["id" := Str("probe")]
    ensures ApplyAll(d, [InsertModule(mod, [EdgeSpec("probe", to)], []),
                         ReplaceEdge("probe", "sink", None, Some("spill"), None)])
            == if to == "sink" then Ok(Doc(Some([mod]), Some([EdgeSpec("probe", "spill")]), None, map[]))
               else Err((1, EdgeNotFound))
  {
    var insert: Edit := InsertModule(mod, [EdgeSpec("probe", to)], []);
    var rewire: Edit := ReplaceEdge("probe", "sink", None, Some("spill"), None);
    var mid := Doc(Some([mod]), Some([EdgeSpec("probe", to)]), None, map[]);
    assert [insert, rewire][..1] == [insert] && [insert][..0] == [];
    assert [] + [mod] == [mod] && [] + [EdgeSpec("probe", to)] == [EdgeSpec("probe", to)];
    assert AddEdges(RemoveEdges(d.edges, []).value, [EdgeSpec("probe", to)]) == Ok(mid.edges);
    assert AppendModule(d, mod, [], [EdgeSpec("probe", to)]) == Ok(mid);
    assert ApplyOp(d, insert) == Ok(mid);
    assert ApplyAll(d, [insert]) == Ok(mid);
    var es := [EdgeSpec("probe", to)];
    assert Joins(es[0], Str("probe"), Str("sink")) <==> to == "sink";
    assert EdgeSpec("probe", "sink")["to" := Str("spill")] == EdgeSpec("probe", "spill");
    assert es[0 := EdgeSpec("probe", "spill")] == [EdgeSpec("probe", "spill")];
    assert ApplyOp(mid, rewire)
        == if to == "sink" then Ok(mid.(edges := Some([EdgeSpec("probe", "spill")]))) else Err(EdgeNotFound);
  }

  /** Why the condition is there: a patch that rewires its own edge is changed by being applied, and then no longer
      applies. */
  method RewiringOwnEdgeSpoilsPatch() returns (first: bool, second: bool)
    ensures first && !second
  {
    hide ApplyAll, SoundPatch, PatchEdges, PatchDicts, ContentCells, LeavesPatchAlone, Traced, EditsOf, DictCell.Valid,
      StateOf;
    var mod := map["id" := Str("probe")];
    var edge := new EdgeCell(EdgeSpec("probe", "sink"));
    var bp := new BlueprintDoc(None, None, None, map[]);
    var ops: seq<HeapOp> := [Op.InsertModule(mod, [edge], []),
                             Op.ReplaceEdge("probe", "sink", None, Some("spill"), None)];
    RewireAfterInsert(bp.View(), mod, "sink");
    RewireAfterInsert(bp.View(), mod, "spill");
    OneEdgePatch(ops, edge);
    var r1, _ := ApplyPatchToDict(bp, ops);
    assert EdgesView(r1.value.edges) == Some([EdgeSpec("probe", "spill")]);
    assert r1.value.edges.value[0] in Elems(r1.value.edges.value);
    assert edge.fields == EdgeSpec("probe", "spill");
    OneEdgePatch(ops, edge);
    var r2, _ := ApplyPatchToDict(bp, ops);
    return r1.Ok?, r2.Ok?;
  }

  lemma OneEdgePatch(ops: seq<HeapOp>, edge: EdgeCell)
    requires |ops| == 2 && ops[0].InsertModule? && ops[0].edgesToAdd == [edge] && ops[1].ReplaceEdge?
    ensures SoundPatch(ops) && PatchEdges(ops) == {edge} && PatchDicts(ops) == {}
    ensures EditsOf(ops) == [Op.InsertModule(ops[0].mod, [edge.fields], ops[0].edgesToRemove), EditOf(ops[1])]
  {
    hide DictCell.Valid;
    assert EdgesOf(ops[0]) == [edge] && EdgesOf(ops[1]) == [];
    assert ContentOf(ops[0]) == ContentOf(ops[1]) == Plain(Null);
    assert PatchEdges(ops) == {edge} by {
      assert edge in EdgesOf(ops[0]);
    }
    assert PatchDicts(ops) == {};
    assert EdgeViews([edge]) == [edge.fields];
    assert EditOf(ops[0]) == Op.InsertModule(ops[0].mod, [edge.fields], ops[0].edgesToRemove);
    assert EditsOf(ops) == [EditOf(ops[0]), EditOf(ops[1])];
  }

  lemma HolderOfTwo(c: DictCell, d: DictCell)
    requires c.Valid() && "a" in c.entries && c.entries["a"] == Ref(d)
    ensures d.Valid() && d.repr <= c.repr && c.view.Keys == c.entries.Keys && c.view["a"] == Dict(d.view)
    ensures Holder(c, ["a", "x"]) == Some(d)
  {
    hide DictCell.Valid;
    Child(c, "a");
    assert ["a", "x"][1..] == ["x"];
  }

  lemma HolderOfThree(c: DictCell, d: DictCell, e: DictCell)
    requires c.Valid() && "a" in c.entries && c.entries["a"] == Ref(d) && "x" in d.entries && d.entries["x"] == Ref(e)
    ensures Holder(c, ["a", "x", "y"]) == Some(e) && d in c.repr && e in c.repr && d != e && c != d && c != e
  {
    hide DictCell.Valid;
    Child(c, "a");
    Shape(d);
    Child(d, "x");
    Shape(e);
    assert ["a", "x", "y"][1..] == ["x", "y"] && ["x", "y"][1..] == ["y"];
    assert Holder(c, ["a", "x", "y"]) == Holder(d, ["x", "y"]) == Holder(e, ["y"]);
  }

  /** The three operations of `NestedWrites`, the dictionary that the first one stores being `outer`. */
  ghost predicate IsNested(ops: seq<HeapOp>, outer: DictCell) {
    ops == [Op.ReplaceContextValue("a", Ref(outer)), Op.ReplaceContextValue("a.x.y", Plain(Num(2))),
            Op.ReplaceContextValue("a.x", Plain(Num(5)))]
  }

  lemma NestedPatch(ops: seq<HeapOp>, outer: DictCell)
    requires IsNested(ops, outer) && outer.Valid()
    ensures SoundPatch(ops) && PatchEdges(ops) == {} && PatchDicts(ops) == outer.repr
    ensures EditsOf(ops) == NestedWrites(Dict(outer.view))
  {
    hide DictCell.Valid;
    assert Repr(ContentOf(ops[0])) == outer.repr && Repr(ContentOf(ops[1])) == Repr(ContentOf(ops[2])) == {};
    assert PatchDicts(ops) == outer.repr;
    hide Repr;
    NestedEdits(ops, outer);
  }

  lemma NestedEdits(ops: seq<HeapOp>, outer: DictCell)
    requires IsNested(ops, outer)
    ensures EditsOf(ops) == NestedWrites(Dict(outer.view))
  {
    assert EditsOf(ops) == [EditOf(ops[0]), EditOf(ops[1]), EditOf(ops[2])];
  }

  method StoreOuter(doc: BlueprintDoc, ghost root: DictCell, outer: DictCell)
    requires doc.context == Some(Ref(root)) && doc.Valid() && doc.View() == EmptyContext()
    requires outer.Valid() && outer.repr !! doc.Dicts()
    modifies doc.Dicts()
    ensures doc.Valid() && doc.View() == InContext(Dict(outer.view)) && doc.Dicts() == old(doc.Dicts()) + outer.repr
    ensures root.entries == map["a" := Ref(outer)] && Marked(doc.ContextNode(), outer.repr, {["a"]})
  {
    hide DictCell.Valid, ApplyOp, Walk, InContext, Split, Marked;
    NestedKeys();
    Unmarked(doc, outer.repr);
    Inserting(Dict(outer.view));
    EmptyRoot(root);
    Shape(outer);
    assert Holder(root, ["a"]) == Some(root);
    var failed := doc.ReplaceContextValue("a", Ref(outer), outer.repr, {});
    assert {} + {["a"]} == {["a"]};
  }

  lemma EmptyRoot(root: DictCell)
    requires root.Valid() && root.view == map[]
    ensures root.entries == map[]
  {
  }

  method WriteY(doc: BlueprintDoc, ghost root: DictCell, ghost outer: DictCell, ghost inner: DictCell)
    requires doc.context == Some(Ref(root)) && doc.Valid() && outer in doc.Dicts() && inner in doc.Dicts()
    requires doc.View() == InContext(OneKey("x", OneKey("y", Num(1))))
    requires root.entries == map["a" := Ref(outer)] && outer.entries == map["x" := Ref(inner)]
    requires Marked(doc.ContextNode(), {outer, inner}, {["a"]})
    modifies doc.Dicts()
    ensures doc.Valid() && doc.View() == InContext(OneKey("x", OneKey("y", Num(2)))) && doc.Dicts() == old(doc.Dicts())
    ensures root.entries == map["a" := Ref(outer)] && outer.entries == map["x" := Ref(inner)]
    ensures Marked(doc.ContextNode(), {outer, inner}, {["a"], ["a", "x", "y"]})
  {
    hide DictCell.Valid, ApplyOp, Walk, InContext, OneKey, Split, Marked, Holder;
    NestedKeys();
    WritingY(Num(1), 2);
    HolderOfThree(root, outer, inner);
    Shape(root);
    var failed := doc.ReplaceContextValue("a.x.y", Plain(Num(2)), {outer, inner}, {["a"]});
    assert {["a"]} + {["a", "x", "y"]} == {["a"], ["a", "x", "y"]};
  }

  method ReplaceX(doc: BlueprintDoc, ghost root: DictCell, ghost outer: DictCell, ghost inner: DictCell)
    requires doc.context == Some(Ref(root)) && doc.Valid() && outer in doc.Dicts() && inner in doc.Dicts()
    requires doc.View() == InContext(OneKey("x", OneKey("y", Num(2))))
    requires root.entries == map["a" := Ref(outer)] && outer.entries == map["x" := Ref(inner)]
    requires Marked(doc.ContextNode(), {outer, inner}, {["a"], ["a", "x", "y"]})
    modifies doc.Dicts()
    ensures doc.Valid() && doc.View() == InContext(OneKey("x", Num(5))) && doc.Dicts() == old(doc.Dicts())
    ensures outer.Valid() && outer.repr <= doc.Dicts() && outer.view == map["x" := Num(5)]
  {
    hide DictCell.Valid, ApplyOp, Walk, Split, Marked, Holder;
    NestedKeys();
    WritingX(OneKey("y", Num(2)), 5);
    HolderOfTwo(root, outer);
    HolderOfThree(root, outer, inner);
    var failed := doc.ReplaceContextValue("a.x", Plain(Num(5)), {outer, inner}, {["a"], ["a", "x", "y"]});
    HolderOfTwo(root, outer);
  }

  /** `{"x": {"y": 1}}` */
  method NestedDicts() returns (outer: DictCell, inner: DictCell)
    ensures fresh(outer) && fresh(inner) && outer.Valid() && outer.repr == {outer, inner}
    ensures outer.entries == map["x" := Ref(inner)] && Dict(outer.view) == OneKey("x", OneKey("y", Num(1)))
  {
    hide DictCell.Valid;
    inner := new DictCell();
    inner.Put("y", Plain(Num(1)));
    outer := new DictCell();
    outer.Put("x", Ref(inner));
  }

  /** The first application of the patch, operation by operation. */
  method FirstTime(bp: BlueprintDoc, outer: DictCell, ghost inner: DictCell)
    requires bp.Valid() && bp.View() == EmptyContext() && bp.Dicts() !! {outer, inner}
    requires outer.Valid() && outer.repr == {outer, inner} && outer.entries == map["x" := Ref(inner)]
    requires Dict(outer.view) == OneKey("x", OneKey("y", Num(1)))
    modifies outer, inner
    ensures outer.Valid() && outer.view == map["x" := Num(5)]
    ensures forall c :: c in outer.repr ==> c in {outer, inner} || fresh(c)
  {
    hide DictCell.Valid, ApplyOp, Walk, InContext, OneKey, Marked, Holder;
    var doc := CopyDoc(bp);
    assert doc.ContextNode().Ref?;
    ghost var root := doc.context.value.cell;
    StoreOuter(doc, root, outer);
    WriteY(doc, root, outer, inner);
    ReplaceX(doc, root, outer, inner);
  }

  /**
   * A patch that writes below a dictionary of its own can spoil itself too. The first application takes from the
   * stored dictionary what the second operation needs, and the next application fails there.
   */
  method WritingOwnDictSpoilsPatch() returns (again: Result<BlueprintDoc, (nat, Failure)>)
    ensures again == Err((1, InvalidKeyPath))
  {
    hide DictCell.Valid, ApplyAll, SoundPatch, PatchEdges, PatchDicts, ContentCells, LeavesPatchAlone, Traced, EditsOf,
      StateOf;
    var root := new DictCell();
    var bp := new BlueprintDoc(None, None, Some(Ref(root)), map[]);
    var outer, inner := NestedDicts();
    FirstTime(bp, outer, inner);
    var ops: seq<HeapOp> := [Op.ReplaceContextValue("a", Ref(outer)), Op.ReplaceContextValue("a.x.y", Plain(Num(2))),
                             Op.ReplaceContextValue("a.x", Plain(Num(5)))];
    NestedPatch(ops, outer);
    NestedWritesOutcome();
    var r, _ := ApplyPatchToDict(bp, ops);
    return r;
  }
}
