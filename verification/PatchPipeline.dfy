/** `apply_patch_file` (aqueduct/patch/apply.py): guardrails, then the operations, then the parser. */
module PatchPipeline {
  import opened Common
  import opened PatchModel
  import opened PatchSharing
  import opened SharedDicts
  import opened PatchDocument
  import opened PatchApply
  import opened Guardrails

  datatype PatchError = Refused(at: nat, why: Violation) | Failed(at: nat, reason: Failure) | Unparsable

  /** An operation as far as the guardrail check looks at it: without edges and context value. */
  function Surface(op: HeapOp): Edit {
    match op
    case ReplaceModuleConfig(id, config) => ReplaceModuleConfig(id, config)
    case SetModuleConfigKey(id, key, v) => SetModuleConfigKey(id, key, v)
    case ReplaceModuleLabel(id, text) => ReplaceModuleLabel(id, text)
    case InsertModule(mod, _, remove) => InsertModule(mod, [], remove)
    case RemoveModule(id, _) => RemoveModule(id, [])
    case ReplaceContextValue(key, _) => ReplaceContextValue(key, Null)
    case AddProbe(mod, _) => AddProbe(mod, [])
    case ReplaceEdge(from, to, newFrom, newTo, newPort) => ReplaceEdge(from, to, newFrom, newTo, newPort)
    case SetModuleOnFailure(id, policy) => SetModuleOnFailure(id, policy)
    case ReplaceRetryPolicy(policy) => ReplaceRetryPolicy(policy)
    case AddArcadeRef(mod, _, remove) => AddArcadeRef(mod, [], remove)
    case DeferToHuman => DeferToHuman
    case SetSparkConfig(key, v) => SetSparkConfig(key, v)
  }

  lemma SurfaceDecides(g: Guard, op: HeapOp)
    ensures CheckOp(g, Surface(op)) == CheckOp(g, EditOf(op))
  {
    hide CheckModule;
  }

  ghost predicate Acceptable(g: Guard, edits: seq<Edit>) {
    forall i :: 0 <= i < |edits| ==> CheckOp(g, edits[i]).None?
  }

  method CheckPatch(g: Guard, ops: seq<HeapOp>) returns (r: Result<(), (nat, Violation)>)
    requires SoundPatch(ops)
    ensures r.Ok? <==> Acceptable(g, EditsOf(ops))
    ensures r.Err? ==>
              && r.error.0 < |ops| && CheckOp(g, EditsOf(ops)[r.error.0]) == Some(r.error.1)
              && Acceptable(g, EditsOf(ops)[..r.error.0])
  {
    hide CheckOp, EditOf, Surface, SoundPatch, PatchEdges, PatchDicts, ContentCells, DictCell.Valid;
    ghost var patchEdges, patchDicts := Owned(ops);
    ghost var edits := EditsOf(ops);
    var surfaces := seq(|ops|, i requires 0 <= i < |ops| => Surface(ops[i]));
    forall i | 0 <= i < |ops| ensures CheckOp(g, surfaces[i]) == CheckOp(g, edits[i]) {
      SurfaceDecides(g, ops[i]);
    }
    r := CheckGuardrails(g, surfaces);
  }

  /** The one outcome of a patch: guardrails speak first, then the operations, then the parser. */
  ghost predicate IsOutcome(r: Result<Doc, PatchError>, g: Guard, d: Doc, edits: seq<Edit>, parses: bool) {
    match r
    case Err(Refused(i, why)) => i < |edits| && CheckOp(g, edits[i]) == Some(why) && Acceptable(g, edits[..i])
    case Err(Failed(i, reason)) => Acceptable(g, edits) && ApplyAll(d, edits) == Err((i, reason))
    case Err(Unparsable) => Acceptable(g, edits) && ApplyAll(d, edits).Ok? && !parses
    case Ok(patched) => Acceptable(g, edits) && ApplyAll(d, edits) == Ok(patched) && parses
  }

  lemma AcceptedIsSafe(g: Guard, d: Doc, edits: seq<Edit>, patched: Doc)
    requires Acceptable(g, edits) && ApplyAll(d, edits) == Ok(patched)
    ensures g.allowed != [] ==> AllVouched(g, OrEmpty(d.modules), OrEmpty(patched.modules))
    ensures Get(patched.rest, "agent") == Get(d.rest, "agent")
    ensures forall i :: 0 <= i < |edits| ==>
            !Forbidden(g, edits[i]) && (g.allowed != [] ==> WritesPermitted(g, edits[i]))
  {
    hide CheckOp, ApplyAll, AllVouched, Forbidden, WritesPermitted;
    forall i | 0 <= i < |edits|
      ensures !Forbidden(g, edits[i]) && (g.allowed != [] ==> WritesPermitted(g, edits[i]))
    {
      CheckMeans(g, edits[i]);
    }
    if g.allowed != [] {
      AcceptedPatchIsConfined(g, d, edits);
    }
    GuardrailsSurvive(d, edits);
  }

  /**
   * What is written back: nothing unless guardrails, operations and parser all agree. Then, with a non-empty
   * allow-list, every path of a `__`-free module is permitted or was there before under that id, and the guardrails
   * themselves are untouched. `parses` is the parser's verdict on the patched Blueprint.
   */
  method ApplyPatchFile(g: Guard, bp: BlueprintDoc, ops: seq<HeapOp>, parses: bool)
    returns (written: Result<BlueprintDoc, PatchError>)
    requires bp.Valid() && SoundPatch(ops)
    requires bp.Dicts() !! PatchDicts(ops) && Elems(OrEmpty(bp.edges)) !! PatchEdges(ops)
    modifies PatchEdges(ops), PatchDicts(ops)
    ensures bp.Valid() && bp.View() == old(bp.View())
    ensures IsOutcome(if written.Ok? then Ok(written.value.View()) else Err(written.error),
                      g, old(bp.View()), old(EditsOf(ops)), parses)
    ensures written.Ok? && g.allowed != [] ==>
              AllVouched(g, OrEmpty(old(bp.View()).modules), OrEmpty(written.value.View().modules))
    // no operation of it is forbidden by name, and every path it writes is permitted
    ensures written.Ok? ==>
              forall i :: 0 <= i < |old(EditsOf(ops))| ==>
                && !Forbidden(g, old(EditsOf(ops))[i])
                && (g.allowed != [] ==> WritesPermitted(g, old(EditsOf(ops))[i]))
    ensures written.Ok? ==> Get(written.value.View().rest, "agent") == Get(old(bp.View()).rest, "agent")
  {
    hide CheckOp, ApplyAll, AllVouched, SoundPatch, PatchEdges, PatchDicts, ContentCells, LeavesPatchAlone,
      Traced, StateOf, DictCell.Valid, EditsOf, Acceptable, Get, BlueprintDoc.View,
      Forbidden, WritesPermitted;
    ContextIsOwned(bp);
    ghost var patchEdges, patchDicts := Owned(ops);
    ghost var edits, before := EditsOf(ops), bp.View();
    var checked := CheckPatch(g, ops);
    if checked.Err? {
      return Err(Refused(checked.error.0, checked.error.1));
    }
    var patched, _ := ApplyPatchToDict(bp, ops);
    if patched.Err? {
      return Err(Failed(patched.error.0, patched.error.1));
    }
    AcceptedIsSafe(g, before, edits, patched.value.View());
    return if parses then Ok(patched.value) else Err(Unparsable);
  }
}
