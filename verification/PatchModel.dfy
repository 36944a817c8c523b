/** Patch operations as edits of a Blueprint document (aqueduct/patch/operations.py): the meaning of each. */
module PatchModel {
  import opened Common

  datatype Value =
    | Null
    | Bool(b: bool)
    | Num(n: int)
    | Str(s: string)
    | List(items: seq<Value>)
    | Dict(fields: map<string, Value>)

  type Fields = map<string, Value>

  /** The raw Blueprint; an absent `modules`, `edges` or `context` key is None, all other keys are in `rest`. */
  datatype Doc = Doc(modules: Option<seq<Fields>>, edges: Option<seq<Fields>>, context: Option<Value>, rest: Fields)

  /** A patch operation; `E` and `V` are how it holds edge specs and context values (here by value, in the heap by
      reference). */
  datatype Op<E, V> =
    | ReplaceModuleConfig(moduleId: string, config: Fields)
    | SetModuleConfigKey(moduleId: string, key: string, value: Value)
    | ReplaceModuleLabel(moduleId: string, text: string)
    | InsertModule(mod: Fields, edgesToAdd: seq<E>, edgesToRemove: seq<Fields>)
    | RemoveModule(moduleId: string, edgesToAdd: seq<E>)
    | ReplaceContextValue(key: string, content: V)
    | AddProbe(mod: Fields, edgesToAdd: seq<E>)
    | ReplaceEdge(fromId: string, toId: string, newFrom: Option<string>, newTo: Option<string>, newPort: Option<string>)
    | SetModuleOnFailure(moduleId: string, onFailure: Fields)
    | ReplaceRetryPolicy(policy: Fields)
    | AddArcadeRef(mod: Fields, edgesToAdd: seq<E>, edgesToRemove: seq<Fields>)
    | DeferToHuman
    | SetSparkConfig(key: string, value: Value)

  type Edit = Op<Fields, Value>

  datatype Failure =
    | ModuleNotFound | EdgeNotFound | MissingModuleId | WrongModuleType | MissingAttachTo | MissingRef
    | DuplicateModule | InvalidKeyPath | IncompleteEdge | NothingToReplace | NoContext
    | Crash // a Python error other than PatchOperationError

  // ----- dictionary helpers -----

  /** The value under a key; an absent key reads as null. */
  function Get(d: Fields, k: string): Value {
    if k in d then d[k] else Null
  }

  /** Python truth of a value, negated. */
  predicate Falsy(v: Value) {
    match v
    case Null => true
    case Bool(b) => !b
    case Num(n) => n == 0
    case Str(s) => s == ""
    case List(items) => items == []
    case Dict(fields) => fields == map[]
  }

  /** The parts of a dotted key. */
  function Split(s: string): (parts: seq<string>)
    ensures parts != []
    ensures |parts| == 1 ==> parts[0] == s
  {
    if s == "" then [""]
    else
      var rest := Split(s[1..]);
      if s[0] == '.' then [""] + rest else [[s[0]] + rest[0]] + rest[1..]
  }

  /** A key without dots is its own only part. */
  lemma {:induction false} UndottedKey(key: string)
    requires '.' !in key
    ensures Split(key) == [key]
  {
    if key != "" {
      UndottedKey(key[1..]);
      assert key == [key[0]] + key[1..];
    }
  }

  /** The first part ends at the first dot. */
  lemma {:induction false} SplitAtDot(head: string, tail: string)
    requires '.' !in head
    ensures Split(head + "." + tail) == [head] + Split(tail)
  {
    var s := head + "." + tail;
    if head != "" {
      SplitAtDot(head[1..], tail);
      assert s[1..] == head[1..] + "." + tail;
      assert head == [head[0]] + head[1..];
    } else {
      assert s[1..] == tail;
    }
  }

  /** `_set_nested` on a dictionary. */
  function SetNested(d: Fields, parts: seq<string>, v: Value): Result<Fields, Failure>
    requires parts != []
    decreases |parts|
  {
    if |parts| == 1 then Ok(d[parts[0] := v])
    else if parts[0] !in d || !d[parts[0]].Dict? then Err(InvalidKeyPath)
    else
      var inner := SetNested(d[parts[0]].fields, parts[1..], v);
      if inner.Err? then inner else Ok(d[parts[0] := Dict(inner.value)])
  }

  /** What a path of keys leads to. */
  function Lookup(v: Value, path: seq<string>): Option<Value>
    decreases |path|
  {
    if path == [] then Some(v)
    else if v.Dict? && path[0] in v.fields then Lookup(v.fields[path[0]], path[1..])
    else None
  }

  /** A string occurs inside another. */
  predicate Occurs(part: string, s: string) {
    part <= s || (s != "" && Occurs(part, s[1..]))
  }

  /** `_set_nested` on whatever the key holds: only a dictionary can be written to. */
  function SetNestedIn(container: Value, key: string, v: Value): Result<Value, Failure> {
    var parts := Split(key);
    match container
    case Dict(fields) =>
      var d := SetNested(fields, parts, v);
      if d.Err? then Err(d.error) else Ok(Dict(d.value))
    case List(items) => Err(if |parts| > 1 && Str(parts[0]) !in items then InvalidKeyPath else Crash)
    case Str(s) => Err(if |parts| > 1 && !Occurs(parts[0], s) then InvalidKeyPath else Crash)
    case _ => Err(Crash)
  }

  // ----- list helpers -----

  predicate HasId(m: Fields, id: Value) {
    Get(m, "id") == id
  }

  predicate Joins(e: Fields, from: Value, to: Value) {
    Get(e, "from") == from && Get(e, "to") == to
  }

  predicate Mentions(e: Fields, id: Value) {
    Get(e, "from") == id || Get(e, "to") == id
  }

  /** Index of the first module with this id, or the length. */
  function FindModule(ms: seq<Fields>, id: Value): (k: nat)
    ensures k <= |ms| && (k < |ms| ==> HasId(ms[k], id))
    ensures forall i :: 0 <= i < k ==> !HasId(ms[i], id)
  {
    if ms == [] || HasId(ms[0], id) then 0 else 1 + FindModule(ms[1..], id)
  }

  /** Index of the first edge between these modules, or the length. */
  function FindEdge(es: seq<Fields>, from: Value, to: Value): (k: nat)
    ensures k <= |es| && (k < |es| ==> Joins(es[k], from, to))
    ensures forall i :: 0 <= i < k ==> !Joins(es[i], from, to)
  {
    if es == [] || Joins(es[0], from, to) then 0 else 1 + FindEdge(es[1..], from, to)
  }

  function WithoutJoining(es: seq<Fields>, from: Value, to: Value): (r: seq<Fields>)
    ensures |r| <= |es|
  {
    if es == [] then [] else
    var init, last := WithoutJoining(es[..|es| - 1], from, to), es[|es| - 1];
    if Joins(last, from, to) then init else init + [last]
  }

  function WithoutMentioning(es: seq<Fields>, id: Value): (r: seq<Fields>)
    ensures |r| <= |es|
  {
    if es == [] then [] else
    var init, last := WithoutMentioning(es[..|es| - 1], id), es[|es| - 1];
    if Mentions(last, id) then init else init + [last]
  }

  function WithoutModule(ms: seq<Fields>, id: Value): (r: seq<Fields>)
    ensures forall m :: m in r <==> m in ms && !HasId(m, id)
  {
    if ms == [] then [] else
    var init, last := WithoutModule(ms[..|ms| - 1], id), ms[|ms| - 1];
    assert ms == ms[..|ms| - 1] + [last];
    if HasId(last, id) then init else init + [last]
  }

  function OrEmpty<T>(o: Option<seq<T>>): seq<T> {
    match o case Some(s) => s case None => []
  }

  // ----- edge edits -----

  /** `_remove_edges_matching`: every spec must remove something. */
  function RemoveEdges(es: Option<seq<Fields>>, specs: seq<Fields>): Result<Option<seq<Fields>>, Failure> {
    if specs == [] then Ok(es) else
    var before := RemoveEdges(es, specs[..|specs| - 1]);
    var spec := specs[|specs| - 1];
    if before.Err? then before else
    var left := WithoutJoining(OrEmpty(before.value), Get(spec, "from"), Get(spec, "to"));
    if |left| == |OrEmpty(before.value)| then Err(EdgeNotFound) else Ok(Some(left))
  }

  predicate CompleteEdge(spec: Fields) {
    "from" in spec && "to" in spec
  }

  /** `_add_edges` */
  function AddEdges(es: Option<seq<Fields>>, specs: seq<Fields>): Result<Option<seq<Fields>>, Failure> {
    if forall i :: 0 <= i < |specs| ==> CompleteEdge(specs[i]) then Ok(Some(OrEmpty(es) + specs))
    else Err(IncompleteEdge)
  }

  function Redirect(e: Fields, op: Edit): Fields
    requires op.ReplaceEdge?
  {
    var e1 := if op.newFrom.Some? then e["from" := Str(op.newFrom.value)] else e;
    var e2 := if op.newTo.Some? then e1["to" := Str(op.newTo.value)] else e1;
    if op.newPort.Some? then e2["port" := Str(op.newPort.value)] else e2
  }

  // ----- operations -----

  /** Rewrites the first module called `id`. */
  function EditModule(d: Doc, id: string, f: Fields -> Result<Fields, Failure>): Result<Doc, Failure> {
    var ms := OrEmpty(d.modules);
    var k := FindModule(ms, Str(id));
    if k == |ms| then Err(ModuleNotFound) else
    var m := f(ms[k]);
    if m.Err? then Err(m.error) else Ok(d.(modules := Some(ms[k := m.value])))
  }

  function PutField(key: string, v: Value): Fields -> Result<Fields, Failure> {
    (m: Fields) => Ok(m[key := v])
  }

  function PutConfigKey(key: string, v: Value): Fields -> Result<Fields, Failure> {
    (m: Fields) =>
      var config := SetNestedIn(if Get(m, "config").Null? then Dict(map[]) else m["config"], key, v);
      if config.Err? then Err(config.error) else Ok(m["config" := config.value])
  }

  /** Appends a module, then edits the edges. */
  function AppendModule(d: Doc, mod: Fields, remove: seq<Fields>, add: seq<Fields>): Result<Doc, Failure> {
    var removed := RemoveEdges(d.edges, remove);
    if removed.Err? then Err(removed.error) else
    var added := AddEdges(removed.value, add);
    if added.Err? then Err(added.error) else
    Ok(d.(modules := Some(OrEmpty(d.modules) + [mod]), edges := added.value))
  }

  function KnownId(d: Doc, id: Value): bool {
    FindModule(OrEmpty(d.modules), id) < |OrEmpty(d.modules)|
  }

  function ApplyOp(d: Doc, op: Edit): Result<Doc, Failure> {
    match op
    case ReplaceModuleConfig(id, config) => EditModule(d, id, PutField("config", Dict(config)))
    case SetModuleConfigKey(id, key, v) => EditModule(d, id, PutConfigKey(key, v))
    case ReplaceModuleLabel(id, text) => EditModule(d, id, PutField("label", Str(text)))
    case SetModuleOnFailure(id, policy) => EditModule(d, id, PutField("on_failure", Dict(policy)))
    case InsertModule(mod, add, remove) =>
      if Falsy(Get(mod, "id")) then Err(MissingModuleId)
      else if KnownId(d, Get(mod, "id")) then Err(DuplicateModule)
      else AppendModule(d, mod, remove, add)
    case AddArcadeRef(mod, add, remove) =>
      if Falsy(Get(mod, "id")) then Err(MissingModuleId)
      else if Get(mod, "type") != Str("Arcade") then Err(WrongModuleType)
      else if Falsy(Get(mod, "ref")) then Err(MissingRef)
      else if KnownId(d, Get(mod, "id")) then Err(DuplicateModule)
      else AppendModule(d, mod, remove, add)
    case AddProbe(mod, add) =>
      if Falsy(Get(mod, "id")) then Err(MissingModuleId)
      else if Get(mod, "type") != Str("Probe") then Err(WrongModuleType)
      else if Falsy(Get(mod, "attach_to")) then Err(MissingAttachTo)
      else if !KnownId(d, Get(mod, "attach_to")) then Err(ModuleNotFound)
      else AppendModule(d, mod, [], add)
    case RemoveModule(id, add) =>
      if !KnownId(d, Str(id)) then Err(ModuleNotFound) else
      var added := AddEdges(Some(WithoutMentioning(OrEmpty(d.edges), Str(id))), add);
      if added.Err? then Err(added.error) else
      Ok(d.(modules := Some(WithoutModule(OrEmpty(d.modules), Str(id))), edges := added.value))
    case ReplaceEdge(from, to, newFrom, newTo, newPort) =>
      if newFrom.None? && newTo.None? && newPort.None? then Err(NothingToReplace) else
      var es := OrEmpty(d.edges);
      var k := FindEdge(es, Str(from), Str(to));
      if k == |es| then Err(EdgeNotFound) else Ok(d.(edges := Some(es[k := Redirect(es[k], op)])))
    case ReplaceContextValue(key, v) =>
      if d.context.None? || d.context.value.Null? then Err(NoContext) else
      var context := SetNestedIn(d.context.value, key, v);
      if context.Err? then Err(context.error) else Ok(d.(context := Some(context.value)))
    case ReplaceRetryPolicy(policy) => Ok(d.(rest := d.rest["retry_policy" := Dict(policy)]))
    case SetSparkConfig(key, v) =>
      var block := if "spark_config" in d.rest then d.rest["spark_config"] else Dict(map[]);
      if !block.Dict? then Err(Crash) else Ok(d.(rest := d.rest["spark_config" := Dict(block.fields[key := v])]))
    case DeferToHuman => Ok(d)
  }

  /** The whole patch, left to right; `Err` carries the index of the operation that failed. */
  function ApplyAll(d: Doc, ops: seq<Edit>): Result<Doc, (nat, Failure)> {
    if ops == [] then Ok(d) else
    var before := ApplyAll(d, ops[..|ops| - 1]);
    if before.Err? then before else
    var last := ApplyOp(before.value, ops[|ops| - 1]);
    if last.Err? then Err((|ops| - 1, last.error)) else Ok(last.value)
  }

  // ----- the fold -----

  /** All or nothing: once an operation fails, no continuation can succeed, and the error is that one. */
  lemma {:induction false} FailureSticks(d: Doc, ops: seq<Edit>, i: nat)
    requires i <= |ops| && ApplyAll(d, ops[..i]).Err?
    ensures ApplyAll(d, ops) == ApplyAll(d, ops[..i])
    decreases |ops|
  {
    hide ApplyOp;
    if i == |ops| {
      assert ops[..i] == ops;
    } else {
      assert ops[..|ops| - 1][..i] == ops[..i];
      FailureSticks(d, ops[..|ops| - 1], i);
    }
  }

  /** Applying `p ++ q` is applying `q` to the result of `p`. */
  lemma {:induction false} ApplyConcat(d: Doc, p: seq<Edit>, q: seq<Edit>)
    ensures ApplyAll(d, p).Err? ==> ApplyAll(d, p + q) == ApplyAll(d, p)
    ensures ApplyAll(d, p).Ok? ==>
              ApplyAll(d, p + q) ==
              var r := ApplyAll(ApplyAll(d, p).value, q);
              if r.Err? then Err((|p| + r.error.0, r.error.1)) else r
    decreases |q|
  {
    hide ApplyOp;
    if q == [] {
      assert p + q == p;
    } else {
      assert (p + q)[..|p + q| - 1] == p + q[..|q| - 1];
      ApplyConcat(d, p, q[..|q| - 1]);
    }
  }

  /** Deferral leaves the Blueprint alone. */
  lemma {:induction false} DeferralChangesNothing(d: Doc, ops: seq<Edit>)
    requires forall i :: 0 <= i < |ops| ==> ops[i] == DeferToHuman
    ensures ApplyAll(d, ops) == Ok(d)
  {
    if ops != [] {
      DeferralChangesNothing(d, ops[..|ops| - 1]);
    }
  }
}
