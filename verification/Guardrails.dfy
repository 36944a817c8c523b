/** The guardrail check on patches (aqueduct/patch/apply.py:151-275) and what it guarantees about the patched
    Blueprint. */
module Guardrails {
  import opened Common
  import opened PatchModel
  import opened PatchLaws
  import Naming

  /** `agent.guardrails`, the provenance map, and the two library calls the check depends on. */
  datatype Guard = Guard(
    forbidden: seq<string>,
    allowed: seq<string>,
    provenance: Option<map<string, Option<string>>>, // context key to resolved value
    matches: (string, string) -> bool,               // fnmatch
    render: Value -> string)                         // str() of a non-string

  datatype Violation = ForbiddenOp | PathNotAllowed | BadModuleId

  const PATH_KEYS: set<string> := {"path", "output_path"}

  // ----- resolving a path -----

  predicate KeyChar(c: char) {
    'a' <= c <= 'z' || 'A' <= c <= 'Z' || '0' <= c <= '9' || c == '_' || c == '.'
  }

  predicate KeyChars(s: string) {
    forall i :: 0 <= i < |s| ==> KeyChar(s[i])
  }

  /** The key of a string that is one `${ctx.key}` reference; `$` also matches before a final newline. */
  function CtxKey(s: string): Option<string> {
    var t := if s != "" && s[|s| - 1] == '\n' then s[..|s| - 1] else s;
    if "${ctx." <= t && |t| > 7 && t[|t| - 1] == '}' then
      var key := t[6..|t| - 1];
      if KeyChars(key) then Some(key) else None
    else None
  }

  function Text(g: Guard, v: Value): string {
    if Falsy(v) then "" else if v.Str? then v.s else g.render(v)
  }

  function Resolve(g: Guard, v: Value): string {
    var text := Text(g, v);
    var key := CtxKey(text);
    if key.Some? && g.provenance.Some? && key.value in g.provenance.value && g.provenance.value[key.value].Some?
    then g.provenance.value[key.value].value
    else text
  }

  /** Nothing, or a path that some pattern matches. */
  predicate Admits(g: Guard, path: string) {
    path == "" || exists i :: 0 <= i < |g.allowed| && g.matches(path, g.allowed[i])
  }

  predicate Permitted(g: Guard, v: Value) {
    Admits(g, Resolve(g, v))
  }

  // ----- checking an operation -----

  function OpName(op: Edit): string {
    match op
    case ReplaceModuleConfig(_, _) => "replace_module_config"
    case SetModuleConfigKey(_, _, _) => "set_module_config_key"
    case ReplaceModuleLabel(_, _) => "replace_module_label"
    case InsertModule(_, _, _) => "insert_module"
    case RemoveModule(_, _) => "remove_module"
    case ReplaceContextValue(_, _) => "replace_context_value"
    case AddProbe(_, _) => "add_probe"
    case ReplaceEdge(_, _, _, _, _) => "replace_edge"
    case SetModuleOnFailure(_, _) => "set_module_on_failure"
    case ReplaceRetryPolicy(_) => "replace_retry_policy"
    case AddArcadeRef(_, _, _) => "add_arcade_ref"
    case DeferToHuman => "defer_to_human"
    case SetSparkConfig(_, _) => "set_spark_config"
  }

  /** Whether the id holds a double underscore; asking this of a number or of `True` raises a TypeError. */
  function Expanded(id: Value): Option<bool> {
    if Falsy(id) then Some(false) else
    match id
    case Str(s) => Some(Occurs("__", s))
    case List(items) => Some(Str("__") in items)
    case Dict(fields) => Some("__" in fields)
    case _ => None
  }

  predicate ConfigPermitted(g: Guard, config: Value) {
    config.Dict? ==> forall key :: key in PATH_KEYS && key in config.fields ==> Permitted(g, config.fields[key])
  }

  function CheckModule(g: Guard, id: Value, config: Value): Option<Violation> {
    match Expanded(id)
    case None => Some(BadModuleId)
    case Some(skip) => if skip || ConfigPermitted(g, config) then None else Some(PathNotAllowed)
  }

  function CheckOp(g: Guard, op: Edit): Option<Violation> {
    if OpName(op) in g.forbidden then Some(ForbiddenOp)
    else if g.allowed == [] then None
    else match op
      case SetModuleConfigKey(id, key, v) => CheckModule(g, Str(id), Dict(map[key := v]))
      case ReplaceModuleConfig(id, config) => CheckModule(g, Str(id), Dict(config))
      case InsertModule(mod, _, _) => CheckModule(g, Get(mod, "id"), Get(mod, "config"))
      case AddProbe(mod, _) => CheckModule(g, Get(mod, "id"), Get(mod, "config"))
      case AddArcadeRef(mod, _, _) => CheckModule(g, Get(mod, "id"), Get(mod, "config"))
      case _ => None
  }

  // ----- what the check accepts, name by name -----

  /** The operation is one of those that the Blueprint forbids by name. */
  ghost predicate Forbidden(g: Guard, op: Edit) {
    || (op.ReplaceModuleConfig? && "replace_module_config" in g.forbidden)
    || (op.SetModuleConfigKey? && "set_module_config_key" in g.forbidden)
    || (op.ReplaceModuleLabel? && "replace_module_label" in g.forbidden)
    || (op.InsertModule? && "insert_module" in g.forbidden)
    || (op.RemoveModule? && "remove_module" in g.forbidden)
    || (op.ReplaceContextValue? && "replace_context_value" in g.forbidden)
    || (op.AddProbe? && "add_probe" in g.forbidden)
    || (op.ReplaceEdge? && "replace_edge" in g.forbidden)
    || (op.SetModuleOnFailure? && "set_module_on_failure" in g.forbidden)
    || (op.ReplaceRetryPolicy? && "replace_retry_policy" in g.forbidden)
    || (op.AddArcadeRef? && "add_arcade_ref" in g.forbidden)
    || (op.DeferToHuman? && "defer_to_human" in g.forbidden)
    || (op.SetSparkConfig? && "set_spark_config" in g.forbidden)
  }

  /** Every path in a configuration is permitted. */
  ghost predicate PathsPermitted(g: Guard, config: Value) {
    forall fields :: config == Dict(fields) ==>
      && ("path" in fields ==> Permitted(g, fields["path"]))
      && ("output_path" in fields ==> Permitted(g, fields["output_path"]))
  }

  /** The paths that the operation writes are permitted. An id with a double underscore is not looked at. */
  ghost predicate WritesPermitted(g: Guard, op: Edit) {
    && (op.SetModuleConfigKey? && !Naming.HasDouble(op.moduleId) && op.key in {"path", "output_path"} ==>
         Permitted(g, op.value))
    && (op.ReplaceModuleConfig? && !Naming.HasDouble(op.moduleId) ==> PathsPermitted(g, Dict(op.config)))
    && (op.InsertModule? || op.AddProbe? || op.AddArcadeRef? ==> ModulePermitted(g, op.mod))
  }

  /** A new module: one whose id cannot be searched for underscores is refused with a TypeError. */
  ghost predicate ModulePermitted(g: Guard, mod: Fields) {
    var id := Get(mod, "id");
    && !(id.Num? && id.n != 0) && id != Bool(true)
    && ((id.Str? && Naming.HasDouble(id.s)) || (id.List? && Str("__") in id.items) || (id.Dict? && "__" in id.fields)
        || PathsPermitted(g, Get(mod, "config")))
  }

  lemma {:induction false} DoubleMeans(s: string)
    ensures Occurs("__", s) <==> Naming.HasDouble(s)
  {
    if s != "" {
      DoubleMeans(s[1..]);
      assert "__" <= s <==> |s| >= 2 && s[0] == '_' && s[1] == '_';
      if i :| 0 <= i < |s| - 1 && s[i] == '_' && s[i + 1] == '_' {
        if i > 0 {
          assert s[1..][i - 1] == '_' && s[1..][i] == '_';
        }
      }
      if i :| 0 <= i < |s[1..]| - 1 && s[1..][i] == '_' && s[1..][i + 1] == '_' {
        assert s[i + 1] == '_' && s[i + 2] == '_';
      }
    }
  }

  lemma PathsMean(g: Guard, config: Value)
    ensures ConfigPermitted(g, config) <==> PathsPermitted(g, config)
  {
    hide Permitted;
  }

  lemma OnePathMeans(g: Guard, key: string, v: Value)
    ensures PathsPermitted(g, Dict(map[key := v])) <==> (key in {"path", "output_path"} ==> Permitted(g, v))
  {
    hide Permitted;
    var fields := map[key := v];
    assert Dict(fields) == Dict(map[key := v]);
    assert fields[key] == v;
  }

  /** An operation passes exactly when its name is not forbidden and, if there is an allow-list, its paths are
      permitted. */
  lemma CheckMeans(g: Guard, op: Edit)
    ensures CheckOp(g, op).None? <==> !Forbidden(g, op) && (g.allowed != [] ==> WritesPermitted(g, op))
    ensures CheckOp(g, op) == Some(ForbiddenOp) <==> Forbidden(g, op)
  {
    hide Permitted, Occurs, Naming.HasDouble, ConfigPermitted, PathsPermitted, ModulePermitted;
    match op
    case SetModuleConfigKey(id, key, v) =>
      DoubleMeans(id);
      NoDoubleInNothing();
      PathsMean(g, Dict(map[key := v]));
      OnePathMeans(g, key, v);
    case ReplaceModuleConfig(id, config) =>
      DoubleMeans(id);
      NoDoubleInNothing();
      PathsMean(g, Dict(config));
    case InsertModule(mod, _, _) => ModuleMeans(g, mod);
    case AddProbe(mod, _) => ModuleMeans(g, mod);
    case AddArcadeRef(mod, _, _) => ModuleMeans(g, mod);
    case _ =>
  }

  lemma ModuleMeans(g: Guard, mod: Fields)
    ensures CheckModule(g, Get(mod, "id"), Get(mod, "config")).None? <==> ModulePermitted(g, mod)
    ensures CheckModule(g, Get(mod, "id"), Get(mod, "config")) != Some(ForbiddenOp)
  {
    hide Permitted, Occurs, Naming.HasDouble, ConfigPermitted, PathsPermitted;
    var id := Get(mod, "id");
    PathsMean(g, Get(mod, "config"));
    NoDoubleInNothing();
    if id.Str? {
      DoubleMeans(id.s);
    }
  }

  lemma NoDoubleInNothing()
    ensures !Naming.HasDouble("")
  {
  }

  /** A letter, a digit or an underscore, by its ASCII code. */
  predicate IsWordChar(c: char) {
    var n := c as int;
    48 <= n <= 57 || 65 <= n <= 90 || n == 95 || 97 <= n <= 122
  }

  /** A reference to a context key: `${ctx.` and `}` around the key, alone or before a final newline. */
  lemma CtxKeyMeans(s: string, key: string)
    ensures CtxKey(s) == Some(key) <==>
            && key != "" && (forall c :: c in key ==> IsWordChar(c) || c == '.')
            && (s == "${ctx." + key + "}" || s == "${ctx." + key + "}" + "\n")
  {
    KeyCharsMean(key);
    hide KeyChars;
    if CtxKey(s) == Some(key) {
      var t := if s != "" && s[|s| - 1] == '\n' then s[..|s| - 1] else s;
      assert key == t[6..|t| - 1] && |t| > 7;
      assert t == t[..6] + key + t[|t| - 1..];
      assert t[..6] == "${ctx." && t[|t| - 1..] == "}";
      assert s == t || s == t + "\n";
    }
    if key != "" && KeyChars(key) {
      CtxKeyOf(key, "${ctx." + key + "}");
      CtxKeyOf(key, "${ctx." + key + "}" + "\n");
    }
  }

  lemma KeyCharsMean(key: string)
    ensures KeyChars(key) <==> forall c :: c in key ==> IsWordChar(c) || c == '.'
  {
    forall c ensures KeyChar(c) <==> IsWordChar(c) || c == '.' {
      assert 'a' as int == 97 && 'z' as int == 122 && 'A' as int == 65 && 'Z' as int == 90;
      assert '0' as int == 48 && '9' as int == 57 && '_' as int == 95;
    }
    assert forall i :: 0 <= i < |key| ==> key[i] in key;
  }

  lemma CtxKeyOf(key: string, s: string)
    requires key != "" && KeyChars(key)
    requires s == "${ctx." + key + "}" || s == "${ctx." + key + "}" + "\n"
    ensures CtxKey(s) == Some(key)
  {
    hide KeyChars;
    var t := "${ctx." + key + "}";
    assert s[|s| - 1] == '\n' ==> s[..|s| - 1] == t;
    assert t[6..|t| - 1] == key && t[|t| - 1] == '}';
    assert "${ctx." <= t;
  }

  /** The whole check: accepted iff every operation is, otherwise refused for the first that is not. */
  method CheckGuardrails(g: Guard, ops: seq<Edit>) returns (r: Result<(), (nat, Violation)>)
    ensures r.Ok? <==> forall i :: 0 <= i < |ops| ==> CheckOp(g, ops[i]).None?
    ensures r.Err? ==>
              && r.error.0 < |ops| && CheckOp(g, ops[r.error.0]) == Some(r.error.1)
              && forall i :: 0 <= i < r.error.0 ==> CheckOp(g, ops[i]).None?
    // which operations these are
    ensures r.Ok? <==> forall i :: 0 <= i < |ops| ==>
                         !Forbidden(g, ops[i]) && (g.allowed != [] ==> WritesPermitted(g, ops[i]))
    ensures r.Err? ==> (r.error.1 == ForbiddenOp <==> Forbidden(g, ops[r.error.0]))
  {
    hide Forbidden, WritesPermitted;
    forall i | 0 <= i < |ops|
      ensures CheckOp(g, ops[i]).None? <==> !Forbidden(g, ops[i]) && (g.allowed != [] ==> WritesPermitted(g, ops[i]))
      ensures CheckOp(g, ops[i]) == Some(ForbiddenOp) <==> Forbidden(g, ops[i])
    {
      CheckMeans(g, ops[i]);
    }
    for i := 0 to |ops|
      invariant forall k :: 0 <= k < i ==> CheckOp(g, ops[k]).None?
    {
      if OpName(ops[i]) in g.forbidden {
        return Err((i, ForbiddenOp));
      }
      if g.allowed == [] {
        continue;
      }
      var found := CheckOp(g, ops[i]);
      if found.Some? {
        return Err((i, found.value));
      }
    }
    return Ok(());
  }

  // ----- what an accepted patch can write -----

  /** The string that a module's config holds under a path key. */
  function PathAt(m: Fields, key: string): Option<Value> {
    var config := Get(m, "config");
    if config.Dict? && key in config.fields && config.fields[key].Str? then Some(config.fields[key]) else None
  }

  predicate Guarded(m: Fields) {
    Get(m, "id").Str? && !Occurs("__", m["id"].s)
  }

  /** Every path of a `__`-free module is permitted, or some module of the original with that id already had it. */
  ghost predicate Vouched(g: Guard, original: seq<Fields>, m: Fields) {
    Guarded(m) ==>
      forall key :: key in PATH_KEYS && PathAt(m, key).Some? ==>
        || Permitted(g, PathAt(m, key).value)
        || exists o :: o in original && HasId(o, m["id"]) && PathAt(o, key) == PathAt(m, key)
  }

  ghost predicate AllVouched(g: Guard, original: seq<Fields>, ms: seq<Fields>) {
    forall m :: m in ms ==> Vouched(g, original, m)
  }

  /** Setting one key of a config by its dotted name changes the string under a path key only if it names that key. */
  lemma DottedKeyKeepsPaths(d: Fields, key: string, v: Value, k: string)
    requires SetNested(d, Split(key), v).Ok?
    ensures var after := SetNested(d, Split(key), v).value;
            && (k == key && |Split(key)| == 1 ==> after == d[key := v])
            && (k in after && after[k].Str? ==> (k == key && after[k] == v) || (k in d && after[k] == d[k]))
  {
  }

  lemma EditKeepsVouched(g: Guard, original: seq<Fields>, d: Doc, id: string, f: Fields -> Result<Fields, Failure>)
    requires AllVouched(g, original, OrEmpty(d.modules)) && EditModule(d, id, f).Ok?
    requires forall m :: HasId(m, Str(id)) && Vouched(g, original, m) && f(m).Ok? ==> Vouched(g, original, f(m).value)
    ensures AllVouched(g, original, OrEmpty(EditModule(d, id, f).value.modules))
  {
  }

  lemma AppendKeepsVouched(g: Guard, original: seq<Fields>, d: Doc, mod: Fields, remove: seq<Fields>,
                                              add: seq<Fields>)
    requires AllVouched(g, original, OrEmpty(d.modules)) && AppendModule(d, mod, remove, add).Ok?
    requires CheckModule(g, Get(mod, "id"), Get(mod, "config")).None?
    ensures AllVouched(g, original, OrEmpty(AppendModule(d, mod, remove, add).value.modules))
  {
  }

  lemma FieldKeepsVouched(g: Guard, original: seq<Fields>, m: Fields, field: string, v: Value)
    requires Vouched(g, original, m) && field != "id"
    requires field == "config" ==> Get(m, "id").Str? && CheckModule(g, Get(m, "id"), v).None?
    ensures Vouched(g, original, m[field := v])
  {
  }

  lemma ConfigKeyKeepsVouched(g: Guard, original: seq<Fields>, m: Fields, key: string, v: Value)
    requires Vouched(g, original, m) && PutConfigKey(key, v)(m).Ok? && Get(m, "id").Str?
    requires CheckModule(g, Get(m, "id"), Dict(map[key := v])).None?
    ensures Vouched(g, original, PutConfigKey(key, v)(m).value)
  {
    hide Permitted, Split, SetNested;
    var after := PutConfigKey(key, v)(m).value;
    var config := if Get(m, "config").Null? then map[] else m["config"].fields;
    forall k | Guarded(after) && k in PATH_KEYS && PathAt(after, k).Some?
      ensures PathAt(after, k) == PathAt(m, k) || Permitted(g, PathAt(after, k).value)
    {
      DottedKeyKeepsPaths(config, key, v, k);
    }
  }

  /** One accepted operation. */
  lemma AcceptedOpKeepsVouched(g: Guard, original: seq<Fields>, d: Doc, op: Edit)
    requires g.allowed != [] && CheckOp(g, op).None? && ApplyOp(d, op).Ok?
    requires AllVouched(g, original, OrEmpty(d.modules))
    ensures AllVouched(g, original, OrEmpty(ApplyOp(d, op).value.modules))
  {
    hide Vouched, CheckModule, EditModule, AppendModule, SetNestedIn, RemoveEdges, AddEdges, Split, FindModule,
      FindEdge, Redirect, WithoutMentioning;
    match op
    case ReplaceModuleConfig(id, config) =>
      forall m | HasId(m, Str(id)) && Vouched(g, original, m)
        ensures Vouched(g, original, m["config" := Dict(config)])
      {
        FieldKeepsVouched(g, original, m, "config", Dict(config));
      }
      EditKeepsVouched(g, original, d, id, PutField("config", Dict(config)));
    case SetModuleConfigKey(id, key, v) =>
      forall m | HasId(m, Str(id)) && Vouched(g, original, m) && PutConfigKey(key, v)(m).Ok?
        ensures Vouched(g, original, PutConfigKey(key, v)(m).value)
      {
        ConfigKeyKeepsVouched(g, original, m, key, v);
      }
      EditKeepsVouched(g, original, d, id, PutConfigKey(key, v));
    case ReplaceModuleLabel(id, text) =>
      forall m | Vouched(g, original, m) ensures Vouched(g, original, m["label" := Str(text)]) {
        FieldKeepsVouched(g, original, m, "label", Str(text));
      }
      EditKeepsVouched(g, original, d, id, PutField("label", Str(text)));
    case SetModuleOnFailure(id, policy) =>
      forall m | Vouched(g, original, m) ensures Vouched(g, original, m["on_failure" := Dict(policy)]) {
        FieldKeepsVouched(g, original, m, "on_failure", Dict(policy));
      }
      EditKeepsVouched(g, original, d, id, PutField("on_failure", Dict(policy)));
    case InsertModule(mod, add, remove) => AppendKeepsVouched(g, original, d, mod, remove, add);
    case AddArcadeRef(mod, add, remove) => AppendKeepsVouched(g, original, d, mod, remove, add);
    case AddProbe(mod, add) => AppendKeepsVouched(g, original, d, mod, [], add);
    case _ =>
  }

  /**
   * Soundness of the guardrails. With a non-empty allow-list, whatever a patch that passes the check does, every string
   * under `path` or `output_path` of a module whose id has no `__` is then permitted or was there before under that id.
   */
  lemma {:induction false} AcceptedPatchIsConfined(g: Guard, d: Doc, ops: seq<Edit>)
    requires g.allowed != [] && forall i :: 0 <= i < |ops| ==> CheckOp(g, ops[i]).None?
    requires ApplyAll(d, ops).Ok?
    ensures AllVouched(g, OrEmpty(d.modules), OrEmpty(ApplyAll(d, ops).value.modules))
  {
    hide ApplyOp, CheckOp, Permitted;
    if ops != [] {
      AcceptedPatchIsConfined(g, d, ops[..|ops| - 1]);
      AcceptedOpKeepsVouched(g, OrEmpty(d.modules), ApplyAll(d, ops[..|ops| - 1]).value, ops[|ops| - 1]);
    }
  }

  /** A value is permitted if it is empty, or if a pattern matches what it stands for: the resolved value of the one
      context key it names, where the provenance has one, and otherwise its own text. */
  lemma PermittedMeans(g: Guard, v: Value)
    ensures v in {Null, Bool(false), Num(0), Str(""), List([]), Dict(map[])} ==> Permitted(g, v)
    ensures v !in {Null, Bool(false), Num(0), Str(""), List([]), Dict(map[])} ==>
              var text := match v case Str(s) => s case _ => g.render(v);
              var stands := if CtxKey(text).Some? && Known(g, CtxKey(text).value).Some?
                            then Known(g, CtxKey(text).value).value else text;
              Permitted(g, v) <==> stands == "" || exists pattern :: pattern in g.allowed && g.matches(stands, pattern)
  {
    assert CtxKey("") == None;
    AdmitsMeans(g, Resolve(g, v));
  }

  lemma AdmitsMeans(g: Guard, path: string)
    ensures Admits(g, path) <==> path == "" || exists pattern :: pattern in g.allowed && g.matches(path, pattern)
  {
    if pattern :| pattern in g.allowed && g.matches(path, pattern) {
      var i :| 0 <= i < |g.allowed| && g.allowed[i] == pattern;
    }
    if i :| 0 <= i < |g.allowed| && g.matches(path, g.allowed[i]) {
      assert g.allowed[i] in g.allowed;
    }
  }

  // ----- the same paths in the patched context -----

  function StringIn(found: Option<Value>): Option<string> {
    if found.Some? && found.value.Str? then Some(found.value.s) else None
  }

  /** The string the context holds under a dotted key. */
  function StringAt(d: Doc, key: string): Option<string> {
    StringIn(if d.context.Some? then Lookup(d.context.value, Split(key)) else None)
  }

  function Known(g: Guard, key: string): Option<string> {
    if g.provenance.Some? && key in g.provenance.value then g.provenance.value[key] else None
  }

  /** The provenance map is what the context of `d` says, its strings being literal. */
  ghost predicate ReadsOff(g: Guard, d: Doc) {
    forall key :: Known(g, key) == StringAt(d, key)
  }

  lemma OtherOpsKeepContext(d: Doc, op: Edit)
    requires ApplyOp(d, op).Ok? && !op.ReplaceContextValue?
    ensures ApplyOp(d, op).value.context == d.context
  {
  }

  /** The string under `path` once `v` is written under `written`: what `v` holds there, if it is written at or
      above. */
  function AfterWrite(before: Option<string>, written: seq<string>, v: Value, path: seq<string>): Option<string> {
    if written <= path then StringIn(Lookup(v, path[|written|..])) else before
  }

  /** The string under `key` after the patch. */
  function StringAfter(before: Option<string>, ops: seq<Edit>, key: string): Option<string> {
    if ops == [] then before else
    var earlier, op := StringAfter(before, ops[..|ops| - 1], key), ops[|ops| - 1];
    if op.ReplaceContextValue? then AfterWrite(earlier, Split(op.key), op.content, Split(key)) else earlier
  }

  /** At and below the written key one reads the value. */
  lemma {:induction false} ReadBelow(d: Fields, parts: seq<string>, v: Value, path: seq<string>)
    requires parts != [] && SetNested(d, parts, v).Ok? && parts <= path
    ensures Lookup(Dict(SetNested(d, parts, v).value), path) == Lookup(v, path[|parts|..])
    decreases |parts|
  {
    if |parts| > 1 {
      ReadBelow(d[parts[0]].fields, parts[1..], v, path[1..]);
      assert path[1..][|parts[1..]|..] == path[|parts|..];
    }
  }

  /** Above it there are dictionaries, before and after. */
  lemma {:induction false} ReadAbove(d: Fields, parts: seq<string>, v: Value, path: seq<string>)
    requires parts != [] && SetNested(d, parts, v).Ok? && path < parts
    ensures StringIn(Lookup(Dict(d), path)) == StringIn(Lookup(Dict(SetNested(d, parts, v).value), path)) == None
    decreases |parts|
  {
    if path != [] {
      ReadAbove(d[parts[0]].fields, parts[1..], v, path[1..]);
    }
  }

  lemma WriteMovesString(d: Fields, parts: seq<string>, v: Value, path: seq<string>)
    requires parts != [] && SetNested(d, parts, v).Ok?
    ensures StringIn(Lookup(Dict(SetNested(d, parts, v).value), path))
            == AfterWrite(StringIn(Lookup(Dict(d), path)), parts, v, path)
  {
    hide Lookup, SetNested, StringIn;
    if parts <= path {
      ReadBelow(d, parts, v, path);
    } else if path <= parts {
      ReadAbove(d, parts, v, path);
    } else {
      var k := DivergeAt(parts, path);
      WriteElsewhere(d, parts, v, path, k);
    }
  }

  lemma {:induction false} StringAfterPatch(d: Doc, ops: seq<Edit>, key: string)
    requires ApplyAll(d, ops).Ok?
    ensures StringAt(ApplyAll(d, ops).value, key) == StringAfter(StringAt(d, key), ops, key)
  {
    hide ApplyOp, StringAt, Split, AfterWrite;
    if ops != [] {
      StringAfterPatch(d, ops[..|ops| - 1], key);
      StringAfterOp(ApplyAll(d, ops[..|ops| - 1]).value, ops[|ops| - 1], key);
    }
  }

  lemma StringAfterOp(d: Doc, op: Edit, key: string)
    requires ApplyOp(d, op).Ok?
    ensures StringAt(ApplyOp(d, op).value, key) ==
            if op.ReplaceContextValue? then AfterWrite(StringAt(d, key), Split(op.key), op.content, Split(key))
            else StringAt(d, key)
  {
    hide Lookup, Split, SetNested, EditModule, AppendModule, FindEdge, FindModule, AddEdges, WithoutMentioning,
      AfterWrite, StringIn;
    if op.ReplaceContextValue? {
      assert d.context.value == Dict(d.context.value.fields);
      WriteMovesString(d.context.value.fields, Split(op.key), op.content, Split(key));
    } else {
      OtherOpsKeepContext(d, op);
    }
  }

  /** What `v` resolves to in the context that the patch leaves behind. */
  function ResolvedAfter(g: Guard, d: Doc, ops: seq<Edit>, v: Value): string {
    var text := Text(g, v);
    var key := CtxKey(text);
    var found := if key.Some? then StringAfter(StringAt(d, key.value), ops, key.value) else None;
    if found.Some? then found.value else text
  }

  /** The value names a context key under which the patch leaves another string than before, or none any more. */
  predicate Repoints(g: Guard, d: Doc, ops: seq<Edit>, v: Value) {
    var key := CtxKey(Text(g, v));
    key.Some? && StringAfter(StringAt(d, key.value), ops, key.value) != StringAt(d, key.value)
  }

  /** `g` and `after` are the guard rails as they read the context before and after the patch. */
  ghost predicate Rereads(g: Guard, after: Guard, d: Doc, ops: seq<Edit>)
    requires ApplyAll(d, ops).Ok?
  {
    after == g.(provenance := after.provenance) && ReadsOff(g, d) && ReadsOff(after, ApplyAll(d, ops).value)
  }

  /** A value is permitted in the patched context exactly when the patterns admit what it resolves to there. Unless
      its key gets another string, that is what it resolved to before. */
  lemma VerdictAfter(g: Guard, after: Guard, d: Doc, ops: seq<Edit>, v: Value)
    requires ApplyAll(d, ops).Ok? && Rereads(g, after, d, ops)
    ensures Permitted(after, v) <==> Admits(g, ResolvedAfter(g, d, ops, v))
    ensures !Repoints(g, d, ops, v) ==> (Permitted(after, v) <==> Permitted(g, v))
  {
    hide CtxKey, ApplyAll, StringAt, StringAfter;
    var key := CtxKey(Text(g, v));
    assert Text(after, v) == Text(g, v);
    if key.Some? {
      StringAfterPatch(d, ops, key.value);
      assert Known(g, key.value) == StringAt(d, key.value);
      assert Known(after, key.value) == StringAt(ApplyAll(d, ops).value, key.value);
    }
  }

  /** `v` stands under a path key of a `__`-free module. */
  predicate IsGuardedPath(ms: seq<Fields>, v: Value) {
    exists m, key :: m in ms && Guarded(m) && key in PATH_KEYS && PathAt(m, key) == Some(v)
  }

  ghost predicate AllPermitted(g: Guard, ms: seq<Fields>) {
    forall v :: IsGuardedPath(ms, v) ==> Permitted(g, v)
  }

  /** From a Blueprint inside the allow-list an accepted patch leads to one inside it, as far as the context before
      the patch goes. */
  lemma AcceptedStaysInside(g: Guard, d: Doc, ops: seq<Edit>)
    requires g.allowed != [] && (forall i :: 0 <= i < |ops| ==> CheckOp(g, ops[i]).None?) && ApplyAll(d, ops).Ok?
    requires AllPermitted(g, OrEmpty(d.modules))
    ensures AllPermitted(g, OrEmpty(ApplyAll(d, ops).value.modules))
  {
    hide CheckOp, ApplyAll, Permitted, PathAt;
    AcceptedPatchIsConfined(g, d, ops);
    var ms := OrEmpty(ApplyAll(d, ops).value.modules);
    forall v | IsGuardedPath(ms, v) ensures Permitted(g, v) {
      var m, key :| m in ms && Guarded(m) && key in PATH_KEYS && PathAt(m, key) == Some(v);
      if o :| o in OrEmpty(d.modules) && HasId(o, m["id"]) && PathAt(o, key) == PathAt(m, key) {
        assert Guarded(o) && IsGuardedPath(OrEmpty(d.modules), v);
      }
    }
  }

  /**
   * Judged by the patched context, all paths of `__`-free modules are permitted exactly when the patterns admit what
   * each resolves to there, whether the patch wrote it or it was there before. If the Blueprint was inside the
   * allow-list, it is enough to look at those that name a context key whose string the patch changes.
   */
  lemma ConfinedInPatchedContext(g: Guard, after: Guard, d: Doc, ops: seq<Edit>)
    requires g.allowed != [] && (forall i :: 0 <= i < |ops| ==> CheckOp(g, ops[i]).None?) && ApplyAll(d, ops).Ok?
    requires Rereads(g, after, d, ops)
    ensures var ms := OrEmpty(ApplyAll(d, ops).value.modules);
            && (AllPermitted(after, ms) <==>
                forall v :: IsGuardedPath(ms, v) ==> Admits(g, ResolvedAfter(g, d, ops, v)))
            && (AllPermitted(g, OrEmpty(d.modules)) ==>
                  (AllPermitted(after, ms) <==>
                   forall v :: IsGuardedPath(ms, v) && Repoints(g, d, ops, v) ==>
                     Admits(g, ResolvedAfter(g, d, ops, v))))
  {
    hide CheckOp, ApplyAll, Permitted, IsGuardedPath, Repoints, Rereads, ResolvedAfter, Admits;
    if AllPermitted(g, OrEmpty(d.modules)) {
      AcceptedStaysInside(g, d, ops);
    }
    forall v
      ensures Permitted(after, v) <==> Admits(g, ResolvedAfter(g, d, ops, v))
      ensures !Repoints(g, d, ops, v) ==> (Permitted(after, v) <==> Permitted(g, v))
    {
      VerdictAfter(g, after, d, ops, v);
    }
  }

  // accepted patches that write the context key a path names

  function PathByName(): Value {
    Str("${ctx.k}")
  }

  function Pointing(): Fields {
    map["id" := Str("m"), "config" := Dict(map["path" := PathByName()])]
  }

  function WithContext(ms: seq<Fields>, k: string): Doc {
    Doc(Some(ms), None, Some(Dict(map["k" := Str(k)])), map[])
  }

  function GuardFor(k: string): Guard {
    Guard([], ["ok"], Some(map["k" := Some(k)]), (path, pattern) => path == pattern, v => "")
  }

  /** A patch may make a path name a context key and then write that key. It is accepted whatever it writes there,
      and the path is inside the allow-list afterwards exactly when what it writes is. */
  lemma RewrittenContextEvades(k: string)
    ensures var d, ops := WithContext([map["id" := Str("m")]], "ok"), PointAndRewrite(k);
            && (forall i :: 0 <= i < |ops| ==> CheckOp(GuardFor("ok"), ops[i]).None?)
            && ApplyAll(d, ops) == Ok(WithContext([Pointing()], k))
            && StringAt(d, "k") == Known(GuardFor("ok"), "k")
            && StringAt(ApplyAll(d, ops).value, "k") == Known(GuardFor(k), "k")
            && (Permitted(GuardFor(k), PathByName()) <==> k == "ok" || k == "")
  {
    hide CheckOp, ApplyAll, ApplyOp, PathByName, Permitted;
    var d := WithContext([map["id" := Str("m")]], "ok");
    PointingIsAccepted(k);
    PointingApplies();
    RewritingApplies([Pointing()], "ok", k);
    TwoSteps(d, PointAndRewrite(k)[0], PointAndRewrite(k)[1]);
    PathMeans(k);
    UndottedKey("k");
  }

  function PointAndRewrite(k: string): seq<Edit> {
    [ReplaceModuleConfig("m", map["path" := PathByName()]), ReplaceContextValue("k", Str(k))]
  }

  /** The same for a path that was there before: one operation is enough, and no path is written at all. */
  lemma OldPathEvades(k: string)
    ensures var d, op: Edit := WithContext([Pointing()], "ok"), ReplaceContextValue("k", Str(k));
            && CheckOp(GuardFor("ok"), op).None? && ApplyAll(d, [op]) == Ok(WithContext([Pointing()], k))
            && Permitted(GuardFor("ok"), PathByName())
            && (Permitted(GuardFor(k), PathByName()) <==> k == "ok" || k == "")
  {
    hide ApplyOp, Permitted, PathByName;
    var d, op: Edit := WithContext([Pointing()], "ok"), ReplaceContextValue("k", Str(k));
    RewritingApplies([Pointing()], "ok", k);
    assert [op][..0] == [] && ApplyAll(d, []) == Ok(d);
    PathMeans("ok");
    PathMeans(k);
  }

  lemma PathMeans(k: string)
    ensures Permitted(GuardFor(k), PathByName()) <==> k == "ok" || k == ""
  {
    var text := "${ctx.k}";
    assert "${ctx." <= text && |text| == 8 && text[7] == '}' && text[6..|text| - 1] == "k";
    assert KeyChars("k");
    assert CtxKey(text) == Some("k");
    assert Resolve(GuardFor(k), PathByName()) == k;
    assert GuardFor(k).matches(k, GuardFor(k).allowed[0]) <==> k == "ok";
  }

  lemma PointingIsAccepted(k: string)
    ensures forall i :: 0 <= i < |PointAndRewrite(k)| ==> CheckOp(GuardFor("ok"), PointAndRewrite(k)[i]).None?
  {
    hide Permitted, PathByName;
    PathMeans("ok");
    assert !Occurs("__", "m");
  }

  lemma PointingApplies()
    ensures ApplyOp(WithContext([map["id" := Str("m")]], "ok"), ReplaceModuleConfig("m", map["path" := PathByName()]))
            == Ok(WithContext([Pointing()], "ok"))
  {
    hide PathByName;
    assert [map["id" := Str("m")]][0 := Pointing()] == [Pointing()];
  }

  lemma RewritingApplies(ms: seq<Fields>, before: string, k: string)
    ensures ApplyOp(WithContext(ms, before), ReplaceContextValue("k", Str(k))) == Ok(WithContext(ms, k))
  {
    UndottedKey("k");
    assert map["k" := Str(before)]["k" := Str(k)] == map["k" := Str(k)];
  }

  lemma EditIsStored(d: Doc, id: string, f: Fields -> Result<Fields, Failure>) returns (m: Fields)
    requires EditModule(d, id, f).Ok?
    ensures f(m).Ok? && f(m).value in OrEmpty(EditModule(d, id, f).value.modules)
  {
    var ms := OrEmpty(d.modules);
    var k := FindModule(ms, Str(id));
    m := ms[k];
    assert ms[k := f(m).value][k] == f(m).value;
  }

  /** The value that a path-checked operation writes under a key. */
  function Written(op: Edit): Value {
    match op
    case SetModuleConfigKey(_, key, v) => Dict(map[key := v])
    case ReplaceModuleConfig(_, config) => Dict(config)
    case InsertModule(mod, _, _) => Get(mod, "config")
    case AddProbe(mod, _) => Get(mod, "config")
    case AddArcadeRef(mod, _, _) => Get(mod, "config")
    case _ => Null
  }

  lemma WrittenIsStored(d: Doc, op: Edit, key: string) returns (m: Fields)
    requires ApplyOp(d, op).Ok? && Written(op).Dict? && key in Written(op).fields && '.' !in key
    ensures m in OrEmpty(ApplyOp(d, op).value.modules)
    ensures Get(m, "config").Dict? && key in m["config"].fields && m["config"].fields[key] == Written(op).fields[key]
  {
    hide EditModule, RemoveEdges, AddEdges, Split, FindModule;
    m := map[];
    match op
    case SetModuleConfigKey(id, _, v) =>
      UndottedKey(key);
      var before := EditIsStored(d, id, PutConfigKey(key, v));
      m := PutConfigKey(key, v)(before).value;
    case ReplaceModuleConfig(id, config) =>
      var before := EditIsStored(d, id, PutField("config", Dict(config)));
      m := PutField("config", Dict(config))(before).value;
    case InsertModule(mod, _, _) => m := mod;
    case AddProbe(mod, _) => m := mod;
    case AddArcadeRef(mod, _, _) => m := mod;
    case _ =>
  }

  /** The check does not over-reject: an operation refused for a path would have written that path. */
  lemma RefusedPathIsWritten(g: Guard, d: Doc, op: Edit) returns (m: Fields, key: string)
    requires CheckOp(g, op) == Some(PathNotAllowed) && ApplyOp(d, op).Ok?
    ensures m in OrEmpty(ApplyOp(d, op).value.modules) && key in PATH_KEYS
    ensures Get(m, "config").Dict? && key in m["config"].fields && !Permitted(g, m["config"].fields[key])
  {
    hide Permitted, ApplyOp, Expanded;
    key :| key in PATH_KEYS && Written(op).Dict? && key in Written(op).fields && !Permitted(g, Written(op).fields[key]);
    m := WrittenIsStored(d, op, key);
  }

  lemma OpKeepsAgentBlock(d: Doc, op: Edit)
    requires ApplyOp(d, op).Ok?
    ensures Get(ApplyOp(d, op).value.rest, "agent") == Get(d.rest, "agent")
  {
  }

  /** No operation touches the `agent` block, so the next patch is judged by the same guardrails. */
  lemma {:induction false} GuardrailsSurvive(d: Doc, ops: seq<Edit>)
    requires ApplyAll(d, ops).Ok?
    ensures Get(ApplyAll(d, ops).value.rest, "agent") == Get(d.rest, "agent")
  {
    hide ApplyOp;
    if ops != [] {
      GuardrailsSurvive(d, ops[..|ops| - 1]);
      OpKeepsAgentBlock(ApplyAll(d, ops[..|ops| - 1]).value, ops[|ops| - 1]);
    }
  }
}
