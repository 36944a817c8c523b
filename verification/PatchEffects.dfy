/** What each patch operation does to a Blueprint (aqueduct/patch/operations.py:174-350): when it succeeds, why it
    fails, what can be read back, and what stays as it was. */
module PatchEffects {
  import opened Common
  import opened PatchModel
  import opened PatchLaws

  type Applied = Result<Doc, Failure>

  // ----- one field of one module -----

  ghost predicate IsFirst(ms: seq<Fields>, id: string, k: nat) {
    k < |ms| && Get(ms[k], "id") == Str(id) && forall i :: 0 <= i < k ==> Get(ms[i], "id") != Str(id)
  }

  ghost predicate HasModule(d: Doc, id: Value) {
    exists m :: m in OrEmpty(d.modules) && Get(m, "id") == id
  }

  /** Nothing but module `k` may have changed. */
  ghost predicate OnlyModule(d: Doc, after: Doc, k: nat) {
    var ms, ms' := OrEmpty(d.modules), OrEmpty(after.modules);
    && |ms'| == |ms| && (forall i :: 0 <= i < |ms| && i != k ==> ms'[i] == ms[i])
    && after.edges == d.edges && after.context == d.context && after.rest == d.rest
  }

  /** `key` holds `v`, and every other key what it held. */
  ghost predicate OnlyKey(m: Fields, after: Fields, key: string, v: Value) {
    && key in after && after[key] == v
    && forall j :: j != key ==> (j in after <==> j in m) && (j in m ==> after[j] == m[j])
  }

  /** The first module called `id` gets `v` under `key`; without one the operation fails. */
  ghost predicate SetsField(d: Doc, r: Applied, id: string, key: string, v: Value) {
    if r.Ok? then
      exists k: nat :: IsFirst(OrEmpty(d.modules), id, k) && OnlyModule(d, r.value, k)
                       && OnlyKey(OrEmpty(d.modules)[k], OrEmpty(r.value.modules)[k], key, v)
    else r.error == ModuleNotFound && !HasModule(d, Str(id))
  }

  lemma FieldIsSet(d: Doc, id: string, key: string, v: Value)
    ensures SetsField(d, EditModule(d, id, PutField(key, v)), id, key, v)
  {
    var ms := OrEmpty(d.modules);
    var k := FindModule(ms, Str(id));
    if k < |ms| {
      var after := EditModule(d, id, PutField(key, v)).value;
      assert IsFirst(ms, id, k);
      assert OnlyKey(ms[k], OrEmpty(after.modules)[k], key, v);
      assert OnlyModule(d, after, k);
    }
  }

  /** The three operations that replace a field of a module, each its own field. */
  lemma ModuleFieldIsReplaced(d: Doc, id: string, text: string, fields: Fields)
    ensures SetsField(d, ApplyOp(d, ReplaceModuleLabel(id, text)), id, "label", Str(text))
    ensures SetsField(d, ApplyOp(d, ReplaceModuleConfig(id, fields)), id, "config", Dict(fields))
    ensures SetsField(d, ApplyOp(d, SetModuleOnFailure(id, fields)), id, "on_failure", Dict(fields))
  {
    hide EditModule, SetsField;
    FieldIsSet(d, id, "label", Str(text));
    FieldIsSet(d, id, "config", Dict(fields));
    FieldIsSet(d, id, "on_failure", Dict(fields));
  }

  /** The configuration that a dotted write starts from: an absent one is empty. */
  function ConfigOf(m: Fields): Value {
    if "config" in m && m["config"] != Null then m["config"] else Dict(map[])
  }

  /** The parent of the last key is a dictionary. */
  ghost predicate Writable(v: Value, parts: seq<string>)
    requires parts != []
  {
    var parent := Lookup(v, parts[..|parts| - 1]);
    parent.Some? && parent.value.Dict?
  }

  /** Reading `parts` gives `v`, reading a path that parts from it gives what it gave. */
  ghost predicate Written(before: Value, after: Value, parts: seq<string>, v: Value) {
    && Lookup(after, parts) == Some(v)
    && forall path :: !(parts <= path) && !(path <= parts) ==> Lookup(after, path) == Lookup(before, path)
  }

  lemma WritesIn(container: Value, key: string, v: Value)
    ensures SetNestedIn(container, key, v).Ok? <==> Writable(container, Split(key))
    ensures SetNestedIn(container, key, v).Ok? ==>
              Written(container, SetNestedIn(container, key, v).value, Split(key), v)
  {
    hide Split;
    var parts := Split(key);
    match container
    case Dict(fields) =>
      WriteSucceeds(fields, parts, v);
      if SetNested(fields, parts, v).Ok? {
        WriteThenRead(fields, parts, v);
        forall path | !(parts <= path) && !(path <= parts)
          ensures Lookup(Dict(SetNested(fields, parts, v).value), path) == Lookup(container, path)
        {
          var k := DivergeAt(parts, path);
          WriteElsewhere(fields, parts, v, path, k);
        }
      }
    case _ =>
  }

  /** A dotted write into the configuration of module `k`. */
  ghost predicate WritesConfig(d: Doc, after: Doc, k: nat, key: string, v: Value)
    requires k < |OrEmpty(d.modules)|
  {
    var m := OrEmpty(d.modules)[k];
    && Writable(ConfigOf(m), Split(key)) && OnlyModule(d, after, k)
    && "config" in OrEmpty(after.modules)[k]
    && OnlyKey(m, OrEmpty(after.modules)[k], "config", OrEmpty(after.modules)[k]["config"])
    && Written(ConfigOf(m), OrEmpty(after.modules)[k]["config"], Split(key), v)
  }

  /** `set_module_config_key`: a dotted write into the configuration of the first module with the id. */
  lemma ConfigKeyIsSet(d: Doc, id: string, key: string, v: Value)
    ensures ApplyOp(d, SetModuleConfigKey(id, key, v)) == Err(ModuleNotFound) <==> !HasModule(d, Str(id))
    ensures forall k: nat :: IsFirst(OrEmpty(d.modules), id, k) ==>
              var r := ApplyOp(d, SetModuleConfigKey(id, key, v));
              if r.Ok? then WritesConfig(d, r.value, k, key, v)
              else !Writable(ConfigOf(OrEmpty(d.modules)[k]), Split(key))
  {
    hide SetNestedIn, Split, Written, Writable;
    var ms := OrEmpty(d.modules);
    var k := FindModule(ms, Str(id));
    if k < |ms| {
      WritesIn(ConfigOf(ms[k]), key, v);
      assert IsFirst(ms, id, k);
      NotFoundElsewhere(ConfigOf(ms[k]), key, v);
      assert ms[k] in ms;
    }
  }

  lemma NotFoundElsewhere(container: Value, key: string, v: Value)
    ensures SetNestedIn(container, key, v).Err? ==> SetNestedIn(container, key, v).error in {InvalidKeyPath, Crash}
  {
    if container.Dict? {
      NestedError(container.fields, Split(key), v);
    }
  }

  lemma {:induction false} NestedError(d: Fields, parts: seq<string>, v: Value)
    requires parts != []
    ensures SetNested(d, parts, v).Err? ==> SetNested(d, parts, v).error == InvalidKeyPath
    decreases |parts|
  {
    if |parts| > 1 && parts[0] in d && d[parts[0]].Dict? {
      NestedError(d[parts[0]].fields, parts[1..], v);
    }
  }

  // ----- new modules -----

  ghost predicate AllComplete(specs: seq<Fields>) {
    forall s :: s in specs ==> "from" in s && "to" in s
  }

  /** The module comes last, the edges that a spec names go, the new ones come last; nothing else changes. */
  ghost predicate Appends(d: Doc, after: Doc, mod: Fields, add: seq<Fields>, remove: seq<Fields>) {
    && after.modules == Some(OrEmpty(d.modules) + [mod])
    && (exists kept: seq<Fields> :: after.edges == Some(kept + add) && Without(OrEmpty(d.edges), kept, Named(remove)))
    && after.context == d.context && after.rest == d.rest
  }

  /** `kept` is `all` without the elements of `gone`, in order. */
  ghost predicate Without(all: seq<Fields>, kept: seq<Fields>, gone: Fields -> bool)
    decreases |all|
  {
    if all == [] then kept == []
    else if gone(all[|all| - 1]) then Without(all[..|all| - 1], kept, gone)
    else kept != [] && kept[|kept| - 1] == all[|all| - 1] && Without(all[..|all| - 1], kept[..|kept| - 1], gone)
  }

  function Named(specs: seq<Fields>): Fields -> bool {
    (e: Fields) => NamedBy(e, specs)
  }

  lemma {:induction false} AllKept(es: seq<Fields>)
    ensures Without(es, es, Named([]))
  {
    if es != [] {
      AllKept(es[..|es| - 1]);
    }
  }

  lemma NamedByMore(e: Fields, specs: seq<Fields>, spec: Fields)
    ensures NamedBy(e, specs + [spec]) <==> NamedBy(e, specs) || SameEnds(e, spec)
  {
    assert (specs + [spec])[..|specs|] == specs;
  }

  /** Removing by one more spec. */
  lemma {:induction false} KeptStep(es: seq<Fields>, kept: seq<Fields>, specs: seq<Fields>, spec: Fields)
    requires Without(es, kept, Named(specs))
    ensures Without(es, WithoutJoining(kept, Get(spec, "from"), Get(spec, "to")), Named(specs + [spec]))
    decreases |es|
  {
    hide NamedBy, Get;
    if es != [] {
      var last := es[|es| - 1];
      NamedByMore(last, specs, spec);
      if NamedBy(last, specs) {
        KeptStep(es[..|es| - 1], kept, specs, spec);
      } else {
        KeptStep(es[..|es| - 1], kept[..|kept| - 1], specs, spec);
        var rest := WithoutJoining(kept[..|kept| - 1], Get(spec, "from"), Get(spec, "to"));
        assert (rest + [last])[..|rest|] == rest;
      }
    }
  }

  lemma {:induction false} RemovalKeepsOrder(es: Option<seq<Fields>>, specs: seq<Fields>)
    requires RemoveEdges(es, specs).Ok?
    ensures Without(OrEmpty(es), OrEmpty(RemoveEdges(es, specs).value), Named(specs))
  {
    hide Without, WithoutJoining;
    if specs == [] {
      AllKept(OrEmpty(es));
    } else {
      var init, last := specs[..|specs| - 1], specs[|specs| - 1];
      RemovalKeepsOrder(es, init);
      KeptStep(OrEmpty(es), OrEmpty(RemoveEdges(es, init).value), init, last);
      assert init + [last] == specs;
    }
  }

  lemma AppendEffect(d: Doc, mod: Fields, add: seq<Fields>, remove: seq<Fields>)
    ensures var r := AppendModule(d, mod, remove, add);
            if r.Ok? then
              Removable(OrEmpty(d.edges), remove) && AllComplete(add) && Appends(d, r.value, mod, add, remove)
            else if !Removable(OrEmpty(d.edges), remove) then r.error == EdgeNotFound
            else r.error == IncompleteEdge && !AllComplete(add)
  {
    hide Removable, Without;
    RemovesExactly(d.edges, remove);
    RemovalError(d.edges, remove);
    assert (forall i :: 0 <= i < |add| ==> CompleteEdge(add[i])) <==> AllComplete(add);
    if RemoveEdges(d.edges, remove).Ok? {
      RemovalKeepsOrder(d.edges, remove);
    }
  }

  lemma {:induction false} RemovalError(es: Option<seq<Fields>>, specs: seq<Fields>)
    ensures RemoveEdges(es, specs).Err? ==> RemoveEdges(es, specs).error == EdgeNotFound
  {
    if specs != [] {
      RemovalError(es, specs[..|specs| - 1]);
    }
  }

  /** Absent, null, false, zero or empty. */
  ghost predicate Missing(m: Fields, key: string) {
    key !in m || m[key] in {Null, Bool(false), Num(0), Str(""), List([]), Dict(map[])}
  }

  lemma MissingMeans(m: Fields, key: string)
    ensures Missing(m, key) <==> Falsy(Get(m, key))
  {
  }

  lemma KnownMeans(d: Doc, id: Value)
    ensures KnownId(d, id) <==> HasModule(d, id)
  {
  }

  /** `insert_module`: the first thing that is wrong with it, or its effect. */
  lemma InsertEffect(d: Doc, mod: Fields, add: seq<Fields>, remove: seq<Fields>)
    ensures var r := ApplyOp(d, InsertModule(mod, add, remove));
            if r.Ok? then
              && !Missing(mod, "id") && !HasModule(d, Get(mod, "id")) && Removable(OrEmpty(d.edges), remove)
              && AllComplete(add) && Appends(d, r.value, mod, add, remove)
            else if Missing(mod, "id") then r.error == MissingModuleId
            else if HasModule(d, Get(mod, "id")) then r.error == DuplicateModule
            else if !Removable(OrEmpty(d.edges), remove) then r.error == EdgeNotFound
            else r.error == IncompleteEdge && !AllComplete(add)
  {
    hide AppendModule, Appends, Removable, Missing, HasModule, KnownId, Falsy, AllComplete;
    MissingMeans(mod, "id");
    KnownMeans(d, Get(mod, "id"));
    AppendEffect(d, mod, add, remove);
  }

  /** `add_arcade_ref`: the same for an Arcade, which needs a reference. */
  lemma AddArcadeEffect(d: Doc, mod: Fields, add: seq<Fields>, remove: seq<Fields>)
    ensures var r := ApplyOp(d, AddArcadeRef(mod, add, remove));
            if r.Ok? then
              && !Missing(mod, "id") && Get(mod, "type") == Str("Arcade") && !Missing(mod, "ref")
              && !HasModule(d, Get(mod, "id")) && Removable(OrEmpty(d.edges), remove)
              && AllComplete(add) && Appends(d, r.value, mod, add, remove)
            else if Missing(mod, "id") then r.error == MissingModuleId
            else if Get(mod, "type") != Str("Arcade") then r.error == WrongModuleType
            else if Missing(mod, "ref") then r.error == MissingRef
            else if HasModule(d, Get(mod, "id")) then r.error == DuplicateModule
            else if !Removable(OrEmpty(d.edges), remove) then r.error == EdgeNotFound
            else r.error == IncompleteEdge && !AllComplete(add)
  {
    hide AppendModule, Appends, Removable, Missing, HasModule, KnownId, Falsy, AllComplete;
    MissingMeans(mod, "id");
    MissingMeans(mod, "ref");
    KnownMeans(d, Get(mod, "id"));
    AppendEffect(d, mod, add, remove);
  }

  /** `add_probe`: the module it attaches to must be there, its own id is not looked up. */
  lemma AddProbeEffect(d: Doc, mod: Fields, add: seq<Fields>)
    ensures var r := ApplyOp(d, AddProbe(mod, add));
            if r.Ok? then
              && !Missing(mod, "id") && Get(mod, "type") == Str("Probe") && !Missing(mod, "attach_to")
              && HasModule(d, Get(mod, "attach_to")) && AllComplete(add) && Appends(d, r.value, mod, add, [])
            else if Missing(mod, "id") then r.error == MissingModuleId
            else if Get(mod, "type") != Str("Probe") then r.error == WrongModuleType
            else if Missing(mod, "attach_to") then r.error == MissingAttachTo
            else if !HasModule(d, Get(mod, "attach_to")) then r.error == ModuleNotFound
            else r.error == IncompleteEdge && !AllComplete(add)
  {
    hide AppendModule, Appends, Missing, HasModule, KnownId, Falsy, AllComplete;
    MissingMeans(mod, "id");
    MissingMeans(mod, "attach_to");
    KnownMeans(d, Get(mod, "attach_to"));
    AppendEffect(d, mod, add, []);
  }

  // ----- removing a module -----

  function Called(id: Value): Fields -> bool {
    (m: Fields) => Get(m, "id") == id
  }

  function Touching(id: Value): Fields -> bool {
    (e: Fields) => Get(e, "from") == id || Get(e, "to") == id
  }

  lemma {:induction false} ModulesWithout(ms: seq<Fields>, id: Value)
    ensures Without(ms, WithoutModule(ms, id), Called(id))
  {
    if ms != [] {
      ModulesWithout(ms[..|ms| - 1], id);
      var kept := WithoutModule(ms[..|ms| - 1], id);
      assert (kept + [ms[|ms| - 1]])[..|kept|] == kept;
    }
  }

  lemma {:induction false} EdgesWithout(es: seq<Fields>, id: Value)
    ensures Without(es, WithoutMentioning(es, id), Touching(id))
  {
    if es != [] {
      EdgesWithout(es[..|es| - 1], id);
      var kept := WithoutMentioning(es[..|es| - 1], id);
      assert (kept + [es[|es| - 1]])[..|kept|] == kept;
    }
  }

  /** The edges that do not touch the module, in order, and then the new ones. */
  ghost predicate Disconnected(d: Doc, after: Doc, id: string, add: seq<Fields>) {
    exists kept: seq<Fields> :: after.edges == Some(kept + add) && Without(OrEmpty(d.edges), kept, Touching(Str(id)))
  }

  /** `remove_module`: every module of that id goes, with every edge that touches it. */
  lemma RemoveEffect(d: Doc, id: string, add: seq<Fields>)
    ensures var r := ApplyOp(d, RemoveModule(id, add));
            if r.Ok? then
              && HasModule(d, Str(id)) && AllComplete(add) && r.value.modules.Some?
              && Without(OrEmpty(d.modules), r.value.modules.value, Called(Str(id)))
              && Disconnected(d, r.value, id, add)
              && r.value.context == d.context && r.value.rest == d.rest
            else if !HasModule(d, Str(id)) then r.error == ModuleNotFound
            else r.error == IncompleteEdge && !AllComplete(add)
  {
    hide Without, HasModule, KnownId, WithoutModule, WithoutMentioning;
    KnownMeans(d, Str(id));
    ModulesWithout(OrEmpty(d.modules), Str(id));
    EdgesWithout(OrEmpty(d.edges), Str(id));
    assert (forall i :: 0 <= i < |add| ==> CompleteEdge(add[i])) <==> AllComplete(add);
  }

  // ----- edges, context, policies -----

  ghost predicate FirstBetween(es: seq<Fields>, from: string, to: string, k: nat) {
    && k < |es| && Get(es[k], "from") == Str(from) && Get(es[k], "to") == Str(to)
    && forall i :: 0 <= i < k ==> !(Get(es[i], "from") == Str(from) && Get(es[i], "to") == Str(to))
  }

  /** What is asked for under `key`, or what was there. */
  ghost predicate Replaced(e: Fields, after: Fields, key: string, value: Option<string>) {
    match value
    case Some(s) => key in after && after[key] == Str(s)
    case None => (key in after <==> key in e) && (key in e ==> after[key] == e[key])
  }

  ghost predicate Rewires(es: seq<Fields>, es': seq<Fields>, from: string, to: string, newFrom: Option<string>,
                          newTo: Option<string>, newPort: Option<string>)
  {
    && |es'| == |es|
    && exists k: nat ::
         && FirstBetween(es, from, to, k) && (forall i :: 0 <= i < |es| && i != k ==> es'[i] == es[i])
         && Replaced(es[k], es'[k], "from", newFrom) && Replaced(es[k], es'[k], "to", newTo)
         && Replaced(es[k], es'[k], "port", newPort)
         && forall j :: j !in {"from", "to", "port"} ==> Replaced(es[k], es'[k], j, None)
  }

  /** `replace_edge`: the first edge between the two modules gets the new ends and port, where it stands. */
  lemma ReplaceEdgeEffect(d: Doc, from: string, to: string, newFrom: Option<string>, newTo: Option<string>,
                          newPort: Option<string>)
    ensures var r := ApplyOp(d, ReplaceEdge(from, to, newFrom, newTo, newPort));
            if r.Ok? then
              && (newFrom.Some? || newTo.Some? || newPort.Some?)
              && r.value.modules == d.modules && r.value.context == d.context && r.value.rest == d.rest
              && Rewires(OrEmpty(d.edges), OrEmpty(r.value.edges), from, to, newFrom, newTo, newPort)
            else if newFrom.None? && newTo.None? && newPort.None? then r.error == NothingToReplace
            else r.error == EdgeNotFound && forall k: nat :: !FirstBetween(OrEmpty(d.edges), from, to, k)
  {
    hide ApplyOp, Redirect, Replaced;
    var es, op := OrEmpty(d.edges), ReplaceEdge(from, to, newFrom, newTo, newPort);
    var k := FindEdge(es, Str(from), Str(to));
    if newFrom.None? && newTo.None? && newPort.None? {
      NothingRewired(d, op);
    } else if k < |es| {
      Rewired(d, op);
      RedirectMeans(es[k], op);
      assert FirstBetween(es, from, to, k);
    } else {
      NoSuchEdge(d, op);
    }
  }

  lemma RedirectMeans(e: Fields, op: Edit)
    requires op.ReplaceEdge?
    ensures Replaced(e, Redirect(e, op), "from", op.newFrom) && Replaced(e, Redirect(e, op), "to", op.newTo)
    ensures Replaced(e, Redirect(e, op), "port", op.newPort)
    ensures forall j :: j !in {"from", "to", "port"} ==> Replaced(e, Redirect(e, op), j, None)
  {
  }

  lemma NoSuchEdge(d: Doc, op: Edit)
    requires op.ReplaceEdge? && (op.newFrom.Some? || op.newTo.Some? || op.newPort.Some?)
    requires FindEdge(OrEmpty(d.edges), Str(op.fromId), Str(op.toId)) == |OrEmpty(d.edges)|
    ensures ApplyOp(d, op) == Err(EdgeNotFound)
  {
  }

  /** `replace_context_value`: a dotted write into the context, which must be there. */
  lemma ContextValueEffect(d: Doc, key: string, v: Value)
    ensures var r := ApplyOp(d, ReplaceContextValue(key, v));
            if r.Ok? then
              && d.context.Some? && Writable(d.context.value, Split(key)) && r.value.context.Some?
              && Written(d.context.value, r.value.context.value, Split(key), v)
              && r.value.modules == d.modules && r.value.edges == d.edges && r.value.rest == d.rest
            else if d.context in {None, Some(Null)} then r.error == NoContext
            else r.error in {InvalidKeyPath, Crash} && !Writable(d.context.value, Split(key))
  {
    hide SetNestedIn, Split, Written, Writable;
    if d.context.Some? {
      WritesIn(d.context.value, key, v);
      NotFoundElsewhere(d.context.value, key, v);
    }
  }

  /** `replace_retry_policy`: the policy is read back, and no other part of the Blueprint changes. */
  lemma RetryPolicyEffect(d: Doc, policy: Fields)
    ensures ApplyOp(d, ReplaceRetryPolicy(policy)).Ok?
    ensures var after := ApplyOp(d, ReplaceRetryPolicy(policy)).value;
            && OnlyKey(d.rest, after.rest, "retry_policy", Dict(policy))
            && after.modules == d.modules && after.edges == d.edges && after.context == d.context
  {
  }
}
