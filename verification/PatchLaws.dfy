/** Laws that relate several patch operations (aqueduct/patch/operations.py). */
module PatchLaws {
  import opened Common
  import opened PatchModel

  // ----- module ids -----

  ghost predicate UniqueIds(ms: seq<Fields>) {
    forall i, j :: 0 <= i < j < |ms| ==> Get(ms[i], "id") != Get(ms[j], "id")
  }

  lemma {:induction false} RemovalKeepsUnique(ms: seq<Fields>, id: Value)
    requires UniqueIds(ms)
    ensures UniqueIds(WithoutModule(ms, id))
  {
    if ms != [] {
      var init := ms[..|ms| - 1];
      RemovalKeepsUnique(init, id);
      var kept, last := WithoutModule(init, id), ms[|ms| - 1];
      assert forall i :: 0 <= i < |init| ==> Get(ms[i], "id") != Get(last, "id");
      forall i | 0 <= i < |kept| ensures Get(kept[i], "id") != Get(last, "id") {
        assert kept[i] in init;
      }
    }
  }

  lemma EditKeepsIds(d: Doc, id: string, f: Fields -> Result<Fields, Failure>)
    requires EditModule(d, id, f).Ok? && UniqueIds(OrEmpty(d.modules))
    requires forall m :: f(m).Ok? ==> Get(f(m).value, "id") == Get(m, "id")
    ensures UniqueIds(OrEmpty(EditModule(d, id, f).value.modules))
  {
  }

  lemma AppendKeepsIds(d: Doc, mod: Fields, remove: seq<Fields>, add: seq<Fields>)
    requires AppendModule(d, mod, remove, add).Ok? && UniqueIds(OrEmpty(d.modules))
    ensures UniqueIds(OrEmpty(AppendModule(d, mod, remove, add).value.modules)) <==> !KnownId(d, Get(mod, "id"))
  {
    hide Get, RemoveEdges, AddEdges;
    var ms := OrEmpty(d.modules);
    var k := FindModule(ms, Get(mod, "id"));
    assert (ms + [mod])[|ms|] == mod;
    assert k < |ms| ==> (ms + [mod])[k] == ms[k];
  }

  /** Every operation keeps module ids unique, except a probe added under an id that is taken: `add_probe` does not
      look. */
  lemma IdsStayUnique(d: Doc, op: Edit)
    requires UniqueIds(OrEmpty(d.modules)) && ApplyOp(d, op).Ok?
    ensures UniqueIds(OrEmpty(ApplyOp(d, op).value.modules)) <==> !(op.AddProbe? && KnownId(d, Get(op.mod, "id")))
  {
    hide EditModule, AppendModule, UniqueIds, WithoutModule, WithoutMentioning, RemoveEdges, AddEdges, SetNestedIn,
      Split, FindEdge, FindModule, Redirect;
    match op
    case ReplaceModuleConfig(id, config) => EditKeepsIds(d, id, PutField("config", Dict(config)));
    case SetModuleConfigKey(id, key, v) => EditKeepsIds(d, id, PutConfigKey(key, v));
    case ReplaceModuleLabel(id, text) => EditKeepsIds(d, id, PutField("label", Str(text)));
    case SetModuleOnFailure(id, policy) => EditKeepsIds(d, id, PutField("on_failure", Dict(policy)));
    case InsertModule(mod, add, remove) => AppendKeepsIds(d, mod, remove, add);
    case AddArcadeRef(mod, add, remove) => AppendKeepsIds(d, mod, remove, add);
    case AddProbe(mod, add) => AppendKeepsIds(d, mod, [], add);
    case RemoveModule(id, _) => RemovalKeepsUnique(OrEmpty(d.modules), Str(id));
    case _ =>
  }

  /** Such a probe makes two modules share an id. */
  lemma ProbeTakesId(d: Doc, add: seq<Fields>)
    requires d == Doc(Some([map["id" := Str("m")]]), None, None, map[]) && add == []
    ensures var probe: Edit := AddProbe(map["id" := Str("m"), "type" := Str("Probe"), "attach_to" := Str("m")], add);
            && UniqueIds(OrEmpty(d.modules)) && ApplyOp(d, probe).Ok?
            && !UniqueIds(OrEmpty(ApplyOp(d, probe).value.modules))
  {
    var mod := map["id" := Str("m"), "type" := Str("Probe"), "attach_to" := Str("m")];
    assert ApplyOp(d, AddProbe(mod, [])).Ok?;
    IdsStayUnique(d, AddProbe(mod, []));
  }

  // ----- undoing an operation -----

  lemma TwoSteps(d: Doc, a: Edit, b: Edit)
    ensures ApplyAll(d, [a, b]) ==
            if ApplyOp(d, a).Err? then Err((0, ApplyOp(d, a).error))
            else if ApplyOp(ApplyOp(d, a).value, b).Err? then Err((1, ApplyOp(ApplyOp(d, a).value, b).error))
            else Ok(ApplyOp(ApplyOp(d, a).value, b).value)
  {
    hide ApplyOp;
    assert [a, b][..1] == [a] && [a][..0] == [];
    assert ApplyAll(d, []) == Ok(d);
    assert ApplyAll(d, [a]) == if ApplyOp(d, a).Err? then Err((0, ApplyOp(d, a).error)) else Ok(ApplyOp(d, a).value);
  }

  lemma {:induction false} WithoutMentioningSplits(p: seq<Fields>, q: seq<Fields>, id: Value)
    ensures WithoutMentioning(p + q, id) == WithoutMentioning(p, id) + WithoutMentioning(q, id)
    decreases |q|
  {
    hide Mentions;
    if q == [] {
      assert p + q == p;
    } else {
      assert (p + q)[..|p + q| - 1] == p + q[..|q| - 1];
      WithoutMentioningSplits(p, q[..|q| - 1], id);
    }
  }

  lemma {:induction false} WithoutMentioningIsAll(es: seq<Fields>, id: Value)
    ensures WithoutMentioning(es, id) == es <==> forall e :: e in es ==> !Mentions(e, id)
    ensures WithoutMentioning(es, id) == [] <==> forall e :: e in es ==> Mentions(e, id)
  {
    hide Mentions;
    if es != [] {
      var init, last := es[..|es| - 1], es[|es| - 1];
      var kept := WithoutMentioning(init, id);
      WithoutMentioningIsAll(init, id);
      assert forall e :: e in es <==> e in init || e == last;
      LastOfTwo(kept, init, last);
      assert es == init + [last];
    }
  }

  lemma LastOfTwo(a: seq<Fields>, b: seq<Fields>, last: Fields)
    ensures a + [last] == b + [last] <==> a == b
  {
    assert (a + [last])[..|a|] == a && (b + [last])[..|b|] == b;
  }

  lemma WithoutModuleLast(ms: seq<Fields>, mod: Fields, id: Value)
    requires FindModule(ms, id) == |ms| && HasId(mod, id)
    ensures WithoutModule(ms + [mod], id) == ms
  {
    hide HasId;
    assert (ms + [mod])[..|ms|] == ms;
    WithoutModuleNone(ms, id);
  }

  lemma {:induction false} WithoutModuleNone(ms: seq<Fields>, id: Value)
    requires forall i :: 0 <= i < |ms| ==> !HasId(ms[i], id)
    ensures WithoutModule(ms, id) == ms
  {
    hide HasId;
    if ms != [] {
      var init := ms[..|ms| - 1];
      WithoutModuleNone(init, id);
      assert ms == init + [ms[|ms| - 1]];
    }
  }

  lemma Inserted(d: Doc, mod: Fields, add: seq<Fields>)
    requires ApplyOp(d, InsertModule(mod, add, [])).Ok?
    ensures !KnownId(d, Get(mod, "id"))
    ensures ApplyOp(d, InsertModule(mod, add, []))
            == Ok(d.(modules := Some(OrEmpty(d.modules) + [mod]), edges := Some(OrEmpty(d.edges) + add)))
  {
    hide FindModule, EditModule, Falsy;
  }

  lemma Removed(d: Doc, id: string)
    requires KnownId(d, Str(id))
    ensures ApplyOp(d, RemoveModule(id, []))
            == Ok(d.(modules := Some(WithoutModule(OrEmpty(d.modules), Str(id))),
                     edges := Some(WithoutMentioning(OrEmpty(d.edges), Str(id)))))
  {
    hide FindModule, EditModule, WithoutModule, WithoutMentioning;
    assert WithoutMentioning(OrEmpty(d.edges), Str(id)) + [] == WithoutMentioning(OrEmpty(d.edges), Str(id));
  }

  lemma InsertThenRemove(d: Doc, id: string, mod: Fields, add: seq<Fields>)
    requires HasId(mod, Str(id)) && ApplyOp(d, InsertModule(mod, add, [])).Ok?
    ensures ApplyAll(d, [InsertModule(mod, add, []), RemoveModule(id, [])])
            == Ok(d.(modules := Some(OrEmpty(d.modules)),
                     edges := Some(WithoutMentioning(OrEmpty(d.edges) + add, Str(id)))))
  {
    hide Mentions, WithoutMentioning, WithoutModule, ApplyOp, ApplyAll;
    var ms, key := OrEmpty(d.modules), Str(id);
    TwoSteps(d, InsertModule(mod, add, []), RemoveModule(id, []));
    Inserted(d, mod, add);
    assert FindModule(ms + [mod], key) <= |ms| by { assert (ms + [mod])[|ms|] == mod; }
    Removed(d.(modules := Some(ms + [mod]), edges := Some(OrEmpty(d.edges) + add)), id);
    WithoutModuleLast(ms, mod, key);
  }

  lemma MentionsGone(es: seq<Fields>, add: seq<Fields>, key: Value)
    ensures WithoutMentioning(es + add, key) == es <==>
            (forall e :: e in es ==> !Mentions(e, key)) && forall e :: e in add ==> Mentions(e, key)
  {
    hide Mentions, WithoutMentioning;
    WithoutMentioningSplits(es, add, key);
    WithoutMentioningIsAll(es, key);
    WithoutMentioningIsAll(add, key);
    NoMentionsLeft(es + add, key);
    if WithoutMentioning(es + add, key) == es {
      assert forall e :: e in es ==> e in WithoutMentioning(es + add, key);
    }
  }

  /** Removing a module that was just inserted restores modules and edges exactly when the inserted edges, and no
      others, touch it. */
  lemma RemoveUndoesInsert(d: Doc, id: string, mod: Fields, add: seq<Fields>)
    requires HasId(mod, Str(id)) && ApplyOp(d, InsertModule(mod, add, [])).Ok?
    ensures ApplyAll(d, [InsertModule(mod, add, []), RemoveModule(id, [])])
            == Ok(d.(modules := Some(OrEmpty(d.modules)), edges := Some(OrEmpty(d.edges))))
            <==>
            && (forall e :: e in OrEmpty(d.edges) ==> !Mentions(e, Str(id)))
            && (forall e :: e in add ==> Mentions(e, Str(id)))
  {
    hide Mentions, WithoutMentioning, ApplyAll, ApplyOp;
    InsertThenRemove(d, id, mod, add);
    MentionsGone(OrEmpty(d.edges), add, Str(id));
  }

  lemma {:induction false} NoMentionsLeft(es: seq<Fields>, id: Value)
    ensures forall e :: e in WithoutMentioning(es, id) ==> !Mentions(e, id)
  {
    hide Mentions;
    if es != [] {
      NoMentionsLeft(es[..|es| - 1], id);
    }
  }

  /** `o` if there is one, else `s`. */
  function Or(o: Option<string>, s: string): string {
    if o.Some? then o.value else s
  }

  /** The operation that takes a rewiring back: every field it replaced gets its old value. */
  function Back(from: string, to: string, newFrom: Option<string>, newTo: Option<string>, newPort: Option<string>,
                port: string): Edit
  {
    ReplaceEdge(Or(newFrom, from), Or(newTo, to),
                if newFrom.Some? then Some(from) else None,
                if newTo.Some? then Some(to) else None,
                if newPort.Some? then Some(port) else None)
  }

  lemma RedirectedBack(e: Fields, from: string, to: string, newFrom: Option<string>, newTo: Option<string>,
                       newPort: Option<string>, port: string)
    requires Joins(e, Str(from), Str(to))
    ensures var there: Edit := ReplaceEdge(from, to, newFrom, newTo, newPort);
            var back := Back(from, to, newFrom, newTo, newPort, port);
            && Joins(Redirect(e, there), Str(Or(newFrom, from)), Str(Or(newTo, to)))
            && (Redirect(Redirect(e, there), back) == e <==> (newPort.Some? ==> Get(e, "port") == Str(port)))
  {
    var there, back := ReplaceEdge(from, to, newFrom, newTo, newPort), Back(from, to, newFrom, newTo, newPort, port);
    var again := Redirect(Redirect(e, there), back);
    assert forall k :: k !in {"from", "to", "port"} ==> Get(again, k) == Get(e, k);
    assert again["from"] == e["from"] && again["to"] == e["to"];
    assert "port" in again && newPort.Some? ==> again["port"] == Str(port);
    assert again.Keys == e.Keys + if newPort.Some? then {"port"} else {};
    if newPort.Some? ==> Get(e, "port") == Str(port) {
      assert forall k :: k in e ==> again[k] == e[k];
    }
  }

  /** An edge that already joins the new endpoints does not survive the way back, unless they are the old ones. */
  lemma BackMoves(e: Fields, from: string, to: string, newFrom: Option<string>, newTo: Option<string>,
                  newPort: Option<string>, port: string)
    requires Joins(e, Str(Or(newFrom, from)), Str(Or(newTo, to))) && !Joins(e, Str(from), Str(to))
    ensures Redirect(e, Back(from, to, newFrom, newTo, newPort, port)) != e
  {
    var moved := Redirect(e, Back(from, to, newFrom, newTo, newPort, port));
    assert newFrom.Some? ==> moved["from"] == Str(from);
    assert newTo.Some? ==> moved["to"] == Str(to);
  }

  lemma Rewired(d: Doc, op: Edit)
    requires op.ReplaceEdge? && (op.newFrom.Some? || op.newTo.Some? || op.newPort.Some?)
    requires FindEdge(OrEmpty(d.edges), Str(op.fromId), Str(op.toId)) < |OrEmpty(d.edges)|
    ensures var es := OrEmpty(d.edges);
            var k := FindEdge(es, Str(op.fromId), Str(op.toId));
            ApplyOp(d, op) == Ok(d.(edges := Some(es[k := Redirect(es[k], op)])))
  {
    hide Joins, Redirect, FindModule, EditModule, AppendModule, AddEdges, SetNestedIn, WithoutMentioning, WithoutModule;
  }

  /** Rewiring an edge back, in any of its ends or its port, restores the Blueprint exactly when something was
      rewired, no earlier edge already joined the new ends, and a replaced port was there before. */
  lemma RewiringBackUndoes(d: Doc, from: string, to: string, newFrom: Option<string>, newTo: Option<string>,
                           newPort: Option<string>, port: string)
    requires FindEdge(OrEmpty(d.edges), Str(from), Str(to)) < |OrEmpty(d.edges)|
    ensures ApplyAll(d, [ReplaceEdge(from, to, newFrom, newTo, newPort),
                         Back(from, to, newFrom, newTo, newPort, port)]) == Ok(d)
            <==>
            var es := OrEmpty(d.edges);
            var k := FindEdge(es, Str(from), Str(to));
            && (newFrom.Some? || newTo.Some? || newPort.Some?)
            && (forall i :: 0 <= i < k ==> !Joins(es[i], Str(Or(newFrom, from)), Str(Or(newTo, to))))
            && (newPort.Some? ==> Get(es[k], "port") == Str(port))
  {
    hide Joins, Redirect, ApplyAll, ApplyOp, Get, FindEdge;
    var es := OrEmpty(d.edges);
    var there, back := ReplaceEdge(from, to, newFrom, newTo, newPort), Back(from, to, newFrom, newTo, newPort, port);
    var k := FindEdge(es, Str(from), Str(to));
    TwoSteps(d, there, back);
    if newFrom.Some? || newTo.Some? || newPort.Some? {
      var moved := es[k := Redirect(es[k], there)];
      var mid := d.(edges := Some(moved));
      Rewired(d, there);
      RedirectedBack(es[k], from, to, newFrom, newTo, newPort, port);
      var j := FindEdge(moved, Str(Or(newFrom, from)), Str(Or(newTo, to)));
      assert Joins(moved[k], Str(Or(newFrom, from)), Str(Or(newTo, to)));
      Rewired(mid, back);
      var end := moved[j := Redirect(moved[j], back)];
      PutBack(es, k, moved[k], j, end[j]);
      if j < k {
        BackMoves(es[j], from, to, newFrom, newTo, newPort, port);
      } else {
        assert forall i :: 0 <= i < k ==> moved[i] == es[i];
      }
    } else {
      NothingRewired(d, there);
    }
  }

  lemma PutBack(es: seq<Fields>, k: nat, there: Fields, j: nat, back: Fields)
    requires j <= k < |es|
    ensures j == k ==> (es[k := there][j := back] == es <==> back == es[k])
    ensures j < k && back != es[j] ==> es[k := there][j := back] != es
  {
  }

  lemma NothingRewired(d: Doc, op: Edit)
    requires op.ReplaceEdge? && op.newFrom.None? && op.newTo.None? && op.newPort.None?
    ensures ApplyOp(d, op) == Err(NothingToReplace)
  {
  }

  // ----- Spark settings -----

  /** The Spark settings; an absent block is an empty one, and anything but a dictionary cannot be written to. */
  function SparkBlock(d: Doc): Option<Fields> {
    if "spark_config" !in d.rest then Some(map[])
    else if d.rest["spark_config"].Dict? then Some(d.rest["spark_config"].fields) else None
  }

  /** A Spark setting is read back under its whole name, dots included, and nothing else in the Blueprint reads
      differently. */
  lemma SparkSettingIsStored(d: Doc, key: string, v: Value, path: seq<string>)
    ensures ApplyOp(d, SetSparkConfig(key, v)).Ok? <==> SparkBlock(d).Some?
    ensures ApplyOp(d, SetSparkConfig(key, v)).Ok? ==>
              var after := ApplyOp(d, SetSparkConfig(key, v)).value;
              && Lookup(Dict(after.rest), ["spark_config", key]) == Some(v)
              && (path != [] && path[0] != "spark_config" ==>
                   Lookup(Dict(after.rest), path) == Lookup(Dict(d.rest), path))
              && (|path| > 1 && path[0] == "spark_config" && path[1] != key ==>
                    Lookup(Dict(after.rest), path) == Lookup(Dict(d.rest), path))
              && after.modules == d.modules && after.edges == d.edges && after.context == d.context
  {
    if SparkBlock(d).Some? {
      var block := SparkBlock(d).value;
      var after := ApplyOp(d, SetSparkConfig(key, v)).value;
      assert after.rest["spark_config"] == Dict(block[key := v]);
      assert ["spark_config", key][1..] == [key] && [key][1..] == [];
      assert Lookup(Dict(block[key := v]), [key]) == Some(v);
      if |path| > 1 && path[0] == "spark_config" && path[1] != key {
        assert path[1..] != [] && path[1..][0] == path[1];
        assert Lookup(Dict(block[key := v]), path[1..]) == Lookup(Dict(block), path[1..]);
      }
    }
  }

  lemma SparkSettings(d: Doc, k1: string, v1: Value, k2: string, v2: Value)
    requires SparkBlock(d).Some?
    ensures ApplyAll(d, [SetSparkConfig(k1, v1), SetSparkConfig(k2, v2)])
            == Ok(d.(rest := d.rest["spark_config" := Dict(SparkBlock(d).value[k1 := v1][k2 := v2])]))
  {
    hide ApplyAll;
    TwoSteps(d, SetSparkConfig(k1, v1), SetSparkConfig(k2, v2));
    var block := SparkBlock(d).value;
    assert d.rest["spark_config" := Dict(block[k1 := v1])]["spark_config" := Dict(block[k1 := v1][k2 := v2])]
        == d.rest["spark_config" := Dict(block[k1 := v1][k2 := v2])];
  }

  /** Two settings may change places exactly when they do not contradict each other, or no setting can be made. */
  lemma SparkSettingsCommute(d: Doc, k1: string, v1: Value, k2: string, v2: Value)
    ensures ApplyAll(d, [SetSparkConfig(k1, v1), SetSparkConfig(k2, v2)])
            == ApplyAll(d, [SetSparkConfig(k2, v2), SetSparkConfig(k1, v1)])
            <==> k1 != k2 || v1 == v2 || SparkBlock(d).None?
  {
    hide ApplyAll;
    if SparkBlock(d).None? {
      TwoSteps(d, SetSparkConfig(k1, v1), SetSparkConfig(k2, v2));
      TwoSteps(d, SetSparkConfig(k2, v2), SetSparkConfig(k1, v1));
    } else {
      SparkSettings(d, k1, v1, k2, v2);
      SparkSettings(d, k2, v2, k1, v1);
      var block := SparkBlock(d).value;
      var ab, ba := block[k1 := v1][k2 := v2], block[k2 := v2][k1 := v1];
      assert k1 == k2 && v1 != v2 ==> ab[k1] != ba[k1];
      assert k1 != k2 || v1 == v2 ==> ab == ba;
      assert d.rest["spark_config" := Dict(ab)]["spark_config"] == Dict(ab);
      assert d.rest["spark_config" := Dict(ba)]["spark_config"] == Dict(ba);
    }
  }

  // ----- dotted keys -----

  /** A dotted write succeeds exactly when everything above the last key is a dictionary. */
  lemma {:induction false} WriteSucceeds(d: Fields, parts: seq<string>, v: Value)
    requires parts != []
    ensures SetNested(d, parts, v).Ok? <==>
            var parent := Lookup(Dict(d), parts[..|parts| - 1]); parent.Some? && parent.value.Dict?
    decreases |parts|
  {
    if |parts| > 1 {
      assert parts[..|parts| - 1][1..] == parts[1..][..|parts[1..]| - 1];
      if parts[0] in d && d[parts[0]].Dict? {
        WriteSucceeds(d[parts[0]].fields, parts[1..], v);
      } else if |parts| > 2 && parts[0] in d {
        assert parts[..|parts| - 1][1..] != [];
      }
    }
  }

  /** Reading back what was written. */
  lemma {:induction false} WriteThenRead(d: Fields, parts: seq<string>, v: Value)
    requires parts != [] && SetNested(d, parts, v).Ok?
    ensures Lookup(Dict(SetNested(d, parts, v).value), parts) == Some(v)
    decreases |parts|
  {
    if |parts| > 1 {
      WriteThenRead(d[parts[0]].fields, parts[1..], v);
    }
  }

  /** Every path that the written one is not a prefix of, nor the other way round, reads as before. */
  lemma {:induction false} WriteElsewhere(d: Fields, parts: seq<string>, v: Value, path: seq<string>, k: nat)
    requires parts != [] && SetNested(d, parts, v).Ok?
    requires k < |parts| && k < |path| && parts[..k] == path[..k] && parts[k] != path[k]
    ensures Lookup(Dict(SetNested(d, parts, v).value), path) == Lookup(Dict(d), path)
    decreases |parts|
  {
    if k > 0 {
      assert parts[0] == parts[..k][0] == path[..k][0] == path[0];
      assert parts[1..][..k - 1] == parts[..k][1..] && path[1..][..k - 1] == path[..k][1..];
      WriteElsewhere(d[parts[0]].fields, parts[1..], v, path[1..], k - 1);
    }
  }

  /** Where two keys part, if neither lies below the other. */
  lemma DivergeAt(a: seq<string>, b: seq<string>) returns (k: nat)
    requires !(a <= b) && !(b <= a)
    ensures k < |a| && k < |b| && a[..k] == b[..k] && a[k] != b[k]
  {
    k := 0;
    while k < |a| && k < |b| && a[k] == b[k]
      invariant k <= |a| && k <= |b| && a[..k] == b[..k]
    {
      k := k + 1;
    }
  }

  // ----- removing edges -----

  predicate SameEnds(a: Fields, b: Fields) {
    Get(a, "from") == Get(b, "from") && Get(a, "to") == Get(b, "to")
  }

  lemma {:induction false} NotJoiningMeans(es: seq<Fields>, from: Value, to: Value)
    ensures forall e :: e in WithoutJoining(es, from, to) <==> e in es && !Joins(e, from, to)
    ensures |WithoutJoining(es, from, to)| == |es| <==> forall e :: e in es ==> !Joins(e, from, to)
  {
    hide Joins;
    if es != [] {
      var init := es[..|es| - 1];
      NotJoiningMeans(init, from, to);
      assert es == init + [es[|es| - 1]];
    }
  }

  /** Some spec has the ends of `e`. */
  predicate NamedBy(e: Fields, specs: seq<Fields>) {
    specs != [] && (SameEnds(e, specs[|specs| - 1]) || NamedBy(e, specs[..|specs| - 1]))
  }

  /** Every spec has the ends of some edge, and no two specs have the same ends. */
  ghost predicate Removable(es: seq<Fields>, specs: seq<Fields>) {
    specs == [] ||
    var init, last := specs[..|specs| - 1], specs[|specs| - 1];
    Removable(es, init) && !NamedBy(last, init) && exists e :: e in es && SameEnds(e, last)
  }

  lemma {:induction false} SameEndsNamed(a: Fields, b: Fields, specs: seq<Fields>)
    requires SameEnds(a, b)
    ensures NamedBy(a, specs) == NamedBy(b, specs)
  {
    if specs != [] {
      SameEndsNamed(a, b, specs[..|specs| - 1]);
    }
  }

  /** `edges_to_remove` succeeds exactly when every spec names an edge of the Blueprint and no two name the same;
      what stays is every edge that no spec names. */
  lemma {:induction false} RemovesExactly(es: Option<seq<Fields>>, specs: seq<Fields>)
    ensures RemoveEdges(es, specs).Ok? <==> Removable(OrEmpty(es), specs)
    ensures RemoveEdges(es, specs).Ok? ==>
              forall e :: e in OrEmpty(RemoveEdges(es, specs).value) <==> e in OrEmpty(es) && !NamedBy(e, specs)
  {
    hide WithoutJoining, Get;
    if specs != [] {
      var init, last := specs[..|specs| - 1], specs[|specs| - 1];
      RemovesExactly(es, init);
      if RemoveEdges(es, init).Ok? {
        var before := OrEmpty(RemoveEdges(es, init).value);
        NotJoiningMeans(before, Get(last, "from"), Get(last, "to"));
        assert forall e :: Joins(e, Get(last, "from"), Get(last, "to")) <==> SameEnds(e, last);
        forall e | SameEnds(e, last) ensures NamedBy(e, init) == NamedBy(last, init) {
          SameEndsNamed(e, last, init);
        }
      }
    }
  }
}
