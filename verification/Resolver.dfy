/** Tier 0 context resolution (aqueduct/parser/resolver.py, step 5 of `build_context_map`).
    A value is its sequence of tokens; substitution replaces tokens and never forms new ones. */
module Resolver {
  import opened Common

  type Key = string

  datatype Token =
    | Lit(text: string)
    | Ref(key: Key)        // ${ctx.key}
    | Tier1(text: string)  // @aq.

  type Text = seq<Token>
  type Context = map<Key, Text>

  datatype ContextError = DepthExceeded | Undefined(key: Key) | Unresolvable

  const MAX_DEPTH: nat := 20
  const PASSES: nat := 20

  /** `_RESERVED_DEFERRED`: resolved by the Executor at run time. */
  predicate Reserved(k: Key) {
    k == "_watermark"
  }

  /** Some context reference occurs in the value. */
  predicate HasRef(v: Text) {
    exists i :: 0 <= i < |v| && v[i].Ref?
  }

  /** Some text of the runtime tier occurs in the value. */
  predicate HasTier1(v: Text) {
    exists i :: 0 <= i < |v| && v[i].Tier1?
  }

  // ----- _sub_ctx -----

  /** Substitution of all references (`_sub_ctx`), with `fuel` levels of recursion left. */
  function SubCtx(v: Text, m: Context, fuel: nat): Result<Text, ContextError>
    decreases fuel, |v|
  {
    if fuel == 0 then Err(DepthExceeded)
    else if v == [] then Ok([])
    else
      var init := SubCtx(v[..|v| - 1], m, fuel);
      if init.Err? then init else
      var last := SubToken(v[|v| - 1], m, fuel);
      if last.Err? then last else Ok(init.value + last.value)
  }

  function SubToken(t: Token, m: Context, fuel: nat): Result<Text, ContextError>
    requires fuel > 0
    decreases fuel, 0
  {
    if !t.Ref? then Ok([t])
    else if t.key !in m then (if Reserved(t.key) then Ok([t]) else Err(Undefined(t.key)))
    else if HasRef(m[t.key]) then SubCtx(m[t.key], m, fuel - 1)
    else Ok(m[t.key])
  }

  // ----- full expansion: the meaning of a value -----

  /** `t` is the complete expansion of `v` in `m`, reached within `fuel` levels. */
  predicate Expands(v: Text, m: Context, fuel: nat, t: Text) {
    SubCtx(v, m, fuel) == Ok(t)
  }

  /** No reference is left but those to reserved keys the context does not define. */
  predicate Ground(t: Text, m: Context) {
    forall i :: 0 <= i < |t| && t[i].Ref? ==> t[i].key !in m && Reserved(t[i].key)
  }

  lemma {:induction false} ExpansionIsGround(v: Text, m: Context, fuel: nat, t: Text)
    requires Expands(v, m, fuel, t)
    ensures Ground(t, m)
    decreases fuel, |v|
  {
    if v != [] {
      var init, last := v[..|v| - 1], v[|v| - 1];
      var head, tail := SubCtx(init, m, fuel).value, SubToken(last, m, fuel).value;
      ExpansionIsGround(init, m, fuel, head);
      if last.Ref? && last.key in m && HasRef(m[last.key]) {
        ExpansionIsGround(m[last.key], m, fuel - 1, tail);
      }
      assert Ground(tail, m);
      assert t == head + tail;
    }
  }

  lemma {:induction false} GroundIsFixed(t: Text, m: Context, fuel: nat)
    requires Ground(t, m) && fuel > 0
    ensures Expands(t, m, fuel, t)
    decreases |t|
  {
    if t != [] {
      GroundIsFixed(t[..|t| - 1], m, fuel);
      assert t == t[..|t| - 1] + [t[|t| - 1]];
    }
  }

  /** More fuel changes nothing once the expansion exists. */
  lemma {:induction false} MoreFuel(v: Text, m: Context, fuel: nat, more: nat)
    requires SubCtx(v, m, fuel).Ok? && fuel <= more
    ensures SubCtx(v, m, more) == SubCtx(v, m, fuel)
    decreases fuel, |v|
  {
    if v != [] {
      var last := v[|v| - 1];
      MoreFuel(v[..|v| - 1], m, fuel, more);
      if last.Ref? && last.key in m && HasRef(m[last.key]) {
        MoreFuel(m[last.key], m, fuel - 1, more - 1);
      }
    }
  }

  lemma ExpansionIsUnique(v: Text, m: Context, f1: nat, t1: Text, f2: nat, t2: Text)
    requires Expands(v, m, f1, t1) && Expands(v, m, f2, t2)
    ensures t1 == t2
  {
    if f1 <= f2 {
      MoreFuel(v, m, f1, f2);
    } else {
      MoreFuel(v, m, f2, f1);
    }
  }

  ghost predicate Expandable(v: Text, m: Context) {
    exists fuel: nat :: SubCtx(v, m, fuel).Ok?
  }

  /** The complete recursive expansion of `v` in `m`. */
  ghost function Full(v: Text, m: Context): (t: Text)
    requires Expandable(v, m)
  {
    var fuel: nat :| SubCtx(v, m, fuel).Ok?;
    SubCtx(v, m, fuel).value
  }

  lemma FullIs(v: Text, m: Context, fuel: nat, t: Text)
    requires Expands(v, m, fuel, t)
    ensures Expandable(v, m) && Full(v, m) == t
  {
    assert SubCtx(v, m, fuel).Ok?;
    var other: nat :| SubCtx(v, m, other).Ok? && Full(v, m) == SubCtx(v, m, other).value;
    ExpansionIsUnique(v, m, fuel, t, other, Full(v, m));
  }

  // ----- the equations of substitution -----

  /** A defined reference is replaced by the complete expansion of what the context holds under its key. */
  lemma RefMeans(k: Key, m: Context)
    requires k in m
    ensures Expandable([Ref(k)], m) <==> Expandable(m[k], m)
    ensures Expandable([Ref(k)], m) ==> Full([Ref(k)], m) == Full(m[k], m)
  {
    if fuel: nat :| SubCtx([Ref(k)], m, fuel).Ok? {
      OneToken(Ref(k), m, fuel);
      if HasRef(m[k]) {
        FullIs(m[k], m, fuel - 1, SubToken(Ref(k), m, fuel).value);
      } else {
        NoRefIsFixed(m[k], m, 1);
        FullIs(m[k], m, 1, m[k]);
      }
      FullIs([Ref(k)], m, fuel, SubToken(Ref(k), m, fuel).value);
    }
    if fuel: nat :| SubCtx(m[k], m, fuel).Ok? {
      OneToken(Ref(k), m, fuel + 1);
      assert SubCtx([Ref(k)], m, fuel + 1).Ok?;
    }
  }

  lemma OneToken(t: Token, m: Context, fuel: nat)
    ensures SubCtx([t], m, fuel) == if fuel == 0 then Err(DepthExceeded) else SubToken(t, m, fuel)
  {
    if fuel > 0 {
      assert [t][..0] == [] && SubCtx([], m, fuel) == Ok([]);
      if SubToken(t, m, fuel).Ok? {
        assert [] + SubToken(t, m, fuel).value == SubToken(t, m, fuel).value;
      }
    }
  }

  /** Every other token stays. Only a reference to the watermark may be undefined. */
  lemma OtherTokenMeans(t: Token, m: Context)
    requires t.Ref? ==> t.key !in m
    ensures Expandable([t], m) <==> (t.Ref? ==> t.key == "_watermark")
    ensures Expandable([t], m) ==> Full([t], m) == [t]
  {
    OneToken(t, m, 1);
    if t.Ref? ==> t.key == "_watermark" {
      FullIs([t], m, 1, [t]);
    } else if fuel: nat :| SubCtx([t], m, fuel).Ok? {
      OneToken(t, m, fuel);
    }
  }

  /** Expansion goes token by token. */
  lemma JoinedMeans(a: Text, b: Text, m: Context)
    ensures Expandable(a + b, m) <==> Expandable(a, m) && Expandable(b, m)
    ensures Expandable(a + b, m) ==> Full(a + b, m) == Full(a, m) + Full(b, m)
    ensures Expandable([], m) && Full([], m) == []
  {
    assert Expands([], m, 1, []);
    FullIs([], m, 1, []);
    if fuel: nat :| SubCtx(a + b, m, fuel).Ok? {
      Apart(a, b, m, fuel);
      FullIs(a, m, fuel, SubCtx(a, m, fuel).value);
      FullIs(b, m, fuel, SubCtx(b, m, fuel).value);
      FullIs(a + b, m, fuel, SubCtx(a + b, m, fuel).value);
    }
    if Expandable(a, m) && Expandable(b, m) {
      var f: nat :| SubCtx(a, m, f).Ok?;
      var g: nat :| SubCtx(b, m, g).Ok?;
      var most := if f >= g then f else g;
      MoreFuel(a, m, f, most);
      MoreFuel(b, m, g, most);
      Apart(a, b, m, most);
    }
  }

  lemma {:induction false} Apart(a: Text, b: Text, m: Context, fuel: nat)
    ensures SubCtx(a + b, m, fuel).Ok? <==> SubCtx(a, m, fuel).Ok? && SubCtx(b, m, fuel).Ok?
    ensures SubCtx(a + b, m, fuel).Ok? ==>
              SubCtx(a + b, m, fuel).value == SubCtx(a, m, fuel).value + SubCtx(b, m, fuel).value
    decreases |b|
  {
    if b == [] {
      assert a + b == a;
      if fuel > 0 {
        assert SubCtx(b, m, fuel) == Ok([]);
      }
    } else {
      assert (a + b)[..|a + b| - 1] == a + b[..|b| - 1];
      Apart(a, b[..|b| - 1], m, fuel);
    }
  }

  /** `p` is a line of references: each entry is one reference to the next, and the last has none. */
  ghost predicate Line(m: Context, p: seq<Key>) {
    && p != [] && (forall i :: 0 <= i < |p| ==> p[i] in m) && !HasRef(m[p[|p| - 1]])
    && forall i :: 0 <= i < |p| - 1 ==> m[p[i]] == [Ref(p[i + 1])]
  }

  lemma {:induction false} LineNeeds(m: Context, p: seq<Key>, i: nat, fuel: nat)
    requires Line(m, p) && i < |p| - 1
    ensures SubCtx(m[p[i]], m, fuel).Ok? <==> fuel >= |p| - 1 - i
    ensures fuel < |p| - 1 - i ==> SubCtx(m[p[i]], m, fuel) == Err(DepthExceeded)
    decreases |p| - i
  {
    OneToken(Ref(p[i + 1]), m, fuel);
    assert m[p[i]] == [Ref(p[i + 1])];
    if i + 1 < |p| - 1 {
      var next := m[p[i + 1]];
      assert next == [Ref(p[i + 1 + 1])] && next[0].Ref?;
      if fuel > 0 {
        LineNeeds(m, p, i + 1, fuel - 1);
      }
    }
  }

  /** A line of up to twenty-one references resolves, a longer one is reported as too deep. */
  lemma LineDepth(m: Context, p: seq<Key>)
    requires Line(m, p) && |p| >= 2
    ensures SubCtx(m[p[0]], m, MAX_DEPTH + 1).Ok? <==> |p| - 1 <= 21
    ensures |p| - 1 > 21 ==> SubCtx(m[p[0]], m, MAX_DEPTH + 1) == Err(DepthExceeded)
  {
    LineNeeds(m, p, 0, MAX_DEPTH + 1);
  }

  /** An undefined key that is reported is mentioned somewhere, defined nowhere, and not the watermark. */
  lemma {:induction false} UndefinedMeans(v: Text, m: Context, fuel: nat)
    ensures match SubCtx(v, m, fuel)
            case Err(Undefined(k)) =>
              k !in m && k != "_watermark" && (Ref(k) in v || exists j :: j in m && Ref(k) in m[j])
            case _ => true
    decreases fuel, |v|
  {
    if fuel > 0 && v != [] {
      var init, last := v[..|v| - 1], v[|v| - 1];
      assert forall t :: t in init ==> t in v;
      UndefinedMeans(init, m, fuel);
      if SubCtx(init, m, fuel).Ok? && last.Ref? && last.key in m && HasRef(m[last.key]) {
        UndefinedMeans(m[last.key], m, fuel - 1);
      }
    }
  }

  // ----- resolving in place while iterating -----

  /** `m` is the original `m0` with some entries already replaced by their full expansion. */
  ghost predicate Partial(m: Context, m0: Context) {
    && m.Keys == m0.Keys
    && forall k :: k in m0 ==>
         m[k] == m0[k] || (!HasTier1(m0[k]) && exists fuel: nat :: Expands(m0[k], m0, fuel, m[k]))
  }

  /** Substituting in the half-resolved map gives the expansion in the original one. */
  lemma {:induction false} PartialIsEnough(v: Text, m: Context, m0: Context, fuel: nat, t: Text) returns (total: nat)
    requires Partial(m, m0) && Expands(v, m, fuel, t)
    ensures Expands(v, m0, total, t)
    decreases fuel, |v|
  {
    if v == [] {
      total := fuel;
    } else {
      var init, last := v[..|v| - 1], v[|v| - 1];
      var f1 := PartialIsEnough(init, m, m0, fuel, SubCtx(init, m, fuel).value);
      var f2 := TokenIsEnough(last, m, m0, fuel);
      total := if f1 >= f2 then f1 else f2;
      MoreFuel(init, m0, f1, total);
      TokenMoreFuel(last, m0, f2, total);
    }
  }

  lemma TokenIsEnough(t: Token, m: Context, m0: Context, fuel: nat) returns (total: nat)
    requires Partial(m, m0) && fuel > 0 && SubToken(t, m, fuel).Ok?
    ensures total > 0 && SubToken(t, m0, total) == SubToken(t, m, fuel)
    decreases fuel, 0
  {
    total := 1;
    if t.Ref? && t.key in m {
      var k, value := t.key, SubToken(t, m, fuel).value;
      if m[k] == m0[k] {
        if HasRef(m[k]) {
          var inner := PartialIsEnough(m[k], m, m0, fuel - 1, value);
          total := inner + 1;
        }
      } else {
        var f: nat :| Expands(m0[k], m0, f, m[k]);
        ExpansionIsGround(m0[k], m0, f, m[k]);
        if HasRef(m[k]) {
          assert Ground(m[k], m);
          assert fuel - 1 > 0;
          GroundIsFixed(m[k], m, fuel - 1);
        }
        if HasRef(m0[k]) {
          total := f + 1;
        } else {
          NoRefIsFixed(m0[k], m0, f);
        }
      }
    }
  }

  lemma TokenMoreFuel(t: Token, m: Context, fuel: nat, more: nat)
    requires 0 < fuel <= more && SubToken(t, m, fuel).Ok?
    ensures SubToken(t, m, more) == SubToken(t, m, fuel)
  {
    if t.Ref? && t.key in m && HasRef(m[t.key]) {
      MoreFuel(m[t.key], m, fuel - 1, more - 1);
    }
  }

  lemma NoRefIsFixed(v: Text, m: Context, fuel: nat)
    requires !HasRef(v) && fuel > 0
    ensures Expands(v, m, fuel, v)
  {
    GroundIsFixed(v, m, fuel);
  }

  /** Nothing that worked in the original map fails in a half-resolved one. */
  lemma {:induction false} PartialSucceeds(v: Text, m: Context, m0: Context, fuel: nat)
    requires Partial(m, m0) && SubCtx(v, m0, fuel).Ok?
    ensures SubCtx(v, m, fuel).Ok?
    decreases fuel, |v|
  {
    if v != [] {
      var last := v[|v| - 1];
      PartialSucceeds(v[..|v| - 1], m, m0, fuel);
      assert SubToken(last, m0, fuel).Ok?;
      if last.Ref? && last.key in m && HasRef(m[last.key]) {
        ReplacedSucceeds(last.key, m, m0, fuel);
      }
    }
  }

  lemma ReplacedSucceeds(k: Key, m: Context, m0: Context, fuel: nat)
    requires Partial(m, m0) && k in m0 && fuel > 0 && HasRef(m[k])
    requires HasRef(m0[k]) ==> SubCtx(m0[k], m0, fuel - 1).Ok?
    ensures SubCtx(m[k], m, fuel - 1).Ok?
    decreases fuel, 0
  {
    if m[k] == m0[k] {
      PartialSucceeds(m0[k], m, m0, fuel - 1);
    } else {
      var f: nat :| Expands(m0[k], m0, f, m[k]);
      if !HasRef(m0[k]) {
        NoRefIsFixed(m0[k], m0, f);
      }
      ExpansionIsGround(m0[k], m0, f, m[k]);
      assert Ground(m[k], m);
      GroundIsFixed(m[k], m, fuel - 1);
    }
  }

  // ----- step 5 of build_context_map -----

  /** Entry `k` holds its complete expansion, unless it is Tier 1 text. */
  ghost predicate Done(m: Context, m0: Context, k: Key)
    requires k in m && k in m0
  {
    !HasTier1(m0[k]) ==> exists fuel: nat :: Expands(m0[k], m0, fuel, m[k])
  }

  ghost predicate AllDone(m: Context, m0: Context) {
    Partial(m, m0) && forall k :: k in m0 ==> Done(m, m0, k)
  }

  /** Every Tier 0 entry expands within the depth limit. */
  ghost predicate Shallow(m0: Context) {
    forall k :: k in m0 && !HasTier1(m0[k]) && HasRef(m0[k]) ==> SubCtx(m0[k], m0, MAX_DEPTH + 1).Ok?
  }

  lemma DoneIsFixed(m: Context, m0: Context, k: Key)
    requires Partial(m, m0) && k in m0 && Done(m, m0, k) && !HasTier1(m0[k])
    ensures SubCtx(m[k], m, MAX_DEPTH + 1) == Ok(m[k])
  {
    var f: nat :| Expands(m0[k], m0, f, m[k]);
    ExpansionIsGround(m0[k], m0, f, m[k]);
    assert Ground(m[k], m);
    GroundIsFixed(m[k], m, MAX_DEPTH + 1);
  }

  lemma ResolveFresh(m: Context, m0: Context, k: Key)
    requires Partial(m, m0) && k in m0 && m[k] == m0[k] && !HasTier1(m0[k])
    ensures var sub := SubCtx(m[k], m, MAX_DEPTH + 1);
            && (Shallow(m0) && HasRef(m[k]) ==> sub.Ok?)
            && (sub.Ok? ==> Partial(m[k := sub.value], m0) && Done(m[k := sub.value], m0, k))
            && (!HasRef(m[k]) ==> Done(m, m0, k))
  {
    var sub := SubCtx(m[k], m, MAX_DEPTH + 1);
    if Shallow(m0) && HasRef(m[k]) {
      PartialSucceeds(m[k], m, m0, MAX_DEPTH + 1);
    }
    if sub.Ok? {
      var total := PartialIsEnough(m[k], m, m0, MAX_DEPTH + 1, sub.value);
    }
    if !HasRef(m[k]) {
      NoRefIsFixed(m[k], m0, 1);
    }
  }

  /** What one pass over `keys` makes of `m`, value by value; the first failure ends it. */
  function PassOver(m: Context, keys: seq<Key>): Result<Context, ContextError> {
    if keys == [] then Ok(m) else
    var before := PassOver(m, keys[..|keys| - 1]);
    if before.Err? then before else
    var m', k := before.value, keys[|keys| - 1];
    if k !in m' || !HasRef(m'[k]) || HasTier1(m'[k]) then Ok(m') else
    var sub := SubCtx(m'[k], m', MAX_DEPTH + 1);
    if sub.Err? then Err(sub.error) else Ok(m'[k := sub.value])
  }

  lemma {:induction false} PassStops(m: Context, keys: seq<Key>, i: nat)
    requires i <= |keys| && PassOver(m, keys[..i]).Err?
    ensures PassOver(m, keys) == PassOver(m, keys[..i])
    decreases |keys|
  {
    hide SubCtx;
    if i == |keys| {
      assert keys[..i] == keys;
    } else {
      assert keys[..|keys| - 1][..i] == keys[..i];
      PassStops(m, keys[..|keys| - 1], i);
    }
  }

  lemma PassStep(m: Context, keys: seq<Key>, i: nat, m': Context)
    requires i < |keys| && PassOver(m, keys[..i]) == Ok(m') && keys[i] in m'
    ensures var v := m'[keys[i]];
            PassOver(m, keys[..i + 1]) ==
            if !HasRef(v) || HasTier1(v) then Ok(m')
            else if SubCtx(v, m', MAX_DEPTH + 1).Err? then Err(SubCtx(v, m', MAX_DEPTH + 1).error)
            else Ok(m'[keys[i] := SubCtx(v, m', MAX_DEPTH + 1).value])
  {
    hide SubCtx;
    assert keys[..i + 1][..i] == keys[..i];
  }

  /** One pass over the entries in dictionary order, replacing values while iterating. */
  method ResolvePass(ghost m0: Context, m1: Context, order: seq<Key>) returns (r: Result<(Context, bool), ContextError>)
    requires Partial(m1, m0) && (m1 == m0 || AllDone(m1, m0))
    requires Distinct(order) && Elems(order) == m0.Keys
    ensures r.Ok? ==> AllDone(r.value.0, m0) && (!r.value.1 ==> r.value.0 == m1)
    ensures r.Err? ==> !r.error.Unresolvable?
    ensures r.Err? && r.error.Undefined? ==> r.error.key !in m0 && r.error.key != "_watermark"
    ensures AllDone(m1, m0) ==> r == Ok((m1, false))
    ensures Shallow(m0) ==> r.Ok?
    ensures m1 == m0 && order != [] && TooDeep(m0, order[0]) ==> r.Err?
    ensures match PassOver(m1, order) case Ok(m) => r.Ok? && r.value.0 == m case Err(e) => r == Err(e)
  {
    hide SubCtx, PassOver, Expands, HasRef, HasTier1, Shallow;
    PassNone(m1);
    var m, changed := m1, false;
    for i := 0 to |order|
      invariant PassOver(m1, order[..i]) == Ok(m)
      invariant Partial(m, m0) && (!changed ==> m == m1)
      invariant forall j :: 0 <= j < i ==> Done(m, m0, order[j])
      invariant forall j :: i <= j < |order| ==> m[order[j]] == m1[order[j]]
      invariant AllDone(m1, m0) ==> m == m1 && !changed
      invariant i == 0 ==> m == m1
      invariant m1 == m0 && i > 0 ==> !TooDeep(m0, order[0])
    {
      var key := order[i];
      assert key in m0;
      PassStep(m1, order, i, m);
      var value := m[key];
      if HasRef(value) && !HasTier1(value) {
        if AllDone(m1, m0) {
          DoneIsFixed(m, m0, key);
        } else {
          ResolveFresh(m, m0, key);
        }
        var resolved := SubCtx(value, m, MAX_DEPTH + 1);
        if resolved.Err? {
          SubCtxErrors(value, m, MAX_DEPTH + 1);
          UndefinedMeans(value, m, MAX_DEPTH + 1);
          PassStops(m1, order, i + 1);
          return Err(resolved.error);
        }
        if resolved.value != value {
          m, changed := m[key := resolved.value], true;
        } else {
          assert m[key := resolved.value] == m;
        }
      } else if m1 == m0 && !HasTier1(value) {
        ResolveFresh(m, m0, key);
      }
    }
    assert forall k :: k in m0 ==> k in Elems(order);
    assert order[..|order|] == order;
    return Ok((m, changed));
  }

  lemma PassNone(m: Context)
    ensures forall keys: seq<Key> :: PassOver(m, keys[..0]) == Ok(m)
  {
  }

  /** The entry needs more than `MAX_DEPTH` nested references, or an undefined one. */
  ghost predicate TooDeep(m0: Context, k: Key) {
    k in m0 && !HasTier1(m0[k]) && HasRef(m0[k]) && SubCtx(m0[k], m0, MAX_DEPTH + 1).Err?
  }

  lemma {:induction false} SubCtxErrors(v: Text, m: Context, fuel: nat)
    requires SubCtx(v, m, fuel).Err?
    ensures !SubCtx(v, m, fuel).error.Unresolvable?
    decreases fuel, |v|
  {
    if fuel > 0 {
      if SubCtx(v[..|v| - 1], m, fuel).Err? {
        SubCtxErrors(v[..|v| - 1], m, fuel);
      } else if v[|v| - 1].key in m {
        SubCtxErrors(m[v[|v| - 1].key], m, fuel - 1);
      }
    }
  }

  /** What a resolved context holds: Tier 1 text verbatim, everything else completely expanded. */
  ghost predicate Resolved(m: Context, m0: Context) {
    && m.Keys == m0.Keys
    && forall k :: k in m0 ==>
         if HasTier1(m0[k]) then m[k] == m0[k] else Expandable(m0[k], m0) && m[k] == Full(m0[k], m0)
  }

  lemma AllDoneIsResolved(m: Context, m0: Context)
    requires AllDone(m, m0)
    ensures Resolved(m, m0)
  {
    forall k | k in m0 && !HasTier1(m0[k]) ensures Expandable(m0[k], m0) && m[k] == Full(m0[k], m0) {
      assert Done(m, m0, k);
      var f: nat :| Expands(m0[k], m0, f, m[k]);
      FullIs(m0[k], m0, f, m[k]);
    }
  }

  predicate Unresolved(m: Context) {
    exists k :: k in m && HasRef(m[k])
  }

  method BuildContextMap(m0: Context, order: seq<Key>) returns (r: Result<Context, ContextError>, passes: nat)
    requires Distinct(order) && Elems(order) == m0.Keys
    // the outcome is that of a single pass
    ensures match PassOver(m0, order) case Ok(m) => r == Ok(m) case Err(e) => r == Err(e)
    // in-place iteration computes recursive substitution, independently of the order
    ensures r.Ok? ==> Resolved(r.value, m0)
    // an entry with any text of the runtime tier in it is left alone
    ensures r.Ok? ==> forall k, i :: k in m0 && 0 <= i < |m0[k]| && m0[k][i].Tier1? ==> r.value[k] == m0[k]
    // it settles in two passes: the "possible cycle" error after the loop is unreachable
    ensures passes <= 2 && (r.Err? ==> !r.error.Unresolvable?)
    ensures r.Err? && r.error.Undefined? ==> r.error.key !in m0 && r.error.key != "_watermark"
    // success within the depth limit does not depend on the order either ...
    ensures Shallow(m0) ==> r.Ok?
    // ... but an entry beyond it fails when it comes first
    ensures order != [] && TooDeep(m0, order[0]) ==> r.Err?
  {
    hide SubCtx, PassOver;
    var m := m0;
    passes := 0;
    var settled := false;
    while passes < PASSES && !settled
      invariant passes == 0 ==> m == m0 && !settled
      invariant passes > 0 ==> AllDone(m, m0) && PassOver(m0, order) == Ok(m)
      invariant passes == 1 ==> !(order != [] && TooDeep(m0, order[0]))
      invariant passes > 0 && !settled ==> passes == 1
      invariant passes > 0 ==> passes <= 2 && !(order != [] && TooDeep(m0, order[0]))
    {
      var pass := ResolvePass(m0, m, order);
      passes := passes + 1;
      if pass.Err? {
        return Err(pass.error), passes;
      }
      m, settled := pass.value.0, !pass.value.1;
    }
    AllDoneIsResolved(m, m0);
    if !settled && Unresolved(m) {
      return Err(Unresolvable), passes;
    }
    return Ok(m), passes;
  }

  // ----- no cycles -----

  /** `p` is a chain of references: `v` mentions p[0], and each entry the next. */
  ghost predicate Chain(v: Text, m: Context, p: seq<Key>) {
    && (forall i :: 0 <= i < |p| ==> p[i] in m)
    && (p != [] ==> Ref(p[0]) in v)
    && forall i :: 0 <= i < |p| - 1 ==> Ref(p[i + 1]) in m[p[i]]
  }

  lemma {:induction false} MentionSucceeds(v: Text, m: Context, fuel: nat, k: Key)
    requires SubCtx(v, m, fuel).Ok? && Ref(k) in v && k in m && HasRef(m[k])
    ensures fuel > 0 && SubCtx(m[k], m, fuel - 1).Ok?
    decreases |v|
  {
    if v[|v| - 1] != Ref(k) {
      assert v == v[..|v| - 1] + [v[|v| - 1]];
      MentionSucceeds(v[..|v| - 1], m, fuel, k);
    } else {
      assert SubToken(v[|v| - 1], m, fuel).Ok?;
    }
  }

  /** A chain is no longer than the fuel the expansion takes ... */
  lemma {:induction false} ChainSucceeds(v: Text, m: Context, fuel: nat, p: seq<Key>, i: nat)
    requires SubCtx(v, m, fuel).Ok? && Chain(v, m, p) && i < |p| - 1
    ensures fuel > i + 1 && SubCtx(m[p[i]], m, fuel - i - 1).Ok?
    decreases i
  {
    assert Ref(p[i + 1]) in m[p[i]];
    if i == 0 {
      MentionSucceeds(v, m, fuel, p[0]);
    } else {
      ChainSucceeds(v, m, fuel, p, i - 1);
      MentionSucceeds(m[p[i - 1]], m, fuel - i, p[i]);
    }
  }

  /** ... so no key on it can lead back to itself. */
  lemma {:induction false} NoReachableCycle(v: Text, m: Context, fuel: nat, p: seq<Key>, i: nat, j: nat)
    requires SubCtx(v, m, fuel).Ok? && Chain(v, m, p) && i < j < |p|
    ensures p[i] != p[j]
    decreases fuel
  {
    ChainSucceeds(v, m, fuel, p, i);
    if p[i] == p[j] {
      var q := p[i + 1..j + 1];
      assert Chain(m[p[i]], m, q + p[i + 1..j + 1]);
      NoReachableCycle(m[p[i]], m, fuel - i - 1, q + p[i + 1..j + 1], |q| - 1, 2 * |q| - 1);
    }
  }
}
