/** Explain-snapshot retention (aqueduct/surveyor/surveyor.py): a pruned table that answers like
    the full history. */
module Snapshots {
  import opened Common

  datatype Plan = Plan(exchanges: int, pythonUdfs: int, broadcasts: int, text: string)

  /** One row of `explain_snapshot`; (blueprint, run, mod) is the primary key. */
  datatype Row = Row(blueprint: string, run: string, mod: string, capturedAt: nat, plan: Plan)

  type Table = seq<Row>

  predicate SameKey(a: Row, b: Row) {
    a.blueprint == b.blueprint && a.run == b.run && a.mod == b.mod
  }

  predicate SamePair(a: Row, blueprint: string, mod: string) {
    a.blueprint == blueprint && a.mod == mod
  }

  // ----- the queries -----

  /** The rows that satisfy a condition, in order. */
  function Where(t: Table, p: Row -> bool): (r: Table)
    ensures forall x :: x in r <==> x in t && p(x)
  {
    if t == [] then [] else
    var init, last := Where(t[..|t| - 1], p), t[|t| - 1];
    assert t == t[..|t| - 1] + [last];
    if p(last) then init + [last] else init
  }

  function OfPair(blueprint: string, mod: string): Row -> bool {
    (x: Row) => SamePair(x, blueprint, mod)
  }

  function OfBlueprint(blueprint: string): Row -> bool {
    (x: Row) => x.blueprint == blueprint
  }

  function OfModule(mod: string): Row -> bool {
    (x: Row) => x.mod == mod
  }

  function OtherThan(x: Row): Row -> bool {
    (y: Row) => !SameKey(y, x)
  }

  function Select(t: Table, blueprint: string, mod: string): Table {
    Where(t, OfPair(blueprint, mod))
  }

  /** The table without the row of this primary key. */
  function Delete(t: Table, x: Row): Table {
    Where(t, OtherThan(x))
  }

  function Insert(x: Row, t: Table): (r: Table)
    ensures forall y :: y in r <==> y == x || y in t
  {
    if t == [] || x.capturedAt >= t[0].capturedAt then [x] + t else
    assert t == [t[0]] + t[1..];
    [t[0]] + Insert(x, t[1..])
  }

  /** The rows newest first, a later one before an earlier one of the same time. */
  function Sort(t: Table): (r: Table)
    ensures forall y :: y in r <==> y in t
  {
    if t == [] then [] else
    assert t == t[..|t| - 1] + [t[|t| - 1]];
    Insert(t[|t| - 1], Sort(t[..|t| - 1]))
  }

  /** The rows from position `k` on, where a negative `k` counts from the end. */
  function SliceFrom(rows: Table, k: int): Table {
    if k >= |rows| then []
    else if k >= 0 then rows[k..]
    else if |rows| + k >= 0 then rows[|rows| + k..]
    else rows
  }

  function DeleteAll(t: Table, stale: Table): Table {
    if stale == [] then t else Delete(DeleteAll(t, stale[..|stale| - 1]), stale[|stale| - 1])
  }

  // ----- one recording -----

  function Upsert(t: Table, x: Row): Table {
    Delete(t, x) + [x]
  }

  function Stale(t: Table, x: Row, keep: int): Table {
    var rows := Sort(Select(t, x.blueprint, x.mod));
    if |rows| > keep then SliceFrom(rows, keep) else []
  }

  /** A recording without a blueprint id is dropped. */
  function Recorded(t: Table, x: Row, keep: int): Table {
    if x.blueprint == "" then t else DeleteAll(Upsert(t, x), Stale(Upsert(t, x), x, keep))
  }

  class ObservabilityStore {
    var table: Table

    constructor ()
      ensures table == []
    {
      table := [];
    }

    /** `captured_at` is in `x`. */
    method RecordExplainSnapshot(x: Row, keep: int)
      modifies this
      ensures table == Recorded(old(table), x, keep)
    {
      hide Sort, Where, Upsert;
      if x.blueprint == "" {
        return;
      }
      table := Upsert(table, x);
      ghost var upserted := table;
      var rows := Sort(Select(table, x.blueprint, x.mod));
      if |rows| > keep {
        var stale := SliceFrom(rows, keep);
        for i := 0 to |stale|
          invariant table == DeleteAll(upserted, stale[..i])
        {
          assert stale[..i + 1][..i] == stale[..i];
          table := Delete(table, stale[i]);
        }
        assert stale[..|stale|] == stale;
      }
    }

    /** The dictionary does not show how the query grouped the modules, only that each module's
        rows came newest first. */
    method LatestExplainSnapshots(blueprint: string) returns (out: map<string, Row>)
      requires Ascending(table)
      ensures forall mod :: mod in out <==> blueprint != "" && Newest(table, blueprint, mod) != []
      ensures forall mod :: mod in out ==> out[mod] == Newest(table, blueprint, mod)[0]
    {
      hide Where, Sort, Ascending;
      out := map[];
      if blueprint == "" {
        return;
      }
      WhereNone();
      var rows := Sort(Where(table, OfBlueprint(blueprint)));
      var seen: set<string> := {};
      for i := 0 to |rows|
        invariant seen == out.Keys
        invariant forall mod :: mod in out <==> Where(rows[..i], OfModule(mod)) != []
        invariant forall mod :: mod in out ==> out[mod] == Where(rows[..i], OfModule(mod))[0]
      {
        var mid := rows[i].mod;
        forall mod {
          WhereSnoc(rows, i, OfModule(mod));
        }
        if mid !in seen {
          seen, out := seen + {mid}, out[mid := rows[i]];
        }
      }
      assert rows[..|rows|] == rows;
      forall mod {
        ModuleRowsAreNewest(table, blueprint, mod);
      }
    }
  }

  lemma WhereNone()
    ensures forall p: Row -> bool :: Where([], p) == []
  {
  }

  lemma WhereSnoc(rows: Table, i: nat, p: Row -> bool)
    requires i < |rows|
    ensures Where(rows[..i + 1], p) == Where(rows[..i], p) + if p(rows[i]) then [rows[i]] else []
  {
    assert rows[..i + 1][..i] == rows[..i];
  }

  lemma {:induction false} WhereCons(x: Row, t: Table, p: Row -> bool)
    ensures Where([x] + t, p) == (if p(x) then [x] else []) + Where(t, p)
  {
    if t != [] {
      WhereCons(x, t[..|t| - 1], p);
      assert ([x] + t)[..|t|] == [x] + t[..|t| - 1];
    }
  }

  lemma {:induction false} WhereReverse(t: Table, p: Row -> bool)
    ensures Where(Reverse(t), p) == Reverse(Where(t, p))
  {
    if t != [] {
      var init, last := t[..|t| - 1], t[|t| - 1];
      WhereReverse(init, p);
      WhereCons(last, Reverse(init), p);
      assert (Where(init, p) + [last])[..|Where(init, p)|] == Where(init, p);
    }
  }

  lemma {:induction false} WhereTwice(t: Table, blueprint: string, mod: string)
    ensures Where(Where(t, OfBlueprint(blueprint)), OfModule(mod)) == Select(t, blueprint, mod)
  {
    if t != [] {
      WhereTwice(t[..|t| - 1], blueprint, mod);
      var rows := Where(t[..|t| - 1], OfBlueprint(blueprint));
      assert (rows + [t[|t| - 1]])[..|rows|] == rows;
    }
  }

  lemma ModuleRowsAreNewest(t: Table, blueprint: string, mod: string)
    requires Ascending(t)
    ensures Where(Sort(Where(t, OfBlueprint(blueprint))), OfModule(mod)) == Newest(t, blueprint, mod)
  {
    WhereAscending(t, OfBlueprint(blueprint));
    SortReverses(Where(t, OfBlueprint(blueprint)));
    WhereReverse(Where(t, OfBlueprint(blueprint)), OfModule(mod));
    WhereTwice(t, blueprint, mod);
    ReverseWhere(t, blueprint, mod);
  }

  // ----- reading the table newest first -----

  /** Rows are appended as time passes. */
  ghost predicate Ascending(t: Table) {
    forall i, j :: 0 <= i < j < |t| ==> t[i].capturedAt < t[j].capturedAt
  }

  /** The rows of one (blueprint, module), most recently recorded first. */
  function Newest(t: Table, blueprint: string, mod: string): Table {
    if t == [] then [] else
    var rest := Newest(t[..|t| - 1], blueprint, mod);
    if SamePair(t[|t| - 1], blueprint, mod) then [t[|t| - 1]] + rest else rest
  }

  function Reverse(t: Table): Table {
    if t == [] then [] else [t[|t| - 1]] + Reverse(t[..|t| - 1])
  }

  lemma {:induction false} WhereAscending(t: Table, p: Row -> bool)
    requires Ascending(t)
    ensures Ascending(Where(t, p))
  {
    if t != [] {
      WhereAscending(t[..|t| - 1], p);
      var kept := Where(t[..|t| - 1], p);
      forall k | 0 <= k < |kept| ensures kept[k].capturedAt < t[|t| - 1].capturedAt {
        assert kept[k] in kept;
      }
    }
  }

  lemma {:induction false} SortReverses(t: Table)
    requires Ascending(t)
    ensures Sort(t) == Reverse(t)
  {
    if t != [] {
      var init, last := t[..|t| - 1], t[|t| - 1];
      SortReverses(init);
      if Sort(init) != [] {
        assert Sort(init)[0] in init;
      }
    }
  }

  lemma {:induction false} ReverseWhere(t: Table, blueprint: string, mod: string)
    ensures Reverse(Select(t, blueprint, mod)) == Newest(t, blueprint, mod)
  {
    if t != [] {
      ReverseWhere(t[..|t| - 1], blueprint, mod);
      var init := Select(t[..|t| - 1], blueprint, mod);
      assert (init + [t[|t| - 1]])[..|init|] == init;
    }
  }

  lemma SelectIsNewest(t: Table, blueprint: string, mod: string)
    requires Ascending(t)
    ensures Sort(Select(t, blueprint, mod)) == Newest(t, blueprint, mod)
  {
    WhereAscending(t, OfPair(blueprint, mod));
    SortReverses(Select(t, blueprint, mod));
    ReverseWhere(t, blueprint, mod);
  }

  // ----- one recording, seen through `Newest` -----

  /** `rows` without the rows of one run. */
  function DropRun(rows: Table, run: string): (r: Table)
    ensures |r| <= |rows|
  {
    if rows == [] then []
    else if rows[0].run == run then DropRun(rows[1..], run)
    else [rows[0]] + DropRun(rows[1..], run)
  }

  function Take(rows: Table, n: nat): Table {
    if n <= |rows| then rows[..n] else rows
  }

  ghost predicate DistinctRuns(rows: Table) {
    forall i, j :: 0 <= i < j < |rows| ==> rows[i].run != rows[j].run
  }

  lemma {:induction false} NewestAfterDelete(t: Table, x: Row, blueprint: string, mod: string)
    ensures Newest(Delete(t, x), blueprint, mod) ==
            if SamePair(x, blueprint, mod) then DropRun(Newest(t, blueprint, mod), x.run) else Newest(t, blueprint, mod)
  {
    if t != [] {
      var init, last := t[..|t| - 1], t[|t| - 1];
      NewestAfterDelete(init, x, blueprint, mod);
      var kept := Delete(init, x);
      assert (kept + [last])[..|kept|] == kept;
    }
  }

  lemma NewestAfterUpsert(t: Table, x: Row, blueprint: string, mod: string)
    ensures Newest(Upsert(t, x), blueprint, mod) ==
            if SamePair(x, blueprint, mod) then [x] + DropRun(Newest(t, blueprint, mod), x.run)
            else Newest(t, blueprint, mod)
  {
    NewestAfterDelete(t, x, blueprint, mod);
    assert Upsert(t, x)[..|Delete(t, x)|] == Delete(t, x);
  }

  lemma {:induction false} NewestAfterDeletes(t: Table, stale: Table, blueprint: string, mod: string)
    requires forall x :: x in stale ==> SamePair(x, blueprint, mod)
    ensures Newest(DeleteAll(t, stale), blueprint, mod) == DropRuns(Newest(t, blueprint, mod), stale)
    ensures forall b, m :: (b, m) != (blueprint, mod) ==> Newest(DeleteAll(t, stale), b, m) == Newest(t, b, m)
  {
    if stale != [] {
      var init, last := stale[..|stale| - 1], stale[|stale| - 1];
      assert last in stale && forall x :: x in init ==> x in stale;
      NewestAfterDeletes(t, init, blueprint, mod);
      NewestAfterDelete(DeleteAll(t, init), last, blueprint, mod);
      forall b, m | (b, m) != (blueprint, mod) ensures Newest(DeleteAll(t, stale), b, m) == Newest(t, b, m) {
        NewestAfterDelete(DeleteAll(t, init), last, b, m);
      }
    }
  }

  function DropRuns(rows: Table, stale: Table): Table {
    if stale == [] then rows else DropRun(DropRuns(rows, stale[..|stale| - 1]), stale[|stale| - 1].run)
  }

  lemma {:induction false} DropRunOutside(rows: Table, run: string)
    requires forall i :: 0 <= i < |rows| ==> rows[i].run != run
    ensures DropRun(rows, run) == rows
  {
    if rows != [] {
      DropRunOutside(rows[1..], run);
    }
  }

  lemma {:induction false} DropRunAt(rows: Table, k: nat)
    requires DistinctRuns(rows) && k < |rows|
    ensures DropRun(rows, rows[k].run) == rows[..k] + rows[k + 1..]
  {
    if k == 0 {
      DropRunOutside(rows[1..], rows[0].run);
    } else {
      DropRunAt(rows[1..], k - 1);
      assert rows[1..][k - 1] == rows[k];
      assert rows[..k] == [rows[0]] + rows[1..][..k - 1] && rows[k + 1..] == rows[1..][k..];
    }
  }

  lemma StillDistinct(rows: Table, k: nat, n: nat)
    requires DistinctRuns(rows) && k <= n <= |rows|
    ensures DistinctRuns(rows[..k] + rows[n..])
  {
  }

  /** Deleting the suffix from `k` on leaves the prefix. */
  lemma {:induction false} DropSuffix(rows: Table, k: nat, n: nat)
    requires DistinctRuns(rows) && k + n <= |rows|
    ensures DropRuns(rows, rows[k..k + n]) == rows[..k] + rows[k + n..]
    decreases n
  {
    hide DistinctRuns, DropRun;
    if n > 0 {
      var stale := rows[k..k + n];
      assert stale[..n - 1] == rows[k..k + n - 1] && stale[n - 1] == rows[k + n - 1];
      DropSuffix(rows, k, n - 1);
      var left := rows[..k] + rows[k + n - 1..];
      assert left[k] == rows[k + n - 1];
      StillDistinct(rows, k, k + n - 1);
      DropRunAt(left, k);
      assert left[..k] == rows[..k] && left[k + 1..] == rows[k + n..];
    }
  }

  /** How many of `n` rows survive pruning: all of the newest `keep`, and none if `keep` is not positive
      and only one row was there. */
  function Survivors(n: nat, keep: int): nat {
    if n <= keep then n else if keep >= 0 then keep else if n + keep >= 0 then n + keep else 0
  }

  lemma NewestAfterRecording(t: Table, x: Row, keep: int, blueprint: string, mod: string)
    requires Ascending(Upsert(t, x)) && DistinctRuns([x] + DropRun(Newest(t, x.blueprint, x.mod), x.run))
    ensures var touched := [x] + DropRun(Newest(t, x.blueprint, x.mod), x.run);
            Newest(Recorded(t, x, keep), blueprint, mod) ==
            if x.blueprint != "" && SamePair(x, blueprint, mod) then Take(touched, Survivors(|touched|, keep))
            else Newest(t, blueprint, mod)
  {
    hide Newest, DropRun, DropRuns, DeleteAll, Where, Upsert, Sort;
    if x.blueprint == "" {
      return;
    }
    var up := Upsert(t, x);
    var rows := [x] + DropRun(Newest(t, x.blueprint, x.mod), x.run);
    NewestAfterUpsert(t, x, x.blueprint, x.mod);
    NewestAfterUpsert(t, x, blueprint, mod);
    SelectIsNewest(up, x.blueprint, x.mod);
    NewestIs(up, x.blueprint, x.mod);
    var stale := Stale(up, x, keep);
    var k := Survivors(|rows|, keep);
    assert stale == rows[k..] && rows[k..] == rows[k..k + (|rows| - k)];
    NewestAfterDeletes(up, stale, x.blueprint, x.mod);
    DropSuffix(rows, k, |rows| - k);
    assert rows[..k] + rows[|rows|..] == rows[..k];
  }

  lemma {:induction false} NewestIs(t: Table, blueprint: string, mod: string)
    ensures forall x :: x in Newest(t, blueprint, mod) <==> x in t && SamePair(x, blueprint, mod)
  {
    if t != [] {
      NewestIs(t[..|t| - 1], blueprint, mod);
      assert t == t[..|t| - 1] + [t[|t| - 1]];
    }
  }

  // ----- all recordings -----

  /** The table after a history of recordings. */
  ghost function Replay(history: Table, keep: int): Table {
    if history == [] then [] else
    Recorded(Replay(history[..|history| - 1], keep), history[|history| - 1], keep)
  }

  /** The never-pruned answer: one row per run, the most recently recorded run first. */
  ghost function Recent(history: Table, blueprint: string, mod: string): Table {
    if history == [] || blueprint == "" then [] else
    var rest, x := Recent(history[..|history| - 1], blueprint, mod), history[|history| - 1];
    if SamePair(x, blueprint, mod) then [x] + DropRun(rest, x.run) else rest
  }

  lemma {:induction false} DropRunKeeps(rows: Table, run: string)
    requires DistinctRuns(rows)
    ensures DistinctRuns(DropRun(rows, run))
    ensures forall x :: x in DropRun(rows, run) <==> x in rows && x.run != run
  {
    if rows != [] {
      assert rows == [rows[0]] + rows[1..];
      assert forall i :: 0 <= i < |rows[1..]| ==> rows[1..][i] == rows[i + 1];
      DropRunKeeps(rows[1..], run);
      forall i | 0 <= i < |DropRun(rows[1..], run)| ensures DropRun(rows[1..], run)[i].run != rows[0].run {
        assert DropRun(rows[1..], run)[i] in rows[1..];
      }
    }
  }

  lemma TouchDistinct(rows: Table, x: Row)
    requires DistinctRuns(rows)
    ensures DistinctRuns([x] + DropRun(rows, x.run))
  {
    DropRunKeeps(rows, x.run);
    forall i | 0 <= i < |DropRun(rows, x.run)| ensures DropRun(rows, x.run)[i].run != x.run {
      assert DropRun(rows, x.run)[i] in DropRun(rows, x.run);
    }
  }

  lemma {:induction false} RecentDistinct(history: Table, blueprint: string, mod: string)
    ensures DistinctRuns(Recent(history, blueprint, mod))
  {
    if history != [] && blueprint != "" {
      RecentDistinct(history[..|history| - 1], blueprint, mod);
      TouchDistinct(Recent(history[..|history| - 1], blueprint, mod), history[|history| - 1]);
    }
  }

  /** Pruning before or after a run is touched makes no difference to the newest `n`. */
  lemma {:induction false} DropThenTake(rows: Table, run: string, n: nat)
    requires DistinctRuns(rows)
    ensures Take(DropRun(Take(rows, n + 1), run), n) == Take(DropRun(rows, run), n)
  {
    if n + 1 < |rows| {
      var tail := rows[1..];
      assert forall i :: 0 <= i < |tail| ==> tail[i] == rows[i + 1];
      assert Take(rows, n + 1) == [rows[0]] + Take(tail, n);
      assert Take(rows, n + 1)[1..] == Take(tail, n);
      if rows[0].run == run {
        DropRunOutside(tail, run);
        DropRunOutside(Take(tail, n), run);
        assert DropRun(Take(rows, n + 1), run) == Take(tail, n) && DropRun(rows, run) == tail;
      } else if n > 0 {
        DropThenTake(tail, run, n - 1);
        assert DropRun(Take(rows, n + 1), run) == [rows[0]] + DropRun(Take(tail, n), run);
        TakeCons(rows[0], DropRun(Take(tail, n), run), n);
        TakeCons(rows[0], DropRun(tail, run), n);
      }
    } else {
      assert Take(rows, n + 1) == rows;
    }
  }

  lemma TakeCons(x: Row, rows: Table, n: nat)
    requires n > 0
    ensures Take([x] + rows, n) == [x] + Take(rows, n - 1)
  {
  }

  lemma TouchThenTake(rows: Table, x: Row, n: nat)
    requires DistinctRuns(rows) && n > 0
    ensures Take([x] + DropRun(Take(rows, n), x.run), n) == Take([x] + DropRun(rows, x.run), n)
  {
    hide DropRun;
    DropThenTake(rows, x.run, n - 1);
    TakeCons(x, DropRun(Take(rows, n), x.run), n);
    TakeCons(x, DropRun(rows, x.run), n);
  }

  // ----- the table stays in time order -----

  lemma {:induction false} DeleteAllWithin(t: Table, stale: Table)
    requires Ascending(t)
    ensures Ascending(DeleteAll(t, stale)) && forall x :: x in DeleteAll(t, stale) ==> x in t
  {
    if stale != [] {
      DeleteAllWithin(t, stale[..|stale| - 1]);
      WhereAscending(DeleteAll(t, stale[..|stale| - 1]), OtherThan(stale[|stale| - 1]));
    }
  }

  lemma UpsertAscending(t: Table, x: Row)
    requires Ascending(t) && forall y :: y in t ==> y.capturedAt < x.capturedAt
    ensures Ascending(Upsert(t, x)) && forall y :: y in Upsert(t, x) ==> y == x || y in t
  {
    WhereAscending(t, OtherThan(x));
    var kept := Delete(t, x);
    assert forall i :: 0 <= i < |kept| ==> kept[i] in kept;
  }

  lemma {:induction false} ReplayAscending(history: Table, keep: int)
    requires Ascending(history)
    ensures Ascending(Replay(history, keep)) && forall x :: x in Replay(history, keep) ==> x in history
    ensures history != [] ==>
              Ascending(Upsert(Replay(history[..|history| - 1], keep), history[|history| - 1]))
  {
    hide Upsert, DeleteAll, Stale;
    if history != [] {
      var init, x := history[..|history| - 1], history[|history| - 1];
      ReplayAscending(init, keep);
      assert history == init + [x];
      assert forall y :: y in init ==> y.capturedAt < x.capturedAt;
      var t := Replay(init, keep);
      UpsertAscending(t, x);
      DeleteAllWithin(Upsert(t, x), Stale(Upsert(t, x), x, keep));
    }
  }

  // ----- the theorems -----

  /** After any history with increasing timestamps, the rows of a (blueprint, module) are exactly
      its `keep` most recently recorded runs. */
  lemma {:induction false} RetentionIsLru(history: Table, keep: int, blueprint: string, mod: string)
    requires Ascending(history) && keep >= 1
    ensures Newest(Replay(history, keep), blueprint, mod) == Take(Recent(history, blueprint, mod), keep)
  {
    hide DropRun, Recorded, Upsert, Where;
    if history != [] {
      var init, x := history[..|history| - 1], history[|history| - 1];
      ReplayAscending(history, keep);
      assert Ascending(init);
      RetentionIsLru(init, keep, blueprint, mod);
      RetentionIsLru(init, keep, x.blueprint, x.mod);
      var recent := Recent(init, x.blueprint, x.mod);
      RecentDistinct(init, x.blueprint, x.mod);
      TouchDistinct(Take(recent, keep), x);
      NewestAfterRecording(Replay(init, keep), x, keep, blueprint, mod);
      TouchThenTake(recent, x, keep);
    }
  }

  /** With a bound that is not positive the recording deletes even the row it has just written. */
  lemma {:induction false} NoRetention(history: Table, keep: int, blueprint: string, mod: string)
    requires Ascending(history) && keep <= 0
    ensures Newest(Replay(history, keep), blueprint, mod) == []
  {
    hide Recorded, Upsert, Where;
    if history != [] {
      var init, x := history[..|history| - 1], history[|history| - 1];
      ReplayAscending(history, keep);
      assert Ascending(init);
      NoRetention(init, keep, blueprint, mod);
      NoRetention(init, keep, x.blueprint, x.mod);
      NewestAfterRecording(Replay(init, keep), x, keep, blueprint, mod);
    }
  }

  /** The baseline the pruned table offers for a module. */
  ghost function Baseline(rows: Table): Option<Row> {
    if rows == [] then None else Some(rows[0])
  }

  /** It is the never-pruned one exactly when the bound is positive (or nothing was recorded). */
  lemma BaselineSurvivesPruning(history: Table, keep: int, blueprint: string, mod: string)
    requires Ascending(history)
    ensures Baseline(Newest(Replay(history, keep), blueprint, mod)) == Baseline(Recent(history, blueprint, mod))
            <==> keep >= 1 || Recent(history, blueprint, mod) == []
  {
    if keep >= 1 {
      RetentionIsLru(history, keep, blueprint, mod);
    } else {
      NoRetention(history, keep, blueprint, mod);
    }
  }

  ghost predicate Descending(t: Table) {
    forall i, j :: 0 <= i < j < |t| ==> t[i].capturedAt > t[j].capturedAt
  }

  lemma {:induction false} DropRunDescends(rows: Table, run: string)
    requires Descending(rows)
    ensures Descending(DropRun(rows, run)) && forall x :: x in DropRun(rows, run) ==> x in rows
  {
    if rows != [] {
      assert rows == [rows[0]] + rows[1..];
      assert forall i :: 0 <= i < |rows[1..]| ==> rows[1..][i] == rows[i + 1];
      DropRunDescends(rows[1..], run);
      forall i | 0 <= i < |DropRun(rows[1..], run)| ensures DropRun(rows[1..], run)[i].capturedAt < rows[0].capturedAt {
        assert DropRun(rows[1..], run)[i] in rows[1..];
      }
    }
  }

  /** The never-pruned list is newest first, whenever time goes on from one recording to the next. */
  lemma {:induction false} RecentDescends(history: Table, blueprint: string, mod: string)
    requires Ascending(history)
    ensures Descending(Recent(history, blueprint, mod))
    ensures forall x :: x in Recent(history, blueprint, mod) ==> x in history
  {
    if history != [] && blueprint != "" {
      var init, last := history[..|history| - 1], history[|history| - 1];
      assert history == init + [last];
      RecentDescends(init, blueprint, mod);
      var rest := DropRun(Recent(init, blueprint, mod), last.run);
      DropRunDescends(Recent(init, blueprint, mod), last.run);
      forall i | 0 <= i < |rest| ensures rest[i].capturedAt < last.capturedAt {
        assert rest[i] in init;
      }
    }
  }

  /** `x` is a recording of the pair, and the last one of its run. */
  ghost predicate LastOfRun(history: Table, blueprint: string, mod: string, x: Row) {
    && x in history && SamePair(x, blueprint, mod)
    && forall y :: y in history && SamePair(y, blueprint, mod) && y.run == x.run ==> y.capturedAt <= x.capturedAt
  }

  /** Every row is a recording of the pair, and every run ever recorded for it is represented. */
  lemma {:induction false} EveryRunListed(history: Table, blueprint: string, mod: string, x: Row)
    requires blueprint != ""
    ensures x in Recent(history, blueprint, mod) ==> x in history && SamePair(x, blueprint, mod)
    ensures x in history && SamePair(x, blueprint, mod) ==>
              exists k :: 0 <= k < |Recent(history, blueprint, mod)| && Recent(history, blueprint, mod)[k].run == x.run
  {
    if history != [] {
      var init, last := history[..|history| - 1], history[|history| - 1];
      assert history == init + [last];
      var rest, recent := Recent(init, blueprint, mod), Recent(history, blueprint, mod);
      EveryRunListed(init, blueprint, mod, x);
      RecentDistinct(init, blueprint, mod);
      DropRunKeeps(rest, last.run);
      if x in history && SamePair(x, blueprint, mod) {
        if SamePair(last, blueprint, mod) && x.run == last.run {
          assert recent[0].run == x.run;
        } else {
          var k :| 0 <= k < |rest| && rest[k].run == x.run;
          assert rest[k] in recent;
        }
      }
    }
  }

  lemma LastOfRunSnoc(init: Table, last: Row, blueprint: string, mod: string, x: Row)
    requires forall y :: y in init ==> y.capturedAt < last.capturedAt
    ensures LastOfRun(init + [last], blueprint, mod, x) <==>
            if SamePair(last, blueprint, mod)
            then x == last || (LastOfRun(init, blueprint, mod, x) && x.run != last.run)
            else LastOfRun(init, blueprint, mod, x)
  {
    var all := init + [last];
    assert forall y :: y in all <==> y in init || y == last;
    assert last in all;
  }

  /** It holds the last recording of each run of the pair and nothing else, newest first. */
  lemma {:induction false} RecentCovers(history: Table, blueprint: string, mod: string, x: Row)
    requires Ascending(history) && blueprint != ""
    ensures x in Recent(history, blueprint, mod) <==> LastOfRun(history, blueprint, mod, x)
    ensures Descending(Recent(history, blueprint, mod)) && DistinctRuns(Recent(history, blueprint, mod))
  {
    hide LastOfRun;
    RecentDescends(history, blueprint, mod);
    RecentDistinct(history, blueprint, mod);
    if history == [] {
      NothingIsLast(blueprint, mod, x);
    } else {
      var init, last := history[..|history| - 1], history[|history| - 1];
      assert history == init + [last];
      RecentCovers(init, blueprint, mod, x);
      LastOfRunSnoc(init, last, blueprint, mod, x);
      DropRunKeeps(Recent(init, blueprint, mod), last.run);
    }
  }

  lemma NothingIsLast(blueprint: string, mod: string, x: Row)
    ensures !LastOfRun([], blueprint, mod, x)
  {
  }

  // ----- the store itself -----

  /** Recording a whole history into a new store and asking it: with a positive bound every module gets the last
      recording of its last run, without one nothing is left to offer. */
  method RecordAndQuery(history: Table, keep: int, blueprint: string) returns (out: map<string, Row>)
    requires Ascending(history)
    ensures keep >= 1 ==> forall mod :: mod in out <==> Recent(history, blueprint, mod) != []
    ensures keep >= 1 ==> forall mod :: mod in out ==> out[mod] == Recent(history, blueprint, mod)[0]
    ensures keep <= 0 ==> out == map[]
  {
    hide Recorded, Newest, Recent;
    var store := new ObservabilityStore();
    for i := 0 to |history|
      invariant fresh(store) && store.table == Replay(history[..i], keep)
    {
      assert history[..i + 1][..i] == history[..i];
      store.RecordExplainSnapshot(history[i], keep);
    }
    assert history[..|history|] == history;
    ReplayAscending(history, keep);
    out := store.LatestExplainSnapshots(blueprint);
    forall mod
      ensures keep >= 1 ==> Newest(store.table, blueprint, mod) == Take(Recent(history, blueprint, mod), keep)
      ensures keep <= 0 ==> Newest(store.table, blueprint, mod) == []
    {
      if keep >= 1 {
        RetentionIsLru(history, keep, blueprint, mod);
      } else {
        NoRetention(history, keep, blueprint, mod);
      }
    }
    NothingRecent(history);
  }

  lemma NothingRecent(history: Table)
    ensures forall mod :: Recent(history, "", mod) == []
  {
  }
}
