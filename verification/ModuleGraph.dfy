/** Cycle detection and topological ordering (aqueduct/parser/graph.py). */
module ModuleGraph {
  import opened Common
  import opened Digraph
  import opened Ast

  datatype GraphError =
    | UnknownModule(id: Id)
    | CycleDetected(involved: seq<Id>)

  type Pairs = seq<(Id, Id)>

  function PairSet(pairs: Pairs): Arcs {
    set e | e in pairs
  }

  function EdgePairs(edges: seq<Edge>): Pairs {
    seq(|edges|, i requires 0 <= i < |edges| => (edges[i].from, edges[i].to))
  }

  function DependencyPairs(modules: seq<Module>): Pairs {
    if modules == [] then [] else
    var m := modules[0];
    seq(|m.dependsOn|, i requires 0 <= i < |m.dependsOn| => (m.dependsOn[i], m.id)) + DependencyPairs(modules[1..])
  }

  /** The pairs in the order in which `_build_adjacency` adds them, parallel ones included. */
  function GraphPairs(modules: seq<Module>, edges: seq<Edge>): Pairs {
    EdgePairs(edges) + DependencyPairs(modules)
  }

  lemma {:induction false} DependencyPairsAreArcs(modules: seq<Module>)
    ensures PairSet(DependencyPairs(modules)) == DependencyArcs(modules)
  {
    if modules != [] {
      var m := modules[0];
      var first := seq(|m.dependsOn|, i requires 0 <= i < |m.dependsOn| => (m.dependsOn[i], m.id));
      DependencyPairsAreArcs(modules[1..]);
      assert forall d :: d in m.dependsOn ==> exists i :: 0 <= i < |first| && first[i] == (d, m.id) by {
        forall d | d in m.dependsOn ensures exists i :: 0 <= i < |first| && first[i] == (d, m.id) {
          var i :| 0 <= i < |m.dependsOn| && m.dependsOn[i] == d;
          assert first[i] == (d, m.id);
        }
      }
      assert modules == [m] + modules[1..];
      forall e ensures e in PairSet(DependencyPairs(modules)) <==> e in DependencyArcs(modules) {
        assert e in PairSet(DependencyPairs(modules)) <==> e in first || e in PairSet(DependencyPairs(modules[1..]));
      }
    }
  }

  lemma GraphPairsAreArcs(modules: seq<Module>, edges: seq<Edge>)
    ensures PairSet(GraphPairs(modules, edges)) == AllArcs(modules, edges)
  {
    DependencyPairsAreArcs(modules);
    forall e | e in edges ensures (e.from, e.to) in EdgePairs(edges) {
      var i :| 0 <= i < |edges| && edges[i] == e;
      assert EdgePairs(edges)[i] == (e.from, e.to);
    }
    assert PairSet(EdgePairs(edges)) == EdgeArcs(edges);
    assert PairSet(GraphPairs(modules, edges)) == PairSet(EdgePairs(edges)) + PairSet(DependencyPairs(modules));
  }

  // ----- counting, because parallel edges raise an in-degree more than once -----

  function Successors(pairs: Pairs, u: Id): seq<Id> {
    if pairs == [] then [] else
    var init := Successors(pairs[..|pairs| - 1], u);
    var last := pairs[|pairs| - 1];
    if last.0 == u then init + [last.1] else init
  }

  function Count(s: seq<Id>, v: Id): nat {
    if s == [] then 0 else Count(s[..|s| - 1], v) + (if s[|s| - 1] == v then 1 else 0)
  }

  /** Incoming pairs of `v` whose source is not yet done. */
  ghost function Pending(pairs: Pairs, done: set<Id>, v: Id): nat {
    if pairs == [] then 0 else
    var last := pairs[|pairs| - 1];
    Pending(pairs[..|pairs| - 1], done, v) + (if last.1 == v && last.0 !in done then 1 else 0)
  }

  lemma {:induction false} PendingDone(pairs: Pairs, done: set<Id>, u: Id, v: Id)
    requires u !in done
    ensures Pending(pairs, done, v) == Pending(pairs, done + {u}, v) + Count(Successors(pairs, u), v)
  {
    if pairs != [] {
      PendingDone(pairs[..|pairs| - 1], done, u, v);
      var s := Successors(pairs, u);
      if pairs[|pairs| - 1].0 == u {
        assert s[..|s| - 1] == Successors(pairs[..|pairs| - 1], u);
      }
    }
  }

  lemma {:induction false} PendingZero(pairs: Pairs, done: set<Id>, v: Id)
    ensures Pending(pairs, done, v) == 0 <==> forall u :: (u, v) in pairs ==> u in done
  {
    if pairs != [] {
      var init, last := pairs[..|pairs| - 1], pairs[|pairs| - 1];
      PendingZero(init, done, v);
      assert pairs == init + [last];
    }
  }

  lemma {:induction false} SuccessorsIn(pairs: Pairs, u: Id)
    ensures forall v :: v in Successors(pairs, u) <==> (u, v) in pairs
  {
    if pairs != [] {
      var init, last := pairs[..|pairs| - 1], pairs[|pairs| - 1];
      SuccessorsIn(init, u);
      assert pairs == init + [last];
    }
  }

  lemma {:induction false} CountPositive(s: seq<Id>, i: nat)
    requires i < |s|
    ensures Count(s[..i + 1], s[i]) == Count(s[..i], s[i]) + 1 <= Count(s, s[i])
    ensures forall v :: v != s[i] ==> Count(s[..i + 1], v) == Count(s[..i], v)
    decreases |s|
  {
    assert s[..i + 1][..i] == s[..i];
    if i + 1 == |s| {
      assert s[..i + 1] == s;
    } else {
      CountPositive(s[..|s| - 1], i);
      assert s[..|s| - 1][..i + 1] == s[..i + 1];
      assert s[..|s| - 1][..i] == s[..i];
    }
  }

  // ----- _build_adjacency -----

  datatype Adjacency = Adjacency(keys: seq<Id>, successors: map<Id, seq<Id>>, inDegree: map<Id, int>)

  /** What `_build_adjacency` must return for a closed set of pairs. */
  ghost predicate Describes(g: Adjacency, ids: set<Id>, pairs: Pairs) {
    && Distinct(g.keys) && Elems(g.keys) == ids == g.inDegree.Keys
    && (forall u :: Succ(g.successors, u) == Successors(pairs, u))
    && (forall v :: v in ids ==> g.inDegree[v] == Pending(pairs, {}, v))
  }

  /** The neighbours recorded for `u`, none if it has no entry. */
  function Succ(adj: map<Id, seq<Id>>, u: Id): seq<Id> {
    if u in adj then adj[u] else []
  }

  method AddEdge(ids: set<Id>, g: Adjacency, ghost pairs: Pairs, u: Id, v: Id)
    returns (r: Result<Adjacency, GraphError>)
    requires Describes(g, ids, pairs)
    ensures r.Ok? <==> u in ids && v in ids
    ensures r.Ok? ==> Describes(r.value, ids, pairs + [(u, v)]) && r.value.keys == g.keys
    ensures r.Err? ==> r.error == UnknownModule(if u !in ids then u else v)
  {
    if u !in ids {
      return Err(UnknownModule(u));
    }
    if v !in ids {
      return Err(UnknownModule(v));
    }
    var g' := g.(successors := g.successors[u := Succ(g.successors, u) + [v]],
                 inDegree := g.inDegree[v := g.inDegree[v] + 1]);
    assert (pairs + [(u, v)])[..|pairs|] == pairs;
    return Ok(g');
  }

  /** Index of the first pair with an endpoint that is not a module, or the length if all are known. */
  function FirstUnknown(pairs: Pairs, ids: set<Id>): (k: nat)
    ensures k <= |pairs| && (forall i :: 0 <= i < k ==> pairs[i].0 in ids && pairs[i].1 in ids)
    ensures k < |pairs| ==> pairs[k].0 !in ids || pairs[k].1 !in ids
  {
    if pairs == [] || pairs[0].0 !in ids || pairs[0].1 !in ids then 0 else 1 + FirstUnknown(pairs[1..], ids)
  }

  ghost function UnknownError(pairs: Pairs, ids: set<Id>): GraphError
    requires FirstUnknown(pairs, ids) < |pairs|
  {
    var e := pairs[FirstUnknown(pairs, ids)];
    UnknownModule(if e.0 !in ids then e.0 else e.1)
  }

  lemma FirstUnknownIs(pairs: Pairs, ids: set<Id>, k: nat)
    requires k < |pairs| && (pairs[k].0 !in ids || pairs[k].1 !in ids)
    requires forall i :: 0 <= i < k ==> pairs[i].0 in ids && pairs[i].1 in ids
    ensures FirstUnknown(pairs, ids) == k
  {
  }

  method InitialDegrees(modules: seq<Module>) returns (g: Adjacency)
    ensures Describes(g, IdSet(modules), [])
  {
    var keys: seq<Id>, inDegree: map<Id, int> := [], map[];
    for i := 0 to |modules|
      invariant Distinct(keys) && Elems(keys) == inDegree.Keys == IdSet(modules[..i])
      invariant forall v :: v in inDegree ==> inDegree[v] == 0
    {
      var id := modules[i].id;
      if id !in inDegree {
        keys := keys + [id];
      }
      inDegree := inDegree[id := 0];
      assert modules[..i + 1] == modules[..i] + [modules[i]];
    }
    assert modules[..|modules|] == modules;
    g := Adjacency(keys, map[], inDegree);
  }

  method AddPairs(ids: set<Id>, g: Adjacency, ghost before: Pairs, more: Pairs)
    returns (r: Result<Adjacency, GraphError>)
    requires Describes(g, ids, before)
    ensures r.Ok? <==> FirstUnknown(more, ids) == |more|
    ensures r.Ok? ==> Describes(r.value, ids, before + more)
    ensures r.Err? ==> r.error == UnknownError(more, ids)
  {
    hide Describes, FirstUnknown;
    var current := g;
    assert before + more[..0] == before;
    for i := 0 to |more|
      invariant Describes(current, ids, before + more[..i])
      invariant forall j :: 0 <= j < i ==> more[j].0 in ids && more[j].1 in ids
    {
      var step := AddEdge(ids, current, before + more[..i], more[i].0, more[i].1);
      if step.Err? {
        FirstUnknownIs(more, ids, i);
        return Err(step.error);
      }
      current := step.value;
      assert before + more[..i + 1] == before + more[..i] + [more[i]];
    }
    assert more[..|more|] == more;
    return Ok(current);
  }

  method BuildAdjacency(modules: seq<Module>, edges: seq<Edge>) returns (r: Result<Adjacency, GraphError>)
    ensures r.Ok? <==> Within(AllArcs(modules, edges), IdSet(modules))
    ensures r.Ok? ==> Describes(r.value, IdSet(modules), GraphPairs(modules, edges))
    // the first offending pair is reported, edges before dependencies
    ensures r.Err? ==>
              var pairs, ids := GraphPairs(modules, edges), IdSet(modules);
              FirstUnknown(pairs, ids) < |pairs| && r.error == UnknownError(pairs, ids)
  {
    hide Describes, FirstUnknown, Within, AllArcs, EdgePairs, DependencyPairs;
    var ids := IdSet(modules);
    var g := InitialDegrees(modules);
    BuildOutcome(modules, edges);
    assert [] + EdgePairs(edges) == EdgePairs(edges);
    r := AddPairs(ids, g, [], EdgePairs(edges));
    if r.Ok? {
      r := AddPairs(ids, r.value, EdgePairs(edges), DependencyPairs(modules));
    }
  }

  lemma BuildOutcome(modules: seq<Module>, edges: seq<Edge>)
    ensures var p, q, ids := EdgePairs(edges), DependencyPairs(modules), IdSet(modules);
            && FirstUnknown(p + q, ids) == (if FirstUnknown(p, ids) < |p| then FirstUnknown(p, ids)
                                            else |p| + FirstUnknown(q, ids))
            && (Within(AllArcs(modules, edges), ids) <==> FirstUnknown(p + q, ids) == |p + q|)
  {
    FirstUnknownAppend(EdgePairs(edges), DependencyPairs(modules), IdSet(modules));
    GraphPairsAreArcs(modules, edges);
    AllKnown(GraphPairs(modules, edges), IdSet(modules));
  }

  lemma {:induction false} FirstUnknownAppend(p: Pairs, q: Pairs, ids: set<Id>)
    ensures FirstUnknown(p + q, ids) ==
            if FirstUnknown(p, ids) < |p| then FirstUnknown(p, ids) else |p| + FirstUnknown(q, ids)
  {
    if p == [] {
      assert p + q == q;
    } else {
      FirstUnknownAppend(p[1..], q, ids);
      assert (p + q)[1..] == p[1..] + q;
    }
  }

  lemma AllKnown(pairs: Pairs, ids: set<Id>)
    ensures FirstUnknown(pairs, ids) == |pairs| <==> Within(PairSet(pairs), ids)
  {
  }

  // ----- Kahn's algorithm -----

  /** Every predecessor of `order[i]` stands before it. */
  ghost predicate PredecessorsFirst(pairs: Pairs, order: seq<Id>) {
    forall i, u :: 0 <= i < |order| && (u, order[i]) in pairs ==> u in order[..i]
  }

  /** Some predecessor of `v` has not been emitted. */
  ghost predicate Waits(pairs: Pairs, order: seq<Id>, v: Id) {
    exists u :: u !in order && (u, v) in pairs
  }

  /** Lowers the in-degree of each listed successor and queues those that reach zero. */
  method Release(ghost ids: set<Id>, next: seq<Id>, ghost order: seq<Id>, queue0: seq<Id>, inDegree0: map<Id, int>,
                 ghost base: map<Id, nat>)
    returns (queue: seq<Id>, inDegree: map<Id, int>)
    requires ids == inDegree0.Keys == base.Keys && Elems(next) <= ids
    requires Distinct(order + queue0) && Elems(order + queue0) <= ids
    requires forall v :: v in ids ==> inDegree0[v] == base[v] + Count(next, v)
    requires forall v :: v in ids && v !in order + queue0 ==> inDegree0[v] > 0
    requires forall v :: v in order + queue0 ==> v in ids && inDegree0[v] == 0
    ensures ids == inDegree.Keys && forall v :: v in ids ==> inDegree[v] == base[v]
    ensures Distinct(order + queue) && Elems(order + queue) <= ids
    ensures forall v :: v in ids ==> (inDegree[v] == 0 <==> v in order + queue)
  {
    queue, inDegree := queue0, inDegree0;
    for i := 0 to |next|
      invariant inDegree.Keys == ids
      invariant Distinct(order + queue) && Elems(order + queue) <= ids
      invariant forall v :: v in ids ==> inDegree[v] == base[v] + Count(next, v) - Count(next[..i], v)
      invariant forall v :: v in ids ==> (inDegree[v] == 0 <==> v in order + queue)
    {
      var v := next[i];
      CountPositive(next, i);
      inDegree := inDegree[v := inDegree[v] - 1];
      if inDegree[v] == 0 {
        assert order + (queue + [v]) == (order + queue) + [v];
        queue := queue + [v];
      }
    }
    assert next[..|next|] == next;
  }

  /** The state of the worklist between two pops. */
  ghost predicate DrainState(ids: set<Id>, pairs: Pairs, order: seq<Id>, queue: seq<Id>, inDegree: map<Id, int>) {
    && inDegree.Keys == ids
    && Distinct(order + queue) && Elems(order + queue) <= ids
    && (forall v :: v in ids ==> inDegree[v] == Pending(pairs, Elems(order), v))
    && (forall v :: v in ids ==> (inDegree[v] == 0 <==> v in order + queue))
    && PredecessorsFirst(pairs, order)
  }

  lemma PopKeepsOrder(ids: set<Id>, pairs: Pairs, order: seq<Id>, queue: seq<Id>, inDegree: map<Id, int>)
    requires DrainState(ids, pairs, order, queue, inDegree) && queue != []
    ensures queue[0] !in order && queue[0] in ids
    ensures order + queue == (order + [queue[0]]) + queue[1..]
    ensures PredecessorsFirst(pairs, order + [queue[0]])
    ensures |order| < |ids|
  {
    var node, all := queue[0], order + queue;
    assert all[|order|] == node && node in all;
    PendingZero(pairs, Elems(order), node);
    forall i, u | 0 <= i < |order + [node]| && (u, (order + [node])[i]) in pairs
      ensures u in (order + [node])[..i]
    {
      assert (order + [node])[..i] == order[..i];
    }
    assert forall i :: 0 <= i < |order| ==> all[i] == order[i];
    DistinctLength(order + [node], ids) by {
      assert order + [node] == all[..|order| + 1];
    }
  }

  lemma PopLowersPending(ids: set<Id>, pairs: Pairs, order: seq<Id>, node: Id)
    requires Within(PairSet(pairs), ids) && node !in order
    ensures Elems(Successors(pairs, node)) <= ids
    ensures forall v :: Pending(pairs, Elems(order), v) ==
                        Pending(pairs, Elems(order + [node]), v) + Count(Successors(pairs, node), v)
  {
  }

  /** The worklist both functions of graph.py run: `order` lists the nodes in the
      sequence in which they leave the queue. */
  method Drain(g: Adjacency, ghost ids: set<Id>, ghost pairs: Pairs) returns (order: seq<Id>, inDegree: map<Id, int>)
    requires Describes(g, ids, pairs) && Within(PairSet(pairs), ids)
    ensures Distinct(order) && Elems(order) <= ids == inDegree.Keys
    ensures PredecessorsFirst(pairs, order)
    ensures forall v :: v in ids ==> inDegree[v] >= 0 && (inDegree[v] == 0 <==> v in order)
    ensures forall v :: v in ids && v !in order ==> Waits(pairs, order, v)
  {
    inDegree := g.inDegree;
    var queue := InitialQueue(g);
    order := [];
    assert Elems(order) == {} && order + queue == queue;
    while queue != []
      invariant DrainState(ids, pairs, order, queue, inDegree)
      decreases |ids| - |order|
    {
      PopKeepsOrder(ids, pairs, order, queue, inDegree);
      PopLowersPending(ids, pairs, order, queue[0]);
      var next := Succ(g.successors, queue[0]);
      order, queue := order + [queue[0]], queue[1..];
      ghost var base := map v | v in ids :: Pending(pairs, Elems(order), v);
      queue, inDegree := Release(ids, next, order, queue, inDegree, base);
    }
    assert order + queue == order;
    forall v | v in ids && v !in order ensures Waits(pairs, order, v) {
      PendingZero(pairs, Elems(order), v);
    }
  }

  method InitialQueue(g: Adjacency) returns (queue: seq<Id>)
    requires Distinct(g.keys) && Elems(g.keys) == g.inDegree.Keys
    ensures Distinct(queue) && forall v :: v in queue <==> v in g.keys && g.inDegree[v] == 0
  {
    queue := [];
    for i := 0 to |g.keys|
      invariant Distinct(queue) && forall v :: v in queue <==> v in g.keys[..i] && g.inDegree[v] == 0
    {
      assert g.keys[..i + 1] == g.keys[..i] + [g.keys[i]];
      assert g.keys[i] !in g.keys[..i];
      if g.inDegree[g.keys[i]] == 0 {
        queue := queue + [g.keys[i]];
      }
    }
    assert g.keys[..|g.keys|] == g.keys;
  }

  /** `x` is on a cycle or downstream of one. */
  ghost predicate BelowCycle(a: Arcs, x: Id) {
    exists c :: OnCycle(a, c) && Reach(a, c, x)
  }

  /** Nodes that leave the queue are downstream of no cycle, the rest all are. */
  lemma DrainedExactly(ids: set<Id>, pairs: Pairs, order: seq<Id>, x: Id)
    requires PredecessorsFirst(pairs, order) && Elems(order) <= ids && x in ids
    requires Within(PairSet(pairs), ids)
    requires forall v :: v in ids && v !in order ==> Waits(pairs, order, v)
    ensures x in order <==> !BelowCycle(PairSet(pairs), x)
  {
    if x in order {
      EmittedIsClear(pairs, order, x);
    } else {
      LeftOverIsBacked(ids, pairs, order);
      var c := PredecessorsGiveCycle(PairSet(pairs), ids - Elems(order), x);
    }
  }

  lemma LeftOverIsBacked(ids: set<Id>, pairs: Pairs, order: seq<Id>)
    requires Within(PairSet(pairs), ids)
    requires forall v :: v in ids && v !in order ==> Waits(pairs, order, v)
    ensures Backed(PairSet(pairs), ids - Elems(order))
  {
  }

  lemma EmittedIsClear(pairs: Pairs, order: seq<Id>, x: Id)
    requires PredecessorsFirst(pairs, order) && x in order
    ensures !BelowCycle(PairSet(pairs), x)
  {
    var a := PairSet(pairs);
    if BelowCycle(a, x) {
      var c :| OnCycle(a, c) && Reach(a, c, x);
      var p :| IsPath(a, c, x, p);
      BackInto(pairs, order, c, x, p);
      var q :| IsPath(a, c, c, q) && |q| >= 2;
      FirstOf(order, c);
      var i :| 0 <= i < |order| && order[i] == c && c !in order[..i];
      EarlierAlong(pairs, order, c, c, q, i);
    }
  }

  lemma FirstOf(order: seq<Id>, c: Id)
    requires c in order
    ensures exists i :: 0 <= i < |order| && order[i] == c && c !in order[..i]
  {
    if c in order[..|order| - 1] {
      FirstOf(order[..|order| - 1], c);
      var i :| 0 <= i < |order| - 1 && order[i] == c && c !in order[..|order| - 1][..i];
      assert order[..|order| - 1][..i] == order[..i];
    } else {
      assert order[|order| - 1] == c;
    }
  }

  /** An emitted node has only emitted ancestors. */
  lemma {:induction false} BackInto(pairs: Pairs, order: seq<Id>, c: Id, x: Id, p: seq<Id>)
    requires PredecessorsFirst(pairs, order) && x in order && IsPath(PairSet(pairs), c, x, p)
    ensures c in order
    decreases |p|
  {
    if |p| > 1 {
      var i :| 0 <= i < |order| && order[i] == x;
      assert (p[|p| - 2], p[|p| - 1]) in PairSet(pairs);
      assert p[|p| - 2] in order[..i];
      SubPath(PairSet(pairs), c, x, p, 0, |p| - 2);
      BackInto(pairs, order, c, p[|p| - 2], p[0..|p| - 1]);
    }
  }

  /** Walking backwards from position `i` ends at a strictly smaller position. */
  lemma {:induction false} EarlierAlong(pairs: Pairs, order: seq<Id>, c: Id, x: Id, p: seq<Id>, i: nat)
    requires PredecessorsFirst(pairs, order) && i < |order| && order[i] == x
    requires IsPath(PairSet(pairs), c, x, p) && |p| >= 2
    ensures c in order[..i]
    decreases |p|
  {
    var y := p[|p| - 2];
    assert (y, p[|p| - 1]) in PairSet(pairs);
    assert y in order[..i];
    if |p| > 2 {
      var j :| 0 <= j < i && order[j] == y;
      SubPath(PairSet(pairs), c, x, p, 0, |p| - 2);
      EarlierAlong(pairs, order, c, y, p[0..|p| - 1], j);
      assert order[..j] <= order[..i];
    }
  }

  method DetectCycles(modules: seq<Module>, edges: seq<Edge>) returns (r: Result<seq<Id>, GraphError>)
    // an edge or dependency naming no module is the only error
    ensures r.Ok? <==> Within(AllArcs(modules, edges), IdSet(modules))
    ensures r.Err? ==>
              var pairs, ids := GraphPairs(modules, edges), IdSet(modules);
              FirstUnknown(pairs, ids) < |pairs| && r.error == UnknownError(pairs, ids)
    // the answer is exactly the modules on or below a cycle, each once
    ensures r.Ok? ==> Distinct(r.value) && forall x ::
                        x in r.value <==> x in IdSet(modules) && BelowCycle(AllArcs(modules, edges), x)
    // so it is empty exactly for a DAG, and closed under "has a listed predecessor"
    ensures r.Ok? ==> (r.value == [] <==> Acyclic(AllArcs(modules, edges)))
    ensures r.Ok? ==> Backed(AllArcs(modules, edges), Elems(r.value))
  {
    var built := BuildAdjacency(modules, edges);
    if built.Err? {
      return Err(built.error);
    }
    var g := built.value;
    ghost var ids, pairs, arcs := IdSet(modules), GraphPairs(modules, edges), AllArcs(modules, edges);
    GraphPairsAreArcs(modules, edges);
    var order, inDegree := Drain(g, ids, pairs);
    forall x | x in ids ensures x in order <==> !BelowCycle(arcs, x) {
      DrainedExactly(ids, pairs, order, x);
    }
    var listed: seq<Id> := [];
    if |order| < |modules| {
      listed := StillWaiting(g.keys, inDegree);
    } else {
      AllVisited(modules, order);
    }
    LeftOverIsBacked(ids, pairs, order);
    assert Elems(listed) == ids - Elems(order);
    NothingListed(arcs, ids, listed);
    return Ok(listed);
  }

  /** Modules `a` and `b` form a cycle, `c` comes after it. */
  function BehindCycle(): (seq<Module>, seq<Edge>) {
    var plain := (id: Id) => Module(id, Channel, [], None, None, None, map[]);
    ([plain("a"), plain("b"), plain("c")],
     [Edge("a", "b", "main", []), Edge("b", "a", "main", []), Edge("b", "c", "main", [])])
  }

  lemma Bystander()
    ensures var (ms, es) := BehindCycle();
            && IdSet(ms) == {"a", "b", "c"} && AllArcs(ms, es) == {("a", "b"), ("b", "a"), ("b", "c")}
            && BelowCycle(AllArcs(ms, es), "c") && !OnCycle(AllArcs(ms, es), "c")
  {
    var (ms, es) := BehindCycle();
    var arcs := AllArcs(ms, es);
    assert ms[0] in ms && ms[1] in ms && ms[2] in ms && es[0] in es && es[1] in es && es[2] in es;
    assert EdgeArcs(es) == {("a", "b"), ("b", "a"), ("b", "c")} && DependencyArcs(ms) == {};
    assert IsPath(arcs, "b", "b", ["b", "a", "b"]);
    ReachStep(arcs, "b", "c");
    if OnCycle(arcs, "c") {
      var y := CycleLeaves(arcs, "c");
    }
  }

  lemma CycleLeaves(a: Arcs, x: Id) returns (y: Id)
    requires OnCycle(a, x)
    ensures (x, y) in a
  {
    var p :| IsPath(a, x, x, p) && |p| >= 2;
    y := p[1];
  }

  /** So `detect_cycles` lists a module that is involved in no cycle. */
  method BystanderIsListed() returns (listed: seq<Id>)
    ensures "c" in listed && !OnCycle(AllArcs(BehindCycle().0, BehindCycle().1), "c")
  {
    hide BehindCycle, AllArcs, OnCycle, BelowCycle;
    Bystander();
    var r := DetectCycles(BehindCycle().0, BehindCycle().1);
    return r.value;
  }

  method StillWaiting(keys: seq<Id>, inDegree: map<Id, int>) returns (listed: seq<Id>)
    requires Distinct(keys) && Elems(keys) == inDegree.Keys
    ensures Distinct(listed) && forall v :: v in listed <==> v in keys && inDegree[v] > 0
  {
    listed := [];
    for i := 0 to |keys|
      invariant Distinct(listed) && forall v :: v in listed <==> v in keys[..i] && inDegree[v] > 0
    {
      assert keys[..i + 1] == keys[..i] + [keys[i]];
      assert keys[i] !in keys[..i];
      if inDegree[keys[i]] > 0 {
        listed := listed + [keys[i]];
      }
    }
    assert keys[..|keys|] == keys;
  }

  /** The list of nodes below a cycle is empty exactly for a DAG. */
  lemma NothingListed(arcs: Arcs, ids: set<Id>, listed: seq<Id>)
    requires Within(arcs, ids)
    requires forall x :: x in listed <==> x in ids && BelowCycle(arcs, x)
    ensures listed == [] <==> Acyclic(arcs)
  {
    if c :| OnCycle(arcs, c) {
      ReachSelf(arcs, c);
      var p :| IsPath(arcs, c, c, p) && |p| >= 2;
      assert (p[0], p[1]) in arcs;
      assert c in listed;
    }
    if listed != [] {
      assert BelowCycle(arcs, listed[0]);
    }
  }

  lemma AllVisited(modules: seq<Module>, order: seq<Id>)
    requires Distinct(order) && Elems(order) <= IdSet(modules) && |order| >= |modules|
    ensures Elems(order) == IdSet(modules)
  {
    if x :| x in IdSet(modules) && x !in order {
      var more := order + [x];
      DistinctLength(more, IdSet(modules));
      IdSetSize(modules);
    }
  }

  lemma {:induction false} IdSetSize(modules: seq<Module>)
    ensures |IdSet(modules)| <= |modules|
  {
    if modules != [] {
      var init, last := modules[..|modules| - 1], modules[|modules| - 1];
      IdSetSize(init);
      assert modules == init + [last];
      assert IdSet(modules) == IdSet(init) + {last.id};
    }
  }

  /** `order` is a schedule: every module once, every arc forwards. */
  ghost predicate Schedule(order: seq<Id>, ids: set<Id>, arcs: Arcs) {
    && Distinct(order) && Elems(order) == ids
    && forall i, j :: 0 <= i < |order| && 0 <= j < |order| && (order[i], order[j]) in arcs ==> i < j
  }

  method TopologicalOrder(modules: seq<Module>, edges: seq<Edge>) returns (r: Result<seq<Id>, GraphError>)
    ensures r.Ok? <==> Within(AllArcs(modules, edges), IdSet(modules)) && Acyclic(AllArcs(modules, edges))
    ensures r.Ok? ==> Schedule(r.value, IdSet(modules), AllArcs(modules, edges))
    ensures r.Err? ==> (r.error.CycleDetected? <==> Within(AllArcs(modules, edges), IdSet(modules)))
    ensures r.Err? && r.error.CycleDetected? ==>
              r.error.involved != [] &&
              forall x :: x in r.error.involved <==> x in IdSet(modules) && BelowCycle(AllArcs(modules, edges), x)
  {
    var cycleNodes := DetectCycles(modules, edges);
    if cycleNodes.Err? {
      return Err(cycleNodes.error);
    }
    if cycleNodes.value != [] {
      return Err(CycleDetected(cycleNodes.value));
    }
    var built := BuildAdjacency(modules, edges);
    ghost var ids, pairs, arcs := IdSet(modules), GraphPairs(modules, edges), AllArcs(modules, edges);
    GraphPairsAreArcs(modules, edges);
    var order, _ := Drain(built.value, ids, pairs);
    forall x | x in ids ensures x in order {
      DrainedExactly(ids, pairs, order, x);
    }
    forall i, j | 0 <= i < |order| && 0 <= j < |order| && (order[i], order[j]) in arcs ensures i < j {
      assert order[i] in order[..j];
    }
    return Ok(order);
  }

  /** A duplicate-free parse result has a schedule as long as its module list. */
  lemma ScheduleLength(modules: seq<Module>, order: seq<Id>)
    requires Distinct(Ids(modules)) && Distinct(order) && Elems(order) == IdSet(modules)
    ensures |order| == |modules| && multiset(order) == multiset(Ids(modules))
  {
    IdSetOf(modules);
    SameElements(order, Ids(modules));
  }

  lemma SameElements(s: seq<Id>, t: seq<Id>)
    requires Distinct(s) && Distinct(t) && Elems(s) == Elems(t)
    ensures multiset(s) == multiset(t) && |s| == |t|
  {
    DistinctMultiset(s);
    DistinctMultiset(t);
    forall x ensures multiset(s)[x] == multiset(t)[x] {
      assert x in s <==> x in Elems(s);
      assert x in t <==> x in Elems(t);
    }
    assert |multiset(s)| == |s| && |multiset(t)| == |t|;
  }

  lemma {:induction false} DistinctMultiset(s: seq<Id>)
    requires Distinct(s)
    ensures forall x :: multiset(s)[x] == if x in s then 1 else 0
  {
    if s != [] {
      var init, last := s[..|s| - 1], s[|s| - 1];
      DistinctMultiset(init);
      assert s == init + [last];
      assert last !in init;
    }
  }
}
