/** Regulator compile-away (aqueduct/compiler/wirer.py). */
module Wirer {
  import opened Digraph
  import opened Ast

  const MAIN := "main"
  const SIGNAL := "signal"

  /** Regulators into which no signal edge leads. */
  function PassiveRegulators(modules: seq<Module>, edges: seq<Edge>): set<Id> {
    var active := set e | e in edges && e.port == SIGNAL :: e.to;
    set m | m in modules && m.kind == Regulator && m.id !in active :: m.id
  }

  function MainArcs(edges: seq<Edge>): Arcs {
    set e | e in edges && e.port == MAIN :: (e.from, e.to)
  }

  function Without(modules: seq<Module>, gone: set<Id>): (r: seq<Module>)
    ensures forall m :: m in r <==> m in modules && m.id !in gone
  {
    if modules == [] then [] else
    var init, last := Without(modules[..|modules| - 1], gone), modules[|modules| - 1];
    assert modules == modules[..|modules| - 1] + [last];
    if last.id in gone then init else init + [last]
  }

  /** `e` replaces the two main edges through one passive Regulator. */
  ghost predicate IsBypass(edges: seq<Edge>, passive: set<Id>, e: Edge) {
    exists reg :: reg in passive && (e.from, reg) in MainArcs(edges) && (reg, e.to) in MainArcs(edges)
                  && e == Edge(e.from, e.to, MAIN, [])
  }

  ghost predicate Touches(passive: set<Id>, e: Edge) {
    e.from in passive || e.to in passive
  }

  /** The edge list after compile-away: untouched edges verbatim, plus the bypasses. */
  ghost predicate Bypassed(edges: seq<Edge>, passive: set<Id>, edges': seq<Edge>) {
    forall e :: e in edges' <==> (e in edges && !Touches(passive, e)) || IsBypass(edges, passive, e)
  }

  /** A Regulator is passive exactly when no edge leads into it on the port `signal`. */
  lemma PassiveRegulatorMeans(modules: seq<Module>, edges: seq<Edge>, x: Id)
    ensures x in PassiveRegulators(modules, edges) <==>
            && (exists m :: m in modules && m.kind == Regulator && m.id == x)
            && forall e :: e in edges && e.to == x ==> e.port != "signal"
  {
  }

  /** A bypass joins the start of an edge into a passive Regulator to the end of one out of it, all three on the port
      `main`. */
  lemma BypassMeans(edges: seq<Edge>, passive: set<Id>, b: Edge)
    ensures IsBypass(edges, passive, b) <==>
            && b.port == "main" && b.errorTypes == []
            && exists e, f :: e in edges && f in edges && e.to == f.from && e.to in passive
                              && e.port == "main" && f.port == "main" && e.from == b.from && f.to == b.to
  {
    if IsBypass(edges, passive, b) {
      var reg :| reg in passive && (b.from, reg) in MainArcs(edges) && (reg, b.to) in MainArcs(edges);
      var e :| e in edges && e.port == MAIN && (e.from, e.to) == (b.from, reg);
      var f :| f in edges && f.port == MAIN && (f.from, f.to) == (reg, b.to);
    }
    if e, f :| e in edges && f in edges && e.to == f.from && e.to in passive
               && e.port == "main" && f.port == "main" && e.from == b.from && f.to == b.to {
      assert (e.from, e.to) in MainArcs(edges) && (f.from, f.to) in MainArcs(edges);
    }
  }

  // ----- the algorithm -----

  function Lookup(m: map<Id, seq<Id>>, k: Id): seq<Id> {
    if k in m then m[k] else []
  }

  /** Adds `x` to the list under `k`, which is created if there is none. */
  function Append(m: map<Id, seq<Id>>, k: Id, x: Id): map<Id, seq<Id>> {
    m[k := Lookup(m, k) + [x]]
  }

  lemma AppendAdds(m: map<Id, seq<Id>>, k: Id, x: Id)
    ensures forall l, y :: y in Lookup(Append(m, k, x), l) <==> y in Lookup(m, l) || (l == k && y == x)
  {
  }

  ghost predicate IsUpstream(main: Arcs, passive: set<Id>, upstream: map<Id, seq<Id>>) {
    forall reg, u :: reg in passive ==> (u in Lookup(upstream, reg) <==> (u, reg) in main)
  }

  ghost predicate IsDownstream(main: Arcs, passive: set<Id>, downstream: map<Id, seq<Id>>) {
    forall reg, d :: reg in passive ==> (d in Lookup(downstream, reg) <==> (reg, d) in main)
  }

  lemma MainArcsSnoc(edges: seq<Edge>, i: nat)
    requires i < |edges|
    ensures var e := edges[i];
            MainArcs(edges[..i + 1]) == MainArcs(edges[..i]) + (if e.port == MAIN then {(e.from, e.to)} else {})
  {
  }

  /** `upstream_of` and `downstream_of`. */
  method CollectNeighbours(edges: seq<Edge>, passive: set<Id>)
    returns (upstream: map<Id, seq<Id>>, downstream: map<Id, seq<Id>>)
    ensures IsUpstream(MainArcs(edges), passive, upstream) && IsDownstream(MainArcs(edges), passive, downstream)
  {
    upstream, downstream := map[], map[];
    ghost var main: Arcs := {};
    for i := 0 to |edges|
      invariant main == MainArcs(edges[..i])
      invariant IsUpstream(main, passive, upstream) && IsDownstream(main, passive, downstream)
    {
      var e := edges[i];
      MainArcsSnoc(edges, i);
      main := main + if e.port == MAIN then {(e.from, e.to)} else {};
      AppendAdds(upstream, e.to, e.from);
      AppendAdds(downstream, e.from, e.to);
      if e.to in passive && e.port == MAIN {
        upstream := Append(upstream, e.to, e.from);
      }
      if e.from in passive && e.port == MAIN {
        downstream := Append(downstream, e.from, e.to);
      }
    }
    assert edges[..|edges|] == edges;
  }

  method BypassOne(upstream: seq<Id>, downstream: seq<Id>) returns (bypass: seq<Edge>)
    ensures forall e :: e in bypass <==> e.from in upstream && e.to in downstream && e == Edge(e.from, e.to, MAIN, [])
  {
    bypass := [];
    for i := 0 to |upstream|
      invariant forall e :: e in bypass <==>
                  e.from in upstream[..i] && e.to in downstream && e == Edge(e.from, e.to, MAIN, [])
    {
      for j := 0 to |downstream|
        invariant forall e :: e in bypass <==>
                    ((e.from in upstream[..i] && e.to in downstream)
                     || (e.from == upstream[i] && e.to in downstream[..j]))
                    && e == Edge(e.from, e.to, MAIN, [])
      {
        bypass := bypass + [Edge(upstream[i], downstream[j], MAIN, [])];
      }
    }
  }

  method CompileAwayRegulators(modules: seq<Module>, edges: seq<Edge>)
    returns (modules': seq<Module>, edges': seq<Edge>)
    ensures modules' == Without(modules, PassiveRegulators(modules, edges))
    ensures Bypassed(edges, PassiveRegulators(modules, edges), edges')
    // untouched edges come first, in their order
    ensures KeptEdges(edges, PassiveRegulators(modules, edges)) <= edges'
    ensures PassiveRegulators(modules, edges) == {} ==> edges' == edges
  {
    var passive := PassiveRegulators(modules, edges);
    if passive == {} {
      NoModuleRemoved(modules);
      NoEdgeRemoved(edges);
      return modules, edges;
    }
    var upstream, downstream := CollectNeighbours(edges, passive);
    var bypass: seq<Edge> := [];
    var left := passive;
    while left != {}
      invariant left <= passive
      invariant forall e :: e in bypass <==> IsBypass(edges, passive - left, e)
      decreases |left|
    {
      var reg :| reg in left;
      var some := BypassOne(Lookup(upstream, reg), Lookup(downstream, reg));
      assert passive - (left - {reg}) == (passive - left) + {reg};
      forall e ensures IsBypass(edges, passive - (left - {reg}), e) <==> e in bypass || e in some {
        BypassSplit(edges, passive - left, reg, e);
      }
      bypass, left := bypass + some, left - {reg};
    }
    assert passive - left == passive;
    return Without(modules, passive), KeptEdges(edges, passive) + bypass;
  }

  /** The edges that touch no passive Regulator, in order. */
  function KeptEdges(edges: seq<Edge>, passive: set<Id>): (kept: seq<Edge>)
    ensures forall e :: e in kept <==> e in edges && e.from !in passive && e.to !in passive
  {
    if edges == [] then [] else
    var init, last := KeptEdges(edges[..|edges| - 1], passive), edges[|edges| - 1];
    assert edges == edges[..|edges| - 1] + [last];
    if last.from in passive || last.to in passive then init else init + [last]
  }

  lemma {:induction false} NoModuleRemoved(modules: seq<Module>)
    ensures Without(modules, {}) == modules
  {
    if modules != [] {
      var init, last := modules[..|modules| - 1], modules[|modules| - 1];
      NoModuleRemoved(init);
      assert Without(modules, {}) == init + [last] == modules;
    }
  }

  lemma {:induction false} NoEdgeRemoved(edges: seq<Edge>)
    ensures KeptEdges(edges, {}) == edges
  {
    if edges != [] {
      NoEdgeRemoved(edges[..|edges| - 1]);
    }
  }

  lemma BypassSplit(edges: seq<Edge>, some: set<Id>, reg: Id, e: Edge)
    ensures IsBypass(edges, some + {reg}, e) <==> IsBypass(edges, some, e) || IsBypass(edges, {reg}, e)
  {
  }

  // ----- what compile-away preserves -----

  /** A bypass whose end is itself compiled away. */
  ghost predicate DanglingBypass(edges: seq<Edge>, passive: set<Id>) {
    exists u, r, v ::
      (u, r) in MainArcs(edges) && (r, v) in MainArcs(edges) && r in passive && (u in passive || v in passive)
  }

  lemma BypassArc(edges: seq<Edge>, passive: set<Id>, edges': seq<Edge>, u: Id, v: Id)
    requires Bypassed(edges, passive, edges')
    ensures (u, v) in MainArcs(edges') <==>
            || ((u, v) in MainArcs(edges) && u !in passive && v !in passive)
            || exists reg :: reg in passive && (u, reg) in MainArcs(edges) && (reg, v) in MainArcs(edges)
  {
    if (u, v) in MainArcs(edges') {
      var e :| e in edges' && e.port == MAIN && (e.from, e.to) == (u, v);
      assert (e in edges && !Touches(passive, e)) || IsBypass(edges, passive, e);
    }
    if (u, v) in MainArcs(edges) && u !in passive && v !in passive {
      var e :| e in edges && e.port == MAIN && (e.from, e.to) == (u, v);
      assert !Touches(passive, e) && e in edges';
    }
    if reg :| reg in passive && (u, reg) in MainArcs(edges) && (reg, v) in MainArcs(edges) {
      var e := Edge(u, v, MAIN, []);
      assert IsBypass(edges, passive, e) && e in edges';
    }
  }

  /** The main arcs between surviving modules. */
  function LiveArcs(edges: seq<Edge>, passive: set<Id>): Arcs {
    set a | a in MainArcs(edges) && a.0 !in passive && a.1 !in passive
  }

  /** A main path on which no two consecutive modules are passive Regulators. */
  ghost predicate Bypassable(edges: seq<Edge>, passive: set<Id>, u: Id, v: Id, p: seq<Id>) {
    IsPath(MainArcs(edges), u, v, p) && forall i :: 0 <= i < |p| - 1 ==> p[i] !in passive || p[i + 1] !in passive
  }

  lemma {:induction false} BypassKeepsWalk(edges: seq<Edge>, passive: set<Id>, edges': seq<Edge>, u: Id, v: Id,
                                           p: seq<Id>)
    requires Bypassed(edges, passive, edges') && Bypassable(edges, passive, u, v, p)
    requires u !in passive && v !in passive
    ensures Reach(LiveArcs(edges', passive), u, v)
    decreases |p|
  {
    var live := LiveArcs(edges', passive);
    ReachSelf(live, u);
    if |p| > 1 {
      assert (p[0], p[1]) in MainArcs(edges);
      var k := 1;
      if p[1] in passive {
        assert (p[1], p[2]) in MainArcs(edges);
        k := 2;
      }
      BypassArc(edges, passive, edges', u, p[k]);
      ReachStep(live, u, p[k]);
      SubPath(MainArcs(edges), u, v, p, k, |p| - 1);
      BypassKeepsWalk(edges, passive, edges', p[k], v, p[k..|p|]);
      ReachTrans(live, u, p[k], v);
    }
  }

  lemma {:induction false} BypassUnfolds(edges: seq<Edge>, passive: set<Id>, edges': seq<Edge>, u: Id, v: Id,
                                         p: seq<Id>)
    returns (q: seq<Id>)
    requires Bypassed(edges, passive, edges') && IsPath(LiveArcs(edges', passive), u, v, p)
    ensures Bypassable(edges, passive, u, v, q)
    decreases |p|
  {
    if |p| == 1 {
      q := p;
    } else {
      assert (p[0], p[1]) in LiveArcs(edges', passive);
      SubPath(LiveArcs(edges', passive), u, v, p, 1, |p| - 1);
      var rest := BypassUnfolds(edges, passive, edges', p[1], v, p[1..|p|]);
      BypassArc(edges, passive, edges', u, p[1]);
      if (u, p[1]) in MainArcs(edges) {
        q := Prepend(edges, passive, u, p[1], v, rest);
      } else {
        var reg :| reg in passive && (u, reg) in MainArcs(edges) && (reg, p[1]) in MainArcs(edges);
        q := Prepend(edges, passive, reg, p[1], v, rest);
        q := Prepend(edges, passive, u, reg, v, q);
      }
    }
  }

  lemma Prepend(edges: seq<Edge>, passive: set<Id>, u: Id, w: Id, v: Id, p: seq<Id>) returns (q: seq<Id>)
    requires Bypassable(edges, passive, w, v, p) && (u, w) in MainArcs(edges) && (u !in passive || w !in passive)
    ensures Bypassable(edges, passive, u, v, q)
  {
    q := [u] + p;
  }

  /** Two surviving modules stay connected exactly when some main path between them never
      meets two passive Regulators in a row. */
  lemma BypassReachExactly(edges: seq<Edge>, passive: set<Id>, edges': seq<Edge>, u: Id, v: Id)
    requires Bypassed(edges, passive, edges') && u !in passive && v !in passive
    ensures Reach(LiveArcs(edges', passive), u, v) <==> exists p :: Bypassable(edges, passive, u, v, p)
  {
    if p :| Bypassable(edges, passive, u, v, p) {
      BypassKeepsWalk(edges, passive, edges', u, v, p);
    }
    if Reach(LiveArcs(edges', passive), u, v) {
      var p :| IsPath(LiveArcs(edges', passive), u, v, p);
      var q := BypassUnfolds(edges, passive, edges', u, v, p);
    }
  }

  /** So main-port reachability between surviving modules is unchanged when no bypass crosses two passive Regulators. */
  lemma BypassKeepsMainReach(edges: seq<Edge>, passive: set<Id>, edges': seq<Edge>, u: Id, v: Id)
    requires Bypassed(edges, passive, edges') && !DanglingBypass(edges, passive)
    requires u !in passive && v !in passive
    ensures Reach(MainArcs(edges'), u, v) <==> Reach(MainArcs(edges), u, v)
  {
    BypassReachExactly(edges, passive, edges', u, v);
    assert MainArcs(edges') == LiveArcs(edges', passive) by {
      forall x, y | (x, y) in MainArcs(edges') ensures (x, y) in LiveArcs(edges', passive) {
        BypassArc(edges, passive, edges', x, y);
      }
    }
    if Reach(MainArcs(edges), u, v) {
      var p :| IsPath(MainArcs(edges), u, v, p);
      forall i | 0 <= i < |p| - 1 ensures p[i] !in passive || p[i + 1] !in passive {
        assert (p[i], p[i + 1]) in MainArcs(edges);
        assert i > 0 ==> (p[i - 1], p[i]) in MainArcs(edges);
      }
      assert Bypassable(edges, passive, u, v, p);
    }
  }

  function ChainExample(): seq<Edge> {
    [Edge("u", "r1", MAIN, []), Edge("r1", "r2", MAIN, []), Edge("r2", "v", MAIN, [])]
  }

  /** With such an edge the path can be lost: u -> r1 -> r2 -> v leaves v unreachable. */
  lemma ChainLosesPath(edges': seq<Edge>)
    requires Bypassed(ChainExample(), {"r1", "r2"}, edges')
    ensures Reach(MainArcs(ChainExample()), "u", "v") && !Reach(MainArcs(edges'), "u", "v")
  {
    var edges, passive := ChainExample(), {"r1", "r2"};
    assert edges[0] in edges && edges[1] in edges && edges[2] in edges;
    assert IsPath(MainArcs(edges), "u", "v", ["u", "r1", "r2", "v"]);
    forall x, y | (x, y) in MainArcs(edges') && x in {"u", "r2"} ensures y in {"u", "r2"} {
      BypassArc(edges, passive, edges', x, y);
    }
    forall p | IsPath(MainArcs(edges'), "u", "v", p) ensures false {
      Confined(MainArcs(edges'), {"u", "r2"}, "u", "v", p);
    }
  }

  /** Compile-away never introduces a cycle. */
  lemma BypassStaysAcyclic(modules: seq<Module>, edges: seq<Edge>, passive: set<Id>, edges': seq<Edge>)
    requires Bypassed(edges, passive, edges') && Acyclic(AllArcs(modules, edges))
    ensures Acyclic(AllArcs(Without(modules, passive), edges'))
  {
    var rank := AcyclicHasRank(AllArcs(modules, edges));
    var kept := Without(modules, passive);
    forall u, v | (u, v) in AllArcs(kept, edges') ensures rank(u) < rank(v) {
      if (u, v) in EdgeArcs(edges') {
        var e :| e in edges' && (e.from, e.to) == (u, v);
        if IsBypass(edges, passive, e) {
          var reg :| reg in passive && (u, reg) in MainArcs(edges) && (reg, v) in MainArcs(edges);
          assert (u, reg) in EdgeArcs(edges) && (reg, v) in EdgeArcs(edges);
        } else {
          assert (u, v) in EdgeArcs(edges);
        }
      } else {
        assert (u, v) in DependencyArcs(modules);
      }
    }
    RankedIsAcyclic(AllArcs(kept, edges'), rank);
  }

  lemma WithoutIds(modules: seq<Module>, edges: seq<Edge>)
    ensures IdSet(Without(modules, PassiveRegulators(modules, edges)))
            == IdSet(modules) - PassiveRegulators(modules, edges)
  {
  }

  /** All edges lead to surviving modules exactly when no bypass crosses two passive Regulators. */
  lemma BypassClosed(modules: seq<Module>, edges: seq<Edge>, edges': seq<Edge>)
    requires Bypassed(edges, PassiveRegulators(modules, edges), edges')
    requires Within(EdgeArcs(edges), IdSet(modules))
    ensures Within(EdgeArcs(edges'), IdSet(Without(modules, PassiveRegulators(modules, edges))))
            <==> !DanglingBypass(edges, PassiveRegulators(modules, edges))
  {
    var passive := PassiveRegulators(modules, edges);
    WithoutIds(modules, edges);
    if DanglingBypass(edges, passive) {
      var u, r, v :|
        (u, r) in MainArcs(edges) && (r, v) in MainArcs(edges) && r in passive && (u in passive || v in passive);
      BypassArc(edges, passive, edges', u, v);
      assert (u, v) in EdgeArcs(edges');
    } else {
      forall u, v | (u, v) in EdgeArcs(edges')
        ensures u in IdSet(modules) - passive && v in IdSet(modules) - passive
      {
        BypassEndpoints(modules, edges, passive, edges', u, v);
      }
    }
  }

  lemma BypassEndpoints(modules: seq<Module>, edges: seq<Edge>, passive: set<Id>, edges': seq<Edge>, u: Id, v: Id)
    requires Bypassed(edges, passive, edges') && !DanglingBypass(edges, passive)
    requires Within(EdgeArcs(edges), IdSet(modules)) && (u, v) in EdgeArcs(edges')
    ensures u in IdSet(modules) - passive && v in IdSet(modules) - passive
  {
  }
}
