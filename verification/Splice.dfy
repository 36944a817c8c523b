/** Replacing one node of a graph by a whole graph: what Arcade expansion does to reachability and to ranks. */
module Splice {
  import opened Digraph
  import opened Naming

  /** The replaced node, and the sub-graph put in its place. */
  datatype Site = Site(hub: Id, inner: Arcs, nodes: set<Id>, entries: set<Id>, exits: set<Id>)
  {
    ghost predicate Valid() {
      Within(inner, nodes) && entries <= nodes && exits <= nodes
    }

    /** One can get through: some entry reaches some exit. */
    ghost predicate Crossable() {
      exists e, x :: e in entries && x in exits && Reach(inner, e, x)
    }

    /** The sub-graph is acyclic and entered wherever nothing leads, and there is a way out. */
    ghost predicate Rooted() {
      && Acyclic(inner) && exits != {}
      && entries == (set c | c in nodes && forall d :: d in nodes ==> (d, c) !in inner)
    }

    ghost predicate IsImage(x: Id) {
      exists c :: c in nodes && x == Namespaced(hub, c)
    }

    /** The node of the sub-graph an image stands for. */
    ghost function Preimage(x: Id): (c: Id)
      requires IsImage(x)
      ensures c in nodes && x == Namespaced(hub, c)
    {
      var c :| c in nodes && x == Namespaced(hub, c);
      c
    }
  }

  /** The arcs after the replacement. */
  ghost predicate SplicedArc(a: Arcs, s: Site, x: Id, y: Id) {
    || ((x, y) in a && x != s.hub && y != s.hub)
    || (exists c, d :: (c, d) in s.inner && x == Namespaced(s.hub, c) && y == Namespaced(s.hub, d))
    || ((x, s.hub) in a && exists c :: c in s.entries && y == Namespaced(s.hub, c))
    || ((s.hub, y) in a && exists c :: c in s.exits && x == Namespaced(s.hub, c))
  }

  ghost predicate IsSplice(a: Arcs, s: Site, a': Arcs) {
    forall x, y :: (x, y) in a' <==> SplicedArc(a, s, x, y)
  }

  /** No image is already in use. */
  ghost predicate Fresh(a: Arcs, s: Site) {
    forall x, y :: (x, y) in a ==> !s.IsImage(x) && !s.IsImage(y)
  }

  lemma SameNamespace(hub: Id, c: Id, d: Id)
    requires Namespaced(hub, c) == Namespaced(hub, d)
    ensures c == d
  {
    assert Namespaced(hub, c)[|hub| + 2..] == c && Namespaced(hub, d)[|hub| + 2..] == d;
  }

  // ----- forwards: a walk through the hub becomes a walk through the sub-graph -----

  /** In an acyclic graph every node is reached from a node without predecessors. */
  lemma {:induction false} ReachedFromEntry(s: Site, rank: Id -> nat, x: Id) returns (e: Id)
    requires s.Valid() && s.Rooted() && Ranked(s.inner, rank) && x in s.nodes
    ensures e in s.entries && Reach(s.inner, e, x)
    decreases rank(x)
  {
    if d :| d in s.nodes && (d, x) in s.inner {
      e := ReachedFromEntry(s, rank, d);
      ReachStep(s.inner, d, x);
      ReachTrans(s.inner, e, d, x);
    } else {
      e := x;
      ReachSelf(s.inner, x);
    }
  }

  lemma RootedIsCrossable(s: Site)
    requires s.Valid() && s.Rooted()
    ensures s.Crossable() && forall x :: x in s.exits ==> exists e :: e in s.entries && Reach(s.inner, e, x)
  {
    var rank := AcyclicHasRank(s.inner);
    forall x | x in s.exits ensures exists e :: e in s.entries && Reach(s.inner, e, x) {
      var e := ReachedFromEntry(s, rank, x);
    }
    var x :| x in s.exits;
  }

  lemma {:induction false} InnerWalk(a: Arcs, s: Site, a': Arcs, c: Id, d: Id, p: seq<Id>)
    requires IsSplice(a, s, a') && IsPath(s.inner, c, d, p)
    ensures Reach(a', Namespaced(s.hub, c), Namespaced(s.hub, d))
    decreases |p|
  {
    ReachSelf(a', Namespaced(s.hub, c));
    if |p| > 1 {
      assert (p[0], p[1]) in s.inner;
      assert SplicedArc(a, s, Namespaced(s.hub, c), Namespaced(s.hub, p[1]));
      ReachStep(a', Namespaced(s.hub, c), Namespaced(s.hub, p[1]));
      SubPath(s.inner, c, d, p, 1, |p| - 1);
      InnerWalk(a, s, a', p[1], d, p[1..|p|]);
      ReachTrans(a', Namespaced(s.hub, c), Namespaced(s.hub, p[1]), Namespaced(s.hub, d));
    }
  }

  lemma AcrossHub(a: Arcs, s: Site, a': Arcs, u: Id, v: Id)
    requires s.Crossable() && IsSplice(a, s, a') && (u, s.hub) in a && (s.hub, v) in a
    ensures Reach(a', u, v)
  {
    var e, x :| e in s.entries && x in s.exits && Reach(s.inner, e, x);
    var p :| IsPath(s.inner, e, x, p);
    InnerWalk(a, s, a', e, x, p);
    var e', x' := Namespaced(s.hub, e), Namespaced(s.hub, x);
    assert SplicedArc(a, s, u, e') && SplicedArc(a, s, x', v);
    ReachStep(a', u, e');
    ReachStep(a', x', v);
    ReachTrans(a', u, e', x');
    ReachTrans(a', u, x', v);
  }

  lemma {:induction false} SpliceKeepsWalk(a: Arcs, s: Site, a': Arcs, u: Id, v: Id, p: seq<Id>)
    requires s.Crossable() && IsSplice(a, s, a') && (s.hub, s.hub) !in a
    requires IsPath(a, u, v, p) && u != s.hub && v != s.hub
    ensures Reach(a', u, v)
    decreases |p|
  {
    ReachSelf(a', u);
    if |p| > 1 {
      assert (p[0], p[1]) in a;
      var k := 1;
      if p[1] == s.hub {
        assert (p[1], p[2]) in a;
        k := 2;
        AcrossHub(a, s, a', u, p[2]);
      } else {
        assert SplicedArc(a, s, u, p[1]);
        ReachStep(a', u, p[1]);
      }
      SubPath(a, u, v, p, k, |p| - 1);
      SpliceKeepsWalk(a, s, a', p[k], v, p[k..|p|]);
      ReachTrans(a', u, p[k], v);
    }
  }

  // ----- backwards: the sub-graph collapses onto the hub -----

  ghost function Collapse(s: Site, x: Id): Id {
    if s.IsImage(x) then s.hub else x
  }

  lemma CollapseArc(a: Arcs, s: Site, a': Arcs, x: Id, y: Id)
    requires s.Valid() && IsSplice(a, s, a') && Fresh(a, s) && (x, y) in a'
    ensures Reach(a, Collapse(s, x), Collapse(s, y))
  {
    assert SplicedArc(a, s, x, y);
    ReachSelf(a, s.hub);
    if (Collapse(s, x), Collapse(s, y)) in a {
      ReachStep(a, Collapse(s, x), Collapse(s, y));
    }
  }

  lemma {:induction false} CollapseWalk(a: Arcs, s: Site, a': Arcs, u: Id, v: Id, p: seq<Id>)
    requires s.Valid() && IsSplice(a, s, a') && Fresh(a, s) && IsPath(a', u, v, p)
    ensures Reach(a, Collapse(s, u), Collapse(s, v))
    decreases |p|
  {
    ReachSelf(a, Collapse(s, u));
    if |p| > 1 {
      assert (p[0], p[1]) in a';
      CollapseArc(a, s, a', p[0], p[1]);
      SubPath(a', u, v, p, 1, |p| - 1);
      CollapseWalk(a, s, a', p[1], v, p[1..|p|]);
      ReachTrans(a, Collapse(s, u), Collapse(s, p[1]), Collapse(s, v));
    }
  }

  /** Splicing preserves and reflects reachability between the nodes it leaves alone. */
  lemma SpliceReach(a: Arcs, s: Site, a': Arcs, u: Id, v: Id)
    requires s.Valid() && s.Crossable() && IsSplice(a, s, a') && Fresh(a, s) && (s.hub, s.hub) !in a
    requires u != s.hub && v != s.hub && !s.IsImage(u) && !s.IsImage(v)
    ensures Reach(a', u, v) <==> Reach(a, u, v)
  {
    if Reach(a, u, v) {
      var p :| IsPath(a, u, v, p);
      SpliceKeepsWalk(a, s, a', u, v, p);
    }
    if Reach(a', u, v) {
      var p :| IsPath(a', u, v, p);
      CollapseWalk(a, s, a', u, v, p);
    }
  }

  // ----- a sub-graph one cannot get through -----

  /** The arcs that do not touch `hub`. */
  ghost function Off(a: Arcs, hub: Id): Arcs {
    set e | e in a && e.0 != hub && e.1 != hub
  }

  /** From an image that an entry leads to there is no way out. */
  lemma {:induction false} NoWayOut(a: Arcs, s: Site, a': Arcs, e: Id, c: Id, v: Id, p: seq<Id>)
    requires s.Valid() && !s.Crossable() && IsSplice(a, s, a') && Fresh(a, s) && (s.hub, s.hub) !in a
    requires !s.IsImage(s.hub)
    requires e in s.entries && c in s.nodes && Reach(s.inner, e, c) && IsPath(a', Namespaced(s.hub, c), v, p)
    ensures s.IsImage(v)
    decreases |p|
  {
    assert s.IsImage(Namespaced(s.hub, c));
    if |p| > 1 {
      assert (p[0], p[1]) in a' && SplicedArc(a, s, p[0], p[1]);
      if c', d :| (c', d) in s.inner && p[0] == Namespaced(s.hub, c') && p[1] == Namespaced(s.hub, d) {
        SameNamespace(s.hub, c, c');
        ReachStep(s.inner, c, d);
        ReachTrans(s.inner, e, c, d);
        SubPath(a', Namespaced(s.hub, c), v, p, 1, |p| - 1);
        NoWayOut(a, s, a', e, d, v, p[1..|p|]);
      } else {
        var x :| x in s.exits && p[0] == Namespaced(s.hub, x);
        SameNamespace(s.hub, c, x);
      }
    }
  }

  lemma {:induction false} BlockedWalk(a: Arcs, s: Site, a': Arcs, u: Id, v: Id, p: seq<Id>)
    requires s.Valid() && !s.Crossable() && IsSplice(a, s, a') && Fresh(a, s) && (s.hub, s.hub) !in a
    requires !s.IsImage(s.hub)
    requires IsPath(a', u, v, p) && u != s.hub && v != s.hub && !s.IsImage(u) && !s.IsImage(v)
    ensures Reach(Off(a, s.hub), u, v)
    decreases |p|
  {
    var off := Off(a, s.hub);
    ReachSelf(off, u);
    if |p| > 1 {
      assert (p[0], p[1]) in a' && SplicedArc(a, s, p[0], p[1]);
      SubPath(a', u, v, p, 1, |p| - 1);
      if e :| e in s.entries && p[1] == Namespaced(s.hub, e) {
        ReachSelf(s.inner, e);
        NoWayOut(a, s, a', e, e, v, p[1..|p|]);
      } else {
        ReachStep(off, u, p[1]);
        BlockedWalk(a, s, a', p[1], v, p[1..|p|]);
        ReachTrans(off, u, p[1], v);
      }
    }
  }

  lemma OffWalk(a: Arcs, s: Site, a': Arcs, u: Id, v: Id, p: seq<Id>)
    requires IsSplice(a, s, a') && IsPath(Off(a, s.hub), u, v, p)
    ensures Reach(a', u, v)
  {
    forall i | 0 <= i < |p| - 1 ensures (p[i], p[i + 1]) in a' {
      assert (p[i], p[i + 1]) in Off(a, s.hub) && SplicedArc(a, s, p[i], p[i + 1]);
    }
    assert IsPath(a', u, v, p);
  }

  /** Splicing in a sub-graph that no entry crosses to an exit cuts exactly the paths through the hub. */
  lemma BlockedSplice(a: Arcs, s: Site, a': Arcs, u: Id, v: Id)
    requires s.Valid() && !s.Crossable() && IsSplice(a, s, a') && Fresh(a, s) && (s.hub, s.hub) !in a
    requires !s.IsImage(s.hub)
    requires u != s.hub && v != s.hub && !s.IsImage(u) && !s.IsImage(v)
    ensures Reach(a', u, v) <==> Reach(Off(a, s.hub), u, v)
  {
    if Reach(a', u, v) {
      var p :| IsPath(a', u, v, p);
      BlockedWalk(a, s, a', u, v, p);
    }
    if Reach(Off(a, s.hub), u, v) {
      var p :| IsPath(Off(a, s.hub), u, v, p);
      OffWalk(a, s, a', u, v, p);
    }
  }

  // ----- ranks: the sub-graph fits between two consecutive parent ranks -----

  lemma LexicographicStep(i: nat, j: nat, k: nat, width: nat)
    requires i < j && k < width
    ensures i * width + k < j * width
  {
    assert (i + 1) * width <= j * width;
  }

  lemma {:induction false} RankBound(rank: Id -> nat, nodes: set<Id>) returns (width: nat)
    ensures width > 0 && forall x :: x in nodes ==> rank(x) < width
    decreases nodes
  {
    if nodes == {} {
      width := 1;
    } else {
      var x :| x in nodes;
      var rest := RankBound(rank, nodes - {x});
      width := rest + rank(x) + 1;
    }
  }

  ghost function SpliceRank(s: Site, outer: Id -> nat, inner: Id -> nat, width: nat): Id -> nat {
    x => if s.IsImage(x) then outer(s.hub) * width + inner(s.Preimage(x)) else outer(x) * width
  }

  /** `full` may hold more arcs than `a` (dependencies); `full'` holds what is left of them
      plus arcs between images. */
  lemma SpliceKeepsRank(full: Arcs, s: Site, inner: Arcs, full': Arcs, outerRank: Id -> nat)
    returns (rank: Id -> nat)
    requires Ranked(full, outerRank) && Acyclic(inner) && Within(inner, s.nodes) && s.exits <= s.nodes
    requires s.entries <= s.nodes
    requires Fresh(full, s) && !s.IsImage(s.hub)
    requires forall x, y :: (x, y) in full' ==>
               || (x, y) in full
               || (exists c, d :: (c, d) in inner && x == Namespaced(s.hub, c) && y == Namespaced(s.hub, d))
               || ((x, s.hub) in full && s.IsImage(y))
               || ((s.hub, y) in full && s.IsImage(x))
    ensures Ranked(full', rank)
  {
    var innerRank := AcyclicHasRank(inner);
    var width := RankBound(innerRank, s.nodes);
    rank := SpliceRank(s, outerRank, innerRank, width);
    forall x, y | (x, y) in full' ensures rank(x) < rank(y) {
      if (x, y) in full {
        LexicographicStep(outerRank(x), outerRank(y), 0, width);
      } else if (x, s.hub) in full && s.IsImage(y) {
        LexicographicStep(outerRank(x), outerRank(s.hub), 0, width);
      } else if (s.hub, y) in full && s.IsImage(x) {
        LexicographicStep(outerRank(s.hub), outerRank(y), innerRank(s.Preimage(x)), width);
      } else {
        var c, d :| (c, d) in inner && x == Namespaced(s.hub, c) && y == Namespaced(s.hub, d);
        SameNamespace(s.hub, c, s.Preimage(x));
        SameNamespace(s.hub, d, s.Preimage(y));
      }
    }
  }
}
