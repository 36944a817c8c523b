/** Finite directed graphs over module ids: paths, cycles, ranks. */
module Digraph {
  import opened Common

  type Id = string
  type Arcs = set<(Id, Id)>

  /** `p` is a walk from `u` to `v`; the one-element walk stands still. */
  ghost predicate IsPath(a: Arcs, u: Id, v: Id, p: seq<Id>) {
    && |p| >= 1 && p[0] == u && p[|p| - 1] == v
    && forall i :: 0 <= i < |p| - 1 ==> (p[i], p[i + 1]) in a
  }

  ghost predicate Reach(a: Arcs, u: Id, v: Id) {
    exists p :: IsPath(a, u, v, p)
  }

  /** `u` lies on a cycle: some walk of at least one step returns to it. */
  ghost predicate OnCycle(a: Arcs, u: Id) {
    exists p :: IsPath(a, u, u, p) && |p| >= 2
  }

  ghost predicate Acyclic(a: Arcs) {
    forall u :: !OnCycle(a, u)
  }

  ghost predicate Ranked(a: Arcs, rank: Id -> nat) {
    forall u, v :: (u, v) in a ==> rank(u) < rank(v)
  }

  ghost predicate Within(a: Arcs, nodes: set<Id>) {
    forall u, v :: (u, v) in a ==> u in nodes && v in nodes
  }

  function Endpoints(a: Arcs): set<Id> {
    (set e | e in a :: e.0) + (set e | e in a :: e.1)
  }

  lemma ReachSelf(a: Arcs, u: Id)
    ensures Reach(a, u, u)
  {
    assert IsPath(a, u, u, [u]);
  }

  lemma JoinPaths(a: Arcs, u: Id, v: Id, w: Id, p: seq<Id>, q: seq<Id>)
    requires IsPath(a, u, v, p) && IsPath(a, v, w, q)
    ensures IsPath(a, u, w, p + q[1..])
  {
  }

  lemma ReachTrans(a: Arcs, u: Id, v: Id, w: Id)
    requires Reach(a, u, v) && Reach(a, v, w)
    ensures Reach(a, u, w)
  {
    var p :| IsPath(a, u, v, p);
    var q :| IsPath(a, v, w, q);
    JoinPaths(a, u, v, w, p, q);
  }

  lemma ReachStep(a: Arcs, u: Id, v: Id)
    requires (u, v) in a
    ensures Reach(a, u, v)
  {
    assert IsPath(a, u, v, [u, v]);
  }

  /** A set no arc leaves confines every walk that starts in it. */
  lemma {:induction false} Confined(a: Arcs, s: set<Id>, u: Id, v: Id, p: seq<Id>)
    requires IsPath(a, u, v, p) && u in s && forall x, y :: (x, y) in a && x in s ==> y in s
    ensures v in s
    decreases |p|
  {
    if |p| > 1 {
      assert (p[0], p[1]) in a;
      SubPath(a, u, v, p, 1, |p| - 1);
      Confined(a, s, p[1], v, p[1..|p|]);
    }
  }

  lemma SubPath(a: Arcs, u: Id, v: Id, p: seq<Id>, i: nat, j: nat)
    requires IsPath(a, u, v, p) && i <= j < |p|
    ensures IsPath(a, p[i], p[j], p[i..j + 1])
  {
  }

  lemma {:induction false} RankAlong(a: Arcs, rank: Id -> nat, u: Id, v: Id, p: seq<Id>)
    requires Ranked(a, rank) && IsPath(a, u, v, p)
    ensures rank(u) + |p| - 1 <= rank(v)
    decreases |p|
  {
    if |p| > 1 {
      assert (p[0], p[1]) in a;
      SubPath(a, u, v, p, 1, |p| - 1);
      RankAlong(a, rank, p[1], v, p[1..|p|]);
    }
  }

  lemma RankedIsAcyclic(a: Arcs, rank: Id -> nat)
    requires Ranked(a, rank)
    ensures Acyclic(a)
  {
    forall u | OnCycle(a, u) ensures false {
      var p :| IsPath(a, u, u, p) && |p| >= 2;
      RankAlong(a, rank, u, u, p);
    }
  }

  ghost predicate HasPredecessor(a: Arcs, s: set<Id>, v: Id) {
    exists u :: u in s && (u, v) in a
  }

  /** Every member of `s` has a predecessor in `s`. */
  ghost predicate Backed(a: Arcs, s: set<Id>) {
    forall v :: v in s ==> HasPredecessor(a, s, v)
  }

  /** Walking backwards `n` steps inside a backed set. */
  lemma WalkBack(a: Arcs, s: set<Id>, x: Id, n: nat) returns (p: seq<Id>)
    requires x in s && Backed(a, s)
    ensures |p| == n + 1 && IsPath(a, p[0], x, p)
    ensures forall i :: 0 <= i < |p| ==> p[i] in s
  {
    p := [x];
    for k := 0 to n
      invariant |p| == k + 1 && IsPath(a, p[0], x, p)
      invariant forall i :: 0 <= i < |p| ==> p[i] in s
    {
      assert HasPredecessor(a, s, p[0]);
      var u :| u in s && (u, p[0]) in a;
      p := [u] + p;
    }
  }

  /** A set in which everybody has a predecessor hangs below a cycle. */
  lemma PredecessorsGiveCycle(a: Arcs, s: set<Id>, x: Id) returns (c: Id)
    requires x in s && Backed(a, s)
    ensures c in s && OnCycle(a, c) && Reach(a, c, x)
  {
    var p := WalkBack(a, s, x, |s|);
    if Distinct(p) {
      DistinctLength(p, s);
    }
    var i, j :| 0 <= i < j < |p| && p[i] == p[j];
    c := p[i];
    SubPath(a, p[0], x, p, i, j);
    SubPath(a, p[0], x, p, i, |p| - 1);
  }

  /** Every acyclic relation has a rank on every finite set of nodes. */
  lemma {:induction false} RankOn(a: Arcs, nodes: set<Id>) returns (rank: Id -> nat)
    requires Acyclic(a)
    ensures forall u, v :: (u, v) in a && u in nodes && v in nodes ==> rank(u) < rank(v)
    decreases nodes
  {
    if nodes == {} {
      rank := x => 0;
    } else {
      if Backed(a, nodes) {
        var x :| x in nodes;
        var c := PredecessorsGiveCycle(a, nodes, x);
      }
      var s :| s in nodes && !HasPredecessor(a, nodes, s);
      var rest := RankOn(a, nodes - {s});
      rank := x => if x == s then 0 else rest(x) + 1;
    }
  }

  lemma AcyclicHasRank(a: Arcs) returns (rank: Id -> nat)
    requires Acyclic(a)
    ensures Ranked(a, rank)
  {
    rank := RankOn(a, Endpoints(a));
    forall u, v | (u, v) in a ensures rank(u) < rank(v) {
      assert (u, v).0 in Endpoints(a) && (u, v).1 in Endpoints(a);
    }
  }
}
