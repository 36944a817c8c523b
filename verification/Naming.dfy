/** The `__` join that names Arcade children (aqueduct/compiler/expander.py, parser/schema.py). */
module Naming {
  import opened Digraph

  /** Two adjacent underscores occur in `s`. */
  predicate HasDouble(s: Id) {
    exists i :: 0 <= i < |s| - 1 && s[i] == '_' && s[i + 1] == '_'
  }

  /** What the schema demands of a module id. */
  predicate ValidName(s: Id) {
    s != "" && !HasDouble(s)
  }

  /** The name of a child inside an Arcade. */
  function Namespaced(ns: Id, child: Id): Id {
    ns + "__" + child
  }

  // ----- when two joins coincide -----

  /** `b` is `a` with one underscore moved across the join. */
  predicate Shifted(ns: Id, child: Id, ns': Id, child': Id) {
    ns == ns' + "_" && child' == "_" + child
  }

  lemma MuchLongerChild(ns: Id, child: Id, ns': Id, child': Id)
    requires Namespaced(ns, child) == Namespaced(ns', child') && |child| + 2 <= |child'|
    ensures HasDouble(child')
  {
    var s, k := Namespaced(ns, child), |child'| - |child|;
    assert s[|s| - |child'|..] == child';
    assert child'[k - 2] == s[|s| - |child| - 2] == '_';
    assert child'[k - 2 + 1] == s[|s| - |child| - 1] == '_';
  }

  lemma LongerChild(ns: Id, child: Id, ns': Id, child': Id)
    requires Namespaced(ns, child) == Namespaced(ns', child') && !HasDouble(child') && |child| < |child'|
    ensures Shifted(ns, child, ns', child')
  {
    if |child| + 2 <= |child'| {
      MuchLongerChild(ns, child, ns', child');
    }
    var s := Namespaced(ns, child);
    assert s[|s| - |child'|..] == child' && s[|s| - |child|..] == child;
    assert child' == [child'[0]] + child'[1..] && child'[1..] == s[|s| - |child|..];
    assert ns' + "_" == s[..|ns'| + 1] && ns == s[..|ns|];
  }

  /** The join is injective up to one underscore that can be read as the end of the
      Arcade's id or as the start of the child's; no other two pairs collide. */
  lemma JoinCollision(ns: Id, child: Id, ns': Id, child': Id)
    requires !HasDouble(child) && !HasDouble(child')
    ensures Namespaced(ns, child) == Namespaced(ns', child') <==>
            || (ns == ns' && child == child')
            || Shifted(ns, child, ns', child')
            || Shifted(ns', child', ns, child)
  {
    var s, s' := Namespaced(ns, child), Namespaced(ns', child');
    if Shifted(ns, child, ns', child') || Shifted(ns', child', ns, child) {
      assert s == s';
    }
    if s == s' {
      if |child| < |child'| {
        LongerChild(ns, child, ns', child');
      } else if |child'| < |child| {
        LongerChild(ns', child', ns, child);
      } else {
        assert s[|s| - |child|..] == child && s[|s| - |child|..] == child';
        assert s[..|ns|] == ns && s[..|ns|] == ns';
      }
    }
  }

  // ----- how many joins an id contains -----

  /** Reads an id from the left: joins seen so far, and the length of the current underscore run.
      A run of length 3j-1, 3j or 3j+1 holds j joins (with j-1 names "_" squeezed between them). */
  function Scan(s: Id): (nat, nat) {
    if s == "" then (0, 0) else
    var (joins, run) := Scan(s[..|s| - 1]);
    if s[|s| - 1] == '_' then (if (run + 1) % 3 == 2 then joins + 1 else joins, run + 1) else (joins, 0)
  }

  function Joins(s: Id): nat {
    Scan(s).0
  }

  /** `s` does not stop in the middle of a join. */
  predicate Settled(s: Id) {
    Scan(s).1 % 3 != 2
  }

  lemma ScanAppendChar(s: Id, c: char)
    ensures var (joins, run) := Scan(s);
            Scan(s + [c]) == if c == '_' then (if (run + 1) % 3 == 2 then joins + 1 else joins, run + 1) else (joins, 0)
  {
  }

  lemma InitHasNoDouble(s: Id)
    requires s != "" && !HasDouble(s)
    ensures !HasDouble(s[..|s| - 1])
    ensures |s| >= 2 ==> !(s[|s| - 2] == '_' && s[|s| - 1] == '_')
  {
  }

  lemma {:induction false} ScanName(s: Id)
    requires !HasDouble(s)
    ensures Scan(s) == (0, if s != "" && s[|s| - 1] == '_' then 1 else 0)
  {
    if s != "" {
      InitHasNoDouble(s);
      ScanName(s[..|s| - 1]);
    }
  }

  /** Reading a name after `prefix`, whose trailing run leaves remainder 2: no further join appears. */
  lemma {:induction false} ScanNameAfter(prefix: Id, s: Id)
    requires !HasDouble(s) && (Scan(prefix).1 % 3 == 2 || Scan(prefix).1 % 3 == 0)
    ensures Joins(prefix + s) == Joins(prefix)
    ensures Scan(prefix + s).1 == if s == "" then Scan(prefix).1
                                  else if s == "_" then Scan(prefix).1 + 1
                                  else if s[|s| - 1] == '_' then 1 else 0
  {
    if s == "" {
      assert prefix + s == prefix;
    } else {
      var init := s[..|s| - 1];
      InitHasNoDouble(s);
      ScanNameAfter(prefix, init);
      assert prefix + s == (prefix + init) + [s[|s| - 1]];
      ScanAppendChar(prefix + init, s[|s| - 1]);
      assert |s| == 1 && s[0] == '_' ==> s == "_";
    }
  }

  /** Joining adds exactly one join, whatever underscores surround it: the nesting
      level of an expanded id can be read off the id. */
  lemma JoinAddsOne(ns: Id, child: Id)
    requires Settled(ns) && ValidName(child)
    ensures Settled(Namespaced(ns, child)) && Joins(Namespaced(ns, child)) == Joins(ns) + 1
  {
    ScanAppendChar(ns, '_');
    ScanAppendChar(ns + "_", '_');
    var stem := ns + "_" + "_";
    assert ns + "__" == stem && Namespaced(ns, child) == stem + child;
    ScanNameAfter(stem, child);
  }
}
