/** Result types shared by every component. */
module Common {

  datatype Option<+T> = None | Some(value: T)

  /** A value, or the exception the Python code raises. */
  datatype Result<+T, +E> = Ok(value: T) | Err(error: E)

  ghost predicate Distinct<T>(s: seq<T>) {
    forall i, j :: 0 <= i < j < |s| ==> s[i] != s[j]
  }

  function Elems<T>(s: seq<T>): set<T> {
    set x | x in s
  }

  lemma DistinctPrefix<T>(s: seq<T>, rest: seq<T>)
    requires Distinct(s + rest)
    ensures Distinct(s)
  {
    assert forall i :: 0 <= i < |s| ==> (s + rest)[i] == s[i];
  }

  /** A duplicate-free sequence over a finite set is no longer than the set. */
  lemma {:induction false} DistinctLength<T>(s: seq<T>, v: set<T>)
    requires Distinct(s) && forall x :: x in s ==> x in v
    ensures |s| <= |v|
  {
    if s != [] {
      var last := s[|s| - 1];
      DistinctLength(s[..|s| - 1], v - {last});
    }
  }
}
