/** Context dictionaries as they sit in memory: nested, updated in place, and shared with the patch that inserted
    them. */
module SharedDicts {
  import opened Common
  import opened PatchModel

  /** What a dictionary holds under a key: another dictionary, by reference, or any other value. */
  datatype Node = Plain(v: Value) | Ref(cell: DictCell)

  class DictCell {
    var entries: map<string, Node>
    ghost var repr: set<DictCell> // this cell and everything below it
    ghost var view: Fields        // the dictionary it stands for

    ghost predicate Valid()
      reads this, repr
      decreases repr
    {
      && this in repr
      && (forall k :: k in entries && entries[k].Ref? ==>
                        && entries[k].cell in repr && entries[k].cell.repr <= repr
                        && this !in entries[k].cell.repr && entries[k].cell.Valid())
      && (forall j, k :: j in entries && k in entries && j != k && entries[j].Ref? && entries[k].Ref? ==>
                           entries[j].cell.repr !! entries[k].cell.repr)
      && (forall k :: k in entries && entries[k].Plain? ==> !entries[k].v.Dict?)
      && view.Keys == entries.Keys
      && (forall k :: k in entries ==> view[k] == Meaning(entries[k]))
    }

    constructor ()
      ensures Valid() && repr == {this} && entries == map[] && view == map[]
    {
      entries, repr, view := map[], {this}, map[];
    }

    /** Assignment under a key. */
    method Put(k: string, n: Node)
      requires Valid() && Sound(n) && Repr(n) !! repr
      modifies `entries, `view, `repr
      ensures Valid() && entries == old(entries)[k := n]
      ensures view == old(view)[k := old(Meaning(n))] && repr == old(repr) + old(Repr(n))
    {
      hide Valid;
      Shape(this);
      Around(this, k);
      if n.Ref? {
        Shape(n.cell);
      }
      entries := entries[k := n];
      assert ValidAround(this, k, repr) by {
        assert forall j :: j in entries && j != k ==> j in old(entries) && entries[j] == old(entries)[j];
        assert forall j :: j in entries && j != k && entries[j].Ref? ==>
                             entries[j].cell != this && entries[j].cell.Valid();
      }
      hide ValidAround;
      Refresh(k, repr);
    }

    /** Bookkeeping once something has been written under `k`. */
    ghost method Refresh(k: string, rest: set<DictCell>)
      requires ValidAround(this, k, rest) && k in entries && Sound(entries[k]) && Repr(entries[k]) !! rest
      modifies this`view, this`repr
      ensures Valid() && repr == rest + old(Repr(entries[k]))
      ensures view == old(view)[k := old(Meaning(entries[k]))]
    {
      hide Valid;
      if entries[k].Ref? {
        Shape(entries[k].cell);
      }
      view := view[k := Meaning(entries[k])];
      repr := rest + Repr(entries[k]);
      Close(this, k, rest);
    }
  }

  /** Everything that validity says except about key `k`, whose dictionary lies outside `rest`. */
  ghost predicate ValidAround(c: DictCell, k: string, rest: set<DictCell>)
    reads c, rest
  {
    && c in rest
    && (forall j :: j in c.entries && j != k && c.entries[j].Ref? ==>
                      && c.entries[j].cell in rest && c.entries[j].cell.repr <= rest
                      && c.entries[j].cell in c.entries[j].cell.repr && c !in c.entries[j].cell.repr
                      && c.entries[j].cell.Valid())
    && (forall i, j :: i in c.entries && j in c.entries && i != j && i != k && j != k
                       && c.entries[i].Ref? && c.entries[j].Ref? ==>
                         c.entries[i].cell.repr !! c.entries[j].cell.repr)
    && (forall j :: j in c.entries && j != k && c.entries[j].Plain? ==> !c.entries[j].v.Dict?)
    && c.view.Keys + {k} == c.entries.Keys + {k}
    && (forall j :: j in c.entries && j != k ==> c.view[j] == Meaning(c.entries[j]))
  }

  /** Validity, put together from what it says about one key and about the others. */
  lemma Close(c: DictCell, k: string, rest: set<DictCell>)
    requires ValidAround(c, k, rest) && k in c.entries && Sound(c.entries[k]) && Repr(c.entries[k]) !! rest
    requires k in c.view && c.view[k] == Meaning(c.entries[k]) && c.repr == rest + Repr(c.entries[k])
    ensures c.Valid()
  {
  }

  lemma Around(c: DictCell, k: string)
    requires c.Valid()
    ensures ValidAround(c, k, c.repr)
  {
  }

  ghost function Meaning(n: Node): Value
    reads if n.Ref? then {n.cell} else {}
  {
    if n.Ref? then Dict(n.cell.view) else n.v
  }

  ghost function Repr(n: Node): set<DictCell>
    reads if n.Ref? then {n.cell} else {}
  {
    if n.Ref? then n.cell.repr else {}
  }

  ghost predicate Sound(n: Node)
    reads if n.Ref? then {n.cell} + n.cell.repr else {}
  {
    if n.Ref? then n.cell.Valid() else !n.v.Dict?
  }

  lemma Shape(c: DictCell)
    requires c.Valid()
    ensures c in c.repr && c.view.Keys == c.entries.Keys
  {
  }

  /** What validity says about one key. */
  lemma Child(c: DictCell, k: string)
    requires c.Valid() && k in c.entries
    ensures Sound(c.entries[k]) && Repr(c.entries[k]) < c.repr
    ensures k in c.view && c.view[k] == Meaning(c.entries[k])
    ensures c.view.Keys == c.entries.Keys && c in c.repr && c !in Repr(c.entries[k])
  {
  }

  // ----- walking down -----

  /** The cell that a sequence of keys leads to. */
  ghost function Walk(c: DictCell, path: seq<string>): Option<DictCell>
    requires c.Valid()
    reads c, c.repr
    decreases |path|
  {
    if path == [] then Some(c)
    else if path[0] in c.entries && c.entries[path[0]].Ref? then Walk(c.entries[path[0]].cell, path[1..])
    else None
  }

  /** The cells from `c` to the one that holds the last key. */
  ghost function Chain(c: DictCell, parts: seq<string>): set<DictCell>
    requires c.Valid() && parts != []
    reads c, c.repr
    decreases |parts|
  {
    if |parts| > 1 && parts[0] in c.entries && c.entries[parts[0]].Ref?
    then {c} + Chain(c.entries[parts[0]].cell, parts[1..])
    else {c}
  }

  /** The cell that holds the last key, if the others lead to one. */
  ghost function Holder(c: DictCell, parts: seq<string>): Option<DictCell>
    requires c.Valid() && parts != []
    reads c, c.repr
    decreases |parts|
  {
    if |parts| == 1 then Some(c)
    else if parts[0] in c.entries && c.entries[parts[0]].Ref? then Holder(c.entries[parts[0]].cell, parts[1..])
    else None
  }

  lemma {:induction false} HolderIsWalked(c: DictCell, parts: seq<string>)
    requires c.Valid() && parts != []
    ensures Holder(c, parts) == Walk(c, parts[..|parts| - 1])
    ensures var h := Holder(c, parts); h.Some? ==> h.value in c.repr && h.value.Valid() && h.value.repr <= c.repr
    decreases |parts|
  {
    if |parts| > 1 && parts[0] in c.entries && c.entries[parts[0]].Ref? {
      HolderIsWalked(c.entries[parts[0]].cell, parts[1..]);
      assert parts[..|parts| - 1][1..] == parts[1..][..|parts[1..]| - 1];
    }
  }

  /** What a path reads is what its holder has under the last key. */
  lemma {:induction false} HolderReads(c: DictCell, parts: seq<string>)
    requires c.Valid() && parts != [] && Holder(c, parts).Some?
    ensures var h, last := Holder(c, parts).value, parts[|parts| - 1];
            Lookup(Dict(c.view), parts) == if last in h.entries then Some(Meaning(h.entries[last])) else None
    decreases |parts|
  {
    if |parts| > 1 {
      Child(c, parts[0]);
      HolderReads(c.entries[parts[0]].cell, parts[1..]);
    } else {
      Shape(c);
      if parts[0] in c.entries {
        Child(c, parts[0]);
      }
      assert parts[1..] == [];
    }
  }

  lemma {:induction false} WalkStaysInside(c: DictCell, path: seq<string>)
    requires c.Valid()
    ensures Walk(c, path).Some? ==> Walk(c, path).value in c.repr
    decreases |path|
  {
    if path != [] && path[0] in c.entries && c.entries[path[0]].Ref? {
      WalkStaysInside(c.entries[path[0]].cell, path[1..]);
    }
  }

  /** Every cell of the chain is reached by a proper prefix of the keys. */
  lemma {:induction false} ChainIsWalked(c: DictCell, parts: seq<string>, x: DictCell) returns (i: nat)
    requires c.Valid() && parts != [] && x in Chain(c, parts)
    ensures i < |parts| && Walk(c, parts[..i]) == Some(x)
    decreases |parts|
  {
    if x == c {
      i := 0;
    } else {
      var j := ChainIsWalked(c.entries[parts[0]].cell, parts[1..], x);
      i := j + 1;
      assert parts[..i][1..] == parts[1..][..j];
    }
  }

  // ----- updating and copying -----

  lemma Open(c: DictCell, k: string)
    requires c.Valid() && k in c.entries && c.entries[k].Ref?
    ensures ValidAround(c, k, c.repr - c.entries[k].cell.repr)
  {
  }

  /** `prefix <= path`, one key at a time. */
  ghost predicate Starts(path: seq<string>, prefix: seq<string>)
    decreases |prefix|
  {
    prefix == [] || (path != [] && path[0] == prefix[0] && Starts(path[1..], prefix[1..]))
  }

  lemma {:induction false} StartsIsPrefix(path: seq<string>, prefix: seq<string>)
    ensures Starts(path, prefix) <==> prefix <= path
    decreases |prefix|
  {
    if prefix != [] && path != [] {
      StartsIsPrefix(path[1..], prefix[1..]);
      assert prefix == [prefix[0]] + prefix[1..] && path == [path[0]] + path[1..];
    }
  }

  lemma FirstSteps(c: DictCell)
    requires c.Valid()
    ensures forall p :: Walk(c, p) == if p == [] then Some(c)
                                      else if p[0] in c.entries && c.entries[p[0]].Ref?
                                      then Walk(c.entries[p[0]].cell, p[1..])
                                      else None
  {
  }

  lemma BlockedBelow(c: DictCell, parts: seq<string>, v: Value)
    requires c.Valid() && |parts| > 1 && (parts[0] !in c.entries || c.entries[parts[0]].Plain?)
    ensures SetNested(c.view, parts, v).Err?
  {
    Shape(c);
    if parts[0] in c.entries {
      Child(c, parts[0]);
    }
  }

  lemma OneLevel(c: DictCell, parts: seq<string>, v: Value)
    requires c.Valid() && |parts| > 1 && parts[0] in c.entries && c.entries[parts[0]].Ref?
    ensures var child, rest := c.entries[parts[0]].cell, parts[1..];
            && child.Valid() && rest[|rest| - 1] == parts[|parts| - 1]
            && Chain(c, parts) == {c} + Chain(child, rest) && Holder(c, parts) == Holder(child, rest)
            && Lookup(Dict(c.view), parts) == Lookup(Dict(child.view), rest)
            && SetNested(c.view, parts, v) ==
               (var inner := SetNested(child.view, rest, v);
                if inner.Err? then inner else Ok(c.view[parts[0] := Dict(inner.value)]))
  {
    Shape(c);
    Child(c, parts[0]);
  }

  lemma FirstKeys(parts: seq<string>)
    requires parts != []
    ensures forall p :: Starts(p, parts) <==> p != [] && p[0] == parts[0] && Starts(p[1..], parts[1..])
  {
  }

  /** `_set_nested`: an in-place write below `c`. Only the cells on the way change, and no other path leads
      elsewhere. */
  method SetNestedAt(c: DictCell, parts: seq<string>, n: Node) returns (ok: bool)
    requires c.Valid() && Sound(n) && Repr(n) !! c.repr && parts != []
    modifies c.repr
    ensures ok == SetNested(old(c.view), parts, old(Meaning(n))).Ok?
    ensures !ok ==> forall x :: x in old(c.repr) ==> unchanged(x)
    ensures ok ==> c.Valid() && c.view == SetNested(old(c.view), parts, old(Meaning(n))).value
    ensures ok ==> c.repr == old(c.repr) + old(Repr(n))
    ensures ok ==> forall x :: x in old(c.repr) && x !in old(Chain(c, parts)) ==> unchanged(x)
    ensures ok ==> forall p :: !Starts(p, parts) ==> Walk(c, p) == old(Walk(c, p))
    ensures ok ==> forall p :: Starts(p, parts) && Walk(c, p).Some? ==> Walk(c, p).value in old(Repr(n))
    // one cell gets the value under the last key, all others keep their entries
    ensures ok ==> old(Holder(c, parts)).Some?
    ensures ok ==>
              forall x :: x in old(c.repr) ==>
                x.entries == if x == old(Holder(c, parts)).value then old(x.entries)[parts[|parts| - 1] := n]
                             else old(x.entries)
    // writing the value that is there already changes nothing at all
    ensures ok && n.Plain? && Lookup(Dict(old(c.view)), parts) == Some(n.v) ==>
              forall x :: x in old(c.repr) ==> unchanged(x)
    decreases |parts|, 1
  {
    hide DictCell.Valid, Walk, Starts;
    Shape(c);
    if |parts| == 1 {
      PutAt(c, parts, n);
      ok := true;
    } else {
      ok := SetBelow(c, parts, n);
    }
  }

  method SetBelow(c: DictCell, parts: seq<string>, n: Node) returns (ok: bool)
    requires c.Valid() && Sound(n) && Repr(n) !! c.repr && |parts| > 1
    modifies c.repr
    ensures ok == SetNested(old(c.view), parts, old(Meaning(n))).Ok?
    ensures !ok ==> forall x :: x in old(c.repr) ==> unchanged(x)
    ensures ok ==> c.Valid() && c.view == SetNested(old(c.view), parts, old(Meaning(n))).value
    ensures ok ==> c.repr == old(c.repr) + old(Repr(n))
    ensures ok ==> forall x :: x in old(c.repr) && x !in old(Chain(c, parts)) ==> unchanged(x)
    ensures ok ==> forall p :: !Starts(p, parts) ==> Walk(c, p) == old(Walk(c, p))
    ensures ok ==> forall p :: Starts(p, parts) && Walk(c, p).Some? ==> Walk(c, p).value in old(Repr(n))
    // one cell gets the value under the last key, all others keep their entries
    ensures ok ==> old(Holder(c, parts)).Some?
    ensures ok ==>
              forall x :: x in old(c.repr) ==>
                x.entries == if x == old(Holder(c, parts)).value then old(x.entries)[parts[|parts| - 1] := n]
                             else old(x.entries)
    // writing the value that is there already changes nothing at all
    ensures ok && n.Plain? && Lookup(Dict(old(c.view)), parts) == Some(n.v) ==>
              forall x :: x in old(c.repr) ==> unchanged(x)
    decreases |parts|, 0
  {
    hide DictCell.Valid, ValidAround, Walk, Starts, Chain, Holder, Lookup, SetNested;
    Shape(c);
    var part := parts[0];
    if part !in c.entries || c.entries[part].Plain? {
      BlockedBelow(c, parts, Meaning(n));
      return false;
    }
    FirstSteps(c);
    FirstKeys(parts);
    Child(c, part);
    OneLevel(c, parts, Meaning(n));
    Open(c, part);
    var child := c.entries[part].cell;
    ghost var rest := c.repr - child.repr;
    HolderIsWalked(child, parts[1..]);
    ok := SetNestedAt(child, parts[1..], n);
    if ok {
      c.Refresh(part, rest);
      FirstSteps(c);
      if n.Plain? && Lookup(Dict(old(c.view)), parts) == Some(n.v) {
        assert c.view == old(c.view) && c.repr == old(c.repr);
      }
    }
  }

  method PutAt(c: DictCell, parts: seq<string>, n: Node)
    requires c.Valid() && Sound(n) && Repr(n) !! c.repr && |parts| == 1
    modifies c`entries, c`view, c`repr
    ensures c.Valid() && c.view == old(c.view)[parts[0] := old(Meaning(n))]
    ensures c.repr == old(c.repr) + old(Repr(n))
    ensures forall p :: !Starts(p, parts) ==> Walk(c, p) == old(Walk(c, p))
    ensures forall p :: Starts(p, parts) && Walk(c, p).Some? ==> Walk(c, p).value in old(Repr(n))
    ensures c.entries == old(c.entries)[parts[0] := n]
    ensures n.Plain? && Lookup(Dict(old(c.view)), parts) == Some(n.v) ==> unchanged(c)
  {
    hide DictCell.Valid;
    Shape(c);
    HolderReads(c, parts);
    forall j | j in c.entries
      ensures Sound(c.entries[j]) && c !in Repr(c.entries[j]) && c.view[j] == Meaning(c.entries[j])
    {
      Child(c, j);
    }
    assert parts[1..] == [];
    c.Put(parts[0], n);
    if n.Plain? && Lookup(Dict(old(c.view)), parts) == Some(n.v) {
      assert c.entries == old(c.entries) && c.view == old(c.view) && c.repr == old(c.repr);
    }
    if n.Ref? {
      forall p | Starts(p, parts) && Walk(c, p).Some? ensures Walk(c, p).value in Repr(n) {
        WalkStaysInside(n.cell, p[1..]);
      }
    }
  }

  /** A deep copy. */
  method Copy(n: Node) returns (copy: Node)
    requires Sound(n)
    ensures Sound(copy) && fresh(Repr(copy)) && Meaning(copy) == Meaning(n)
    decreases Repr(n), 2
  {
    hide DictCell.Valid;
    if n.Plain? {
      return n;
    }
    var cell := CopyCell(n.cell);
    copy := Ref(cell);
  }

  method CopyCell(c: DictCell) returns (copy: DictCell)
    requires c.Valid()
    ensures copy.Valid() && fresh(copy.repr) && copy.view == c.view
    decreases c.repr, 1
  {
    hide DictCell.Valid, Meaning, Repr, Sound;
    Shape(c);
    copy := new DictCell();
    var left := c.entries.Keys;
    while left != {}
      invariant left <= c.entries.Keys == c.view.Keys
      invariant copy.Valid() && fresh(copy.repr)
      invariant copy.view.Keys == c.view.Keys - left
      invariant forall k :: k in copy.view ==> copy.view[k] == c.view[k]
      decreases |left|
    {
      var k :| k in left;
      CopyEntry(c, k, copy);
      left := left - {k};
    }
  }

  method CopyEntry(c: DictCell, k: string, into: DictCell)
    requires c.Valid() && k in c.entries && into.Valid() && into.repr !! c.repr
    modifies into
    ensures into.Valid() && fresh(into.repr - old(into.repr))
    ensures k in c.view && into.view == old(into.view)[k := c.view[k]]
    decreases c.repr, 0
  {
    hide DictCell.Valid;
    Child(c, k);
    var child := Copy(c.entries[k]);
    into.Put(k, child);
  }
}
