/**
 * Removing from the container (remove_node) under its two strategies:
 * RetainChildren splices a node out and hands its children to its parent;
 * RemoveNodeAndChildren removes the node together with everything below it.
 * Child links are edited through the node handles' add_child/remove_child.
 */
module Removal {
  import opened Arena
  import opened Descendants

  datatype NodeRemovalStrategy = RetainChildren | RemoveNodeAndChildren

  const RootRemovalMessage := "Cannot remove root node with RetainChildren strategy"

  /** Node::add_child through a stored parent handle: `c` becomes the last
      child of `p`, and `c` names `p` as its parent. */
  function AddChild<K(==), V>(t: seq<NodeRec<K, V>>, p: K, c: K): (u: seq<NodeRec<K, V>>)
    requires p in Ids(t) && c in Ids(t)
    ensures |u| == |t| && Ids(u) == Ids(t)
  {
    var t1 := Put(t, Rec(t, p).(children := Rec(t, p).children + [c]));
    Put(t1, Rec(t1, c).(parent := Some(p)))
  }

  /** Node::remove_child through the handle of `p` (which need not be stored
      any more): every occurrence of `c` leaves the child list of `p`, and
      `c` no longer has a parent. */
  function RemoveChild<K(==), V>(t: seq<NodeRec<K, V>>, p: K, c: K): (u: seq<NodeRec<K, V>>)
    ensures |u| == |t| && Ids(u) == Ids(t)
  {
    var t1 := if p in Ids(t) then Put(t, Rec(t, p).(children := Without(Rec(t, p).children, c))) else t;
    if c in Ids(t1) then Put(t1, Rec(t1, c).(parent := None)) else t1
  }

  // RetainChildren

  /** A record once `x` (child of `p`) is unlinked from `p` and the children
      in `moved` are handed to `p`. */
  function Relink<K(==), V>(r: NodeRec<K, V>, p: K, x: K, moved: seq<K>): (u: NodeRec<K, V>)
    ensures u.id == r.id && u.value == r.value
  {
    var r1 := if r.id == p then r.(children := Without(r.children, x) + moved) else r;
    if r1.id == x then r1.(parent := None)
    else if r1.id in moved then r1.(parent := Some(p))
    else r1
  }

  /** The store once `x` is unlinked from its parent and its first `k`
      children are handed to that parent (before `x` itself is dropped). */
  function Relinked<K(==), V>(s: seq<NodeRec<K, V>>, x: K, k: nat): (t: seq<NodeRec<K, V>>)
    requires x in Ids(s) && Rec(s, x).parent.Some? && k <= |Rec(s, x).children|
    ensures |t| == |s| && Ids(t) == Ids(s)
    ensures forall i :: 0 <= i < |s| ==>
      t[i] == Relink(s[i], Rec(s, x).parent.value, x, Rec(s, x).children[..k])
  {
    var p, cs := Rec(s, x).parent.value, Rec(s, x).children;
    var t := seq(|s|, i requires 0 <= i < |s| => Relink(s[i], p, x, cs[..k]));
    assert Ids(t) == Ids(s);
    t
  }

  /** The store after remove_node with RetainChildren, or its error: a node
      without a parent cannot be spliced out. */
  function RemoveRetainingChildren<K(==), V>(s: seq<NodeRec<K, V>>, x: K): (r: Result<seq<NodeRec<K, V>>>)
    requires x in Ids(s)
    requires Rec(s, x).parent.Some? ==> Rec(s, x).parent.value in Ids(s)
    requires Rec(s, x).parent.Some? ==> forall c :: c in Rec(s, x).children ==> c in Ids(s)
    ensures r.Err? <==> Rec(s, x).parent.None?
    ensures r.Err? ==> r.error == InvalidOperation(RootRemovalMessage)
  {
    if Rec(s, x).parent.None? then Err(InvalidOperation(RootRemovalMessage))
    else Ok(Drop(Spliced(s, x), {x}))
  }

  /** Unlinking `x` from its parent is the first state of the splice. */
  lemma RelinkedStart<K, V>(s: seq<NodeRec<K, V>>, x: K)
    requires Unique(s) && x in Ids(s) && Rec(s, x).parent.Some? && Rec(s, x).parent.value in Ids(s)
    ensures RemoveChild(s, Rec(s, x).parent.value, x) == Relinked(s, x, 0)
  {
    var p := Rec(s, x).parent.value;
    var t := Relinked(s, x, 0);
    var u := RemoveChild(s, p, x);
    var t1 := Put(s, Rec(s, p).(children := Without(Rec(s, p).children, x)));
    PutRec(s, Rec(s, p).(children := Without(Rec(s, p).children, x)), x);
    assert u == Put(t1, Rec(t1, x).(parent := None));
    forall i | 0 <= i < |s| ensures u[i] == t[i] {
      IxOf(s, i);
      assert Rec(s, x).children[..0] == [];
      assert Without(s[i].children, x) + [] == Without(s[i].children, x);
    }
  }

  /** Records of the splice state are found where they were, relinked. */
  lemma RelinkedRec<K, V>(s: seq<NodeRec<K, V>>, x: K, k: nat, m: K)
    requires Unique(s) && x in Ids(s) && Rec(s, x).parent.Some? && k <= |Rec(s, x).children|
    requires m in Ids(s)
    ensures Unique(Relinked(s, x, k)) && m in Ids(Relinked(s, x, k))
    ensures Ix(Relinked(s, x, k), m) == Ix(s, m)
    ensures Rec(Relinked(s, x, k), m)
      == Relink(Rec(s, m), Rec(s, x).parent.value, x, Rec(s, x).children[..k])
  {
    var t := Relinked(s, x, k);
    assert Unique(t) by {
      forall i, j | 0 <= i < j < |t| ensures IdAt(t, i) != IdAt(t, j) {
        assert IdAt(s, i) != IdAt(s, j);
        assert t[i].id == s[i].id && t[j].id == s[j].id;
      }
    }
  }

  /** AddChild, record by record. */
  lemma AddChildAt<K, V>(t: seq<NodeRec<K, V>>, p: K, c: K, i: int)
    requires Unique(t) && p in Ids(t) && c in Ids(t) && 0 <= i < |t|
    ensures AddChild(t, p, c)[i]
      == var r := if i == Ix(t, p) then t[i].(children := t[i].children + [c]) else t[i];
         if i == Ix(t, c) then r.(parent := Some(p)) else r
  {
    var pr := Rec(t, p).(children := Rec(t, p).children + [c]);
    var t1 := Put(t, pr);
    PutRec(t, pr, c);
  }

  /** RemoveChild, record by record: only the stored records of `p` and `c`
      change, and a missing one is skipped. */
  lemma RemoveChildAt<K, V>(t: seq<NodeRec<K, V>>, p: K, c: K, i: int)
    requires Unique(t) && p != c && 0 <= i < |t|
    ensures RemoveChild(t, p, c)[i]
      == if p in Ids(t) && i == Ix(t, p) then t[i].(children := Without(t[i].children, c))
         else if c in Ids(t) && i == Ix(t, c) then t[i].(parent := None)
         else t[i]
  {
    if p in Ids(t) {
      var pr := Rec(t, p).(children := Without(Rec(t, p).children, c));
      if c in Ids(t) {
        PutRec(t, pr, c);
      }
    }
  }

  /** Relink with one more moved child `c`: the parent's record gains `c`,
      `c` gains the parent, and every other record is as before. */
  lemma RelinkMore<K, V>(r: NodeRec<K, V>, p: K, x: K, moved: seq<K>, c: K)
    requires c != x
    ensures Relink(r, p, x, moved + [c])
      == var u := Relink(r, p, x, moved);
         var u1 := if r.id == p then u.(children := u.children + [c]) else u;
         if r.id == c then u1.(parent := Some(p)) else u1
  {
    if r.id == p {
      assert Without(r.children, x) + (moved + [c]) == Without(r.children, x) + moved + [c];
    }
  }

  ghost predicate StepReady<K, V>(s: seq<NodeRec<K, V>>, x: K, k: nat)
  {
    && Unique(s) && x in Ids(s) && Rec(s, x).parent.Some? && k < |Rec(s, x).children|
    && Rec(s, x).parent.value in Ids(s) && Rec(s, x).children[k] in Ids(s)
    && Rec(s, x).children[k] != x
  }

  lemma RelinkedStepAt<K, V>(s: seq<NodeRec<K, V>>, x: K, k: nat, i: int)
    requires StepReady(s, x, k) && 0 <= i < |s|
    ensures AddChild(Relinked(s, x, k), Rec(s, x).parent.value, Rec(s, x).children[k])[i]
      == Relinked(s, x, k + 1)[i]
  {
    var p, cs := Rec(s, x).parent.value, Rec(s, x).children;
    var c := cs[k];
    assert cs[..k + 1] == cs[..k] + [c];
    var t := Relinked(s, x, k);
    RelinkedRec(s, x, k, p);
    RelinkedRec(s, x, k, c);
    IxOf(s, i);
    AddChildAt(t, p, c, i);
    RelinkMore(s[i], p, x, cs[..k], c);
  }

  lemma RelinkedStepCore<K, V>(s: seq<NodeRec<K, V>>, x: K, k: nat)
    requires StepReady(s, x, k)
    ensures AddChild(Relinked(s, x, k), Rec(s, x).parent.value, Rec(s, x).children[k])
      == Relinked(s, x, k + 1)
  {
    var v := AddChild(Relinked(s, x, k), Rec(s, x).parent.value, Rec(s, x).children[k]);
    var u := Relinked(s, x, k + 1);
    forall i | 0 <= i < |s| ensures v[i] == u[i] {
      RelinkedStepAt(s, x, k, i);
    }
  }

  /** One round of the splice loop: the parent adopts the next child. */
  lemma RelinkedStep<K, V>(s: seq<NodeRec<K, V>>, x: K, k: nat)
    requires Ordered(s) && x in Ids(s) && k < |Rec(s, x).children|
    requires Rec(s, x).parent.Some? && Rec(s, x).parent.value in Ids(s)
    ensures Rec(s, x).children[k] in Ids(s)
    ensures AddChild(Relinked(s, x, k), Rec(s, x).parent.value, Rec(s, x).children[k])
      == Relinked(s, x, k + 1)
  {
    ChildAfter(s, x, Rec(s, x).children[k]);
    RelinkedStepCore(s, x, k);
  }

  /** The whole splice: `x` unlinked and all of its children handed over. */
  function Spliced<K(==), V>(s: seq<NodeRec<K, V>>, x: K): (t: seq<NodeRec<K, V>>)
    requires x in Ids(s) && Rec(s, x).parent.Some?
    ensures |t| == |s| && Ids(t) == Ids(s)
  {
    Relinked(s, x, |Rec(s, x).children|)
  }

  /** A record after the splice, with the whole child list of `x` moved. */
  function Adopted<K(==), V>(s: seq<NodeRec<K, V>>, x: K, m: K): (r: NodeRec<K, V>)
    requires m in Ids(s) && x in Ids(s) && Rec(s, x).parent.Some?
    ensures r.id == m
  {
    Relink(Rec(s, m), Rec(s, x).parent.value, x, Rec(s, x).children)
  }

  /** Every node that survives the splice keeps its place in the order and
      its record is the relinked one; `x` is gone. */
  lemma RetainRec<K, V>(s: seq<NodeRec<K, V>>, x: K, m: K)
    requires Unique(s) && x in Ids(s) && Rec(s, x).parent.Some? && m in Ids(s) && m != x
    ensures Unique(Spliced(s, x)) && m in Ids(Spliced(s, x)) && Ix(Spliced(s, x), m) == Ix(s, m)
    ensures m in Ids(Drop(Spliced(s, x), {x}))
    ensures Rec(Drop(Spliced(s, x), {x}), m) == Adopted(s, x, m)
  {
    var cs := Rec(s, x).children;
    assert cs[..|cs|] == cs;
    RelinkedRec(s, x, |cs|, m);
    DropIds(Spliced(s, x), {x});
    DropRec(Spliced(s, x), {x}, m);
  }

  /** Children listed after the splice are present, survive, come later and
      name the lister as parent. */
  lemma RetainLinks<K, V>(s: seq<NodeRec<K, V>>, x: K, q: K, c: K)
    requires Valid(s) && x in Ids(s) && Rec(s, x).parent.Some?
    requires q in Ids(s) && q != x && c in Adopted(s, x, q).children
    ensures c in Ids(s) && c != x && Ix(s, q) < Ix(s, c)
    ensures Adopted(s, x, c).parent == Some(q)
  {
    var p, cs := Rec(s, x).parent.value, Rec(s, x).children;
    ParentBefore(s, Ix(s, x));
    if q == p {
      if c in cs {
        ChildAfter(s, x, c);
      } else {
        assert c in Rec(s, p).children && c != x;
        ChildAfter(s, p, c);
      }
    } else {
      assert c in Rec(s, q).children;
      ChildAfter(s, q, c);
      if c in cs {
        ChildAfter(s, x, c);
      }
    }
  }

  /** Child lists stay free of repeats through the splice. */
  lemma RetainDistinct<K, V>(s: seq<NodeRec<K, V>>, x: K, q: K)
    requires Valid(s) && x in Ids(s) && Rec(s, x).parent.Some? && q in Ids(s)
    ensures Distinct(Adopted(s, x, q).children)
  {
    var p, cs := Rec(s, x).parent.value, Rec(s, x).children;
    IxOf(s, Ix(s, q));
    if q == p {
      IxOf(s, Ix(s, x));
      var w := Without(Rec(s, p).children, x);
      WithoutDistinct(Rec(s, p).children, x);
      forall c | c in Elems(w) ensures c !in Elems(cs) {
        ChildAfter(s, p, c);
        if c in cs {
          ChildAfter(s, x, c);
        }
      }
      DistinctAppend(w, cs);
    }
  }

  /** Parent links after the splice point at surviving nodes that list them. */
  lemma RetainParent<K, V>(s: seq<NodeRec<K, V>>, x: K, m: K)
    requires Valid(s) && x in Ids(s) && Rec(s, x).parent.Some?
    requires m in Ids(s) && m != x && Adopted(s, x, m).parent.Some?
    ensures Adopted(s, x, m).parent.value in Ids(s) && Adopted(s, x, m).parent.value != x
    ensures m in Adopted(s, x, Adopted(s, x, m).parent.value).children
  {
    var p, cs := Rec(s, x).parent.value, Rec(s, x).children;
    ParentBefore(s, Ix(s, x));
    if m in cs {
      assert Adopted(s, x, m).parent == Some(p);
      assert Adopted(s, x, p).children == Without(Rec(s, p).children, x) + cs;
    } else {
      var i := Ix(s, m);
      assert ParentLinked(s, i);
      var q := s[i].parent.value;
      assert Adopted(s, x, m).parent == Some(q);
      assert m in Rec(s, q).children;
      assert q != x;
      if q == p {
        assert m in Without(Rec(s, p).children, x);
      } else {
        assert Adopted(s, x, q).children == Rec(s, q).children;
      }
    }
  }

  /** The record at position `i` after the splice is the adopted record of
      its id. */
  lemma RetainAt<K, V>(s: seq<NodeRec<K, V>>, x: K, i: int)
    requires Unique(s) && x in Ids(s) && Rec(s, x).parent.Some?
    requires 0 <= i < |Drop(Spliced(s, x), {x})|
    ensures Unique(Drop(Spliced(s, x), {x}))
    ensures Drop(Spliced(s, x), {x})[i].id in Ids(s) && Drop(Spliced(s, x), {x})[i].id != x
    ensures Drop(Spliced(s, x), {x})[i] == Adopted(s, x, Drop(Spliced(s, x), {x})[i].id)
  {
    var sp := Spliced(s, x);
    var d := Drop(sp, {x});
    RelinkedRec(s, x, |Rec(s, x).children|, x);
    DropUnique(sp, {x});
    IxOf(d, i);
    var q := d[i].id;
    DropRec(sp, {x}, q);
    RetainRec(s, x, q);
  }

  lemma RetainChildLinked<K, V>(s: seq<NodeRec<K, V>>, x: K, i: int, c: K)
    requires Valid(s) && x in Ids(s) && Rec(s, x).parent.Some?
    requires 0 <= i < |Drop(Spliced(s, x), {x})| && c in Drop(Spliced(s, x), {x})[i].children
    ensures ChildLinked(Drop(Spliced(s, x), {x}), i, c)
  {
    var sp := Spliced(s, x);
    var d := Drop(sp, {x});
    RetainAt(s, x, i);
    var q := d[i].id;
    IxOf(d, i);
    RetainLinks(s, x, q, c);
    RetainRec(s, x, q);
    RetainRec(s, x, c);
    DropOrder(sp, {x}, q, c);
  }

  lemma RetainParentLinked<K, V>(s: seq<NodeRec<K, V>>, x: K, i: int)
    requires Valid(s) && x in Ids(s) && Rec(s, x).parent.Some?
    requires 0 <= i < |Drop(Spliced(s, x), {x})| && Drop(Spliced(s, x), {x})[i].parent.Some?
    ensures ParentLinked(Drop(Spliced(s, x), {x}), i)
  {
    var d := Drop(Spliced(s, x), {x});
    RetainAt(s, x, i);
    var m := d[i].id;
    RetainParent(s, x, m);
    RetainRec(s, x, d[i].parent.value);
  }

  /** Splicing a node out keeps the container invariant. */
  lemma RetainValid<K, V>(s: seq<NodeRec<K, V>>, x: K)
    requires Valid(s) && x in Ids(s) && Rec(s, x).parent.Some?
    ensures Valid(Drop(Spliced(s, x), {x}))
  {
    var d := Drop(Spliced(s, x), {x});
    RelinkedRec(s, x, |Rec(s, x).children|, x);
    DropUnique(Spliced(s, x), {x});
    forall i | 0 <= i < |d| ensures Distinct(d[i].children) {
      RetainAt(s, x, i);
      RetainDistinct(s, x, d[i].id);
    }
    forall i, c | 0 <= i < |d| && c in d[i].children ensures ChildLinked(d, i, c) {
      RetainChildLinked(s, x, i, c);
    }
    forall i | 0 <= i < |d| && d[i].parent.Some? ensures ParentLinked(d, i) {
      RetainParentLinked(s, x, i);
    }
  }

  /** What happens to one surviving node under RetainChildren: its value is
      kept, a former child of `x` now has `x`'s parent as parent, the parent
      of `x` lists its other children followed by those of `x`, and every
      other child list is untouched. */
  lemma RetainRecord<K, V>(s: seq<NodeRec<K, V>>, x: K, m: K)
    requires Valid(s) && x in Ids(s) && Rec(s, x).parent.Some? && m in Ids(s) && m != x
    ensures Rec(s, x).parent.value in Ids(s) && forall c :: c in Rec(s, x).children ==> c in Ids(s)
    ensures RemoveRetainingChildren(s, x).Ok?
    ensures m in Ids(RemoveRetainingChildren(s, x).value)
    ensures Rec(RemoveRetainingChildren(s, x).value, m).value == Rec(s, m).value
    ensures Rec(RemoveRetainingChildren(s, x).value, m).parent
      == if Rec(s, m).parent == Some(x) then Rec(s, x).parent else Rec(s, m).parent
    ensures Rec(RemoveRetainingChildren(s, x).value, m).children
      == if Some(m) == Rec(s, x).parent then Without(Rec(s, m).children, x) + Rec(s, x).children
         else Rec(s, m).children
  {
    ParentBefore(s, Ix(s, x));
    forall c | c in Rec(s, x).children ensures c in Ids(s) {
      ChildAfter(s, x, c);
    }
    RetainRec(s, x, m);
    if Rec(s, m).parent.Some? {
      assert ParentLinked(s, Ix(s, m));
    }
    if m in Rec(s, x).children {
      ChildAfter(s, x, m);
    }
  }

  /** RetainChildren on a node with a parent succeeds, removes exactly that
      node, keeps the relative order of the rest and keeps the container
      invariant. */
  lemma RetainResult<K, V>(s: seq<NodeRec<K, V>>, x: K)
    requires Valid(s) && x in Ids(s) && Rec(s, x).parent.Some?
    ensures Rec(s, x).parent.value in Ids(s) && forall c :: c in Rec(s, x).children ==> c in Ids(s)
    ensures RemoveRetainingChildren(s, x).Ok?
    ensures Valid(RemoveRetainingChildren(s, x).value)
    ensures |RemoveRetainingChildren(s, x).value| == |s| - 1
    ensures forall m :: m in Ids(RemoveRetainingChildren(s, x).value) <==> m in Ids(s) && m != x
    ensures forall a, b :: a in Ids(RemoveRetainingChildren(s, x).value) && b in Ids(RemoveRetainingChildren(s, x).value) ==>
      (Ix(RemoveRetainingChildren(s, x).value, a) < Ix(RemoveRetainingChildren(s, x).value, b) <==> Ix(s, a) < Ix(s, b))
  {
    ParentBefore(s, Ix(s, x));
    forall c | c in Rec(s, x).children ensures c in Ids(s) {
      ChildAfter(s, x, c);
    }
    var sp := Spliced(s, x);
    var d := Drop(sp, {x});
    RelinkedRec(s, x, |Rec(s, x).children|, x);
    RetainValid(s, x);
    DropSize(sp, {x});
    DropIds(sp, {x});
    forall a, b | a in Ids(d) && b in Ids(d) ensures Ix(d, a) < Ix(d, b) <==> Ix(s, a) < Ix(s, b) {
      DropOrder(sp, {x}, a, b);
      RelinkedRec(s, x, |Rec(s, x).children|, a);
      RelinkedRec(s, x, |Rec(s, x).children|, b);
    }
  }

  /** A parentless node after RetainChildren was parentless before. */
  lemma RetainRootWasRoot<K, V>(s: seq<NodeRec<K, V>>, x: K, i: int)
    requires Valid(s) && x in Ids(s) && Rec(s, x).parent.Some?
    requires 0 <= i < |Drop(Spliced(s, x), {x})| && Drop(Spliced(s, x), {x})[i].parent.None?
    ensures Drop(Spliced(s, x), {x})[i].id in Ids(s)
    ensures Rec(s, Drop(Spliced(s, x), {x})[i].id).parent.None?
  {
    RetainAt(s, x, i);
    IxOf(Drop(Spliced(s, x), {x}), i);
    RetainRecord(s, x, Drop(Spliced(s, x), {x})[i].id);
  }

  /** RetainChildren never creates a second root. */
  lemma RetainSingleRoot<K, V>(s: seq<NodeRec<K, V>>, x: K)
    requires Valid(s) && SingleRoot(s) && x in Ids(s) && Rec(s, x).parent.Some?
    ensures Rec(s, x).parent.value in Ids(s) && forall c :: c in Rec(s, x).children ==> c in Ids(s)
    ensures RemoveRetainingChildren(s, x).Ok? && SingleRoot(RemoveRetainingChildren(s, x).value)
  {
    RetainResult(s, x);
    var d := Drop(Spliced(s, x), {x});
    forall i, j | 0 <= i < |d| && 0 <= j < |d| && d[i].parent.None? && d[j].parent.None?
      ensures i == j
    {
      RetainRootWasRoot(s, x, i);
      RetainRootWasRoot(s, x, j);
      assert Ix(s, d[i].id) == Ix(s, d[j].id);
      IxOf(d, i);
      IxOf(d, j);
    }
  }
}
