/**
 * remove_node with RemoveNodeAndChildren: the node is unlinked from its
 * parent, dropped, and each of its children is detached from it and removed
 * the same way, recursively. The end state is the store without the whole
 * subtree, where only the former parent's child list has changed.
 */
module Pruning {
  import opened Arena
  import opened Descendants
  import opened Removal
  import Metrics

  /** A record once `x` is unlinked from its parent `p`: the parent forgets
      `x`, and `x` forgets its parent. */
  function Cut<K(==), V>(r: NodeRec<K, V>, p: Option<K>, x: K): (u: NodeRec<K, V>)
    ensures u.id == r.id && u.value == r.value
  {
    var r1 := if Some(r.id) == p then r.(children := Without(r.children, x)) else r;
    if r1.id == x then r1.(parent := None) else r1
  }

  /** The store once `x` is unlinked from its parent (if it has one). */
  function Detached<K(==), V>(s: seq<NodeRec<K, V>>, x: K): (t: seq<NodeRec<K, V>>)
    requires x in Ids(s)
    ensures |t| == |s| && Ids(t) == Ids(s)
    ensures forall i :: 0 <= i < |s| ==> t[i] == Cut(s[i], Rec(s, x).parent, x)
  {
    var p := Rec(s, x).parent;
    var t := seq(|s|, i requires 0 <= i < |s| => Cut(s[i], p, x));
    assert Ids(t) == Ids(s);
    t
  }

  /** The store after remove_node with RemoveNodeAndChildren. */
  ghost function RemoveWithChildren<K, V>(s: seq<NodeRec<K, V>>, x: K): (t: seq<NodeRec<K, V>>)
    requires Ordered(s) && x in Ids(s)
    requires Rec(s, x).parent.Some? ==> Rec(s, x).parent.value in Ids(s)
    ensures forall m :: m in Ids(t) ==> m in Ids(s) && m !in Sub(s, x)
    ensures forall m :: m in Ids(s) && m !in Sub(s, x) ==> m in Ids(t)
  {
    DropIds(Detached(s, x), Sub(s, x));
    Drop(Detached(s, x), Sub(s, x))
  }

  /** The stores the removal passes through: `x` and the subtrees of its
      first `k` children are gone. */
  ghost function Pruned<K, V>(s: seq<NodeRec<K, V>>, x: K, k: nat): (t: seq<NodeRec<K, V>>)
    requires Ordered(s) && x in Ids(s) && k <= |Rec(s, x).children|
    ensures forall m :: m in Ids(t) ==> m in Ids(s) && m != x && m !in SubOf(s, x, k)
    ensures forall m :: m in Ids(s) && m != x && m !in SubOf(s, x, k) ==> m in Ids(t)
  {
    DropIds(Detached(s, x), {x} + SubOf(s, x, k));
    Drop(Detached(s, x), {x} + SubOf(s, x, k))
  }

  // ---------------------------------------------------------------------
  // Unlinking
  // ---------------------------------------------------------------------

  /** Records of the unlinked store, by id. */
  lemma DetachedRec<K, V>(s: seq<NodeRec<K, V>>, x: K, m: K)
    requires Unique(s) && x in Ids(s) && m in Ids(s)
    ensures Unique(Detached(s, x)) && m in Ids(Detached(s, x))
    ensures Ix(Detached(s, x), m) == Ix(s, m)
    ensures Rec(Detached(s, x), m) == Cut(Rec(s, m), Rec(s, x).parent, x)
  {
    var t := Detached(s, x);
    assert Unique(t) by {
      forall i, j | 0 <= i < j < |t| ensures IdAt(t, i) != IdAt(t, j) {
        assert IdAt(s, i) != IdAt(s, j);
        assert t[i].id == s[i].id && t[j].id == s[j].id;
      }
    }
  }

  lemma DetachByParentAt<K, V>(s: seq<NodeRec<K, V>>, x: K, i: int)
    requires Unique(s) && x in Ids(s) && Rec(s, x).parent.Some? && 0 <= i < |s|
    ensures RemoveChild(s, Rec(s, x).parent.value, x)[i] == Cut(s[i], Rec(s, x).parent, x)
  {
    var p := Rec(s, x).parent.value;
    IxOf(s, i);
    var t1 := if p in Ids(s) then Put(s, Rec(s, p).(children := Without(Rec(s, p).children, x))) else s;
    assert Ids(t1) == Ids(s);
    assert t1[i] == if Some(s[i].id) == Some(p) then s[i].(children := Without(s[i].children, x)) else s[i];
    assert Rec(t1, x) == t1[Ix(s, x)];
    var u := Put(t1, Rec(t1, x).(parent := None));
    assert u == RemoveChild(s, p, x);
    assert u[i] == if s[i].id == x then t1[i].(parent := None) else t1[i];
  }

  /** Unlinking through the parent's handle (remove_child on the parent) is
      the unlinked store. */
  lemma DetachByParent<K, V>(s: seq<NodeRec<K, V>>, x: K)
    requires Unique(s) && x in Ids(s) && Rec(s, x).parent.Some?
    ensures RemoveChild(s, Rec(s, x).parent.value, x) == Detached(s, x)
  {
    var u := RemoveChild(s, Rec(s, x).parent.value, x);
    var t := Detached(s, x);
    forall i | 0 <= i < |s| ensures u[i] == t[i] {
      DetachByParentAt(s, x, i);
    }
  }

  /** A node without a parent needs no unlinking. */
  lemma DetachRoot<K, V>(s: seq<NodeRec<K, V>>, x: K)
    requires Unique(s) && x in Ids(s) && Rec(s, x).parent.None?
    ensures Detached(s, x) == s
  {
    var t := Detached(s, x);
    forall i | 0 <= i < |s| ensures t[i] == s[i] {
      IxOf(s, i);
    }
  }

  /** Once `x` is unlinked nobody lists it, and the store stays ordered. */
  lemma DetachedOrdered<K, V>(s: seq<NodeRec<K, V>>, x: K)
    requires Ordered(s) && x in Ids(s)
    ensures Ordered(Detached(s, x))
    ensures forall i :: 0 <= i < |s| ==> x !in Detached(s, x)[i].children
  {
    var t := Detached(s, x);
    var p := Rec(s, x).parent;
    DetachedRec(s, x, x);
    forall i | 0 <= i < |s| ensures x !in t[i].children && Distinct(t[i].children) {
      if x in s[i].children {
        assert ChildLinked(s, i, x);
      }
      if Some(s[i].id) == p {
        WithoutDistinct(s[i].children, x);
      }
    }
    forall i, c | 0 <= i < |t| && c in t[i].children ensures ChildLinked(t, i, c) {
      assert ChildLinked(s, i, c);
      DetachedRec(s, x, c);
    }
  }

  // ---------------------------------------------------------------------
  // One round of the removal loop
  // ---------------------------------------------------------------------

  /** A node listing a member of a subtree (other than its top) is itself in
      the subtree. */
  lemma ListerInside<K, V>(s: seq<NodeRec<K, V>>, y: K, m: K, q: K)
    requires Ordered(s) && y in Ids(s) && m in Sub(s, y) && m != y
    requires q in Ids(s) && m in Rec(s, q).children
    ensures q in Sub(s, y)
  {
    SubParent(s, y, m);
    ChildAfter(s, q, m);
  }

  /** The nodes removed so far are closed under listers: whoever lists one of
      them is one of them. */
  lemma PrunedClosed<K, V>(s: seq<NodeRec<K, V>>, x: K, k: nat, m: K, q: K)
    requires Ordered(s) && x in Ids(s) && k <= |Rec(s, x).children|
    requires m in SubOf(s, x, k) && q in Ids(s) && m in Rec(s, q).children
    ensures q == x || q in SubOf(s, x, k)
  {
    var j := SubOfElim(s, x, k, m);
    var c := Rec(s, x).children[j];
    ChildAfter(s, x, c);
    ChildAfter(s, q, m);
    if m != c {
      ListerInside(s, c, m, q);
      SubOfIntro(s, x, k, j);
    }
  }

  /** The intermediate stores are ordered. */
  lemma PrunedOrdered<K, V>(s: seq<NodeRec<K, V>>, x: K, k: nat)
    requires Ordered(s) && x in Ids(s) && k <= |Rec(s, x).children|
    ensures Ordered(Pruned(s, x, k))
  {
    var d := Detached(s, x);
    var A := {x} + SubOf(s, x, k);
    DetachedOrdered(s, x);
    forall i, c | 0 <= i < |d| && d[i].id !in A && c in d[i].children ensures c !in A {
      IxOf(s, i);
      if c in SubOf(s, x, k) {
        PrunedClosed(s, x, k, c, s[i].id);
      }
    }
    DropOrdered(d, A);
  }

  /** Clearing the parent of a node nobody lists keeps the store ordered. */
  lemma ClearParentOrdered<K, V>(t: seq<NodeRec<K, V>>, c: K)
    requires Ordered(t) && c in Ids(t)
    requires forall i :: 0 <= i < |t| ==> c !in t[i].children
    ensures Ordered(Put(t, Rec(t, c).(parent := None)))
  {
    var r := Rec(t, c).(parent := None);
    var u := Put(t, r);
    PutRec(t, r, c);
    forall i | 0 <= i < |u| ensures u[i].id == t[i].id && u[i].children == t[i].children {
      IxOf(t, i);
    }
    forall i, m | 0 <= i < |u| && m in u[i].children ensures ChildLinked(u, i, m) {
      assert ChildLinked(t, i, m);
      PutRec(t, r, m);
    }
  }

  /** In the store where `x` and the first `k` subtrees are gone, nobody
      lists child `k` of `x`. */
  lemma NextUnlisted<K, V>(s: seq<NodeRec<K, V>>, x: K, k: nat)
    requires Ordered(s) && x in Ids(s) && k < |Rec(s, x).children|
    ensures forall i :: 0 <= i < |Pruned(s, x, k)| ==> Rec(s, x).children[k] !in Pruned(s, x, k)[i].children
  {
    var c := Rec(s, x).children[k];
    var d := Detached(s, x);
    var n := Pruned(s, x, k);
    var A := {x} + SubOf(s, x, k);
    ChildAfter(s, x, c);
    DropIds(d, A);
    forall i | 0 <= i < |n| ensures c !in n[i].children {
      assert n[i] in d;
      var j :| 0 <= j < |d| && d[j] == n[i];
      IxOf(s, j);
      if c in s[j].children {
        ChildAfter(s, s[j].id, c);
      }
    }
  }

  /** The store the recursive call starts from: the current intermediate
      store with child `k` detached from the (already removed) `x`. */
  ghost function NextStart<K, V>(s: seq<NodeRec<K, V>>, x: K, k: nat): (t: seq<NodeRec<K, V>>)
    requires Ordered(s) && x in Ids(s) && k < |Rec(s, x).children|
  {
    RemoveChild(Pruned(s, x, k), x, Rec(s, x).children[k])
  }

  /** The recursive call is well started: the child is present, parentless,
      in an ordered store smaller than the original. */
  lemma NextReady<K, V>(s: seq<NodeRec<K, V>>, x: K, k: nat)
    requires Ordered(s) && x in Ids(s) && k < |Rec(s, x).children|
    ensures Ordered(NextStart(s, x, k)) && |NextStart(s, x, k)| < |s|
    ensures Rec(s, x).children[k] in Ids(NextStart(s, x, k))
    ensures Rec(NextStart(s, x, k), Rec(s, x).children[k]).parent.None?
  {
    var c := Rec(s, x).children[k];
    var n := Pruned(s, x, k);
    ChildAfter(s, x, c);
    SubBelow(s, c);
    NextOutside(s, x, k, c);
    PrunedOrdered(s, x, k);
    NextUnlisted(s, x, k);
    ClearParentOrdered(n, c);
    PutRec(n, Rec(n, c).(parent := None), c);
    DetachedRec(s, x, x);
    DropUnique(Detached(s, x), {x} + SubOf(s, x, k));
    DropSize(Detached(s, x), {x});
    DropDrop(Detached(s, x), {x}, SubOf(s, x, k));
  }

  /** Members of the next child's subtree keep their child lists in the
      store the recursive call starts from. */
  lemma NextSameChildren<K, V>(s: seq<NodeRec<K, V>>, x: K, k: nat)
    requires Ordered(s) && x in Ids(s) && k < |Rec(s, x).children|
    ensures Rec(s, x).children[k] in Ids(s)
    ensures SameChildrenOn(s, NextStart(s, x, k), Sub(s, Rec(s, x).children[k]))
  {
    var c := Rec(s, x).children[k];
    var d := Detached(s, x);
    var A := {x} + SubOf(s, x, k);
    var n := Pruned(s, x, k);
    ChildAfter(s, x, c);
    SubBelow(s, c);
    NextOutside(s, x, k, c);
    DetachedRec(s, x, x);
    DropUnique(Detached(s, x), A);
    forall m | m in Sub(s, c)
      ensures m in Ids(s) && m in Ids(NextStart(s, x, k))
      ensures Rec(NextStart(s, x, k), m).children == Rec(s, m).children
    {
      NextOutside(s, x, k, m);
      PutRec(n, Rec(n, c).(parent := None), m);
      DropRec(d, A, m);
      DetachedRec(s, x, m);
      if x in Rec(s, m).children {
        ChildAfter(s, m, x);
      }
    }
  }

  /** One round of the removal loop: detaching child `k` and removing it with
      its subtree leads to the next intermediate store. */
  lemma PruneStep<K, V>(s: seq<NodeRec<K, V>>, x: K, k: nat)
    requires Ordered(s) && x in Ids(s) && k < |Rec(s, x).children|
    ensures Ordered(NextStart(s, x, k)) && |NextStart(s, x, k)| < |s|
    ensures Rec(s, x).children[k] in Ids(NextStart(s, x, k))
    ensures Rec(NextStart(s, x, k), Rec(s, x).children[k]).parent.None?
    ensures RemoveWithChildren(NextStart(s, x, k), Rec(s, x).children[k]) == Pruned(s, x, k + 1)
  {
    var c := Rec(s, x).children[k];
    var n := Pruned(s, x, k);
    var t := NextStart(s, x, k);
    var A := {x} + SubOf(s, x, k);
    NextReady(s, x, k);
    NextSameChildren(s, x, k);
    SubFrame(s, t, c);
    DetachRoot(t, c);
    PrunedOrdered(s, x, k);
    PutRec(n, Rec(n, c).(parent := None), c);
    forall i | 0 <= i < |n| ensures n[i].id == t[i].id && (n[i].id !in Sub(s, c) ==> n[i] == t[i]) {
      if n[i].id == c {
        IxOf(n, i);
      }
    }
    assert c in Sub(s, c);
    DropIgnores(t, n, Sub(s, c));
    DropDrop(Detached(s, x), A, Sub(s, c));
    ChildAfter(s, x, c);
    assert A + Sub(s, c) == {x} + SubOf(s, x, k + 1);
  }

  // ---------------------------------------------------------------------
  // What the removal does
  // ---------------------------------------------------------------------

  /** Every node outside the removed subtree survives unchanged, except
      that the former parent of `x` no longer lists it. */
  lemma PruneRecord<K, V>(s: seq<NodeRec<K, V>>, x: K, m: K)
    requires Ordered(s) && x in Ids(s)
    requires Rec(s, x).parent.Some? ==> Rec(s, x).parent.value in Ids(s)
    requires m in Ids(s) && m !in Sub(s, x)
    ensures m in Ids(RemoveWithChildren(s, x))
    ensures Rec(RemoveWithChildren(s, x), m)
      == if Rec(s, x).parent == Some(m) then Rec(s, m).(children := Without(Rec(s, m).children, x))
         else Rec(s, m)
  {
    var d := Detached(s, x);
    assert x in Sub(s, x);
    DetachedRec(s, x, m);
    DropIds(d, Sub(s, x));
    assert m in Ids(Drop(d, Sub(s, x)));
    DropRec(d, Sub(s, x), m);
  }

  /** Exactly the nodes of the subtree are removed, and the survivors keep
      their relative order. */
  lemma PruneSize<K, V>(s: seq<NodeRec<K, V>>, x: K)
    requires Ordered(s) && x in Ids(s)
    requires Rec(s, x).parent.Some? ==> Rec(s, x).parent.value in Ids(s)
    ensures |RemoveWithChildren(s, x)| == |s| - |Sub(s, x)|
    ensures forall a, b :: a in Ids(RemoveWithChildren(s, x)) && b in Ids(RemoveWithChildren(s, x)) ==>
      (Ix(RemoveWithChildren(s, x), a) < Ix(RemoveWithChildren(s, x), b) <==> Ix(s, a) < Ix(s, b))
  {
    var d := Detached(s, x);
    DetachedRec(s, x, x);
    SubBelow(s, x);
    DropSize(d, Sub(s, x));
    DropIds(d, Sub(s, x));
    forall a, b | a in Ids(Drop(d, Sub(s, x))) && b in Ids(Drop(d, Sub(s, x)))
      ensures Ix(Drop(d, Sub(s, x)), a) < Ix(Drop(d, Sub(s, x)), b) <==> Ix(s, a) < Ix(s, b)
    {
      DropOrder(d, Sub(s, x), a, b);
      DetachedRec(s, x, a);
      DetachedRec(s, x, b);
    }
  }

  lemma PruneOrdered<K, V>(s: seq<NodeRec<K, V>>, x: K)
    requires Ordered(s) && x in Ids(s)
    ensures Ordered(Drop(Detached(s, x), Sub(s, x)))
  {
    var d := Detached(s, x);
    DetachedOrdered(s, x);
    forall i, c | 0 <= i < |d| && d[i].id !in Sub(s, x) && c in d[i].children ensures c !in Sub(s, x) {
      IxOf(s, i);
      if c in Sub(s, x) {
        ListerInside(s, x, c, s[i].id);
      }
    }
    DropOrdered(d, Sub(s, x));
  }

  lemma PruneParentLinked<K, V>(s: seq<NodeRec<K, V>>, x: K, i: int)
    requires Valid(s) && x in Ids(s)
    requires 0 <= i < |Drop(Detached(s, x), Sub(s, x))| && Drop(Detached(s, x), Sub(s, x))[i].parent.Some?
    ensures ParentLinked(Drop(Detached(s, x), Sub(s, x)), i)
  {
    var d := Detached(s, x);
    var r := Drop(d, Sub(s, x));
    DetachedRec(s, x, x);
    DropUnique(d, Sub(s, x));
    IxOf(r, i);
    var m := r[i].id;
    DropRec(d, Sub(s, x), m);
    DetachedRec(s, x, m);
    assert x in Sub(s, x);
    assert ParentLinked(s, Ix(s, m));
    var q := Rec(s, m).parent.value;
    if q in Sub(s, x) {
      SubClosed(s, x, q, m);
    }
    DropIds(d, Sub(s, x));
    DropRec(d, Sub(s, x), q);
    DetachedRec(s, x, q);
  }

  /** Removing a subtree keeps the container invariant. */
  lemma PruneValid<K, V>(s: seq<NodeRec<K, V>>, x: K)
    requires Valid(s) && x in Ids(s)
    ensures Valid(RemoveWithChildren(s, x))
  {
    var r := Drop(Detached(s, x), Sub(s, x));
    PruneOrdered(s, x);
    forall i | 0 <= i < |r| && r[i].parent.Some? ensures ParentLinked(r, i) {
      PruneParentLinked(s, x, i);
    }
  }

  /** A parentless node after the removal was parentless before. */
  lemma PruneRootWasRoot<K, V>(s: seq<NodeRec<K, V>>, x: K, i: int)
    requires Ordered(s) && x in Ids(s)
    requires Rec(s, x).parent.Some? ==> Rec(s, x).parent.value in Ids(s)
    requires 0 <= i < |RemoveWithChildren(s, x)| && RemoveWithChildren(s, x)[i].parent.None?
    ensures RemoveWithChildren(s, x)[i].id in Ids(s)
    ensures Rec(s, RemoveWithChildren(s, x)[i].id).parent.None?
  {
    var r := RemoveWithChildren(s, x);
    DetachedRec(s, x, x);
    DropUnique(Detached(s, x), Sub(s, x));
    IxOf(r, i);
    PruneRecord(s, x, r[i].id);
  }

  /** Removing a subtree never creates a second root. */
  lemma PruneSingleRoot<K, V>(s: seq<NodeRec<K, V>>, x: K)
    requires Ordered(s) && SingleRoot(s) && x in Ids(s)
    requires Rec(s, x).parent.Some? ==> Rec(s, x).parent.value in Ids(s)
    ensures SingleRoot(RemoveWithChildren(s, x))
  {
    var r := RemoveWithChildren(s, x);
    forall i, j | 0 <= i < |r| && 0 <= j < |r| && r[i].parent.None? && r[j].parent.None?
      ensures i == j
    {
      PruneRootWasRoot(s, x, i);
      PruneRootWasRoot(s, x, j);
      assert Ix(s, r[i].id) == Ix(s, r[j].id);
      DetachedRec(s, x, x);
      DropUnique(Detached(s, x), Sub(s, x));
      IxOf(r, i);
      IxOf(r, j);
    }
  }

  /** Removing the root of a single-rooted tree with its children empties
      the container. */
  lemma PruneRoot<K, V>(s: seq<NodeRec<K, V>>)
    requires Valid(s) && SingleRoot(s) && |s| > 0
    ensures s[0].id in Ids(s) && Rec(s, s[0].id).parent.None?
    ensures RemoveWithChildren(s, s[0].id) == []
  {
    IxOf(s, 0);
    ValidFirstIsRoot(s);
    var r := RemoveWithChildren(s, s[0].id);
    if |r| > 0 {
      assert r[0].id in Ids(r);
      Metrics.RootReachesAll(s, r[0].id);
    }
  }
}
