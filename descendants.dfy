/**
 * The set of ids below a node (the node and its transitive descendants),
 * and the structural facts every recursive operation of the container
 * relies on: subtrees of distinct siblings are disjoint, every member of a
 * subtree other than its top has its parent inside it, and a subtree only
 * depends on the child lists of its own members.
 */
module Descendants {
  import opened Arena

  /** `x` together with all of its transitive descendants. */
  ghost function Sub<K, V>(s: seq<NodeRec<K, V>>, x: K): set<K>
    requires Ordered(s) && x in Ids(s)
    decreases |s| - Ix(s, x), 1, 0
  {
    {x} + SubOf(s, x, |Rec(s, x).children|)
  }

  /** The union of the subtrees of the first `k` children of `x`. */
  ghost function SubOf<K, V>(s: seq<NodeRec<K, V>>, x: K, k: nat): set<K>
    requires Ordered(s) && x in Ids(s) && k <= |Rec(s, x).children|
    decreases |s| - Ix(s, x), 0, k
  {
    if k == 0 then {}
    else
      var c := Rec(s, x).children[k - 1];
      assert ChildLinked(s, Ix(s, x), c);
      SubOf(s, x, k - 1) + Sub(s, c)
  }

  /** Child `c` of `x` is stored after `x`. */
  lemma ChildAfter<K, V>(s: seq<NodeRec<K, V>>, x: K, c: K)
    requires Ordered(s) && x in Ids(s) && c in Rec(s, x).children
    ensures c in Ids(s) && Ix(s, x) < Ix(s, c) && Rec(s, c).parent == Some(x)
  {
    assert ChildLinked(s, Ix(s, x), c);
  }

  /** Every member of a subtree is present and stored no earlier than its top. */
  lemma SubBelow<K, V>(s: seq<NodeRec<K, V>>, x: K)
    requires Ordered(s) && x in Ids(s)
    ensures forall m :: m in Sub(s, x) ==> m in Ids(s) && Ix(s, x) <= Ix(s, m)
    decreases |s| - Ix(s, x), 1, 0
  {
    SubOfBelow(s, x, |Rec(s, x).children|);
  }

  lemma SubOfBelow<K, V>(s: seq<NodeRec<K, V>>, x: K, k: nat)
    requires Ordered(s) && x in Ids(s) && k <= |Rec(s, x).children|
    ensures forall m :: m in SubOf(s, x, k) ==> m in Ids(s) && Ix(s, x) < Ix(s, m)
    decreases |s| - Ix(s, x), 0, k
  {
    if k > 0 {
      var c := Rec(s, x).children[k - 1];
      ChildAfter(s, x, c);
      SubOfBelow(s, x, k - 1);
      SubBelow(s, c);
    }
  }

  /** A member of the children's subtrees lies in the subtree of one child. */
  lemma SubOfElim<K, V>(s: seq<NodeRec<K, V>>, x: K, k: nat, m: K) returns (j: nat)
    requires Ordered(s) && x in Ids(s) && k <= |Rec(s, x).children|
    requires m in SubOf(s, x, k)
    ensures j < k && Rec(s, x).children[j] in Ids(s)
    ensures m in Sub(s, Rec(s, x).children[j])
  {
    var c := Rec(s, x).children[k - 1];
    ChildAfter(s, x, c);
    if m in Sub(s, c) {
      j := k - 1;
    } else {
      j := SubOfElim(s, x, k - 1, m);
    }
  }

  lemma SubOfIntro<K, V>(s: seq<NodeRec<K, V>>, x: K, k: nat, j: nat)
    requires Ordered(s) && x in Ids(s) && j < k <= |Rec(s, x).children|
    ensures Rec(s, x).children[j] in Ids(s)
    ensures Sub(s, Rec(s, x).children[j]) <= SubOf(s, x, k)
  {
    ChildAfter(s, x, Rec(s, x).children[j]);
    if j < k - 1 {
      SubOfIntro(s, x, k - 1, j);
    }
  }

  /** The subtree of a child is contained in the subtree of its parent. */
  lemma ChildSub<K, V>(s: seq<NodeRec<K, V>>, x: K, c: K)
    requires Ordered(s) && x in Ids(s) && c in Rec(s, x).children
    ensures c in Ids(s) && Sub(s, c) <= Sub(s, x)
  {
    var ch := Rec(s, x).children;
    var j :| 0 <= j < |ch| && ch[j] == c;
    SubOfIntro(s, x, |ch|, j);
  }

  /** Every member of a subtree other than its top has its parent inside the
      subtree, and that parent lists it as a child. */
  lemma SubParent<K, V>(s: seq<NodeRec<K, V>>, x: K, m: K)
    requires Ordered(s) && x in Ids(s) && m in Sub(s, x) && m != x
    ensures m in Ids(s) && Rec(s, m).parent.Some?
    ensures Rec(s, m).parent.value in Sub(s, x)
    ensures Rec(s, m).parent.value in Ids(s) && m in Rec(s, Rec(s, m).parent.value).children
    decreases |s| - Ix(s, x)
  {
    var ch := Rec(s, x).children;
    var j := SubOfElim(s, x, |ch|, m);
    var c := ch[j];
    ChildAfter(s, x, c);
    ChildSub(s, x, c);
    if m != c {
      SubParent(s, c, m);
    }
  }

  /** Subtrees are closed under taking children. */
  lemma SubClosed<K, V>(s: seq<NodeRec<K, V>>, x: K, q: K, c: K)
    requires Ordered(s) && x in Ids(s) && q in Sub(s, x)
    requires q in Ids(s) && c in Rec(s, q).children
    ensures c in Sub(s, x)
    decreases |s| - Ix(s, x)
  {
    if q == x {
      ChildSub(s, x, c);
    } else {
      var ch := Rec(s, x).children;
      var j := SubOfElim(s, x, |ch|, q);
      ChildAfter(s, x, ch[j]);
      SubClosed(s, ch[j], q, c);
      ChildSub(s, x, ch[j]);
    }
  }

  /** Two nodes neither of which is below the other have disjoint subtrees. */
  lemma {:induction false} SubDisjoint<K, V>(s: seq<NodeRec<K, V>>, y: K, z: K, m: K)
    requires Ordered(s) && y in Ids(s) && z in Ids(s)
    requires y !in Sub(s, z) && z !in Sub(s, y)
    requires m in Ids(s)
    ensures !(m in Sub(s, y) && m in Sub(s, z))
    decreases Ix(s, m)
  {
    if m in Sub(s, y) && m in Sub(s, z) {
      assert m != y && m != z;
      SubParent(s, y, m);
      SubParent(s, z, m);
      var p := Rec(s, m).parent.value;
      ChildAfter(s, p, m);
      SubDisjoint(s, y, z, p);
    }
  }

  /** No id lies in the subtrees of two distinct children of the same node. */
  lemma SiblingsApart<K, V>(s: seq<NodeRec<K, V>>, x: K, a: nat, b: nat, m: K)
    requires Ordered(s) && x in Ids(s)
    requires a < |Rec(s, x).children| && b < |Rec(s, x).children| && a != b
    ensures Rec(s, x).children[a] in Ids(s) && Rec(s, x).children[b] in Ids(s)
    ensures !(m in Sub(s, Rec(s, x).children[a]) && m in Sub(s, Rec(s, x).children[b]))
  {
    var ch := Rec(s, x).children;
    var ca, cb := ch[a], ch[b];
    ChildAfter(s, x, ca);
    ChildAfter(s, x, cb);
    if m in Sub(s, ca) {
      assert Distinct(ch) by {
        IxOf(s, Ix(s, x));
      }
      assert At(ch, a) != At(ch, b);
      NotBelowSibling(s, x, ca, cb);
      NotBelowSibling(s, x, cb, ca);
      SubBelow(s, ca);
      SubDisjoint(s, ca, cb, m);
    }
  }

  /** The subtree of child `k` contains neither `x` nor anything in the
      subtrees of the children before it. */
  lemma NextOutside<K, V>(s: seq<NodeRec<K, V>>, x: K, k: nat, m: K)
    requires Ordered(s) && x in Ids(s) && k < |Rec(s, x).children|
    requires Rec(s, x).children[k] in Ids(s) && m in Sub(s, Rec(s, x).children[k])
    ensures m != x && m !in SubOf(s, x, k)
  {
    var c := Rec(s, x).children[k];
    ChildAfter(s, x, c);
    SubBelow(s, c);
    if m in SubOf(s, x, k) {
      var j := SubOfElim(s, x, k, m);
      SiblingsApart(s, x, j, k, m);
    }
  }

  /** The subtree of child `k - 1` shares nothing with those of the
      children before it. */
  lemma SubOfDisjoint<K, V>(s: seq<NodeRec<K, V>>, x: K, k: nat)
    requires Ordered(s) && x in Ids(s) && 0 < k <= |Rec(s, x).children|
    ensures Rec(s, x).children[k - 1] in Ids(s)
    ensures SubOf(s, x, k - 1) !! Sub(s, Rec(s, x).children[k - 1])
  {
    var c, i := Rec(s, x).children[k - 1], k - 1;
    ChildAfter(s, x, c);
    forall m | m in Sub(s, c) ensures m !in SubOf(s, x, i) {
      NextOutside(s, x, i, m);
    }
  }

  /** A child is not inside the subtree of a different child of the same
      parent, and the parent is inside neither. */
  lemma NotBelowSibling<K, V>(s: seq<NodeRec<K, V>>, x: K, c: K, d: K)
    requires Ordered(s) && x in Ids(s)
    requires c in Rec(s, x).children && d in Rec(s, x).children && c != d
    ensures c in Ids(s) && d in Ids(s) && c !in Sub(s, d) && x !in Sub(s, d)
  {
    ChildAfter(s, x, c);
    ChildAfter(s, x, d);
    SubBelow(s, d);
    if c in Sub(s, d) {
      SubParent(s, d, c);
    }
  }

  /** Every id of `m` is stored in both `s` and `t` with the same child list. */
  ghost predicate SameChildrenOn<K, V>(s: seq<NodeRec<K, V>>, t: seq<NodeRec<K, V>>, M: set<K>)
  {
    forall m :: m in M ==> m in Ids(s) && m in Ids(t) && Rec(t, m).children == Rec(s, m).children
  }

  /** A subtree depends only on the child lists of its own members. */
  lemma SubFrame<K, V>(s: seq<NodeRec<K, V>>, t: seq<NodeRec<K, V>>, y: K)
    requires Ordered(s) && Ordered(t) && y in Ids(s)
    requires SameChildrenOn(s, t, Sub(s, y))
    ensures y in Ids(t) && Sub(t, y) == Sub(s, y)
    decreases |s| - Ix(s, y), 1, 0
  {
    assert y in Sub(s, y);
    SubOfFrame(s, t, y, |Rec(s, y).children|);
  }

  lemma SubOfFrame<K, V>(s: seq<NodeRec<K, V>>, t: seq<NodeRec<K, V>>, y: K, k: nat)
    requires Ordered(s) && Ordered(t) && y in Ids(s) && k <= |Rec(s, y).children|
    requires SameChildrenOn(s, t, Sub(s, y))
    ensures y in Ids(t) && k <= |Rec(t, y).children| && SubOf(t, y, k) == SubOf(s, y, k)
    decreases |s| - Ix(s, y), 0, k
  {
    assert y in Sub(s, y);
    assert Rec(t, y).children == Rec(s, y).children;
    if k > 0 {
      var c := Rec(s, y).children[k - 1];
      ChildAfter(s, y, c);
      ChildSub(s, y, c);
      SubOfFrame(s, t, y, k - 1);
      SubFrame(s, t, c);
    }
  }
}
