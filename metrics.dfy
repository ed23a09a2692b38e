/**
 * Height, depth and degree of a node (get_node_height, get_node_depth,
 * get_height, get_node_degree), and how they relate to the shape of the
 * tree: height is the longest downward path, depth the length of the parent
 * chain up to the root, degree the number of nodes naming this one as parent.
 */
module Metrics {
  import opened Arena
  import opened Descendants

  /** Height of `x`: 0 for a leaf, otherwise one more than the tallest child. */
  function Height<K(==), V>(s: seq<NodeRec<K, V>>, x: K): (h: nat)
    requires Ordered(s) && x in Ids(s)
    ensures h == 0 <==> Rec(s, x).children == []
    decreases |s| - Ix(s, x), 1, 0
  {
    var ch := Rec(s, x).children;
    if ch == [] then 0 else 1 + MaxHeight(s, x, |ch|)
  }

  /** The running maximum over the heights of the first `k` children of `x`,
      starting from 0 (the loop of get_node_height). */
  function MaxHeight<K(==), V>(s: seq<NodeRec<K, V>>, x: K, k: nat): nat
    requires Ordered(s) && x in Ids(s) && k <= |Rec(s, x).children|
    decreases |s| - Ix(s, x), 0, k
  {
    if k == 0 then 0
    else
      var c := Rec(s, x).children[k - 1];
      ChildAfter(s, x, c);
      var m := MaxHeight(s, x, k - 1);
      var h := Height(s, c);
      if h > m then h else m
  }

  /** The running maximum bounds the height of every child seen so far. */
  lemma {:induction false} MaxHeightUpper<K, V>(s: seq<NodeRec<K, V>>, x: K, k: nat, j: nat)
    requires Ordered(s) && x in Ids(s) && j < k <= |Rec(s, x).children|
    ensures Rec(s, x).children[j] in Ids(s)
    ensures Height(s, Rec(s, x).children[j]) <= MaxHeight(s, x, k)
  {
    ChildAfter(s, x, Rec(s, x).children[j]);
    if j < k - 1 {
      MaxHeightUpper(s, x, k - 1, j);
    }
  }

  /** Once a child has been seen, the running maximum is the height of one
      of the children seen. */
  lemma {:induction false} MaxHeightReached<K, V>(s: seq<NodeRec<K, V>>, x: K, k: nat) returns (j: nat)
    requires Ordered(s) && x in Ids(s) && 0 < k <= |Rec(s, x).children|
    ensures j < k && Rec(s, x).children[j] in Ids(s)
    ensures Height(s, Rec(s, x).children[j]) == MaxHeight(s, x, k)
  {
    var ch := Rec(s, x).children;
    ChildAfter(s, x, ch[k - 1]);
    j := k - 1;
    if k > 1 {
      var i := MaxHeightReached(s, x, k - 1);
      if Height(s, ch[k - 1]) <= MaxHeight(s, x, k - 1) {
        j := i;
      }
    }
  }

  /** Height is the longest downward path: a leaf has height 0, and otherwise
      the height exceeds every child's height by at least one and some
      child's by exactly one. */
  lemma HeightIsLongestPath<K, V>(s: seq<NodeRec<K, V>>, x: K)
    requires Ordered(s) && x in Ids(s)
    ensures Height(s, x) == 0 <==> Rec(s, x).children == []
    ensures forall c :: c in Rec(s, x).children ==> c in Ids(s) && Height(s, c) + 1 <= Height(s, x)
    ensures Rec(s, x).children != [] ==>
      exists c :: c in Rec(s, x).children && c in Ids(s) && Height(s, c) + 1 == Height(s, x)
  {
    var ch := Rec(s, x).children;
    forall c | c in ch ensures c in Ids(s) && Height(s, c) + 1 <= Height(s, x) {
      var j :| 0 <= j < |ch| && ch[j] == c;
      MaxHeightUpper(s, x, |ch|, j);
    }
    if ch != [] {
      var j := MaxHeightReached(s, x, |ch|);
      assert ch[j] in ch;
    }
  }

  /** The height of a node is smaller than the number of nodes below it. */
  lemma {:induction false} HeightBelowSize<K, V>(s: seq<NodeRec<K, V>>, x: K)
    requires Ordered(s) && x in Ids(s)
    ensures Height(s, x) < |Sub(s, x)|
    decreases |s| - Ix(s, x)
  {
    HeightIsLongestPath(s, x);
    var ch := Rec(s, x).children;
    if ch != [] {
      var c :| c in ch && c in Ids(s) && Height(s, c) + 1 == Height(s, x);
      ChildAfter(s, x, c);
      ChildSub(s, x, c);
      HeightBelowSize(s, c);
      SubBelow(s, c);
      assert x in Sub(s, x) && x !in Sub(s, c);
      SubsetCard(Sub(s, c) + {x}, Sub(s, x));
    }
  }

  /** Depth of `x`: the number of parent links from `x` up to a parentless
      node (get_node_depth). */
  function Depth<K(==), V>(s: seq<NodeRec<K, V>>, x: K): (d: nat)
    requires Valid(s) && x in Ids(s)
    ensures d <= Ix(s, x)
    decreases Ix(s, x)
  {
    match Rec(s, x).parent
    case None => 0
    case Some(p) =>
      ParentBefore(s, Ix(s, x));
      1 + Depth(s, p)
  }

  /** A node is at depth 0 exactly when it has no parent. */
  lemma DepthZero<K, V>(s: seq<NodeRec<K, V>>, x: K)
    requires Valid(s) && x in Ids(s)
    ensures Depth(s, x) == 0 <==> Rec(s, x).parent.None?
  {
  }

  /** A child is exactly one level deeper than its parent. */
  lemma DepthOfChild<K, V>(s: seq<NodeRec<K, V>>, x: K, c: K)
    requires Valid(s) && x in Ids(s) && c in Rec(s, x).children
    ensures c in Ids(s) && Depth(s, c) == Depth(s, x) + 1
  {
    ChildAfter(s, x, c);
  }

  /** In a single-rooted tree the first record is the root and every node
      lies below it. */
  lemma {:induction false} RootReachesAll<K, V>(s: seq<NodeRec<K, V>>, m: K)
    requires Valid(s) && SingleRoot(s) && m in Ids(s)
    ensures s[0].id in Ids(s) && m in Sub(s, s[0].id)
    decreases Ix(s, m)
  {
    ValidFirstIsRoot(s);
    IxOf(s, 0);
    var i := Ix(s, m);
    if s[i].parent.Some? {
      ParentBefore(s, i);
      var p := s[i].parent.value;
      RootReachesAll(s, p);
      assert ParentLinked(s, i);
      SubClosed(s, s[0].id, p, m);
    } else {
      assert i == 0;
    }
  }

  /** Depth plus height never exceeds the height of the root: the path from
      the root down through `x` to its deepest descendant is a downward path
      from the root. */
  lemma {:induction false} DepthPlusHeight<K, V>(s: seq<NodeRec<K, V>>, x: K)
    requires Valid(s) && SingleRoot(s) && x in Ids(s)
    ensures s[0].id in Ids(s) && Depth(s, x) + Height(s, x) <= Height(s, s[0].id)
    decreases Ix(s, x)
  {
    ValidFirstIsRoot(s);
    IxOf(s, 0);
    var i := Ix(s, x);
    if s[i].parent.Some? {
      ParentBefore(s, i);
      var p := s[i].parent.value;
      assert ParentLinked(s, i);
      HeightIsLongestPath(s, p);
      DepthOfChild(s, p, x);
      DepthPlusHeight(s, p);
    } else {
      assert i == 0;
    }
  }

  /** The ids whose record names `x` as parent. */
  ghost function NamedChildren<K, V>(s: seq<NodeRec<K, V>>, x: K): set<K>
    requires Unique(s)
  {
    set m | m in Ids(s) && Rec(s, m).parent == Some(x)
  }

  /** The degree reported for `x` (the length of its child list) is the
      number of nodes whose parent is `x`. */
  lemma DegreeCountsChildren<K, V>(s: seq<NodeRec<K, V>>, x: K)
    requires x in Ids(s)
    ensures Valid(s) ==> |Rec(s, x).children| == |NamedChildren(s, x)|
  {
    if !Valid(s) {
      return;
    }
    var ch := Rec(s, x).children;
    IxOf(s, Ix(s, x));
    assert Distinct(ch);
    DistinctCard(ch);
    forall m | m in ch ensures m in NamedChildren(s, x) {
      ChildAfter(s, x, m);
    }
    forall m | m in NamedChildren(s, x) ensures m in ch {
      var i := Ix(s, m);
      assert ParentLinked(s, i);
    }
    assert Elems(ch) == NamedChildren(s, x);
  }

  /** A subset is no larger than its superset. */
  lemma {:induction false} SubsetCard<K>(A: set<K>, B: set<K>)
    requires A <= B
    ensures |A| <= |B|
    decreases A
  {
    if A != {} {
      var a :| a in A;
      SubsetCard(A - {a}, B - {a});
    }
  }
}
