/**
 * Depth-first listing of the ids below a node in pre-, post- or the
 * container's own "in" order (traverse), including the final pass that keeps
 * only the first occurrence of every id.
 */
module Traversal {
  import opened Arena
  import opened Descendants

  datatype TraversalStrategy = PreOrder | PostOrder | InOrder

  /** `v` with every element after its first occurrence removed. */
  function Dedup<K(==)>(v: seq<K>): (r: seq<K>)
    ensures forall a :: a in r ==> a in v
    ensures forall a :: a in v ==> a in r
    ensures |r| <= |v|
  {
    if v == [] then []
    else
      var init, last := v[..|v| - 1], v[|v| - 1];
      assert v == init + [last];
      var d := Dedup(init);
      if last in init then d else d + [last]
  }

  /** The repeat-removal pass leaves no repeats. */
  lemma {:induction false} DedupDistinct<K>(v: seq<K>)
    ensures Distinct(Dedup(v))
  {
    if v != [] {
      var init, last := v[..|v| - 1], v[|v| - 1];
      assert v == init + [last];
      DedupDistinct(init);
      var d := Dedup(init);
      if last !in init {
        assert last !in d;
        DistinctAppend(d, [last]);
      }
    }
  }

  lemma ElemsAppend<K>(a: seq<K>, b: seq<K>)
    ensures Elems(a + b) == Elems(a) + Elems(b)
  {
  }

  /** Removing repeats from a list without repeats changes nothing. */
  lemma {:induction false} DedupOfDistinct<K>(v: seq<K>)
    requires Distinct(v)
    ensures Dedup(v) == v
  {
    if v != [] {
      var init := v[..|v| - 1];
      forall a, b | 0 <= a < b < |init| ensures At(init, a) != At(init, b) {
        assert At(v, a) != At(v, b);
      }
      DedupOfDistinct(init);
      forall j | 0 <= j < |init| ensures init[j] != v[|v| - 1] {
        assert At(v, j) != At(v, |v| - 1);
      }
      assert v == init + [v[|v| - 1]];
    }
  }

  /** The first element always survives. */
  lemma {:induction false} DedupKeepsFirst<K>(v: seq<K>)
    requires v != []
    ensures Dedup(v) != [] && Dedup(v)[0] == v[0]
  {
    if |v| > 1 {
      var init := v[..|v| - 1];
      DedupKeepsFirst(init);
      assert init[0] == v[0];
    }
  }

  /** `v` with `e` appended unless already present (the `contains` checks of
      the first "in" order step). */
  function PushIfAbsent<K(==)>(v: seq<K>, e: K): (r: seq<K>)
    ensures Elems(r) == Elems(v) + {e}
  {
    if e in v then v else ElemsAppend(v, [e]); v + [e]
  }

  /** The list traverse returns for `x`, after removing repeats, so no id
      is listed twice. */
  function Traverse<K(==), V>(s: seq<NodeRec<K, V>>, order: TraversalStrategy, x: K): (r: seq<K>)
    requires Ordered(s) && x in Ids(s)
    ensures Distinct(r)
    decreases |s| - Ix(s, x), 1, 0
  {
    var w := Walk(s, order, x, |Rec(s, x).children|);
    match order
    case PreOrder => DedupDistinct([x] + w); Dedup([x] + w)
    case PostOrder => DedupDistinct(w + [x]); Dedup(w + [x])
    case InOrder => DedupDistinct(w); Dedup(w)
  }

  /** The list traverse has built once the first `k` children of `x` are
      processed, leaving out the `x` pushed before (pre-order) or after
      (post-order) the children. In "in" order the first child contributes
      its own listing, then itself and then `x` when not yet present; every
      later child contributes itself followed by its own listing. */
  function Walk<K(==), V>(s: seq<NodeRec<K, V>>, order: TraversalStrategy, x: K, k: nat): seq<K>
    requires Ordered(s) && x in Ids(s) && k <= |Rec(s, x).children|
    decreases |s| - Ix(s, x), 0, k
  {
    if k == 0 then []
    else
      var c := Rec(s, x).children[k - 1];
      ChildAfter(s, x, c);
      var prev := Walk(s, order, x, k - 1);
      var sub := Traverse(s, order, c);
      if order.InOrder? then
        if k == 1 then PushIfAbsent(PushIfAbsent(prev + sub, c), x)
        else prev + [c] + sub
      else prev + sub
  }

  /** The ids a traversal lists: everything below `x` (in order, a leaf lists
      nothing). */
  lemma TraverseElems<K, V>(s: seq<NodeRec<K, V>>, order: TraversalStrategy, x: K)
    requires Ordered(s) && x in Ids(s)
    ensures !order.InOrder? || Rec(s, x).children != [] ==> Elems(Traverse(s, order, x)) == Sub(s, x)
    ensures order.InOrder? && Rec(s, x).children == [] ==> Traverse(s, order, x) == []
    decreases |s| - Ix(s, x), 1, 0
  {
    var n := |Rec(s, x).children|;
    var w := Walk(s, order, x, n);
    WalkElems(s, order, x, n);
    match order
    case PreOrder =>
      ElemsAppend([x], w);
      assert Elems(Dedup([x] + w)) == Elems([x] + w);
    case PostOrder =>
      ElemsAppend(w, [x]);
      assert Elems(Dedup(w + [x])) == Elems(w + [x]);
    case InOrder =>
      assert Elems(Dedup(w)) == Elems(w);
  }

  lemma WalkElems<K, V>(s: seq<NodeRec<K, V>>, order: TraversalStrategy, x: K, k: nat)
    requires Ordered(s) && x in Ids(s) && k <= |Rec(s, x).children|
    ensures !order.InOrder? ==> Elems(Walk(s, order, x, k)) == SubOf(s, x, k)
    ensures order.InOrder? && k > 0 ==> Elems(Walk(s, order, x, k)) == {x} + SubOf(s, x, k)
    ensures order.InOrder? && k == 0 ==> Walk(s, order, x, k) == []
    decreases |s| - Ix(s, x), 0, k
  {
    if k > 0 {
      var c := Rec(s, x).children[k - 1];
      ChildAfter(s, x, c);
      WalkElems(s, order, x, k - 1);
      if !order.InOrder? {
        TraverseElems(s, order, c);
        WalkStepElems(s, order, x, k);
      } else {
        InOrderChildElems(s, c);
        if k == 1 {
          InOrderFirstStepElems(s, x);
        } else {
          InOrderLaterStepElems(s, x, k);
        }
      }
    }
  }

  /** An "in" order listing together with its own top is the whole subtree. */
  lemma InOrderChildElems<K, V>(s: seq<NodeRec<K, V>>, c: K)
    requires Ordered(s) && c in Ids(s)
    ensures Elems(Traverse(s, InOrder, c)) + {c} == Sub(s, c)
    decreases |s| - Ix(s, c), 2, 0
  {
    TraverseElems(s, InOrder, c);
    if Rec(s, c).children == [] {
      assert Sub(s, c) == {c};
    }
  }

  /** One pre- or post-order step adds the new child's subtree. */
  lemma WalkStepElems<K, V>(s: seq<NodeRec<K, V>>, order: TraversalStrategy, x: K, k: nat)
    requires Ordered(s) && x in Ids(s) && 0 < k <= |Rec(s, x).children| && !order.InOrder?
    requires Rec(s, x).children[k - 1] in Ids(s)
    requires Elems(Walk(s, order, x, k - 1)) == SubOf(s, x, k - 1)
    requires Elems(Traverse(s, order, Rec(s, x).children[k - 1])) == Sub(s, Rec(s, x).children[k - 1])
    ensures Elems(Walk(s, order, x, k)) == SubOf(s, x, k)
  {
    var c := Rec(s, x).children[k - 1];
    ElemsAppend(Walk(s, order, x, k - 1), Traverse(s, order, c));
  }

  /** The first "in" order step adds the first child's subtree and `x`. */
  lemma InOrderFirstStepElems<K, V>(s: seq<NodeRec<K, V>>, x: K)
    requires Ordered(s) && x in Ids(s) && 0 < |Rec(s, x).children|
    requires Rec(s, x).children[0] in Ids(s)
    requires Elems(Traverse(s, InOrder, Rec(s, x).children[0])) + {Rec(s, x).children[0]} ==
      Sub(s, Rec(s, x).children[0])
    ensures Elems(Walk(s, InOrder, x, 1)) == {x} + SubOf(s, x, 1)
  {
    var c := Rec(s, x).children[0];
    ElemsAppend([], Traverse(s, InOrder, c));
  }

  /** A later "in" order step adds the child and its subtree. */
  lemma InOrderLaterStepElems<K, V>(s: seq<NodeRec<K, V>>, x: K, k: nat)
    requires Ordered(s) && x in Ids(s) && 1 < k <= |Rec(s, x).children|
    requires Rec(s, x).children[k - 1] in Ids(s)
    requires Elems(Walk(s, InOrder, x, k - 1)) == {x} + SubOf(s, x, k - 1)
    requires Elems(Traverse(s, InOrder, Rec(s, x).children[k - 1])) + {Rec(s, x).children[k - 1]} ==
      Sub(s, Rec(s, x).children[k - 1])
    ensures Elems(Walk(s, InOrder, x, k)) == {x} + SubOf(s, x, k)
  {
    var c := Rec(s, x).children[k - 1];
    var prev := Walk(s, InOrder, x, k - 1);
    var sub := Traverse(s, InOrder, c);
    ElemsAppend([c], sub);
    ElemsAppend(prev, [c] + sub);
    assert prev + [c] + sub == prev + ([c] + sub);
  }

  /** Pre-order listing starts at `x`. */
  lemma PreOrderStartsAtNode<K, V>(s: seq<NodeRec<K, V>>, x: K)
    requires Ordered(s) && x in Ids(s)
    ensures Traverse(s, PreOrder, x) != [] && Traverse(s, PreOrder, x)[0] == x
  {
    DedupKeepsFirst([x] + Walk(s, PreOrder, x, |Rec(s, x).children|));
  }

  /** Post-order listing ends at `x`. */
  lemma PostOrderEndsAtNode<K, V>(s: seq<NodeRec<K, V>>, x: K)
    requires Ordered(s) && x in Ids(s)
    ensures Traverse(s, PostOrder, x) != []
    ensures Traverse(s, PostOrder, x)[|Traverse(s, PostOrder, x)| - 1] == x
  {
    var n := |Rec(s, x).children|;
    var w := Walk(s, PostOrder, x, n);
    WalkElems(s, PostOrder, x, n);
    SubOfBelow(s, x, n);
    assert x !in w by {
      assert x !in Elems(w);
    }
    assert (w + [x])[..|w + [x]| - 1] == w;
  }

  /** In pre- and post-order no id is reached twice: the listings of distinct
      siblings are disjoint, so the repeat-removal pass keeps everything and
      the result is the textbook concatenation of the children's listings. */
  lemma {:induction false} WalkDistinct<K, V>(s: seq<NodeRec<K, V>>, order: TraversalStrategy, x: K, k: nat)
    requires Ordered(s) && x in Ids(s) && k <= |Rec(s, x).children| && !order.InOrder?
    ensures Distinct(Walk(s, order, x, k))
  {
    if k > 0 {
      var c := Rec(s, x).children[k - 1];
      ChildAfter(s, x, c);
      var prev, sub := Walk(s, order, x, k - 1), Traverse(s, order, c);
      WalkDistinct(s, order, x, k - 1);
      SubOfDisjoint(s, x, k);
      WalkElems(s, order, x, k - 1);
      TraverseElems(s, order, c);
      DistinctAppend(prev, sub);
    }
  }

  /** Pre-order: `x` followed by each child's pre-order listing, in child
      order, with nothing removed. */
  lemma PreOrderIsConcatenation<K, V>(s: seq<NodeRec<K, V>>, x: K)
    requires Ordered(s) && x in Ids(s)
    ensures Traverse(s, PreOrder, x) == [x] + Walk(s, PreOrder, x, |Rec(s, x).children|)
  {
    var n := |Rec(s, x).children|;
    var w := Walk(s, PreOrder, x, n);
    WalkDistinct(s, PreOrder, x, n);
    WalkElems(s, PreOrder, x, n);
    SubOfBelow(s, x, n);
    assert x !in Elems(w);
    DistinctAppend([x], w);
    DedupOfDistinct([x] + w);
  }

  /** Post-order: each child's post-order listing, in child order, then `x`,
      with nothing removed. */
  lemma PostOrderIsConcatenation<K, V>(s: seq<NodeRec<K, V>>, x: K)
    requires Ordered(s) && x in Ids(s)
    ensures Traverse(s, PostOrder, x) == Walk(s, PostOrder, x, |Rec(s, x).children|) + [x]
  {
    var n := |Rec(s, x).children|;
    var w := Walk(s, PostOrder, x, n);
    WalkDistinct(s, PostOrder, x, n);
    WalkElems(s, PostOrder, x, n);
    SubOfBelow(s, x, n);
    assert x !in Elems(w);
    DistinctAppend(w, [x]);
    DedupOfDistinct(w + [x]);
  }

  /** Every traversal lists each id at most once, and in pre- and
      post-order exactly the ids below `x`, so its length is their number. */
  lemma TraverseLength<K, V>(s: seq<NodeRec<K, V>>, order: TraversalStrategy, x: K)
    requires Ordered(s) && x in Ids(s)
    requires !order.InOrder? || Rec(s, x).children != []
    ensures |Traverse(s, order, x)| == |Sub(s, x)|
  {
    TraverseElems(s, order, x);
    DistinctCard(Traverse(s, order, x));
  }

  /** "In" order of a leaf lists nothing, not even the leaf. */
  lemma InOrderOfLeaf<K, V>(s: seq<NodeRec<K, V>>, x: K)
    requires Ordered(s) && x in Ids(s) && Rec(s, x).children == []
    ensures Traverse(s, InOrder, x) == []
  {
  }
}
