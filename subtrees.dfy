/**
 * get_subtree: the records from a node downwards, as a new list. Without a
 * generation bound it lists the node and then, child by child, the
 * child's own subtree. With a bound `g` it lists the node and then, for
 * every generation number `cur` below `g` and every child, the child's
 * subtree bounded by `cur`; nodes more than one level down therefore occur
 * more than once.
 */
module Subtrees {
  import opened Arena
  import opened Descendants
  import opened Traversal
  import opened Metrics

  /** The records get_subtree collects for `x` (none when `x` is absent). */
  function Subtree<K(==), V>(s: seq<NodeRec<K, V>>, x: K, generations: Option<int>): seq<NodeRec<K, V>>
    requires Ordered(s)
    decreases if x in Ids(s) then |s| - Ix(s, x) else 0, 2, 0
  {
    if x !in Ids(s) then []
    else
      match generations
      case None => [Rec(s, x)] + Family(s, x, |Rec(s, x).children|)
      case Some(g) => [Rec(s, x)] + Generations(s, x, if g < 0 then 0 else g)
  }

  /** The unbounded subtrees of the first `k` children of `x`, one after
      the other. */
  function Family<K(==), V>(s: seq<NodeRec<K, V>>, x: K, k: nat): seq<NodeRec<K, V>>
    requires Ordered(s) && x in Ids(s) && k <= |Rec(s, x).children|
    decreases |s| - Ix(s, x), 1, k
  {
    if k == 0 then []
    else
      var c := Rec(s, x).children[k - 1];
      ChildAfter(s, x, c);
      Family(s, x, k - 1) + Subtree(s, c, None)
  }

  /** The rounds `cur` = 0 .. g-1 of the bounded listing below `x`. */
  function Generations<K(==), V>(s: seq<NodeRec<K, V>>, x: K, g: nat): seq<NodeRec<K, V>>
    requires Ordered(s) && x in Ids(s)
    decreases |s| - Ix(s, x), 1, g
  {
    if g == 0 then []
    else Generations(s, x, g - 1) + Layer(s, x, g - 1, |Rec(s, x).children|)
  }

  /** One round: the subtrees bounded by `cur` of the first `k` children. */
  function Layer<K(==), V>(s: seq<NodeRec<K, V>>, x: K, cur: nat, k: nat): seq<NodeRec<K, V>>
    requires Ordered(s) && x in Ids(s) && k <= |Rec(s, x).children|
    decreases |s| - Ix(s, x), 0, k
  {
    if k == 0 then []
    else
      var c := Rec(s, x).children[k - 1];
      ChildAfter(s, x, c);
      Layer(s, x, cur, k - 1) + Subtree(s, c, Some(cur))
  }

  /** Every element of `rs` is the stored record of its id. */
  ghost predicate Copies<K, V>(s: seq<NodeRec<K, V>>, rs: seq<NodeRec<K, V>>)
    requires Unique(s)
  {
    forall i :: 0 <= i < |rs| ==> rs[i].id in Ids(s) && Rec(s, rs[i].id) == rs[i]
  }

  lemma CopiesAppend<K, V>(s: seq<NodeRec<K, V>>, a: seq<NodeRec<K, V>>, b: seq<NodeRec<K, V>>)
    requires Unique(s) && Copies(s, a) && Copies(s, b)
    ensures Copies(s, a + b)
  {
    forall i | 0 <= i < |a + b| ensures (a + b)[i].id in Ids(s) && Rec(s, (a + b)[i].id) == (a + b)[i] {
      if i >= |a| {
        assert (a + b)[i] == b[i - |a|];
      }
    }
  }

  /** get_subtree hands out the stored records themselves: each element is
      the record the container holds for that id. */
  lemma {:induction false} SubtreeCopies<K, V>(s: seq<NodeRec<K, V>>, x: K, generations: Option<int>)
    requires Ordered(s)
    ensures Copies(s, Subtree(s, x, generations))
    decreases if x in Ids(s) then |s| - Ix(s, x) else 0, 2, 0
  {
    if x in Ids(s) {
      IxOf(s, Ix(s, x));
      match generations
      case None =>
        FamilyCopies(s, x, |Rec(s, x).children|);
        CopiesAppend(s, [Rec(s, x)], Family(s, x, |Rec(s, x).children|));
      case Some(g) =>
        GenerationsCopies(s, x, if g < 0 then 0 else g);
        CopiesAppend(s, [Rec(s, x)], Generations(s, x, if g < 0 then 0 else g));
    }
  }

  lemma {:induction false} FamilyCopies<K, V>(s: seq<NodeRec<K, V>>, x: K, k: nat)
    requires Ordered(s) && x in Ids(s) && k <= |Rec(s, x).children|
    ensures Copies(s, Family(s, x, k))
    decreases |s| - Ix(s, x), 1, k
  {
    if k > 0 {
      var c := Rec(s, x).children[k - 1];
      ChildAfter(s, x, c);
      FamilyCopies(s, x, k - 1);
      SubtreeCopies(s, c, None);
      CopiesAppend(s, Family(s, x, k - 1), Subtree(s, c, None));
    }
  }

  lemma {:induction false} GenerationsCopies<K, V>(s: seq<NodeRec<K, V>>, x: K, g: nat)
    requires Ordered(s) && x in Ids(s)
    ensures Copies(s, Generations(s, x, g))
    decreases |s| - Ix(s, x), 1, g
  {
    if g > 0 {
      GenerationsCopies(s, x, g - 1);
      LayerCopies(s, x, g - 1, |Rec(s, x).children|);
      CopiesAppend(s, Generations(s, x, g - 1), Layer(s, x, g - 1, |Rec(s, x).children|));
    }
  }

  lemma {:induction false} LayerCopies<K, V>(s: seq<NodeRec<K, V>>, x: K, cur: nat, k: nat)
    requires Ordered(s) && x in Ids(s) && k <= |Rec(s, x).children|
    ensures Copies(s, Layer(s, x, cur, k))
    decreases |s| - Ix(s, x), 0, k
  {
    if k > 0 {
      var c := Rec(s, x).children[k - 1];
      ChildAfter(s, x, c);
      LayerCopies(s, x, cur, k - 1);
      SubtreeCopies(s, c, Some(cur));
      CopiesAppend(s, Layer(s, x, cur, k - 1), Subtree(s, c, Some(cur)));
    }
  }

  /** Without a bound, the ids of the subtree are its pre-order traversal. */
  lemma {:induction false} SubtreeIsPreOrder<K, V>(s: seq<NodeRec<K, V>>, x: K)
    requires Ordered(s) && x in Ids(s)
    ensures Ids(Subtree(s, x, None)) == Traverse(s, PreOrder, x)
    decreases |s| - Ix(s, x), 1, 0
  {
    var n := |Rec(s, x).children|;
    FamilyIsWalk(s, x, n);
    IdsAppend([Rec(s, x)], Family(s, x, n));
    PreOrderIsConcatenation(s, x);
  }

  lemma {:induction false} FamilyIsWalk<K, V>(s: seq<NodeRec<K, V>>, x: K, k: nat)
    requires Ordered(s) && x in Ids(s) && k <= |Rec(s, x).children|
    ensures Ids(Family(s, x, k)) == Walk(s, PreOrder, x, k)
    decreases |s| - Ix(s, x), 0, k
  {
    if k == 0 {
      assert Family(s, x, 0) == [];
    } else {
      var c := Rec(s, x).children[k - 1];
      ChildAfter(s, x, c);
      var a, b := Family(s, x, k - 1), Subtree(s, c, None);
      FamilyIsWalk(s, x, k - 1);
      SubtreeIsPreOrder(s, c);
      IdsAppend(a, b);
      calc {
        Ids(Family(s, x, k));
        Ids(a + b);
        Ids(a) + Ids(b);
        Walk(s, PreOrder, x, k - 1) + Traverse(s, PreOrder, c);
        Walk(s, PreOrder, x, k);
      }
    }
  }

  /** Without a bound the subtree holds each node below `x` exactly once. */
  lemma SubtreeSize<K, V>(s: seq<NodeRec<K, V>>, x: K)
    requires Ordered(s) && x in Ids(s)
    ensures |Subtree(s, x, None)| == |Sub(s, x)|
    ensures Distinct(Ids(Subtree(s, x, None))) && Elems(Ids(Subtree(s, x, None))) == Sub(s, x)
  {
    SubtreeIsPreOrder(s, x);
    TraverseLength(s, PreOrder, x);
    TraverseElems(s, PreOrder, x);
  }

  /** A bound of zero generations (or less) gives the node alone. */
  lemma SubtreeZero<K, V>(s: seq<NodeRec<K, V>>, x: K, g: int)
    requires Ordered(s) && x in Ids(s) && g <= 0
    ensures Subtree(s, x, Some(g)) == [Rec(s, x)]
  {
  }

  /** One generation gives the node followed by its children, in order. */
  lemma SubtreeOne<K, V>(s: seq<NodeRec<K, V>>, x: K)
    requires Ordered(s) && x in Ids(s)
    ensures Ids(Subtree(s, x, Some(1))) == [x] + Rec(s, x).children
  {
    var ch := Rec(s, x).children;
    var l := Layer(s, x, 0, |ch|);
    LayerOfLeaves(s, x, |ch|);
    IdsAppend([Rec(s, x)], l);
    calc {
      Ids(Subtree(s, x, Some(1)));
      Ids([Rec(s, x)] + Generations(s, x, 1));
      { assert Generations(s, x, 1) == [] + l; }
      Ids([Rec(s, x)] + l);
      Ids([Rec(s, x)]) + Ids(l);
      { assert ch[..|ch|] == ch; }
      [x] + ch;
    }
  }

  lemma {:induction false} LayerOfLeaves<K, V>(s: seq<NodeRec<K, V>>, x: K, k: nat)
    requires Ordered(s) && x in Ids(s) && k <= |Rec(s, x).children|
    ensures Ids(Layer(s, x, 0, k)) == Rec(s, x).children[..k]
  {
    var ch := Rec(s, x).children;
    if k == 0 {
      assert Layer(s, x, 0, 0) == [];
    } else {
      var c := ch[k - 1];
      ChildAfter(s, x, c);
      var a := Layer(s, x, 0, k - 1);
      LayerOfLeaves(s, x, k - 1);
      IdsAppend(a, [Rec(s, c)]);
      calc {
        Ids(Layer(s, x, 0, k));
        { assert Subtree(s, c, Some(0)) == [Rec(s, c)] + []; }
        Ids(a + [Rec(s, c)]);
        Ids(a) + Ids([Rec(s, c)]);
        ch[..k - 1] + [c];
        { assert ch[..k] == ch[..k - 1] + [c]; }
        ch[..k];
      }
    }
  }

  /** A round that covers at least one child starts with the record of the
      first child. */
  lemma {:induction false} LayerStart<K, V>(s: seq<NodeRec<K, V>>, x: K, cur: nat, k: nat)
    requires Ordered(s) && x in Ids(s) && 0 < k <= |Rec(s, x).children|
    ensures Layer(s, x, cur, k) != [] && Layer(s, x, cur, k)[0].id == Rec(s, x).children[0]
  {
    var c := Rec(s, x).children[k - 1];
    ChildAfter(s, x, c);
    if k == 1 {
      assert Layer(s, x, cur, 1) == [] + Subtree(s, c, Some(cur));
    } else {
      LayerStart(s, x, cur, k - 1);
    }
  }

  /** The first two rounds of the bounded listing. */
  lemma GenerationsTwo<K, V>(s: seq<NodeRec<K, V>>, x: K)
    requires Ordered(s) && x in Ids(s)
    ensures Generations(s, x, 2) ==
      Layer(s, x, 0, |Rec(s, x).children|) + Layer(s, x, 1, |Rec(s, x).children|)
  {
    var n := |Rec(s, x).children|;
    assert Generations(s, x, 0) == [];
    assert Generations(s, x, 1) == [] + Layer(s, x, 0, n);
  }

  /** Two generations: the node, its children (round 0), then round 1. */
  lemma SubtreeTwo<K, V>(s: seq<NodeRec<K, V>>, x: K)
    requires Ordered(s) && x in Ids(s)
    ensures Ids(Subtree(s, x, Some(2))) ==
      ([x] + Rec(s, x).children) + Ids(Layer(s, x, 1, |Rec(s, x).children|))
  {
    var ch := Rec(s, x).children;
    var n := |ch|;
    var l0, l1 := Layer(s, x, 0, n), Layer(s, x, 1, n);
    calc {
      Ids(Subtree(s, x, Some(2)));
      Ids([Rec(s, x)] + Generations(s, x, 2));
      { GenerationsTwo(s, x);
        assert [Rec(s, x)] + (l0 + l1) == ([Rec(s, x)] + l0) + l1; }
      Ids(([Rec(s, x)] + l0) + l1);
      { IdsAppend([Rec(s, x)] + l0, l1); }
      Ids([Rec(s, x)] + l0) + Ids(l1);
      { IdsAppend([Rec(s, x)], l0);
        assert Ids([Rec(s, x)]) == [x];
        LayerOfLeaves(s, x, n);
        assert ch[..n] == ch; }
      ([x] + ch) + Ids(l1);
    }
  }

  /** Two generations list the first child twice: once in round 0 and again
      at the head of its own subtree in round 1. */
  lemma SubtreeRepeats<K, V>(s: seq<NodeRec<K, V>>, x: K)
    requires Ordered(s) && x in Ids(s) && Rec(s, x).children != []
    ensures |Ids(Subtree(s, x, Some(2)))| > |Rec(s, x).children| + 1
    ensures Ids(Subtree(s, x, Some(2)))[1] == Rec(s, x).children[0]
    ensures Ids(Subtree(s, x, Some(2)))[|Rec(s, x).children| + 1] == Rec(s, x).children[0]
  {
    SubtreeTwo(s, x);
    LayerStart(s, x, 1, |Rec(s, x).children|);
  }

  /** An absent id gives an empty subtree. */
  lemma SubtreeAbsent<K, V>(s: seq<NodeRec<K, V>>, x: K, generations: Option<int>)
    requires Ordered(s) && x !in Ids(s)
    ensures Subtree(s, x, generations) == []
  {
  }

  // ---------------------------------------------------------------------
  // Generation bounds
  // ---------------------------------------------------------------------

  /** The nodes at most `g` levels below `x`. */
  ghost function Near<K, V>(s: seq<NodeRec<K, V>>, x: K, g: nat): set<K>
    requires Ordered(s) && x in Ids(s)
    decreases |s| - Ix(s, x), 1, 0
  {
    {x} + if g == 0 then {} else NearOf(s, x, g - 1, |Rec(s, x).children|)
  }

  /** The nodes at most `h` levels below one of the first `k` children. */
  ghost function NearOf<K, V>(s: seq<NodeRec<K, V>>, x: K, h: nat, k: nat): set<K>
    requires Ordered(s) && x in Ids(s) && k <= |Rec(s, x).children|
    decreases |s| - Ix(s, x), 0, k
  {
    if k == 0 then {}
    else
      var c := Rec(s, x).children[k - 1];
      ChildAfter(s, x, c);
      NearOf(s, x, h, k - 1) + Near(s, c, h)
  }

  /** Allowing one more level never loses a node. */
  lemma {:induction false} NearGrows<K, V>(s: seq<NodeRec<K, V>>, x: K, g: nat, m: K)
    requires Ordered(s) && x in Ids(s)
    ensures m in Near(s, x, g) ==> m in Near(s, x, g + 1)
    decreases |s| - Ix(s, x), 1, 0
  {
    if g > 0 {
      NearOfGrows(s, x, g - 1, |Rec(s, x).children|, m);
    }
  }

  lemma {:induction false} NearOfGrows<K, V>(s: seq<NodeRec<K, V>>, x: K, h: nat, k: nat, m: K)
    requires Ordered(s) && x in Ids(s) && k <= |Rec(s, x).children|
    ensures m in NearOf(s, x, h, k) ==> m in NearOf(s, x, h + 1, k)
    decreases |s| - Ix(s, x), 0, k
  {
    if k > 0 {
      var c := Rec(s, x).children[k - 1];
      ChildAfter(s, x, c);
      assert NearOf(s, x, h, k) == NearOf(s, x, h, k - 1) + Near(s, c, h);
      assert NearOf(s, x, h + 1, k) == NearOf(s, x, h + 1, k - 1) + Near(s, c, h + 1);
      NearOfGrows(s, x, h, k - 1, m);
      NearGrows(s, c, h, m);
    }
  }

  /** An id of a concatenation is an id of one of its parts. */
  lemma InIdsAppend<K, V>(a: seq<NodeRec<K, V>>, b: seq<NodeRec<K, V>>, m: K)
    ensures m in Ids(a + b) <==> m in Ids(a) || m in Ids(b)
  {
    IdsAppend(a, b);
  }

  /** With a bound, get_subtree lists exactly the nodes at most that many
      levels below `x` (some of them several times). */
  lemma SubtreeWithin<K, V>(s: seq<NodeRec<K, V>>, x: K, g: int)
    requires Ordered(s) && x in Ids(s)
    ensures Elems(Ids(Subtree(s, x, Some(g)))) == Near(s, x, if g < 0 then 0 else g)
  {
    var q := Ids(Subtree(s, x, Some(g)));
    var near := Near(s, x, if g < 0 then 0 else g);
    forall m | m in Elems(q)
      ensures m in near
    {
      SubtreeHas(s, x, g, m);
    }
    forall m | m in near
      ensures m in Elems(q)
    {
      SubtreeHas(s, x, g, m);
    }
  }

  lemma {:induction false} SubtreeHas<K, V>(s: seq<NodeRec<K, V>>, x: K, g: int, m: K)
    requires Ordered(s) && x in Ids(s)
    ensures m in Ids(Subtree(s, x, Some(g))) <==> m in Near(s, x, if g < 0 then 0 else g)
    decreases |s| - Ix(s, x), 2, 0
  {
    var n := if g < 0 then 0 else g;
    GenerationsHas(s, x, n, m);
    InIdsAppend([Rec(s, x)], Generations(s, x, n), m);
    assert Ids([Rec(s, x)]) == [x];
  }

  lemma {:induction false} GenerationsHas<K, V>(s: seq<NodeRec<K, V>>, x: K, g: nat, m: K)
    requires Ordered(s) && x in Ids(s)
    ensures m in Ids(Generations(s, x, g)) <==> g > 0 && m in NearOf(s, x, g - 1, |Rec(s, x).children|)
    decreases |s| - Ix(s, x), 1, g
  {
    var n := |Rec(s, x).children|;
    if g > 0 {
      var a := Generations(s, x, g - 1);
      var b := Layer(s, x, g - 1, n);
      assert Generations(s, x, g) == a + b;
      GenerationsHas(s, x, g - 1, m);
      LayerHas(s, x, g - 1, n, m);
      InIdsAppend(a, b, m);
      if g > 1 {
        NearOfGrows(s, x, g - 2, n, m);
      }
    }
  }

  lemma {:induction false} LayerHas<K, V>(s: seq<NodeRec<K, V>>, x: K, cur: nat, k: nat, m: K)
    requires Ordered(s) && x in Ids(s) && k <= |Rec(s, x).children|
    ensures m in Ids(Layer(s, x, cur, k)) <==> m in NearOf(s, x, cur, k)
    decreases |s| - Ix(s, x), 0, k
  {
    if k > 0 {
      var c := Rec(s, x).children[k - 1];
      ChildAfter(s, x, c);
      var a := Layer(s, x, cur, k - 1);
      var b := Subtree(s, c, Some(cur));
      assert Layer(s, x, cur, k) == a + b;
      assert NearOf(s, x, cur, k) == NearOf(s, x, cur, k - 1) + Near(s, c, cur);
      LayerHas(s, x, cur, k - 1, m);
      SubtreeHas(s, c, cur, m);
      InIdsAppend(a, b, m);
    }
  }

  /** A bound at least the height of `x` reaches every node below it. */
  lemma NearAll<K, V>(s: seq<NodeRec<K, V>>, x: K, g: nat)
    requires Ordered(s) && x in Ids(s) && Height(s, x) <= g
    ensures Near(s, x, g) == Sub(s, x)
  {
    forall m | m in Near(s, x, g)
      ensures m in Sub(s, x)
    {
      NearHasAll(s, x, g, m);
    }
    forall m | m in Sub(s, x)
      ensures m in Near(s, x, g)
    {
      NearHasAll(s, x, g, m);
    }
  }

  lemma {:induction false} NearHasAll<K, V>(s: seq<NodeRec<K, V>>, x: K, g: nat, m: K)
    requires Ordered(s) && x in Ids(s) && Height(s, x) <= g
    ensures m in Near(s, x, g) <==> m in Sub(s, x)
    decreases |s| - Ix(s, x), 1, 0
  {
    var n := |Rec(s, x).children|;
    if g == 0 {
      assert n == 0;
    } else {
      NearOfHasAll(s, x, g - 1, n, m);
    }
  }

  lemma {:induction false} NearOfHasAll<K, V>(s: seq<NodeRec<K, V>>, x: K, h: nat, k: nat, m: K)
    requires Ordered(s) && x in Ids(s) && k <= |Rec(s, x).children| && Height(s, x) <= h + 1
    ensures m in NearOf(s, x, h, k) <==> m in SubOf(s, x, k)
    decreases |s| - Ix(s, x), 0, k
  {
    if k > 0 {
      var n := |Rec(s, x).children|;
      var c := Rec(s, x).children[k - 1];
      ChildAfter(s, x, c);
      ChildLower(s, x, k - 1, h);
      NearOfHasAll(s, x, h, k - 1, m);
      NearHasAll(s, c, h, m);
      assert NearOf(s, x, h, k) == NearOf(s, x, h, k - 1) + Near(s, c, h);
      assert SubOf(s, x, k) == SubOf(s, x, k - 1) + Sub(s, c);
    }
  }

  /** Every child is at least one level lower than its parent. */
  lemma ChildLower<K, V>(s: seq<NodeRec<K, V>>, x: K, j: nat, h: nat)
    requires Ordered(s) && x in Ids(s) && j < |Rec(s, x).children| && Height(s, x) <= h + 1
    ensures Rec(s, x).children[j] in Ids(s) && Height(s, Rec(s, x).children[j]) <= h
  {
    MaxHeightUpper(s, x, |Rec(s, x).children|, j);
  }
}
