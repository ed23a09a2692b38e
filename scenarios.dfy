/**
 * The six-node tree of the container's traversal example: 1 has children
 * 2 and 3, 2 has children 4 and 5, 3 has child 6. Values are those given
 * to the nodes when they were added.
 */
module Scenarios {
  import opened Arena
  import opened Traversal
  import opened TreeContainer
  import Removal

  function Six(): seq<NodeRec<int, int>>
  {
    [ NodeRec(1, 2, None, [2, 3]),
      NodeRec(2, 3, Some(1), [4, 5]),
      NodeRec(3, 6, Some(1), [6]),
      NodeRec(4, 5, Some(2), []),
      NodeRec(5, 6, Some(2), []),
      NodeRec(6, 7, Some(3), []) ]
  }

  lemma SixIx(k: int)
    requires 1 <= k <= 6
    ensures k in Ids(Six()) && Ix(Six(), k) == k - 1 && Rec(Six(), k) == Six()[k - 1]
  {
    var s := Six();
    assert Ids(s) == [1, 2, 3, 4, 5, 6];
    SixUnique();
    IxOf(s, k - 1);
  }

  lemma SixUnique()
    ensures Unique(Six())
  {
    var s := Six();
    forall i, j | 0 <= i < j < |s| ensures IdAt(s, i) != IdAt(s, j) {
      assert IdAt(s, i) == i + 1 && IdAt(s, j) == j + 1;
    }
  }

  /** Record `i` of the example store is linked both ways with its
      children and its parent. */
  lemma SixLinks(i: int)
    requires 0 <= i < 6
    ensures Distinct(Six()[i].children)
    ensures forall c :: c in Six()[i].children ==> ChildLinked(Six(), i, c)
    ensures Six()[i].parent.Some? ==> ParentLinked(Six(), i)
  {
    var s := Six();
    var r := s[i];
    forall c | c in r.children ensures ChildLinked(s, i, c) {
      assert 2 <= c <= 6 && c - 1 > i;
      SixIx(c);
    }
    if r.parent.Some? {
      SixIx(r.parent.value);
    }
  }

  /** The example store is a well-formed, single-rooted tree. */
  lemma SixValid()
    ensures Valid(Six()) && SingleRoot(Six())
  {
    var s := Six();
    SixUnique();
    forall i | 0 <= i < |s|
      ensures Distinct(s[i].children)
      ensures forall c :: c in s[i].children ==> ChildLinked(s, i, c)
      ensures s[i].parent.Some? ==> ParentLinked(s, i)
    {
      SixLinks(i);
    }
  }

  /** A leaf lists itself in pre- and post-order and nothing in "in" order. */
  lemma LeafOrders<K, V>(s: seq<NodeRec<K, V>>, a: K)
    requires Ordered(s) && a in Ids(s) && Rec(s, a).children == []
    ensures Traverse(s, PreOrder, a) == [a] && Traverse(s, PostOrder, a) == [a]
    ensures Traverse(s, InOrder, a) == []
  {
    PreOrderIsConcatenation(s, a);
    PostOrderIsConcatenation(s, a);
  }

  /** Pre-order of a node with one child, from that child's listing. */
  lemma PreOfOne<K, V>(s: seq<NodeRec<K, V>>, x: K, c: K, l: seq<K>, r: seq<K>)
    requires Ordered(s) && x in Ids(s) && c in Ids(s) && Rec(s, x).children == [c]
    requires Traverse(s, PreOrder, c) == l && r == [x] + l
    ensures Traverse(s, PreOrder, x) == r
  {
    PreOrderIsConcatenation(s, x);
    WalkNext(s, PreOrder, x, 0);
    assert Walk(s, PreOrder, x, 1) == l;
  }

  /** Post-order of a node with one child, from that child's listing. */
  lemma PostOfOne<K, V>(s: seq<NodeRec<K, V>>, x: K, c: K, l: seq<K>, r: seq<K>)
    requires Ordered(s) && x in Ids(s) && c in Ids(s) && Rec(s, x).children == [c]
    requires Traverse(s, PostOrder, c) == l && r == l + [x]
    ensures Traverse(s, PostOrder, x) == r
  {
    PostOrderIsConcatenation(s, x);
    WalkNext(s, PostOrder, x, 0);
    assert Walk(s, PostOrder, x, 1) == l;
  }

  /** The pre- or post-order walk over two children is their listings one
      after the other. */
  lemma WalkOfTwo<K, V>(s: seq<NodeRec<K, V>>, order: TraversalStrategy, x: K, c: K, d: K, l: seq<K>, m: seq<K>)
    requires !order.InOrder? && Ordered(s) && x in Ids(s) && c in Ids(s) && d in Ids(s)
    requires Rec(s, x).children == [c, d]
    requires Traverse(s, order, c) == l && Traverse(s, order, d) == m
    ensures Walk(s, order, x, 2) == l + m
  {
    WalkNext(s, order, x, 0);
    assert Walk(s, order, x, 1) == l;
    WalkNext(s, order, x, 1);
  }

  /** Pre-order of a node with two children, from their listings. */
  lemma PreOfTwo<K, V>(s: seq<NodeRec<K, V>>, x: K, c: K, d: K, l: seq<K>, m: seq<K>, r: seq<K>)
    requires Ordered(s) && x in Ids(s) && c in Ids(s) && d in Ids(s) && Rec(s, x).children == [c, d]
    requires Traverse(s, PreOrder, c) == l && Traverse(s, PreOrder, d) == m && r == [x] + l + m
    ensures Traverse(s, PreOrder, x) == r
  {
    calc {
      Traverse(s, PreOrder, x);
    == { PreOrderIsConcatenation(s, x); }
      [x] + Walk(s, PreOrder, x, |Rec(s, x).children|);
    == { WalkOfTwo(s, PreOrder, x, c, d, l, m); }
      [x] + (l + m);
    == { assert [x] + l + m == [x] + (l + m); }
      r;
    }
  }

  /** Post-order of a node with two children, from their listings. */
  lemma PostOfTwo<K, V>(s: seq<NodeRec<K, V>>, x: K, c: K, d: K, l: seq<K>, m: seq<K>, r: seq<K>)
    requires Ordered(s) && x in Ids(s) && c in Ids(s) && d in Ids(s) && Rec(s, x).children == [c, d]
    requires Traverse(s, PostOrder, c) == l && Traverse(s, PostOrder, d) == m && r == l + m + [x]
    ensures Traverse(s, PostOrder, x) == r
  {
    calc {
      Traverse(s, PostOrder, x);
    == { PostOrderIsConcatenation(s, x); }
      Walk(s, PostOrder, x, |Rec(s, x).children|) + [x];
    == { WalkOfTwo(s, PostOrder, x, c, d, l, m); }
      l + m + [x];
    }
  }

  /** The "in" order walk over a first child. */
  lemma InFirst<K, V>(s: seq<NodeRec<K, V>>, x: K, c: K, l: seq<K>, r: seq<K>)
    requires Ordered(s) && x in Ids(s) && c in Ids(s)
    requires |Rec(s, x).children| > 0 && Rec(s, x).children[0] == c
    requires Traverse(s, InOrder, c) == l && r == PushIfAbsent(PushIfAbsent(l, c), x)
    ensures Walk(s, InOrder, x, 1) == r
  {
    WalkNext(s, InOrder, x, 0);
    assert Walk(s, InOrder, x, 0) + l == l;
  }

  /** The "in" order walk over a second child. */
  lemma InSecond<K, V>(s: seq<NodeRec<K, V>>, x: K, d: K, w: seq<K>, m: seq<K>, r: seq<K>)
    requires Ordered(s) && x in Ids(s) && d in Ids(s)
    requires |Rec(s, x).children| > 1 && Rec(s, x).children[1] == d
    requires Walk(s, InOrder, x, 1) == w && Traverse(s, InOrder, d) == m && r == w + [d] + m
    ensures Walk(s, InOrder, x, 2) == r
  {
    WalkNext(s, InOrder, x, 1);
  }

  /** Appending an element already present does not change the result of
      removing repeats. */
  lemma DedupStep<K>(v: seq<K>, e: K)
    requires e in v
    ensures Dedup(v + [e]) == Dedup(v)
  {
    assert (v + [e])[..|v|] == v;
  }

  /** "In" order of a node, from its whole walk with repeats removed. */
  lemma InOrderFrom<K, V>(s: seq<NodeRec<K, V>>, x: K, w: seq<K>, r: seq<K>)
    requires Ordered(s) && x in Ids(s)
    requires Walk(s, InOrder, x, |Rec(s, x).children|) == w && Dedup(w) == r
    ensures Traverse(s, InOrder, x) == r
  {
  }

  /** The shape of the traversal example: 1 has children 2 and 3, 2 has
      children 4 and 5, 3 has child 6, and 4, 5, 6 are leaves. */
  ghost predicate ExampleShape<V>(s: seq<NodeRec<int, V>>)
  {
    Ordered(s) && (forall k :: 1 <= k <= 6 ==> k in Ids(s)) &&
    Rec(s, 1).children == [2, 3] && Rec(s, 2).children == [4, 5] &&
    Rec(s, 3).children == [6] && Rec(s, 4).children == [] &&
    Rec(s, 5).children == [] && Rec(s, 6).children == []
  }

  lemma ExamplePre<V>(s: seq<NodeRec<int, V>>)
    requires ExampleShape(s)
    ensures Traverse(s, PreOrder, 1) == [1, 2, 4, 5, 3, 6]
  {
    assert 1 in Ids(s) && 2 in Ids(s) && 3 in Ids(s);
    assert 4 in Ids(s) && 5 in Ids(s) && 6 in Ids(s);
    LeafOrders(s, 4);
    LeafOrders(s, 5);
    LeafOrders(s, 6);
    ExampleConcatenations();
    PreOfTwo(s, 2, 4, 5, [4], [5], [2, 4, 5]);
    PreOfOne(s, 3, 6, [6], [3, 6]);
    PreOfTwo(s, 1, 2, 3, [2, 4, 5], [3, 6], [1, 2, 4, 5, 3, 6]);
  }

  lemma ExamplePost<V>(s: seq<NodeRec<int, V>>)
    requires ExampleShape(s)
    ensures Traverse(s, PostOrder, 1) == [4, 5, 2, 6, 3, 1]
  {
    assert 1 in Ids(s) && 2 in Ids(s) && 3 in Ids(s);
    assert 4 in Ids(s) && 5 in Ids(s) && 6 in Ids(s);
    LeafOrders(s, 4);
    LeafOrders(s, 5);
    LeafOrders(s, 6);
    ExampleConcatenations();
    PostOfTwo(s, 2, 4, 5, [4], [5], [4, 5, 2]);
    PostOfOne(s, 3, 6, [6], [6, 3]);
    PostOfTwo(s, 1, 2, 3, [4, 5, 2], [6, 3], [4, 5, 2, 6, 3, 1]);
  }

  /** The "in" order steps of 2 and 3 push their first child and then the
      node itself. */
  lemma ExampleFirstPushes()
    ensures PushIfAbsent(PushIfAbsent([], 4), 2) == [4, 2]
    ensures PushIfAbsent(PushIfAbsent([], 6), 3) == [6, 3]
  {
  }

  /** The "in" order step of 1 finds its first child 2 already listed and
      pushes only 1. */
  lemma ExampleRootPush()
    ensures PushIfAbsent(PushIfAbsent([4, 2, 5], 2), 1) == [4, 2, 5, 1]
  {
    assert 2 in [4, 2, 5] && 1 !in [4, 2, 5];
  }

  /** The listings of the example put together from their pieces. */
  lemma ExampleConcatenations()
    ensures [2] + [4] + [5] == [2, 4, 5] && [3] + [6] == [3, 6]
    ensures [1] + [2, 4, 5] + [3, 6] == [1, 2, 4, 5, 3, 6]
    ensures [4] + [5] + [2] == [4, 5, 2] && [6] + [3] == [6, 3]
    ensures [4, 5, 2] + [6, 3] + [1] == [4, 5, 2, 6, 3, 1]
    ensures [4, 2] + [5] + [] == [4, 2, 5]
    ensures [4, 2, 5, 1] + [3] + [6, 3] == [4, 2, 5, 1, 3, 6, 3]
  {
  }

  /** The "in" order walk of 2 has no repeats. */
  lemma ExampleDedupTwo()
    ensures Dedup([4, 2, 5]) == [4, 2, 5]
  {
    DedupOfDistinct([4, 2, 5]);
  }

  /** The "in" order walk of 3 has no repeats. */
  lemma ExampleDedupThree()
    ensures Dedup([6, 3]) == [6, 3]
  {
    DedupOfDistinct([6, 3]);
  }

  /** Removing repeats from the example's "in" order walk of 1 drops the
      second 3. */
  lemma ExampleLongDedup()
    ensures Dedup([4, 2, 5, 1, 3, 6, 3]) == [4, 2, 5, 1, 3, 6]
  {
    var v := [4, 2, 5, 1, 3, 6];
    assert v + [3] == [4, 2, 5, 1, 3, 6, 3];
    DedupStep(v, 3);
    DedupOfDistinct(v);
  }

  /** "In" order below 2. */
  lemma ExampleInTwo<V>(s: seq<NodeRec<int, V>>)
    requires ExampleShape(s)
    ensures Traverse(s, InOrder, 2) == [4, 2, 5]
  {
    assert 2 in Ids(s) && 4 in Ids(s) && 5 in Ids(s);
    LeafOrders(s, 4);
    LeafOrders(s, 5);
    ExampleFirstPushes();
    ExampleDedupTwo();
    InFirst(s, 2, 4, [], [4, 2]);
    ExampleConcatenations();
    InSecond(s, 2, 5, [4, 2], [], [4, 2, 5]);
    InOrderFrom(s, 2, [4, 2, 5], [4, 2, 5]);
  }

  /** "In" order below 3. */
  lemma ExampleInThree<V>(s: seq<NodeRec<int, V>>)
    requires ExampleShape(s)
    ensures Traverse(s, InOrder, 3) == [6, 3]
  {
    assert 3 in Ids(s) && 6 in Ids(s);
    LeafOrders(s, 6);
    ExampleFirstPushes();
    ExampleDedupThree();
    InFirst(s, 3, 6, [], [6, 3]);
    InOrderFrom(s, 3, [6, 3], [6, 3]);
  }

  /** The "in" order walk of 1 over its first child 2. */
  lemma ExampleRootFirst<V>(s: seq<NodeRec<int, V>>)
    requires ExampleShape(s)
    ensures 1 in Ids(s) && Walk(s, InOrder, 1, 1) == [4, 2, 5, 1]
  {
    assert 1 in Ids(s) && 2 in Ids(s);
    ExampleInTwo(s);
    ExampleRootPush();
    InFirst(s, 1, 2, [4, 2, 5], [4, 2, 5, 1]);
  }

  /** The "in" order walk of 1 lists 3 twice: 1 lists it before its
      listing, and the walk of 3 adds it after its first child 6. */
  lemma ExampleRootWalk<V>(s: seq<NodeRec<int, V>>)
    requires ExampleShape(s)
    ensures 1 in Ids(s) && Walk(s, InOrder, 1, 2) == [4, 2, 5, 1, 3, 6, 3]
  {
    assert 3 in Ids(s);
    ExampleRootFirst(s);
    ExampleInThree(s);
    ExampleConcatenations();
    InSecond(s, 1, 3, [4, 2, 5, 1], [6, 3], [4, 2, 5, 1, 3, 6, 3]);
  }

  /** The final pass keeps the first 3 of the walk of 1. */
  lemma ExampleIn<V>(s: seq<NodeRec<int, V>>)
    requires ExampleShape(s)
    ensures Traverse(s, InOrder, 1) == [4, 2, 5, 1, 3, 6]
  {
    ExampleRootWalk(s);
    ExampleLongDedup();
    InOrderFrom(s, 1, [4, 2, 5, 1, 3, 6, 3], [4, 2, 5, 1, 3, 6]);
  }

  /** The orders the traversal example expects. */
  lemma SixTraversals()
    ensures Ordered(Six()) && 1 in Ids(Six())
    ensures Traverse(Six(), PreOrder, 1) == [1, 2, 4, 5, 3, 6]
    ensures Traverse(Six(), InOrder, 1) == [4, 2, 5, 1, 3, 6]
    ensures Traverse(Six(), PostOrder, 1) == [4, 5, 2, 6, 3, 1]
  {
    SixValid();
    forall k | 1 <= k <= 6 ensures k in Ids(Six()) && Rec(Six(), k) == Six()[k - 1] {
      SixIx(k);
    }
    ExamplePre(Six());
    ExamplePost(Six());
    ExampleIn(Six());
  }

  /** The store that get_subtree(&2, None) returns in the subsection test:
      2, whose parent 1 is left behind, has children 3 and 4, and 3 has
      child 5. */
  function Subsection(): seq<NodeRec<int, int>>
  {
    [ NodeRec(2, 3, Some(1), [3, 4]),
      NodeRec(3, 6, Some(2), [5]),
      NodeRec(5, 6, Some(3), []),
      NodeRec(4, 5, Some(2), []) ]
  }

  /** The extracted store is ordered but not well formed: its first record
      names a parent that is not stored. */
  lemma SubsectionOrdered()
    ensures Ordered(Subsection()) && !Valid(Subsection())
  {
    var s := Subsection();
    assert Ids(s) == [2, 3, 5, 4];
    assert Unique(s) by {
      forall i, j | 0 <= i < j < |s| ensures IdAt(s, i) != IdAt(s, j) {
        assert IdAt(s, i) == Ids(s)[i] && IdAt(s, j) == Ids(s)[j];
      }
    }
    IxOf(s, 1);
    IxOf(s, 2);
    IxOf(s, 3);
    forall i, c | 0 <= i < |s| && c in s[i].children ensures ChildLinked(s, i, c) {
    }
    assert !ParentLinked(s, 0);
  }

  /** remove_node with RetainChildren succeeds inside the extracted store:
      3 is spliced out. */
  method SubsectionSplice() returns (r: Result<()>)
    ensures r.Ok?
  {
    SubsectionOrdered();
    var s := Subsection();
    IxOf(s, 0);
    IxOf(s, 1);
    assert 3 in Ids(s) && Rec(s, 3).parent == Some(2) && 2 in Ids(s);
    var t := new Tree<int, int>();
    t.nodes := s;
    assert t.Linked();
    r := t.RemoveNode(3, Removal.RetainChildren);
  }

  /** remove_node with RemoveNodeAndChildren succeeds inside the extracted
      store: 4 goes with its (empty) subtree. */
  method SubsectionPrune() returns (r: Result<()>)
    ensures r.Ok?
  {
    SubsectionOrdered();
    var s := Subsection();
    IxOf(s, 0);
    IxOf(s, 3);
    assert 4 in Ids(s) && Rec(s, 4).parent == Some(2) && 2 in Ids(s);
    var t := new Tree<int, int>();
    t.nodes := s;
    assert t.Linked();
    r := t.RemoveNode(4, Removal.RemoveNodeAndChildren);
  }
}
