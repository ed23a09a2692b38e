/**
 * The container itself: a `Tree` owns the list of node records in insertion
 * order and every operation reads or rewrites that list. Each method is
 * proved equal to the function of the other modules that describes its
 * result, so the properties proved there carry over to the container.
 */
module TreeContainer {
  import opened Arena
  import opened Descendants
  import Metrics
  import Traversal
  import Insertion
  import Removal
  import Pruning
  import Subtrees

  /** The removal starts from the unlinked store without `x` and ends once
      every child's subtree is gone. */
  lemma PruneBounds<K, V>(s: seq<NodeRec<K, V>>, x: K)
    requires Ordered(s) && x in Ids(s)
    requires Rec(s, x).parent.Some? ==> Rec(s, x).parent.value in Ids(s)
    ensures Drop(Pruning.Detached(s, x), {x}) == Pruning.Pruned(s, x, 0)
    ensures Pruning.Pruned(s, x, |Rec(s, x).children|) == Pruning.RemoveWithChildren(s, x)
  {
    assert {x} + SubOf(s, x, 0) == {x};
  }

  /** One more child processed by traverse. */
  lemma WalkNext<K, V>(s: seq<NodeRec<K, V>>, order: Traversal.TraversalStrategy, x: K, k: nat)
    requires Ordered(s) && x in Ids(s) && k < |Rec(s, x).children|
    ensures Rec(s, x).children[k] in Ids(s) && Ix(s, x) < Ix(s, Rec(s, x).children[k])
    ensures Traversal.Walk(s, order, x, k + 1) ==
      var c := Rec(s, x).children[k];
      var prev := Traversal.Walk(s, order, x, k);
      var sub := Traversal.Traverse(s, order, c);
      if order.InOrder? then
        if k == 0 then Traversal.PushIfAbsent(Traversal.PushIfAbsent(prev + sub, c), x)
        else prev + [c] + sub
      else prev + sub
  {
    ChildAfter(s, x, Rec(s, x).children[k]);
  }

  /** traverse ends by appending `x` in post-order and then removing
      repeats from the list it built. */
  lemma TraverseFinish<K, V>(s: seq<NodeRec<K, V>>, order: Traversal.TraversalStrategy, x: K,
                             start: seq<K>, out: seq<K>)
    requires Ordered(s) && x in Ids(s)
    requires start == if order.PreOrder? then [x] else []
    requires out == start + Traversal.Walk(s, order, x, |Rec(s, x).children|)
    ensures Traversal.Traverse(s, order, x) == Traversal.Dedup(if order.PostOrder? then out + [x] else out)
  {
    var w := Traversal.Walk(s, order, x, |Rec(s, x).children|);
    if order.PreOrder? {
      assert out == [x] + w;
    } else {
      assert out == w;
    }
  }

  lemma SubtreeUnfold<K, V>(s: seq<NodeRec<K, V>>, x: K, generations: Option<int>)
    requires Ordered(s) && x in Ids(s)
    ensures generations.None? ==>
      Subtrees.Subtree(s, x, generations) == [Rec(s, x)] + Subtrees.Family(s, x, |Rec(s, x).children|)
    ensures generations.Some? ==>
      Subtrees.Subtree(s, x, generations) ==
        [Rec(s, x)] + Subtrees.Generations(s, x, if generations.value < 0 then 0 else generations.value)
  {
  }

  lemma FamilyNext<K, V>(s: seq<NodeRec<K, V>>, x: K, k: nat)
    requires Ordered(s) && x in Ids(s) && k < |Rec(s, x).children|
    ensures Rec(s, x).children[k] in Ids(s)
    ensures Subtrees.Family(s, x, k + 1) == Subtrees.Family(s, x, k) + Subtrees.Subtree(s, Rec(s, x).children[k], None)
  {
    ChildAfter(s, x, Rec(s, x).children[k]);
  }

  lemma GenerationsNext<K, V>(s: seq<NodeRec<K, V>>, x: K, cur: nat)
    requires Ordered(s) && x in Ids(s)
    ensures Subtrees.Generations(s, x, cur + 1) ==
      Subtrees.Generations(s, x, cur) + Subtrees.Layer(s, x, cur, |Rec(s, x).children|)
  {
  }

  lemma LayerNext<K, V>(s: seq<NodeRec<K, V>>, x: K, cur: nat, k: nat)
    requires Ordered(s) && x in Ids(s) && k < |Rec(s, x).children|
    ensures Rec(s, x).children[k] in Ids(s)
    ensures Subtrees.Layer(s, x, cur, k + 1) ==
      Subtrees.Layer(s, x, cur, k) + Subtrees.Subtree(s, Rec(s, x).children[k], Some(cur))
  {
    ChildAfter(s, x, Rec(s, x).children[k]);
  }

  lemma LayerStep<K, V>(s: seq<NodeRec<K, V>>, x: K, cur: nat, k: nat,
                        rs: seq<NodeRec<K, V>>, out: seq<NodeRec<K, V>>, sub: seq<NodeRec<K, V>>)
    requires Ordered(s) && x in Ids(s) && k < |Rec(s, x).children|
    requires Rec(s, x).children[k] in Ids(s)
    requires out == rs + Subtrees.Layer(s, x, cur, k)
    requires sub == Subtrees.Subtree(s, Rec(s, x).children[k], Some(cur))
    ensures out + sub == rs + Subtrees.Layer(s, x, cur, k + 1)
  {
    LayerNext(s, x, cur, k);
  }

  class Tree<K(==), V> {
    /** The stored nodes, in the order they were added. */
    var nodes: seq<NodeRec<K, V>>

    /** The stored records form a forest: ids are unique, parents come
        before their children, and the parent and child links agree. */
    ghost predicate Valid()
      reads this
    {
      Arena.Valid(nodes)
    }

    /** The stored records are linked downward consistently: ids are unique
        and every child is stored after its parent and names it as parent.
        This is what the recursive queries need; unlike Valid, it says
        nothing about parent links. */
    ghost predicate Linked()
      reads this
    {
      Arena.Ordered(nodes)
    }

    /** Tree::new: an empty container. */
    constructor ()
      ensures nodes == []
      ensures Valid()
    {
      nodes := [];
    }

    /** The nodes as stored (get_nodes). */
    function GetNodes(): (r: seq<NodeRec<K, V>>)
      reads this
      ensures r == nodes
    {
      nodes
    }

    /** The first stored node with the id, if any (get_node). */
    function GetNode(id: K): (r: Option<NodeRec<K, V>>)
      reads this
      ensures r.Some? <==> id in Ids(nodes)
      ensures r.Some? ==> r.value.id == id && r.value == Rec(nodes, id)
    {
      Lookup(nodes, id)
    }

    /** The first stored node without a parent, if any (get_root_node). */
    function GetRootNode(): (r: Option<NodeRec<K, V>>)
      reads this
      ensures r.None? <==> forall i :: 0 <= i < |nodes| ==> nodes[i].parent.Some?
      ensures r.Some? ==> r.value in nodes && r.value.parent.None?
      ensures r.Some? ==>
        exists i :: (0 <= i < |nodes| && nodes[i] == r.value &&
                     forall j :: 0 <= j < i ==> nodes[j].parent.Some?)
      ensures Arena.Valid(nodes) && |nodes| > 0 ==> r == Some(nodes[0])
      ensures SingleRoot(nodes) && r.Some? ==>
        forall i :: 0 <= i < |nodes| && nodes[i].parent.None? ==> nodes[i] == r.value
    {
      ValidFirstIsRoot(nodes);
      match FirstRoot(nodes)
      case Some(i) => Some(nodes[i])
      case None => None
    }

    /** add_node: refuses a second root, otherwise appends the node and, when
        the named parent is stored, makes it the parent's last child. */
    method AddNode(node: NodeRec<K, V>, parentId: Option<K>) returns (r: Result<K>)
      modifies this
      ensures r.Err? <==> parentId.None? && FirstRoot(old(nodes)).Some?
      ensures r.Err? ==> r.error == RootNodeAlreadyPresent && nodes == old(nodes)
      ensures r.Ok? ==> r.value == node.id && nodes == Insertion.AddNode(old(nodes), node, parentId).value
      ensures r.Ok? && old(Valid()) && node.id !in Ids(old(nodes)) && node.parent.None? && node.children == [] ==>
        Valid()
    {
      ghost var s0 := nodes;
      var added := node;
      match parentId {
        case Some(p) =>
          var parent := GetNode(p);
          if parent.Some? {
            var pr := Rec(nodes, p);
            nodes := Put(nodes, pr.(children := pr.children + [node.id]));
            added := node.(parent := Some(p));
          }
        case None =>
          if GetRootNode().Some? {
            return Err(RootNodeAlreadyPresent);
          }
      }
      nodes := nodes + [added];
      r := Ok(node.id);
      if old(Valid()) && node.id !in Ids(s0) && node.parent.None? && node.children == [] {
        Insertion.AddNodeValid(s0, node, parentId);
      }
    }

    /** get_node_height: 0 for a leaf, otherwise one more than the largest
        height among the children, found by a running maximum. */
    method GetNodeHeight(id: K) returns (h: int)
      requires Linked() && id in Ids(nodes)
      ensures h == Metrics.Height(nodes, id)
      decreases |nodes| - Ix(nodes, id)
    {
      var node := GetNode(id).value;
      var children := node.children;
      if children == [] {
        return 0;
      }
      var height := 0;
      for k := 0 to |children|
        invariant height == Metrics.MaxHeight(nodes, id, k)
      {
        ChildAfter(nodes, id, children[k]);
        var childHeight := GetNodeHeight(children[k]);
        if childHeight > height {
          height := childHeight;
        }
      }
      h := height + 1;
    }

    /** get_node_depth: the number of parent steps from the node up to a
        node without a parent. */
    method GetNodeDepth(id: K) returns (d: int)
      requires Valid() && id in Ids(nodes)
      ensures d == Metrics.Depth(nodes, id)
    {
      var node := GetNode(id).value;
      var depth := 0;
      var parent := node.parent;
      ghost var cur := id;
      while parent.Some?
        invariant cur in Ids(nodes) && parent == Rec(nodes, cur).parent
        invariant depth + Metrics.Depth(nodes, cur) == Metrics.Depth(nodes, id)
        decreases Ix(nodes, cur)
      {
        ParentBefore(nodes, Ix(nodes, cur));
        depth := depth + 1;
        cur := parent.value;
        parent := GetNode(parent.value).value.parent;
      }
      d := depth;
    }

    /** get_height: the height of the root node. */
    method GetHeight() returns (h: int)
      requires Valid() && GetRootNode().Some?
      ensures h == Metrics.Height(nodes, nodes[0].id)
      ensures SingleRoot(nodes) ==>
        forall m :: m in Ids(nodes) ==> Metrics.Depth(nodes, m) + Metrics.Height(nodes, m) <= h
    {
      var root := GetRootNode().value;
      IxOf(nodes, 0);
      h := GetNodeHeight(root.id);
      if SingleRoot(nodes) {
        forall m | m in Ids(nodes)
          ensures Metrics.Depth(nodes, m) + Metrics.Height(nodes, m) <= h
        {
          Metrics.DepthPlusHeight(nodes, m);
        }
      }
    }

    /** get_node_degree: the length of the node's child list, which in a
        valid tree is the number of nodes naming it as their parent. */
    function GetNodeDegree(id: K): (d: int)
      reads this
      requires id in Ids(nodes)
      ensures Arena.Valid(nodes) ==> d == |Metrics.NamedChildren(nodes, id)|
    {
      Metrics.DegreeCountsChildren(nodes, id);
      |Rec(nodes, id).children|
    }

    /** remove_node, by strategy. */
    method RemoveNode(id: K, strategy: Removal.NodeRemovalStrategy) returns (r: Result<()>)
      requires Linked() && id in Ids(nodes)
      requires Rec(nodes, id).parent.Some? ==> Rec(nodes, id).parent.value in Ids(nodes)
      modifies this
      ensures old(Valid()) ==> Valid()
      ensures r.Err? <==> strategy.RetainChildren? && Rec(old(nodes), id).parent.None?
      ensures r.Err? ==> r.error == InvalidOperation(Removal.RootRemovalMessage) && nodes == old(nodes)
      ensures strategy.RetainChildren? ==>
        Removal.RemoveRetainingChildren(old(nodes), id) == if r.Ok? then Ok(nodes) else Err(r.error)
      ensures strategy.RemoveNodeAndChildren? ==> nodes == Pruning.RemoveWithChildren(old(nodes), id)
    {
      match strategy {
        case RetainChildren =>
          r := RemoveRetainingChildren(id);
        case RemoveNodeAndChildren =>
          ghost var s0 := nodes;
          RemoveWithChildren(id);
          if Arena.Valid(s0) {
            Pruning.PruneValid(s0, id);
          }
          r := Ok(());
      }
    }

    /** The RetainChildren strategy: the parent drops the node and adopts
        its children, then the node leaves the store. A node without a
        parent is refused. */
    method RemoveRetainingChildren(id: K) returns (r: Result<()>)
      requires Linked() && id in Ids(nodes)
      requires Rec(nodes, id).parent.Some? ==> Rec(nodes, id).parent.value in Ids(nodes)
      modifies this
      ensures old(Valid()) ==> Valid()
      ensures r.Err? <==> Rec(old(nodes), id).parent.None?
      ensures r.Err? ==> r.error == InvalidOperation(Removal.RootRemovalMessage) && nodes == old(nodes)
      ensures r.Ok? ==> Rec(old(nodes), id).parent.Some? && nodes == Drop(Removal.Spliced(old(nodes), id), {id})
    {
      ghost var s0 := nodes;
      var node := GetNode(id).value;
      if node.parent.None? {
        return Err(InvalidOperation(Removal.RootRemovalMessage));
      }
      var p := node.parent.value;
      Removal.RelinkedStart(s0, id);
      nodes := Removal.RemoveChild(nodes, p, id);
      var children := node.children;
      for k := 0 to |children|
        invariant nodes == Removal.Relinked(s0, id, k)
      {
        Removal.RelinkedStep(s0, id, k);
        nodes := Removal.AddChild(nodes, p, children[k]);
      }
      nodes := Drop(nodes, {id});
      if Arena.Valid(s0) {
        Removal.RetainValid(s0, id);
      }
      r := Ok(());
    }

    /** The RemoveNodeAndChildren strategy: the parent (if any) drops the
        node, the node leaves the store, and then each child is unlinked
        from it and removed the same way. */
    method RemoveWithChildren(id: K)
      requires Ordered(nodes) && id in Ids(nodes)
      requires Rec(nodes, id).parent.Some? ==> Rec(nodes, id).parent.value in Ids(nodes)
      modifies this
      ensures nodes == Pruning.RemoveWithChildren(old(nodes), id)
      decreases |nodes|
    {
      ghost var s0 := nodes;
      var node := GetNode(id).value;
      var children := node.children;
      if node.parent.Some? {
        Pruning.DetachByParent(s0, id);
        nodes := Removal.RemoveChild(nodes, node.parent.value, id);
      } else {
        Pruning.DetachRoot(s0, id);
      }
      PruneBounds(s0, id);
      nodes := Drop(nodes, {id});
      for k := 0 to |children|
        invariant nodes == Pruning.Pruned(s0, id, k)
      {
        Pruning.PruneStep(s0, id, k);
        nodes := Removal.RemoveChild(nodes, id, children[k]);
        RemoveWithChildren(children[k]);
      }
    }

    /** traverse: the ids below `id` in the chosen order, each kept at its
        first occurrence only. */
    method Traverse(order: Traversal.TraversalStrategy, id: K) returns (r: seq<K>)
      requires Linked() && id in Ids(nodes)
      ensures r == Traversal.Traverse(nodes, order, id)
      decreases |nodes| - Ix(nodes, id), 2
    {
      var start: seq<K> := if order.PreOrder? then [id] else [];
      var out := TraverseChildren(order, id, start);
      TraverseFinish(nodes, order, id, start, out);
      if order.PostOrder? {
        out := out + [id];
      }
      r := Unrepeated(out);
    }

    /** The loop of traverse over the children of `id`, extending `start`. */
    method TraverseChildren(order: Traversal.TraversalStrategy, id: K, start: seq<K>) returns (out: seq<K>)
      requires Linked() && id in Ids(nodes)
      requires order.InOrder? ==> start == []
      ensures out == start + Traversal.Walk(nodes, order, id, |Rec(nodes, id).children|)
      decreases |nodes| - Ix(nodes, id), 1
    {
      var n := |GetNode(id).value.children|;
      out := start;
      assert out == start + Traversal.Walk(nodes, order, id, 0);
      for k := 0 to n
        invariant n == |Rec(nodes, id).children|
        invariant out == start + Traversal.Walk(nodes, order, id, k)
      {
        out := TraverseChild(order, id, k, out, start);
      }
    }

    /** The loop body of traverse for child number `k` of `id`: in "in"
        order the first child contributes its listing, then itself and then
        `id` when not yet present, and every later child itself followed by
        its listing; in the other orders a child contributes its listing. */
    method TraverseChild(order: Traversal.TraversalStrategy, id: K, k: nat, out: seq<K>, ghost start: seq<K>)
      returns (next: seq<K>)
      requires Linked() && id in Ids(nodes) && k < |Rec(nodes, id).children|
      requires order.InOrder? ==> start == []
      requires out == start + Traversal.Walk(nodes, order, id, k)
      ensures next == start + Traversal.Walk(nodes, order, id, k + 1)
      decreases |nodes| - Ix(nodes, id), 0
    {
      var c := GetNode(id).value.children[k];
      ChildAfter(nodes, id, c);
      var sub := Traverse(order, c);
      WalkNext(nodes, order, id, k);
      ghost var prev := Traversal.Walk(nodes, order, id, k);
      next := out;
      if order.InOrder? && k == 0 {
        assert next == prev;
        next := next + sub;
        if c !in next {
          next := next + [c];
        }
        assert next == Traversal.PushIfAbsent(prev + sub, c);
        if id !in next {
          next := next + [id];
        }
      } else if order.InOrder? {
        assert next == prev;
        next := next + [c] + sub;
      } else {
        next := next + sub;
        assert next == start + (prev + sub);
      }
    }

    /** The closing pass of traverse: keep an id only when it has not been
        seen before. */
    static method Unrepeated(v: seq<K>) returns (r: seq<K>)
      ensures r == Traversal.Dedup(v)
    {
      r := [];
      var seen: set<K> := {};
      for i := 0 to |v|
        invariant r == Traversal.Dedup(v[..i])
        invariant forall a :: a in seen <==> a in v[..i]
      {
        assert v[..i + 1][..i] == v[..i];
        if v[i] !in seen {
          r := r + [v[i]];
        }
        seen := seen + {v[i]};
      }
      assert v[..|v|] == v;
    }

    /** The node records get_subtree collects: the node itself and then,
        without a bound, the full subtree of each child in turn; with a
        bound g, for each round 0 .. g-1 the subtree of each child bounded
        by the round number. An absent id gives nothing. */
    method CollectSubtree(id: K, generations: Option<int>) returns (rs: seq<NodeRec<K, V>>)
      requires Linked()
      ensures rs == Subtrees.Subtree(nodes, id, generations)
      decreases if id in Ids(nodes) then |nodes| - Ix(nodes, id) else 0, 1
    {
      rs := [];
      var found := GetNode(id);
      if found.None? {
        Subtrees.SubtreeAbsent(nodes, id, generations);
        return;
      }
      var node := found.value;
      SubtreeUnfold(nodes, id, generations);
      rs := [node];
      var children := node.children;
      match generations {
        case Some(g) =>
          var rounds := if g < 0 then 0 else g;
          for cur := 0 to rounds
            invariant rs == [node] + Subtrees.Generations(nodes, id, cur)
          {
            ghost var before := rs;
            rs := AppendLayer(id, cur, rs);
            GenerationsNext(nodes, id, cur);
            assert rs == [node] + (Subtrees.Generations(nodes, id, cur) + Subtrees.Layer(nodes, id, cur, |children|));
          }
        case None =>
          for k := 0 to |children|
            invariant rs == [node] + Subtrees.Family(nodes, id, k)
          {
            var c := children[k];
            ChildAfter(nodes, id, c);
            var sub := CollectSubtree(c, None);
            FamilyNext(nodes, id, k);
            rs := rs + sub;
          }
      }
    }

    /** One round of the bounded listing: the subtree of every child of
        `id`, each bounded by the round number `cur`, appended to `rs`. */
    method AppendLayer(id: K, cur: nat, rs: seq<NodeRec<K, V>>) returns (out: seq<NodeRec<K, V>>)
      requires Linked() && id in Ids(nodes)
      ensures out == rs + Subtrees.Layer(nodes, id, cur, |Rec(nodes, id).children|)
      decreases |nodes| - Ix(nodes, id), 0
    {
      var children := GetNode(id).value.children;
      out := rs;
      for k := 0 to |children|
        invariant out == rs + Subtrees.Layer(nodes, id, cur, k)
      {
        var c := children[k];
        ChildAfter(nodes, id, c);
        var sub := CollectSubtree(c, Some(cur));
        LayerStep(nodes, id, cur, k, rs, out, sub);
        out := out + sub;
      }
    }

    /** get_subtree: a new container holding the collected records. */
    method GetSubtree(id: K, generations: Option<int>) returns (sub: Tree<K, V>)
      requires Linked()
      ensures fresh(sub) && sub.nodes == Subtrees.Subtree(nodes, id, generations)
    {
      var rs := CollectSubtree(id, generations);
      sub := new Tree();
      sub.nodes := rs;
    }

    /** add_subtree: the first parentless node of `subtree` becomes the last
        child of `id`, and all records of `subtree` are appended. */
    method AddSubtree(id: K, subtree: Tree<K, V>)
      requires subtree != this
      requires id in Ids(nodes) && subtree.GetRootNode().Some?
      modifies this
      ensures nodes == Insertion.Graft(old(nodes), id, subtree.nodes)
      ensures old(Valid()) && subtree.Valid() && Insertion.Disjoint(old(nodes), subtree.nodes) ==> Valid()
    {
      ghost var s0 := nodes;
      var node := Rec(nodes, id);
      var added := subtree.nodes;
      var r := FirstRoot(added).value;
      nodes := Put(nodes, node.(children := node.children + [added[r].id]));
      nodes := nodes + added[r := added[r].(parent := Some(id))];
      if Arena.Valid(s0) && subtree.Valid() && Insertion.Disjoint(s0, added) {
        Insertion.GraftValid(s0, id, added);
      }
    }
  }
}
