/**
 * Adding to the container: a single node under an optional parent
 * (add_node) and a whole detached tree under an existing node
 * (add_subtree). Both append to the store and, through the parent's
 * handle, extend the parent's child list.
 */
module Insertion {
  import opened Arena
  import opened Descendants
  import Metrics

  /** The store after add_node, or the error it reports. Without a parent id
      the node becomes a root, which is refused when a parentless node is
      already stored; a parent id that is given but not found is ignored and
      the node is appended as it is. */
  function AddNode<K(==), V>(s: seq<NodeRec<K, V>>, node: NodeRec<K, V>, parentId: Option<K>)
    : (r: Result<seq<NodeRec<K, V>>>)
    ensures r.Err? <==> parentId.None? && FirstRoot(s).Some?
    ensures r.Err? ==> r.error == RootNodeAlreadyPresent
    ensures r.Ok? ==> |r.value| == |s| + 1 && Ids(r.value) == Ids(s) + [node.id]
  {
    match parentId
    case None =>
      if FirstRoot(s).Some? then Err(RootNodeAlreadyPresent)
      else
        IdsAppend(s, [node]);
        Ok(s + [node])
    case Some(p) =>
      if p in Ids(s) then
        var pr := Rec(s, p);
        var n := node.(parent := Some(p));
        IdsAppend(Put(s, pr.(children := pr.children + [node.id])), [n]);
        Ok(Put(s, pr.(children := pr.children + [node.id])) + [n])
      else
        IdsAppend(s, [node]);
        Ok(s + [node])
  }

  /** The store after add_subtree: `x` lists the first parentless node of
      `t` as a new last child, that node names `x` as its parent, and the
      records of `t` are appended in their order. */
  function Graft<K(==), V>(s: seq<NodeRec<K, V>>, x: K, t: seq<NodeRec<K, V>>): (g: seq<NodeRec<K, V>>)
    requires x in Ids(s) && FirstRoot(t).Some?
    ensures |g| == |s| + |t|
  {
    var r := FirstRoot(t).value;
    var xr := Rec(s, x);
    Put(s, xr.(children := xr.children + [t[r].id])) + t[r := t[r].(parent := Some(x))]
  }

  /** No id is stored in both `s` and `t`. */
  ghost predicate Disjoint<K, V>(s: seq<NodeRec<K, V>>, t: seq<NodeRec<K, V>>)
  {
    forall k :: k in Ids(s) ==> k !in Ids(t)
  }

  /** The records of a graft, position by position. */
  lemma GraftAt<K, V>(s: seq<NodeRec<K, V>>, x: K, t: seq<NodeRec<K, V>>)
    requires x in Ids(s) && FirstRoot(t).Some?
    ensures forall i :: 0 <= i < |s| ==>
      Graft(s, x, t)[i] ==
        if i == Ix(s, x) then Rec(s, x).(children := Rec(s, x).children + [t[FirstRoot(t).value].id])
        else s[i]
    ensures forall j :: 0 <= j < |t| ==>
      Graft(s, x, t)[|s| + j] == if j == FirstRoot(t).value then t[j].(parent := Some(x)) else t[j]
  {
    var r := FirstRoot(t).value;
    var xr := Rec(s, x);
    var a := Put(s, xr.(children := xr.children + [t[r].id]));
    var b := t[r := t[r].(parent := Some(x))];
    assert Graft(s, x, t) == a + b;
    forall i | 0 <= i < |s| ensures (a + b)[i] == a[i] {
    }
    forall j | 0 <= j < |t| ensures (a + b)[|s| + j] == b[j] {
    }
  }

  /** A graft of stores with unique, disjoint ids has unique ids. */
  lemma GraftUnique<K, V>(s: seq<NodeRec<K, V>>, x: K, t: seq<NodeRec<K, V>>)
    requires Unique(s) && Unique(t) && Disjoint(s, t)
    requires x in Ids(s) && FirstRoot(t).Some?
    ensures Unique(Graft(s, x, t))
  {
    var r := FirstRoot(t).value;
    var xr := Rec(s, x);
    var a := Put(s, xr.(children := xr.children + [t[r].id]));
    var b := t[r := t[r].(parent := Some(x))];
    var g := a + b;
    assert Ids(b) == Ids(t);
    IdsAppend(a, b);
    forall i, j | 0 <= i < j < |g| ensures IdAt(g, i) != IdAt(g, j) {
      assert g[i].id == Ids(g)[i] && g[j].id == Ids(g)[j];
      if j < |s| {
        assert IdAt(s, i) != IdAt(s, j);
        assert Ids(s)[i] == s[i].id && Ids(s)[j] == s[j].id;
      } else if i >= |s| {
        assert IdAt(t, i - |s|) != IdAt(t, j - |s|);
        assert Ids(t)[i - |s|] == t[i - |s|].id && Ids(t)[j - |s|] == t[j - |s|].id;
      } else {
        assert Ids(g)[i] in Ids(s) && Ids(g)[j] in Ids(t);
      }
    }
  }

  /** A node of the target keeps its position and record, except that `x`
      gains the grafted root as its last child. */
  lemma GraftOld<K, V>(s: seq<NodeRec<K, V>>, x: K, t: seq<NodeRec<K, V>>, k: K)
    requires Unique(s) && Unique(t) && Disjoint(s, t)
    requires x in Ids(s) && FirstRoot(t).Some? && k in Ids(s)
    ensures k in Ids(Graft(s, x, t)) && Ix(Graft(s, x, t), k) == Ix(s, k)
    ensures Rec(Graft(s, x, t), k) ==
      if k == x then Rec(s, x).(children := Rec(s, x).children + [t[FirstRoot(t).value].id])
      else Rec(s, k)
  {
    var g := Graft(s, x, t);
    GraftAt(s, x, t);
    GraftUnique(s, x, t);
    var i := Ix(s, k);
    assert g[i].id == k;
    IxOf(g, i);
    IxOf(s, Ix(s, x));
  }

  /** A node of the grafted tree sits after the target's records in its old
      order, and keeps its record, except that the grafted root now names
      `x` as its parent. */
  lemma GraftNew<K, V>(s: seq<NodeRec<K, V>>, x: K, t: seq<NodeRec<K, V>>, k: K)
    requires Unique(s) && Unique(t) && Disjoint(s, t)
    requires x in Ids(s) && FirstRoot(t).Some? && k in Ids(t)
    ensures k in Ids(Graft(s, x, t)) && Ix(Graft(s, x, t), k) == |s| + Ix(t, k)
    ensures Rec(Graft(s, x, t), k) ==
      if Ix(t, k) == FirstRoot(t).value then Rec(t, k).(parent := Some(x)) else Rec(t, k)
  {
    var g := Graft(s, x, t);
    GraftAt(s, x, t);
    GraftUnique(s, x, t);
    var j := Ix(t, k);
    assert g[|s| + j].id == k;
    IxOf(g, |s| + j);
  }

  /** Grafting a well-formed tree with fresh ids under a node of a
      well-formed store keeps the store well formed. */
  lemma GraftValid<K, V>(s: seq<NodeRec<K, V>>, x: K, t: seq<NodeRec<K, V>>)
    requires Valid(s) && Valid(t) && Disjoint(s, t)
    requires x in Ids(s) && FirstRoot(t).Some?
    ensures Valid(Graft(s, x, t))
  {
    var g := Graft(s, x, t);
    GraftUnique(s, x, t);
    forall i | 0 <= i < |g| ensures Distinct(g[i].children) {
      GraftDistinct(s, x, t, i);
    }
    forall i, c | 0 <= i < |g| && c in g[i].children ensures ChildLinked(g, i, c) {
      GraftChildLinked(s, x, t, i, c);
    }
    forall i | 0 <= i < |g| && g[i].parent.Some? ensures ParentLinked(g, i) {
      GraftParentLinked(s, x, t, i);
    }
  }

  lemma GraftDistinct<K, V>(s: seq<NodeRec<K, V>>, x: K, t: seq<NodeRec<K, V>>, i: int)
    requires Valid(s) && Valid(t) && Disjoint(s, t)
    requires x in Ids(s) && FirstRoot(t).Some?
    requires 0 <= i < |Graft(s, x, t)|
    ensures Distinct(Graft(s, x, t)[i].children)
  {
    var g := Graft(s, x, t);
    var r := FirstRoot(t).value;
    GraftAt(s, x, t);
    if i < |s| {
      assert Distinct(s[i].children);
      if i == Ix(s, x) {
        var ch := s[i].children;
        assert Ids(t)[r] == t[r].id;
        assert t[r].id !in ch;
        DistinctSnoc(ch, t[r].id);
        assert g[i].children == ch + [t[r].id];
      }
    } else {
      assert g[i].children == t[i - |s|].children;
    }
  }

  lemma DistinctSnoc<K>(ks: seq<K>, e: K)
    requires Distinct(ks) && e !in ks
    ensures Distinct(ks + [e])
  {
    var r := ks + [e];
    forall a, b | 0 <= a < b < |r| ensures At(r, a) != At(r, b) {
      if b < |ks| {
        assert At(ks, a) != At(ks, b);
      } else {
        assert r[a] in ks;
      }
    }
  }

  lemma GraftChildLinked<K, V>(s: seq<NodeRec<K, V>>, x: K, t: seq<NodeRec<K, V>>, i: int, c: K)
    requires Valid(s) && Valid(t) && Disjoint(s, t)
    requires x in Ids(s) && FirstRoot(t).Some?
    requires 0 <= i < |Graft(s, x, t)| && c in Graft(s, x, t)[i].children
    ensures ChildLinked(Graft(s, x, t), i, c)
  {
    var g := Graft(s, x, t);
    var r := FirstRoot(t).value;
    GraftAt(s, x, t);
    if i < |s| {
      IxOf(s, i);
      if i == Ix(s, x) && c == t[r].id {
        assert Ids(t)[r] == t[r].id;
        IxOf(t, r);
        GraftNew(s, x, t, c);
      } else {
        assert c in s[i].children;
        assert ChildLinked(s, i, c);
        GraftOld(s, x, t, c);
      }
    } else {
      var j := i - |s|;
      assert g[i].children == t[j].children && g[i].id == t[j].id;
      assert ChildLinked(t, j, c);
      GraftNew(s, x, t, c);
    }
  }

  lemma GraftParentLinked<K, V>(s: seq<NodeRec<K, V>>, x: K, t: seq<NodeRec<K, V>>, i: int)
    requires Valid(s) && Valid(t) && Disjoint(s, t)
    requires x in Ids(s) && FirstRoot(t).Some?
    requires 0 <= i < |Graft(s, x, t)| && Graft(s, x, t)[i].parent.Some?
    ensures ParentLinked(Graft(s, x, t), i)
  {
    var g := Graft(s, x, t);
    var r := FirstRoot(t).value;
    GraftAt(s, x, t);
    if i < |s| {
      assert g[i].parent == s[i].parent && g[i].id == s[i].id;
      assert ParentLinked(s, i);
      GraftOld(s, x, t, s[i].parent.value);
    } else {
      var j := i - |s|;
      if j != r {
        assert g[i] == t[j];
        assert ParentLinked(t, j);
        GraftNew(s, x, t, t[j].parent.value);
      } else {
        GraftOld(s, x, t, x);
      }
    }
  }

  /** Grafting one single-rooted tree onto another keeps a single root. */
  lemma GraftSingleRoot<K, V>(s: seq<NodeRec<K, V>>, x: K, t: seq<NodeRec<K, V>>)
    requires SingleRoot(s) && SingleRoot(t)
    requires x in Ids(s) && FirstRoot(t).Some?
    ensures SingleRoot(Graft(s, x, t))
  {
    var g := Graft(s, x, t);
    var r := FirstRoot(t).value;
    GraftAt(s, x, t);
    forall i, j | 0 <= i < |g| && 0 <= j < |g| && g[i].parent.None? && g[j].parent.None?
      ensures i == j
    {
      assert i < |s| && j < |s|;
      assert g[i].parent == s[i].parent && g[j].parent == s[j].parent;
    }
  }

  /** After grafting a single-rooted tree under `x`, every node of it lies
      below `x`. */
  lemma GraftBelow<K, V>(s: seq<NodeRec<K, V>>, x: K, t: seq<NodeRec<K, V>>, m: K)
    requires Valid(s) && Valid(t) && SingleRoot(t) && Disjoint(s, t)
    requires x in Ids(s) && FirstRoot(t).Some? && m in Ids(t)
    ensures Valid(Graft(s, x, t)) && x in Ids(Graft(s, x, t)) && m in Sub(Graft(s, x, t), x)
  {
    var g := Graft(s, x, t);
    GraftValid(s, x, t);
    ValidFirstIsRoot(t);
    var root := t[0].id;
    IxOf(t, 0);
    Metrics.RootReachesAll(t, m);
    SubBelow(t, root);
    forall k | k in Sub(t, root)
      ensures k in Ids(t) && k in Ids(g) && Rec(g, k).children == Rec(t, k).children
    {
      GraftNew(s, x, t, k);
    }
    assert SameChildrenOn(t, g, Sub(t, root));
    SubFrame(t, g, root);
    GraftOld(s, x, t, x);
    assert root in Rec(g, x).children;
    ChildSub(g, x, root);
  }

  /** add_node under a present parent is the graft of a one-node tree. */
  lemma AddNodeIsGraft<K, V>(s: seq<NodeRec<K, V>>, node: NodeRec<K, V>, p: K)
    requires p in Ids(s)
    ensures FirstRoot([node.(parent := None)]) == Some(0)
    ensures AddNode(s, node, Some(p)) == Ok(Graft(s, p, [node.(parent := None)]))
  {
    var one := [node.(parent := None)];
    assert FirstRoot(one) == Some(0);
    assert one[0 := one[0].(parent := Some(p))] == [node.(parent := Some(p))];
  }

  /** add_node keeps the store well formed when the node is fresh and carries
      no links of its own. */
  lemma AddNodeValid<K, V>(s: seq<NodeRec<K, V>>, node: NodeRec<K, V>, parentId: Option<K>)
    requires Valid(s) && node.id !in Ids(s) && node.parent.None? && node.children == []
    requires AddNode(s, node, parentId).Ok?
    ensures Valid(AddNode(s, node, parentId).value)
  {
    var one := [node.(parent := None)];
    assert Valid(one) && Disjoint(s, one) by {
      assert Ids(one) == [node.id];
    }
    if parentId.Some? && parentId.value in Ids(s) {
      AddNodeIsGraft(s, node, parentId.value);
      GraftValid(s, parentId.value, one);
    } else {
      AppendRootValid(s, node);
    }
  }

  /** Appending a fresh parentless leaf keeps the store well formed. */
  lemma AppendRootValid<K, V>(s: seq<NodeRec<K, V>>, node: NodeRec<K, V>)
    requires Valid(s) && node.id !in Ids(s) && node.parent.None? && node.children == []
    ensures Valid(s + [node])
  {
    var g := s + [node];
    AppendRec(s, node, node.id);
    forall i, c | 0 <= i < |g| && c in g[i].children ensures ChildLinked(g, i, c) {
      assert i < |s| && g[i] == s[i];
      assert ChildLinked(s, i, c);
      AppendRec(s, node, c);
    }
    forall i | 0 <= i < |g| && g[i].parent.Some? ensures ParentLinked(g, i) {
      assert i < |s| && g[i] == s[i];
      assert ParentLinked(s, i);
      AppendRec(s, node, s[i].parent.value);
    }
  }

  /** add_node keeps a well-formed single-rooted store single-rooted when the
      node is fresh, carries no links, and any parent id given is present. */
  lemma AddNodeSingleRoot<K, V>(s: seq<NodeRec<K, V>>, node: NodeRec<K, V>, parentId: Option<K>)
    requires Valid(s) && SingleRoot(s)
    requires node.id !in Ids(s) && node.parent.None? && node.children == []
    requires parentId.Some? ==> parentId.value in Ids(s)
    requires AddNode(s, node, parentId).Ok?
    ensures SingleRoot(AddNode(s, node, parentId).value)
  {
    if parentId.Some? {
      var one := [node.(parent := None)];
      AddNodeIsGraft(s, node, parentId.value);
      GraftSingleRoot(s, parentId.value, one);
    } else {
      if |s| > 0 {
        ValidFirstIsRoot(s);
      }
      assert s == [];
    }
  }

  /** A parent id that is not stored is ignored: the node is appended as a
      second parentless node next to the existing root. */
  lemma AddNodeUnknownParent<K, V>(s: seq<NodeRec<K, V>>, node: NodeRec<K, V>, p: K)
    requires FirstRoot(s).Some? && p !in Ids(s) && node.parent.None?
    ensures AddNode(s, node, Some(p)) == Ok(s + [node])
    ensures !SingleRoot(AddNode(s, node, Some(p)).value)
  {
    var g := s + [node];
    var i := FirstRoot(s).value;
    assert g[i].parent.None? && g[|s|].parent.None?;
  }

  /** After add_node the new node is found under its id, linked to its
      parent when that parent is present; every other node is found as
      before, except that the parent lists the new node last. */
  lemma AddNodeGet<K, V>(s: seq<NodeRec<K, V>>, node: NodeRec<K, V>, parentId: Option<K>, k: K)
    requires Unique(s) && node.id !in Ids(s)
    requires AddNode(s, node, parentId).Ok?
    requires k in Ids(s) || k == node.id
    ensures k in Ids(AddNode(s, node, parentId).value)
    ensures k == node.id ==>
      Rec(AddNode(s, node, parentId).value, k) ==
        if parentId.Some? && parentId.value in Ids(s) then node.(parent := parentId) else node
    ensures k != node.id && parentId.Some? && k == parentId.value ==>
      Rec(AddNode(s, node, parentId).value, k) ==
        Rec(s, k).(children := Rec(s, k).children + [node.id])
    ensures k != node.id && (parentId.None? || k != parentId.value) ==>
      Rec(AddNode(s, node, parentId).value, k) == Rec(s, k)
  {
    var one := [node.(parent := None)];
    assert Unique(one) && Disjoint(s, one) by {
      assert Ids(one) == [node.id];
    }
    if parentId.Some? && parentId.value in Ids(s) {
      AddNodeIsGraft(s, node, parentId.value);
      if k == node.id {
        assert Ids(one) == [node.id];
        GraftNew(s, parentId.value, one, k);
      } else {
        GraftOld(s, parentId.value, one, k);
      }
    } else {
      AppendRec(s, node, k);
    }
  }

  /** Plain append: old ids keep their record, the new id maps to the node. */
  lemma AppendRec<K, V>(s: seq<NodeRec<K, V>>, node: NodeRec<K, V>, k: K)
    requires Unique(s) && node.id !in Ids(s) && (k in Ids(s) || k == node.id)
    ensures Unique(s + [node]) && k in Ids(s + [node])
    ensures Rec(s + [node], k) == if k == node.id then node else Rec(s, k)
    ensures k in Ids(s) ==> Ix(s + [node], k) == Ix(s, k)
  {
    var g := s + [node];
    IdsAppend(s, [node]);
    assert Unique(g) by {
      forall i, j | 0 <= i < j < |g| ensures IdAt(g, i) != IdAt(g, j) {
        if j < |s| {
          assert IdAt(s, i) != IdAt(s, j);
        } else {
          assert Ids(s)[i] == s[i].id;
        }
      }
    }
    assert Ids(g)[|s|] == node.id;
    IxAppend(s, [node], k);
  }
}
