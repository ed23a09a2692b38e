# tree-ds `Tree` container, modelled in Dafny

This project models the `Tree<Q, T>` container of the tree-ds crate (`src/tree.rs`). A tree is an
ordered vector of nodes. Each node carries an id, a value, an optional parent id and an ordered
list of child ids. The container offers these operations:

- insertion with a single-root rule (`add_node`);
- lookups (`get_node`, `get_root_node`, `get_nodes`);
- metrics (`get_node_height`, `get_node_depth`, `get_height`, `get_node_degree`);
- removal with two strategies (`remove_node` with `RetainChildren` or `RemoveNodeAndChildren`);
- subtree extraction and grafting (`get_subtree`, `add_subtree`);
- three traversals (`traverse` in pre-, post- and n-ary in-order), each followed by a
  keep-first-occurrence dedup.

In Rust, nodes are shared, interior-mutable handles: a parent found by lookup is changed in place,
and every clone sees the change. The model replaces the handles with an **arena**. The tree is a
`seq<NodeRec<K, V>>` in insertion order, and a record is
`NodeRec(id, value, parent: Option<K>, children: seq<K>)`. Changing a handle means replacing the
first record that has its id (`Arena.Put`).

The `Node` type is not part of this model. Its two mutators are modelled as the tree code needs
them:

- `add_child(c)` appends `c` to the parent's child list and sets `c`'s parent.
- `remove_child(c)` filters `c` out of the parent's child list and clears `c`'s parent.

The first is what the `add_node` test observes. The second is what the recursive
`RemoveNodeAndChildren` needs in order not to panic.

Well-formedness (`Arena.Valid`) has these parts:

- ids are unique;
- child lists are free of repeats;
- every child is present at a **later index** than its parent and names that parent;
- every parent link names a present record that lists the node as a child.

The later-index rule is a topological order. It makes the structure acyclic and gives every
recursion over children its termination measure. The first three parts make up `Arena.Ordered`, which is all the
recursive queries (height, traversal, subtree extraction) need; the `Tree` class calls it
`Linked`. `Arena.SingleRoot` additionally says that at most
one record is parentless. It is kept apart from `Valid` because `add_node` with an unknown parent id
creates a second root.

Modules:

| file | module | contents |
|---|---|---|
| arena.dfy | `Arena` | records, lookup by id, first root, `Put`/`Drop`/`Without`, well-formedness |
| descendants.dfy | `Descendants` | the descendant set `Sub` of a node and its framing lemmas |
| insertion.dfy | `Insertion` | `add_node` and `add_subtree` as functions on the arena, with their invariants |
| removal.dfy | `Removal` | the `RetainChildren` strategy: the child re-attachment loop and its result |
| pruning.dfy | `Pruning` | the recursive `RemoveNodeAndChildren` strategy |
| metrics.dfy | `Metrics` | height, depth and degree |
| subtrees.dfy | `Subtrees` | `get_subtree` with and without a generation bound |
| traversal.dfy | `Traversal` | the three traversal orders and the dedup |
| tree.dfy | `TreeContainer` | the `Tree` class: imperative methods over `nodes`, each proved equal to the functions above |
| scenarios.dfy | `Scenarios` | the six-node tree of the traversal unit test, with all three orders proved |

## Model

| member | source | states |
|---|---|---|
| TreeContainer.Tree.constructor | src/tree.rs:81-83 | a new tree has no nodes and is well formed |
| TreeContainer.Tree.GetNodes | src/tree.rs:344-346 | the stored records themselves, in insertion order |
| TreeContainer.Tree.GetNode | src/tree.rs:151-156 | a record is returned exactly when the id is present, and it is the record stored under that id |
| TreeContainer.Tree.GetRootNode | src/tree.rs:179-184 | `None` exactly when every record has a parent; otherwise the first parentless record (every earlier record has a parent), which is the record at index 0 of a well-formed non-empty tree and the only root under the single-root invariant |
| TreeContainer.Tree.AddNode | src/tree.rs:111-125 | fails with `RootNodeAlreadyPresent` exactly when no parent id is given and a root exists, and then leaves the nodes unchanged; otherwise returns the node's id, the nodes become `Insertion.AddNode`, and a fresh unlinked node keeps the tree well formed |
| TreeContainer.Tree.GetNodeHeight | src/tree.rs:209-223 | the running maximum over the children plus one equals `Metrics.Height`, the longest downward path |
| TreeContainer.Tree.GetNodeDepth | src/tree.rs:252-261 | the loop that climbs parent links counts exactly `Metrics.Depth` steps |
| TreeContainer.Tree.GetHeight | src/tree.rs:286-289 | the height of the root; under the single-root invariant, every node's depth plus its height is at most that value |
| TreeContainer.Tree.GetNodeDegree | src/tree.rs:319-322 | in a well-formed tree, the number of distinct children that name the node as parent |
| TreeContainer.Tree.RemoveNode | src/tree.rs:373-406 | keeps a well-formed tree well formed; fails with `InvalidOperation` exactly for `RetainChildren` on a parentless node, changing nothing; each strategy's result is its specification function |
| TreeContainer.Tree.RemoveRetainingChildren | src/tree.rs:375-389 | the re-attachment loop ends in the spliced tree without the node, or in the root-removal error with the tree unchanged; a well-formed tree stays well formed |
| TreeContainer.Tree.RemoveWithChildren | src/tree.rs:390-404 | the recursion over children ends in `Pruning.RemoveWithChildren`: the node and all its descendants are gone |
| TreeContainer.Tree.Traverse | src/tree.rs:526-562 | the vector built by the push/append loops and then deduplicated is `Traversal.Traverse` |
| TreeContainer.Tree.TraverseChildren | src/tree.rs:529-558 | after the loop over the children, the output is the start prefix followed by the walk over all children |
| TreeContainer.Tree.TraverseChild | src/tree.rs:532-555 | one loop iteration extends the walk by exactly one child, with the first-child in-order pushes |
| TreeContainer.Tree.Unrepeated | src/tree.rs:559-560 | the seen-set `retain` computes `Traversal.Dedup` |
| TreeContainer.Tree.CollectSubtree | src/tree.rs:439-464 | the collected records are `Subtrees.Subtree` for every generation bound, and empty for an absent id |
| TreeContainer.Tree.AppendLayer | src/tree.rs:447-453 | one pass over the children appends the next generation layer |
| TreeContainer.Tree.GetSubtree | src/tree.rs:439-464 | a fresh tree whose nodes are `Subtrees.Subtree` |
| TreeContainer.Tree.AddSubtree | src/tree.rs:490-497 | the nodes become `Insertion.Graft`; a well-formed, disjoint subtree keeps the host well formed |
| Arena.Find | src/tree.rs:151-156 | the first index holding the key, or `None` exactly when the key is absent |
| Arena.Lookup | src/tree.rs:151-156 | `None` exactly when the id is absent, otherwise the record stored under the id |
| Arena.FirstRoot | src/tree.rs:179-184 | the first index whose record has no parent: all earlier records have parents, and `None` exactly when every record has one |
| Arena.Put | src/tree.rs:118 | replacing a shared handle keeps ids and length, puts the new record at the id's index and changes nothing else |
| Arena.Without | src/tree.rs:379 | the list without the removed id, containing every other element; unchanged when the id is absent |
| Arena.DropIds | src/tree.rs:384 | `retain` keeps exactly the records whose id is not dropped, and adds none |
| Arena.DropOrder | src/tree.rs:384 | `retain` keeps the relative order of the surviving records |
| Arena.DropSize | src/tree.rs:384 | with unique ids, `retain` shortens the vector by the number of dropped ids |
| Arena.DropRec | src/tree.rs:384 | a surviving record is unchanged |
| Arena.ParentBefore | src/tree.rs:256-258 | in a well-formed tree a parent link names a present record at an earlier index, never the node itself |
| Arena.ValidFirstIsRoot | src/tree.rs:179-184 | a well-formed non-empty tree starts with its root |
| Arena.PutRec | src/tree.rs:118 | after a replacement, the lookup of the replaced id gives the new record and every other lookup is unchanged |
| Insertion.AddNode | src/tree.rs:111-125 | `RootNodeAlreadyPresent` exactly when no parent id is given and a root exists; otherwise one more record, whose id comes last |
| Insertion.AddNodeGet | src/tree.rs:116-123 | after insertion the new node's parent is set only when the given parent is present; that parent's children gain the new id at the end; every other record is unchanged |
| Insertion.AddNodeUnknownParent | src/tree.rs:116-123 | with an absent parent id the node is appended as is, which leaves the tree with two roots |
| Insertion.AddNodeValid | src/tree.rs:111-125 | inserting a fresh, unlinked node keeps the tree well formed |
| Insertion.AddNodeSingleRoot | src/tree.rs:111-125 | inserting a fresh node under a present parent, or as the first root, keeps a single root |
| Insertion.AddNodeIsGraft | src/tree.rs:116-123 | adding under a present parent is grafting a one-node tree there |
| Insertion.Graft | src/tree.rs:490-497 | the host grows by exactly the size of the subtree |
| Insertion.GraftAt | src/tree.rs:494-496 | the graft point gains the subtree's root as its last child; the subtree's root gets the graft point as parent; all other records are unchanged |
| Insertion.GraftOld | src/tree.rs:495-496 | host records keep their index and content, except that the graft point gains the subtree root as last child |
| Insertion.GraftNew | src/tree.rs:496 | subtree records follow the host in their own order, and only the root's parent changes |
| Insertion.GraftValid | src/tree.rs:490-497 | grafting a well-formed subtree with fresh ids keeps the tree well formed |
| Insertion.GraftSingleRoot | src/tree.rs:490-497 | grafting a single-rooted subtree keeps a single root |
| Insertion.GraftBelow | src/tree.rs:490-497 | every grafted node becomes a descendant of the graft point |
| Removal.AddChild | src/tree.rs:118 | linking a child through the parent's handle keeps the length and the ids of the store |
| Removal.AddChildAt | src/tree.rs:118 | the parent's record gains the child at the end of its child list, the child's record names the parent, and no other record changes |
| Removal.RemoveChild | src/tree.rs:379 | unlinking a child through the parent's handle keeps the length and the ids of the store |
| Removal.RemoveChildAt | src/tree.rs:379 | the parent's record (when stored) loses the child from its child list, the child's record (when stored) loses its parent, and no other record changes |
| Removal.RemoveRetainingChildren | src/tree.rs:375-389 | fails with the root-removal `InvalidOperation` exactly when the node has no parent |
| Removal.Relinked | src/tree.rs:379-383 | after k loop iterations each record is the original with the first k children moved to the grandparent |
| Removal.RelinkedStart | src/tree.rs:379 | `remove_child` on the parent is the state before the first iteration |
| Removal.RelinkedStep | src/tree.rs:381-383 | one `add_child` call advances the loop state by one child |
| Removal.RetainRecord | src/tree.rs:375-389 | values are kept; the removed node's children get its parent as parent; that parent's children lose the node and gain the node's children at the end, in order; other records are unchanged |
| Removal.RetainResult | src/tree.rs:375-389 | on a node with a parent the removal succeeds, keeps the tree well formed, drops exactly that id, shrinks the tree by one and keeps the order of the rest |
| Removal.RetainValid | src/tree.rs:375-389 | the spliced tree without the node is well formed |
| Removal.RetainSingleRoot | src/tree.rs:375-389 | the removal keeps a single root |
| Pruning.RemoveWithChildren | src/tree.rs:390-404 | keeps exactly the records that are not the node or one of its descendants |
| Pruning.Pruned | src/tree.rs:397-402 | after the first k children, the node and those children's subtrees are gone and all else is kept |
| Pruning.DetachByParent | src/tree.rs:393-395 | `remove_child` on the parent cuts the link on both sides |
| Pruning.PruneStep | src/tree.rs:398-401 | the recursive call on the next child, now parentless, brings the tree to the state after that child |
| Pruning.PruneRecord | src/tree.rs:390-404 | a surviving record is unchanged, except that the former parent loses the node from its children |
| Pruning.PruneSize | src/tree.rs:390-404 | the tree shrinks by the size of the removed subtree and keeps its relative order |
| Pruning.PruneValid | src/tree.rs:390-404 | the removal keeps the tree well formed |
| Pruning.PruneSingleRoot | src/tree.rs:390-404 | the removal keeps a single root |
| Pruning.PruneRoot | src/tree.rs:390-404 | removing the root of a single-rooted tree with its children empties it |
| Metrics.Height | src/tree.rs:209-223 | the height is 0 exactly for a node without children |
| Metrics.MaxHeightUpper | src/tree.rs:215-221 | the running maximum over the first k children is at least the height of each of them |
| Metrics.MaxHeightReached | src/tree.rs:215-221 | the running maximum over k > 0 children is the height of one of them |
| Metrics.HeightIsLongestPath | src/tree.rs:209-223 | height is 0 exactly for a leaf; every child is at least one lower; some child is exactly one lower |
| Metrics.HeightBelowSize | src/tree.rs:209-223 | a node's height is less than the number of nodes in its subtree |
| Metrics.DepthZero | src/tree.rs:252-261 | depth is 0 exactly for a parentless node |
| Metrics.DepthOfChild | src/tree.rs:252-261 | a child is one deeper than its parent |
| Metrics.Depth | src/tree.rs:252-261 | the number of parent links climbed from the node; at most the node's index, so the climb ends |
| Metrics.RootReachesAll | src/tree.rs:286-289 | under the single-root invariant, every node is a descendant of the first record |
| Metrics.DepthPlusHeight | src/tree.rs:286-289 | under the single-root invariant, depth plus height never exceeds the tree height |
| Metrics.DegreeCountsChildren | src/tree.rs:319-322 | the child list has as many entries as there are nodes naming the node as parent |
| Traversal.Dedup | src/tree.rs:559-560 | same elements, never longer |
| Traversal.DedupDistinct | src/tree.rs:559-560 | the result has no repeats |
| Traversal.DedupOfDistinct | src/tree.rs:559-560 | a list without repeats is unchanged |
| Traversal.DedupKeepsFirst | src/tree.rs:559-560 | the first element survives in first place |
| Traversal.PushIfAbsent | src/tree.rs:546-551 | the element set gains exactly the pushed id |
| Traversal.TraverseElems | src/tree.rs:526-562 | the traversal visits exactly the node's descendants, except that in-order of a leaf is empty |
| Traversal.WalkElems | src/tree.rs:529-558 | a walk over the first k children visits exactly their subtrees (plus the node itself in order) |
| Traversal.Traverse | src/tree.rs:526-562 | the traversal has no repeats, because the walk is deduplicated last |
| Traversal.TraverseLength | src/tree.rs:526-562 | apart from in-order of a leaf, the traversal lists every descendant once |
| Traversal.PreOrderStartsAtNode | src/tree.rs:530-535 | pre-order starts with the start id |
| Traversal.PostOrderEndsAtNode | src/tree.rs:536-541 | post-order ends with the start id |
| Traversal.PreOrderIsConcatenation | src/tree.rs:530-535 | pre-order is the node followed by the children's pre-orders, with no dedup needed |
| Traversal.PostOrderIsConcatenation | src/tree.rs:536-541 | post-order is the children's post-orders followed by the node, with no dedup needed |
| Traversal.InOrderOfLeaf | src/tree.rs:542-557 | in-order of a leaf is empty, since only the child loop pushes the node |
| Subtrees.SubtreeIsPreOrder | src/tree.rs:455-459 | the ids of an unbounded subtree are the pre-order traversal |
| Subtrees.SubtreeSize | src/tree.rs:455-459 | an unbounded subtree lists every descendant exactly once |
| Subtrees.SubtreeCopies | src/tree.rs:441-458 | every extracted record is a copy of the stored record with its id |
| Subtrees.SubtreeZero | src/tree.rs:441-454 | a bound of zero or less gives just the node |
| Subtrees.SubtreeOne | src/tree.rs:444-454 | a bound of one gives the node followed by its children in order |
| Subtrees.SubtreeRepeats | src/tree.rs:446-453 | with a bound of two, the first child is listed twice: once as a leaf of the first layer, once again at the start of the second |
| Subtrees.SubtreeAbsent | src/tree.rs:441 | an absent id gives an empty subtree |
| Subtrees.SubtreeWithin | src/tree.rs:444-454 | a bounded subtree contains exactly the nodes within that many generations |
| Subtrees.NearAll | src/tree.rs:444-454 | once the bound reaches the node's height, the bounded subtree covers every descendant |
| Scenarios.SixValid | src/tree.rs:870-876 | the six-node tree of the traversal test is well formed and single-rooted |
| Scenarios.ExamplePre | src/tree.rs:877-879 | on any store shaped like that tree, pre-order from node 1 is 1, 2, 4, 5, 3, 6 |
| Scenarios.ExamplePost | src/tree.rs:885-887 | on such a store, post-order from node 1 is 4, 5, 2, 6, 3, 1 |
| Scenarios.ExampleIn | src/tree.rs:881-883 | on such a store, in-order from node 1 is 4, 2, 5, 1, 3, 6 |
| Scenarios.SixTraversals | src/tree.rs:868-888 | the test's tree gives the three expected orders |
| Scenarios.SubsectionOrdered | src/tree.rs:808-820 | the store extracted below node 2 is ordered but not well formed, because its first record names the parent 1 that was left behind |
| Scenarios.SubsectionSplice | src/tree.rs:375-389 | `remove_node` with `RetainChildren` succeeds on node 3 of that extracted store |
| Scenarios.SubsectionPrune | src/tree.rs:390-404 | `remove_node` with `RemoveNodeAndChildren` succeeds on node 4 of that extracted store |

## Left out

- `print_tree` (src/tree.rs:567-616) and the `Display` impl (src/tree.rs:629-643) format text through `Node`'s `Display`, which is not part of this model.
- The `Default` impl (src/tree.rs:619-627) is modelled only through the constructor. The `Drop` impl (src/tree.rs:645-653) only releases memory.
- The serde `Serialize`/`Deserialize` impls (src/tree.rs:655-695) depend on a foreign library and a wire format.
- `src/node.rs` is not part of this model. Reference counting, cell aliasing and the `Node` accessors are abstracted by the arena. `add_child`/`remove_child` behave as described above.
- Ids are compared with `==` only. The `Hash` used by the traversal dedup's `HashSet` is modelled as "keep the first occurrence".
- Results typed `i32` (heights, depths, degrees) are unbounded integers. Overflow cannot occur below 2^31 nodes.
- TreeContainer.Tree.GetNodeDegree: the `as i32` cast is not modelled, and the id must be present because the source unwraps the lookup.
- TreeContainer.Tree.GetNodeHeight: requires an ordered tree (unique ids, every child stored later than its parent and naming it). The source only unwraps the lookup and would not terminate on a cycle of child links; parent links are not needed.
- TreeContainer.Tree.GetNodeDepth: requires a well-formed tree. The source only unwraps lookups and would loop forever on a parent cycle.
- TreeContainer.Tree.GetHeight: requires a well-formed tree with a root. The source panics without a root and does not terminate on a cycle.
- TreeContainer.Tree.RemoveNode: requires an ordered tree containing the id and, when the node has a parent, that parent. The source unwraps the lookups of the node, its parent and its children; the children are present because the tree is ordered. Other records' parent links may dangle, as in a tree extracted below its root. Well-formedness is promised only for a tree that was well formed.
- TreeContainer.Tree.RemoveRetainingChildren: requires the same as RemoveNode, for the same unwraps, and likewise promises well-formedness only for a tree that was well formed.
- TreeContainer.Tree.RemoveWithChildren: requires an ordered tree in which the node's parent is present. Under that condition the recursive `?` never sees an error, so the error path of the recursion is not modelled.
- TreeContainer.Tree.Traverse: requires an ordered tree containing the id. The source unwraps the lookup and recurses without a bound, so a cycle of child links would not terminate.
- TreeContainer.Tree.CollectSubtree: requires an ordered tree so that the recursion over child links terminates. An absent id is handled as in the source.
- TreeContainer.Tree.GetSubtree: requires an ordered tree, for the same reason. In the source the extracted records are clones that share handles with the host. Here they are independent copies, so later changes through one tree do not show in the other.
- TreeContainer.Tree.AddSubtree: requires a host that is not the subtree itself. Rust's move of the subtree guarantees this. The subtree's nodes are copied, not shared handles. Well-formedness is kept only when the subtree is well formed and shares no id with the host.
- TreeContainer.Tree.AddNode: well-formedness is kept only for a fresh node with no parent and no children. The source accepts any node, including duplicates of existing ids.
- Node ids are not checked for uniqueness by the source. The lookups return the first record with an id, and `Arena.Find` models that.
