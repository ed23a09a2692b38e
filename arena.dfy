/**
 * The node store of the tree container, modelled as an arena.
 *
 * A tree is an ordered sequence of node records (insertion order is
 * observable through equality). Nodes are shared handles in the original
 * design; here "mutating a handle" means replacing the record that carries
 * that id.
 */
module Arena {

  datatype Option<T> = None | Some(value: T)

  /** The error kinds of the container's fallible operations. */
  datatype Error = RootNodeAlreadyPresent | InvalidOperation(message: string)

  datatype Result<T> = Ok(value: T) | Err(error: Error)

  /** A node: its id, its payload, the id of its parent (if any) and the ids
      of its children in left-to-right sibling order. */
  datatype NodeRec<K, V> = NodeRec(id: K, value: V, parent: Option<K>, children: seq<K>)

  /** The ids of the records, in store order. */
  function Ids<K, V>(s: seq<NodeRec<K, V>>): (r: seq<K>)
    ensures |r| == |s| && forall i :: 0 <= i < |s| ==> r[i] == s[i].id
  {
    seq(|s|, i requires 0 <= i < |s| => s[i].id)
  }

  /** Position of the first occurrence of `k` in `ks` at or after `i`. */
  function FindFrom<K(==)>(ks: seq<K>, k: K, i: nat): (r: Option<nat>)
    requires i <= |ks|
    ensures r.Some? ==> i <= r.value < |ks| && ks[r.value] == k
    ensures r.Some? ==> forall j :: i <= j < r.value ==> ks[j] != k
    ensures r.None? ==> forall j :: i <= j < |ks| ==> ks[j] != k
    decreases |ks| - i
  {
    if i == |ks| then None
    else if ks[i] == k then Some(i)
    else FindFrom(ks, k, i + 1)
  }

  /** Position of the first occurrence of `k` in `ks` (a linear `find`). */
  function Find<K(==)>(ks: seq<K>, k: K): (r: Option<nat>)
    ensures r.Some? ==> r.value < |ks| && ks[r.value] == k
    ensures r.Some? ==> forall j :: 0 <= j < r.value ==> ks[j] != k
    ensures r.None? <==> k !in ks
  {
    FindFrom(ks, k, 0)
  }

  /** Lookup by id: the first record whose id is `k`, or None. */
  function Lookup<K(==), V>(s: seq<NodeRec<K, V>>, k: K): (r: Option<NodeRec<K, V>>)
    ensures r.None? <==> k !in Ids(s)
    ensures r.Some? ==> k in Ids(s) && r.value == Rec(s, k) && r.value.id == k
  {
    match Find(Ids(s), k)
    case None => None
    case Some(i) => Some(s[i])
  }

  /** Index of the first record with id `k`. */
  function Ix<K(==), V>(s: seq<NodeRec<K, V>>, k: K): (i: nat)
    requires k in Ids(s)
    ensures i < |s| && s[i].id == k
  {
    Find(Ids(s), k).value
  }

  /** The first record with id `k`. */
  function Rec<K(==), V>(s: seq<NodeRec<K, V>>, k: K): NodeRec<K, V>
    requires k in Ids(s)
  {
    s[Ix(s, k)]
  }

  /** Index of the first record without a parent (the root lookup). */
  function FirstRoot<K, V>(s: seq<NodeRec<K, V>>): (r: Option<nat>)
    ensures r.Some? ==> r.value < |s| && s[r.value].parent.None?
    ensures r.Some? ==> forall j :: 0 <= j < r.value ==> s[j].parent.Some?
    ensures r.None? <==> forall j :: 0 <= j < |s| ==> s[j].parent.Some?
  {
    if s == [] then None
    else if s[0].parent.None? then Some(0)
    else match FirstRoot(s[1..])
      case None => None
      case Some(j) => Some(j + 1)
  }

  /** The id of record `i`. */
  ghost function IdAt<K, V>(s: seq<NodeRec<K, V>>, i: int): K
    requires 0 <= i < |s|
  {
    s[i].id
  }

  ghost predicate Unique<K, V>(s: seq<NodeRec<K, V>>)
  {
    forall i, j :: 0 <= i < j < |s| ==> IdAt(s, i) != IdAt(s, j)
  }

  /** Element `i` of a list of ids. */
  ghost function At<K>(ks: seq<K>, i: int): K
    requires 0 <= i < |ks|
  {
    ks[i]
  }

  ghost predicate Distinct<K>(ks: seq<K>)
  {
    forall i, j :: 0 <= i < j < |ks| ==> At(ks, i) != At(ks, j)
  }

  /** Child `c` listed by record `i` is present, stored after `i`, and names
      record `i` as its parent. */
  ghost predicate ChildLinked<K, V>(s: seq<NodeRec<K, V>>, i: int, c: K)
    requires 0 <= i < |s|
  {
    c in Ids(s) && i < Ix(s, c) && Rec(s, c).parent == Some(s[i].id)
  }

  /** The structural invariant the recursive operations need: unique ids,
      duplicate-free child lists, and every child link pointing forward in
      the store to a record that names its parent (hence no cycles). */
  ghost predicate Ordered<K, V>(s: seq<NodeRec<K, V>>)
  {
    && Unique(s)
    && (forall i :: 0 <= i < |s| ==> Distinct(s[i].children))
    && (forall i, c :: 0 <= i < |s| && c in s[i].children ==> ChildLinked(s, i, c))
  }

  /** The parent named by record `i` is present and lists record `i`. */
  ghost predicate ParentLinked<K, V>(s: seq<NodeRec<K, V>>, i: int)
    requires 0 <= i < |s| && s[i].parent.Some?
  {
    s[i].parent.value in Ids(s) && s[i].id in Rec(s, s[i].parent.value).children
  }

  /** The container invariant: Ordered, and parent and child links agree. */
  ghost predicate Valid<K, V>(s: seq<NodeRec<K, V>>)
  {
    && Ordered(s)
    && (forall i :: 0 <= i < |s| && s[i].parent.Some? ==> ParentLinked(s, i))
  }

  /** The elements of a sequence, as a set. */
  ghost function Elems<K>(ks: seq<K>): set<K>
  {
    set c | c in ks
  }

  /** At most one record has no parent. */
  ghost predicate SingleRoot<K, V>(s: seq<NodeRec<K, V>>)
  {
    forall i, j :: 0 <= i < |s| && 0 <= j < |s| && s[i].parent.None? && s[j].parent.None? ==> i == j
  }

  /** The child list with every occurrence of `k` removed (remove_child). */
  function Without<K(==)>(ks: seq<K>, k: K): (r: seq<K>)
    ensures forall c :: c in r ==> c in ks && c != k
    ensures forall c :: c in ks && c != k ==> c in r
    ensures k !in ks ==> r == ks
  {
    if ks == [] then []
    else if ks[0] == k then Without(ks[1..], k)
    else [ks[0]] + Without(ks[1..], k)
  }

  /** The store with the first record carrying `r.id` replaced by `r`: an
      update made through a shared node handle. Unchanged if the id is absent. */
  function Put<K(==), V>(s: seq<NodeRec<K, V>>, r: NodeRec<K, V>): (t: seq<NodeRec<K, V>>)
    ensures |t| == |s| && Ids(t) == Ids(s)
    ensures r.id in Ids(s) ==> t[Ix(s, r.id)] == r
    ensures forall i :: 0 <= i < |s| && (r.id !in Ids(s) || i != Ix(s, r.id)) ==> t[i] == s[i]
  {
    if r.id in Ids(s) then
      var t := s[Ix(s, r.id) := r];
      assert Ids(t) == Ids(s);
      t
    else s
  }

  /** The store with every record whose id is in `R` removed (Vec::retain). */
  function Drop<K(==), V>(s: seq<NodeRec<K, V>>, R: set<K>): (r: seq<NodeRec<K, V>>)
    ensures |r| <= |s|
  {
    if s == [] then []
    else (if s[0].id in R then [] else [s[0]]) + Drop(s[1..], R)
  }

  /** The tail of a duplicate-free list is duplicate-free and lacks the head. */
  lemma DistinctTail<K>(ks: seq<K>)
    requires Distinct(ks) && ks != []
    ensures Distinct(ks[1..]) && ks[0] !in ks[1..]
  {
    var rest := ks[1..];
    forall a, b | 0 <= a < b < |rest| ensures At(rest, a) != At(rest, b) {
      assert At(ks, a + 1) != At(ks, b + 1);
    }
    forall j | 0 <= j < |rest| ensures rest[j] != ks[0] {
      assert At(ks, 0) != At(ks, j + 1);
    }
  }

  lemma WithoutDistinct<K>(ks: seq<K>, k: K)
    requires Distinct(ks)
    ensures Distinct(Without(ks, k))
  {
    if ks != [] {
      DistinctTail(ks);
      WithoutDistinct(ks[1..], k);
      var w := Without(ks[1..], k);
      if ks[0] != k {
        assert ks[0] !in w;
        var r := [ks[0]] + w;
        forall a, b | 0 <= a < b < |r| ensures At(r, a) != At(r, b) {
          assert r[b] == w[b - 1];
          if a > 0 {
            assert r[a] == w[a - 1];
            assert At(w, a - 1) != At(w, b - 1);
          }
        }
      }
    }
  }

  lemma IdsCons<K, V>(s: seq<NodeRec<K, V>>)
    requires |s| > 0
    ensures Ids(s) == [s[0].id] + Ids(s[1..])
  {
  }

  lemma IdsAppend<K, V>(s: seq<NodeRec<K, V>>, t: seq<NodeRec<K, V>>)
    ensures Ids(s + t) == Ids(s) + Ids(t)
  {
  }

  /** Which ids survive a Drop, and that survivors are unchanged records. */
  lemma DropIds<K, V>(s: seq<NodeRec<K, V>>, R: set<K>)
    ensures forall k :: k in Ids(Drop(s, R)) ==> k in Ids(s) && k !in R
    ensures forall k :: k in Ids(s) && k !in R ==> k in Ids(Drop(s, R))
    ensures forall q :: q in Drop(s, R) ==> q in s
  {
    if s != [] {
      DropIds(s[1..], R);
      var head := if s[0].id in R then [] else [s[0]];
      var tail := Drop(s[1..], R);
      assert Drop(s, R) == head + tail;
      IdsAppend(head, tail);
      IdsCons(s);
      forall q | q in head + tail ensures q in s {
        if q in tail {
          assert q in s[1..];
        }
      }
    }
  }

  // ---------------------------------------------------------------------
  // Index lemmas
  // ---------------------------------------------------------------------

  lemma IxOf<K, V>(s: seq<NodeRec<K, V>>, i: int)
    requires Unique(s) && 0 <= i < |s|
    ensures s[i].id in Ids(s) && Ix(s, s[i].id) == i && Rec(s, s[i].id) == s[i]
  {
    assert Ids(s)[i] == s[i].id;
    var j := Ix(s, s[i].id);
    assert IdAt(s, j) == IdAt(s, i);
  }

  lemma UniqueTail<K, V>(s: seq<NodeRec<K, V>>)
    requires Unique(s) && |s| > 0
    ensures Unique(s[1..]) && s[0].id !in Ids(s[1..])
  {
    forall a, b | 0 <= a < b < |s| - 1 ensures IdAt(s[1..], a) != IdAt(s[1..], b) {
      assert s[1..][a] == s[a + 1] && s[1..][b] == s[b + 1];
      assert IdAt(s, a + 1) != IdAt(s, b + 1);
    }
    forall j | 0 <= j < |s| - 1 ensures Ids(s[1..])[j] != s[0].id {
      assert s[1..][j] == s[j + 1];
      assert IdAt(s, 0) != IdAt(s, j + 1);
    }
  }

  lemma UniqueSplit<K, V>(s: seq<NodeRec<K, V>>, t: seq<NodeRec<K, V>>)
    requires Unique(s + t)
    ensures Unique(s) && Unique(t)
    ensures forall k :: k in Ids(s) ==> k !in Ids(t)
  {
    forall a, b | 0 <= a < b < |s| ensures IdAt(s, a) != IdAt(s, b) {
      assert IdAt(s + t, a) != IdAt(s + t, b);
      assert (s + t)[a] == s[a] && (s + t)[b] == s[b];
    }
    forall a, b | 0 <= a < b < |t| ensures IdAt(t, a) != IdAt(t, b) {
      assert IdAt(s + t, |s| + a) != IdAt(s + t, |s| + b);
      assert (s + t)[|s| + a] == t[a] && (s + t)[|s| + b] == t[b];
    }
    forall a, b | 0 <= a < |s| && 0 <= b < |t| ensures Ids(s)[a] != Ids(t)[b] {
      assert IdAt(s + t, a) != IdAt(s + t, |s| + b);
      assert (s + t)[a] == s[a] && (s + t)[|s| + b] == t[b];
    }
  }

  /** Records of an arena appended after `s` are found after `s`. */
  lemma IxAppend<K, V>(s: seq<NodeRec<K, V>>, t: seq<NodeRec<K, V>>, k: K)
    requires Unique(s + t) && k in Ids(s + t)
    ensures k in Ids(s) ==> Ix(s + t, k) == Ix(s, k)
    ensures k !in Ids(s) ==> k in Ids(t) && Ix(s + t, k) == |s| + Ix(t, k)
  {
    UniqueSplit(s, t);
    IdsAppend(s, t);
    var i := Ix(s + t, k);
    IxOf(s + t, i);
    if i < |s| {
      assert (s + t)[i] == s[i];
      IxOf(s, i);
    } else {
      var j := i - |s|;
      assert (s + t)[i] == t[j];
      IxOf(t, j);
      assert Ids(t)[j] == k;
    }
  }

  lemma IxTail<K, V>(s: seq<NodeRec<K, V>>, k: K)
    requires Unique(s) && |s| > 0 && k in Ids(s[1..])
    ensures k in Ids(s) && Ix(s, k) == Ix(s[1..], k) + 1 && Rec(s, k) == Rec(s[1..], k)
  {
    UniqueTail(s);
    var j := Ix(s[1..], k);
    assert s[1..][j] == s[j + 1];
    IxOf(s, j + 1);
  }

  // ---------------------------------------------------------------------
  // Drop lemmas
  // ---------------------------------------------------------------------

  lemma DropUnique<K, V>(s: seq<NodeRec<K, V>>, R: set<K>)
    requires Unique(s)
    ensures Unique(Drop(s, R))
  {
    if s != [] {
      UniqueTail(s);
      DropUnique(s[1..], R);
      DropIds(s[1..], R);
      var tail := Drop(s[1..], R);
      if s[0].id !in R {
        var d := [s[0]] + tail;
        assert s[0].id !in Ids(tail);
        forall a, b | 0 <= a < b < |d| ensures IdAt(d, a) != IdAt(d, b) {
          assert d[b] == tail[b - 1];
          if a == 0 {
            assert Ids(tail)[b - 1] == d[b].id;
          } else {
            assert d[a] == tail[a - 1];
            assert IdAt(tail, a - 1) != IdAt(tail, b - 1);
          }
        }
      } else {
        assert Drop(s, R) == tail;
      }
    }
  }

  /** A record that survives is unchanged. */
  lemma DropRec<K, V>(s: seq<NodeRec<K, V>>, R: set<K>, k: K)
    requires Unique(s) && k in Ids(Drop(s, R))
    ensures k in Ids(s) && k !in R && Rec(Drop(s, R), k) == Rec(s, k)
  {
    DropUnique(s, R);
    DropIds(s, R);
    var d := Drop(s, R);
    var q := Rec(d, k);
    assert q in d;
    assert q in s;
    var i :| 0 <= i < |s| && s[i] == q;
    IxOf(s, i);
  }

  /** Survivors keep their relative order. */
  lemma {:induction false} DropOrder<K, V>(s: seq<NodeRec<K, V>>, R: set<K>, a: K, b: K)
    requires Unique(s) && a in Ids(Drop(s, R)) && b in Ids(Drop(s, R))
    ensures a in Ids(s) && b in Ids(s)
    ensures Ix(s, a) < Ix(s, b) <==> Ix(Drop(s, R), a) < Ix(Drop(s, R), b)
  {
    DropIds(s, R);
    var d := Drop(s, R);
    DropUnique(s, R);
    UniqueTail(s);
    var head := if s[0].id in R then [] else [s[0]];
    var tail := Drop(s[1..], R);
    assert d == head + tail;
    DropIds(s[1..], R);
    IdsAppend(head, tail);
    IdsCons(s);
    if a == s[0].id || b == s[0].id {
      IxOf(s, 0);
      assert head == [s[0]];
      IxOf(d, 0);
    } else {
      assert a in Ids(tail) && b in Ids(tail);
      DropUnique(s[1..], R);
      DropOrder(s[1..], R, a, b);
      IxTail(s, a);
      IxTail(s, b);
      IxAppend(head, tail, a);
      IxAppend(head, tail, b);
    }
  }

  /** Dropping a set of present ids shrinks the store by its size. */
  lemma {:induction false} DropSize<K, V>(s: seq<NodeRec<K, V>>, R: set<K>)
    requires Unique(s)
    requires forall k :: k in R ==> k in Ids(s)
    ensures |Drop(s, R)| == |s| - |R|
  {
    if s == [] {
      assert R == {};
    } else {
      var k := s[0].id;
      UniqueTail(s);
      IdsCons(s);
      var R' := R - {k};
      DropSize(s[1..], R');
      DropSame(s[1..], R, R');
      if k in R {
        assert |R'| == |R| - 1;
      } else {
        assert R' == R;
      }
    }
  }

  /** Two removal sets that agree on the ids present remove the same records. */
  lemma DropSame<K, V>(s: seq<NodeRec<K, V>>, A: set<K>, B: set<K>)
    requires forall k :: k in Ids(s) ==> (k in A <==> k in B)
    ensures Drop(s, A) == Drop(s, B)
  {
    if s != [] {
      IdsCons(s);
      DropSame(s[1..], A, B);
    }
  }

  lemma DropDrop<K, V>(s: seq<NodeRec<K, V>>, A: set<K>, B: set<K>)
    ensures Drop(Drop(s, A), B) == Drop(s, A + B)
  {
    if s != [] {
      DropDrop(s[1..], A, B);
      var head := if s[0].id in A then [] else [s[0]];
      assert Drop(s, A) == head + Drop(s[1..], A);
      DropAppend(head, Drop(s[1..], A), B);
    }
  }

  lemma DropAppend<K, V>(s: seq<NodeRec<K, V>>, t: seq<NodeRec<K, V>>, R: set<K>)
    ensures Drop(s + t, R) == Drop(s, R) + Drop(t, R)
  {
    if s == [] {
      assert s + t == t;
    } else {
      assert (s + t)[0] == s[0] && (s + t)[1..] == s[1..] + t;
      DropAppend(s[1..], t, R);
    }
  }

  /** Changing only records that are dropped anyway does not change the result. */
  lemma DropIgnores<K, V>(s: seq<NodeRec<K, V>>, t: seq<NodeRec<K, V>>, R: set<K>)
    requires |s| == |t|
    requires forall i :: 0 <= i < |s| ==> s[i].id == t[i].id && (s[i].id !in R ==> s[i] == t[i])
    ensures Drop(s, R) == Drop(t, R)
  {
    if s != [] {
      DropIgnores(s[1..], t[1..], R);
    }
  }

  /** Dropping a set that no surviving record points to keeps the store Ordered. */
  lemma DropOrdered<K, V>(s: seq<NodeRec<K, V>>, R: set<K>)
    requires Ordered(s)
    requires forall i, c :: 0 <= i < |s| && s[i].id !in R && c in s[i].children ==> c !in R
    ensures Ordered(Drop(s, R))
  {
    var d := Drop(s, R);
    DropUnique(s, R);
    DropIds(s, R);
    forall i | 0 <= i < |d| ensures Distinct(d[i].children) {
      assert d[i] in s;
    }
    forall i, c | 0 <= i < |d| && c in d[i].children ensures ChildLinked(d, i, c) {
      var k := d[i].id;
      IxOf(d, i);
      DropRec(s, R, k);
      var si := Ix(s, k);
      assert s[si] == d[i];
      assert ChildLinked(s, si, c);
      assert c !in R;
      assert c in Ids(d);
      DropRec(s, R, c);
      DropOrder(s, R, k, c);
    }
  }

  // ---------------------------------------------------------------------
  // Properties of the invariant
  // ---------------------------------------------------------------------

  /** In a Valid store a record's parent is stored before it. */
  lemma ParentBefore<K, V>(s: seq<NodeRec<K, V>>, i: int)
    requires Valid(s) && 0 <= i < |s| && s[i].parent.Some?
    ensures s[i].parent.value in Ids(s) && Ix(s, s[i].parent.value) < i
    ensures s[i].parent.value != s[i].id
  {
    assert ParentLinked(s, i);
    var p := s[i].parent.value;
    assert ChildLinked(s, Ix(s, p), s[i].id);
    IxOf(s, i);
  }

  /** A non-empty Valid store starts with its root, so the root lookup of
      the container succeeds and finds the first record. */
  lemma {:induction false} ValidFirstIsRoot<K, V>(s: seq<NodeRec<K, V>>)
    ensures Valid(s) && |s| > 0 ==> FirstRoot(s) == Some(0)
  {
    if Valid(s) && |s| > 0 {
      if s[0].parent.Some? {
        ParentBefore(s, 0);
      }
      assert s[0].parent.None?;
    }
  }

  /** After `Put`, the replaced id maps to the new record and every other
      id keeps its record and position. */
  lemma PutRec<K, V>(s: seq<NodeRec<K, V>>, r: NodeRec<K, V>, k: K)
    requires Unique(s) && r.id in Ids(s) && k in Ids(s)
    ensures Unique(Put(s, r)) && k in Ids(Put(s, r)) && Ix(Put(s, r), k) == Ix(s, k)
    ensures Rec(Put(s, r), k) == if k == r.id then r else Rec(s, k)
  {
    var t := Put(s, r);
    assert Unique(t) by {
      forall a, b | 0 <= a < b < |t| ensures IdAt(t, a) != IdAt(t, b) {
        assert IdAt(s, a) != IdAt(s, b);
        assert Ids(t)[a] == Ids(s)[a] && Ids(t)[b] == Ids(s)[b];
      }
    }
    IxOf(t, Ix(s, k));
    assert t[Ix(s, k)].id == k by {
      assert Ids(t)[Ix(s, k)] == Ids(s)[Ix(s, k)];
    }
    if k != r.id {
      IxOf(s, Ix(s, r.id));
    }
  }

  /** A duplicate-free sequence has as many elements as its set. */
  lemma {:induction false} DistinctCard<K>(ks: seq<K>)
    requires Distinct(ks)
    ensures |Elems(ks)| == |ks|
  {
    if ks != [] {
      var rest := ks[1..];
      DistinctTail(ks);
      DistinctCard(rest);
      assert ks == [ks[0]] + rest;
      assert Elems(ks) == {ks[0]} + Elems(rest);
    }
  }

  /** Joining two duplicate-free sequences with no common element. */
  lemma DistinctAppend<K>(a: seq<K>, b: seq<K>)
    requires Distinct(a) && Distinct(b) && Elems(a) !! Elems(b)
    ensures Distinct(a + b)
  {
    forall i, j | 0 <= i < j < |a + b| ensures At(a + b, i) != At(a + b, j) {
      if j < |a| {
        assert At(a, i) != At(a, j);
      } else if i >= |a| {
        assert At(b, i - |a|) != At(b, j - |a|);
      } else {
        assert (a + b)[i] in Elems(a) && (a + b)[j] in Elems(b);
      }
    }
  }
}
