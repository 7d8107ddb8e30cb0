/**
 The tree a Lua value unfolds to.  Tables may be shared; the unfolding visits a
 shared table once for every path to it.  A value has an unfolding exactly when
 the tables it reaches are free of cycles.
 */
module Unfolding {
  import opened Common
  import opened Lua

  datatype Tree = Leaf(v: Value) | Node(branches: seq<Branch>)

  type Branch = Entry<Tree>

  predicate Unfolds(heap: Heap, v: Value, t: Tree)
    decreases t
  {
    match t
    case Leaf(w) => v == w && !v.Table?
    case Node(bs) =>
      && v.Table? && v.ref in heap && |heap[v.ref]| == |bs|
      && forall i :: 0 <= i < |bs| ==>
           heap[v.ref][i].key == bs[i].key && Unfolds(heap, heap[v.ref][i].val, bs[i].val)
  }

  ghost predicate HasUnfolding(heap: Heap, v: Value) { exists t :: Unfolds(heap, v, t) }

  ghost function UnfoldingOf(heap: Heap, v: Value): (t: Tree)
    requires HasUnfolding(heap, v)
    ensures Unfolds(heap, v, t)
  {
    var t :| Unfolds(heap, v, t); t
  }

  lemma {:induction false} UnfoldingIsUnique(heap: Heap, v: Value, s: Tree, t: Tree)
    requires Unfolds(heap, v, s) && Unfolds(heap, v, t)
    ensures s == t
    decreases s
  {
    if s.Node? {
      forall i | 0 <= i < |s.branches|
        ensures s.branches[i] == t.branches[i]
      {
        UnfoldingIsUnique(heap, heap[v.ref][i].val, s.branches[i].val, t.branches[i].val);
      }
      assert s.branches == t.branches;
    }
  }

  /** Every table has distinct keys, as the tables of a heap do. */
  predicate WellKeyed(t: Tree) {
    t.Node? ==> DistinctKeys(t.branches) && forall b :: b in t.branches ==> WellKeyed(b.val)
  }

  lemma {:induction false} UnfoldingIsWellKeyed(heap: Heap, v: Value, t: Tree)
    requires TablesOk(heap) && Unfolds(heap, v, t)
    ensures WellKeyed(t)
    decreases t
  {
    if t.Node? {
      var es, bs := heap[v.ref], t.branches;
      assert forall i :: 0 <= i < |bs| ==> es[i].key == bs[i].key;
      forall b | b in bs
        ensures WellKeyed(b.val)
      {
        var i :| 0 <= i < |bs| && bs[i] == b;
        UnfoldingIsWellKeyed(heap, es[i].val, b.val);
      }
    }
  }

  // ----- Trees up to traversal order -----

  ghost predicate SameKeys<T(!new), U(!new)>(es: seq<Entry<T>>, bs: seq<Entry<U>>) {
    |es| == |bs| && forall key :: Has(es, key) <==> Has(bs, key)
  }

  /** Equal but for the order of entries: the same keys in every table, and alike subtrees under each. */
  ghost predicate Alike(t: Tree, u: Tree)
    decreases t
  {
    match t
    case Leaf(_) => u == t
    case Node(bs) =>
      u.Node? && SameKeys(bs, u.branches) &&
      forall key :: Has(bs, key) ==> Alike(At(bs, key), At(u.branches, key))
  }

  /** The value unfolds to this tree but for the order of entries. */
  ghost predicate LooksLike(heap: Heap, v: Value, t: Tree)
    decreases t
  {
    match t
    case Leaf(w) => v == w && !v.Table?
    case Node(bs) =>
      v.Table? && v.ref in heap && SameKeys(heap[v.ref], bs) &&
      forall key :: Has(bs, key) ==> LooksLike(heap, At(heap[v.ref], key), At(bs, key))
  }

  lemma {:induction false} AlikeReflexive(t: Tree)
    ensures Alike(t, t)
    decreases t
  {
    if t.Node? {
      forall key | Has(t.branches, key)
        ensures Alike(At(t.branches, key), At(t.branches, key))
      {
        AlikeReflexive(At(t.branches, key));
      }
    }
  }

  lemma {:induction false} AlikeSymmetric(t: Tree, u: Tree)
    requires Alike(t, u)
    ensures Alike(u, t)
    decreases t
  {
    if t.Node? {
      forall key | Has(u.branches, key)
        ensures Alike(At(u.branches, key), At(t.branches, key))
      {
        AlikeSymmetric(At(t.branches, key), At(u.branches, key));
      }
    }
  }

  /** A value looks like all trees that are alike, and like no others. */
  lemma {:induction false} LooksLikeUpToOrder(heap: Heap, v: Value, s: Tree, t: Tree)
    requires LooksLike(heap, v, s)
    ensures LooksLike(heap, v, t) <==> Alike(s, t)
    decreases s
  {
    if s.Node? && t.Node? && SameKeys(s.branches, t.branches) {
      forall key | Has(s.branches, key)
        ensures LooksLike(heap, At(heap[v.ref], key), At(t.branches, key)) <==>
                Alike(At(s.branches, key), At(t.branches, key))
      {
        LooksLikeUpToOrder(heap, At(heap[v.ref], key), At(s.branches, key), At(t.branches, key));
      }
    }
  }

  /** Unfolding to a tree is looking like it, with the order of entries in place. */
  lemma {:induction false} UnfoldsLooks(heap: Heap, v: Value, t: Tree)
    requires Unfolds(heap, v, t)
    ensures LooksLike(heap, v, t)
    decreases t
  {
    if t.Node? {
      var es, bs := heap[v.ref], t.branches;
      forall key
        ensures Find(es, key) == Find(bs, key)
      {
        SameFind(bs, es, key);
      }
      forall key | Has(bs, key)
        ensures LooksLike(heap, At(es, key), At(bs, key))
      {
        UnfoldsLooks(heap, At(es, key), At(bs, key));
      }
    }
  }

  /** A value looks like a tree exactly when it unfolds to one alike. */
  lemma {:induction false} LooksLikeIffUnfolds(heap: Heap, v: Value, t: Tree)
    requires TablesOk(heap)
    ensures LooksLike(heap, v, t) <==> exists u :: Unfolds(heap, v, u) && Alike(u, t)
    decreases t
  {
    if u :| Unfolds(heap, v, u) && Alike(u, t) {
      UnfoldsLooks(heap, v, u);
      LooksLikeUpToOrder(heap, v, u, t);
    }
    if LooksLike(heap, v, t) {
      if t.Leaf? {
        assert Unfolds(heap, v, t) && Alike(t, t);
      } else {
        var es, bs := heap[v.ref], t.branches;
        forall i | 0 <= i < |es|
          ensures HasUnfolding(heap, es[i].val)
        {
          AtMember(es, es[i]);
          LooksLikeIffUnfolds(heap, es[i].val, At(bs, es[i].key));
        }
        var us := seq(|es|, i requires 0 <= i < |es| => Entry(es[i].key, UnfoldingOf(heap, es[i].val)));
        assert Unfolds(heap, v, Node(us));
        UnfoldsLooks(heap, v, Node(us));
        LooksLikeUpToOrder(heap, v, Node(us), t);
      }
    }
  }

  ghost predicate SubHeap(heap: Heap, heap': Heap) { forall r :: r in heap ==> r in heap' && heap'[r] == heap[r] }

  lemma {:induction false} LooksLikeFrame(heap: Heap, heap': Heap, v: Value, t: Tree)
    requires LooksLike(heap, v, t) && SubHeap(heap, heap')
    ensures LooksLike(heap', v, t)
    decreases t
  {
    if t.Node? {
      forall key | Has(t.branches, key)
        ensures LooksLike(heap', At(heap[v.ref], key), At(t.branches, key))
      {
        LooksLikeFrame(heap, heap', At(heap[v.ref], key), At(t.branches, key));
      }
    }
  }

  // ----- What indexing sees -----

  /** What is found by indexing with one key after another. */
  datatype Seen = Scalar(v: Value) | TableOf(size: nat) | Absent | Dangling

  ghost function Follow(t: Tree, path: seq<Value>): Seen
    decreases |path|
  {
    match t
    case Leaf(v) => if path == [] then Scalar(v) else Absent
    case Node(bs) =>
      if path == [] then TableOf(|bs|)
      else if Has(bs, path[0]) then Follow(At(bs, path[0]), path[1..])
      else Absent
  }

  ghost function Index(heap: Heap, v: Value, path: seq<Value>): Seen
    decreases |path|
  {
    if !v.Table? then (if path == [] then Scalar(v) else Absent)
    else if v.ref !in heap then Dangling
    else if path == [] then TableOf(|heap[v.ref]|)
    else if Has(heap[v.ref], path[0]) then Index(heap, At(heap[v.ref], path[0]), path[1..])
    else Absent
  }

  /** No indexing tells the value and the tree apart. */
  ghost predicate SeemsLike(heap: Heap, v: Value, t: Tree) {
    forall path :: Index(heap, v, path) == Follow(t, path)
  }

  lemma {:induction false} LooksLikeIndexes(heap: Heap, v: Value, t: Tree, path: seq<Value>)
    requires LooksLike(heap, v, t)
    ensures Index(heap, v, path) == Follow(t, path)
    decreases |path|
  {
    if t.Node? && path != [] && Has(t.branches, path[0]) {
      LooksLikeIndexes(heap, At(heap[v.ref], path[0]), At(t.branches, path[0]), path[1..]);
    }
  }

  lemma NeverAbsent(heap: Heap, v: Value, t: Tree)
    ensures Index(heap, v, []) != Absent && Follow(t, []) != Absent
  {
  }

  /** What seems like a table has its keys. */
  lemma SeemsKeyed(heap: Heap, v: Value, t: Tree, key: Value)
    requires SeemsLike(heap, v, t) && t.Node?
    ensures v.Table? && v.ref in heap && |heap[v.ref]| == |t.branches|
    ensures Has(heap[v.ref], key) <==> Has(t.branches, key)
  {
    assert Index(heap, v, []) == Follow(t, []);
    var es, bs, path := heap[v.ref], t.branches, [key];
    assert Index(heap, v, path) == Follow(t, path) && path[0] == key && path[1..] == [];
    if Has(es, key) {
      NeverAbsent(heap, At(es, key), t);
      assert Index(heap, v, path) == Index(heap, At(es, key), []);
    }
    if Has(bs, key) {
      NeverAbsent(heap, v, At(bs, key));
      assert Follow(t, path) == Follow(At(bs, key), []);
    }
  }

  lemma SeemsBelow(heap: Heap, v: Value, t: Tree, key: Value)
    requires SeemsLike(heap, v, t) && t.Node? && Has(t.branches, key)
    requires v.Table? && v.ref in heap && Has(heap[v.ref], key)
    ensures SeemsLike(heap, At(heap[v.ref], key), At(t.branches, key))
  {
    forall path
      ensures Index(heap, At(heap[v.ref], key), path) == Follow(At(t.branches, key), path)
    {
      var longer := [key] + path;
      assert longer[0] == key && longer[1..] == path;
      assert Index(heap, v, longer) == Follow(t, longer);
      assert Index(heap, v, longer) == Index(heap, At(heap[v.ref], key), path);
      assert Follow(t, longer) == Follow(At(t.branches, key), path);
    }
  }

  lemma {:induction false} IndexesLooksLike(heap: Heap, v: Value, t: Tree)
    requires SeemsLike(heap, v, t)
    ensures LooksLike(heap, v, t)
    decreases t
  {
    assert Index(heap, v, []) == Follow(t, []);
    if t.Node? {
      forall key
        ensures v.Table? && v.ref in heap && (Has(heap[v.ref], key) <==> Has(t.branches, key))
        ensures Has(t.branches, key) ==> LooksLike(heap, At(heap[v.ref], key), At(t.branches, key))
      {
        SeemsKeyed(heap, v, t, key);
        if Has(t.branches, key) {
          SeemsBelow(heap, v, t, key);
          IndexesLooksLike(heap, At(heap[v.ref], key), At(t.branches, key));
        }
      }
    }
  }

  /** A value looks like a tree exactly when no indexing from a script can tell them apart. */
  lemma LooksLikeIffIndexes(heap: Heap, v: Value, t: Tree)
    ensures LooksLike(heap, v, t) <==> SeemsLike(heap, v, t)
  {
    if LooksLike(heap, v, t) {
      forall path
        ensures Index(heap, v, path) == Follow(t, path)
      {
        LooksLikeIndexes(heap, v, t, path);
      }
    } else if SeemsLike(heap, v, t) {
      IndexesLooksLike(heap, v, t);
    }
  }

  // ----- How deep tables nest -----

  function Depth(t: Tree): nat
    decreases t, 1
  {
    match t
    case Leaf(_) => 0
    case Node(bs) => 1 + DepthOf(bs)
  }

  function DepthOf(bs: seq<Branch>): nat
    decreases bs, 0
  {
    if bs == [] then 0 else Max(BranchDepth(bs[0]), DepthOf(bs[1..]))
  }

  function BranchDepth(b: Branch): nat
    decreases b, 2
  {
    Depth(b.val)
  }

  lemma {:induction false} DepthOfMember(bs: seq<Branch>, i: nat)
    requires i < |bs|
    ensures Depth(bs[i].val) <= DepthOf(bs)
  {
    if i > 0 {
      DepthOfMember(bs[1..], i - 1);
    }
  }

  // ----- Unfoldings exist exactly for acyclic graphs -----

  /** A measure that every table in its domain passes, strictly decreased, to the tables it holds. */
  ghost predicate Ranked(heap: Heap, rank: map<Ref, nat>) {
    forall r :: r in rank ==>
      r in heap &&
      forall e :: e in heap[r] && e.val.Table? ==> e.val.ref in rank && rank[e.val.ref] < rank[r]
  }

  ghost predicate Acyclic(heap: Heap, v: Value) {
    exists rank :: Ranked(heap, rank) && (v.Table? ==> v.ref in rank)
  }

  ghost function Unfold(heap: Heap, rank: map<Ref, nat>, v: Value): (t: Tree)
    requires Ranked(heap, rank) && (v.Table? ==> v.ref in rank)
    ensures Unfolds(heap, v, t)
    decreases if v.Table? then rank[v.ref] + 1 else 0
  {
    if !v.Table? then Leaf(v)
    else
      var es := heap[v.ref];
      assert forall i :: 0 <= i < |es| ==> es[i] in es;
      Node(seq(|es|, i requires 0 <= i < |es| => Entry(es[i].key, Unfold(heap, rank, es[i].val))))
  }

  /** The tables an unfolding visits. */
  ghost function Visited(heap: Heap, v: Value, t: Tree): set<Ref>
    requires Unfolds(heap, v, t)
    decreases t
  {
    match t
    case Leaf(_) => {}
    case Node(bs) =>
      {v.ref} + set i, r | 0 <= i < |bs| && r in Visited(heap, heap[v.ref][i].val, bs[i].val) :: r
  }

  lemma {:induction false} VisitedUnfolds(heap: Heap, v: Value, t: Tree, r: Ref)
    requires Unfolds(heap, v, t) && r in Visited(heap, v, t)
    ensures r in heap && HasUnfolding(heap, Table(r))
    ensures forall e :: e in heap[r] && e.val.Table? ==> e.val.ref in Visited(heap, v, t)
    decreases t
  {
    var es, bs := heap[v.ref], t.branches;
    if r == v.ref {
      assert Unfolds(heap, Table(r), t);
      forall e | e in es && e.val.Table?
        ensures e.val.ref in Visited(heap, v, t)
      {
        var i :| 0 <= i < |es| && es[i] == e;
        assert Unfolds(heap, es[i].val, bs[i].val);
        assert e.val.ref in Visited(heap, es[i].val, bs[i].val);
      }
    } else {
      var i :| 0 <= i < |bs| && r in Visited(heap, es[i].val, bs[i].val);
      VisitedUnfolds(heap, es[i].val, bs[i].val, r);
      assert Visited(heap, es[i].val, bs[i].val) <= Visited(heap, v, t);
    }
  }

  lemma UnfoldedChildIsShallower(heap: Heap, r: Ref, e: Entry<Value>)
    requires r in heap && HasUnfolding(heap, Table(r)) && e in heap[r] && e.val.Table?
    requires HasUnfolding(heap, e.val)
    ensures Depth(UnfoldingOf(heap, e.val)) < Depth(UnfoldingOf(heap, Table(r)))
  {
    var t := UnfoldingOf(heap, Table(r));
    var i :| 0 <= i < |heap[r]| && heap[r][i] == e;
    UnfoldingIsUnique(heap, e.val, t.branches[i].val, UnfoldingOf(heap, e.val));
    DepthOfMember(t.branches, i);
  }

  /** Having an unfolding and reaching no cycle are the same thing. */
  lemma UnfoldsIffAcyclic(heap: Heap, v: Value)
    ensures HasUnfolding(heap, v) <==> Acyclic(heap, v)
  {
    if Acyclic(heap, v) {
      var rank :| Ranked(heap, rank) && (v.Table? ==> v.ref in rank);
      assert Unfolds(heap, v, Unfold(heap, rank, v));
    }
    if t :| Unfolds(heap, v, t) {
      forall r | r in Visited(heap, v, t)
        ensures HasUnfolding(heap, Table(r))
      {
        VisitedUnfolds(heap, v, t, r);
      }
      var rank := map r | r in Visited(heap, v, t) :: Depth(UnfoldingOf(heap, Table(r)));
      forall r | r in rank
        ensures r in heap
        ensures forall e :: e in heap[r] && e.val.Table? ==> e.val.ref in rank && rank[e.val.ref] < rank[r]
      {
        VisitedUnfolds(heap, v, t, r);
        forall e | e in heap[r] && e.val.Table?
          ensures e.val.ref in rank && rank[e.val.ref] < rank[r]
        {
          UnfoldedChildIsShallower(heap, r, e);
        }
      }
      assert Ranked(heap, rank);
    }
  }
}
