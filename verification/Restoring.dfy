/**
 Storing what was read back: it can always be read again, and the order in which
 Lua traverses rebuilt arrays decides whether it comes back the same.
 */
module Restoring {
  import opened Lua
  import opened Unfolding
  import opened Serializer
  import opened EncodedTrees
  import opened Deserializer
  import opened BuiltTrees
  import opened RoundTrip
  import J = Json

  /** A value and its normal form, in the order of its entries, are stored as the same text. */
  lemma {:induction false} NormalEncodesAlike(t: Tree)
    requires Serializable(t)
    ensures Serializable(Normal(t)) && Encode(Normal(t)) == Encode(t)
    decreases t
  {
    EncodesIffSerializable(t);
    if t.Leaf? {
      if t.v.Text? {
        CutTwice(t.v.s);
      }
    } else {
      var bs, ns := t.branches, NormalBranches(t.branches, |t.branches|);
      ChildrenOf(t);
      forall i | 0 <= i < |bs|
        ensures ns[i] == NormalBranch(bs[i], i)
        ensures Serializable(ns[i].val) && Encode(ns[i].val) == Encode(bs[i].val)
      {
        NormalEncodesAlike(bs[i].val);
      }
      NormalTableEncodesAlike(bs, ns);
    }
  }

  lemma NormalTableEncodesAlike(bs: seq<Branch>, ns: seq<Branch>)
    requires |ns| == |bs| && ChildrenDone(bs) && (AllText(bs) || AllNumeric(bs))
    requires forall i :: 0 <= i < |bs| ==>
               && ns[i].key == NormalKey(bs[i].key, i)
               && Serializable(ns[i].val) && Encode(ns[i].val) == Encode(bs[i].val)
    ensures Serializable(Node(ns)) && Encode(Node(ns)) == Encode(Node(bs))
  {
    assert ChildrenDone(ns);
    EncodeShape(bs);
    EncodeShape(ns);
    if AllText(bs) {
      forall i | 0 <= i < |bs|
        ensures Member(ns[i]) == Member(bs[i])
      {
        CutTwice(bs[i].key.s);
      }
      assert Members(ns, |ns|) == Members(bs, |bs|);
    }
    if AllNumeric(bs) {
      assert Items(ns, |ns|) == Items(bs, |bs|);
    }
  }

  /**
   What was read back can always be stored and read again.  It then comes back
   alike exactly when it is its own normal form, as it is where arrays are
   traversed in order.
   */
  lemma RestoresAgain(m: Memory, t: Tree, u: Tree)
    requires m.Valid() && t.Node? && Serializable(t) && Encode(t).Done?
    requires var r := Cast(m, AsTable, StoredText(Encode(t).json)); r.Pushed? && Unfolds(r.mem.heap, r.v, u)
    ensures Encode(u).Done?
    ensures var r := Cast(m, AsTable, StoredText(Encode(t).json));
            var again := Cast(r.mem, AsTable, StoredText(Encode(u).json));
            && again.Pushed?
            && (LooksLike(again.mem.heap, again.v, u) <==> Alike(Normal(u), u))
            && (Orderly(u) ==> LooksLike(again.mem.heap, again.v, u))
  {
    var r := Cast(m, AsTable, StoredText(Encode(t).json));
    TableRoundTrip(m, t);
    LooksLikeFrame(Slice(r.mem.heap, m.next, r.mem.next), r.mem.heap, r.v, Normal(t));
    UnfoldsLooks(r.mem.heap, r.v, u);
    LooksLikeUpToOrder(r.mem.heap, r.v, Normal(t), u);
    UnfoldingIsWellKeyed(r.mem.heap, r.v, u);
    RestoredIsReadable(t, u);
    TableRoundTrip(r.mem, u);
    GraphRoundTrip(r.mem, r.v, u);
    if Orderly(u) {
      RestoredIsPlain(t, u);
      AlikeIffPlain(u);
    }
  }

  /** An order Lua is free to choose: two entries are traversed last first. */
  function PairsBackwards(assignments: nat, es: Fields): Fields {
    if |es| == 2 then [es[1], es[0]] else es
  }

  function Pair(a: bool, b: bool): seq<Branch> {
    [Entry(ItemKey(0), Leaf(Boolean(a))), Entry(ItemKey(1), Leaf(Boolean(b)))]
  }

  function PairBackwards(a: bool, b: bool): seq<Branch> { [Pair(a, b)[1], Pair(a, b)[0]] }

  lemma PairDocument(a: bool, b: bool, backwards: bool)
    ensures var bs := if backwards then PairBackwards(b, a) else Pair(a, b);
            Encode(Node(bs)) == Done(J.Arr([J.Bool(a), J.Bool(b)])) && Serializable(Node(bs))
  {
    var bs := if backwards then PairBackwards(b, a) else Pair(a, b);
    assert ChildrenDone(bs);
    EncodeShape(bs);
    assert Items(bs, 2) == [J.Bool(a), J.Bool(b)];
  }

  lemma AssignedBackwards(m: Memory, ref: Ref, a: bool, b: bool)
    requires ref in m.heap && m.heap[ref] == [] && m.order == PairsBackwards
    ensures var m' := Assign(Assign(m, ref, ItemKey(0), Boolean(a)), ref, ItemKey(1), Boolean(b));
            ref in m'.heap && m'.heap[ref] == [Entry(ItemKey(1), Boolean(b)), Entry(ItemKey(0), Boolean(a))]
  {
    assert Assign(m, ref, ItemKey(0), Boolean(a)).heap[ref] == [Entry(ItemKey(0), Boolean(a))];
  }

  lemma BuiltBackwards(m: Memory, a: bool, b: bool)
    requires m.order == PairsBackwards
    ensures var r := PushJson(m, J.Arr([J.Bool(a), J.Bool(b)]));
            r.Pushed? && Unfolds(r.mem.heap, r.v, Node(PairBackwards(a, b)))
  {
    var j, ref, m1 := J.Arr([J.Bool(a), J.Bool(b)]), m.next, WithNewTable(m);
    var m2 := Assign(m1, ref, ItemKey(0), Boolean(a));
    AssignedBackwards(m1, ref, a, b);
    assert PushFrom(m1, ref, j, 0) == PushFrom(m2, ref, j, 1);
    assert PushFrom(m2, ref, j, 1) == Pushed(Assign(m2, ref, ItemKey(1), Boolean(b)), Table(ref));
  }

  lemma PairsBackwardsIsOrder()
    ensures Memory(map[], 0, PairsBackwards, 0).Valid()
  {
    forall n, es: Fields | DistinctKeys(es)
      ensures Reorders(es, PairsBackwards(n, es))
    {
    }
  }

  lemma PairsAlike(a: bool, b: bool)
    ensures Alike(Node(PairBackwards(a, b)), Node(Pair(a, b)))
    ensures a != b ==> !Alike(Node(PairBackwards(a, b)), Node(Pair(b, a)))
  {
    var back, pair, other := PairBackwards(a, b), Pair(a, b), Pair(b, a);
    assert ItemKey(0) != ItemKey(1);
    forall key
      ensures key == ItemKey(0) ==> Find(back, key) == 1 && Find(pair, key) == Find(other, key) == 0
      ensures key == ItemKey(1) ==> Find(back, key) == 0 && Find(pair, key) == Find(other, key) == 1
      ensures Has(back, key) <==> key == ItemKey(0) || key == ItemKey(1)
      ensures Has(pair, key) <==> key == ItemKey(0) || key == ItemKey(1)
    {
    }
    assert !Alike(At(back, ItemKey(0)), At(other, ItemKey(0))) <==> a != b;
  }

  lemma PairRestored(m: Memory, a: bool, b: bool)
    requires m.Valid() && m.order == PairsBackwards
    ensures var r := Cast(m, AsTable, StoredText(J.Arr([J.Bool(a), J.Bool(b)])));
            && r == PushJson(m, J.Arr([J.Bool(a), J.Bool(b)]))
            && r.Pushed? && Unfolds(r.mem.heap, r.v, Node(PairBackwards(a, b)))
            && LooksLike(r.mem.heap, r.v, Node(Pair(a, b)))
            && (a != b ==> !LooksLike(r.mem.heap, r.v, Node(Pair(b, a))))
  {
    var j := J.Arr([J.Bool(a), J.Bool(b)]);
    J.TextRoundTrip(j);
    BuiltBackwards(m, a, b);
    var r := PushJson(m, j);
    UnfoldsLooks(r.mem.heap, r.v, Node(PairBackwards(a, b)));
    PairsAlike(a, b);
    LooksLikeUpToOrder(r.mem.heap, r.v, Node(PairBackwards(a, b)), Node(Pair(a, b)));
    LooksLikeUpToOrder(r.mem.heap, r.v, Node(PairBackwards(a, b)), Node(Pair(b, a)));
  }

  /** Under it the array a, b comes back as the array b, a once it is stored a second time. */
  lemma RestoringCanChange(m: Memory, a: bool, b: bool)
    requires m.Valid() && m.order == PairsBackwards && a != b
    ensures Encode(Node(Pair(a, b))).Done? && Encode(Node(PairBackwards(a, b))).Done?
    ensures var r := Cast(m, AsTable, StoredText(Encode(Node(Pair(a, b))).json));
            && r.Pushed? && Unfolds(r.mem.heap, r.v, Node(PairBackwards(a, b)))
            && var again := Cast(r.mem, AsTable, StoredText(Encode(Node(PairBackwards(a, b))).json));
               && again.Pushed? && LooksLike(again.mem.heap, again.v, Node(Pair(b, a)))
               && !LooksLike(again.mem.heap, again.v, Node(Pair(a, b)))
  {
    PairDocument(a, b, false);
    PairDocument(b, a, true);
    PairRestored(m, a, b);
    var r := PushJson(m, J.Arr([J.Bool(a), J.Bool(b)]));
    PushExtends(m, J.Arr([J.Bool(a), J.Bool(b)]));
    PairRestored(r.mem, b, a);
  }
}
