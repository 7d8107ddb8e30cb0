/**
 Which trees serialize, and the document each becomes.
 */
module EncodedTrees {
  import opened Common
  import opened Lua
  import opened Unfolding
  import opened Serializer
  import J = Json

  predicate AllText(bs: seq<Branch>) { forall i :: 0 <= i < |bs| ==> bs[i].key.Text? }

  predicate AllNumeric(bs: seq<Branch>) { forall i :: 0 <= i < |bs| ==> bs[i].key.Numeric? }

  /** Strings, numbers, booleans, and tables of such keyed all by strings or all by numbers. */
  predicate Serializable(t: Tree) {
    match t
    case Leaf(v) => v.Text? || v.Numeric? || v.Boolean?
    case Node(bs) => (AllText(bs) || AllNumeric(bs)) && forall b :: b in bs ==> Serializable(b.val)
  }

  predicate ChildrenDone(bs: seq<Branch>) { forall i :: 0 <= i < |bs| ==> Encode(bs[i].val).Done? }

  function Member(b: Branch): J.Member
    requires b.key.Text? && Encode(b.val).Done?
  {
    J.Member(CString(b.key.s), Encode(b.val).json)
  }

  function Members(bs: seq<Branch>, n: nat): seq<J.Member>
    requires n <= |bs| && AllText(bs) && ChildrenDone(bs)
  {
    seq(n, i requires 0 <= i < n => Member(bs[i]))
  }

  function Items(bs: seq<Branch>, n: nat): seq<J.Json>
    requires n <= |bs| && ChildrenDone(bs)
  {
    seq(n, i requires 0 <= i < n => Encode(bs[i].val).json)
  }

  lemma {:induction false} EncodeFromMembers(bs: seq<Branch>, i: nat)
    requires 1 <= i <= |bs| && AllText(bs) && ChildrenDone(bs)
    ensures EncodeFrom(bs, i, J.Obj(Members(bs, i))) == Done(J.Obj(Members(bs, |bs|)))
    decreases |bs| - i
  {
    if i < |bs| {
      assert Members(bs, i) + [Member(bs[i])] == Members(bs, i + 1);
      EncodeFromMembers(bs, i + 1);
    }
  }

  lemma {:induction false} EncodeFromItems(bs: seq<Branch>, i: nat)
    requires 1 <= i <= |bs| && AllNumeric(bs) && ChildrenDone(bs)
    ensures EncodeFrom(bs, i, J.Arr(Items(bs, i))) == Done(J.Arr(Items(bs, |bs|)))
    decreases |bs| - i
  {
    if i < |bs| {
      assert Items(bs, i) + [Encode(bs[i].val).json] == Items(bs, i + 1);
      EncodeFromItems(bs, i + 1);
    }
  }

  /** A table becomes null when empty, else an object under its cut names or an array in traversal order. */
  lemma EncodeShape(bs: seq<Branch>)
    requires ChildrenDone(bs)
    ensures bs == [] ==> Encode(Node(bs)) == Done(J.Null)
    ensures bs != [] && AllText(bs) ==> Encode(Node(bs)) == Done(J.Obj(Members(bs, |bs|)))
    ensures bs != [] && AllNumeric(bs) ==> Encode(Node(bs)) == Done(J.Arr(Items(bs, |bs|)))
  {
    if bs != [] && AllText(bs) {
      assert [Member(bs[0])] == Members(bs, 1);
      assert Add(J.Null, bs[0].key, EncodeBranch(bs[0]).json) == Some(J.Obj([Member(bs[0])]));
      assert Encode(Node(bs)) == EncodeFrom(bs, 0, J.Null) == EncodeFrom(bs, 1, J.Obj([Member(bs[0])]));
      EncodeFromMembers(bs, 1);
    }
    if bs != [] && AllNumeric(bs) {
      assert [Encode(bs[0].val).json] == Items(bs, 1);
      assert Add(J.Null, bs[0].key, EncodeBranch(bs[0]).json) == Some(J.Arr([Encode(bs[0].val).json]));
      assert Encode(Node(bs)) == EncodeFrom(bs, 0, J.Null) == EncodeFrom(bs, 1, J.Arr([Encode(bs[0].val).json]));
      EncodeFromItems(bs, 1);
    }
  }

  lemma {:induction false} EncodedBranches(bs: seq<Branch>, i: nat, builder: J.Json)
    requires i <= |bs| && EncodeFrom(bs, i, builder).Done?
    ensures forall k :: i <= k < |bs| ==> IsKey(bs[k].key) && Encode(bs[k].val).Done?
    ensures builder.Obj? ==> forall k :: i <= k < |bs| ==> bs[k].key.Text?
    ensures builder.Arr? ==> forall k :: i <= k < |bs| ==> bs[k].key.Numeric?
    ensures builder.Null? && i < |bs| ==> forall k :: i <= k < |bs| ==> bs[k].key.Text? == bs[i].key.Text?
    decreases |bs| - i
  {
    if i < |bs| {
      assert Encode(bs[i].val).Done?;
      EncodedBranches(bs, i + 1, Add(builder, bs[i].key, Encode(bs[i].val).json).value);
    }
  }

  /** Serialization succeeds on exactly the serializable trees. */
  lemma {:induction false} EncodesIffSerializable(t: Tree)
    ensures Encode(t).Done? <==> Serializable(t)
    decreases t
  {
    if t.Node? {
      var bs := t.branches;
      forall i | 0 <= i < |bs|
        ensures Encode(bs[i].val).Done? <==> Serializable(bs[i].val)
      {
        EncodesIffSerializable(bs[i].val);
      }
      if Encode(t).Done? {
        EncodedBranches(bs, 0, J.Null);
        assert bs != [] ==> AllText(bs) || AllNumeric(bs);
      }
      if Serializable(t) {
        assert forall i :: 0 <= i < |bs| ==> bs[i] in bs;
        EncodeShape(bs);
      }
    }
  }
}
