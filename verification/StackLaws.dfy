/**
 The stack laws of both directions in terms of how deep a value nests.
 */
module StackLaws {
  import opened Lua
  import opened Unfolding
  import opened Serializer
  import opened EncodedTrees
  import opened Deserializer
  import opened RoundTrip
  import J = Json

  /** Every branch of every table is itself a nonempty table or a scalar: two slots a level. */
  lemma {:induction false} ClimbIsTwiceDepth(t: Tree)
    requires Nonempty(t)
    ensures Climb(t) == 2 * Depth(t)
    decreases t, 1, 0
  {
    if t.Node? {
      ClimbFromDepth(t, 0);
      assert t.branches[0..] == t.branches;
    }
  }

  lemma {:induction false} ClimbFromDepth(t: Tree, i: nat)
    requires t.Node? && Nonempty(t) && i <= |t.branches|
    ensures ClimbFrom(t.branches, i) == if i == |t.branches| then 0 else 2 + 2 * DepthOf(t.branches[i..])
    decreases t, 0, |t.branches| - i
  {
    if i < |t.branches| {
      var rest := t.branches[i..];
      assert rest[0] == t.branches[i] && t.branches[i] in t.branches && rest[1..] == t.branches[i + 1..];
      ClimbIsTwiceDepth(t.branches[i].val);
      ClimbFromDepth(t, i + 1);
    }
  }

  /** A fault lies under at most as many tables as the value nests, and a fault of a table's keys under at least one. */
  lemma {:induction false} FaultDepth(t: Tree)
    requires Encode(t).Failed?
    ensures Encode(t).depth <= Depth(t)
    ensures !Encode(t).fault.BadValue? ==> Encode(t).depth >= 1
    decreases t, 1, 0
  {
    if t.Node? {
      FaultDepthFrom(t, 0, J.Null);
    }
  }

  lemma {:induction false} FaultDepthFrom(t: Tree, i: nat, builder: J.Json)
    requires t.Node? && i <= |t.branches| && EncodeFrom(t.branches, i, builder).Failed?
    ensures 1 <= EncodeFrom(t.branches, i, builder).depth <= Depth(t)
    decreases t, 0, |t.branches| - i
  {
    var b := t.branches[i];
    if IsKey(b.key) {
      if Encode(b.val).Failed? {
        FaultDepth(b.val);
        DepthOfMember(t.branches, i);
      } else if Add(builder, b.key, Encode(b.val).json).Some? {
        FaultDepthFrom(t, i + 1, Add(builder, b.key, Encode(b.val).json).value);
      }
    }
  }

  /** What a fault leaves on the stack, written out. */
  lemma HeightAfterFault(t: Tree, before: seq<Value>, after: seq<Value>, r: Outcome)
    requires Settles(t, before, after, r) && Encode(t).Failed?
    ensures var height := |before| - Encode(t).depth + if Encode(t).fault == MixedKeys then 3 else 0;
            if height < 0 then r == Undefined
            else
              && r == Threw(Encode(t).fault) && |after| == height
              && forall i :: 0 <= i < |before| && i < height ==> after[i] == before[i]
  {
  }

  /** A frame with as many slots as the value nests tables is never emptied beyond its bottom. */
  lemma DeepFrameIsDefined(t: Tree, before: seq<Value>, after: seq<Value>, r: Outcome)
    requires Settles(t, before, after, r) && Depth(t) <= |before|
    ensures !r.Undefined?
  {
    if Encode(t).Failed? {
      FaultDepth(t);
    }
  }

  /** A function inside `n` tables. */
  function Nested(n: nat): Tree {
    if n == 0 then Leaf(Opaque(0)) else Node([Entry(Text("k"), Nested(n - 1))])
  }

  lemma {:induction false} NestedFails(n: nat)
    ensures Depth(Nested(n)) == n && Encode(Nested(n)) == Failed(BadValue, n)
  {
    if n > 0 {
      NestedFails(n - 1);
      var bs := [Entry(Text("k"), Nested(n - 1))];
      assert Nested(n) == Node(bs) && bs[0] == Entry(Text("k"), Nested(n - 1));
      assert DepthOf(bs[1..]) == 0;
      assert BranchDepth(bs[0]) == n - 1;
      assert EncodeBranch(bs[0]) == Failed(BadValue, n - 1);
      assert EncodeFrom(bs, 0, J.Null) == Failed(BadValue, n);
    }
  }

  /** One slot fewer is not enough: in every frame some value one level deeper takes the stack below its bottom. */
  lemma ShallowFrameCanBreak(before: seq<Value>, after: seq<Value>, r: Outcome)
    requires Settles(Nested(|before| + 1), before, after, r)
    ensures Depth(Nested(|before| + 1)) == |before| + 1 && r.Undefined?
  {
    NestedFails(|before| + 1);
  }

  /** Pushing a stored value back takes one slot more than storing it did. */
  lemma {:induction false} PushClimbDepth(t: Tree)
    requires Serializable(t) && Nonempty(t)
    ensures Encode(t).Done? && PushClimb(Encode(t).json) == 2 * Depth(t) + 1
    decreases t, 1, 0
  {
    EncodesIffSerializable(t);
    if t.Node? {
      EncodedSlots(t);
      PushClimbFromDepth(t, Encode(t).json, 0);
      assert t.branches[0..] == t.branches;
    }
  }

  lemma {:induction false} PushClimbFromDepth(t: Tree, j: J.Json, i: nat)
    requires t.Node? && Serializable(t) && Nonempty(t) && i <= |t.branches|
    requires IsTable(j) && Size(j) == |t.branches|
    requires forall k :: 0 <= k < |t.branches| ==> Encode(t.branches[k].val) == Done(ChildAt(j, k))
    ensures PushClimbFrom(j, i) == if i == |t.branches| then 0 else 3 + 2 * DepthOf(t.branches[i..])
    decreases t, 0, |t.branches| - i
  {
    if i < |t.branches| {
      var rest := t.branches[i..];
      assert rest[0] == t.branches[i] && t.branches[i] in t.branches && rest[1..] == t.branches[i + 1..];
      PushClimbDepth(t.branches[i].val);
      PushClimbFromDepth(t, j, i + 1);
    }
  }

  /** Free slots every C function is given (section 4.1.1 of the Lua 5.4 Reference Manual). */
  const LUA_MINSTACK: nat := 20

  /** Storing stays within the guaranteed slots up to ten levels of tables, reading back up to nine. */
  lemma FitsGuaranteedSlots(t: Tree)
    requires Serializable(t) && Nonempty(t)
    ensures Climb(t) <= LUA_MINSTACK <==> Depth(t) <= 10
    ensures Encode(t).Done? && (PushClimb(Encode(t).json) <= LUA_MINSTACK <==> Depth(t) <= 9)
  {
    ClimbIsTwiceDepth(t);
    PushClimbDepth(t);
  }
}
