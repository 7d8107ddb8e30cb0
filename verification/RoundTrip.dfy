/**
 Serializing a table and deserializing the text again: when it succeeds, and what
 comes back.
 */
module RoundTrip {
  import opened Common
  import opened Lua
  import opened Unfolding
  import opened Serializer
  import opened EncodedTrees
  import opened Deserializer
  import opened BuiltTrees
  import opened Ownership
  import Decimals
  import J = Json

  predicate Nonempty(t: Tree) {
    t.Node? ==> t.branches != [] && forall b :: b in t.branches ==> Nonempty(b.val)
  }

  /** No table has two string keys that agree up to their first NUL. */
  predicate CutKeysDistinct(t: Tree) {
    t.Node? ==>
      && (forall i, k :: 0 <= i < k < |t.branches| && t.branches[i].key.Text? && t.branches[k].key.Text? ==>
            CString(t.branches[i].key.s) != CString(t.branches[k].key.s))
      && forall b :: b in t.branches ==> CutKeysDistinct(b.val)
  }

  function NormalKey(key: Value, i: nat): Value {
    if key.Text? then Text(CString(key.s)) else ItemKey(i)
  }

  /** Strings cut at the first NUL, number keys replaced by the position in traversal order. */
  function Normal(t: Tree): Tree {
    match t
    case Leaf(Text(s)) => Leaf(Text(CString(s)))
    case Leaf(v) => Leaf(v)
    case Node(bs) => Node(NormalBranches(bs, |bs|))
  }

  function NormalBranches(bs: seq<Branch>, n: nat): seq<Branch>
    requires n <= |bs|
    decreases bs, 0
  {
    seq(n, i requires 0 <= i < n => NormalBranch(bs[i], i))
  }

  function NormalBranch(b: Branch, i: nat): Branch
    decreases b, 0
  {
    Entry(NormalKey(b.key, i), Normal(b.val))
  }

  lemma ChildrenOf(t: Tree)
    requires t.Node? && Serializable(t)
    ensures ChildrenDone(t.branches)
    ensures forall i :: 0 <= i < |t.branches| ==> Serializable(t.branches[i].val)
  {
    forall i | 0 <= i < |t.branches|
      ensures Encode(t.branches[i].val).Done? && Serializable(t.branches[i].val)
    {
      assert t.branches[i] in t.branches;
      EncodesIffSerializable(t.branches[i].val);
    }
  }

  /** The document names a member twice exactly when cutting the keys makes two of them equal. */
  lemma {:induction false} NamesUnique(t: Tree)
    requires Serializable(t)
    ensures Encode(t).Done?
    ensures J.UniqueNames(Encode(t).json) <==> CutKeysDistinct(t)
    decreases t
  {
    EncodesIffSerializable(t);
    if t.Node? && t.branches != [] {
      var bs := t.branches;
      ChildrenOf(t);
      EncodeShape(bs);
      forall i | 0 <= i < |bs|
        ensures J.UniqueNames(Encode(bs[i].val).json) <==> CutKeysDistinct(bs[i].val)
      {
        NamesUnique(bs[i].val);
      }
      if AllText(bs) {
        MemberNamesUnique(bs);
      } else {
        ItemNamesUnique(bs);
      }
    }
  }

  predicate ChildrenCutDistinct(bs: seq<Branch>) {
    forall i :: 0 <= i < |bs| ==> CutKeysDistinct(bs[i].val)
  }

  lemma MembersOfBranches(bs: seq<Branch>)
    ensures (forall b :: b in bs ==> CutKeysDistinct(b.val)) <==> ChildrenCutDistinct(bs)
  {
    assert forall i :: 0 <= i < |bs| ==> bs[i] in bs;
  }

  lemma MemberNamesUnique(bs: seq<Branch>)
    requires AllText(bs) && ChildrenDone(bs)
    requires forall i :: 0 <= i < |bs| ==>
               (J.UniqueNames(Encode(bs[i].val).json) <==> CutKeysDistinct(bs[i].val))
    ensures J.UniqueNames(J.Obj(Members(bs, |bs|))) <==> CutKeysDistinct(Node(bs))
  {
    var ms := Members(bs, |bs|);
    assert forall i :: 0 <= i < |bs| ==> ms[i] == Member(bs[i]) && ms[i] in ms;
    MembersOfBranches(bs);
    if ChildrenCutDistinct(bs) {
      assert forall m :: m in ms ==> J.UniqueNames(m.value);
    }
    if J.UniqueNames(J.Obj(ms)) {
      assert forall i :: 0 <= i < |bs| ==> J.UniqueNames(ms[i].value);
    }
  }

  lemma ItemNamesUnique(bs: seq<Branch>)
    requires AllNumeric(bs) && ChildrenDone(bs)
    requires forall i :: 0 <= i < |bs| ==>
               (J.UniqueNames(Encode(bs[i].val).json) <==> CutKeysDistinct(bs[i].val))
    ensures J.UniqueNames(J.Arr(Items(bs, |bs|))) <==> CutKeysDistinct(Node(bs))
  {
    var js := Items(bs, |bs|);
    UniqueItems(js);
    MembersOfBranches(bs);
    assert forall i :: 0 <= i < |bs| ==> (J.UniqueNames(js[i]) <==> CutKeysDistinct(bs[i].val));
    assert J.UniqueNames(J.Arr(js)) <==> ChildrenCutDistinct(bs);
  }

  lemma UniqueItems(js: seq<J.Json>)
    ensures J.UniqueNames(J.Arr(js)) <==> forall i :: 0 <= i < |js| ==> J.UniqueNames(js[i])
  {
    assert forall i :: 0 <= i < |js| ==> js[i] in js;
  }

  lemma CutTwice(s: string)
    ensures CString(CString(s)) == CString(s)
  {
  }

  /** The next normal branch is a new key, so it goes to the end. */
  lemma PutNormal(t: Tree, i: nat)
    requires t.Node? && CutKeysDistinct(t) && i < |t.branches|
    requires AllText(t.branches) || AllNumeric(t.branches)
    ensures var b := NormalBranch(t.branches[i], i);
            SetEntry(NormalBranches(t.branches, i), b.key, b.val) == NormalBranches(t.branches, i + 1)
  {
    var bs, b, before := t.branches, NormalBranch(t.branches[i], i), NormalBranches(t.branches, i);
    forall k | 0 <= k < i
      ensures before[k].key != b.key
    {
      assert before[k] == NormalBranch(bs[k], k);
      assert NormalKey(bs[k].key, k) != NormalKey(bs[i].key, i);
    }
    assert Find(before, b.key) == |before|;
    assert before + [b] == NormalBranches(bs, i + 1);
  }

  /** The document of a table, seen by the code that pushes it back. */
  lemma EncodedSlots(t: Tree)
    requires t.Node? && t.branches != [] && Serializable(t)
    ensures Encode(t).Done? && IsTable(Encode(t).json) && Size(Encode(t).json) == |t.branches|
    ensures forall i :: 0 <= i < |t.branches| ==>
              && KeyAt(Encode(t).json, i) == NormalKey(t.branches[i].key, i)
              && Encode(t.branches[i].val).Done?
              && ChildAt(Encode(t).json, i) == Encode(t.branches[i].val).json
  {
    ChildrenOf(t);
    EncodeShape(t.branches);
    forall i | 0 <= i < |t.branches| && t.branches[i].key.Text? {
      CutTwice(t.branches[i].key.s);
    }
  }

  lemma {:induction false} EncodedGrows(t: Tree)
    requires Serializable(t) && CutKeysDistinct(t)
    ensures Encode(t).Done?
    ensures Grown(Encode(t).json) == if Nonempty(t) then Some(Normal(t)) else None
    decreases t, 1, 0
  {
    EncodesIffSerializable(t);
    if t.Leaf? {
      if t.v.Text? {
        CutTwice(t.v.s);
      }
    } else if t.branches != [] {
      EncodedSlots(t);
      var j := Encode(t).json;
      assert NormalBranches(t.branches, 0) == [];
      EncodedGrowsFrom(t, j, 0, Grown(j));
      NonemptyTable(t);
    }
  }

  predicate NonemptyFrom(bs: seq<Branch>, i: nat) {
    forall k :: i <= k < |bs| ==> Nonempty(bs[k].val)
  }

  lemma NonemptyTable(t: Tree)
    requires t.Node? && t.branches != []
    ensures Nonempty(t) <==> NonemptyFrom(t.branches, 0)
  {
    assert forall i :: 0 <= i < |t.branches| ==> t.branches[i] in t.branches;
  }

  lemma NonemptyNext(bs: seq<Branch>, i: nat)
    requires i < |bs|
    ensures NonemptyFrom(bs, i) <==> Nonempty(bs[i].val) && NonemptyFrom(bs, i + 1)
  {
  }

  lemma {:induction false} EncodedGrowsFrom(t: Tree, j: J.Json, i: nat, g: Option<Tree>)
    requires t.Node? && t.branches != [] && Serializable(t) && CutKeysDistinct(t) && i <= |t.branches|
    requires IsTable(j) && Size(j) == |t.branches|
    requires forall i :: 0 <= i < |t.branches| ==>
               && KeyAt(j, i) == NormalKey(t.branches[i].key, i)
               && Encode(t.branches[i].val) == Done(ChildAt(j, i))
    requires g == GrownFrom(j, i, NormalBranches(t.branches, i))
    ensures g == if NonemptyFrom(t.branches, i) then Some(Normal(t)) else None
    decreases t, 0, |t.branches| - i
  {
    if i < |t.branches| {
      var b := t.branches[i];
      assert b in t.branches;
      EncodedGrows(b.val);
      NonemptyNext(t.branches, i);
      if Nonempty(b.val) {
        PutNormal(t, i);
        EncodedGrowsFrom(t, j, i + 1, g);
      }
    }
  }

  /**
   A stored table comes back as its normal form exactly when no table in it is
   empty and no two string keys of one table agree up to their first NUL,
   whatever order the rebuilt tables are traversed in; it is built from fresh
   tables only, and every older table stays as it was.
   */
  lemma TableRoundTrip(m: Memory, t: Tree)
    requires m.Valid() && t.Node? && Serializable(t)
    ensures Encode(t).Done?
    ensures var r := Cast(m, AsTable, StoredText(Encode(t).json));
            && Extends(m, r.mem, {})
            && (r.Pushed? <==> Nonempty(t) && CutKeysDistinct(t))
            && (r.Pushed? ==> LooksLike(Slice(r.mem.heap, m.next, r.mem.next), r.v, Normal(t)))
  {
    NamesUnique(t);
    CastStored(m, Encode(t).json, t);
    if CutKeysDistinct(t) {
      EncodedGrows(t);
    }
  }

  /** Casting a stored document is pushing it, when its names allow it to be read at all. */
  lemma CastStored(m: Memory, j: J.Json, t: Tree)
    requires m.Valid() && t.Node? && Serializable(t) && Encode(t) == Done(j)
    ensures var r := Cast(m, AsTable, StoredText(j));
            && Extends(m, r.mem, {})
            && (r.Pushed? <==> J.UniqueNames(j) && Grown(j).Some?)
            && (r.Pushed? ==> LooksLike(Slice(r.mem.heap, m.next, r.mem.next), r.v, Grown(j).value))
  {
    J.TextRoundTrip(j);
    if t.branches == [] {
      EncodeShape(t.branches);
      NewTableExtends(m);
    } else {
      EncodedSlots(t);
      PushExtends(m, j);
      PushGrows(m, j);
    }
  }

  /** The document of a table whose cut keys are distinct replaces nothing. */
  lemma {:induction false} EncodedKeepsTables(t: Tree)
    requires Serializable(t) && CutKeysDistinct(t)
    ensures Encode(t).Done? && KeepsTables(Encode(t).json)
    decreases t
  {
    EncodesIffSerializable(t);
    if t.Node? && t.branches == [] {
      EncodeShape(t.branches);
    } else if t.Node? {
      EncodedSlots(t);
      var bs, j := t.branches, Encode(t).json;
      forall k | 0 <= k < Size(j)
        ensures KeepsTables(ChildAt(j, k))
      {
        assert bs[k] in bs;
        EncodedKeepsTables(bs[k].val);
      }
      forall a, b | 0 <= a < b < Size(j)
        ensures KeyAt(j, b) != KeyAt(j, a)
      {
        assert KeyAt(j, a) == NormalKey(bs[a].key, a) && KeyAt(j, b) == NormalKey(bs[b].key, b);
      }
    }
  }

  /** So what a stored table comes back as is a tree of tables: each but the first is held exactly once. */
  lemma RestoredIsATree(m: Memory, t: Tree)
    requires m.Valid() && t.Node? && Serializable(t) && Nonempty(t) && CutKeysDistinct(t)
    ensures Encode(t).Done?
    ensures var r := Cast(m, AsTable, StoredText(Encode(t).json));
            && r.Pushed? && r.v == Table(m.next)
            && Forest(r.mem.heap, m.next, r.mem.next) && AllHeld(r.mem.heap, m.next, r.mem.next)
  {
    TableRoundTrip(m, t);
    EncodedSlots(t);
    EncodedKeepsTables(t);
    var j := Encode(t).json;
    J.TextRoundTrip(j);
    PushIsUnshared(m, j);
    PushHoldsAllIff(m, j);
  }

  /** Strings free of NUL, and number keys counting 1, 2, ... in traversal order. */
  predicate Plain(t: Tree) {
    match t
    case Leaf(v) => v.Text? ==> '\0' !in v.s
    case Node(bs) =>
      forall i :: 0 <= i < |bs| ==>
        && (if bs[i].key.Text? then '\0' !in bs[i].key.s else bs[i].key == ItemKey(i))
        && Plain(bs[i].val)
  }

  lemma {:induction false} NormalIffPlain(t: Tree)
    ensures Normal(t) == t <==> Plain(t)
    decreases t
  {
    if t.Node? {
      var bs := t.branches;
      forall i | 0 <= i < |bs|
        ensures NormalBranch(bs[i], i) == bs[i] <==>
                (if bs[i].key.Text? then '\0' !in bs[i].key.s else bs[i].key == ItemKey(i)) &&
                Plain(bs[i].val)
      {
        NormalIffPlain(bs[i].val);
      }
      assert forall i :: 0 <= i < |bs| ==> NormalBranches(bs, |bs|)[i] == NormalBranch(bs[i], i);
      if Plain(t) {
        assert NormalBranches(bs, |bs|) == bs;
      }
      if Normal(t) == t {
        assert NormalBranches(bs, |bs|) == bs;
      }
    }
  }

  // ----- Trees alike to a normal form -----

  /** Whatever order its tables are in, what was read back can be stored, and read again. */
  lemma {:induction false} RestoredIsReadable(t: Tree, u: Tree)
    requires Serializable(t) && Alike(Normal(t), u) && WellKeyed(u)
    ensures Serializable(u) && CutKeysDistinct(u)
    ensures Nonempty(t) ==> Nonempty(u)
    decreases u
  {
    if u.Node? {
      var ts, bs := t.branches, u.branches;
      assert Normal(t) == Node(NormalBranches(ts, |ts|)) && |bs| == |ts|;
      forall i | 0 <= i < |bs|
        ensures Serializable(bs[i].val) && CutKeysDistinct(bs[i].val)
        ensures Nonempty(t) ==> Nonempty(bs[i].val)
        ensures exists k :: 0 <= k < |ts| && bs[i].key == NormalKey(ts[k].key, k)
      {
        var k := RestoredBranch(t, u, i);
        RestoredIsReadable(ts[k].val, bs[i].val);
      }
      forall i | 0 <= i < |bs| && bs[i].key.Text?
        ensures CString(bs[i].key.s) == bs[i].key.s
      {
        var k :| 0 <= k < |ts| && bs[i].key == NormalKey(ts[k].key, k);
        CutTwice(ts[k].key.s);
      }
      assert AllText(bs) || AllNumeric(bs);
    }
  }

  /** The branch of the normal form a restored branch belongs to. */
  lemma RestoredBranch(t: Tree, u: Tree, i: nat) returns (k: nat)
    requires t.Node? && Serializable(t) && Alike(Normal(t), u) && WellKeyed(u) && i < |u.branches|
    ensures k < |t.branches| && u.branches[i].key == NormalKey(t.branches[k].key, k)
    ensures Alike(Normal(t.branches[k].val), u.branches[i].val) && WellKeyed(u.branches[i].val)
    ensures Serializable(t.branches[k].val) && (Nonempty(t) ==> Nonempty(t.branches[k].val))
  {
    var key, ns := u.branches[i].key, NormalBranches(t.branches, |t.branches|);
    assert Normal(t) == Node(ns);
    assert u.branches[i] in u.branches;
    AtMember(u.branches, u.branches[i]);
    assert Has(ns, key);
    k := Find(ns, key);
    assert t.branches[k] in t.branches;
    assert ns[k] == NormalBranch(t.branches[k], k);
  }

  predicate HasItemKeys(bs: seq<Branch>) { forall i: nat :: i < |bs| ==> Has(bs, ItemKey(i)) }

  predicate InItemOrder(bs: seq<Branch>) { forall i: nat :: i < |bs| ==> bs[i].key == ItemKey(i) }

  /** Tables keyed 1, 2, ... are traversed in that order, as the language promises nowhere. */
  predicate Orderly(t: Tree) {
    t.Node? ==>
      (HasItemKeys(t.branches) ==> InItemOrder(t.branches)) && forall b :: b in t.branches ==> Orderly(b.val)
  }

  lemma RestoredItems(t: Tree, u: Tree)
    requires t.Node? && AllNumeric(t.branches) && Alike(Normal(t), u)
    ensures HasItemKeys(u.branches)
  {
    var ts := t.branches;
    var ns := NormalBranches(ts, |ts|);
    assert Normal(t) == Node(ns);
    forall i: nat | i < |u.branches|
      ensures Has(u.branches, ItemKey(i))
    {
      assert ns[i] == NormalBranch(ts[i], i);
      assert Has(ns, ns[i].key);
    }
  }

  lemma {:induction false} RestoredIsPlain(t: Tree, u: Tree)
    requires Serializable(t) && Alike(Normal(t), u) && WellKeyed(u) && Orderly(u)
    ensures Plain(u)
    decreases u
  {
    if u.Node? {
      var ts, bs := t.branches, u.branches;
      if AllNumeric(ts) {
        RestoredItems(t, u);
      }
      forall i | 0 <= i < |bs|
        ensures if bs[i].key.Text? then '\0' !in bs[i].key.s else bs[i].key == ItemKey(i)
        ensures Plain(bs[i].val)
      {
        var k := RestoredBranch(t, u, i);
        assert bs[i] in bs;
        RestoredIsPlain(ts[k].val, bs[i].val);
      }
    }
  }

  /** Where arrays are traversed in order, being plain is all a value needs to be its own normal form. */
  lemma AlikeIffPlain(t: Tree)
    requires Serializable(t) && WellKeyed(t)
    ensures Plain(t) ==> Alike(Normal(t), t)
    ensures Orderly(t) ==> (Alike(Normal(t), t) <==> Plain(t))
  {
    NormalIffPlain(t);
    AlikeReflexive(t);
    if Alike(Normal(t), t) && Orderly(t) {
      RestoredIsPlain(t, t);
    }
  }

  // ----- Tables of a heap -----

  /**
   A table of the heap comes back as it was, but for the order of entries,
   exactly when its normal form is that already and no table in it is empty.
   */
  lemma GraphRoundTrip(m: Memory, v: Value, t: Tree)
    requires m.Valid() && Unfolds(m.heap, v, t) && t.Node? && Serializable(t)
    ensures Encode(t).Done?
    ensures var r := Cast(m, AsTable, StoredText(Encode(t).json));
            (r.Pushed? && LooksLike(r.mem.heap, r.v, t)) <==> Nonempty(t) && Alike(Normal(t), t)
  {
    TableRoundTrip(m, t);
    var r := Cast(m, AsTable, StoredText(Encode(t).json));
    if Alike(Normal(t), t) {
      UnfoldingIsWellKeyed(m.heap, v, t);
      RestoredIsReadable(t, t);
    }
    if r.Pushed? {
      LooksLikeFrame(Slice(r.mem.heap, m.next, r.mem.next), r.mem.heap, r.v, Normal(t));
      LooksLikeUpToOrder(r.mem.heap, r.v, Normal(t), t);
    }
  }

  /** Strings, numbers and booleans survive the text of their own type; a string up to its first NUL. */
  lemma ScalarRoundTrip(m: Memory, v: Value)
    requires v.Text? || v.Numeric? || v.Boolean?
    ensures Encode(Leaf(v)).Done?
    ensures var kind := match v case Text(_) => AsString case Numeric(_) => AsNumber case _ => AsBoolean;
            Cast(m, kind, StoredText(Encode(Leaf(v)).json)) == Pushed(m, Normal(Leaf(v)).v)
  {
    match v
    case Text(s) => CutTwice(s);
    case Numeric(n) => Decimals.ParsePrint(n);
    case Boolean(b) => assert "true" != "false";
  }
}
