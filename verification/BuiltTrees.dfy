/**
 What a push builds: the tree a document stands for, out of fresh tables.
 */
module BuiltTrees {
  import opened Common
  import opened Lua
  import opened Unfolding
  import opened Deserializer
  import J = Json

  // ----- What a push builds -----

  /** The tree a document stands for; null has no place in a table. */
  function Grown(j: J.Json): Option<Tree>
    decreases j
  {
    match j
    case Null => None
    case Bool(b) => Some(Leaf(Boolean(b)))
    case Num(n) => Some(Leaf(Numeric(n)))
    case Str(s) => Some(Leaf(Text(CString(s))))
    case _ => GrownFrom(j, 0, [])
  }

  function GrownFrom(j: J.Json, i: nat, bs: seq<Branch>): Option<Tree>
    requires IsTable(j) && i <= Size(j)
    decreases j, Size(j) - i
  {
    if i == Size(j) then Some(Node(bs))
    else
      match Grown(ChildAt(j, i))
      case None => None
      case Some(t) => GrownFrom(j, i + 1, SetEntry(bs, KeyAt(j, i), t))
  }

  /** The tables allocated between two moments. */
  ghost function Slice(heap: Heap, lo: Ref, hi: Ref): Heap {
    map r | r in heap && lo <= r < hi :: heap[r]
  }

  /** The entries are those the branches describe, in any order. */
  ghost predicate Match(heap: Heap, es: Fields, bs: seq<Branch>) {
    SameKeys(es, bs) && forall key :: Has(bs, key) ==> LooksLike(heap, At(es, key), At(bs, key))
  }

  /** The table under construction holds what the branches describe, in tables allocated after it. */
  ghost predicate Holds(m: Memory, ref: Ref, bs: seq<Branch>) {
    m.Valid() && ref in m.heap && Match(Slice(m.heap, ref + 1, m.next), m.heap[ref], bs)
  }

  lemma MatchGrows(heap: Heap, heap': Heap, es: Fields, bs: seq<Branch>)
    requires Match(heap, es, bs) && SubHeap(heap, heap')
    ensures Match(heap', es, bs)
  {
    forall key | Has(bs, key)
      ensures LooksLike(heap', At(es, key), At(bs, key))
    {
      LooksLikeFrame(heap, heap', At(es, key), At(bs, key));
    }
  }

  /** An assignment is the same step on entries and on branches, whatever order it leaves. */
  lemma SetMatches(heap: Heap, es: Fields, es': Fields, bs: seq<Branch>, key: Value, v: Value, t: Tree)
    requires Match(heap, es, bs) && LooksLike(heap, v, t) && DistinctKeys(es) && key != Nil
    requires Reorders(SetEntry(es, key, v), es')
    ensures Match(heap, es', SetEntry(bs, key, t))
  {
    var bs' := SetEntry(bs, key, t);
    forall k
      ensures Has(es', k) <==> Has(bs', k)
      ensures Has(bs', k) ==> LooksLike(heap, At(es', k), At(bs', k))
    {
      SetEntryKeepsKeysDistinct(es, key, v);
      AtReordered(SetEntry(es, key, v), es', k);
      AtSetEntry(es, key, v, k);
      AtSetEntry(bs, key, t, k);
    }
    assert Has(es, key) <==> Has(bs, key);
  }

  lemma SliceGrows(heap: Heap, heap': Heap, lo: Ref, hi: Ref, lo': Ref, hi': Ref)
    requires lo' <= lo && hi <= hi'
    requires forall r :: r in heap && lo <= r < hi ==> r in heap' && heap'[r] == heap[r]
    ensures SubHeap(Slice(heap, lo, hi), Slice(heap', lo', hi'))
  {
  }

  /** Later allocations and an assignment to the table itself leave the inner tables alone. */
  lemma SlicesGrow(m: Memory, m': Memory, m'': Memory, ref: Ref)
    requires m.Valid() && ref in m.heap && Extends(m, m', {}) && Extends(m', m'', {ref}) && m''.next == m'.next
    ensures SubHeap(Slice(m.heap, ref + 1, m.next), Slice(m''.heap, ref + 1, m''.next))
    ensures SubHeap(Slice(m'.heap, m.next, m'.next), Slice(m''.heap, ref + 1, m''.next))
  {
    SliceGrows(m.heap, m''.heap, ref + 1, m.next, ref + 1, m''.next);
    SliceGrows(m'.heap, m''.heap, m.next, m'.next, ref + 1, m''.next);
  }

  lemma HoldsAssign(m: Memory, m': Memory, ref: Ref, bs: seq<Branch>, key: Value, v: Value, t: Tree)
    requires Holds(m, ref, bs) && Extends(m, m', {}) && key != Nil
    requires LooksLike(Slice(m'.heap, m.next, m'.next), v, t)
    ensures Holds(Assign(m', ref, key, v), ref, SetEntry(bs, key, t))
  {
    var m'' := Assign(m', ref, key, v);
    var inner := Slice(m''.heap, ref + 1, m''.next);
    AssignExtends(m', ref, key, v);
    SlicesGrow(m, m', m'', ref);
    LooksLikeFrame(Slice(m'.heap, m.next, m'.next), inner, v, t);
    MatchGrows(Slice(m.heap, ref + 1, m.next), inner, m.heap[ref], bs);
    SetMatches(inner, m.heap[ref], m''.heap[ref], bs, key, v, t);
  }

  /** A push succeeds exactly when there is a tree to build, and then builds it from tables it allocated. */
  ghost predicate Builds(lo: Ref, r: Pushed, t: Option<Tree>) {
    && (r.Pushed? <==> t.Some?)
    && (r.Pushed? ==> LooksLike(Slice(r.mem.heap, lo, r.mem.next), r.v, t.value))
  }

  /** The same for filling a table that holds some branches already. */
  ghost predicate Fills(m: Memory, ref: Ref, bs: seq<Branch>, r: Pushed, t: Option<Tree>) {
    Holds(m, ref, bs) ==> Builds(ref, r, t)
  }

  lemma FillsAll(m: Memory, ref: Ref, bs: seq<Branch>)
    ensures Fills(m, ref, bs, Pushed(m, Table(ref)), Some(Node(bs)))
  {
    if Holds(m, ref, bs) {
      MatchGrows(Slice(m.heap, ref + 1, m.next), Slice(m.heap, ref, m.next), m.heap[ref], bs);
    }
  }

  lemma FillsEntry(m: Memory, child: Pushed, ref: Ref, bs: seq<Branch>, key: Value, s: Tree, r: Pushed, t: Option<Tree>)
    requires child.Pushed? && Extends(m, child.mem, {}) && key != Nil && Builds(m.next, child, Some(s))
    requires Fills(Assign(child.mem, ref, key, child.v), ref, SetEntry(bs, key, s), r, t)
    ensures Fills(m, ref, bs, r, t)
  {
    if Holds(m, ref, bs) {
      HoldsAssign(m, child.mem, ref, bs, key, child.v, s);
    }
  }

  lemma {:induction false} PushGrows(m: Memory, j: J.Json)
    requires m.Valid()
    ensures Builds(m.next, PushJson(m, j), Grown(j))
    decreases j
  {
    if IsTable(j) {
      NewTableExtends(m);
      PushFromGrows(WithNewTable(m), m.next, j, 0, [], PushJson(m, j), Grown(j));
    }
  }

  lemma {:induction false} PushFromGrows(
      m: Memory, ref: Ref, j: J.Json, i: nat, bs: seq<Branch>, r: Pushed, t: Option<Tree>)
    requires IsTable(j) && i <= Size(j) && r == PushFrom(m, ref, j, i) && t == GrownFrom(j, i, bs)
    ensures Fills(m, ref, bs, r, t)
    decreases j, Size(j) - i
  {
    if m.Valid() {
      if i == Size(j) {
        FillsAll(m, ref, bs);
      } else {
        var child, key, grown := PushJson(m, ChildAt(j, i)), KeyAt(j, i), Grown(ChildAt(j, i));
        PushExtends(m, ChildAt(j, i));
        PushGrows(m, ChildAt(j, i));
        if child.Pushed? {
          var m', bs' := Assign(child.mem, ref, key, child.v), SetEntry(bs, key, grown.value);
          PushFromGrows(m', ref, j, i + 1, bs', r, t);
          FillsEntry(m, child, ref, bs, key, grown.value, r, t);
        }
      }
    }
  }

  predicate NoNull(j: J.Json) {
    match j
    case Null => false
    case Arr(items) => forall item :: item in items ==> NoNull(item)
    case Obj(members) => forall m :: m in members ==> NoNull(m.value)
    case _ => true
  }

  /** Null is the only thing a push refuses, at any depth. */
  lemma {:induction false} PushesIffNoNull(m: Memory, j: J.Json)
    requires m.Valid()
    ensures PushJson(m, j).Pushed? <==> NoNull(j)
  {
    PushGrows(m, j);
    GrownIffNoNull(j);
  }

  lemma {:induction false} GrownIffNoNull(j: J.Json)
    ensures Grown(j).Some? <==> NoNull(j)
    decreases j
  {
    if IsTable(j) {
      GrownFromIffNoNull(j, 0, []);
      ChildrenNoNull(j);
    }
  }

  predicate NoNullFrom(j: J.Json, i: nat)
    requires IsTable(j)
  {
    forall k :: i <= k < Size(j) ==> NoNull(ChildAt(j, k))
  }

  lemma NoNullSplit(j: J.Json, i: nat)
    requires IsTable(j) && i < Size(j)
    ensures NoNullFrom(j, i) <==> NoNull(ChildAt(j, i)) && NoNullFrom(j, i + 1)
  {
  }

  lemma ChildrenNoNull(j: J.Json)
    requires IsTable(j)
    ensures NoNull(j) <==> NoNullFrom(j, 0)
  {
    if j.Obj? {
      assert forall k :: 0 <= k < Size(j) ==> j.members[k] in j.members && ChildAt(j, k) == j.members[k].value;
    } else {
      assert forall k :: 0 <= k < Size(j) ==> j.items[k] in j.items && ChildAt(j, k) == j.items[k];
    }
  }

  lemma {:induction false} GrownFromIffNoNull(j: J.Json, i: nat, bs: seq<Branch>)
    requires IsTable(j) && i <= Size(j)
    ensures GrownFrom(j, i, bs).Some? <==> NoNullFrom(j, i)
    decreases j, Size(j) - i
  {
    if i < Size(j) {
      var grown := Grown(ChildAt(j, i));
      GrownIffNoNull(ChildAt(j, i));
      NoNullSplit(j, i);
      if grown.Some? {
        var bs' := SetEntry(bs, KeyAt(j, i), grown.value);
        GrownFromIffNoNull(j, i + 1, bs');
        assert GrownFrom(j, i, bs) == GrownFrom(j, i + 1, bs');
      }
    }
  }
}
