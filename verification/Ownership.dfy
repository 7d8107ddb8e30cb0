/**
 Which tables hold the ones a push allocates: none is shared, and when one is left
 behind.
 */
module Ownership {
  import opened Lua
  import opened BuiltTrees
  import opened Deserializer
  import J = Json

  // ----- No sharing in what is built -----

  /** A table of the range has an entry holding this table. */
  ghost predicate Owns(heap: Heap, lo: Ref, hi: Ref, r: Ref, e: Entry<Value>, held: Ref) {
    lo <= r < hi && r in heap && e in heap[r] && e.val == Table(held)
  }

  /**
   No table of a range is shared: if it is held at all, then by an older one, by
   only one of them, and under only one key.
   */
  ghost predicate Forest(heap: Heap, lo: Ref, hi: Ref) {
    && (forall r: Ref, e, held: Ref :: Owns(heap, lo, hi, r, e, held) ==> r < held < hi)
    && (forall r: Ref, e, r': Ref, e', held: Ref ::
          Owns(heap, lo, hi, r, e, held) && Owns(heap, lo, hi, r', e', held) ==> r == r' && e == e')
  }

  /** A value allocated next to a table under construction stays on its own until it is assigned. */
  lemma ForestsJoin(m: Memory, m': Memory, ref: Ref)
    requires m.Valid() && ref in m.heap && Extends(m, m', {})
    requires Forest(m.heap, ref, m.next) && Forest(m'.heap, m.next, m'.next)
    ensures Forest(m'.heap, ref, m'.next)
    ensures forall r: Ref, e, held: Ref :: Owns(m'.heap, ref, m'.next, r, e, held) ==> held != m.next
  {
    forall r: Ref, e, held: Ref | Owns(m'.heap, ref, m'.next, r, e, held)
      ensures if r < m.next then Owns(m.heap, ref, m.next, r, e, held)
              else Owns(m'.heap, m.next, m'.next, r, e, held)
    {
    }
  }

  /** Assigning it makes the table under construction its one owner. */
  lemma ForestAssign(m: Memory, ref: Ref, key: Value, v: Value)
    requires m.Valid() && ref in m.heap && key != Nil && Forest(m.heap, ref, m.next)
    requires v.Table? ==> ref < v.ref < m.next
    requires v.Table? ==> forall r: Ref, e, held: Ref :: Owns(m.heap, ref, m.next, r, e, held) ==> held != v.ref
    ensures Forest(Assign(m, ref, key, v).heap, ref, m.next)
  {
    AssignExtends(m, ref, key, v);
    var m' := Assign(m, ref, key, v);
    forall r: Ref, e, held: Ref | Owns(m'.heap, ref, m.next, r, e, held)
      ensures Owns(m.heap, ref, m.next, r, e, held) || (r == ref && e == Entry(key, v))
    {
      if r == ref {
        assert e in SetEntry(m.heap[ref], key, v);
      }
    }
  }

  /** What was pushed is no table, or the first of the tables allocated, and these share nothing. */
  ghost predicate Unshared(lo: Ref, r: Pushed) {
    r.Pushed? ==> Forest(r.mem.heap, lo, r.mem.next) && (r.v.Table? ==> r.v.ref == lo < r.mem.next)
  }

  ghost predicate FillsUnshared(m: Memory, ref: Ref, r: Pushed) {
    m.Valid() && ref in m.heap && Forest(m.heap, ref, m.next) ==> Unshared(ref, r)
  }

  lemma FillsEntryUnshared(m: Memory, child: Pushed, ref: Ref, key: Value, r: Pushed)
    requires child.Pushed? && Extends(m, child.mem, {}) && key != Nil && Unshared(m.next, child)
    requires FillsUnshared(Assign(child.mem, ref, key, child.v), ref, r)
    ensures FillsUnshared(m, ref, r)
  {
    if m.Valid() && ref in m.heap && Forest(m.heap, ref, m.next) {
      ForestsJoin(m, child.mem, ref);
      ForestAssign(child.mem, ref, key, child.v);
      AssignExtends(child.mem, ref, key, child.v);
    }
  }

  /** A push shares no table, and nothing it allocates holds the first table. */
  lemma {:induction false} PushIsUnshared(m: Memory, j: J.Json)
    requires m.Valid()
    ensures Unshared(m.next, PushJson(m, j))
    decreases j
  {
    if IsTable(j) {
      NewTableExtends(m);
      PushFromIsUnshared(WithNewTable(m), m.next, j, 0, PushJson(m, j));
    }
  }

  lemma {:induction false} PushFromIsUnshared(m: Memory, ref: Ref, j: J.Json, i: nat, r: Pushed)
    requires IsTable(j) && i <= Size(j) && r == PushFrom(m, ref, j, i)
    ensures FillsUnshared(m, ref, r)
    decreases j, Size(j) - i
  {
    if m.Valid() && i < Size(j) {
      var child, key := PushJson(m, ChildAt(j, i)), KeyAt(j, i);
      PushExtends(m, ChildAt(j, i));
      PushIsUnshared(m, ChildAt(j, i));
      if child.Pushed? {
        PushFromIsUnshared(Assign(child.mem, ref, key, child.v), ref, j, i + 1, r);
        FillsEntryUnshared(m, child, ref, key, r);
      }
    }
  }

  // ----- No table left behind -----

  ghost predicate Held(heap: Heap, lo: Ref, hi: Ref, held: Ref) {
    exists r: Ref, e :: Owns(heap, lo, hi, r, e, held)
  }

  /** Every table of the range but the first is held by one of the range. */
  ghost predicate AllHeld(heap: Heap, lo: Ref, hi: Ref) {
    forall held: Ref :: lo < held < hi ==> Held(heap, lo, hi, held)
  }

  predicate HoldsTable(es: Fields, key: Value) { Has(es, key) && At(es, key).Table? }

  /** No entry from position `i` on replaces a table that is there. */
  predicate Spares(es: Fields, j: J.Json, i: nat)
    requires IsTable(j)
  {
    forall k :: i <= k < Size(j) ==> !HoldsTable(es, KeyAt(j, k))
  }

  /** No table in a document is replaced by a later entry under the same key, which only cut names can do. */
  predicate KeepsTables(j: J.Json)
    decreases j, 1
  {
    IsTable(j) ==> KeepsFrom(j, 0)
  }

  predicate KeepsFrom(j: J.Json, i: nat)
    requires IsTable(j)
    decreases j, 0
  {
    && (forall k :: i <= k < Size(j) ==> KeepsTables(ChildAt(j, k)))
    && (forall a, b :: i <= a < b < Size(j) && IsTable(ChildAt(j, a)) ==> KeyAt(j, b) != KeyAt(j, a))
  }

  lemma MemberOfSetEntry(es: Fields, key: Value, v: Value, e: Entry<Value>)
    requires DistinctKeys(es)
    ensures e in SetEntry(es, key, v) <==> e == Entry(key, v) || (e in es && e.key != key)
  {
    var i := Find(es, key);
    var es' := SetEntry(es, key, v);
    assert es'[i] == Entry(key, v);
    if e in es && e.key != key {
      var k :| 0 <= k < |es| && es[k] == e;
      assert es'[k] == e;
    }
    if e in es' && e != Entry(key, v) {
      var k :| 0 <= k < |es'| && es'[k] == e;
      assert es[k] == e;
    }
  }

  /** Who holds what after a value was allocated and assigned: as before, but for the key assigned. */
  lemma OwnsAfter(m: Memory, m': Memory, ref: Ref, key: Value, v: Value, r: Ref, e: Entry<Value>, held: Ref)
    requires m.Valid() && ref in m.heap && key != Nil && Extends(m, m', {})
    ensures Owns(Assign(m', ref, key, v).heap, ref, m'.next, r, e, held) <==>
            || (r == ref && e == Entry(key, v) && v == Table(held))
            || (Owns(m.heap, ref, m.next, r, e, held) && !(r == ref && e.key == key))
            || Owns(m'.heap, m.next, m'.next, r, e, held)
  {
    AssignExtends(m', ref, key, v);
    MemberOfSetEntry(m.heap[ref], key, v, e);
  }

  /** What was pushed is a scalar that took no memory, or the first of the tables it took. */
  ghost predicate Rooted(lo: Ref, r: Pushed) {
    r.Pushed? ==> if r.v.Table? then r.v.ref == lo < r.mem.next else r.mem.next == lo
  }

  /** An older table stays held unless the assignment replaces it. */
  lemma OlderHeld(m: Memory, child: Pushed, ref: Ref, key: Value, held: Ref)
    requires m.Valid() && ref in m.heap && key != Nil && child.Pushed? && Extends(m, child.mem, {})
    requires Forest(child.mem.heap, m.next, child.mem.next) && Rooted(m.next, child)
    requires held < m.next && !HoldsTable(m.heap[ref], key)
    ensures Held(Assign(child.mem, ref, key, child.v).heap, ref, child.mem.next, held) <==>
            Held(m.heap, ref, m.next, held)
  {
    var heap := Assign(child.mem, ref, key, child.v).heap;
    forall r: Ref, e
      ensures Owns(heap, ref, child.mem.next, r, e, held) <==> Owns(m.heap, ref, m.next, r, e, held)
    {
      OwnsAfter(m, child.mem, ref, key, child.v, r, e, held);
      if Owns(m.heap, ref, m.next, r, e, held) && r == ref && e.key == key {
        AtMember(m.heap[ref], e);
      }
    }
  }

  /** A table replaced by an assignment is held by none any more. */
  lemma ReplacedNotHeld(m: Memory, child: Pushed, ref: Ref, key: Value)
    requires m.Valid() && ref in m.heap && key != Nil && child.Pushed? && Extends(m, child.mem, {})
    requires Forest(m.heap, ref, m.next) && Forest(child.mem.heap, m.next, child.mem.next) && Rooted(m.next, child)
    requires HoldsTable(m.heap[ref], key)
    ensures var held := At(m.heap[ref], key).ref;
            && ref < held < m.next
            && !Held(Assign(child.mem, ref, key, child.v).heap, ref, child.mem.next, held)
  {
    var es := m.heap[ref];
    var replaced := es[Find(es, key)];
    assert Owns(m.heap, ref, m.next, ref, replaced, replaced.val.ref);
    forall r: Ref, e
      ensures !Owns(Assign(child.mem, ref, key, child.v).heap, ref, child.mem.next, r, e, replaced.val.ref)
    {
      OwnsAfter(m, child.mem, ref, key, child.v, r, e, replaced.val.ref);
    }
  }

  /** Of the tables the value took, the first is held by the assignment, and the others as before. */
  lemma NewerHeld(m: Memory, child: Pushed, ref: Ref, key: Value, held: Ref)
    requires m.Valid() && ref in m.heap && key != Nil && child.Pushed? && Extends(m, child.mem, {})
    requires Forest(m.heap, ref, m.next) && Rooted(m.next, child) && m.next <= held < child.mem.next
    ensures Held(Assign(child.mem, ref, key, child.v).heap, ref, child.mem.next, held) <==>
            held == m.next || Held(child.mem.heap, m.next, child.mem.next, held)
  {
    var heap := Assign(child.mem, ref, key, child.v).heap;
    forall r: Ref, e
      ensures Owns(heap, ref, child.mem.next, r, e, held) <==>
              || (r == ref && e == Entry(key, child.v) && held == m.next)
              || Owns(child.mem.heap, m.next, child.mem.next, r, e, held)
    {
      OwnsAfter(m, child.mem, ref, key, child.v, r, e, held);
    }
    if held == m.next {
      assert Owns(heap, ref, child.mem.next, ref, Entry(key, child.v), held);
    }
  }

  /** One entry: all is held if it was before, in the value and in the table, and the assignment replaces no table. */
  lemma AllHeldAssign(m: Memory, child: Pushed, ref: Ref, key: Value)
    requires m.Valid() && ref in m.heap && key != Nil && child.Pushed? && Extends(m, child.mem, {})
    requires Forest(m.heap, ref, m.next) && Forest(child.mem.heap, m.next, child.mem.next) && Rooted(m.next, child)
    ensures AllHeld(Assign(child.mem, ref, key, child.v).heap, ref, child.mem.next) <==>
            && AllHeld(m.heap, ref, m.next) && AllHeld(child.mem.heap, m.next, child.mem.next)
            && !HoldsTable(m.heap[ref], key)
  {
    var heap, hi := Assign(child.mem, ref, key, child.v).heap, child.mem.next;
    if HoldsTable(m.heap[ref], key) {
      ReplacedNotHeld(m, child, ref, key);
    } else {
      forall held: Ref | ref < held < hi
        ensures Held(heap, ref, hi, held) <==>
                if held < m.next then Held(m.heap, ref, m.next, held)
                else held == m.next || Held(child.mem.heap, m.next, hi, held)
      {
        if held < m.next {
          OlderHeld(m, child, ref, key, held);
        } else {
          NewerHeld(m, child, ref, key, held);
        }
      }
    }
  }

  /** The same step on the document: sparing what is there and keeping what comes. */
  lemma KeepsNext(es: Fields, es': Fields, j: J.Json, i: nat, v: Value)
    requires IsTable(j) && i < Size(j) && (v.Table? <==> IsTable(ChildAt(j, i))) && DistinctKeys(es)
    requires Reorders(SetEntry(es, KeyAt(j, i), v), es')
    ensures Spares(es, j, i) && KeepsFrom(j, i) <==>
            && !HoldsTable(es, KeyAt(j, i)) && KeepsTables(ChildAt(j, i))
            && Spares(es', j, i + 1) && KeepsFrom(j, i + 1)
  {
    var key := KeyAt(j, i);
    SetEntryKeepsKeysDistinct(es, key, v);
    forall k | i < k < Size(j)
      ensures HoldsTable(es', KeyAt(j, k)) <==>
              if KeyAt(j, k) == key then IsTable(ChildAt(j, i)) else HoldsTable(es, KeyAt(j, k))
    {
      AtReordered(SetEntry(es, key, v), es', KeyAt(j, k));
      AtSetEntry(es, key, v, KeyAt(j, k));
    }
  }

  ghost predicate HeldIff(lo: Ref, r: Pushed, keeps: bool) {
    r.Pushed? ==> Rooted(lo, r) && (AllHeld(r.mem.heap, lo, r.mem.next) <==> keeps)
  }

  ghost predicate FillsHeld(m: Memory, ref: Ref, j: J.Json, i: nat, r: Pushed)
    requires IsTable(j)
  {
    m.Valid() && ref in m.heap && Forest(m.heap, ref, m.next) && r.Pushed? ==>
      && r.v == Table(ref) && ref < r.mem.next
      && (AllHeld(r.mem.heap, ref, r.mem.next) <==>
            AllHeld(m.heap, ref, m.next) && Spares(m.heap[ref], j, i) && KeepsFrom(j, i))
  }

  lemma FillsEntryHeld(m: Memory, child: Pushed, ref: Ref, j: J.Json, i: nat, r: Pushed)
    requires IsTable(j) && i < Size(j) && child.Pushed? && Extends(m, child.mem, {}) && Unshared(m.next, child)
    requires HeldIff(m.next, child, KeepsTables(ChildAt(j, i))) && (child.v.Table? <==> IsTable(ChildAt(j, i)))
    requires FillsHeld(Assign(child.mem, ref, KeyAt(j, i), child.v), ref, j, i + 1, r)
    ensures FillsHeld(m, ref, j, i, r)
  {
    if m.Valid() && ref in m.heap && Forest(m.heap, ref, m.next) {
      var key := KeyAt(j, i);
      ForestsJoin(m, child.mem, ref);
      ForestAssign(child.mem, ref, key, child.v);
      AssignExtends(child.mem, ref, key, child.v);
      AllHeldAssign(m, child, ref, key);
      KeepsNext(m.heap[ref], Assign(child.mem, ref, key, child.v).heap[ref], j, i, child.v);
    }
  }

  /** A push leaves no table of its own behind exactly when the document has none replaced under a cut name. */
  lemma {:induction false} PushHoldsAllIff(m: Memory, j: J.Json)
    requires m.Valid()
    ensures HeldIff(m.next, PushJson(m, j), KeepsTables(j))
    ensures PushJson(m, j).Pushed? ==> (PushJson(m, j).v.Table? <==> IsTable(j))
    decreases j
  {
    if IsTable(j) {
      NewTableExtends(m);
      PushFromHoldsAllIff(WithNewTable(m), m.next, j, 0, PushJson(m, j));
    }
  }

  lemma {:induction false} PushFromHoldsAllIff(m: Memory, ref: Ref, j: J.Json, i: nat, r: Pushed)
    requires IsTable(j) && i <= Size(j) && r == PushFrom(m, ref, j, i)
    ensures FillsHeld(m, ref, j, i, r)
    decreases j, Size(j) - i
  {
    if m.Valid() && i < Size(j) {
      var child := PushJson(m, ChildAt(j, i));
      PushExtends(m, ChildAt(j, i));
      PushIsUnshared(m, ChildAt(j, i));
      PushHoldsAllIff(m, ChildAt(j, i));
      if child.Pushed? {
        PushFromHoldsAllIff(Assign(child.mem, ref, KeyAt(j, i), child.v), ref, j, i + 1, r);
        FillsEntryHeld(m, child, ref, j, i, r);
      }
    }
  }

  /** A document with distinct names and no null, read from its text. */
  lemma CastHoldsAllIff(m: Memory, j: J.Json)
    requires m.Valid() && IsTable(j) && J.UniqueNames(j) && NoNull(j)
    ensures var r := Cast(m, AsTable, J.Print(j));
            r.Pushed? && (AllHeld(r.mem.heap, m.next, r.mem.next) <==> KeepsTables(j))
  {
    J.TextRoundTrip(j);
    PushesIffNoNull(m, j);
    PushHoldsAllIff(m, j);
  }

  /** Two arrays under two names. */
  function Pair(x: string, y: string): J.Json { J.Obj([J.Member(x, J.Arr([])), J.Member(y, J.Arr([]))]) }

  lemma PairReplaces(x: string, y: string)
    requires x != y && CString(x) == CString(y)
    ensures J.UniqueNames(Pair(x, y)) && NoNull(Pair(x, y)) && !KeepsTables(Pair(x, y))
  {
    var j := Pair(x, y);
    assert KeyAt(j, 0) == KeyAt(j, 1) && IsTable(ChildAt(j, 0));
  }

  /**
   Two arrays under names that differ only after a NUL, as `a` and `a\0b`: their
   text can be stored as a string, and read as a table it leaves the first array
   behind, held by no table.
   */
  lemma TableCanBeLeftBehind(m: Memory, x: string, y: string)
    requires m.Valid() && x != y && CString(x) == CString(y)
    ensures CString(J.Print(Pair(x, y))) == J.Print(Pair(x, y))
    ensures var r := Cast(m, AsTable, J.Print(Pair(x, y)));
            r.Pushed? && !AllHeld(r.mem.heap, m.next, r.mem.next)
  {
    J.PrintHasNoNul(Pair(x, y));
    PairReplaces(x, y);
    CastHoldsAllIff(m, Pair(x, y));
  }
}
