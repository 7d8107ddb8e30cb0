/**
 The part of a Lua state the service touches: one C function's stack frame and
 the heap of tables.  A table is its entries in traversal order, which an
 assignment may change at will: the language leaves it open.
 */
module Lua {
  import opened Common
  import opened Decimals

  type Ref = nat

  /** Functions, userdata and threads are told apart only by an identity. */
  datatype Value =
    | Nil
    | Boolean(b: bool)
    | Numeric(n: Number)
    | Text(s: string)
    | Table(ref: Ref)
    | Opaque(id: nat)

  /** A key with what it leads to: a value in the heap, a subtree in an unfolding. */
  datatype Entry<+T> = Entry(key: Value, val: T)

  type Fields = seq<Entry<Value>>

  type Heap = map<Ref, Fields>

  /** The part of a string a C function sees through a char pointer. */
  function CString(s: string): (r: string)
    ensures r <= s && '\0' !in r
    ensures r == s || s[|r|] == '\0'
  {
    if s == "" || s[0] == '\0' then "" else
      assert s == [s[0]] + s[1..];
      [s[0]] + CString(s[1..])
  }

  /** A string up to its first NUL. */
  ghost predicate IsCut(p: string, s: string) {
    p <= s && '\0' !in p && (p == s || s[|p|] == '\0')
  }

  lemma CutIsUnique(p: string, s: string)
    requires IsCut(p, s)
    ensures CString(s) == p
  {
    var c := CString(s);
    assert forall i :: 0 <= i < |p| ==> s[i] == p[i] && s[i] != '\0';
    assert forall i :: 0 <= i < |c| ==> s[i] == c[i] && s[i] != '\0';
  }

  // ----- Entries -----

  /** The position of a key among entries, or their number when it is absent. */
  function Find<T>(entries: seq<Entry<T>>, key: Value): (i: nat)
    ensures i <= |entries|
    ensures i < |entries| ==> entries[i].key == key
    ensures forall k :: 0 <= k < i ==> entries[k].key != key
  {
    if entries == [] || entries[0].key == key then 0 else 1 + Find(entries[1..], key)
  }

  predicate Has<T>(entries: seq<Entry<T>>, key: Value) { Find(entries, key) < |entries| }

  function At<T>(entries: seq<Entry<T>>, key: Value): T
    requires Has(entries, key)
  {
    entries[Find(entries, key)].val
  }

  /** Where traversal goes on after a key; nil starts it. */
  function After(entries: Fields, key: Value): nat {
    if key == Nil then 0 else Find(entries, key) + 1
  }

  predicate DistinctKeys<T>(entries: seq<Entry<T>>) {
    && (forall i :: 0 <= i < |entries| ==> entries[i].key != Nil)
    && (forall i, k :: 0 <= i < k < |entries| ==> entries[i].key != entries[k].key)
  }

  /** Assignment of a non-nil value: in place for a present key, at the end for a new one. */
  function SetEntry<T>(entries: seq<Entry<T>>, key: Value, val: T): seq<Entry<T>> {
    var i := Find(entries, key);
    if i < |entries| then entries[i := Entry(key, val)] else entries + [Entry(key, val)]
  }

  lemma SetEntryKeepsKeysDistinct(entries: Fields, key: Value, val: Value)
    requires key != Nil && DistinctKeys(entries)
    ensures DistinctKeys(SetEntry(entries, key, val))
  {
  }

  lemma FindIs<T>(entries: seq<Entry<T>>, key: Value, i: nat)
    requires i < |entries| && entries[i].key == key
    requires forall k :: 0 <= k < i ==> entries[k].key != key
    ensures Find(entries, key) == i
  {
  }

  /** Only the keys matter for where a key is. */
  lemma SameFind<T, U>(entries: seq<Entry<T>>, others: seq<Entry<U>>, key: Value)
    requires |entries| == |others| && forall k :: 0 <= k < |entries| ==> others[k].key == entries[k].key
    ensures Find(others, key) == Find(entries, key)
  {
    if Has(entries, key) {
      FindIs(others, key, Find(entries, key));
    } else if Has(others, key) {
      FindIs(entries, key, Find(others, key));
    }
  }

  lemma FindAppended<T>(entries: seq<Entry<T>>, e: Entry<T>, key: Value)
    ensures Has(entries, key) ==> Find(entries + [e], key) == Find(entries, key)
    ensures !Has(entries, key) ==> Find(entries + [e], key) == |entries| + if e.key == key then 0 else 1
  {
    if Has(entries, key) {
      FindIs(entries + [e], key, Find(entries, key));
    } else if e.key == key {
      FindIs(entries + [e], key, |entries|);
    }
  }

  /** What an assignment changes: the value under its key. */
  lemma AtSetEntry<T>(entries: seq<Entry<T>>, key: Value, val: T, other: Value)
    ensures Has(SetEntry(entries, key, val), other) <==> other == key || Has(entries, other)
    ensures Has(SetEntry(entries, key, val), other) ==>
              At(SetEntry(entries, key, val), other) == if other == key then val else At(entries, other)
  {
    if Has(entries, key) {
      SameFind(entries, SetEntry(entries, key, val), other);
    } else {
      FindAppended(entries, Entry(key, val), other);
    }
  }

  lemma AtMember<T>(entries: seq<Entry<T>>, e: Entry<T>)
    requires DistinctKeys(entries) && e in entries
    ensures Has(entries, e.key) && At(entries, e.key) == e.val
  {
    var i :| 0 <= i < |entries| && entries[i] == e;
    FindIs(entries, e.key, i);
  }

  /** The same entries in another traversal order. */
  ghost predicate Reorders(es: Fields, es': Fields) {
    |es'| == |es| && DistinctKeys(es') && forall e :: e in es' <==> e in es
  }

  /** No order changes what a key leads to. */
  lemma AtReordered(es: Fields, es': Fields, key: Value)
    requires DistinctKeys(es) && Reorders(es, es')
    ensures Has(es', key) <==> Has(es, key)
    ensures Has(es, key) ==> At(es', key) == At(es, key)
  {
    if Has(es, key) {
      AtMember(es', es[Find(es, key)]);
    }
    if Has(es', key) {
      AtMember(es, es'[Find(es', key)]);
    }
  }

  /** The traversal order the n-th assignment leaves behind, chosen by the environment. */
  type Order = (nat, Fields) -> Fields

  ghost predicate IsOrder(order: Order) {
    forall n, es :: DistinctKeys(es) ==> Reorders(es, order(n, es))
  }

  // ----- Memory and stack -----

  predicate TablesOk(heap: Heap) { forall r :: r in heap ==> DistinctKeys(heap[r]) }

  /** Tables and the next unused reference, and how many assignments there were: what outlives a call. */
  datatype Memory = Memory(heap: Heap, next: Ref, order: Order, assignments: nat) {
    ghost predicate Valid() {
      && TablesOk(heap)
      && (forall r :: r in heap ==> r < next)
      && IsOrder(order)
    }
  }

  /** A stack that had reached one height and then grew to another has reached the greater one. */
  ghost predicate Peaks(was: nat, now: nat, top: nat) {
    was <= now && top <= now && (now == was || now == top)
  }

  /** The same with the second height only bounded. */
  ghost predicate PeaksWithin(was: nat, now: nat, top: nat) {
    was <= now && (now == was || now <= top)
  }

  /** Two climbs after another reach the higher one. */
  lemma PeakTwice(was: nat, between: nat, now: nat, h: nat, climbed: nat, child: nat)
    requires Peaks(was, between, h + climbed)
    ensures Peaks(between, now, h + 2 + child) ==> Peaks(was, now, h + Max(climbed, 2 + child))
    ensures PeaksWithin(between, now, h + 2 + child) ==> PeaksWithin(was, now, h + Max(climbed, 2 + child))
  {
  }

  class LuaState {
    var stack: seq<Value>
    var heap: Heap
    var next: Ref
    const order: Order
    var assignments: nat
    /** The greatest height reached, counted in slots of this frame. */
    ghost var peak: nat

    ghost predicate Valid()
      reads `heap, `next, `assignments
    {
      Memory(heap, next, order, assignments).Valid()
    }

    ghost predicate Tracked()
      reads `stack, `peak
    {
      |stack| <= peak
    }

    ghost function Mem(): Memory
      reads `heap, `next, `assignments
    {
      Memory(heap, next, order, assignments)
    }

    constructor (args: seq<Value>, m: Memory)
      requires m.Valid()
      ensures Valid() && Tracked() && stack == args && Mem() == m && peak == |args|
    {
      stack, heap, next, peak := args, m.heap, m.next, |args|;
      order, assignments := m.order, m.assignments;
    }

    /** The slot an index denotes: from the bottom when positive, from the top when negative. */
    function Slot(index: int): int
      reads `stack
    {
      if index > 0 then index - 1 else |stack| + index
    }

    predicate InFrame(index: int)
      reads `stack
    {
      0 <= Slot(index) < |stack|
    }

    method Push(v: Value)
      modifies `stack, `peak
      ensures stack == old(stack) + [v]
      ensures peak == Max(old(peak), |stack|)
    {
      stack := stack + [v];
      peak := Max(peak, |stack|);
    }

    method Pop(n: nat)
      requires n <= |stack|
      modifies `stack
      ensures stack == old(stack[..|stack| - n])
    {
      stack := stack[..|stack| - n];
    }

    method Clear()
      modifies `stack
      ensures stack == []
    {
      stack := [];
    }

    /**
     lua_next: replaces the key on top by the entry that follows it in the table
     at the index, or only removes the key when there is none.
     */
    method Next(index: int, ghost es: Fields, ghost below: seq<Value>) returns (more: bool)
      requires |stack| == |below| + 1 && stack[..|below|] == below
      requires InFrame(index) && stack[Slot(index)].Table? && stack[Slot(index)].ref in heap
      requires heap[stack[Slot(index)].ref] == es && After(es, stack[|below|]) <= |es|
      modifies `stack, `peak
      ensures var i := After(es, old(stack[|below|]));
              && more == (i < |es|)
              && stack == below + (if more then [es[i].key, es[i].val] else [])
      ensures peak == if more then Max(old(peak), |stack|) else old(peak)
    {
      var entries := heap[stack[Slot(index)].ref];
      var key := stack[|stack| - 1];
      stack := stack[..|stack| - 1];
      var i := After(entries, key);
      more := i < |entries|;
      if more {
        stack := stack + [entries[i].key, entries[i].val];
        peak := Max(peak, |stack|);
      }
    }

    method NewTable() returns (ghost ref: Ref)
      requires Valid()
      modifies this
      ensures Valid() && ref == old(next) && stack == old(stack) + [Table(ref)]
      ensures Mem() == Memory(old(heap)[ref := []], ref + 1, order, old(assignments))
      ensures peak == Max(old(peak), |stack|)
    {
      ref := next;
      heap := heap[next := []];
      stack := stack + [Table(next)];
      next := next + 1;
      peak := Max(peak, |stack|);
    }

    /** lua_settable: assigns the value on top to the key below it and removes both. */
    method SetTable(index: int)
      requires Valid() && |stack| >= 2 && InFrame(index)
      requires var t := stack[Slot(index)]; t.Table? && t.ref in heap
      requires stack[|stack| - 2] != Nil && stack[|stack| - 1] != Nil
      modifies this
      ensures Valid() && stack == old(stack[..|stack| - 2]) && next == old(next) && peak == old(peak)
      ensures var ref := old(stack[Slot(index)].ref);
              var es := SetEntry(old(heap[ref]), old(stack[|stack| - 2]), old(stack[|stack| - 1]));
              heap == old(heap)[ref := order(old(assignments), es)] && assignments == old(assignments) + 1
    {
      var ref := stack[Slot(index)].ref;
      SetEntryKeepsKeysDistinct(heap[ref], stack[|stack| - 2], stack[|stack| - 1]);
      heap := heap[ref := order(assignments, SetEntry(heap[ref], stack[|stack| - 2], stack[|stack| - 1]))];
      assignments := assignments + 1;
      stack := stack[..|stack| - 2];
    }
  }
}
