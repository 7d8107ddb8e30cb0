/**
 Lua values to JSON: the stack-walking serializer, and what it computes on the
 unfolding of the value it is given.
 */
module Serializer {
  import opened Common
  import opened Lua
  import opened Unfolding
  import J = Json

  /** Why a value cannot be serialized. */
  datatype Fault = BadKey | BadValue | MixedKeys

  // ----- The builder -----

  /** Adding a named member; a builder that already is an array refuses. */
  function EmplaceNocheck(builder: J.Json, name: string, value: J.Json): Option<J.Json> {
    match builder
    case Null => Some(J.Obj([J.Member(name, value)]))
    case Obj(members) => Some(J.Obj(members + [J.Member(name, value)]))
    case _ => None
  }

  /** Adding an item; a builder that already is an object refuses. */
  function PushBack(builder: J.Json, value: J.Json): Option<J.Json> {
    match builder
    case Null => Some(J.Arr([value]))
    case Arr(items) => Some(J.Arr(items + [value]))
    case _ => None
  }

  predicate IsKey(key: Value) { key.Text? || key.Numeric? }

  function Add(builder: J.Json, key: Value, value: J.Json): Option<J.Json>
    requires IsKey(key)
  {
    if key.Text? then EmplaceNocheck(builder, CString(key.s), value) else PushBack(builder, value)
  }

  // ----- What serialization means for a tree -----

  /** A document, or the first fault in traversal order and the number of tables around it. */
  datatype Encoded = Done(json: J.Json) | Failed(fault: Fault, depth: nat)

  function Encode(t: Tree): Encoded
    decreases t, 1
  {
    match t
    case Leaf(Text(s)) => Done(J.Str(CString(s)))
    case Leaf(Numeric(n)) => Done(J.Num(n))
    case Leaf(Boolean(b)) => Done(J.Bool(b))
    case Leaf(_) => Failed(BadValue, 0)
    case Node(bs) => EncodeFrom(bs, 0, J.Null)
  }

  /** The branches from position `i` on, added to what the builder holds. */
  function EncodeFrom(bs: seq<Branch>, i: nat, builder: J.Json): Encoded
    requires i <= |bs|
    decreases bs, |bs| - i
  {
    if i == |bs| then Done(builder)
    else if !IsKey(bs[i].key) then Failed(BadKey, 1)
    else
      match EncodeBranch(bs[i])
      case Failed(fault, depth) => Failed(fault, depth + 1)
      case Done(value) =>
        match Add(builder, bs[i].key, value)
        case None => Failed(MixedKeys, 1)
        case Some(builder') => EncodeFrom(bs, i + 1, builder')
  }

  function EncodeBranch(b: Branch): Encoded
    decreases b, 2
  {
    Encode(b.val)
  }

  /** The text stored for a document: a string is stored bare, everything else printed. */
  function StoredText(j: J.Json): string { if j.Str? then j.s else J.Print(j) }

  // ----- What serialization does to the stack -----

  /**
   The height a fault raised under `depth` tables leaves behind.  Every table on
   the way out removes three slots, although it had added two; a mix of keys is
   raised outside the guarded region, so its own three slots stay.
   */
  function Landing(height: nat, fault: Fault, depth: nat): int {
    height - depth + if fault.MixedKeys? then 3 else 0
  }

  /** Slots used above the entry height. */
  function Climb(t: Tree): nat
    decreases t, 1
  {
    match t
    case Leaf(_) => 0
    case Node(bs) => Max(1, ClimbFrom(bs, 0))
  }

  function ClimbFrom(bs: seq<Branch>, i: nat): nat
    requires i <= |bs|
    decreases bs, |bs| - i
  {
    if i == |bs| then 0 else Max(2 + ClimbOfBranch(bs[i]), ClimbFrom(bs, i + 1))
  }

  function ClimbOfBranch(b: Branch): nat
    decreases b, 2
  {
    Climb(b.val)
  }

  /** `Undefined` stands for removing more slots than the frame holds. */
  datatype Outcome = Serialized(json: J.Json) | Threw(fault: Fault) | Undefined

  /** The slots two stacks both have are the same. */
  ghost predicate Agree(before: seq<Value>, after: seq<Value>) {
    forall i :: 0 <= i < |before| && i < |after| ==> after[i] == before[i]
  }

  ghost predicate Settles(t: Tree, before: seq<Value>, after: seq<Value>, r: Outcome) {
    match Encode(t)
    case Done(j) => r == Serialized(j) && after == before
    case Failed(fault, depth) =>
      var h := Landing(|before|, fault, depth);
      if h < 0 then r == Undefined
      else r == Threw(fault) && |after| == h && Agree(before, after)
  }

  /** The value an optional index denotes: the top of the stack when it is absent. */
  ghost predicate Denotes(stack: seq<Value>, index: Option<nat>, v: Value) {
    match index
    case None => |stack| > 0 && stack[|stack| - 1] == v
    case Some(i) => 1 <= i <= |stack| && stack[i - 1] == v
  }

  /** A fault of a nested value, seen before and after the three slots are removed. */
  lemma Unwind(t: Tree, child: Tree, before: seq<Value>, pair: seq<Value>, inner: seq<Value>, r: Outcome)
    requires |pair| == 2 && Settles(child, before + pair, inner, r) && !r.Serialized?
    requires Encode(child).Failed? && Encode(t) == Failed(Encode(child).fault, Encode(child).depth + 1)
    ensures r.Undefined? || |inner| < 3 ==> Settles(t, before, inner, Undefined)
    ensures r.Threw? && |inner| >= 3 ==> Settles(t, before, inner[..|inner| - 3], r)
  {
    if r.Threw? {
      forall i | 0 <= i < |before| && i < |inner|
        ensures inner[i] == before[i]
      {
        assert (before + pair)[i] == before[i];
      }
    }
  }

  /** A fault of this table itself leaves its key and value, or removes them and one more. */
  lemma Raise(t: Tree, before: seq<Value>, pair: seq<Value>)
    requires |before| > 0 && |pair| == 2
    ensures Encode(t) == Failed(MixedKeys, 1) ==> Settles(t, before, before + pair, Threw(MixedKeys))
    ensures Encode(t) == Failed(BadKey, 1) ==>
              Settles(t, before, (before + pair)[..|before + pair| - 3], Threw(BadKey))
  {
  }

  /** The key on top of the stack when the loop has handled `i` entries. */
  function KeyBefore(es: Fields, i: nat): Value
    requires i <= |es|
  {
    if i == 0 then Nil else es[i - 1].key
  }

  lemma AfterKeyBefore(es: Fields, i: nat)
    requires DistinctKeys(es) && i <= |es|
    ensures After(es, KeyBefore(es, i)) == i
  {
  }

  /** The slots a table needs are those its first entries climbed and those the rest will. */
  ghost predicate Climbed(t: Tree, n: nat, climbed: nat) {
    t.Node? && n <= |t.branches| && Climb(t) == Max(climbed, ClimbFrom(t.branches, n))
  }

  lemma ClimbEntry(t: Tree, n: nat, climbed: nat)
    requires Climbed(t, n, climbed) && n < |t.branches|
    ensures Climbed(t, n + 1, Max(climbed, 2 + Climb(t.branches[n].val)))
  {
    assert ClimbOfBranch(t.branches[n]) == Climb(t.branches[n].val);
  }

  // ----- The code -----

  method ToValue(L: LuaState, index: Option<nat>, ghost v: Value, ghost t: Tree) returns (r: Outcome)
    requires TablesOk(L.heap) && L.Tracked() && Denotes(L.stack, index, v) && Unfolds(L.heap, v, t)
    modifies L`stack, L`peak
    ensures L.Tracked()
    ensures Settles(t, old(L.stack), L.stack, r)
    ensures PeaksWithin(old(L.peak), L.peak, old(|L.stack|) + Climb(t))
    ensures r.Serialized? ==> Peaks(old(L.peak), L.peak, old(|L.stack|) + Climb(t))
    decreases t, 3
  {
    var value := L.stack[L.Slot(match index case None => -1 case Some(i) => i)];
    match value
    case Text(s) => r := Serialized(J.Str(CString(s)));
    case Numeric(n) => r := Serialized(J.Num(n));
    case Boolean(b) => r := Serialized(J.Bool(b));
    case Table(_) => r := TableToValue(L, index, v, t);
    case _ => r := Threw(BadValue);
  }

  /** The guarded call for a table's value: a fault removes three slots before it travels on. */
  method ToValueOrUnwind(
      L: LuaState, ghost before: seq<Value>, ghost pair: Entry<Value>, ghost t: Tree, ghost outer: Tree)
    returns (r: Outcome)
    requires TablesOk(L.heap) && L.Tracked() && L.stack == before + [pair.key, pair.val] && Unfolds(L.heap, pair.val, t)
    requires Encode(t).Failed? ==> Encode(outer) == Failed(Encode(t).fault, Encode(t).depth + 1)
    modifies L`stack, L`peak
    ensures L.Tracked()
    ensures r.Serialized? <==> Encode(t).Done?
    ensures r.Serialized? ==> r.json == Encode(t).json && L.stack == old(L.stack)
    ensures !r.Serialized? ==> Settles(outer, before, L.stack, r)
    ensures PeaksWithin(old(L.peak), L.peak, |before| + 2 + Climb(t))
    ensures r.Serialized? ==> Peaks(old(L.peak), L.peak, |before| + 2 + Climb(t))
    decreases t, 4
  {
    r := ToValue(L, None, pair.val, t);
    if r.Serialized? {
      return;
    }
    Unwind(outer, t, before, [pair.key, pair.val], L.stack, r);
    if r.Threw? {
      if |L.stack| < 3 {
        return Undefined;
      }
      L.Pop(3);
    }
  }

  /**
   The body of the loop over a table's entries: the entry on top of the stack
   goes into the builder, and its key stays for the next turn.
   */
  method AddEntry(
      L: LuaState, builder: J.Json, ghost before: seq<Value>, ghost pair: Entry<Value>, ghost i: nat,
      ghost outer: Tree)
    returns (r: Outcome)
    requires TablesOk(L.heap) && L.Tracked() && |before| > 0 && L.stack == before + [pair.key, pair.val]
    requires outer.Node? && i < |outer.branches|
    requires pair.key == outer.branches[i].key && Unfolds(L.heap, pair.val, outer.branches[i].val)
    requires Encode(outer) == EncodeFrom(outer.branches, i, builder)
    modifies L`stack, L`peak
    ensures L.Tracked()
    ensures r.Serialized? ==>
              && L.stack == before + [pair.key]
              && Encode(outer) == EncodeFrom(outer.branches, i + 1, r.json)
    ensures !r.Serialized? ==> Settles(outer, before, L.stack, r) && Encode(outer).Failed?
    ensures PeaksWithin(old(L.peak), L.peak, |before| + 2 + Climb(outer.branches[i].val))
    ensures r.Serialized? ==> Peaks(old(L.peak), L.peak, |before| + 2 + Climb(outer.branches[i].val))
    decreases outer, 0
  {
    var key := L.stack[L.Slot(-2)];
    assert key == pair.key;
    if !key.Text? && !key.Numeric? {
      Raise(outer, before, [pair.key, pair.val]);
      L.Pop(3);
      return Threw(BadKey);
    }
    r := ToValueOrUnwind(L, before, pair, outer.branches[i].val, outer);
    if !r.Serialized? {
      return;
    }
    var added := if key.Text? then EmplaceNocheck(builder, CString(key.s), r.json) else PushBack(builder, r.json);
    if added.None? {
      Raise(outer, before, [pair.key, pair.val]);
      return Threw(MixedKeys);
    }
    L.Pop(1);
    r := Serialized(added.value);
  }

  /** One turn of that loop: the next entry is put on the stack, and goes into the builder if there is one. */
  method TakeEntry(
      L: LuaState, at: int, builder: J.Json,
      ghost before: seq<Value>, ghost v: Value, ghost es: Fields, ghost t: Tree, ghost i: nat)
    returns (more: bool, r: Outcome)
    requires TablesOk(L.heap) && L.Tracked() && Unfolds(L.heap, v, t) && v.Table? && L.heap[v.ref] == es
    requires i <= |es| && |before| > 0 && L.stack == before + [KeyBefore(es, i)]
    requires L.InFrame(at) && L.stack[L.Slot(at)] == v
    requires Encode(t) == EncodeFrom(t.branches, i, builder)
    modifies L`stack, L`peak
    ensures L.Tracked() && more == (i < |t.branches|)
    ensures !more ==> L.stack == before && L.peak == old(L.peak) && r == Serialized(builder)
    ensures more && r.Serialized? ==>
              && L.stack == before + [KeyBefore(es, i + 1)]
              && Encode(t) == EncodeFrom(t.branches, i + 1, r.json)
    ensures !r.Serialized? ==> Settles(t, before, L.stack, r)
    ensures more ==> PeaksWithin(old(L.peak), L.peak, |before| + 2 + Climb(t.branches[i].val))
    ensures more && r.Serialized? ==> Peaks(old(L.peak), L.peak, |before| + 2 + Climb(t.branches[i].val))
    decreases t, 1
  {
    r := Serialized(builder);
    AfterKeyBefore(es, i);
    more := L.Next(at, es, before);
    if more {
      r := AddEntry(L, builder, before, es[i], i, t);
    }
  }

  method TableToValue(L: LuaState, index: Option<nat>, ghost v: Value, ghost t: Tree) returns (r: Outcome)
    requires TablesOk(L.heap) && L.Tracked() && Denotes(L.stack, index, v) && Unfolds(L.heap, v, t) && v.Table?
    modifies L`stack, L`peak
    ensures L.Tracked()
    ensures Settles(t, old(L.stack), L.stack, r)
    ensures PeaksWithin(old(L.peak), L.peak, old(|L.stack|) + Climb(t))
    ensures r.Serialized? ==> Peaks(old(L.peak), L.peak, old(|L.stack|) + Climb(t))
    decreases t, 2
  {
    ghost var before, h, peak := L.stack, |L.stack|, L.peak;
    ghost var es, done: nat, climbed: nat := L.heap[v.ref], 0, 1;
    var at := match index case None => -2 case Some(i) => i;
    r := Serialized(J.Null);
    L.Push(Nil);
    while true
      invariant L.Tracked() && 0 <= done <= |t.branches| && r.Serialized?
      invariant L.stack == before + [KeyBefore(es, done)]
      invariant Encode(t) == EncodeFrom(t.branches, done, r.json)
      invariant Peaks(peak, L.peak, h + climbed) && Climbed(t, done, climbed)
      decreases |t.branches| - done
    {
      ghost var reached := L.peak;
      var more;
      more, r := TakeEntry(L, at, r.json, before, v, es, t, done);
      if !more {
        break;
      }
      ghost var child := Climb(t.branches[done].val);
      ClimbEntry(t, done, climbed);
      PeakTwice(peak, reached, L.peak, h, climbed, child);
      if !r.Serialized? {
        return;
      }
      climbed, done := Max(climbed, 2 + child), done + 1;
    }
  }

  datatype StringOutcome = Stored(text: string) | StringThrew(fault: Fault) | StringUndefined

  method ToString(L: LuaState, index: Option<nat>, ghost v: Value, ghost t: Tree) returns (r: StringOutcome)
    requires TablesOk(L.heap) && L.Tracked() && Denotes(L.stack, index, v) && Unfolds(L.heap, v, t)
    modifies L`stack, L`peak
    ensures L.Tracked()
    ensures exists o :: Settles(t, old(L.stack), L.stack, o) &&
              r == match o
                   case Serialized(j) => Stored(StoredText(j))
                   case Threw(fault) => StringThrew(fault)
                   case Undefined => StringUndefined
    ensures PeaksWithin(old(L.peak), L.peak, old(|L.stack|) + Climb(t))
    ensures r.Stored? ==> Peaks(old(L.peak), L.peak, old(|L.stack|) + Climb(t))
  {
    var value := ToValue(L, index, v, t);
    match value
    case Serialized(j) => r := Stored(if j.Str? then j.s else J.Print(j));
    case Threw(fault) => r := StringThrew(fault);
    case Undefined => r := StringUndefined;
  }
}
