/**
 Text to Lua values: the deserializer, which prints every nested value and parses
 it again, and the direct structural push it amounts to.
 */
module Deserializer {
  import opened Common
  import opened Lua
  import Decimals
  import J = Json

  /** The casts a script can ask for. */
  datatype Kind = AsString | AsNumber | AsBoolean | AsTable

  datatype Error = BadNumber | BadJson | NotATable | UnexpectedType

  // ----- The direct push -----

  predicate IsTable(j: J.Json) { j.Obj? || j.Arr? }

  function Size(j: J.Json): nat
    requires IsTable(j)
  {
    if j.Obj? then |j.members| else |j.items|
  }

  /** The key an array's item gets. */
  function ItemKey(i: nat): Value { Numeric(Decimals.OfNat(i + 1)) }

  function KeyAt(j: J.Json, i: nat): Value
    requires IsTable(j) && i < Size(j)
  {
    if j.Obj? then Text(CString(j.members[i].name)) else ItemKey(i)
  }

  function ChildAt(j: J.Json, i: nat): (child: J.Json)
    requires IsTable(j) && i < Size(j)
    ensures child < j
    ensures J.UniqueNames(j) ==> J.UniqueNames(child)
  {
    if j.Obj? then
      assert j.members[i] in j.members;
      j.members[i].value
    else
      assert j.items[i] in j.items;
      j.items[i]
  }

  /** A value, or an error with the slots it leaves above the entry height. */
  datatype Pushed =
    | Pushed(mem: Memory, v: Value)
    | Refused(mem: Memory, left: seq<Value>, error: Error)

  function WithNewTable(m: Memory): Memory { m.(heap := m.heap[m.next := []], next := m.next + 1) }

  function Assign(m: Memory, ref: Ref, key: Value, v: Value): Memory {
    if ref in m.heap then
      var es := m.order(m.assignments, SetEntry(m.heap[ref], key, v));
      m.(heap := m.heap[ref := es], assignments := m.assignments + 1)
    else m
  }

  /** A document pushed by recursion on its structure, without any text. */
  function PushJson(m: Memory, j: J.Json): Pushed
    decreases j
  {
    match j
    case Null => Refused(m, [], UnexpectedType)
    case Bool(b) => Pushed(m, Boolean(b))
    case Num(n) => Pushed(m, Numeric(n))
    case Str(s) => Pushed(m, Text(CString(s)))
    case _ => PushFrom(WithNewTable(m), m.next, j, 0)
  }

  /** The entries from position `i` on, put into the table under construction. */
  function PushFrom(m: Memory, ref: Ref, j: J.Json, i: nat): Pushed
    requires IsTable(j) && i <= Size(j)
    decreases j, Size(j) - i
  {
    if i == Size(j) then Pushed(m, Table(ref))
    else
      match PushJson(m, ChildAt(j, i))
      case Refused(m', _, error) => Refused(m', [Table(ref), KeyAt(j, i)], error)
      case Pushed(m', v) => PushFrom(Assign(m', ref, KeyAt(j, i), v), ref, j, i + 1)
  }

  /** What a text means under a requested type. */
  function Cast(m: Memory, kind: Kind, text: string): Pushed {
    match kind
    case AsString => Pushed(m, Text(CString(text)))
    case AsNumber =>
      (match Decimals.Parse(text)
       case None => Refused(m, [], BadNumber)
       case Some(n) => Pushed(m, Numeric(n)))
    case AsBoolean => Pushed(m, Boolean(text == "true"))
    case AsTable =>
      match J.FromString(text)
      case None => Refused(m, [], BadJson)
      case Some(j) => if IsTable(j) then PushJson(m, j) else Refused(WithNewTable(m), [], NotATable)
  }

  // ----- What the direct push does to the heap -----

  /** Every table that was there is still there, unchanged except possibly one; new ones have new references. */
  ghost predicate Extends(m: Memory, m': Memory, except: set<Ref>) {
    && m'.Valid() && m.next <= m'.next && m'.order == m.order
    && (forall r :: r in m.heap ==> r in m'.heap && (r in except || m'.heap[r] == m.heap[r]))
    && (forall r :: r in m'.heap && r < m.next ==> r in m.heap)
  }

  lemma NewTableExtends(m: Memory)
    requires m.Valid()
    ensures Extends(m, WithNewTable(m), {}) && m.next in WithNewTable(m).heap && m.next !in m.heap
  {
  }

  /** An assignment changes one table: it then holds the new entries in some order. */
  lemma AssignExtends(m: Memory, ref: Ref, key: Value, v: Value)
    requires m.Valid() && ref in m.heap && key != Nil
    ensures Extends(m, Assign(m, ref, key, v), {ref})
    ensures Reorders(SetEntry(m.heap[ref], key, v), Assign(m, ref, key, v).heap[ref])
  {
    SetEntryKeepsKeysDistinct(m.heap[ref], key, v);
  }

  /** What a push does to the heap, and the shape of its outcome. */
  ghost predicate PushOk(m: Memory, except: set<Ref>, left: nat, r: Pushed) {
    && Extends(m, r.mem, except)
    && (r.Pushed? ==> r.v != Nil)
    && (r.Refused? ==> r.error == UnexpectedType && |r.left| == left)
  }

  lemma ExtendsTwice(m: Memory, m': Memory, m'': Memory, ref: Ref)
    requires Extends(m, m', {}) && Extends(m', m'', {ref})
    ensures Extends(m, m'', {ref})
    ensures ref !in m.heap ==> Extends(m, m'', {})
  {
  }

  /** What filling a table does, given that it is there. */
  ghost predicate FillOk(m: Memory, ref: Ref, r: Pushed) {
    m.Valid() && ref in m.heap ==> PushOk(m, {ref}, 2, r)
  }

  /** One entry and the rest: tables are allocated for its value, the value is assigned, and so on. */
  lemma FillEntry(m: Memory, m': Memory, ref: Ref, key: Value, v: Value, r: Pushed)
    requires Extends(m, m', {}) && key != Nil
    requires FillOk(Assign(m', ref, key, v), ref, r)
    ensures FillOk(m, ref, r)
  {
    if m.Valid() && ref in m.heap {
      AssignExtends(m', ref, key, v);
      ExtendsTwice(m, m', Assign(m', ref, key, v), ref);
    }
  }

  lemma {:induction false} PushExtends(m: Memory, j: J.Json)
    requires m.Valid()
    ensures PushOk(m, {}, if IsTable(j) then 2 else 0, PushJson(m, j))
    decreases j
  {
    if IsTable(j) {
      NewTableExtends(m);
      PushFromExtends(WithNewTable(m), m.next, j, 0, PushJson(m, j));
      ExtendsTwice(m, WithNewTable(m), PushJson(m, j).mem, m.next);
    }
  }

  lemma {:induction false} PushFromExtends(m: Memory, ref: Ref, j: J.Json, i: nat, r: Pushed)
    requires IsTable(j) && i <= Size(j) && r == PushFrom(m, ref, j, i)
    ensures FillOk(m, ref, r)
    decreases j, Size(j) - i
  {
    if m.Valid() && i < Size(j) {
      var child, key := PushJson(m, ChildAt(j, i)), KeyAt(j, i);
      PushExtends(m, ChildAt(j, i));
      if child.Pushed? {
        PushFromExtends(Assign(child.mem, ref, key, child.v), ref, j, i + 1, r);
        FillEntry(m, child.mem, ref, key, child.v, r);
      }
    }
  }

  /** Slots a push uses above the entry height. */
  function PushClimb(j: J.Json): nat
    decreases j
  {
    match j
    case Null => 0
    case Bool(_) => 1
    case Num(_) => 1
    case Str(_) => 1
    case _ => Max(1, PushClimbFrom(j, 0))
  }

  function PushClimbFrom(j: J.Json, i: nat): nat
    requires IsTable(j) && i <= Size(j)
    decreases j, Size(j) - i
  {
    if i == Size(j) then 0 else Max(2 + PushClimb(ChildAt(j, i)), PushClimbFrom(j, i + 1))
  }

  /** The slots a table needs are those its first entries climbed and those the rest will. */
  ghost predicate PushClimbed(j: J.Json, i: nat, climbed: nat) {
    IsTable(j) && i <= Size(j) && PushClimb(j) == Max(climbed, PushClimbFrom(j, i))
  }

  lemma PushClimbEntry(j: J.Json, i: nat, climbed: nat)
    requires PushClimbed(j, i, climbed) && i < Size(j)
    ensures PushClimbed(j, i + 1, Max(climbed, 2 + PushClimb(ChildAt(j, i))))
  {
  }

  function CastClimb(kind: Kind, text: string): nat {
    if !kind.AsTable? then 1
    else
      match J.FromString(text)
      case None => 0
      case Some(j) => if IsTable(j) then PushClimb(j) else 1
  }

  // ----- The code -----

  /** The outcome of a call, on the state it leaves. */
  ghost predicate Leaves(L: LuaState, before: seq<Value>, r: Pushed, error: Option<Error>)
    reads L
  {
    && L.Mem() == r.mem
    && match r
       case Pushed(_, v) => error == None && L.stack == before + [v]
       case Refused(_, left, e) => error == Some(e) && L.stack == before + left
  }

  /** The document in a text; what nested calls make smaller. */
  ghost function Document(text: string): J.Json {
    match J.FromString(text)
    case Some(j) => j
    case None => J.Null
  }

  function KindOf(j: J.Json): Option<Kind> {
    match j
    case Bool(_) => Some(AsBoolean)
    case Num(_) => Some(AsNumber)
    case Str(_) => Some(AsString)
    case Null => None
    case _ => Some(AsTable)
  }

  /** Printing a value and casting the text to the value's own type is pushing the value. */
  lemma ReparseIsPush(m: Memory, value: J.Json, kind: Kind, text: string)
    requires J.UniqueNames(value) && KindOf(value) == Some(kind)
    requires text == if value.Str? then value.s else J.Print(value)
    ensures Cast(m, kind, text) == PushJson(m, value)
    ensures CastClimb(kind, text) == PushClimb(value)
    ensures kind.AsTable? ==> Document(text) == value
  {
    match value
    case Num(n) => Decimals.ParsePrint(n);
    case Bool(b) => assert "true" != "false";
    case Str(_) =>
    case _ => J.TextRoundTrip(value);
  }

  method FromString(L: LuaState, kind: Kind, text: string) returns (error: Option<Error>)
    requires L.Valid() && L.Tracked()
    modifies L
    ensures Leaves(L, old(L.stack), Cast(old(L.Mem()), kind, text), error)
    ensures L.Tracked() && PeaksWithin(old(L.peak), L.peak, old(|L.stack|) + CastClimb(kind, text))
    ensures error.None? ==> Peaks(old(L.peak), L.peak, old(|L.stack|) + CastClimb(kind, text))
    decreases if kind.AsTable? then 1 else 0, Document(text), 3
  {
    error := None;
    match kind
    case AsString => L.Push(Text(CString(text)));
    case AsNumber =>
      var n := Decimals.Parse(text);
      match n {
        case None => error := Some(BadNumber);
        case Some(n) => L.Push(Numeric(n));
      }
    case AsBoolean => L.Push(Boolean(text == "true"));
    case AsTable => error := PushTable(L, text);
  }

  /** A nested value: printed, and read back as the type it has. */
  method PushValue(L: LuaState, value: J.Json) returns (error: Option<Error>)
    requires L.Valid() && L.Tracked() && J.UniqueNames(value)
    modifies L
    ensures L.Valid()
    ensures match PushJson(old(L.Mem()), value)
            case Pushed(m, v) => error == None && L.Mem() == m && L.stack == old(L.stack) + [v]
            case Refused(m, _, e) => error == Some(UnexpectedType) && L.Mem() == m && L.stack == old(L.stack)
    ensures L.Tracked() && PeaksWithin(old(L.peak), L.peak, old(|L.stack|) + PushClimb(value))
    ensures error.None? ==> Peaks(old(L.peak), L.peak, old(|L.stack|) + PushClimb(value))
    decreases 1, value, 4
  {
    var kind := KindOf(value);
    if kind.None? {
      return Some(UnexpectedType);
    }
    var text := if value.Str? then value.s else J.Print(value);
    ReparseIsPush(L.Mem(), value, kind.value, text);
    PushExtends(L.Mem(), value);
    error := FromString(L, kind.value, text);
    if error.Some? {
      L.Pop(2);
    }
  }

  method PushTable(L: LuaState, text: string) returns (error: Option<Error>)
    requires L.Valid() && L.Tracked()
    modifies L
    ensures Leaves(L, old(L.stack), Cast(old(L.Mem()), AsTable, text), error)
    ensures L.Tracked() && PeaksWithin(old(L.peak), L.peak, old(|L.stack|) + CastClimb(AsTable, text))
    ensures error.None? ==> Peaks(old(L.peak), L.peak, old(|L.stack|) + CastClimb(AsTable, text))
    decreases 1, Document(text), 2
  {
    var parsed := J.FromString(text);
    if parsed.None? {
      return Some(BadJson);
    }
    var json := parsed.value;
    NewTableExtends(L.Mem());
    ghost var ref := L.NewTable();
    assert L.Mem() == WithNewTable(old(L.Mem()));
    if json.Obj? {
      error := PushMembers(L, json, old(L.stack), ref);
    } else if json.Arr? {
      error := PushItems(L, json, old(L.stack), ref);
    } else {
      L.Pop(1);
      error := Some(NotATable);
    }
  }

  /** The value of one entry is pushed and assigned to the key below it. */
  method AssignValue(
      L: LuaState, value: J.Json, ghost json: J.Json, ghost i: nat, ghost before: seq<Value>, ghost ref: Ref,
      ghost whole: Pushed)
    returns (error: Option<Error>)
    requires L.Valid() && L.Tracked() && IsTable(json) && J.UniqueNames(json)
    requires i < Size(json) && value == ChildAt(json, i)
    requires ref in L.heap && L.stack == before + [Table(ref), KeyAt(json, i)]
    requires whole == PushFrom(L.Mem(), ref, json, i)
    modifies L
    ensures error.Some? ==> Leaves(L, before, whole, error)
    ensures error.None? ==>
              && L.Valid() && ref in L.heap && L.stack == before + [Table(ref)]
              && whole == PushFrom(L.Mem(), ref, json, i + 1)
    ensures L.Tracked() && PeaksWithin(old(L.peak), L.peak, |before| + 2 + PushClimb(value))
    ensures error.None? ==> Peaks(old(L.peak), L.peak, |before| + 2 + PushClimb(value))
    decreases 1, json, 0
  {
    PushExtends(L.Mem(), value);
    error := PushValue(L, value);
    if error.None? {
      ghost var m, v := L.Mem(), L.stack[|before| + 2];
      assert L.stack == before + [Table(ref), KeyAt(json, i), v];
      L.SetTable(-3);
      assert L.Mem() == Assign(m, ref, KeyAt(json, i), v);
      assert L.stack == before + [Table(ref)];
    }
  }

  method PushMembers(L: LuaState, json: J.Json, ghost before: seq<Value>, ghost ref: Ref) returns (error: Option<Error>)
    requires L.Valid() && L.Tracked() && json.Obj? && J.UniqueNames(json)
    requires ref in L.heap && L.stack == before + [Table(ref)]
    modifies L
    ensures Leaves(L, before, PushFrom(old(L.Mem()), ref, json, 0), error)
    ensures L.Tracked() && PeaksWithin(old(L.peak), L.peak, |before| + PushClimb(json))
    ensures error.None? ==> Peaks(old(L.peak), L.peak, |before| + PushClimb(json))
    decreases 1, json, 1
  {
    ghost var whole := PushFrom(L.Mem(), ref, json, 0);
    ghost var peak, climbed: nat := L.peak, 1;
    for i := 0 to |json.members|
      invariant L.Tracked() && Peaks(peak, L.peak, |before| + climbed)
      invariant PushClimbed(json, i, climbed)
      invariant L.Valid() && ref in L.heap && L.stack == before + [Table(ref)]
      invariant whole == PushFrom(L.Mem(), ref, json, i)
    {
      var member := json.members[i];
      ghost var reached := L.peak;
      L.Push(Text(CString(member.name)));
      assert L.stack == before + [Table(ref), KeyAt(json, i)];
      error := AssignValue(L, member.value, json, i, before, ref, whole);
      ghost var child := PushClimb(member.value);
      PushClimbEntry(json, i, climbed);
      PeakTwice(peak, reached, L.peak, |before|, climbed, child);
      climbed := Max(climbed, 2 + child);
      if error.Some? {
        return;
      }
    }
    error := None;
  }

  method PushItems(L: LuaState, json: J.Json, ghost before: seq<Value>, ghost ref: Ref) returns (error: Option<Error>)
    requires L.Valid() && L.Tracked() && json.Arr? && J.UniqueNames(json)
    requires ref in L.heap && L.stack == before + [Table(ref)]
    modifies L
    ensures Leaves(L, before, PushFrom(old(L.Mem()), ref, json, 0), error)
    ensures L.Tracked() && PeaksWithin(old(L.peak), L.peak, |before| + PushClimb(json))
    ensures error.None? ==> Peaks(old(L.peak), L.peak, |before| + PushClimb(json))
    decreases 1, json, 1
  {
    var number := 1;
    ghost var whole := PushFrom(L.Mem(), ref, json, 0);
    ghost var peak, climbed: nat := L.peak, 1;
    for i := 0 to |json.items|
      invariant L.Tracked() && Peaks(peak, L.peak, |before| + climbed)
      invariant PushClimbed(json, i, climbed)
      invariant L.Valid() && ref in L.heap && L.stack == before + [Table(ref)]
      invariant number == i + 1
      invariant whole == PushFrom(L.Mem(), ref, json, i)
    {
      ghost var reached := L.peak;
      L.Push(Numeric(Decimals.OfNat(number)));
      assert L.stack == before + [Table(ref), KeyAt(json, i)];
      error := AssignValue(L, json.items[i], json, i, before, ref, whole);
      ghost var child := PushClimb(json.items[i]);
      PushClimbEntry(json, i, climbed);
      PeakTwice(peak, reached, L.peak, |before|, climbed, child);
      climbed := Max(climbed, 2 + child);
      if error.Some? {
        return;
      }
      number := number + 1;
    }
    error := None;
  }
}
