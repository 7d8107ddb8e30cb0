/**
 The key-value module scripts see, and the project storage behind it.
 */
module KvStorage {
  import opened Common
  import opened Lua
  import opened Unfolding
  import opened Serializer
  import opened Deserializer
  import opened EncodedTrees
  import opened BuiltTrees
  import opened RoundTrip
  import Decimals
  import J = Json

  // ----- The project storage: one table keyed by project and key -----

  datatype RowKey = RowKey(project: int, key: string)

  type Rows = map<RowKey, string>

  datatype Found = Found(value: string) | Missing(message: string)

  function NoSuchKey(key: string): string { "No value with such key (key = " + key + ")" }

  class ProjectStorage {
    var rows: Rows

    constructor ()
      ensures rows == map[]
    {
      rows := map[];
    }

    /** An upsert; a database fault, chosen by the environment, leaves the table alone. */
    method Store(project: int, key: string, value: string, fault: Option<string>) returns (error: Option<string>)
      modifies this
      ensures error == fault
      ensures rows == if fault.None? then old(rows)[RowKey(project, key) := value] else old(rows)
    {
      if fault.None? {
        rows := rows[RowKey(project, key) := value];
      }
      error := fault;
    }

    method Get(project: int, key: string, fault: Option<string>) returns (r: Found)
      ensures r == Lookup(rows, project, key, fault)
    {
      if fault.Some? {
        r := Missing(fault.value);
      } else if RowKey(project, key) !in rows {
        r := Missing(NoSuchKey(key));
      } else {
        r := Found(rows[RowKey(project, key)]);
      }
    }
  }

  function Lookup(rows: Rows, project: int, key: string, fault: Option<string>): Found {
    match fault
    case Some(message) => Missing(message)
    case None =>
      if RowKey(project, key) in rows then Found(rows[RowKey(project, key)]) else Missing(NoSuchKey(key))
  }

  // ----- The methods of the module -----

  datatype LuaFault = BadArgumentCount(given: int) | KeyNotAString

  /** How a call from Lua ends: with a number of results, a Lua error, or an exception nobody here catches. */
  datatype Ending = Returns(count: nat) | Raises(fault: LuaFault) | Escapes(error: Fault) | Breaks

  predicate IsString(v: Value) { v.Text? || v.Numeric? }

  /** A key as a C string; a number is converted first. */
  function KeyText(v: Value): string
    requires IsString(v)
  {
    match v
    case Text(s) => CString(s)
    case Numeric(n) =>
      if n.fraction == [0] then (if n.negative then "-" else "") + Decimals.Digits(n.whole) else Decimals.Print(n)
  }

  /** A number used as a key is spelled so that it reads back as itself, a whole one without a point. */
  lemma NumericKey(n: Decimals.Number)
    ensures Decimals.Parse(KeyText(Numeric(n))) == Some(n)
    ensures n.fraction == [0] ==> '.' !in KeyText(Numeric(n))
    ensures '\0' !in KeyText(Numeric(n))
  {
    Decimals.PrintHasNoNul(n);
    if n.fraction == [0] {
      Decimals.WholeReadsBack(n);
    } else {
      Decimals.ParsePrint(n);
    }
  }

  /**
   The storage key a Lua value stands for: a string up to its first NUL, a number
   spelled so that it reads back as itself, without a point when it is whole.
   */
  ghost predicate Names(key: string, v: Value) {
    match v
    case Text(s) => IsCut(key, s)
    case Numeric(n) =>
      Decimals.Parse(key) == Some(n) && '\0' !in key && (n.fraction == [0] ==> '.' !in key)
    case _ => false
  }

  lemma KeyTextNames(v: Value)
    requires v.Text? || v.Numeric?
    ensures IsString(v) && Names(KeyText(v), v)
  {
    match v
    case Text(s) => CutIsUnique(CString(s), s);
    case Numeric(n) => NumericKey(n);
  }

  /** Two string keys meet in one row exactly when they agree up to their first NUL. */
  lemma KeysMeetIff(s: string, s': string)
    ensures KeyText(Text(s)) == KeyText(Text(s')) <==> exists p :: IsCut(p, s) && IsCut(p, s')
    ensures '\0' !in s && '\0' !in s' && s != s' ==> KeyText(Text(s)) != KeyText(Text(s'))
  {
    if p :| IsCut(p, s) && IsCut(p, s') {
      CutIsUnique(p, s);
      CutIsUnique(p, s');
    }
    if KeyText(Text(s)) == KeyText(Text(s')) {
      assert IsCut(CString(s), s) && IsCut(CString(s), s');
    }
  }

  /** What one store call does to the table. */
  function StoreRows(rows: Rows, project: int, key: string, t: Tree, fault: Option<string>): Rows {
    match Encode(t)
    case Done(j) => if fault.None? then rows[RowKey(project, key) := StoredText(j)] else rows
    case Failed(_, _) => rows
  }

  /** The row under the key's name takes the text, if there is one and the database does not fail; no other changes. */
  ghost predicate WritesRow(project: int, v: Value, t: Tree, fault: Option<string>, before: Rows, after: Rows) {
    exists key: string :: Names(key, v) && after ==
      if Encode(t).Done? && fault.None? then before[RowKey(project, key) := StoredText(Encode(t).json)] else before
  }

  lemma StoreWritesRow(project: int, v: Value, t: Tree, fault: Option<string>, rows: Rows)
    requires v.Text? || v.Numeric?
    ensures IsString(v) && WritesRow(project, v, t, fault, rows, StoreRows(rows, project, KeyText(v), t, fault))
  {
    KeyTextNames(v);
  }

  class StoreMethod {
    const projectId: int
    const kvStorage: ProjectStorage

    constructor (projectId: int, kvStorage: ProjectStorage)
      ensures this.projectId == projectId && this.kvStorage == kvStorage
    {
      this.projectId := projectId;
      this.kvStorage := kvStorage;
    }

    /**
     The row written is named by the key's own characters up to the first NUL, or
     by the spelling of a number.
     */
    method Execute(L: LuaState, fault: Option<string>, ghost t: Tree) returns (r: Ending)
      requires L.Valid() && L.Tracked()
      requires |L.stack| == 4 ==> Unfolds(L.heap, L.stack[3], t)
      modifies L`stack, L`peak, kvStorage
      ensures old(|L.stack|) != 4 ==> r == Raises(BadArgumentCount(old(|L.stack|) - 2))
      ensures old(|L.stack|) == 4 && !IsString(old(L.stack[2])) ==> r == Raises(KeyNotAString)
      ensures old(|L.stack|) == 4 && IsString(old(L.stack[2])) ==> !r.Raises?
      ensures r.Raises? ==> kvStorage.rows == old(kvStorage.rows) && L.stack == old(L.stack)
      ensures !r.Raises? ==>
                && old(|L.stack|) == 4 && IsString(old(L.stack[2]))
                && kvStorage.rows == StoreRows(old(kvStorage.rows), projectId, KeyText(old(L.stack[2])), t, fault)
                && match Encode(t)
                   case Done(_) =>
                     && r == Returns(1)
                     && L.stack == [if fault.None? then Nil else Text(CString(fault.value))]
                   case Failed(error, depth) =>
                     if Landing(4, error, depth) < 0 then r == Breaks
                     else r == Escapes(error) && |L.stack| == Landing(4, error, depth)
      ensures old(|L.stack|) == 4 && (old(L.stack[2]).Text? || old(L.stack[2]).Numeric?) ==>
                WritesRow(projectId, old(L.stack[2]), t, fault, old(kvStorage.rows), kvStorage.rows)
    {
      var n := |L.stack|;
      if n != 4 {
        return Raises(BadArgumentCount(n - 2));
      }
      if !IsString(L.stack[2]) {
        return Raises(KeyNotAString);
      }
      var key := KeyText(L.stack[2]);
      StoreWritesRow(projectId, L.stack[2], t, fault, kvStorage.rows);
      var value := ToString(L, None, L.stack[3], t);
      match value
      case StringThrew(error) => r := Escapes(error);
      case StringUndefined => r := Breaks;
      case Stored(text) =>
        L.Clear();
        var error := kvStorage.Store(projectId, key, text, fault);
        L.Push(if error.Some? then Text(CString(error.value)) else Nil);
        r := Returns(1);
    }
  }

  /** What `get` hands to the script: the stored text, or a message. */
  datatype StorageResult = StorageResult(value: string, isError: bool)

  function ResultOf(found: Found): StorageResult {
    match found
    case Found(value) => StorageResult(value, false)
    case Missing(message) => StorageResult(message, true)
  }

  /** The userdata standing for the result object. */
  const RESULT_OBJECT := Opaque(0)

  /** The result is the row under the name of the key, or an error when there is none or the database fails. */
  ghost predicate ReadsRow(project: int, v: Value, fault: Option<string>, rows: Rows, result: StorageResult) {
    exists key: string ::
      && Names(key, v)
      && (fault.Some? ==> result == StorageResult(fault.value, true))
      && (fault.None? && RowKey(project, key) in rows ==> result == StorageResult(rows[RowKey(project, key)], false))
      && (fault.None? && RowKey(project, key) !in rows ==> result.isError)
  }

  lemma LookupReadsRow(project: int, v: Value, fault: Option<string>, rows: Rows)
    requires v.Text? || v.Numeric?
    ensures IsString(v) && ReadsRow(project, v, fault, rows, ResultOf(Lookup(rows, project, KeyText(v), fault)))
  {
    KeyTextNames(v);
  }

  class GetMethod {
    const projectId: int
    const kvStorage: ProjectStorage
    var result: Option<StorageResult>

    constructor (projectId: int, kvStorage: ProjectStorage)
      ensures this.projectId == projectId && this.kvStorage == kvStorage && result == None
    {
      this.projectId := projectId;
      this.kvStorage := kvStorage;
      result := None;
    }

    method Execute(L: LuaState, fault: Option<string>) returns (r: Ending)
      modifies L`stack, L`peak, this`result
      ensures old(|L.stack|) != 3 ==> r == Raises(BadArgumentCount(old(|L.stack|) - 2))
      ensures old(|L.stack|) == 3 && !IsString(old(L.stack[2])) ==> r == Raises(KeyNotAString)
      ensures old(|L.stack|) == 3 && IsString(old(L.stack[2])) ==> !r.Raises?
      ensures r.Raises? ==> result == old(result) && L.stack == old(L.stack)
      ensures old(|L.stack|) == 3 && (old(L.stack[2]).Text? || old(L.stack[2]).Numeric?) ==>
                result.Some? && ReadsRow(projectId, old(L.stack[2]), fault, kvStorage.rows, result.value)
      ensures !r.Raises? ==>
                && old(|L.stack|) == 3 && IsString(old(L.stack[2]))
                && r == Returns(1) && L.stack == [RESULT_OBJECT]
                && result == Some(ResultOf(Lookup(kvStorage.rows, projectId, KeyText(old(L.stack[2])), fault)))
    {
      var n := |L.stack|;
      if n != 3 {
        return Raises(BadArgumentCount(n - 2));
      }
      if !IsString(L.stack[2]) {
        return Raises(KeyNotAString);
      }
      var key := KeyText(L.stack[n - 1]);
      LookupReadsRow(projectId, L.stack[n - 1], fault, kvStorage.rows);
      L.Clear();
      var found := kvStorage.Get(projectId, key, fault);
      match found {
        case Missing(message) => result := Some(StorageResult(message, true));
        case Found(value) => result := Some(StorageResult(value, false));
      }
      L.Push(RESULT_OBJECT);
      r := Returns(1);
    }
  }

  function Message(error: Error): string {
    match error
    case BadNumber => "bad lexical cast"
    case BadJson => "JSON parse error"
    case NotATable => "Value is not a table"
    case UnexpectedType => "Unexpected json value type"
  }

  /** The stack an outcome leaves: its last two slots are the answer. */
  function AnswerOf(outcome: Pushed): (Memory, seq<Value>) {
    match outcome
    case Pushed(m, v) => (m, [v, Nil])
    case Refused(m, left, error) => (m, left + [Nil, Text(Message(error))])
  }

  function Answer(m: Memory, result: StorageResult, kind: Kind): (Memory, seq<Value>) {
    if result.isError then (m, [Nil, Text(CString(result.value))]) else AnswerOf(Cast(m, kind, result.value))
  }

  /** After a cast: nil on top of its value, or nil and the message on top of what it left. */
  method PushAnswer(L: LuaState, error: Option<Error>, ghost outcome: Pushed)
    requires Leaves(L, [], outcome, error)
    modifies L`stack, L`peak
    ensures (L.Mem(), L.stack) == AnswerOf(outcome)
  {
    L.Push(Nil);
    if error.None? {
      assert L.stack == [outcome.v, Nil];
    } else {
      L.Push(Text(Message(error.value)));
      assert L.stack == outcome.left + [Nil, Text(Message(error.value))];
    }
  }

  class ResultCastMethod {
    const result: StorageResult
    const kind: Kind

    constructor (result: StorageResult, kind: Kind)
      ensures this.result == result && this.kind == kind
    {
      this.result := result;
      this.kind := kind;
    }

    method Execute(L: LuaState) returns (r: Ending)
      requires L.Valid() && L.Tracked()
      modifies L
      ensures old(|L.stack|) != 2 ==>
                r == Raises(BadArgumentCount(old(|L.stack|) - 2)) && L.stack == old(L.stack) && L.Mem() == old(L.Mem())
      ensures old(|L.stack|) == 2 ==> r == Returns(2) && (L.Mem(), L.stack) == Answer(old(L.Mem()), result, kind)
    {
      var n := |L.stack|;
      if n != 2 {
        return Raises(BadArgumentCount(n - 2));
      }
      L.Clear();
      if result.isError {
        L.Push(Nil);
        L.Push(Text(CString(result.value)));
        assert L.stack == [Nil, Text(CString(result.value))];
        return Returns(2);
      }
      ghost var outcome := Cast(L.Mem(), kind, result.value);
      var error := FromString(L, kind, result.value);
      PushAnswer(L, error, outcome);
      r := Returns(2);
    }
  }

  /** The cast a method name of the result object selects. */
  function CastNamed(name: string): Option<Kind> {
    if name == "as_string" then Some(AsString)
    else if name == "as_number" then Some(AsNumber)
    else if name == "as_boolean" then Some(AsBoolean)
    else if name == "as_table" then Some(AsTable)
    else None
  }

  /** The object behind a result: its four methods all answer from the same result. */
  class ResultObject {
    const asStringMethod: ResultCastMethod
    const asNumberMethod: ResultCastMethod
    const asBooleanMethod: ResultCastMethod
    const asTableMethod: ResultCastMethod

    ghost predicate For(result: StorageResult) {
      && asStringMethod.result == asNumberMethod.result == asBooleanMethod.result == asTableMethod.result == result
      && asStringMethod.kind == AsString && asNumberMethod.kind == AsNumber
      && asBooleanMethod.kind == AsBoolean && asTableMethod.kind == AsTable
    }

    constructor (result: StorageResult)
      ensures For(result)
    {
      asStringMethod := new ResultCastMethod(result, AsString);
      asNumberMethod := new ResultCastMethod(result, AsNumber);
      asBooleanMethod := new ResultCastMethod(result, AsBoolean);
      asTableMethod := new ResultCastMethod(result, AsTable);
    }

    /** What indexing the object from a script gives; none stands for nil. */
    method GetValue(key: string, ghost result: StorageResult) returns (m: Option<ResultCastMethod>)
      requires For(result)
      ensures m.Some? <==> key in {"as_string", "as_number", "as_boolean", "as_table"}
      ensures key == "as_string" ==> m.Some? && m.value.kind == AsString
      ensures key == "as_number" ==> m.Some? && m.value.kind == AsNumber
      ensures key == "as_boolean" ==> m.Some? && m.value.kind == AsBoolean
      ensures key == "as_table" ==> m.Some? && m.value.kind == AsTable
      ensures m.Some? <==> CastNamed(key).Some?
      ensures m.Some? ==> m.value.result == result && m.value.kind == CastNamed(key).value
    {
      if key == "as_string" {
        return Some(asStringMethod);
      } else if key == "as_number" {
        return Some(asNumberMethod);
      } else if key == "as_boolean" {
        return Some(asBooleanMethod);
      } else if key == "as_table" {
        return Some(asTableMethod);
      }
      m := None;
    }
  }

  // ----- What the casts answer -----

  lemma CastExtends(m: Memory, kind: Kind, text: string)
    requires m.Valid()
    ensures var r := Cast(m, kind, text);
            && Extends(m, r.mem, {})
            && (r.Pushed? ==> r.v != Nil)
            && (r.Refused? ==> |r.left| == if r.error.UnexpectedType? then 2 else 0)
  {
    NewTableExtends(m);
    if kind.AsTable? && J.FromString(text).Some? {
      PushExtends(m, J.FromString(text).value);
    }
  }

  /** A cast answers with a value and nil or with nil and a message, whatever was left below. */
  lemma AnswersAreExclusive(m: Memory, result: StorageResult, kind: Kind)
    requires m.Valid()
    ensures var (m', stack) := Answer(m, result, kind);
            && Extends(m, m', {})
            && |stack| >= 2
            && var first, second := stack[|stack| - 2], stack[|stack| - 1];
               && ((first != Nil && second == Nil) || (first == Nil && second.Text?))
               && (first != Nil <==> !result.isError && Cast(m, kind, result.value).Pushed?)
               && (first != Nil ==> first == Cast(m, kind, result.value).v)
               && (result.isError ==> second.Text? && IsCut(second.s, result.value))
  {
    CastExtends(m, kind, result.value);
  }

  // ----- Whole runs -----

  /** Calls by scripts of any projects, each with the fault the database chose for it. */
  datatype Call =
    | StoreCall(project: int, key: string, value: Tree, fault: Option<string>)
    | GetCall(project: int, key: string, fault: Option<string>)

  function Step(rows: Rows, call: Call): Rows {
    match call
    case StoreCall(project, key, value, fault) => StoreRows(rows, project, key, value, fault)
    case GetCall(_, _, _) => rows
  }

  function Run(rows: Rows, calls: seq<Call>): Rows {
    if calls == [] then rows else Step(Run(rows, calls[..|calls| - 1]), calls[|calls| - 1])
  }

  /** A store that reached the table under this project and key. */
  predicate Reaches(call: Call, project: int, key: string) {
    call.StoreCall? && call.project == project && call.key == key && Encode(call.value).Done? && call.fault.None?
  }

  function LastStored(calls: seq<Call>, project: int, key: string): Option<Tree> {
    if calls == [] then None
    else
      var last := calls[|calls| - 1];
      if Reaches(last, project, key) then Some(last.value) else LastStored(calls[..|calls| - 1], project, key)
  }

  lemma {:induction false} RowIsLastStored(calls: seq<Call>, project: int, key: string)
    ensures match LastStored(calls, project, key)
            case None => RowKey(project, key) !in Run(map[], calls)
            case Some(t) =>
              && Encode(t).Done?
              && RowKey(project, key) in Run(map[], calls)
              && Run(map[], calls)[RowKey(project, key)] == StoredText(Encode(t).json)
  {
    if calls != [] {
      RowIsLastStored(calls[..|calls| - 1], project, key);
    }
  }

  /** The method that fits a value. */
  function FittingCast(t: Tree): (name: string)
    ensures CastNamed(name).Some?
  {
    match t
    case Leaf(Text(_)) => "as_string"
    case Leaf(Numeric(_)) => "as_number"
    case Leaf(_) => "as_boolean"
    case Node(_) => "as_table"
  }

  /** The cast that fits can read the value's text: no table is empty, and no cut keys of one collide. */
  predicate Readable(t: Tree) { t.Node? ==> Nonempty(t) && CutKeysDistinct(t) }

  /**
   After any run, reading a key back with the fitting cast gives the value last
   stored there, cut and renumbered, exactly when it is readable; a key never
   stored is an error.
   */
  lemma ReadsLastWrite(m: Memory, calls: seq<Call>, project: int, key: string)
    requires m.Valid()
    ensures var result := ResultOf(Lookup(Run(map[], calls), project, key, None));
            match LastStored(calls, project, key)
            case None => result == StorageResult(NoSuchKey(key), true)
            case Some(t) =>
              var (m', stack) := Answer(m, result, CastNamed(FittingCast(t)).value);
              && Extends(m, m', {})
              && (Readable(t) ==>
                    && |stack| == 2 && stack[1] == Nil
                    && LooksLike(Slice(m'.heap, m.next, m'.next), stack[0], Normal(t)))
              && (!Readable(t) ==> |stack| >= 2 && stack[|stack| - 2] == Nil)
  {
    RowIsLastStored(calls, project, key);
    var stored := LastStored(calls, project, key);
    if stored.Some? {
      var t := stored.value;
      EncodesIffSerializable(t);
      var kind := CastNamed(FittingCast(t)).value;
      AnswersAreExclusive(m, ResultOf(Lookup(Run(map[], calls), project, key, None)), kind);
      if t.Node? {
        TableRoundTrip(m, t);
      } else {
        ScalarRoundTrip(m, t.v);
      }
    }
  }

  lemma {:induction false} OtherCallIsSkipped(
      before: seq<Call>, other: Call, after: seq<Call>, project: int, key: string)
    requires !Reaches(other, project, key)
    ensures LastStored(before + [other] + after, project, key) == LastStored(before + after, project, key)
    decreases |after|
  {
    var with, without := before + [other] + after, before + after;
    if after == [] {
      assert with[..|with| - 1] == before && without == before;
    } else {
      var shorter := after[..|after| - 1];
      assert with[..|with| - 1] == before + [other] + shorter;
      assert without[..|without| - 1] == before + shorter;
      OtherCallIsSkipped(before, other, shorter, project, key);
    }
  }

  /** Failed stores, reads, and stores of other projects or keys anywhere in a run change nothing a reader sees. */
  lemma OtherCallsDoNotMatter(
      before: seq<Call>, other: Call, after: seq<Call>, project: int, key: string, fault: Option<string>)
    requires !Reaches(other, project, key)
    ensures LastStored(before + [other] + after, project, key) == LastStored(before + after, project, key)
    ensures Lookup(Run(map[], before + [other] + after), project, key, fault) ==
            Lookup(Run(map[], before + after), project, key, fault)
  {
    OtherCallIsSkipped(before, other, after, project, key);
    RowIsLastStored(before + [other] + after, project, key);
    RowIsLastStored(before + after, project, key);
  }
}
