/**
 One execution of a script: the response goes into the script's environment
 before it runs and comes back from there afterwards, however the run ends.
 */
module Execution {
  import opened Common
  import opened Timeout
  import Decimals
  import Lua

  /**
   The host's own copies of values it shares with a script: objects that hold a
   table's contents themselves, where a value of the Lua state refers to a table.
   */
  datatype HostValue =
    | Nil
    | Str(s: string)
    | Num(n: Decimals.Number)
    | Tab(fields: map<string, HostValue>)
    | Other(id: nat)

  function OfInt(i: int): Decimals.Number { Decimals.Decimal(i < 0, if i < 0 then -i else i, [0]) }

  /** A number cast to an integer: the fraction is dropped. */
  function Truncate(n: Decimals.Number): int { if n.negative then 0 - n.whole else n.whole }

  /** How values that are not strings are turned into text. */
  type Show = HostValue -> string

  function TextOf(show: Show, t: HostValue): string { if t.Str? then t.s else show(t) }

  // ----- Responses -----

  function LowerChar(c: char): char { if 'A' <= c <= 'Z' then c + ('a' - 'A') else c }

  function Lower(s: string): string { seq(|s|, i requires 0 <= i < |s| => LowerChar(s[i])) }

  /** The same letter but for its case, as ASCII has it. */
  predicate SameLetter(c: char, d: char) {
    || c == d
    || ('A' <= c <= 'Z' && d as int == c as int + 32)
    || ('A' <= d <= 'Z' && c as int == d as int + 32)
  }

  predicate SameName(a: string, b: string) {
    |a| == |b| && forall i :: 0 <= i < |a| ==> SameLetter(a[i], b[i])
  }

  /** Names are filed together exactly when they differ in case only. */
  lemma FiledTogetherIff(a: string, b: string)
    ensures Lower(a) == Lower(b) <==> SameName(a, b)
  {
    if SameName(a, b) {
      assert forall i :: 0 <= i < |a| ==> LowerChar(a[i]) == LowerChar(b[i]);
    }
    if Lower(a) == Lower(b) {
      forall i | 0 <= i < |a|
        ensures SameLetter(a[i], b[i])
      {
        assert Lower(a)[i] == Lower(b)[i];
      }
    }
  }

  datatype Header = Header(name: string, value: string)

  /** Header names are compared without case: an entry is filed under its name in lower case. */
  type Headers = map<string, Header>

  predicate WellFiled(h: Headers) { forall k :: k in h ==> k == Lower(h[k].name) }

  datatype Response = Response(status: int, headers: Headers, body: string)

  const STATUS := "status"
  const HEADERS := "headers"
  const BODY := "body"

  // ----- Copying out: the native response becomes a table -----

  /** The table of headers under their own spellings. */
  ghost predicate IsHeaderTable(h: Headers, fields: map<string, HostValue>) {
    && (forall k :: k in h ==> h[k].name in fields)
    && (forall name :: name in fields ==> Lower(name) in h && h[Lower(name)].name == name
                                          && fields[name] == Str(h[Lower(name)].value))
  }

  /** The table a response is copied into; its body travels as a C string. */
  ghost predicate IsCopyOf(response: Response, table: HostValue) {
    && table.Tab? && table.fields.Keys == {STATUS, HEADERS, BODY}
    && table.fields[STATUS] == Num(OfInt(response.status))
    && table.fields[BODY] == Str(Lua.CString(response.body))
    && table.fields[HEADERS].Tab? && IsHeaderTable(response.headers, table.fields[HEADERS].fields)
  }

  /** What a script finds in its table, written out. */
  lemma ScriptSees(response: Response, table: HostValue)
    requires IsCopyOf(response, table)
    ensures table.Tab? && table.fields.Keys == {"status", "headers", "body"}
    ensures var status := response.status;
            table.fields["status"] == Num(Decimals.Decimal(status < 0, if status < 0 then -status else status, [0]))
    ensures table.fields["body"].Str? && Lua.IsCut(table.fields["body"].s, response.body)
    ensures table.fields["headers"].Tab?
    ensures forall k :: k in response.headers ==> response.headers[k].name in table.fields["headers"].fields
    ensures forall name :: name in table.fields["headers"].fields ==>
              exists k :: k in response.headers && response.headers[k].name == name
                          && table.fields["headers"].fields[name] == Str(response.headers[k].value)
  {
    assert Lua.IsCut(Lua.CString(response.body), response.body);
    forall name | name in table.fields["headers"].fields
      ensures exists k :: k in response.headers && response.headers[k].name == name
                          && table.fields["headers"].fields[name] == Str(response.headers[k].value)
    {
      assert Lower(name) in response.headers;
    }
  }

  class ExecutionContext {
    var response: Response

    constructor (response: Response)
      ensures this.response == response
    {
      this.response := response;
    }
  }

  /** Header values are moved out of the native response while the table is filled. */
  method PopulateLuaResponse(context: ExecutionContext) returns (table: HostValue)
    requires WellFiled(context.response.headers)
    modifies context
    ensures IsCopyOf(old(context.response), table)
    ensures context.response.headers.Keys == old(context.response.headers.Keys)
    ensures forall k :: k in context.response.headers ==> context.response.headers[k].value == ""
  {
    var native := context.response;
    var all := native.headers;
    var left := all.Keys;
    var fields: map<string, HostValue> := map[];
    while left != {}
      invariant left <= all.Keys && native.headers.Keys == all.Keys
      invariant native.status == context.response.status && native.body == context.response.body
      invariant forall k :: k in all && k !in left ==> all[k].name in fields && native.headers[k].value == ""
      invariant forall k :: k in left ==> native.headers[k] == all[k]
      invariant forall name :: name in fields ==>
                  Lower(name) in all && all[Lower(name)].name == name && fields[name] == Str(all[Lower(name)].value)
      decreases left
    {
      var k :| k in left;
      fields := fields[all[k].name := Str(native.headers[k].value)];
      native := native.(headers := native.headers[k := native.headers[k].(value := "")]);
      left := left - {k};
    }
    context.response := native;
    table := Tab(map[
      STATUS := Num(OfInt(native.status)), HEADERS := Tab(fields), BODY := Str(Lua.CString(native.body))]);
  }

  // ----- Copying back: a table becomes the native response -----

  /** A table the host can read a response from; with any other the destructor that reads it fails. */
  predicate Readable(t: HostValue) {
    && t.Tab? && STATUS in t.fields && HEADERS in t.fields && BODY in t.fields
    && t.fields[STATUS].Num? && t.fields[HEADERS].Tab?
  }

  /** The headers of a table; of names equal up to case any one may have come first. */
  ghost predicate IsNativeHeaders(show: Show, fields: map<string, HostValue>, h: Headers) {
    && (forall name :: name in fields ==> Lower(name) in h)
    && (forall k :: k in h ==>
          h[k].name in fields && Lower(h[k].name) == k && h[k].value == TextOf(show, fields[h[k].name]))
  }

  ghost predicate IsNative(show: Show, t: HostValue, r: Response)
    requires Readable(t)
  {
    && r.status == Truncate(t.fields[STATUS].n)
    && IsNativeHeaders(show, t.fields[HEADERS].fields, r.headers)
    && r.body == TextOf(show, t.fields[BODY])
  }

  method PopulateNativeResponse(show: Show, t: HostValue) returns (r: Response)
    requires Readable(t)
    ensures IsNative(show, t, r)
    ensures var n := t.fields["status"].n; r.status == if n.negative then 0 - n.whole else n.whole
    ensures r.body == match t.fields["body"] case Str(s) => s case other => show(other)
    ensures var fields := t.fields["headers"].fields;
            && (forall name :: name in fields ==> exists k :: k in r.headers && SameName(r.headers[k].name, name))
            && (forall k :: k in r.headers ==>
                  var h := r.headers[k];
                  h.name in fields && h.value == match fields[h.name] case Str(s) => s case other => show(other))
            && (forall k, k' :: k in r.headers && k' in r.headers && SameName(r.headers[k].name, r.headers[k'].name)
                  ==> k == k')
  {
    var fields := t.fields[HEADERS].fields;
    var left := fields.Keys;
    var headers: Headers := map[];
    while left != {}
      invariant left <= fields.Keys
      invariant forall name :: name in fields && name !in left ==> Lower(name) in headers
      invariant forall k :: k in headers ==>
                  headers[k].name in fields && Lower(headers[k].name) == k
                  && headers[k].value == TextOf(show, fields[headers[k].name])
      decreases left
    {
      var name :| name in left;
      if Lower(name) !in headers {
        headers := headers[Lower(name) := Header(name, TextOf(show, fields[name]))];
      }
      left := left - {name};
    }
    r := Response(Truncate(t.fields[STATUS].n), headers, TextOf(show, t.fields[BODY]));
    forall name | name in fields
      ensures Lower(name) in headers && SameName(headers[Lower(name)].name, name)
    {
      FiledTogetherIff(headers[Lower(name)].name, name);
    }
    forall k, k' | k in headers && k' in headers && SameName(headers[k].name, headers[k'].name)
      ensures k == k'
    {
      FiledTogetherIff(headers[k].name, headers[k'].name);
    }
  }

  /** Copying a response out and straight back changes nothing but a body with a NUL in it. */
  lemma CopyOutAndBack(show: Show, original: Response, table: HostValue, back: Response)
    requires WellFiled(original.headers)
    requires IsCopyOf(original, table)
    requires IsNative(show, table, back)
    ensures back == original.(body := Lua.CString(original.body))
  {
    var h, fields := original.headers, table.fields[HEADERS].fields;
    forall k | k in h
      ensures k in back.headers && back.headers[k] == h[k]
    {
      assert h[k].name in fields && Lower(h[k].name) == k;
      assert back.headers[k].name in fields;
    }
    assert back.headers == h;
  }

  // ----- Variables shared with the script -----

  type Vars = map<string, HostValue>

  const RESPONSE := "miet_http_context_outgoing_response"

  class Environment {
    var vars: Vars

    constructor (vars: Vars)
      ensures this.vars == vars
    {
      this.vars := vars;
    }
  }

  /** The globals of the Lua state; a missing one is nil. */
  class Globals {
    var vars: Vars

    constructor ()
      ensures vars == map[]
    {
      vars := map[];
    }
  }

  /** A table variable can only be read back from a table. */
  predicate CanReadBack(env: Vars, globals: Vars) {
    forall name :: name in env && env[name].Tab? ==> name in globals && globals[name].Tab?
  }

  function ReadBack(env: Vars, globals: Vars): Vars {
    map name | name in env :: if name in globals then globals[name] else Nil
  }

  lemma PublishOne(before: Vars, env: Vars, left: set<string>, name: string)
    requires left <= env.Keys && name in left
    ensures (before + (env - left))[name := env[name]] == before + (env - (left - {name}))
  {
  }

  /** The environment after a script: read back unless an exception is under way. */
  function Returned(env: Vars, globals: Vars, uncaughtExceptions: nat): Vars {
    if uncaughtExceptions == 0 then ReadBack(env, globals) else env
  }

  /** The guard around a script: it publishes the variables, and reads them back on a normal exit. */
  class ExecutionGuard {
    const context: ExecutionContext
    const env: Environment
    const globals: Globals

    constructor (context: ExecutionContext, env: Environment, globals: Globals)
      requires WellFiled(context.response.headers) && RESPONSE !in env.vars
      modifies context, env, globals
      ensures this.context == context && this.env == env && this.globals == globals
      ensures RESPONSE in env.vars && IsCopyOf(old(context.response), env.vars[RESPONSE])
      ensures env.vars == old(env.vars)[RESPONSE := env.vars[RESPONSE]]
      ensures globals.vars == old(globals.vars) + env.vars
    {
      this.context, this.env, this.globals := context, env, globals;
      new;
      var table := PopulateLuaResponse(context);
      env.vars := env.vars[RESPONSE := table];
      var left, before := env.vars.Keys, globals.vars;
      while left != {}
        invariant left <= env.vars.Keys
        invariant globals.vars == before + (env.vars - left)
        modifies globals
        decreases left
      {
        var name :| name in left;
        PublishOne(before, env.vars, left, name);
        globals.vars := globals.vars[name := env.vars[name]];
        left := left - {name};
      }
      assert env.vars - {} == env.vars;
    }

    /** Both destructors: the guard's own and then that of the context inside it. */
    method Destroy(show: Show, uncaughtExceptions: nat) returns (ok: bool)
      requires RESPONSE in env.vars
      modifies context, env
      ensures ok <==>
                && (uncaughtExceptions == 0 ==> CanReadBack(old(env.vars), globals.vars))
                && Readable(Returned(old(env.vars), globals.vars, uncaughtExceptions)[RESPONSE])
      ensures ok ==>
                && env.vars == Returned(old(env.vars), globals.vars, uncaughtExceptions)
                && IsNative(show, env.vars[RESPONSE], context.response)
    {
      if uncaughtExceptions == 0 {
        ok := PopGlobals();
        if !ok {
          return;
        }
      }
      if !Readable(env.vars[RESPONSE]) {
        return false;
      }
      context.response := PopulateNativeResponse(show, env.vars[RESPONSE]);
      ok := true;
    }

    method PopGlobals() returns (ok: bool)
      modifies env
      ensures ok <==>
                forall name :: name in old(env.vars) && old(env.vars)[name].Tab? ==>
                  name in globals.vars && globals.vars[name].Tab?
      ensures ok ==>
                && env.vars.Keys == old(env.vars).Keys
                && forall name :: name in env.vars ==>
                     env.vars[name] == if name in globals.vars then globals.vars[name] else Nil
      ensures ok <==> CanReadBack(old(env.vars), globals.vars)
      ensures ok ==> env.vars == ReadBack(old(env.vars), globals.vars)
    {
      ghost var before := env.vars;
      var left := env.vars.Keys;
      while left != {}
        invariant left <= before.Keys && env.vars.Keys == before.Keys
        invariant forall name :: name in left ==> env.vars[name] == before[name]
        invariant forall name :: name in before && name !in left ==>
                    && env.vars[name] == ReadBack(before, globals.vars)[name]
                    && (before[name].Tab? ==> name in globals.vars && globals.vars[name].Tab?)
        decreases left
      {
        var name :| name in left;
        var value := if name in globals.vars then globals.vars[name] else Nil;
        if env.vars[name].Tab? && !value.Tab? {
          assert before[name].Tab?;
          return false;
        }
        env.vars := env.vars[name := value];
        left := left - {name};
      }
      ok := true;
    }
  }

  // ----- The execution -----

  datatype Failure = OutOfMemoryLimit | ExecutionError | ExecutionTimeout

  /** How the protected call of a script that ended comes back. */
  datatype VmEnd = Ok | MemoryError | RuntimeError

  /** A script on a Lua machine: where it starts, how it goes on, and what a final state amounts to. */
  datatype Machine<!S> = Machine(start: S, step: S -> Next<S>, endOf: S -> VmEnd, globalsOf: S -> Vars) {
    /** The run under the hook, on a clock that tells the time after each count of instructions. */
    function RunFor(clock: nat -> int, deadline: int, n: nat): Progress<S> {
      Run(step, clock, deadline, start, n)
    }
  }

  /** The first `n` instructions of the protected call, with the hook after each period. */
  method RunScript<S>(L: Lua.LuaState, checker: TimeoutChecker, machine: Machine<S>, clock: nat -> int, n: nat)
    returns (r: Progress<S>)
    modifies L`stack, L`peak
    ensures r == machine.RunFor(clock, checker.deadline, n)
    ensures L.stack == old(L.stack) + if r.TimedOut? then [CHECKER] else []
  {
    var s, count := machine.start, 0;
    while count < n
      invariant count <= n && machine.RunFor(clock, checker.deadline, count) == Running(s, count)
      invariant L.stack == old(L.stack)
    {
      var next := machine.step(s);
      s, count := next.s, count + 1;
      if next.End? {
        StoppedStays(machine.step, clock, checker.deadline, machine.start, count, n);
        return Ended(s, count);
      }
      if count % PERIOD == 0 {
        var raised := Check(L, checker, clock(count));
        if raised {
          StoppedStays(machine.step, clock, checker.deadline, machine.start, count, n);
          return TimedOut(s, count);
        }
      }
    }
    r := Running(s, count);
  }

  /** `Terminated` stands for an exception leaving a destructor, `Unfinished` for a call that has not come back yet. */
  datatype Outcome = Completed | Raised(failure: Failure) | Terminated | Unfinished

  function FailureOf<S>(machine: Machine<S>, run: Progress<S>): Option<Failure>
    requires !run.Running?
  {
    match run
    case TimedOut(_, _) => Some(ExecutionTimeout)
    case Ended(s, _) =>
      match machine.endOf(s)
      case Ok => None
      case MemoryError => Some(OutOfMemoryLimit)
      case RuntimeError => Some(ExecutionError)
  }

  /** The script's globals give every shared table back as a table, the response as a readable one. */
  predicate GivesBack(vars: Vars, globals: Vars) {
    && (forall name :: name in vars && vars[name].Tab? ==> name in globals && globals[name].Tab?)
    && RESPONSE in globals && Readable(globals[RESPONSE])
  }

  /** What reading back a guarded environment amounts to. */
  lemma ReadsBackIffGiven(vars: Vars, table: HostValue, globals: Vars)
    requires RESPONSE !in vars && table.Tab?
    ensures var env := vars[RESPONSE := table];
            && (CanReadBack(env, globals) && Readable(ReadBack(env, globals)[RESPONSE]) <==> GivesBack(vars, globals))
            && (RESPONSE in globals ==> ReadBack(env, globals)[RESPONSE] == globals[RESPONSE])
  {
    var env := vars[RESPONSE := table];
    assert forall name :: name in vars ==> name in env && env[name] == vars[name];
  }

  /** Leaving the call, by return or by the exception of a failure: the guard is destroyed on the way. */
  method Leave(guard: ExecutionGuard, show: Show, failure: Option<Failure>, pendingExceptions: nat,
               ghost vars: Vars, ghost original: Response, ghost table: HostValue)
    returns (r: Outcome)
    requires RESPONSE !in vars && guard.env.vars == vars[RESPONSE := table]
    requires WellFiled(original.headers) && IsCopyOf(original, table)
    modifies guard.context, guard.env
    ensures failure.Some? ==> r == Raised(failure.value)
    ensures failure.None? ==>
              && r == (if pendingExceptions == 0 && !GivesBack(vars, guard.globals.vars) then Terminated else Completed)
              && (pendingExceptions == 0 && r.Completed? ==>
                    IsNative(show, guard.globals.vars[RESPONSE], guard.context.response))
    ensures failure.Some? || pendingExceptions > 0 ==>
              guard.context.response == original.(body := Lua.CString(original.body))
  {
    ReadsBackIffGiven(vars, table, guard.globals.vars);
    assert Readable(table);
    var ok := guard.Destroy(show, if failure.Some? then pendingExceptions + 1 else pendingExceptions);
    if !ok {
      return Terminated;
    }
    if failure.Some? || pendingExceptions > 0 {
      CopyOutAndBack(show, original, table, guard.context.response);
    }
    r := if failure.Some? then Raised(failure.value) else Completed;
  }

  /** The same written out: each table variable is a table again, and the response has its three parts. */
  lemma GivesBackIff(vars: Vars, globals: Vars)
    ensures GivesBack(vars, globals) <==>
            && (forall name :: name in vars && vars[name].Tab? ==> name in globals && globals[name].Tab?)
            && "miet_http_context_outgoing_response" in globals
            && var t := globals["miet_http_context_outgoing_response"];
               && t.Tab? && "status" in t.fields && "headers" in t.fields && "body" in t.fields
               && t.fields["status"].Num? && t.fields["headers"].Tab?
  {
  }

  /**
   `vars` are the variables the executor shares besides the response, and
   `pendingExceptions` counts the exceptions already under way when it is called.
   The clock tells the time after each count of instructions.  The call is watched
   for `n` instructions of the script: any number will do, and from the one that
   ends the script or raises the timeout on the outcome is the same.
   */
  method Execute<S>(
      context: ExecutionContext, vars: Vars, show: Show, pendingExceptions: nat,
      L: Lua.LuaState, checker: TimeoutChecker, machine: Machine<S>, clock: nat -> int, n: nat)
    returns (r: Outcome)
    requires WellFiled(context.response.headers) && RESPONSE !in vars
    modifies context, checker, L`stack, L`peak
    ensures checker.deadline == clock(0) + checker.timeout
    ensures r == Raised(ExecutionTimeout) <==>
            exists k: nat :: k <= n && ExpiresAt(machine.step, clock, checker.deadline, machine.start, k)
    ensures var run := machine.RunFor(clock, clock(0) + checker.timeout, n);
            if run.Running? then r == Unfinished
            else
              match FailureOf(machine, run)
              case None =>
                var globals := machine.globalsOf(run.s);
                && r == (if pendingExceptions == 0 && !GivesBack(vars, globals) then Terminated else Completed)
                && (pendingExceptions == 0 && r.Completed? ==> IsNative(show, globals[RESPONSE], context.response))
              case Some(failure) => r == Raised(failure)
    ensures var run := machine.RunFor(clock, clock(0) + checker.timeout, n);
            run.Ended? ==>
              && (r == Raised(OutOfMemoryLimit) <==> machine.endOf(run.s) == MemoryError)
              && (r == Raised(ExecutionError) <==> machine.endOf(run.s) == RuntimeError)
              && (!r.Raised? <==> machine.endOf(run.s) == Ok)
    ensures r.Raised? || (pendingExceptions > 0 && !r.Unfinished?) ==>
              && context.response == old(context.response).(body := Lua.CString(old(context.response.body)))
              && (context.response == old(context.response) <==> '\0' !in old(context.response.body))
  {
    var env := new Environment(vars);
    var globals := new Globals();
    var guard := new ExecutionGuard(context, env, globals);
    ghost var original, table := old(context.response), env.vars[RESPONSE];

    checker.Start(clock(0));
    var run := RunScript(L, checker, machine, clock, n);
    TimedOutWithin(machine.step, clock, checker.deadline, machine.start, n);
    if run.Running? {
      return Unfinished;
    }

    globals.vars := machine.globalsOf(run.s);
    r := Leave(guard, show, FailureOf(machine, run), pendingExceptions, vars, original, table);
  }
}
