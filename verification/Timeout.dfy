/**
 The time limit of a run: a count hook that looks at the clock, on top of a Lua
 machine about which nothing is assumed.
 */
module Timeout {
  import opened Common
  import opened Lua

  /** Instructions between two looks at the clock. */
  const PERIOD: nat := 100

  class TimeoutChecker {
    const timeout: nat
    var deadline: int

    constructor (timeout: nat)
      ensures this.timeout == timeout
    {
      this.timeout := timeout;
      deadline := 0;
    }

    method Start(now: int)
      modifies this
      ensures deadline == now + timeout
    {
      deadline := now + timeout;
    }

    predicate IsExpired(now: int)
      reads this
    {
      deadline < now
    }
  }

  /** The userdata under which the hook finds its checker. */
  const CHECKER := Opaque(1)

  /** The hook: it leaves the stack as it was, except for one slot when it raises. */
  method Check(L: LuaState, checker: TimeoutChecker, now: int) returns (raised: bool)
    modifies L`stack, L`peak
    ensures raised <==> checker.deadline < now
    ensures L.stack == old(L.stack) + if raised then [CHECKER] else []
  {
    L.Push(CHECKER);
    if checker.IsExpired(now) {
      return true;
    }
    L.Pop(1);
    raised := false;
  }

  // ----- A run under the hook -----

  /** One instruction takes the machine to another state or ends the script. */
  datatype Next<S> = More(s: S) | End(s: S)

  /** How far a run has come: the count is the number of instructions executed. */
  datatype Progress<S> = Running(s: S, count: nat) | Ended(s: S, count: nat) | TimedOut(s: S, count: nat)

  /**
   The machine after at most `n` instructions.  The clock tells the time after each
   count of instructions; the hook runs after every hundredth one that does not
   end the script.
   */
  function Run<S>(step: S -> Next<S>, clock: nat -> int, deadline: int, s: S, n: nat): Progress<S> {
    if n == 0 then Running(s, 0)
    else
      match Run(step, clock, deadline, s, n - 1)
      case Running(s', count) =>
        (match step(s')
         case End(s'') => Ended(s'', n)
         case More(s'') => if n % PERIOD == 0 && deadline < clock(n) then TimedOut(s'', n) else Running(s'', n))
      case Ended(s', count) => Ended(s', count)
      case TimedOut(s', count) => TimedOut(s', count)
  }

  ghost predicate Monotone(clock: nat -> int) {
    forall i: nat, k: nat :: i <= k ==> clock(i) <= clock(k)
  }

  /** The machine on its own, without any hook. */
  function Free<S>(step: S -> Next<S>, s: S, n: nat): Option<S> {
    if n == 0 then Some(s)
    else
      match Free(step, s, n - 1)
      case None => None
      case Some(s') =>
        match step(s')
        case End(_) => None
        case More(s'') => Some(s'')
  }

  /** A moment at which the hook finds the deadline passed. */
  predicate Expiry(clock: nat -> int, deadline: int, k: nat) { k > 0 && k % PERIOD == 0 && deadline < clock(k) }

  /** The hook has not found the deadline passed so far. */
  ghost predicate Quiet(clock: nat -> int, deadline: int, n: nat) {
    forall k: nat :: k <= n ==> !Expiry(clock, deadline, k)
  }

  lemma {:induction false} FreeEarlier<S>(step: S -> Next<S>, s: S, k: nat, n: nat)
    requires k <= n && Free(step, s, n).Some?
    ensures Free(step, s, k).Some?
    decreases n
  {
    if k < n {
      FreeEarlier(step, s, k, n - 1);
    }
  }

  lemma {:induction false} RunIs<S>(step: S -> Next<S>, clock: nat -> int, deadline: int, s: S, n: nat)
    ensures var r := Run(step, clock, deadline, s, n);
            && r.count <= n
            && (r.Running? <==> Free(step, s, n).Some? && Quiet(clock, deadline, n))
            && (r.Running? ==> r.count == n && Free(step, s, n) == Some(r.s))
            && (r.TimedOut? ==> Expiry(clock, deadline, r.count) && Free(step, s, r.count) == Some(r.s)
                                && Quiet(clock, deadline, r.count - 1))
            && (r.Ended? ==> r.count > 0 && Free(step, s, r.count).None? && Free(step, s, r.count - 1).Some?
                             && Quiet(clock, deadline, r.count - 1))
  {
    if n > 0 {
      RunIs(step, clock, deadline, s, n - 1);
      match Run(step, clock, deadline, s, n - 1)
      case Running(s', _) =>
        assert Free(step, s, n) == match step(s') case End(_) => None case More(s'') => Some(s'');
        if Expiry(clock, deadline, n) {
          assert !Quiet(clock, deadline, n);
        } else {
          assert Quiet(clock, deadline, n);
        }
      case Ended(_, count) =>
        if Free(step, s, n).Some? {
          FreeEarlier(step, s, count, n);
        }
      case TimedOut(_, count) =>
        assert Expiry(clock, deadline, count);
        assert !Quiet(clock, deadline, n);
    }
  }

  /** The script is still going after `k` instructions, and `k` is the first expiry. */
  ghost predicate ExpiresAt<S>(step: S -> Next<S>, clock: nat -> int, deadline: int, s: S, k: nat) {
    Expiry(clock, deadline, k) && Free(step, s, k).Some? && Quiet(clock, deadline, k - 1)
  }

  /** The run is over after `n` instructions at most, with the timeout raised at the `k`-th. */
  ghost predicate TimesOut<S>(step: S -> Next<S>, clock: nat -> int, deadline: int, s: S, n: nat, k: nat) {
    var r := Run(step, clock, deadline, s, n);
    r.TimedOut? && r.count == k
  }

  lemma TimesOutOnlyAt<S>(step: S -> Next<S>, clock: nat -> int, deadline: int, s: S, n: nat, k: nat)
    requires TimesOut(step, clock, deadline, s, n, k)
    ensures ExpiresAt(step, clock, deadline, s, k)
  {
    RunIs(step, clock, deadline, s, n);
  }

  lemma TimesOutAt<S>(step: S -> Next<S>, clock: nat -> int, deadline: int, s: S, k: nat)
    requires ExpiresAt(step, clock, deadline, s, k)
    ensures Run(step, clock, deadline, s, k) == TimedOut(Free(step, s, k).value, k)
  {
    FreeEarlier(step, s, k - 1, k);
    RunIs(step, clock, deadline, s, k - 1);
  }

  /**
   The timeout is raised after exactly `k` instructions if and only if the script
   is still going then and `k` is the first multiple of the period at which the
   clock has passed the deadline.
   */
  lemma TimesOutExactlyAt<S>(step: S -> Next<S>, clock: nat -> int, deadline: int, s: S, k: nat)
    ensures (exists n :: TimesOut(step, clock, deadline, s, n, k)) <==> ExpiresAt(step, clock, deadline, s, k)
  {
    if n :| TimesOut(step, clock, deadline, s, n, k) {
      TimesOutOnlyAt(step, clock, deadline, s, n, k);
    }
    if ExpiresAt(step, clock, deadline, s, k) {
      TimesOutAt(step, clock, deadline, s, k);
      assert TimesOut(step, clock, deadline, s, k, k);
    }
  }

  /** The machine takes one step after another, `n` in all. */
  ghost predicate Steps<S>(step: S -> Next<S>, s: S, ss: seq<S>, n: nat) {
    |ss| == n + 1 && ss[0] == s && forall i :: 0 <= i < n ==> step(ss[i]) == More(ss[i + 1])
  }

  /** The machine takes `k` steps, the last of which ends the script. */
  ghost predicate StepsToEnd<S>(step: S -> Next<S>, s: S, ss: seq<S>, k: nat, last: S) {
    k > 0 && Steps(step, s, ss, k - 1) && step(ss[k - 1]) == End(last)
  }

  lemma {:induction false} FreeSteps<S>(step: S -> Next<S>, s: S, n: nat) returns (ss: seq<S>)
    requires Free(step, s, n).Some?
    ensures Steps(step, s, ss, n) && ss[n] == Free(step, s, n).value
  {
    if n == 0 {
      ss := [s];
    } else {
      var before := FreeSteps(step, s, n - 1);
      ss := before + [Free(step, s, n).value];
    }
  }

  lemma {:induction false} StepsAreFree<S>(step: S -> Next<S>, s: S, ss: seq<S>, n: nat)
    requires Steps(step, s, ss, n)
    ensures Free(step, s, n) == Some(ss[n])
  {
    if n > 0 {
      StepsAreFree(step, s, ss[..n], n - 1);
    }
  }

  /** The same written out: the script takes `k` steps, and of the multiples of 100 `k` is the first one too late. */
  lemma TimesOutIff<S>(step: S -> Next<S>, clock: nat -> int, deadline: int, s: S, k: nat)
    ensures (exists n :: TimesOut(step, clock, deadline, s, n, k)) <==>
            && k > 0 && k % 100 == 0 && deadline < clock(k)
            && (forall i: nat :: 0 < i < k && i % 100 == 0 ==> clock(i) <= deadline)
            && exists ss :: Steps(step, s, ss, k)
  {
    TimesOutExactlyAt(step, clock, deadline, s, k);
    if Free(step, s, k).Some? {
      var ss := FreeSteps(step, s, k);
    }
    if ss :| Steps(step, s, ss, k) {
      StepsAreFree(step, s, ss, k);
    }
    if k > 0 && Quiet(clock, deadline, k - 1) {
      forall i: nat | 0 < i < k && i % 100 == 0
        ensures clock(i) <= deadline
      {
        assert !Expiry(clock, deadline, i);
      }
    }
  }

  /** The script ends by itself after `k` instructions if its last step ends it and no multiple of 100 came too late. */
  lemma EndsIff<S>(step: S -> Next<S>, clock: nat -> int, deadline: int, s: S, n: nat, k: nat, last: S)
    requires 0 < k <= n
    ensures Run(step, clock, deadline, s, n) == Ended(last, k) <==>
            && (forall i: nat :: 0 < i < k && i % 100 == 0 ==> clock(i) <= deadline)
            && exists ss :: StepsToEnd(step, s, ss, k, last)
  {
    if Run(step, clock, deadline, s, n) == Ended(last, k) {
      EndedAfter(step, clock, deadline, s, n, k, last);
    }
    if (forall i: nat :: 0 < i < k && i % 100 == 0 ==> clock(i) <= deadline) {
      if ss :| StepsToEnd(step, s, ss, k, last) {
        StepsAreFree(step, s, ss, k - 1);
        EndsUndisturbed(step, clock, deadline, s, k);
        StoppedStays(step, clock, deadline, s, k, n);
      }
    }
  }

  lemma EndedAfter<S>(step: S -> Next<S>, clock: nat -> int, deadline: int, s: S, n: nat, k: nat, last: S)
    requires 0 < k <= n && Run(step, clock, deadline, s, n) == Ended(last, k)
    ensures forall i: nat :: 0 < i < k && i % 100 == 0 ==> clock(i) <= deadline
    ensures exists ss :: StepsToEnd(step, s, ss, k, last)
  {
    RunIs(step, clock, deadline, s, n);
    forall i: nat | 0 < i < k && i % 100 == 0
      ensures clock(i) <= deadline
    {
      assert !Expiry(clock, deadline, i);
    }
    var ss := FreeSteps(step, s, k - 1);
    assert Steps(step, s, ss, k - 1);
    EndsUndisturbed(step, clock, deadline, s, k);
    StoppedStays(step, clock, deadline, s, k, n);
    assert StepsToEnd(step, s, ss, k, last);
  }

  lemma {:induction false} StoppedStays<S>(step: S -> Next<S>, clock: nat -> int, deadline: int, s: S, k: nat, n: nat)
    requires k <= n && !Run(step, clock, deadline, s, k).Running?
    ensures Run(step, clock, deadline, s, n) == Run(step, clock, deadline, s, k)
    decreases n
  {
    if k < n {
      StoppedStays(step, clock, deadline, s, k, n - 1);
    }
  }

  /** A run stops in one way only. */
  lemma StopsOnce<S>(step: S -> Next<S>, clock: nat -> int, deadline: int, s: S, k: nat, n: nat)
    requires !Run(step, clock, deadline, s, n).Running?
    ensures k >= n || !Run(step, clock, deadline, s, k).Running? ==>
              Run(step, clock, deadline, s, k) == Run(step, clock, deadline, s, n)
  {
    if k >= n {
      StoppedStays(step, clock, deadline, s, n, k);
    } else if !Run(step, clock, deadline, s, k).Running? {
      StoppedStays(step, clock, deadline, s, k, n);
    }
  }

  /** A run that has stopped was timed out if and only if there is a moment of expiry. */
  lemma StopsExactlyAt<S>(step: S -> Next<S>, clock: nat -> int, deadline: int, s: S, n: nat)
    requires !Run(step, clock, deadline, s, n).Running?
    ensures Run(step, clock, deadline, s, n).TimedOut? <==> exists k :: ExpiresAt(step, clock, deadline, s, k)
  {
    if Run(step, clock, deadline, s, n).TimedOut? {
      TimesOutOnlyAt(step, clock, deadline, s, n, Run(step, clock, deadline, s, n).count);
    }
    if k :| ExpiresAt(step, clock, deadline, s, k) {
      TimesOutAt(step, clock, deadline, s, k);
      StopsOnce(step, clock, deadline, s, k, n);
    }
  }

  /** A run was timed out within `n` instructions if and only if there is a moment of expiry among them. */
  lemma TimedOutWithin<S>(step: S -> Next<S>, clock: nat -> int, deadline: int, s: S, n: nat)
    ensures Run(step, clock, deadline, s, n).TimedOut? <==>
            exists k: nat :: k <= n && ExpiresAt(step, clock, deadline, s, k)
  {
    RunIs(step, clock, deadline, s, n);
    if Run(step, clock, deadline, s, n).TimedOut? {
      TimesOutOnlyAt(step, clock, deadline, s, n, Run(step, clock, deadline, s, n).count);
    }
    if k: nat :| k <= n && ExpiresAt(step, clock, deadline, s, k) {
      TimesOutAt(step, clock, deadline, s, k);
      StoppedStays(step, clock, deadline, s, k, n);
    }
  }

  /** On a monotone clock, all instructions but the last hundred were executed in time. */
  lemma OverrunIsBounded<S>(step: S -> Next<S>, clock: nat -> int, deadline: int, s: S, n: nat, j: nat)
    requires Monotone(clock) && clock(0) <= deadline
    requires Run(step, clock, deadline, s, n).TimedOut?
    requires j + PERIOD <= Run(step, clock, deadline, s, n).count
    ensures clock(j) <= deadline
  {
    RunIs(step, clock, deadline, s, n);
    var k := Run(step, clock, deadline, s, n).count;
    assert !Expiry(clock, deadline, k - PERIOD);
    assert clock(j) <= clock(k - PERIOD);
  }

  /** If the clock ever passes the deadline, the run stops, within a hundred instructions of that moment. */
  lemma StopsAfterDeadline<S>(step: S -> Next<S>, clock: nat -> int, deadline: int, s: S, late: nat)
    requires Monotone(clock) && deadline < clock(late)
    ensures !Run(step, clock, deadline, s, late + PERIOD).Running?
  {
    var n := late + PERIOD;
    var k := n - n % PERIOD;
    RunIs(step, clock, deadline, s, n);
    assert k % PERIOD == 0 && late < k <= n;
    assert clock(late) <= clock(k);
    assert Expiry(clock, deadline, k);
  }

  /** A script that ends before the first expiry is not disturbed by the hook. */
  lemma {:induction false} EndsUndisturbed<S>(step: S -> Next<S>, clock: nat -> int, deadline: int, s: S, n: nat)
    requires n > 0 && Free(step, s, n - 1).Some? && Free(step, s, n).None?
    requires Quiet(clock, deadline, n - 1)
    ensures Run(step, clock, deadline, s, n) == Ended(step(Free(step, s, n - 1).value).s, n)
  {
    RunIs(step, clock, deadline, s, n - 1);
  }
}
