/**
 The scripts storage under concurrency: any number of threads, each between two
 of its atomic sections, and a database that other programs change.
 */
module CacheRuns {
  import opened Common
  import opened Scripts

  type ThreadId = nat

  /** Where a call stands: the cache is locked only while looking and while putting. */
  datatype Thread =
    | Looking(id: ScriptId)
    | Fetching(id: ScriptId)
    | Putting(id: ScriptId, script: Script)
    | Finished(id: ScriptId, script: Script, hit: bool)
    | Refreshing(id: ScriptId)
    | Republishing(id: ScriptId, script: Script)

  /** A thread that is not in the map is in no call. */
  datatype State = State(db: Database, cache: Cache, threads: map<ThreadId, Thread>)

  datatype Action =
    | CallGet(t: ThreadId, id: ScriptId)
    | Look(t: ThreadId)
    | Fetch(t: ThreadId)
    | Put(t: ThreadId)
    | Return(t: ThreadId)
    | CallRefresh(t: ThreadId, id: ScriptId)
    | Throw(t: ThreadId)
    | WriteRow(id: ScriptId, row: Row)

  /** One step: capacity 0 stands for a storage that does not use its cache. */
  ghost predicate Step(capacity: nat, compiles: Compiler, s: State, a: Action, s': State) {
    match a
    case CallGet(t, id) =>
      && t !in s.threads
      && s' == s.(threads := s.threads[t := if capacity == 0 then Fetching(id) else Looking(id)])
    case Look(t) =>
      && t in s.threads && s.threads[t].Looking?
      && var id := s.threads[t].id;
         s' == s.(threads := s.threads[t := if id in s.cache then Finished(id, s.cache[id], true) else Fetching(id)])
    case Fetch(t) =>
      && t in s.threads && (s.threads[t].Fetching? || s.threads[t].Refreshing?)
      && var id := s.threads[t].id;
         var r := Load(s.db, compiles, id);
         && r.Loaded?
         && s' == s.(threads := s.threads[t :=
              if s.threads[t].Refreshing? then Republishing(id, r.script)
              else if capacity == 0 then Finished(id, r.script, false)
              else Putting(id, r.script)])
    case Put(t) =>
      && t in s.threads && (s.threads[t].Putting? || s.threads[t].Republishing?)
      && var (id, script) := (s.threads[t].id, s.threads[t].script);
         && Puts(capacity, s.cache, id, script, s'.cache)
         && s' == State(s.db, s'.cache,
              if s.threads[t].Putting? then s.threads[t := Finished(id, script, false)] else s.threads - {t})
    case Return(t) =>
      t in s.threads && s.threads[t].Finished? && s' == s.(threads := s.threads - {t})
    case CallRefresh(t, id) =>
      t !in s.threads && s' == s.(threads := s.threads[t := Refreshing(id)])
    case Throw(t) =>
      // the row is missing, does not compile, or the database cannot be reached
      && t in s.threads && (s.threads[t].Fetching? || s.threads[t].Refreshing?)
      && s' == s.(threads := s.threads - {t})
    case WriteRow(id, row) =>
      s' == s.(db := s.db[id := row])
  }

  ghost predicate IsTrace(capacity: nat, compiles: Compiler, ss: seq<State>, acts: seq<Action>) {
    && |ss| == |acts| + 1
    && forall i :: 0 <= i < |acts| ==> Step(capacity, compiles, ss[i], acts[i], ss[i + 1])
  }

  /** The script is the row of its id in this state: under that id, with the row's project and source. */
  ghost predicate Current(s: State, id: ScriptId, script: Script) {
    id in s.db && script.id == id && script.project == s.db[id].project && script.code == s.db[id].source
  }

  ghost predicate Carries(th: Thread) { th.Putting? || th.Finished? || th.Republishing? }

  /** Some state between two moments had this script as the row's. */
  ghost predicate CurrentWithin(ss: seq<State>, lo: nat, hi: nat, id: ScriptId, script: Script)
    requires lo <= hi < |ss|
  {
    exists j :: lo <= j <= hi && Current(ss[j], id, script)
  }

  lemma WithinLater(ss: seq<State>, lo: nat, hi: nat, id: ScriptId, script: Script)
    requires lo <= hi < |ss| - 1 && CurrentWithin(ss, lo, hi, id, script)
    ensures CurrentWithin(ss, lo, hi + 1, id, script)
  {
    var j :| lo <= j <= hi && Current(ss[j], id, script);
  }

  // ----- No mixing -----

  /** Everything in the cache and in the hands of a thread was one row of its id at some moment. */
  lemma {:induction false} NoMixing(capacity: nat, compiles: Compiler, ss: seq<State>, acts: seq<Action>, i: nat)
    requires IsTrace(capacity, compiles, ss, acts) && i < |ss|
    requires ss[0].cache == map[] && ss[0].threads == map[]
    ensures forall id :: id in ss[i].cache ==> CurrentWithin(ss, 0, i, id, ss[i].cache[id])
    ensures forall t :: t in ss[i].threads && Carries(ss[i].threads[t]) ==>
              CurrentWithin(ss, 0, i, ss[i].threads[t].id, ss[i].threads[t].script)
  {
    if i > 0 {
      var s, s' := ss[i - 1], ss[i];
      NoMixing(capacity, compiles, ss, acts, i - 1);
      assert Step(capacity, compiles, s, acts[i - 1], s');
      forall id | id in s.cache {
        WithinLater(ss, 0, i - 1, id, s.cache[id]);
      }
      forall t | t in s.threads && Carries(s.threads[t]) {
        WithinLater(ss, 0, i - 1, s.threads[t].id, s.threads[t].script);
      }
      forall t | acts[i - 1] == Fetch(t) && t in s.threads && t in s'.threads && Carries(s'.threads[t])
        ensures CurrentWithin(ss, 0, i, s'.threads[t].id, s'.threads[t].script)
      {
        assert Current(ss[i - 1], s'.threads[t].id, s'.threads[t].script);
      }
    }
  }

  /**
   What a thread fetched itself, and not from the cache, was the row's at a moment
   after any moment at which it was in no call; so within the call.
   */
  lemma {:induction false} FetchedWithinCall(
      capacity: nat, compiles: Compiler, ss: seq<State>, acts: seq<Action>, c: nat, i: nat, t: ThreadId)
    requires IsTrace(capacity, compiles, ss, acts) && c <= i < |ss|
    requires t !in ss[c].threads
    requires t in ss[i].threads && Carries(ss[i].threads[t])
    requires !(ss[i].threads[t].Finished? && ss[i].threads[t].hit)
    ensures CurrentWithin(ss, c, i, ss[i].threads[t].id, ss[i].threads[t].script)
  {
    var s, s', a := ss[i - 1], ss[i], acts[i - 1];
    assert Step(capacity, compiles, s, a, s');
    if t in s.threads && Carries(s.threads[t]) {
      FetchedWithinCall(capacity, compiles, ss, acts, c, i - 1, t);
      WithinLater(ss, c, i - 1, s.threads[t].id, s.threads[t].script);
    } else {
      assert a == Fetch(t);
      assert Current(ss[i - 1], s'.threads[t].id, s'.threads[t].script);
    }
  }

  // ----- Freshness -----

  ghost predicate Pending(th: Thread, id: ScriptId) { (th.Putting? || th.Republishing?) && th.id == id }

  /** Neither the cache nor a thread about to put holds anything but the current script. */
  ghost predicate Safe(s: State, id: ScriptId) {
    && (id in s.cache ==> Current(s, id, s.cache[id]))
    && forall t :: t in s.threads && Pending(s.threads[t], id) ==> Current(s, id, s.threads[t].script)
  }

  /** The row exists and stays as it is throughout. */
  ghost predicate Settled(ss: seq<State>, id: ScriptId) {
    |ss| > 0 && id in ss[0].db && forall i :: 0 <= i < |ss| ==> id in ss[i].db && ss[i].db[id] == ss[0].db[id]
  }

  lemma SafeStep(capacity: nat, compiles: Compiler, s: State, a: Action, s': State, id: ScriptId)
    requires Step(capacity, compiles, s, a, s') && Safe(s, id)
    requires id in s.db && id in s'.db && s'.db[id] == s.db[id]
    ensures Safe(s', id)
  {
  }

  /** A thread that was in no call at one moment has the answer to a Get of the id at a later one. */
  ghost predicate Answered(ss: seq<State>, c: nat, i: nat, t: ThreadId, id: ScriptId) {
    && c <= i < |ss| && t !in ss[c].threads
    && t in ss[i].threads && ss[i].threads[t].Finished? && ss[i].threads[t].id == id
  }

  /** Every Get of the id that starts within the trace and ends in it answers with the current script. */
  ghost predicate AnswersCurrent(ss: seq<State>, id: ScriptId) {
    forall c: nat, i: nat, t: ThreadId :: Answered(ss, c, i, t, id) ==> Current(ss[i], id, ss[i].threads[t].script)
  }

  /** The same for every way the system can go on from a state while the row stays. */
  ghost predicate AlwaysFresh(capacity: nat, compiles: Compiler, s: State, id: ScriptId) {
    forall ss: seq<State>, acts: seq<Action> ::
      IsTrace(capacity, compiles, ss, acts) && ss[0] == s && Settled(ss, id) ==> AnswersCurrent(ss, id)
  }

  lemma {:induction false} SafeThroughout(
      capacity: nat, compiles: Compiler, ss: seq<State>, acts: seq<Action>, id: ScriptId, i: nat)
    requires IsTrace(capacity, compiles, ss, acts) && Settled(ss, id) && Safe(ss[0], id) && i < |ss|
    ensures Safe(ss[i], id)
  {
    if i > 0 {
      SafeThroughout(capacity, compiles, ss, acts, id, i - 1);
      SafeStep(capacity, compiles, ss[i - 1], acts[i - 1], ss[i], id);
    }
  }

  lemma {:induction false} AnswersWhenSafe(
      capacity: nat, compiles: Compiler, ss: seq<State>, acts: seq<Action>, id: ScriptId, c: nat, i: nat,
      t: ThreadId)
    requires IsTrace(capacity, compiles, ss, acts) && Settled(ss, id) && Safe(ss[0], id)
    requires Answered(ss, c, i, t, id)
    ensures Current(ss[i], id, ss[i].threads[t].script)
    decreases i
  {
    SafeThroughout(capacity, compiles, ss, acts, id, i - 1);
    assert Step(capacity, compiles, ss[i - 1], acts[i - 1], ss[i]);
    var s := ss[i - 1];
    if t in s.threads && s.threads[t].Finished? {
      AnswersWhenSafe(capacity, compiles, ss, acts, id, c, i - 1, t);
    }
  }

  // ----- When the cache cannot be trusted, it can be seen -----

  /** A cache that holds one entry only, put there over anything else. */
  lemma SingletonPut(capacity: nat, before: Cache, id: ScriptId, script: Script)
    requires capacity > 0
    ensures Puts(capacity, before, id, script, map[id := script])
  {
  }

  ghost function Unused(threads: map<ThreadId, Thread>): (t: ThreadId)
    ensures t !in threads
  {
    var bound := Bound(threads.Keys);
    assert bound !in threads.Keys;
    bound
  }

  ghost function Bound(s: set<nat>): (b: nat)
    ensures forall x :: x in s ==> x < b
  {
    if s == {} then 0
    else
      var x :| x in s;
      var rest := s - {x};
      var b := Max(x + 1, Bound(rest));
      assert forall y :: y in s ==> y == x || y in rest;
      b
  }

  /** A stale cached script is answered to the next Get. */
  lemma StaleCacheIsSeen(capacity: nat, compiles: Compiler, s: State, id: ScriptId)
    requires capacity > 0 && id in s.db && id in s.cache && !Current(s, id, s.cache[id])
    ensures !AlwaysFresh(capacity, compiles, s, id)
  {
    var t := Unused(s.threads);
    var s1 := s.(threads := s.threads[t := Looking(id)]);
    var s2 := s1.(threads := s1.threads[t := Finished(id, s.cache[id], true)]);
    var ss, acts := [s, s1, s2], [CallGet(t, id), Look(t)];
    assert Step(capacity, compiles, s, acts[0], s1) && Step(capacity, compiles, s1, acts[1], s2);
    assert IsTrace(capacity, compiles, ss, acts) && Settled(ss, id);
    assert Answered(ss, 0, 2, t, id);
    assert !AnswersCurrent(ss, id);
  }

  /** A stale script about to be put reaches the cache, and then the next Get. */
  lemma StalePutIsSeen(capacity: nat, compiles: Compiler, s: State, id: ScriptId, u: ThreadId)
    requires capacity > 0 && id in s.db
    requires u in s.threads && Pending(s.threads[u], id) && !Current(s, id, s.threads[u].script)
    ensures !AlwaysFresh(capacity, compiles, s, id)
  {
    var script := s.threads[u].script;
    var s1 := State(s.db, map[id := script],
                    if s.threads[u].Putting? then s.threads[u := Finished(id, script, false)] else s.threads - {u});
    SingletonPut(capacity, s.cache, id, script);
    assert Step(capacity, compiles, s, Put(u), s1);
    StaleCacheIsSeen(capacity, compiles, s1, id);
    if AlwaysFresh(capacity, compiles, s, id) {
      FreshStaysFresh(capacity, compiles, s, Put(u), s1, id);
    }
  }

  lemma PrependStep(
      capacity: nat, compiles: Compiler, s: State, a: Action, ss: seq<State>, acts: seq<Action>, id: ScriptId)
    requires IsTrace(capacity, compiles, ss, acts) && Step(capacity, compiles, s, a, ss[0]) && Settled(ss, id)
    requires id in s.db && s.db[id] == ss[0].db[id]
    ensures IsTrace(capacity, compiles, [s] + ss, [a] + acts) && Settled([s] + ss, id)
    ensures AnswersCurrent([s] + ss, id) ==> AnswersCurrent(ss, id)
  {
    var longer, moreActs := [s] + ss, [a] + acts;
    forall k | 0 <= k < |moreActs|
      ensures Step(capacity, compiles, longer[k], moreActs[k], longer[k + 1])
    {
      if k > 0 {
        assert Step(capacity, compiles, ss[k - 1], acts[k - 1], ss[k]);
      }
    }
    if AnswersCurrent(longer, id) {
      forall c: nat, i: nat, t: ThreadId | Answered(ss, c, i, t, id)
        ensures Current(ss[i], id, ss[i].threads[t].script)
      {
        assert longer[c + 1] == ss[c] && longer[i + 1] == ss[i];
        assert Answered(longer, c + 1, i + 1, t, id);
      }
    }
  }

  /** What holds for every continuation of a state holds for those that begin with a given step. */
  lemma FreshStaysFresh(capacity: nat, compiles: Compiler, s: State, a: Action, s': State, id: ScriptId)
    requires AlwaysFresh(capacity, compiles, s, id) && Step(capacity, compiles, s, a, s')
    requires id in s.db && id in s'.db && s.db[id] == s'.db[id]
    ensures AlwaysFresh(capacity, compiles, s', id)
  {
    forall ss: seq<State>, acts: seq<Action> | IsTrace(capacity, compiles, ss, acts) && ss[0] == s' && Settled(ss, id)
      ensures AnswersCurrent(ss, id)
    {
      PrependStep(capacity, compiles, s, a, ss, acts, id);
      assert ([s] + ss)[0] == s;
    }
  }

  /**
   From a state on, as long as the row stays, all Gets that start are answered with
   the current script exactly when neither the cache nor a thread about to put
   holds an outdated one.
   */
  lemma FreshIffSafe(capacity: nat, compiles: Compiler, s: State, id: ScriptId)
    requires capacity > 0 && id in s.db
    ensures AlwaysFresh(capacity, compiles, s, id) <==> Safe(s, id)
  {
    if Safe(s, id) {
      forall ss: seq<State>, acts: seq<Action> | IsTrace(capacity, compiles, ss, acts) && ss[0] == s && Settled(ss, id)
        ensures AnswersCurrent(ss, id)
      {
        forall c: nat, i: nat, t: ThreadId | Answered(ss, c, i, t, id)
          ensures Current(ss[i], id, ss[i].threads[t].script)
        {
          AnswersWhenSafe(capacity, compiles, ss, acts, id, c, i, t);
        }
      }
    } else if id in s.cache && !Current(s, id, s.cache[id]) {
      StaleCacheIsSeen(capacity, compiles, s, id);
    } else {
      var u :| u in s.threads && Pending(s.threads[u], id) && !Current(s, id, s.threads[u].script);
      StalePutIsSeen(capacity, compiles, s, id, u);
    }
  }

  /** Without a cache no thread ever looks there. */
  lemma {:induction false} NoHitWithoutCache(
      compiles: Compiler, ss: seq<State>, acts: seq<Action>, c: nat, i: nat, t: ThreadId)
    requires IsTrace(0, compiles, ss, acts) && c <= i < |ss|
    requires t !in ss[c].threads && t in ss[i].threads
    ensures !ss[i].threads[t].Looking? && (ss[i].threads[t].Finished? ==> !ss[i].threads[t].hit)
  {
    assert Step(0, compiles, ss[i - 1], acts[i - 1], ss[i]);
    if t in ss[i - 1].threads {
      NoHitWithoutCache(compiles, ss, acts, c, i - 1, t);
    }
  }

  /** A storage that does not use its cache is fresh in every state. */
  lemma UncachedIsFresh(compiles: Compiler, s: State, id: ScriptId)
    ensures AlwaysFresh(0, compiles, s, id)
  {
    forall ss: seq<State>, acts: seq<Action> | IsTrace(0, compiles, ss, acts) && ss[0] == s && Settled(ss, id)
      ensures AnswersCurrent(ss, id)
    {
      forall c: nat, i: nat, t: ThreadId | Answered(ss, c, i, t, id)
        ensures Current(ss[i], id, ss[i].threads[t].script)
      {
        NoHitWithoutCache(compiles, ss, acts, c, i, t);
        FetchedWithinCall(0, compiles, ss, acts, c, i, t);
        var j :| c <= j <= i && Current(ss[j], id, ss[i].threads[t].script);
      }
    }
  }

  // ----- A Refresh undone -----

  /** A row is written, a Get fetches it, the row changes, a Refresh completes, the Get goes on, another starts. */
  function RaceActions(id: ScriptId, a: Row, b: Row): seq<Action> {
    [WriteRow(id, a), CallGet(0, id), Look(0), Fetch(0), WriteRow(id, b),
     CallRefresh(1, id), Fetch(1), Put(1), Put(0), CallGet(2, id), Look(2)]
  }

  /** The states in between, with one outdated script on its way into the cache from the fourth on. */
  function RaceState(id: ScriptId, a: Row, b: Row, i: nat): State {
    var (first, second) := (Build(id, a), Build(id, b));
    var (late, over) := (Putting(id, first), Finished(id, first, false));
    if i == 0 then State(map[], map[], map[])
    else if i == 1 then State(map[id := a], map[], map[])
    else if i == 2 then State(map[id := a], map[], map[0 := Looking(id)])
    else if i == 3 then State(map[id := a], map[], map[0 := Fetching(id)])
    else if i == 4 then State(map[id := a], map[], map[0 := late])
    else if i == 5 then State(map[id := b], map[], map[0 := late])
    else if i == 6 then State(map[id := b], map[], map[0 := late, 1 := Refreshing(id)])
    else if i == 7 then State(map[id := b], map[], map[0 := late, 1 := Republishing(id, second)])
    else if i == 8 then State(map[id := b], map[id := second], map[0 := late])
    else if i == 9 then State(map[id := b], map[id := first], map[0 := over])
    else if i == 10 then State(map[id := b], map[id := first], map[0 := over, 2 := Looking(id)])
    else State(map[id := b], map[id := first], map[0 := over, 2 := Finished(id, first, true)])
  }

  function RaceStates(id: ScriptId, a: Row, b: Row): seq<State> {
    seq(12, i requires 0 <= i < 12 => RaceState(id, a, b, i))
  }

  lemma RaceBegins(capacity: nat, compiles: Compiler, id: ScriptId, a: Row, b: Row, i: nat)
    requires capacity > 0 && compiles(a.source) && i < 5
    ensures Step(capacity, compiles, RaceState(id, a, b, i), RaceActions(id, a, b)[i], RaceState(id, a, b, i + 1))
  {
  }

  lemma RaceEnds(capacity: nat, compiles: Compiler, id: ScriptId, a: Row, b: Row, i: nat)
    requires capacity > 0 && compiles(b.source) && 5 <= i < 11
    ensures Step(capacity, compiles, RaceState(id, a, b, i), RaceActions(id, a, b)[i], RaceState(id, a, b, i + 1))
  {
    SingletonPut(capacity, RaceState(id, a, b, i).cache, id, Build(id, if i == 7 then b else a));
  }

  /**
   A completed Refresh can be undone.  From the empty system, with any capacity
   but zero and any two different rows that compile: a Refresh completes after the
   second row was written, and a Get that starts afterwards answers with the script
   of the first row out of the cache.
   */
  lemma RefreshCanBeUndone(capacity: nat, compiles: Compiler, id: ScriptId, a: Row, b: Row)
    requires capacity > 0 && a != b && compiles(a.source) && compiles(b.source)
    ensures var (ss, acts) := (RaceStates(id, a, b), RaceActions(id, a, b));
            && IsTrace(capacity, compiles, ss, acts) && ss[0] == State(map[], map[], map[])
            && acts[5] == CallRefresh(1, id) && 1 !in ss[8].threads && ss[8].cache == map[id := Build(id, b)]
            && Settled(ss[5..], id) && ss[5].db[id] == b
            && Answered(ss, 8, 11, 2, id) && ss[11].threads[2] == Finished(id, Build(id, a), true)
            && !Current(ss[11], id, Build(id, a))
  {
    forall i: nat | i < 5 {
      RaceBegins(capacity, compiles, id, a, b, i);
    }
    forall i: nat | 5 <= i < 11 {
      RaceEnds(capacity, compiles, id, a, b, i);
    }
  }

  // ----- A completed Refresh makes the cache trustworthy -----

  ghost predicate NonePending(s: State, id: ScriptId) {
    forall t :: t in s.threads ==> !Pending(s.threads[t], id)
  }

  /** While the row stays and nothing outdated was pending at the start, nothing outdated becomes pending. */
  lemma {:induction false} PendingIsCurrent(
      capacity: nat, compiles: Compiler, ss: seq<State>, acts: seq<Action>, id: ScriptId, i: nat)
    requires IsTrace(capacity, compiles, ss, acts) && Settled(ss, id) && NonePending(ss[0], id) && i < |ss|
    ensures forall t :: t in ss[i].threads && Pending(ss[i].threads[t], id) ==>
              Current(ss[i], id, ss[i].threads[t].script)
  {
    if i > 0 {
      PendingIsCurrent(capacity, compiles, ss, acts, id, i - 1);
      assert Step(capacity, compiles, ss[i - 1], acts[i - 1], ss[i]);
    }
  }

  /**
   Let the row stay from some moment on at which no thread is between fetching and
   putting it.  Once any thread has put it after that moment, as a completed
   Refresh does, every Get that starts later answers with the current script, for
   ever, whatever other threads do and whatever is evicted.
   */
  lemma FreshAfterRefresh(capacity: nat, compiles: Compiler, ss: seq<State>, acts: seq<Action>, id: ScriptId, p: nat)
    requires capacity > 0
    requires IsTrace(capacity, compiles, ss, acts) && Settled(ss, id) && NonePending(ss[0], id)
    requires p < |acts| && acts[p].Put? && acts[p].t in ss[p].threads && ss[p].threads[acts[p].t].id == id
    ensures AlwaysFresh(capacity, compiles, ss[p + 1], id)
  {
    assert Step(capacity, compiles, ss[p], acts[p], ss[p + 1]);
    PendingIsCurrent(capacity, compiles, ss, acts, id, p);
    assert Pending(ss[p].threads[acts[p].t], id);
    assert Current(ss[p], id, ss[p].threads[acts[p].t].script);
    PendingIsCurrent(capacity, compiles, ss, acts, id, p + 1);
    FreshIffSafe(capacity, compiles, ss[p + 1], id);
  }

  // ----- The sequential methods are runs of the system -----

  ghost predicate Reaches(capacity: nat, compiles: Compiler, s: State, s': State) {
    exists ss: seq<State>, acts: seq<Action> ::
      IsTrace(capacity, compiles, ss, acts) && ss[0] == s && ss[|acts|] == s'
  }

  lemma StepReaches(capacity: nat, compiles: Compiler, s: State, a: Action, s': State)
    requires Step(capacity, compiles, s, a, s')
    ensures Reaches(capacity, compiles, s, s')
  {
    assert IsTrace(capacity, compiles, [s, s'], [a]);
  }

  lemma ThenStep(capacity: nat, compiles: Compiler, s: State, s': State, a: Action, s'': State)
    requires Reaches(capacity, compiles, s, s') && Step(capacity, compiles, s', a, s'')
    ensures Reaches(capacity, compiles, s, s'')
  {
    var ss: seq<State>, acts: seq<Action> :| IsTrace(capacity, compiles, ss, acts) && ss[0] == s && ss[|acts|] == s';
    var longer, moreActs := ss + [s''], acts + [a];
    forall i | 0 <= i < |moreActs|
      ensures Step(capacity, compiles, longer[i], moreActs[i], longer[i + 1])
    {
      if i < |acts| {
        assert Step(capacity, compiles, ss[i], acts[i], ss[i + 1]);
      }
    }
    assert IsTrace(capacity, compiles, longer, moreActs);
  }

  /** The system when no call is under way. */
  function Idle(m: Moment): State { State(m.db, m.cache, map[]) }

  /** A Get that nobody interrupts is a trace of one thread with the same answer and the same cache. */
  lemma SequentialGetIsATrace(
      capacity: nat, compiles: Compiler, s: Moment, id: ScriptId, after: Cache, r: Loaded, t: ThreadId)
    requires GetStep(capacity, s.db, compiles, id, s.cache, after, r) && r.Loaded?
    ensures Reaches(capacity, compiles, Idle(s),
                    State(s.db, after, map[t := Finished(id, r.script, capacity > 0 && id in s.cache)]))
  {
    var (db, before) := (s.db, s.cache);
    var looking, fetching := State(db, before, map[t := Looking(id)]), State(db, before, map[t := Fetching(id)]);
    var over := Finished(id, r.script, capacity > 0 && id in before);
    if capacity == 0 {
      StepReaches(capacity, compiles, Idle(s), CallGet(t, id), fetching);
      ThenStep(capacity, compiles, Idle(s), fetching, Fetch(t), State(db, before, map[t := over]));
    } else {
      StepReaches(capacity, compiles, Idle(s), CallGet(t, id), looking);
      if id in before {
        ThenStep(capacity, compiles, Idle(s), looking, Look(t), State(db, before, map[t := over]));
      } else {
        var putting := State(db, before, map[t := Putting(id, r.script)]);
        ThenStep(capacity, compiles, Idle(s), looking, Look(t), fetching);
        ThenStep(capacity, compiles, Idle(s), fetching, Fetch(t), putting);
        ThenStep(capacity, compiles, Idle(s), putting, Put(t), State(db, after, map[t := over]));
      }
    }
  }

  // ----- Whole sequential runs -----

  /** The action an operation begins with. */
  function Begins(op: Op): Action {
    match op
    case Write(id, row) => WriteRow(id, row)
    case Refresh(id) => CallRefresh(0, id)
    case Get(id) => CallGet(0, id)
  }

  /** The section before the last leaves the answer with the thread, or the script a Refresh is about to put. */
  ghost predicate Ends(capacity: nat, before: State, last: Action, s: Moment, op: Op, r: Loaded) {
    match op
    case Write(_, _) => true
    case Refresh(id) =>
      if r.Loaded? then last == Put(0) && before.threads == map[0 := Republishing(id, r.script)]
      else last == Throw(0) && before.threads == map[0 := Refreshing(id)]
    case Get(id) =>
      if r.Loaded? then
        last == Return(0) && before.threads == map[0 := Finished(id, r.script, capacity > 0 && id in s.cache)]
      else last == Throw(0) && before.threads == map[0 := Fetching(id)]
  }

  /** Between two positions of a trace thread 0 performs one operation, alone, with this result. */
  ghost predicate Performs(capacity: nat, ss: seq<State>, acts: seq<Action>, lo: nat, hi: nat,
                           s: Moment, op: Op, s': Moment, r: Loaded) {
    && lo < hi < |ss| && |ss| == |acts| + 1
    && ss[lo] == Idle(s) && ss[hi] == Idle(s')
    && acts[lo] == Begins(op) && (forall k :: lo < k < hi ==> InSection(acts[k]))
    && Ends(capacity, ss[hi - 1], acts[hi - 1], s, op, r)
  }

  predicate InSection(a: Action) { a in {Look(0), Fetch(0), Put(0), Return(0), Throw(0)} }

  lemma FailedGetIsATrace(capacity: nat, compiles: Compiler, s: Moment, id: ScriptId, s': Moment, r: Loaded)
    returns (ss: seq<State>, acts: seq<Action>)
    requires OpStep(capacity, compiles, s, Get(id), s', r) && !r.Loaded?
    ensures IsTrace(capacity, compiles, ss, acts)
    ensures Performs(capacity, ss, acts, 0, |acts|, s, Get(id), s', r)
  {
    var looking := State(s.db, s.cache, map[0 := Looking(id)]);
    var fetching := State(s.db, s.cache, map[0 := Fetching(id)]);
    if capacity == 0 {
      ss, acts := [Idle(s), fetching, Idle(s)], [CallGet(0, id), Throw(0)];
    } else {
      ss, acts := [Idle(s), looking, fetching, Idle(s)], [CallGet(0, id), Look(0), Throw(0)];
    }
  }

  /** A Get whose answer is not put: without a cache, or from the cache. */
  lemma DirectGetIsATrace(capacity: nat, compiles: Compiler, s: Moment, id: ScriptId, s': Moment, r: Loaded)
    returns (ss: seq<State>, acts: seq<Action>)
    requires OpStep(capacity, compiles, s, Get(id), s', r) && r.Loaded? && (capacity == 0 || id in s.cache)
    ensures IsTrace(capacity, compiles, ss, acts)
    ensures Performs(capacity, ss, acts, 0, |acts|, s, Get(id), s', r)
  {
    var over := State(s.db, s.cache, map[0 := Finished(id, r.script, capacity > 0)]);
    if capacity == 0 {
      var fetching := State(s.db, s.cache, map[0 := Fetching(id)]);
      ss, acts := [Idle(s), fetching, over, Idle(s')], [CallGet(0, id), Fetch(0), Return(0)];
    } else {
      var looking := State(s.db, s.cache, map[0 := Looking(id)]);
      ss, acts := [Idle(s), looking, over, Idle(s')], [CallGet(0, id), Look(0), Return(0)];
    }
  }

  lemma MissedGetIsATrace(capacity: nat, compiles: Compiler, s: Moment, id: ScriptId, s': Moment, r: Loaded)
    returns (ss: seq<State>, acts: seq<Action>)
    requires OpStep(capacity, compiles, s, Get(id), s', r) && r.Loaded? && capacity > 0 && id !in s.cache
    ensures IsTrace(capacity, compiles, ss, acts)
    ensures Performs(capacity, ss, acts, 0, |acts|, s, Get(id), s', r)
  {
    var looking := State(s.db, s.cache, map[0 := Looking(id)]);
    var fetching := State(s.db, s.cache, map[0 := Fetching(id)]);
    var putting := State(s.db, s.cache, map[0 := Putting(id, r.script)]);
    var over := State(s.db, s'.cache, map[0 := Finished(id, r.script, false)]);
    ss := [Idle(s), looking, fetching, putting, over, Idle(s')];
    acts := [CallGet(0, id), Look(0), Fetch(0), Put(0), Return(0)];
  }

  lemma FailedRefreshIsATrace(capacity: nat, compiles: Compiler, s: Moment, id: ScriptId, s': Moment, r: Loaded)
    returns (ss: seq<State>, acts: seq<Action>)
    requires OpStep(capacity, compiles, s, Refresh(id), s', r) && !r.Loaded?
    ensures IsTrace(capacity, compiles, ss, acts)
    ensures Performs(capacity, ss, acts, 0, |acts|, s, Refresh(id), s', r)
  {
    var refreshing := State(s.db, s.cache, map[0 := Refreshing(id)]);
    assert refreshing.threads - {0} == map[];
    ss, acts := [Idle(s), refreshing, Idle(s')], [CallRefresh(0, id), Throw(0)];
  }

  lemma RefreshIsATrace(capacity: nat, compiles: Compiler, s: Moment, id: ScriptId, s': Moment, r: Loaded)
    returns (ss: seq<State>, acts: seq<Action>)
    requires OpStep(capacity, compiles, s, Refresh(id), s', r) && r.Loaded?
    ensures IsTrace(capacity, compiles, ss, acts)
    ensures Performs(capacity, ss, acts, 0, |acts|, s, Refresh(id), s', r)
  {
    var refreshing := State(s.db, s.cache, map[0 := Refreshing(id)]);
    var republishing := State(s.db, s.cache, map[0 := Republishing(id, r.script)]);
    assert republishing.threads - {0} == map[];
    ss, acts := [Idle(s), refreshing, republishing, Idle(s')], [CallRefresh(0, id), Fetch(0), Put(0)];
  }

  /** Every operation, answered or failing, is a trace of its own. */
  lemma OpIsATrace(capacity: nat, compiles: Compiler, s: Moment, op: Op, s': Moment, r: Loaded)
    returns (ss: seq<State>, acts: seq<Action>)
    requires OpStep(capacity, compiles, s, op, s', r)
    ensures IsTrace(capacity, compiles, ss, acts)
    ensures Performs(capacity, ss, acts, 0, |acts|, s, op, s', r)
  {
    match op
    case Write(id, row) => ss, acts := [Idle(s), Idle(s')], [WriteRow(id, row)];
    case Refresh(id) =>
      if r.Loaded? {
        ss, acts := RefreshIsATrace(capacity, compiles, s, id, s', r);
      } else {
        ss, acts := FailedRefreshIsATrace(capacity, compiles, s, id, s', r);
      }
    case Get(id) =>
      if !r.Loaded? {
        ss, acts := FailedGetIsATrace(capacity, compiles, s, id, s', r);
      } else if capacity == 0 || id in s.cache {
        ss, acts := DirectGetIsATrace(capacity, compiles, s, id, s', r);
      } else {
        ss, acts := MissedGetIsATrace(capacity, compiles, s, id, s', r);
      }
  }

  lemma TracesJoin(capacity: nat, compiles: Compiler,
                   ss: seq<State>, acts: seq<Action>, ss': seq<State>, acts': seq<Action>)
    requires IsTrace(capacity, compiles, ss, acts) && IsTrace(capacity, compiles, ss', acts')
    requires ss[|acts|] == ss'[0]
    ensures IsTrace(capacity, compiles, ss + ss'[1..], acts + acts')
  {
    var longer, moreActs := ss + ss'[1..], acts + acts';
    forall i | 0 <= i < |moreActs|
      ensures Step(capacity, compiles, longer[i], moreActs[i], longer[i + 1])
    {
      if i < |acts| {
        assert Step(capacity, compiles, ss[i], acts[i], ss[i + 1]);
      } else {
        assert Step(capacity, compiles, ss'[i - |acts|], acts'[i - |acts|], ss'[i - |acts| + 1]);
      }
    }
  }

  /** A performance stays one in a longer trace. */
  lemma PerformsLater(capacity: nat, ss: seq<State>, acts: seq<Action>, more: seq<State>, moreActs: seq<Action>,
                      lo: nat, hi: nat, s: Moment, op: Op, s': Moment, r: Loaded)
    requires Performs(capacity, ss, acts, lo, hi, s, op, s', r) && |more| == |moreActs|
    ensures Performs(capacity, ss + more, acts + moreActs, lo, hi, s, op, s', r)
  {
  }

  /** A performance comes after a trace that leads to where it begins. */
  lemma PerformsAfter(capacity: nat, ss: seq<State>, acts: seq<Action>, ss': seq<State>, acts': seq<Action>,
                      s: Moment, op: Op, s': Moment, r: Loaded)
    requires Performs(capacity, ss', acts', 0, |acts'|, s, op, s', r)
    requires |ss| == |acts| + 1 && ss[|acts|] == ss'[0]
    ensures Performs(capacity, ss + ss'[1..], acts + acts', |acts|, |acts| + |acts'|, s, op, s', r)
  {
    var longer, moreActs := ss + ss'[1..], acts + acts';
    assert forall k :: 0 <= k < |acts'| ==> moreActs[|acts| + k] == acts'[k];
    assert forall k :: 0 <= k < |ss'| ==> longer[|acts| + k] == ss'[k];
    forall k | |acts| < k < |acts| + |acts'|
      ensures InSection(moreActs[k])
    {
      assert moreActs[k] == acts'[k - |acts|];
    }
  }

  /** The positions of a trace between which a run's operations are performed, one after another. */
  ghost predicate Replays(capacity: nat, ss: seq<State>, acts: seq<Action>, at: seq<nat>,
                          ms: seq<Moment>, ops: seq<Op>, rs: seq<Loaded>)
    requires |ms| == |ops| + 1 && |rs| == |ops|
  {
    && 0 < |at| <= |ms| && at[0] == 0 && at[|at| - 1] == |acts|
    && forall k :: 0 <= k < |at| - 1 ==>
         Performs(capacity, ss, acts, at[k], at[k + 1], ms[k], ops[k], ms[k + 1], rs[k])
  }

  lemma ReplaysNext(capacity: nat, compiles: Compiler, ss: seq<State>, acts: seq<Action>, at: seq<nat>,
                    ms: seq<Moment>, ops: seq<Op>, rs: seq<Loaded>, ss': seq<State>, acts': seq<Action>)
    requires |ms| == |ops| + 1 && |rs| == |ops| && Replays(capacity, ss, acts, at, ms, ops, rs) && |at| <= |ops|
    requires |ss| == |acts| + 1 && ss[|acts|] == Idle(ms[|at| - 1])
    requires var n := |at| - 1; Performs(capacity, ss', acts', 0, |acts'|, ms[n], ops[n], ms[n + 1], rs[n])
    ensures Replays(capacity, ss + ss'[1..], acts + acts', at + [|acts| + |acts'|], ms, ops, rs)
  {
    var longer, moreActs, at', n := ss + ss'[1..], acts + acts', at + [|acts| + |acts'|], |at| - 1;
    forall k | 0 <= k < |at|
      ensures Performs(capacity, longer, moreActs, at'[k], at'[k + 1], ms[k], ops[k], ms[k + 1], rs[k])
    {
      if k < n {
        PerformsLater(capacity, ss, acts, ss'[1..], acts', at[k], at[k + 1], ms[k], ops[k], ms[k + 1], rs[k]);
      } else {
        PerformsAfter(capacity, ss, acts, ss', acts', ms[n], ops[n], ms[n + 1], rs[n]);
      }
    }
  }

  lemma {:induction false} RunBeginsATrace(
      capacity: nat, compiles: Compiler, ms: seq<Moment>, ops: seq<Op>, rs: seq<Loaded>, n: nat)
    returns (ss: seq<State>, acts: seq<Action>, at: seq<nat>)
    requires IsRun(capacity, compiles, ms, ops, rs) && n <= |ops|
    ensures IsTrace(capacity, compiles, ss, acts) && ss[0] == Idle(ms[0]) && ss[|acts|] == Idle(ms[n])
    ensures |at| == n + 1 && Replays(capacity, ss, acts, at, ms, ops, rs)
  {
    if n == 0 {
      ss, acts, at := [Idle(ms[0])], [], [0];
    } else {
      ss, acts, at := RunBeginsATrace(capacity, compiles, ms, ops, rs, n - 1);
      var ss', acts' := OpIsATrace(capacity, compiles, ms[n - 1], ops[n - 1], ms[n], rs[n - 1]);
      TracesJoin(capacity, compiles, ss, acts, ss', acts');
      ReplaysNext(capacity, compiles, ss, acts, at, ms, ops, rs, ss', acts');
      ss, acts, at := ss + ss'[1..], acts + acts', at + [|acts| + |acts'|];
    }
  }

  /**
   Every sequential run is a trace of the concurrent system in which one thread
   performs its operations in turn, each with its own answer or failure.
   */
  lemma RunIsATrace(capacity: nat, compiles: Compiler, ms: seq<Moment>, ops: seq<Op>, rs: seq<Loaded>)
    returns (ss: seq<State>, acts: seq<Action>, at: seq<nat>)
    requires IsRun(capacity, compiles, ms, ops, rs)
    ensures IsTrace(capacity, compiles, ss, acts) && ss[0] == Idle(ms[0]) && ss[|acts|] == Idle(ms[|ops|])
    ensures |at| == |ms| && Replays(capacity, ss, acts, at, ms, ops, rs)
  {
    ss, acts, at := RunBeginsATrace(capacity, compiles, ms, ops, rs, |ops|);
  }
}
