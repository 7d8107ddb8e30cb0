/**
 The scripts storage: an optional bounded cache in front of the script table.
 */
module Scripts {
  type ScriptId = nat

  datatype Row = Row(project: nat, source: string)

  type Database = map<ScriptId, Row>

  /** A compiled script; its code is told by the source it was compiled from. */
  datatype Script = Script(id: ScriptId, project: nat, code: string)

  datatype Loaded = Loaded(script: Script) | NotFound | NotCompiled

  /** Which sources the compiler accepts. */
  type Compiler = string -> bool

  /** The script a row stands for. */
  function Build(id: ScriptId, row: Row): Script { Script(id, row.project, row.source) }

  function Load(db: Database, compiles: Compiler, id: ScriptId): Loaded {
    if id !in db then NotFound
    else if !compiles(db[id].source) then NotCompiled
    else Loaded(Build(id, db[id]))
  }

  type Cache = map<ScriptId, Script>

  /** Storing an entry in a bounded map may evict any other entries. */
  ghost predicate Puts(capacity: nat, before: Cache, id: ScriptId, script: Script, after: Cache) {
    && (forall k :: k in after ==> k in before[id := script] && after[k] == before[id := script][k])
    && |after| <= capacity
    && (capacity > 0 ==> id in after)
  }

  class LruMap {
    const capacity: nat
    var entries: Cache

    constructor (capacity: nat)
      ensures this.capacity == capacity && entries == map[]
    {
      this.capacity := capacity;
      entries := map[];
    }

    /** Evicts victims of an unspecified policy until the new entry fits. */
    method Put(id: ScriptId, script: Script)
      modifies this
      ensures Puts(capacity, old(entries), id, script, entries)
      ensures |entries| <= capacity && (capacity > 0 ==> id in entries && entries[id] == script)
      ensures forall k :: k in entries && k != id ==> k in old(entries) && entries[k] == old(entries)[k]
    {
      entries := entries - {id};
      while |entries| > 0 && |entries| >= capacity
        invariant id !in entries
        invariant forall k :: k in entries ==> k in old(entries) && entries[k] == old(entries)[k]
        decreases |entries|
      {
        assert entries.Keys != {};
        var victim :| victim in entries.Keys;
        assert (entries - {victim}).Keys == entries.Keys - {victim};
        entries := entries - {victim};
      }
      if capacity > 0 {
        assert entries[id := script].Keys == entries.Keys + {id};
        entries := entries[id := script];
      }
    }
  }

  /** What a Get may do to the cache and answer. */
  ghost predicate GetStep(
      capacity: nat, db: Database, compiles: Compiler, id: ScriptId, before: Cache, after: Cache, r: Loaded)
  {
    if capacity == 0 then after == before && r == Load(db, compiles, id)
    else if id in before then after == before && r == Loaded(before[id])
    else
      && r == Load(db, compiles, id)
      && if r.Loaded? then Puts(capacity, before, id, r.script, after) else after == before
  }

  /** What a Refresh may do: a failed one leaves the cache alone. */
  ghost predicate RefreshStep(
      capacity: nat, db: Database, compiles: Compiler, id: ScriptId, before: Cache, after: Cache, r: Loaded)
  {
    && r == Load(db, compiles, id)
    && if r.Loaded? then Puts(capacity, before, id, r.script, after) else after == before
  }

  class ScriptsStorage {
    const scripts: LruMap
    const useCache: bool

    ghost predicate Valid() { useCache <==> scripts.capacity > 0 }

    constructor (maxCacheSize: nat)
      ensures Valid() && scripts.capacity == maxCacheSize && scripts.entries == map[] && fresh(scripts)
    {
      scripts := new LruMap(maxCacheSize);
      useCache := maxCacheSize != 0;
    }

    /** Fetching a row, compiling it and filling the script in. */
    static method FetchAndCompile(id: ScriptId, db: Database, compiles: Compiler) returns (r: Loaded)
      ensures r == Load(db, compiles, id)
      ensures r == NotFound <==> id !in db
      ensures r.Loaded? <==> id in db && compiles(db[id].source)
      ensures r.Loaded? ==>
                r.script.id == id && r.script.project == db[id].project && r.script.code == db[id].source
    {
      if id !in db {
        return NotFound;
      }
      var info := db[id];
      if !compiles(info.source) {
        return NotCompiled;
      }
      var script := Script(0, 0, info.source);
      script := script.(id := id);
      script := script.(project := info.project);
      r := Loaded(script);
    }

    method Get(id: ScriptId, db: Database, compiles: Compiler) returns (r: Loaded)
      requires Valid()
      modifies scripts
      ensures GetStep(scripts.capacity, db, compiles, id, old(scripts.entries), scripts.entries, r)
      ensures useCache && id in old(scripts.entries) ==>
                r == Loaded(old(scripts.entries)[id]) && scripts.entries == old(scripts.entries)
      ensures !(useCache && id in old(scripts.entries)) ==>
                && (r.Loaded? <==> id in db && compiles(db[id].source))
                && (r.Loaded? ==>
                      r.script.id == id && r.script.project == db[id].project && r.script.code == db[id].source)
      ensures useCache && r.Loaded? ==> id in scripts.entries && scripts.entries[id] == r.script
      ensures !useCache || !r.Loaded? ==> scripts.entries == old(scripts.entries)
    {
      if !useCache {
        r := FetchAndCompile(id, db, compiles);
        return;
      }
      if id in scripts.entries {
        return Loaded(scripts.entries[id]);
      }
      r := FetchAndCompile(id, db, compiles);
      if r.Loaded? {
        scripts.Put(id, r.script);
      }
    }

    method Refresh(id: ScriptId, db: Database, compiles: Compiler) returns (r: Loaded)
      requires Valid()
      modifies scripts
      ensures RefreshStep(scripts.capacity, db, compiles, id, old(scripts.entries), scripts.entries, r)
      ensures r.Loaded? <==> id in db && compiles(db[id].source)
      ensures r.Loaded? ==>
                r.script.id == id && r.script.project == db[id].project && r.script.code == db[id].source
      ensures useCache && r.Loaded? ==> id in scripts.entries && scripts.entries[id] == r.script
      ensures !r.Loaded? ==> scripts.entries == old(scripts.entries)
    {
      r := FetchAndCompile(id, db, compiles);
      if r.Loaded? {
        scripts.Put(id, r.script);
      }
    }
  }

  // ----- Sequential runs: the cached storage refines the uncached one -----

  datatype Op = Write(id: ScriptId, row: Row) | Refresh(id: ScriptId) | Get(id: ScriptId)

  datatype Moment = Moment(db: Database, cache: Cache)

  ghost predicate OpStep(capacity: nat, compiles: Compiler, s: Moment, op: Op, s': Moment, r: Loaded) {
    match op
    case Write(id, row) => s' == Moment(s.db[id := row], s.cache)
    case Refresh(id) => s'.db == s.db && RefreshStep(capacity, s.db, compiles, id, s.cache, s'.cache, r)
    case Get(id) => s'.db == s.db && GetStep(capacity, s.db, compiles, id, s.cache, s'.cache, r)
  }

  /** A run: one more moment than operations, starting with an empty cache. */
  ghost predicate IsRun(capacity: nat, compiles: Compiler, ms: seq<Moment>, ops: seq<Op>, rs: seq<Loaded>) {
    && |ms| == |ops| + 1 && |rs| == |ops|
    && ms[0].cache == map[]
    && forall i :: 0 <= i < |ops| ==> OpStep(capacity, compiles, ms[i], ops[i], ms[i + 1], rs[i])
  }

  /** The row was written, and since then no Refresh of it has succeeded. */
  ghost predicate Unpropagated(ops: seq<Op>, rs: seq<Loaded>, id: ScriptId, now: nat)
    requires now <= |ops| && |rs| == |ops|
  {
    exists w :: 0 <= w < now && ops[w].Write? && ops[w].id == id &&
      forall k :: w < k < now && ops[k] == Refresh(id) ==> !rs[k].Loaded?
  }

  lemma UnpropagatedLater(ops: seq<Op>, rs: seq<Loaded>, id: ScriptId, now: nat)
    requires now < |ops| && |rs| == |ops| && Unpropagated(ops, rs, id, now)
    requires !(ops[now] == Refresh(id) && rs[now].Loaded?)
    ensures Unpropagated(ops, rs, id, now + 1)
  {
    var w :| 0 <= w < now && ops[w].Write? && ops[w].id == id &&
      forall k :: w < k < now && ops[k] == Refresh(id) ==> !rs[k].Loaded?;
    assert ops[w].Write?;
  }

  lemma {:induction false} CachedIsCurrent(
      capacity: nat, compiles: Compiler, ms: seq<Moment>, ops: seq<Op>, rs: seq<Loaded>, now: nat, id: ScriptId)
    requires IsRun(capacity, compiles, ms, ops, rs) && now <= |ops|
    requires id in ms[now].cache && !Unpropagated(ops, rs, id, now)
    ensures Load(ms[now].db, compiles, id) == Loaded(ms[now].cache[id])
  {
    if now > 0 {
      var s, s', op, r := ms[now - 1], ms[now], ops[now - 1], rs[now - 1];
      assert OpStep(capacity, compiles, s, op, s', r);
      if op.Write? && op.id == id {
        assert Unpropagated(ops, rs, id, now);
        assert false;
      }
      if id in s.cache && s'.cache[id] == s.cache[id] && !(op == Refresh(id) && r.Loaded?) {
        if Unpropagated(ops, rs, id, now - 1) {
          UnpropagatedLater(ops, rs, id, now - 1);
        }
        CachedIsCurrent(capacity, compiles, ms, ops, rs, now - 1, id);
      }
    }
  }

  /**
   In every sequential run, for every capacity and every eviction policy, a Get of
   a script whose writes have all been followed by a successful Refresh answers
   exactly as the storage without a cache would.
   */
  lemma CachedRefinesUncached(capacity: nat, compiles: Compiler, ms: seq<Moment>, ops: seq<Op>, rs: seq<Loaded>, i: nat)
    requires IsRun(capacity, compiles, ms, ops, rs) && i < |ops| && ops[i].Get?
    requires !Unpropagated(ops, rs, ops[i].id, i)
    ensures GetStep(0, ms[i].db, compiles, ops[i].id, ms[i].cache, ms[i].cache, rs[i])
  {
    assert OpStep(capacity, compiles, ms[i], ops[i], ms[i + 1], rs[i]);
    if ops[i].id in ms[i].cache {
      CachedIsCurrent(capacity, compiles, ms, ops, rs, i, ops[i].id);
    }
  }
}
