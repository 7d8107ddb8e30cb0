/**
 The metering allocator handed to every Lua state, and the counter behind it.
 */
module Allocator {
  import opened Common

  /** The number of values of the counter's 64-bit type. */
  const WORD: nat := 0x1_0000_0000_0000_0000

  class MemoryLimitChecker {
    const limit: nat
    var used: nat

    constructor (limit: nat)
      ensures this.limit == limit && used == 0
    {
      this.limit := limit;
      used := 0;
    }

    method Allocated(size: nat)
      modifies this
      ensures used == (old(used) + size) % WORD
    {
      used := (used + size) % WORD;
    }

    method Deallocated(size: nat)
      modifies this
      ensures used == if old(used) < size then 0 else old(used) - size
    {
      if used < size {
        used := 0;
        return;
      }
      used := used - size;
    }

    predicate IsLimitReached()
      reads this
    {
      used > limit
    }
  }

  type Pointer = nat

  type Blocks = map<Pointer, nat>

  /** The C heap the allocator draws from. */
  class CHeap {
    var blocks: Blocks

    constructor ()
      ensures blocks == map[]
    {
      blocks := map[];
    }

    method Free(p: Option<Pointer>)
      modifies this
      ensures blocks == Without(old(blocks), p)
    {
      if p.Some? {
        blocks := blocks - {p.value};
      }
    }

    /** Moves a block to the place the environment chose; none means failure, which leaves it alone. */
    method Realloc(p: Option<Pointer>, size: nat, place: Option<Pointer>) returns (r: Option<Pointer>)
      modifies this
      ensures r == place
      ensures blocks == if place.None? then old(blocks) else Without(old(blocks), p)[place.value := size]
    {
      if place.Some? {
        if p.Some? {
          blocks := blocks - {p.value};
        }
        blocks := blocks[place.value := size];
      }
      r := place;
    }
  }

  function Without(blocks: Blocks, p: Option<Pointer>): Blocks {
    if p.None? then blocks else blocks - {p.value}
  }

  /** One call from Lua, with the place a reallocation would choose. */
  datatype Request = Request(ptr: Option<Pointer>, osize: nat, nsize: nat, place: Option<Pointer>) {
    /** For a new block the old size is a type code, not a size. */
    function OldSize(): nat { if ptr.None? then 0 else osize }

    function Charge(): nat {
      if nsize == 0 then 0 else if nsize > OldSize() then nsize - OldSize() else OldSize() - nsize
    }
  }

  datatype Meter = Meter(used: nat, blocks: Blocks)

  datatype Reply = Reply(meter: Meter, ptr: Option<Pointer>)

  /** The outcome of a call once the counter has the value `charged`. */
  function Settle(limit: nat, s: Meter, q: Request, charged: nat): Reply {
    if q.nsize == 0 then
      Reply(Meter(if s.used < q.OldSize() then 0 else s.used - q.OldSize(), Without(s.blocks, q.ptr)), None)
    else if charged > limit || q.place.None? then Reply(Meter(charged, s.blocks), None)
    else Reply(Meter(charged, Without(s.blocks, q.ptr)[q.place.value := q.nsize]), q.place)
  }

  /** The call with a counter that cannot overflow. */
  function Call(limit: nat, s: Meter, q: Request): Reply { Settle(limit, s, q, s.used + q.Charge()) }

  /** The call with the 64-bit counter. */
  function Call64(limit: nat, s: Meter, q: Request): Reply { Settle(limit, s, q, (s.used + q.Charge()) % WORD) }

  /** Old sizes are the sizes of live blocks, and new places are unused. */
  predicate Truthful(s: Meter, q: Request) {
    && (q.ptr.Some? ==> q.ptr.value in s.blocks && s.blocks[q.ptr.value] == q.osize)
    && (q.place.Some? ==> q.place.value !in s.blocks || q.place == q.ptr)
  }

  method LuaAllocator(
      checker: MemoryLimitChecker, heap: CHeap, ptr: Option<Pointer>, osize: nat, nsize: nat, place: Option<Pointer>)
    returns (r: Option<Pointer>)
    modifies checker, heap
    ensures Reply(Meter(checker.used, heap.blocks), r) ==
            Call64(checker.limit, old(Meter(checker.used, heap.blocks)), Request(ptr, osize, nsize, place))
    ensures var size := if ptr.None? then 0 else osize;
            var others := if ptr.None? then old(heap.blocks) else old(heap.blocks) - {ptr.value};
            if nsize == 0 then
              && r == None && heap.blocks == others
              && checker.used == if old(checker.used) < size then 0 else old(checker.used) - size
            else
              && checker.used == (old(checker.used) + if nsize > size then nsize - size else size - nsize)
                                 % 0x1_0000_0000_0000_0000
              && (r == None <==> checker.used > checker.limit || place == None)
              && (r == None ==> heap.blocks == old(heap.blocks))
              && (r != None ==> r == place && heap.blocks == others[place.value := nsize])
  {
    var size := if ptr.None? then 0 else osize;
    if nsize == 0 {
      heap.Free(ptr);
      checker.Deallocated(size);
      return None;
    }
    var charge := if nsize > size then nsize - size else size - nsize;
    checker.Allocated(charge);
    if checker.IsLimitReached() {
      return None;
    }
    r := heap.Realloc(ptr, nsize, place);
  }

  // ----- Live bytes -----

  ghost function Live(blocks: Blocks): nat {
    if blocks == map[] then 0
    else
      var p :| p in blocks;
      blocks[p] + Live(blocks - {p})
  }

  lemma {:induction false} LiveWithout(blocks: Blocks, p: Pointer)
    requires p in blocks
    ensures Live(blocks) == blocks[p] + Live(blocks - {p})
    decreases |blocks|
  {
    var q :| q in blocks && Live(blocks) == blocks[q] + Live(blocks - {q});
    if p != q {
      LiveWithout(blocks - {q}, p);
      LiveWithout(blocks - {p}, q);
      assert blocks - {q} - {p} == blocks - {p} - {q};
    }
  }

  lemma LiveWith(blocks: Blocks, p: Pointer, size: nat)
    requires p !in blocks
    ensures Live(blocks[p := size]) == Live(blocks) + size
  {
    LiveWithout(blocks[p := size], p);
    assert blocks[p := size] - {p} == blocks;
  }

  // ----- One call -----

  predicate Accepted(limit: nat, s: Meter, q: Request) { Call(limit, s, q).ptr.Some? }

  /** Bytes given back by an accepted shrink. */
  function Shrunk(limit: nat, s: Meter, q: Request): nat {
    if Accepted(limit, s, q) && q.nsize < q.OldSize() then q.OldSize() - q.nsize else 0
  }

  /** The charge of a call that was answered with nothing although it asked for something. */
  function Lost(limit: nat, s: Meter, q: Request): nat {
    if q.nsize != 0 && !Accepted(limit, s, q) then q.Charge() else 0
  }

  lemma LiveAfter(limit: nat, s: Meter, q: Request)
    requires Truthful(s, q)
    ensures q.OldSize() <= Live(s.blocks)
    ensures var live' := Live(Call(limit, s, q).meter.blocks);
            live' == Live(s.blocks) + if q.nsize == 0 || Accepted(limit, s, q) then q.nsize - q.OldSize() else 0
  {
    var rest := Without(s.blocks, q.ptr);
    if q.ptr.Some? {
      LiveWithout(s.blocks, q.ptr.value);
    }
    if Accepted(limit, s, q) {
      LiveWith(rest, q.place.value, q.nsize);
    }
  }

  /** The counter runs ahead of the live bytes by twice each accepted shrink and by each lost charge. */
  lemma CallConserves(limit: nat, s: Meter, q: Request)
    requires Truthful(s, q) && Live(s.blocks) <= s.used
    ensures var s' := Call(limit, s, q).meter;
            && s'.used - Live(s'.blocks) == s.used - Live(s.blocks) + 2 * Shrunk(limit, s, q) + Lost(limit, s, q)
            && (Live(s.blocks) <= limit ==> Live(s'.blocks) <= limit)
    ensures q.nsize == 0 ==> q.OldSize() <= s.used
  {
    LiveAfter(limit, s, q);
  }

  /** With a limit of 100 bytes, a block of 80 cannot be shrunk to 40 in place. */
  lemma ShrinkCanFail()
    ensures var s := Call(100, Meter(0, map[]), Request(None, 5, 80, Some(1))).meter;
            var q := Request(Some(1), 80, 40, Some(1));
            Truthful(s, q) && !Accepted(100, s, q)
  {
  }

  // ----- Whole runs -----

  function Run(limit: nat, s: Meter, qs: seq<Request>): Meter
    decreases |qs|
  {
    if qs == [] then s else Run(limit, Call(limit, s, qs[0]).meter, qs[1..])
  }

  function Run64(limit: nat, s: Meter, qs: seq<Request>): Meter
    decreases |qs|
  {
    if qs == [] then s else Run64(limit, Call64(limit, s, qs[0]).meter, qs[1..])
  }

  predicate TruthfulRun(limit: nat, s: Meter, qs: seq<Request>)
    decreases |qs|
  {
    qs == [] || (Truthful(s, qs[0]) && TruthfulRun(limit, Call(limit, s, qs[0]).meter, qs[1..]))
  }

  function TotalShrunk(limit: nat, s: Meter, qs: seq<Request>): nat
    decreases |qs|
  {
    if qs == [] then 0 else Shrunk(limit, s, qs[0]) + TotalShrunk(limit, Call(limit, s, qs[0]).meter, qs[1..])
  }

  function TotalLost(limit: nat, s: Meter, qs: seq<Request>): nat
    decreases |qs|
  {
    if qs == [] then 0 else Lost(limit, s, qs[0]) + TotalLost(limit, Call(limit, s, qs[0]).meter, qs[1..])
  }

  function TotalCharge(qs: seq<Request>): nat {
    if qs == [] then 0 else qs[0].Charge() + TotalCharge(qs[1..])
  }

  lemma {:induction false} RunConserves(limit: nat, s: Meter, qs: seq<Request>)
    requires TruthfulRun(limit, s, qs) && Live(s.blocks) <= s.used && Live(s.blocks) <= limit
    ensures var s' := Run(limit, s, qs);
            && s'.used - Live(s'.blocks) ==
               s.used - Live(s.blocks) + 2 * TotalShrunk(limit, s, qs) + TotalLost(limit, s, qs)
            && Live(s'.blocks) <= limit
    decreases |qs|
  {
    if qs != [] {
      CallConserves(limit, s, qs[0]);
      RunConserves(limit, Call(limit, s, qs[0]).meter, qs[1..]);
    }
  }

  const EMPTY := Meter(0, map[])

  /**
   In every run from an empty heap the counter equals the live bytes plus twice the
   accepted shrinks plus the lost charges; live bytes never pass the counter or
   the limit.
   */
  lemma Conservation(limit: nat, qs: seq<Request>)
    requires TruthfulRun(limit, EMPTY, qs)
    ensures var s := Run(limit, EMPTY, qs);
            && s.used == Live(s.blocks) + 2 * TotalShrunk(limit, EMPTY, qs) + TotalLost(limit, EMPTY, qs)
            && Live(s.blocks) <= s.used && Live(s.blocks) <= limit
  {
    RunConserves(limit, EMPTY, qs);
  }

  /**
   Lua takes for granted that shrinking never fails.  Here, after any run, it fails
   exactly when the C heap does, or when the live bytes, twice all that was given
   back so far, all that was lost, and what this call gives back pass the limit.
   */
  lemma ShrinkFailsIff(limit: nat, qs: seq<Request>, q: Request)
    requires TruthfulRun(limit, EMPTY, qs) && Truthful(Run(limit, EMPTY, qs), q)
    requires 0 < q.nsize < q.OldSize()
    ensures var s := Run(limit, EMPTY, qs);
            !Accepted(limit, s, q) <==>
            || q.place.None?
            || Live(s.blocks) + 2 * TotalShrunk(limit, EMPTY, qs) + TotalLost(limit, EMPTY, qs)
               + (q.OldSize() - q.nsize) > limit
  {
    Conservation(limit, qs);
  }

  /**
   The same for every request for memory, be it new, growing, shrinking or neither:
   what the counter holds and the difference in size decide, and the C heap.  A
   granted block has the size asked for, and no other block changes.
   */
  lemma GrantedIff(limit: nat, qs: seq<Request>, q: Request)
    requires TruthfulRun(limit, EMPTY, qs) && Truthful(Run(limit, EMPTY, qs), q) && q.nsize > 0
    ensures var s := Run(limit, EMPTY, qs);
            var r := Call(limit, s, q);
            var size := if q.ptr.None? then 0 else q.osize;
            var difference := if q.nsize > size then q.nsize - size else size - q.nsize;
            && (r.ptr == None <==>
                  || q.place == None
                  || Live(s.blocks) + 2 * TotalShrunk(limit, EMPTY, qs) + TotalLost(limit, EMPTY, qs)
                     + difference > limit)
            && r.meter.used == s.used + difference
            && (r.ptr == None ==> r.meter.blocks == s.blocks)
            && (r.ptr != None ==>
                  && r.ptr == q.place && r.ptr.value in r.meter.blocks
                  && r.meter.blocks[r.ptr.value] == q.nsize
                  && forall p :: p != r.ptr.value ==>
                       && (p in r.meter.blocks <==> p in s.blocks && q.ptr != Some(p))
                       && (p in r.meter.blocks ==> r.meter.blocks[p] == s.blocks[p]))
  {
    Conservation(limit, qs);
  }

  /** A free gives back the size of its block exactly, and no other block changes. */
  lemma FreeGivesBack(limit: nat, qs: seq<Request>, q: Request)
    requires TruthfulRun(limit, EMPTY, qs) && Truthful(Run(limit, EMPTY, qs), q) && q.nsize == 0
    ensures var s := Run(limit, EMPTY, qs);
            var r := Call(limit, s, q);
            && r.ptr == None
            && r.meter.used == s.used - (if q.ptr.None? then 0 else q.osize)
            && forall p ::
                 && (p in r.meter.blocks <==> p in s.blocks && q.ptr != Some(p))
                 && (p in r.meter.blocks ==> r.meter.blocks[p] == s.blocks[p])
  {
    ClampNeverTaken(limit, qs, q);
  }

  /** After any run, freeing a block never asks the counter for more than it holds. */
  lemma ClampNeverTaken(limit: nat, qs: seq<Request>, q: Request)
    requires TruthfulRun(limit, EMPTY, qs) && Truthful(Run(limit, EMPTY, qs), q)
    ensures q.OldSize() <= Run(limit, EMPTY, qs).used
  {
    Conservation(limit, qs);
    LiveAfter(limit, Run(limit, EMPTY, qs), q);
  }

  /** Once the overcharge alone passes the limit nothing is granted any more, whatever is freed. */
  lemma {:induction false} OverchargeAbsorbs(limit: nat, s: Meter, qs: seq<Request>, q: Request)
    requires TruthfulRun(limit, s, qs) && Live(s.blocks) <= s.used && Live(s.blocks) <= limit
    requires s.used - Live(s.blocks) > limit
    ensures !Accepted(limit, Run(limit, s, qs), q)
  {
    RunConserves(limit, s, qs);
  }

  // ----- The 64-bit counter -----

  lemma CallWithinWord(limit: nat, s: Meter, q: Request)
    requires s.used + q.Charge() < WORD
    ensures Call64(limit, s, q) == Call(limit, s, q)
    ensures Call(limit, s, q).meter.used <= s.used + q.Charge()
  {
    WithinWord(s.used + q.Charge());
  }

  lemma WithinWord(n: nat)
    requires n < WORD
    ensures n % WORD == n
  {
  }

  /** No call of the run takes the counter out of its word. */
  predicate NeverWraps(limit: nat, s: Meter, qs: seq<Request>)
    decreases |qs|
  {
    qs == [] || (s.used + qs[0].Charge() < WORD && NeverWraps(limit, Call(limit, s, qs[0]).meter, qs[1..]))
  }

  /** After `n` calls both counters have led to the same. */
  ghost predicate Agrees(limit: nat, s: Meter, qs: seq<Request>, n: nat)
    requires n <= |qs|
  {
    Run64(limit, s, qs[..n]) == Run(limit, s, qs[..n])
  }

  lemma AgreesLater(limit: nat, s: Meter, qs: seq<Request>, n: nat)
    requires n < |qs| && s.used + qs[0].Charge() < WORD
    ensures Agrees(limit, s, qs, n + 1) <==> Agrees(limit, Call(limit, s, qs[0]).meter, qs[1..], n)
  {
    CallWithinWord(limit, s, qs[0]);
    assert qs[..n + 1][1..] == qs[1..][..n];
  }

  lemma WrapsAtOnce(limit: nat, s: Meter, qs: seq<Request>)
    requires qs != [] && s.used < WORD <= s.used + qs[0].Charge()
    ensures !Agrees(limit, s, qs, 1)
  {
    assert qs[..1][1..] == [];
    assert Run64(limit, s, qs[..1]) == Call64(limit, s, qs[0]).meter;
    assert Run(limit, s, qs[..1]) == Call(limit, s, qs[0]).meter;
  }

  /** The 64-bit counter and the unbounded one agree throughout a run exactly when none of its sums leaves the word. */
  lemma {:induction false} AgreesIffNeverWraps(limit: nat, s: Meter, qs: seq<Request>)
    requires s.used < WORD
    ensures NeverWraps(limit, s, qs) <==> forall n :: 0 <= n <= |qs| ==> Agrees(limit, s, qs, n)
    decreases |qs|
  {
    if qs != [] {
      if s.used + qs[0].Charge() < WORD {
        var s' := Call(limit, s, qs[0]).meter;
        CallWithinWord(limit, s, qs[0]);
        AgreesIffNeverWraps(limit, s', qs[1..]);
        forall n: nat | n < |qs|
          ensures Agrees(limit, s, qs, n + 1) <==> Agrees(limit, s', qs[1..], n)
        {
          AgreesLater(limit, s, qs, n);
        }
        if forall n :: 0 <= n <= |qs| ==> Agrees(limit, s, qs, n) {
          assert forall n: nat :: n < |qs| ==> Agrees(limit, s', qs[1..], n);
        }
        if NeverWraps(limit, s, qs) {
          forall n | 0 <= n <= |qs|
            ensures Agrees(limit, s, qs, n)
          {
            assert n > 0 ==> Agrees(limit, s', qs[1..], n - 1);
          }
        }
      } else {
        WrapsAtOnce(limit, s, qs);
      }
    }
  }

  /** As long as all charges of a run together fit the word, the 64-bit counter is the unbounded one. */
  lemma {:induction false} WordRefinesUnbounded(limit: nat, s: Meter, qs: seq<Request>)
    requires s.used + TotalCharge(qs) < WORD
    ensures NeverWraps(limit, s, qs) && Run64(limit, s, qs) == Run(limit, s, qs)
    ensures Run(limit, s, qs).used <= s.used + TotalCharge(qs)
    decreases |qs|
  {
    if qs != [] {
      CallWithinWord(limit, s, qs[0]);
      WordRefinesUnbounded(limit, Call(limit, s, qs[0]).meter, qs[1..]);
    }
  }

  /** So the laws of the unbounded counter are laws of the real one for every run that never wraps. */
  lemma Conservation64(limit: nat, qs: seq<Request>)
    requires TruthfulRun(limit, EMPTY, qs) && NeverWraps(limit, EMPTY, qs)
    ensures var s := Run64(limit, EMPTY, qs);
            && s.used == Live(s.blocks) + 2 * TotalShrunk(limit, EMPTY, qs) + TotalLost(limit, EMPTY, qs)
            && Live(s.blocks) <= s.used && Live(s.blocks) <= limit
  {
    AgreesIffNeverWraps(limit, EMPTY, qs);
    assert Agrees(limit, EMPTY, qs, |qs|) && qs[..|qs|] == qs;
    Conservation(limit, qs);
  }
}
