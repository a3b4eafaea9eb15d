/** app/storage/fallback.py: a primary store that may fail, and the in-process store that steps in. */
module Fallback {
  import opened Storage
  import opened Wrappers

  type Shelf = map<Key, Record>

  datatype Op = Get(key: Key) | PutIfAbsent(key: Key, record: Record) | Put(key: Key, record: Record)

  datatype Answer = Found(record: Option<Record>) | Stored(done: bool)

  /** What a store that never fails does. */
  function Serve(shelf: Shelf, op: Op): (Shelf, Answer) {
    match op
    case Get(k) => (shelf, Found(if k in shelf then Some(shelf[k]) else None))
    case PutIfAbsent(k, r) => if k in shelf then (shelf, Stored(false)) else (shelf[k := r], Stored(true))
    case Put(k, r) => (shelf[k := r], Stored(true))
  }

  /** The errors FallbackStore handles. */
  datatype Failure = StoreUnavailableError(reason: string) | TimeoutError | OtherOSError

  function Classify(e: Failure): string {
    match e
    case StoreUnavailableError(reason) => reason
    case TimeoutError => "timeout"
    case OtherOSError => "connection"
  }

  predicate IsTimeout(e: Failure) {
    Classify(e) == "timeout"
  }

  /** How one call on the primary goes. A call that fails may have taken effect all the same. */
  datatype Fate = Serves | Fails(failure: Failure, applied: bool)

  predicate TimesOut(fate: Fate) {
    fate.Fails? && IsTimeout(fate.failure)
  }

  predicate Disconnects(fate: Fate) {
    fate.Fails? && !IsTimeout(fate.failure)
  }

  datatype Reply = Ok(answer: Answer) | Raised(failure: Failure)

  function Call(shelf: Shelf, op: Op, fate: Fate): (Shelf, Reply) {
    var (after, answer) := Serve(shelf, op);
    match fate
    case Serves => (after, Ok(answer))
    case Fails(e, applied) => (if applied then after else shelf, Raised(e))
  }

  // ---- the switch-over, one awaited call at a time ----

  /** Which call an operation awaits: the primary, the primary again, or the fallback. */
  datatype Stage = First | Again | Spare

  datatype Verdict = Return(answer: Answer) | Go(stage: Stage) | Unavailable

  function Route(stage: Stage, reply: Reply): Verdict {
    match reply
    case Ok(answer) => if stage == First && answer == Found(None) then Go(Spare) else Return(answer)
    case Raised(e) =>
      if !IsTimeout(e) then Go(Spare)
      else if stage == First then Go(Again)
      else Unavailable
  }

  datatype Stores = Stores(primary: Shelf, fallback: Shelf)

  /** How an operation ends, in which stores, and after how many calls on the primary. */
  datatype Ending = Ending(stores: Stores, verdict: Verdict, primaryCalls: nat)

  function Left(stage: Stage): nat {
    match stage
    case First => 2
    case Again => 1
    case Spare => 0
  }

  function NextFate(script: seq<Fate>): Fate {
    if script == [] then Serves else script[0]
  }

  function LaterFates(script: seq<Fate>): seq<Fate> {
    if script == [] then [] else script[1..]
  }

  function FatesAfter(script: seq<Fate>, calls: nat): seq<Fate> {
    if calls == 0 then script else FatesAfter(LaterFates(script), calls - 1)
  }

  /** The operation from `stage` on, the primary's next calls going as scripted. */
  function Operate(stage: Stage, stores: Stores, op: Op, script: seq<Fate>): Ending
    decreases Left(stage)
  {
    if stage == Spare then
      var (shelf, answer) := Serve(stores.fallback, op);
      Ending(stores.(fallback := shelf), Return(answer), 0)
    else
      var (shelf, reply) := Call(stores.primary, op, NextFate(script));
      var after := stores.(primary := shelf);
      var verdict := Route(stage, reply);
      if verdict.Go? && Left(verdict.stage) < Left(stage) then
        var rest := Operate(verdict.stage, after, op, LaterFates(script));
        rest.(primaryCalls := rest.primaryCalls + 1)
      else Ending(after, verdict, 1)
  }

  // ---- the class ----

  /** A store whose coming calls go as scripted. */
  class Backend {
    var shelf: Shelf
    var script: seq<Fate>
    var calls: nat

    constructor (script: seq<Fate>)
      ensures shelf == map[] && this.script == script && calls == 0
    {
      shelf, calls := map[], 0;
      this.script := script;
    }

    method Run(op: Op) returns (reply: Reply)
      modifies this
      ensures (shelf, reply) == Call(old(shelf), op, NextFate(old(script)))
      ensures script == LaterFates(old(script)) && calls == old(calls) + 1
    {
      var (after, r) := Call(shelf, op, NextFate(script));
      shelf, script, calls, reply := after, LaterFates(script), calls + 1, r;
    }
  }

  class FallbackStore {
    const primary: Backend
    const fallback: Backend

    ghost predicate Valid()
      reads this, fallback
    {
      primary != fallback && fallback.script == []
    }

    ghost function Both(): Stores
      reads primary, fallback
    {
      Stores(primary.shelf, fallback.shelf)
    }

    constructor (primary: Backend, fallback: Backend)
      requires primary != fallback && fallback.script == []
      ensures Valid() && this.primary == primary && this.fallback == fallback
    {
      this.primary, this.fallback := primary, fallback;
    }

    method HandleError(op: Op, e: Failure) returns (verdict: Verdict)
      requires Valid()
      modifies primary, fallback
      ensures Valid()
      ensures var ending := Operate(if IsTimeout(e) then Again else Spare, old(Both()), op, old(primary.script));
        && Both() == ending.stores && verdict == ending.verdict
        && primary.calls == old(primary.calls) + ending.primaryCalls
        && primary.script == FatesAfter(old(primary.script), ending.primaryCalls)
    {
      if Classify(e) == "timeout" {
        var reply := primary.Run(op);
        if reply.Ok? {
          return Return(reply.answer);
        }
        if Classify(reply.failure) == "timeout" {
          return Unavailable;
        }
      }
      var spare := fallback.Run(op);
      return Return(spare.answer);
    }

    method GetRecord(key: Key) returns (verdict: Verdict)
      requires Valid()
      modifies primary, fallback
      ensures Valid()
      ensures var ending := Operate(First, old(Both()), Get(key), old(primary.script));
        && Both() == ending.stores && verdict == ending.verdict
        && primary.calls == old(primary.calls) + ending.primaryCalls
        && primary.script == FatesAfter(old(primary.script), ending.primaryCalls)
    {
      var reply := primary.Run(Get(key));
      if reply.Raised? {
        verdict := HandleError(Get(key), reply.failure);
        return;
      }
      if reply.answer.record != None {
        return Return(reply.answer);
      }
      var spare := fallback.Run(Get(key));
      return Return(spare.answer);
    }

    method PutRecordIfAbsent(key: Key, record: Record) returns (verdict: Verdict)
      requires Valid()
      modifies primary, fallback
      ensures Valid()
      ensures var ending := Operate(First, old(Both()), PutIfAbsent(key, record), old(primary.script));
        && Both() == ending.stores && verdict == ending.verdict
        && primary.calls == old(primary.calls) + ending.primaryCalls
        && primary.script == FatesAfter(old(primary.script), ending.primaryCalls)
    {
      var reply := primary.Run(PutIfAbsent(key, record));
      if reply.Ok? {
        return Return(reply.answer);
      }
      verdict := HandleError(PutIfAbsent(key, record), reply.failure);
    }

    method PutRecord(key: Key, record: Record) returns (verdict: Verdict)
      requires Valid()
      modifies primary, fallback
      ensures Valid()
      ensures var ending := Operate(First, old(Both()), Put(key, record), old(primary.script));
        && Both() == ending.stores && verdict == ending.verdict
        && primary.calls == old(primary.calls) + ending.primaryCalls
        && primary.script == FatesAfter(old(primary.script), ending.primaryCalls)
    {
      var reply := primary.Run(Put(key, record));
      if reply.Ok? {
        return Return(reply.answer);
      }
      verdict := HandleError(Put(key, record), reply.failure);
    }
  }

  // ---- the table of failures, error by error ----

  function Landed(shelf: Shelf, op: Op, applied: bool): Shelf {
    if applied then Serve(shelf, op).0 else shelf
  }

  /** A first call that is served answers, except that a lookup which finds nothing asks the fallback. */
  lemma ServedAtOnce(stores: Stores, op: Op, script: seq<Fate>)
    requires NextFate(script) == Serves
    ensures Operate(First, stores, op, script)
         == (if op.Get? && op.key !in stores.primary then Ending(stores, Return(Serve(stores.fallback, op).1), 1)
             else Ending(stores.(primary := Serve(stores.primary, op).0), Return(Serve(stores.primary, op).1), 1))
  {
    var spare := Operate(Spare, stores, op, LaterFates(script));
  }

  /** A timeout, raw or wrapped by the Redis store, is followed by a second call on the primary: if that is served it
      answers, after another timeout the operation is refused, and after a lost connection the fallback answers. */
  lemma RetriedAfterATimeout(stores: Stores, op: Op, script: seq<Fate>, e: Failure, applied: bool)
    requires NextFate(script) == Fails(e, applied)
    requires e == TimeoutError || e == StoreUnavailableError("timeout")
    ensures var ending, first := Operate(First, stores, op, script), Landed(stores.primary, op, applied);
      match NextFate(LaterFates(script))
      case Serves =>
        ending == Ending(stores.(primary := Serve(first, op).0), Return(Serve(first, op).1), 2)
      case Fails(again, too) =>
        var second := Landed(first, op, too);
        && (again == TimeoutError || again == StoreUnavailableError("timeout") ==>
              ending == Ending(stores.(primary := second), Unavailable, 2))
        && (again == OtherOSError || again == StoreUnavailableError("connection") ==>
              ending == Ending(Stores(second, Serve(stores.fallback, op).0), Return(Serve(stores.fallback, op).1), 2))
  {
    var later, first := LaterFates(script), stores.(primary := Landed(stores.primary, op, applied));
    var again := Operate(Again, first, op, later);
    var second := first.(primary := Call(first.primary, op, NextFate(later)).0);
    var spare := Operate(Spare, second, op, LaterFates(later));
  }

  /** A lost connection, raw or wrapped, sends the operation to the fallback at once. */
  lemma SwitchedOverAfterADisconnection(stores: Stores, op: Op, script: seq<Fate>, e: Failure, applied: bool)
    requires NextFate(script) == Fails(e, applied)
    requires e == OtherOSError || e == StoreUnavailableError("connection")
    ensures Operate(First, stores, op, script)
         == Ending(Stores(Landed(stores.primary, op, applied), Serve(stores.fallback, op).0),
                   Return(Serve(stores.fallback, op).1), 1)
  {
    var first := stores.(primary := Landed(stores.primary, op, applied));
    var spare := Operate(Spare, first, op, LaterFates(script));
  }

  // ---- what callers can rely on ----

  ghost predicate Has(shelf: Shelf, key: Key, record: Record) {
    key in shelf && shelf[key] == record
  }

  /** A write that reports success has left the record in one of the two stores. */
  lemma SuccessfulWritesAreKept(stores: Stores, op: Op, script: seq<Fate>)
    requires !op.Get?
    requires Operate(First, stores, op, script).verdict == Return(Stored(true))
    ensures var after := Operate(First, stores, op, script).stores;
      Has(after.primary, op.key, op.record) || Has(after.fallback, op.key, op.record)
  {
    var f := NextFate(script);
    var again := Operate(Again, stores.(primary := Call(stores.primary, op, f).0), op, LaterFates(script));
  }

  /** An operation is refused exactly when two calls on the primary time out; those two are then all the
      calls there were, and the fallback has not been touched. */
  lemma RefusedIffTwoTimeouts(stores: Stores, op: Op, script: seq<Fate>)
    ensures var ending := Operate(First, stores, op, script);
      && (ending.verdict == Unavailable <==>
            (TimesOut(NextFate(script)) && TimesOut(NextFate(LaterFates(script)))))
      && (ending.verdict == Unavailable ==> ending.primaryCalls == 2 && ending.stores.fallback == stores.fallback)
      && ending.primaryCalls <= 2
      && !ending.verdict.Go?
  {
    var f := NextFate(script);
    var after := stores.(primary := Call(stores.primary, op, f).0);
    var again := Operate(Again, after, op, LaterFates(script));
    var spare := Operate(Spare, after, op, LaterFates(script));
    assert !again.verdict.Go? && again.primaryCalls == 1;
  }

  /** A record that only the fallback has is overlooked exactly when the first call on the primary times out
      and the second one answers. */
  lemma FallbackRecordOverlookedIff(stores: Stores, key: Key, script: seq<Fate>)
    requires key in stores.fallback
    ensures Operate(First, stores, Get(key), script).verdict == Return(Found(None))
       <==> key !in stores.primary && TimesOut(NextFate(script)) && NextFate(LaterFates(script)) == Serves
  {
    var again := Operate(Again, stores, Get(key), LaterFates(script));
  }

  /** put_if_absent answers "already there" about its own record exactly when its first call timed out after
      taking effect and its second call was served. */
  lemma OwnRecordReportedAsForeignIff(stores: Stores, key: Key, record: Record, script: seq<Fate>)
    requires key !in stores.primary && key !in stores.fallback
    ensures Operate(First, stores, PutIfAbsent(key, record), script).verdict == Return(Stored(false))
       <==> TimesOut(NextFate(script)) && NextFate(script).applied && NextFate(LaterFates(script)) == Serves
  {
    var op := PutIfAbsent(key, record);
    var after := stores.(primary := Call(stores.primary, op, NextFate(script)).0);
    var again := Operate(Again, after, op, LaterFates(script));
  }

  // ---- whole sequences of operations ----

  datatype ScriptedOp = ScriptedOp(op: Op, script: seq<Fate>)

  ghost function RunAll(stores: Stores, steps: seq<ScriptedOp>): (Stores, seq<Verdict>)
    decreases |steps|
  {
    if steps == [] then (stores, [])
    else
      var ending := Operate(First, stores, steps[0].op, steps[0].script);
      var (after, verdicts) := RunAll(ending.stores, steps[1..]);
      (after, [ending.verdict] + verdicts)
  }

  ghost function ServeAll(shelf: Shelf, steps: seq<ScriptedOp>): (Shelf, seq<Verdict>)
    decreases |steps|
  {
    if steps == [] then (shelf, [])
    else
      var (next, answer) := Serve(shelf, steps[0].op);
      var (after, verdicts) := ServeAll(next, steps[1..]);
      (after, [Return(answer)] + verdicts)
  }

  /** Over a primary that never fails, with nothing in the fallback, the store behaves as the primary. */
  lemma {:induction false} HealthyPrimarySimulation(shelf: Shelf, steps: seq<ScriptedOp>)
    requires forall s :: s in steps ==> NextFate(s.script) == Serves
    ensures RunAll(Stores(shelf, map[]), steps)
         == (Stores(ServeAll(shelf, steps).0, map[]), ServeAll(shelf, steps).1)
    decreases |steps|
  {
    if steps != [] {
      assert steps[0] in steps;
      HealthyPrimarySimulation(Serve(shelf, steps[0].op).0, steps[1..]);
      assert Operate(Spare, Stores(shelf, map[]), steps[0].op, LaterFates(steps[0].script)).stores.fallback
          == Serve(map[], steps[0].op).0;
    }
  }

  /** Over a primary that is always disconnected, the store behaves as the fallback. */
  lemma {:induction false} DeadPrimarySimulation(stores: Stores, steps: seq<ScriptedOp>)
    requires forall s :: s in steps ==> Disconnects(NextFate(s.script))
    ensures RunAll(stores, steps).1 == ServeAll(stores.fallback, steps).1
    ensures RunAll(stores, steps).0.fallback == ServeAll(stores.fallback, steps).0
    decreases |steps|
  {
    if steps != [] {
      assert steps[0] in steps;
      var ending := Operate(First, stores, steps[0].op, steps[0].script);
      assert ending.stores.fallback == Serve(stores.fallback, steps[0].op).0;
      DeadPrimarySimulation(ending.stores, steps[1..]);
    }
  }
}
