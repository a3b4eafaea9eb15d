/** app/core/processor.py over app/storage/fallback.py: one request from its arrival to its answer. */
module Processing {
  import opened Storage
  import opened Restoration
  import opened Masking
  import opened Policy
  import opened Engine
  import opened ChatProxy
  import opened Fallback
  import opened Protocol
  import opened Agreement
  import opened Outage
  import opened Wrappers

  // ---- a request and the calls it makes ----

  /** In which order each set of fragments is iterated. */
  type SetOrder = seq<Fragment> -> seq<Fragment>

  ghost predicate Lists(order: SetOrder) {
    forall fs :: Enumerates(order(fs), fs)
  }

  function OrderFor(verdict: Verdict, order: SetOrder): seq<Fragment> {
    match verdict
    case Return(Found(Some(record))) => order(record.fragments)
    case _ => []
  }

  function Phase(p: Progress): nat {
    match p
    case Looking(_) => 4
    case Reserving(_, _) => 3
    case Rereading(_, _) => 2
    case Overwriting(_, _) => 1
    case Finished(_) => 0
  }

  datatype Conclusion = Conclusion(stores: Stores, response: Response)

  predicate AnswerFits(op: Op, answer: Answer) {
    (op.Get? <==> answer.Found?) && (op.Put? ==> answer == Stored(true))
  }

  /** An operation always comes to an end, with an answer of its own kind. */
  lemma {:induction false} OperationEnds(stage: Stage, stores: Stores, op: Op, script: seq<Fate>)
    ensures var verdict := Operate(stage, stores, op, script).verdict;
      verdict == Unavailable || (verdict.Return? && AnswerFits(op, verdict.answer))
    decreases Left(stage)
  {
    if stage != Spare {
      var (shelf, reply) := Call(stores.primary, op, NextFate(script));
      var verdict := Route(stage, reply);
      if verdict.Go? && Left(verdict.stage) < Left(stage) {
        OperationEnds(verdict.stage, stores.(primary := shelf), op, LaterFates(script));
      }
    }
  }

  lemma PhaseFalls(svc: Service, r: Request, verdict: Verdict, hashOrder: seq<Fragment>)
    requires !r.progress.Finished?
    requires verdict == Unavailable || (verdict.Return? && AnswerFits(Awaited(r), verdict.answer))
    ensures Phase(Resume(svc, r, verdict, hashOrder)) < Phase(r.progress)
  {
  }

  /** What becomes of a request from where it stands, when nothing comes between its calls, those on the primary go
      as scripted, and a write that failed but took effect lands at once. */
  ghost function Conclude(svc: Service, stores: Stores, r: Request, script: seq<Fate>, order: SetOrder): Conclusion
    decreases Phase(r.progress)
  {
    if r.progress.Finished? then Conclusion(stores, r.progress.response)
    else
      var ending := Operate(r.progress.at, stores, Awaited(r), script);
      OperationEnds(r.progress.at, stores, Awaited(r), script);
      PhaseFalls(svc, r, ending.verdict, OrderFor(ending.verdict, order));
      var next := r.(progress := Resume(svc, r, ending.verdict, OrderFor(ending.verdict, order)));
      Conclude(svc, ending.stores, next, FatesAfter(script, ending.primaryCalls), order)
  }

  // ---- Conclude is what the interleaved model does when nothing interleaves ----

  ghost function StoresOf(s: State, worker: nat): Stores {
    Stores(s.primary, FallbackOf(s, worker))
  }

  /** Single calls, and the landing of a write that failed but took effect. */
  lemma CallIsARun(svc: Service, s: State, i: nat, fate: Fate, hashOrder: seq<Fragment>) returns (actions: seq<Action>)
    requires i < |s.requests| && !s.requests[i].progress.Finished? && s.requests[i].progress.at != Spare
    requires var r := s.requests[i];
      OrderFits(Route(r.progress.at, Call(s.primary, Awaited(r), fate).1), hashOrder)
    ensures var r, s' := s.requests[i], Run(svc, s, actions);
      var (shelf, reply) := Call(s.primary, Awaited(r), fate);
      && StoresOf(s', r.worker) == StoresOf(s, r.worker).(primary := shelf)
      && s'.inFlight == s.inFlight
      && s'.requests
         == s.requests[i := r.(progress := Resume(svc, r, Route(r.progress.at, reply), hashOrder))]
  {
    var r, a := s.requests[i], Advance(i, fate, hashOrder);
    var op := Awaited(r);
    var s1 := Step(svc, s, a);
    if fate.Fails? && fate.applied && !op.Get? {
      actions := [a, Deliver(|s.inFlight|)];
      assert [a, Deliver(|s.inFlight|)][1..] == [Deliver(|s.inFlight|)];
      assert s1.inFlight == s.inFlight + [op];
      var s2 := Step(svc, s1, Deliver(|s.inFlight|));
      assert s2.inFlight == s.inFlight;
      assert [Deliver(|s.inFlight|)][1..] == [];
      assert Run(svc, s1, [Deliver(|s.inFlight|)]) == Run(svc, s2, []) == s2;
    } else {
      actions := [a];
      assert [a][1..] == [];
      assert Run(svc, s, actions) == Run(svc, s1, []) == s1;
    }
  }

  lemma GoOn(svc: Service, r: Request, stage: Stage, verdict: Verdict, hashOrder: seq<Fragment>)
    requires !r.progress.Finished? && !verdict.Go?
    ensures var moved := r.(progress := Resume(svc, r, Go(stage), hashOrder));
      && !moved.progress.Finished? && moved.progress.at == stage && Awaited(moved) == Awaited(r)
      && (AnswerFits(Awaited(r), if verdict.Return? then verdict.answer else Found(None)) ==>
            Resume(svc, moved, verdict, hashOrder) == Resume(svc, r, verdict, hashOrder))
  {
  }

  /** One operation of a request is a run. */
  lemma {:induction false} OperationIsARun(svc: Service, s: State, i: nat, script: seq<Fate>, order: SetOrder)
    returns (actions: seq<Action>)
    requires i < |s.requests| && !s.requests[i].progress.Finished? && Lists(order)
    ensures var r, s' := s.requests[i], Run(svc, s, actions);
      var ending := Operate(r.progress.at, StoresOf(s, r.worker), Awaited(r), script);
      && StoresOf(s', r.worker) == ending.stores && s'.inFlight == s.inFlight
      && s'.requests
         == s.requests[i := r.(progress := Resume(svc, r, ending.verdict, OrderFor(ending.verdict, order)))]
    decreases Left(s.requests[i].progress.at)
  {
    var r := s.requests[i];
    var at, op := r.progress.at, Awaited(r);
    var ending := Operate(at, StoresOf(s, r.worker), op, script);
    OperationEnds(at, StoresOf(s, r.worker), op, script);
    if at == Spare {
      var a := Advance(i, Serves, OrderFor(ending.verdict, order));
      actions := [a];
      assert [a][1..] == [];
      assert Run(svc, s, actions) == Run(svc, Step(svc, s, a), []) == Step(svc, s, a);
    } else {
      var (shelf, reply) := Call(s.primary, op, NextFate(script));
      var verdict := Route(at, reply);
      actions := CallIsARun(svc, s, i, NextFate(script), OrderFor(verdict, order));
      if verdict.Go? {
        var s1 := Run(svc, s, actions);
        GoOn(svc, r, verdict.stage, ending.verdict, OrderFor(ending.verdict, order));
        var more := OperationIsARun(svc, s1, i, LaterFates(script), order);
        RunSplits(svc, s, actions, more);
        actions := actions + more;
      }
    }
  }

  /** Left alone, a request of the interleaved model ends as Conclude says. */
  lemma {:induction false} RequestIsARun(svc: Service, s: State, i: nat, script: seq<Fate>, order: SetOrder)
    returns (actions: seq<Action>)
    requires i < |s.requests| && Lists(order)
    ensures var r, s' := s.requests[i], Run(svc, s, actions);
      var end := Conclude(svc, StoresOf(s, r.worker), r, script, order);
      && StoresOf(s', r.worker) == end.stores && s'.inFlight == s.inFlight
      && s'.requests == s.requests[i := r.(progress := Finished(end.response))]
    decreases Phase(s.requests[i].progress)
  {
    var r := s.requests[i];
    if r.progress.Finished? {
      actions := [];
    } else {
      var ending := Operate(r.progress.at, StoresOf(s, r.worker), Awaited(r), script);
      OperationEnds(r.progress.at, StoresOf(s, r.worker), Awaited(r), script);
      PhaseFalls(svc, r, ending.verdict, OrderFor(ending.verdict, order));
      actions := OperationIsARun(svc, s, i, script, order);
      var more := RequestIsARun(svc, Run(svc, s, actions), i, FatesAfter(script, ending.primaryCalls), order);
      RunSplits(svc, s, actions, more);
      actions := actions + more;
    }
  }

  // ---- when is a record that only the fallback has of no use? ----

  /** The first call times out and the second one is served. */
  predicate AskedBlindly(script: seq<Fate>) {
    TimesOut(NextFate(script)) && NextFate(LaterFates(script)) == Serves
  }

  /** A reread misses the fallback's record: the primary answers, with the request's own record if that has landed
      there, or blindly if it has not. */
  predicate RereadMisses(landed: bool, script: seq<Fate>) {
    AskedBlindly(script) || (landed && NextFate(script) == Serves)
  }

  /** A reservation does not lead back to the fallback's record: the primary takes the request's own record, or the
      request is told that there is one and the reread misses the fallback's. */
  predicate ReservationMisses(script: seq<Fate>) {
    var g, h := NextFate(script), NextFate(LaterFates(script));
    if g == Serves then true
    else if Disconnects(g) then RereadMisses(g.applied, LaterFates(script))
    else if h == Serves then g.applied ==> RereadMisses(true, LaterFates(LaterFates(script)))
    else Disconnects(h) && RereadMisses(g.applied || h.applied, LaterFates(LaterFates(script)))
  }

  /** The condition on how the primary's calls go. */
  predicate HidesTheRecord(script: seq<Fate>) {
    AskedBlindly(script) && ReservationMisses(LaterFates(LaterFates(script)))
  }

  /** The request's payload has been masked anew, although it should have been answered from the record. */
  ghost predicate MaskedAnew(svc: Service, r: Request, record: Record, response: Response) {
    && response.Result? && response.text == svc(r.payload, r.policy).text
    && (r.payload == record.masked != record.original ==> !RefusedOrAnswered(r, response, record))
  }

  lemma FoundItsOwn(svc: Service, r: Request, record: Record, hashOrder: seq<Fragment>)
    ensures var own := RecordFor(svc, r.payload, r.policy);
      && Existing(svc, r.payload, r.policy, own, hashOrder) == Finished(LateAnswer(r, own))
      && MaskedAnew(svc, r, record, LateAnswer(r, own))
      && MaskedAnew(svc, r, record, Result(own.masked, Mask))
  {
  }

  lemma RereadEnds(svc: Service, stores: Stores, r: Request, record: Record, script: seq<Fate>, order: SetOrder)
    requires Carries(r, record) && Has(stores.fallback, r.key, record)
    requires var own := RecordFor(svc, r.payload, r.policy);
      r.progress == Rereading(First, own) && (r.key in stores.primary ==> stores.primary[r.key] == own)
    ensures var response := Conclude(svc, stores, r, script, order).response;
      if RereadMisses(r.key in stores.primary, script) then MaskedAnew(svc, r, record, response)
      else RefusedOrAnswered(r, response, record)
  {
    var ending := Operate(First, stores, Get(r.key), script);
    var again := Operate(Again, stores, Get(r.key), LaterFates(script));
    FoundItsOwn(svc, r, record, order(RecordFor(svc, r.payload, r.policy).fragments));
    assert ending.verdict == Unavailable || ending.verdict == Return(Found(None))
        || ending.verdict == Return(Found(Some(record)))
        || ending.verdict == Return(Found(Some(RecordFor(svc, r.payload, r.policy))));
  }

  lemma ReservationEnds(svc: Service, stores: Stores, r: Request, record: Record, script: seq<Fate>, order: SetOrder)
    requires Carries(r, record) && Has(stores.fallback, r.key, record) && r.key !in stores.primary
    requires r.progress == Reserving(First, RecordFor(svc, r.payload, r.policy))
    ensures var response := Conclude(svc, stores, r, script, order).response;
      if ReservationMisses(script) then MaskedAnew(svc, r, record, response)
      else RefusedOrAnswered(r, response, record)
  {
    var own := RecordFor(svc, r.payload, r.policy);
    var op := PutIfAbsent(r.key, own);
    var ending := Operate(First, stores, op, script);
    var left := FatesAfter(script, ending.primaryCalls);
    FoundItsOwn(svc, r, record, []);
    ReservationMeans(stores, r.key, own, record, script);
    if ending.verdict == Return(Stored(false)) {
      var next := r.(progress := Rereading(First, own));
      assert Conclude(svc, stores, r, script, order) == Conclude(svc, ending.stores, next, left, order);
      RereadEnds(svc, ending.stores, next, record, left, order);
      assert LateAnswer(next, record) == LateAnswer(r, record);
    }
  }

  /** How a reservation ends when only the fallback has the id. */
  lemma ReservationMeans(stores: Stores, key: Key, own: Record, record: Record, script: seq<Fate>)
    requires Has(stores.fallback, key, record) && key !in stores.primary
    ensures var ending := Operate(First, stores, PutIfAbsent(key, own), script);
      && (ending.verdict == Unavailable || ending.verdict.Return?)
      && Has(ending.stores.fallback, key, record)
      && (key in ending.stores.primary ==> ending.stores.primary[key] == own)
      && (ending.verdict == Unavailable ==> !ReservationMisses(script))
      && (ending.verdict == Return(Stored(true)) ==> ReservationMisses(script))
      && (ending.verdict != Unavailable && ending.verdict != Return(Stored(true)) ==>
            && ending.verdict == Return(Stored(false))
            && (ReservationMisses(script)
                <==> RereadMisses(key in ending.stores.primary, FatesAfter(script, ending.primaryCalls))))
  {
    var op := PutIfAbsent(key, own);
    var later := LaterFates(script);
    var first := Call(stores.primary, op, NextFate(script)).0;
    var again := Operate(Again, stores.(primary := first), op, later);
    assert FatesAfter(script, 1) == FatesAfter(later, 0) == later;
    assert FatesAfter(script, 2) == FatesAfter(later, 1) == FatesAfter(LaterFates(later), 0) == LaterFates(later);
  }

  lemma LookupMeans(stores: Stores, key: Key, record: Record, script: seq<Fate>)
    requires Has(stores.fallback, key, record) && key !in stores.primary
    ensures var ending := Operate(First, stores, Get(key), script);
      && ending.stores == stores
      && ending.verdict
         == (if AskedBlindly(script) then Return(Found(None))
             else if TimesOut(NextFate(script)) && TimesOut(NextFate(LaterFates(script))) then Unavailable
             else Return(Found(Some(record))))
      && (AskedBlindly(script) ==> FatesAfter(script, ending.primaryCalls) == LaterFates(LaterFates(script)))
  {
    var later := LaterFates(script);
    var again := Operate(Again, stores, Get(key), later);
    assert FatesAfter(script, 2) == FatesAfter(later, 1) == FatesAfter(LaterFates(later), 0) == LaterFates(later);
  }

  /** The exact condition. A request that carries the text or the mask of a record only the fallback has is masked
      anew if and only if the primary's calls hide the record; otherwise it is answered from the record or told that
      the store is unavailable. (Where the mask is the text, being masked anew may give the right answer.) */
  lemma RecordIsHiddenIff(svc: Service, stores: Stores, r: Request, record: Record, script: seq<Fate>, order: SetOrder)
    requires Carries(r, record) && Has(stores.fallback, r.key, record) && r.key !in stores.primary
    requires r.progress == Looking(First)
    ensures var response := Conclude(svc, stores, r, script, order).response;
      && (HidesTheRecord(script) ==> MaskedAnew(svc, r, record, response))
      && (!HidesTheRecord(script) ==> RefusedOrAnswered(r, response, record))
      && (r.payload == record.masked != record.original ==>
            (RefusedOrAnswered(r, response, record) <==> !HidesTheRecord(script)))
  {
    LookupMeans(stores, r.key, record, script);
    if AskedBlindly(script) {
      var later := LaterFates(LaterFates(script));
      var next := r.(progress := Reserving(First, RecordFor(svc, r.payload, r.policy)));
      assert Conclude(svc, stores, r, script, order) == Conclude(svc, stores, next, later, order);
      ReservationEnds(svc, stores, next, record, later, order);
      assert LateAnswer(next, record) == LateAnswer(r, record);
    }
  }

  // ---- the class ----

  /** What Processor._mask makes of a text, as far as the detectors report what the masker can work on. */
  ghost function ServiceOf(engine: DetectionEngine, masker: Masker): Service {
    (text: string, policy: SystemPolicy) =>
      if ReportsFit(engine, text, policy) then MaskedBy(engine, masker, text, policy) else MaskResult(text, [])
  }

  lemma OverwritingEnds(svc: Service, stores: Stores, r: Request, script: seq<Fate>, order: SetOrder)
    requires r.progress.Overwriting? && r.progress.at == First
    ensures var ending := Operate(First, stores, Put(r.key, r.progress.own), script);
      Conclude(svc, stores, r, script, order)
      == Conclusion(ending.stores,
                    if ending.verdict == Unavailable then StoreUnavailable else Result(r.progress.own.masked, Mask))
  {
    OperationEnds(First, stores, Put(r.key, r.progress.own), script);
  }

  class Processor {
    const engine: DetectionEngine
    const masker: Masker
    const store: FallbackStore

    constructor (engine: DetectionEngine, masker: Masker, store: FallbackStore)
      ensures this.engine == engine && this.masker == masker && this.store == store
    {
      this.engine, this.masker, this.store := engine, masker, store;
    }

    method MaskText(text: string, policy: SystemPolicy) returns (record: Record)
      requires ReportsFit(engine, text, policy)
      ensures record == RecordFor(ServiceOf(engine, masker), text, policy)
      ensures AllFit(engine.Detected(text, policy.pdTypes, policy.combinations), text)
      ensures var found := engine.Detected(text, policy.pdTypes, policy.combinations);
        var masked := masker.Masked(text, found, policy.rules);
        record == Record(text, masked.text, masked.fragments)
    {
      DetectedFits(engine, text, policy);
      var entities := engine.Detect(text, policy.pdTypes, policy.combinations);
      var masked := masker.Mask(text, entities, policy.rules);
      record := Record(text, masked.text, masked.fragments);
    }

    ghost function Asking(key: Key, payload: string, policy: SystemPolicy, progress: Progress): Request {
      Request(0, key, payload, policy, progress)
    }

    /** POST /process for an id with a record that the payload has nothing to do with. */
    method ProcessForeign(key: Key, payload: string, policy: SystemPolicy, ghost order: SetOrder)
      returns (response: Response)
      requires store.Valid() && ReportsFit(engine, payload, policy)
      modifies store.primary, store.fallback
      ensures store.Valid()
      ensures var svc := ServiceOf(engine, masker);
        var r := Asking(key, payload, policy, Overwriting(First, RecordFor(svc, payload, policy)));
        Conclusion(store.Both(), response) == Conclude(svc, old(store.Both()), r, old(store.primary.script), order)
    {
      var own := MaskText(payload, policy);
      var stored := store.PutRecord(key, own);
      ghost var r := Asking(key, payload, policy, Overwriting(First, own));
      OverwritingEnds(ServiceOf(engine, masker), old(store.Both()), r, old(store.primary.script), order);
      return if stored == Unavailable then StoreUnavailable else Result(own.masked, Mask);
    }

    /** ... for an id with a record. */
    method ProcessExisting(
      key: Key, payload: string, record: Record, policy: SystemPolicy, order: SetOrder) returns (response: Response)
      requires store.Valid() && ReportsFit(engine, payload, policy) && Lists(order)
      modifies store.primary, store.fallback
      ensures store.Valid()
      ensures var svc := ServiceOf(engine, masker);
        var r := Asking(key, payload, policy, Existing(svc, payload, policy, record, order(record.fragments)));
        Conclusion(store.Both(), response) == Conclude(svc, old(store.Both()), r, old(store.primary.script), order)
    {
      if payload == record.masked {
        if record.masked != record.original && !policy.unmaskAllowed {
          return UnmaskForbidden;
        }
        return Result(record.original, Unmask);
      }
      if payload == record.original {
        return Result(record.masked, MaskRetry);
      }
      var restored, replaced := RestoreFragments(payload, record.fragments, order(record.fragments));
      if replaced > 0 {
        if !policy.unmaskAllowed {
          return UnmaskForbidden;
        }
        return Result(restored, Direction.UnmaskFragments);
      }
      response := ProcessForeign(key, payload, policy, order);
    }

    /** ... for an id under which another request was first. */
    method ProcessRaced(key: Key, payload: string, own: Record, policy: SystemPolicy, order: SetOrder)
      returns (response: Response)
      requires store.Valid() && ReportsFit(engine, payload, policy) && Lists(order)
      modifies store.primary, store.fallback
      ensures store.Valid()
      ensures Conclusion(store.Both(), response)
           == Conclude(ServiceOf(engine, masker), old(store.Both()),
                       Asking(key, payload, policy, Rereading(First, own)), old(store.primary.script), order)
    {
      var stored := store.GetRecord(key);
      OperationEnds(First, old(store.Both()), Get(key), old(store.primary.script));
      if stored == Unavailable {
        return StoreUnavailable;
      }
      if stored.answer.record == None {
        return Result(own.masked, Mask);
      }
      response := ProcessExisting(key, payload, stored.answer.record.value, policy, order);
    }

    /** ... for an id the store does not know. */
    method ProcessNew(key: Key, payload: string, policy: SystemPolicy, order: SetOrder) returns (response: Response)
      requires store.Valid() && ReportsFit(engine, payload, policy) && Lists(order)
      modifies store.primary, store.fallback
      ensures store.Valid()
      ensures var svc := ServiceOf(engine, masker);
        var r := Asking(key, payload, policy, Reserving(First, RecordFor(svc, payload, policy)));
        Conclusion(store.Both(), response) == Conclude(svc, old(store.Both()), r, old(store.primary.script), order)
    {
      var own := MaskText(payload, policy);
      var reserved := store.PutRecordIfAbsent(key, own);
      OperationEnds(First, old(store.Both()), PutIfAbsent(key, own), old(store.primary.script));
      if reserved == Unavailable {
        return StoreUnavailable;
      }
      if reserved.answer.done {
        return Result(own.masked, Mask);
      }
      response := ProcessRaced(key, payload, own, policy, order);
    }

    /** POST /process */
    method Process(key: Key, payload: string, policy: SystemPolicy, order: SetOrder) returns (response: Response)
      requires store.Valid() && ReportsFit(engine, payload, policy) && Lists(order)
      modifies store.primary, store.fallback
      ensures store.Valid()
      ensures Conclusion(store.Both(), response)
           == Conclude(ServiceOf(engine, masker), old(store.Both()), Asking(key, payload, policy, Looking(First)),
                       old(store.primary.script), order)
    {
      var looked := store.GetRecord(key);
      OperationEnds(First, old(store.Both()), Get(key), old(store.primary.script));
      if looked == Unavailable {
        return StoreUnavailable;
      }
      if looked.answer.record == None {
        response := ProcessNew(key, payload, policy, order);
      } else {
        response := ProcessExisting(key, payload, looked.answer.record.value, policy, order);
      }
    }
  }
}
