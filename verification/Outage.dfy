/** app/core/processor.py and app/storage/fallback.py when the primary fails: what a record that landed in a
    worker's fallback is still good for. */
module Outage {
  import opened Storage
  import opened Restoration
  import opened Policy
  import opened Fallback
  import opened Protocol
  import opened Agreement
  import opened Wrappers

  /** A lookup is repeated after a timeout and answered, while the primary does not have the id: its answer hides
      what the fallback has. */
  ghost predicate BlindRetry(s: State, r: Request, fate: Fate) {
    r.progress == Looking(Again) && fate == Serves && r.key !in s.primary
  }

  /** Under `key`, in worker `w`: no lookup is retried blindly, the fallback keeps the id, and what arrives is the
      text or its mask. Calls may time out or be disconnected, taking effect then, later or never; the primary may
      come back, and may lose the id. */
  ghost predicate Degraded(s: State, a: Action, key: Key, w: nat, record: Record) {
    match a
    case Arrive(worker, k, payload, _) =>
      k == key ==> worker == w && (payload == record.original || payload == record.masked)
    case Advance(i, fate, _) => i < |s.requests| && s.requests[i].key == key ==> !BlindRetry(s, s.requests[i], fate)
    case Deliver(_) => true
    case LosePrimary(_) => true
    case LoseFallback(worker, k) => worker == w ==> k != key
  }

  ghost predicate DegradedRun(svc: Service, s: State, actions: seq<Action>, key: Key, w: nat, record: Record)
    decreases |actions|
  {
    actions == []
    || (Degraded(s, actions[0], key, w, record)
        && DegradedRun(svc, Step(svc, s, actions[0]), actions[1..], key, w, record))
  }

  ghost predicate Only(shelf: Shelf, key: Key, record: Record) {
    key in shelf ==> shelf[key] == record
  }

  /** A request that was there before the record landed: it carries the text. */
  ghost predicate Earlier(svc: Service, r: Request, record: Record) {
    && RecordFor(svc, r.payload, r.policy) == record
    && (r.progress.Reserving? || r.progress.Rereading? || r.progress.Overwriting? ==> r.progress.own == record)
  }

  /** A request that came later: it finds the record, in one store or the other. */
  ghost predicate Later(r: Request, record: Record) {
    && (r.payload == record.original || r.payload == record.masked)
    && match r.progress
       case Looking(_) => true
       case Finished(response) => RefusedOrAnswered(r, response, record)
       case _ => false
  }

  /** Told that the store is unavailable, or answered from the record. */
  ghost predicate RefusedOrAnswered(r: Request, response: Response, record: Record) {
    response == StoreUnavailable || response == LateAnswer(r, record)
  }

  ghost predicate Sheltered(svc: Service, s: State, key: Key, w: nat, record: Record, from: nat) {
    && w in s.fallbacks && Has(s.fallbacks[w], key, record)
    && Only(s.primary, key, record)
    && (forall n :: 0 <= n < |s.inFlight| && s.inFlight[n].key == key ==>
          s.inFlight[n].Get? || s.inFlight[n].record == record)
    && (forall i :: 0 <= i < |s.requests| && s.requests[i].key == key ==>
          && s.requests[i].worker == w
          && if i < from then Earlier(svc, s.requests[i], record) else Later(s.requests[i], record))
  }

  lemma ServeSame(shelf: Shelf, op: Op, key: Key, record: Record)
    requires Only(shelf, key, record) && (op.key == key && !op.Get? ==> op.record == record)
    ensures Only(Serve(shelf, op).0, key, record)
    ensures Has(shelf, key, record) ==> Has(Serve(shelf, op).0, key, record)
    ensures op == Get(key) && Has(shelf, key, record) ==> Serve(shelf, op).1 == Found(Some(record))
    ensures op == Get(key) ==> Serve(shelf, op).1 == Found(None) || Serve(shelf, op).1 == Found(Some(record))
  {
  }

  lemma CallSheltered(svc: Service, s: State, i: nat, fate: Fate, key: Key, w: nat, record: Record, from: nat)
    requires Sheltered(svc, s, key, w, record, from) && i < |s.requests| && !s.requests[i].progress.Finished?
    ensures var r := s.requests[i];
      Sheltered(svc, CallStore(s, r.worker, r.progress.at, Awaited(r), fate).0, key, w, record, from)
  {
    var r := s.requests[i];
    var op := Awaited(r);
    assert op.key == key && !op.Get? ==> op.record == record;
    ServeSame(s.primary, op, key, record);
    if r.worker == w {
      ServeSame(FallbackOf(s, w), op, key, record);
    }
  }

  lemma ResumeEarlier(svc: Service, r: Request, verdict: Verdict, hashOrder: seq<Fragment>, record: Record)
    requires Earlier(svc, r, record) && !r.progress.Finished?
    requires verdict.Return? && verdict.answer.Found? && verdict.answer.record.Some? ==>
      verdict.answer.record.value == record
    ensures Earlier(svc, r.(progress := Resume(svc, r, verdict, hashOrder)), record)
  {
  }

  lemma ResumeLater(svc: Service, s: State, r: Request, fate: Fate, hashOrder: seq<Fragment>, record: Record)
    requires Later(r, record) && !r.progress.Finished? && !BlindRetry(s, r, fate)
    requires Has(FallbackOf(s, r.worker), r.key, record) && Only(s.primary, r.key, record)
    ensures var verdict := CallStore(s, r.worker, r.progress.at, Awaited(r), fate).1;
      Later(r.(progress := Resume(svc, r, verdict, hashOrder)), record)
  {
  }

  lemma FoundIsTheRecord(s: State, r: Request, fate: Fate, record: Record)
    requires !r.progress.Finished?
    requires Only(FallbackOf(s, r.worker), r.key, record) && Only(s.primary, r.key, record)
    ensures var verdict := CallStore(s, r.worker, r.progress.at, Awaited(r), fate).1;
      verdict.Return? && verdict.answer.Found? && verdict.answer.record.Some? ==> verdict.answer.record.value == record
  {
  }

  lemma AdvanceSheltered(
    svc: Service, s: State, i: nat, fate: Fate, hashOrder: seq<Fragment>, key: Key, w: nat, record: Record, from: nat)
    requires Sheltered(svc, s, key, w, record, from) && i < |s.requests| && !s.requests[i].progress.Finished?
    requires s.requests[i].key == key ==> !BlindRetry(s, s.requests[i], fate)
    ensures Sheltered(svc, AdvanceRequest(svc, s, i, fate, hashOrder), key, w, record, from)
  {
    var r := s.requests[i];
    var (after, verdict) := CallStore(s, r.worker, r.progress.at, Awaited(r), fate);
    CallSheltered(svc, s, i, fate, key, w, record, from);
    if r.key == key && OrderFits(verdict, hashOrder) {
      FoundIsTheRecord(s, r, fate, record);
      if i < from {
        ResumeEarlier(svc, r, verdict, hashOrder, record);
      } else {
        ResumeLater(svc, s, r, fate, hashOrder, record);
      }
    }
  }

  lemma StepSheltered(svc: Service, s: State, a: Action, key: Key, w: nat, record: Record, from: nat)
    requires Sheltered(svc, s, key, w, record, from) && Degraded(s, a, key, w, record) && from <= |s.requests|
    ensures Sheltered(svc, Step(svc, s, a), key, w, record, from)
    ensures from <= |Step(svc, s, a).requests|
  {
    match a
    case Arrive(worker, k, payload, policy) =>
      if k == key {
        assert Later(Request(worker, k, payload, policy, Looking(First)), record);
      }
    case Advance(i, fate, hashOrder) =>
      if i < |s.requests| && !s.requests[i].progress.Finished? {
        AdvanceSheltered(svc, s, i, fate, hashOrder, key, w, record, from);
      }
    case Deliver(n) =>
      if n < |s.inFlight| {
        ServeSame(s.primary, s.inFlight[n], key, record);
      }
    case LosePrimary(k) =>
    case LoseFallback(worker, k) =>
  }

  lemma {:induction false} RunSheltered(
    svc: Service, s: State, actions: seq<Action>, key: Key, w: nat, record: Record, from: nat)
    requires Sheltered(svc, s, key, w, record, from) && from <= |s.requests|
    requires DegradedRun(svc, s, actions, key, w, record)
    ensures Sheltered(svc, Run(svc, s, actions), key, w, record, from)
    ensures from <= |Run(svc, s, actions).requests|
    decreases |actions|
  {
    if actions != [] {
      StepSheltered(svc, s, actions[0], key, w, record, from);
      RunSheltered(svc, Step(svc, s, actions[0]), actions[1..], key, w, record, from);
    }
  }

  /** All requests so far under the id carry one text, in one worker, and would make `record` of it. */
  ghost predicate OneTextOneWorker(svc: Service, rs: seq<Request>, key: Key, w: nat, record: Record) {
    forall i :: 0 <= i < |rs| && rs[i].key == key ==>
      rs[i].worker == w && RecordFor(svc, rs[i].payload, rs[i].policy) == record
  }

  lemma LandedIsSheltered(svc: Service, s: State, key: Key, w: nat, record: Record)
    requires Traced(svc, s) && OneTextOneWorker(svc, s.requests, key, w, record)
    requires key in FallbackOf(s, w)
    ensures Sheltered(svc, s, key, w, record, |s.requests|)
  {
    assert ShelfTraced(svc, s.requests, s.fallbacks[w]) && ShelfTraced(svc, s.requests, s.primary);
    forall n | 0 <= n < |s.inFlight| && s.inFlight[n].key == key
      ensures s.inFlight[n].Get? || s.inFlight[n].record == record
    {
      assert OpTraced(svc, s.requests, s.inFlight[n]);
    }
    forall i | 0 <= i < |s.requests| && s.requests[i].key == key
      ensures Earlier(svc, s.requests[i], record)
    {
      assert RequestTraced(svc, s.requests, s.requests[i]);
    }
  }

  ghost predicate AnsweredFrom(rs: seq<Request>, key: Key, record: Record) {
    forall r :: r in rs && r.key == key && r.progress.Finished? ==> RefusedOrAnswered(r, r.progress.response, record)
  }

  /** Once a record has landed in the fallback of the only worker that serves the id, every later request
      carrying its text or its mask, under whatever policy, is answered from that record or told that the store is
      unavailable, through further timeouts and disconnections and after the primary has come back, as long as no
      lookup is retried blindly. */
  lemma OutageRecordsStayUsable(
    svc: Service, before: seq<Action>, after: seq<Action>, key: Key, w: nat, record: Record)
    requires var s := Run(svc, EMPTY, before);
      && OneTextOneWorker(svc, s.requests, key, w, record)
      && key in FallbackOf(s, w)
      && DegradedRun(svc, s, after, key, w, record)
    ensures Grows(Run(svc, EMPTY, before).requests, Run(svc, EMPTY, before + after).requests)
    ensures var s, s' := Run(svc, EMPTY, before), Run(svc, EMPTY, before + after);
      && Has(FallbackOf(s', w), key, record)
      && AnsweredFrom(s'.requests[|s.requests|..], key, record)
  {
    var s := Run(svc, EMPTY, before);
    RunKeepsTraced(svc, EMPTY, before);
    LandedIsSheltered(svc, s, key, w, record);
    RunSheltered(svc, s, after, key, w, record, |s.requests|);
    RunSplits(svc, EMPTY, before, after);
    RunGrows(svc, s, after);
  }

  lemma RunSnoc(svc: Service, actions: seq<Action>, a: Action)
    ensures Run(svc, EMPTY, actions + [a]) == Step(svc, Run(svc, EMPTY, actions), a)
  {
    RunSplits(svc, EMPTY, actions, [a]);
    var s := Run(svc, EMPTY, actions);
    assert Run(svc, s, [a]) == Run(svc, Step(svc, s, a), [a][1..]);
  }

  const DISCONNECTED := Fails(OtherOSError, false)
  const TIMED_OUT := Fails(TimeoutError, false)

  /** The first half of the story: the primary is down, the record lands in the fallback. */
  lemma LandInFallback(svc: Service, key: Key, text: string, policy: SystemPolicy) returns (actions: seq<Action>)
    ensures var record := RecordFor(svc, text, policy);
      Run(svc, EMPTY, actions) == State(map[], map[0 := map[key := record]], [],
        [Request(0, key, text, policy, Finished(Result(record.masked, Mask)))])
  {
    var record := RecordFor(svc, text, policy);
    actions := [];
    RunSnoc(svc, actions, Arrive(0, key, text, policy));
    actions := actions + [Arrive(0, key, text, policy)];
    assert Run(svc, EMPTY, actions).requests == [Request(0, key, text, policy, Looking(First))];
    RunSnoc(svc, actions, Advance(0, DISCONNECTED, []));
    actions := actions + [Advance(0, DISCONNECTED, [])];
    assert Run(svc, EMPTY, actions).requests == [Request(0, key, text, policy, Looking(Spare))];
    RunSnoc(svc, actions, Advance(0, Serves, []));
    actions := actions + [Advance(0, Serves, [])];
    assert Run(svc, EMPTY, actions).requests == [Request(0, key, text, policy, Reserving(First, record))];
    RunSnoc(svc, actions, Advance(0, DISCONNECTED, []));
    actions := actions + [Advance(0, DISCONNECTED, [])];
    assert Run(svc, EMPTY, actions).requests == [Request(0, key, text, policy, Reserving(Spare, record))];
    RunSnoc(svc, actions, Advance(0, Serves, []));
    actions := actions + [Advance(0, Serves, [])];
  }

  /** Without the exclusion of timeouts it is false: let one lookup time out and its retry be served, and a mask
      sent back while the fallback still holds its record is masked again as if it were a new text. */
  lemma OneTimeoutLosesTheText(svc: Service, key: Key, text: string, policy: SystemPolicy)
    returns (actions: seq<Action>)
    ensures var s, record := Run(svc, EMPTY, actions), RecordFor(svc, text, policy);
      && Has(FallbackOf(s, 0), key, record)
      && |s.requests| == 2
      && s.requests[1] == Request(0, key, record.masked, policy,
           Finished(Result(svc(record.masked, policy).text, Mask)))
  {
    var record := RecordFor(svc, text, policy);
    var again := RecordFor(svc, record.masked, policy);
    actions := LandInFallback(svc, key, text, policy);
    RunSnoc(svc, actions, Arrive(0, key, record.masked, policy));
    actions := actions + [Arrive(0, key, record.masked, policy)];
    RunSnoc(svc, actions, Advance(1, TIMED_OUT, []));
    actions := actions + [Advance(1, TIMED_OUT, [])];
    assert Run(svc, EMPTY, actions).requests[1].progress == Looking(Again);
    RunSnoc(svc, actions, Advance(1, Serves, []));
    actions := actions + [Advance(1, Serves, [])];
    assert Run(svc, EMPTY, actions).requests[1].progress == Reserving(First, again);
    RunSnoc(svc, actions, Advance(1, Serves, []));
    actions := actions + [Advance(1, Serves, [])];
  }
}
