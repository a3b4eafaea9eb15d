/** app/core/processor.py over one shared store that answers and forgets nothing under an id: concurrent
    requests agree on one record, and what was masked under it comes back, also inside another text. */
module Agreement {
  import opened Storage
  import opened Restoration
  import opened Fallback
  import opened Protocol

  /** Neither the record's text, nor its mask, nor anything that holds one of its masks. */
  ghost predicate Foreign(payload: string, record: Record) {
    payload != record.original && payload != record.masked && !HoldsAMask(payload, record.fragments)
  }

  /** Under `key`, nothing fails and nothing is lost, and what arrives is `text` or, once there is a record, something
      that has to do with it: its mask, or a text that holds its masks. Any policies, any workers, anything at all
      under other ids. */
  ghost predicate Calm(s: State, a: Action, key: Key, text: string) {
    match a
    case Arrive(_, k, payload, _) =>
      k == key ==> payload == text || (key in s.primary && !Foreign(payload, s.primary[key]))
    case Advance(i, fate, _) => i < |s.requests| && s.requests[i].key == key ==> fate == Serves
    case Deliver(_) => true
    case LosePrimary(k) => k != key
    case LoseFallback(_, k) => true
  }

  ghost predicate CalmRun(svc: Service, s: State, actions: seq<Action>, key: Key, text: string)
    decreases |actions|
  {
    actions == []
    || (Calm(s, actions[0], key, text) && CalmRun(svc, Step(svc, s, actions[0]), actions[1..], key, text))
  }

  /** Only the primary ever knows the id. */
  ghost predicate Alone(s: State, key: Key) {
    && (forall w :: w in s.fallbacks ==> key !in s.fallbacks[w])
    && (forall n :: 0 <= n < |s.inFlight| ==> s.inFlight[n].key != key)
  }

  ghost predicate Asking(svc: Service, r: Request) {
    || (r.progress.Looking? && r.progress.at != Again)
    || (r.progress.Reserving? && r.progress.at == First && r.progress.own == RecordFor(svc, r.payload, r.policy))
  }

  /** The answer to a request with the text or the mask of a record that was already there. */
  function LateAnswer(r: Request, record: Record): Response {
    if r.payload == record.masked then
      if record.masked != record.original && !r.policy.unmaskAllowed then UnmaskForbidden
      else Result(record.original, Unmask)
    else Result(record.masked, MaskRetry)
  }

  predicate Carries(r: Request, record: Record) {
    r.payload == record.original || r.payload == record.masked
  }

  /** The answer to a request that has to do with a record that was already there. */
  function RelatedAnswer(r: Request, record: Record, hashOrder: seq<Fragment>): Response {
    if Carries(r, record) then LateAnswer(r, record)
    else if r.policy.unmaskAllowed then
      Result(Restoration.UnmaskFragments(r.payload, hashOrder).0, UnmaskFragments)
    else UnmaskForbidden
  }

  ghost predicate AnsweredBy(r: Request, record: Record, response: Response) {
    exists hashOrder :: Enumerates(hashOrder, record.fragments) && response == RelatedAnswer(r, record, hashOrder)
  }

  ghost predicate Settling(svc: Service, r: Request, record: Record) {
    !Foreign(r.payload, record)
    && match r.progress
       case Looking(at) => at == First || (at == Spare && r.payload == record.original)
       case Reserving(at, own) =>
         at == First && r.payload == record.original && own == RecordFor(svc, r.payload, r.policy)
       case Rereading(at, _) => at == First && r.payload == record.original
       case Overwriting(_, _) => false
       case Finished(response) => AnsweredBy(r, record, response)
  }

  ghost predicate Winner(svc: Service, r: Request, record: Record) {
    && record == RecordFor(svc, r.payload, r.policy)
    && r.progress == Finished(Result(record.masked, Mask))
  }

  ghost predicate BeforeTheRecord(svc: Service, rs: seq<Request>, key: Key, text: string) {
    forall i :: 0 <= i < |rs| && rs[i].key == key ==> rs[i].payload == text && Asking(svc, rs[i])
  }

  ghost predicate AfterTheRecord(svc: Service, rs: seq<Request>, key: Key, record: Record, w: nat) {
    && w < |rs| && rs[w].key == key && Winner(svc, rs[w], record)
    && forall i :: 0 <= i < |rs| && rs[i].key == key && i != w ==> Settling(svc, rs[i], record)
  }

  ghost predicate Agreed(svc: Service, s: State, key: Key, text: string) {
    && Alone(s, key)
    && (key !in s.primary ==> BeforeTheRecord(svc, s.requests, key, text))
    && (key in s.primary ==> s.primary[key].original == text && HasOneWinner(svc, s.requests, key, s.primary[key]))
  }

  ghost predicate HasOneWinner(svc: Service, rs: seq<Request>, key: Key, record: Record) {
    exists w :: AfterTheRecord(svc, rs, key, record, w)
  }

  lemma AdvanceBefore(svc: Service, s: State, i: nat, hashOrder: seq<Fragment>, key: Key, text: string)
    requires Agreed(svc, s, key, text) && key !in s.primary
    requires i < |s.requests| && s.requests[i].key == key && !s.requests[i].progress.Finished?
    ensures Agreed(svc, AdvanceRequest(svc, s, i, Serves, hashOrder), key, text)
  {
    var r := s.requests[i];
    assert Asking(svc, r);
    var s' := AdvanceRequest(svc, s, i, Serves, hashOrder);
    assert key !in FallbackOf(s, r.worker);
    if r.progress.Reserving? {
      assert Winner(svc, s'.requests[i], s'.primary[key]);
      forall j | 0 <= j < |s'.requests| && s'.requests[j].key == key && j != i
        ensures Settling(svc, s'.requests[j], s'.primary[key])
      {
        assert s'.requests[j] == s.requests[j];
      }
      assert AfterTheRecord(svc, s'.requests, key, s'.primary[key], i);
    }
  }

  lemma AdvanceAfter(svc: Service, s: State, i: nat, hashOrder: seq<Fragment>, key: Key, text: string)
    requires Agreed(svc, s, key, text) && key in s.primary
    requires i < |s.requests| && s.requests[i].key == key && !s.requests[i].progress.Finished?
    ensures Agreed(svc, AdvanceRequest(svc, s, i, Serves, hashOrder), key, text)
    ensures var s' := AdvanceRequest(svc, s, i, Serves, hashOrder);
      key in s'.primary && s'.primary[key] == s.primary[key]
  {
    var r, record := s.requests[i], s.primary[key];
    var w :| AfterTheRecord(svc, s.requests, key, record, w);
    var s' := AdvanceRequest(svc, s, i, Serves, hashOrder);
    assert i != w && Settling(svc, r, record);
    assert key !in FallbackOf(s, r.worker);
    AnswerSettles(svc, s, i, hashOrder);
    assert AfterTheRecord(svc, s'.requests, key, record, w);
  }

  lemma AnswerSettles(svc: Service, s: State, i: nat, hashOrder: seq<Fragment>)
    requires i < |s.requests| && !s.requests[i].progress.Finished? && s.requests[i].key in s.primary
    requires Settling(svc, s.requests[i], s.primary[s.requests[i].key])
    requires s.requests[i].key !in FallbackOf(s, s.requests[i].worker)
    ensures var r, s' := s.requests[i], AdvanceRequest(svc, s, i, Serves, hashOrder);
      Settling(svc, s'.requests[i], s.primary[r.key]) && s'.primary == s.primary
  {
    var r, record := s.requests[i], s.primary[s.requests[i].key];
    var s' := AdvanceRequest(svc, s, i, Serves, hashOrder);
    if Enumerates(hashOrder, record.fragments) {
      ReportsReplacementsExactly(r.payload, record.fragments, hashOrder);
      if s'.requests[i].progress.Finished? {
        assert s'.requests[i].progress.response == RelatedAnswer(s'.requests[i], record, hashOrder);
      }
    }
  }

  /** Requests under other ids leave the id alone. */
  lemma AdvanceKeepsOut(svc: Service, s: State, i: nat, fate: Fate, hashOrder: seq<Fragment>, key: Key)
    requires Alone(s, key)
    requires i < |s.requests| && s.requests[i].key != key && !s.requests[i].progress.Finished?
    ensures var s' := AdvanceRequest(svc, s, i, fate, hashOrder);
      && Alone(s', key) && |s'.requests| == |s.requests|
      && (forall j :: 0 <= j < |s.requests| ==>
            SameAsked(s.requests[j], s'.requests[j]) && (j != i ==> s'.requests[j] == s.requests[j]))
      && (key in s'.primary <==> key in s.primary) && (key in s.primary ==> s'.primary[key] == s.primary[key])
  {
    var r := s.requests[i];
    var op := Awaited(r);
    ServeElsewhere(s.primary, op, key);
    ServeElsewhere(FallbackOf(s, r.worker), op, key);
    assert Alone(CallStore(s, r.worker, r.progress.at, op, fate).0, key);
  }

  lemma AdvanceElsewhere(svc: Service, s: State, i: nat, fate: Fate, hashOrder: seq<Fragment>, key: Key, text: string)
    requires Agreed(svc, s, key, text)
    requires i < |s.requests| && s.requests[i].key != key && !s.requests[i].progress.Finished?
    ensures Agreed(svc, AdvanceRequest(svc, s, i, fate, hashOrder), key, text)
    ensures var s' := AdvanceRequest(svc, s, i, fate, hashOrder);
      key in s.primary ==> key in s'.primary && s'.primary[key] == s.primary[key]
  {
    AdvanceKeepsOut(svc, s, i, fate, hashOrder, key);
    if key in s.primary {
      var w :| AfterTheRecord(svc, s.requests, key, s.primary[key], w);
      assert AfterTheRecord(svc, AdvanceRequest(svc, s, i, fate, hashOrder).requests, key, s.primary[key], w);
    }
  }

  lemma ServeElsewhere(shelf: Shelf, op: Op, key: Key)
    requires op.key != key
    ensures key in Serve(shelf, op).0 <==> key in shelf
    ensures key in shelf ==> Serve(shelf, op).0[key] == shelf[key]
  {
  }

  lemma ArrivalAgreed(svc: Service, s: State, r: Request, key: Key, text: string)
    requires Agreed(svc, s, key, text) && r.progress == Looking(First)
    requires r.key == key ==> r.payload == text || (key in s.primary && !Foreign(r.payload, s.primary[key]))
    ensures Agreed(svc, s.(requests := s.requests + [r]), key, text)
  {
    if key in s.primary {
      var w :| AfterTheRecord(svc, s.requests, key, s.primary[key], w);
      assert r.key == key ==> Settling(svc, r, s.primary[key]);
      assert AfterTheRecord(svc, s.requests + [r], key, s.primary[key], w);
    }
  }

  /** Every calm step keeps the agreement, and a record once there stays. */
  lemma StepKeepsAgreed(svc: Service, s: State, a: Action, key: Key, text: string)
    requires Agreed(svc, s, key, text) && Calm(s, a, key, text)
    ensures Agreed(svc, Step(svc, s, a), key, text)
    ensures key in s.primary ==> key in Step(svc, s, a).primary && Step(svc, s, a).primary[key] == s.primary[key]
  {
    match a
    case Arrive(w, k, payload, policy) =>
      ArrivalAgreed(svc, s, Request(w, k, payload, policy, Looking(First)), key, text);
    case Advance(i, fate, hashOrder) =>
      if i < |s.requests| && !s.requests[i].progress.Finished? {
        if s.requests[i].key != key {
          AdvanceElsewhere(svc, s, i, fate, hashOrder, key, text);
        } else if key in s.primary {
          AdvanceAfter(svc, s, i, hashOrder, key, text);
        } else {
          AdvanceBefore(svc, s, i, hashOrder, key, text);
        }
      }
    case Deliver(n) =>
      if n < |s.inFlight| {
        ServeElsewhere(s.primary, s.inFlight[n], key);
      }
    case LosePrimary(k) =>
    case LoseFallback(w, k) =>
  }

  lemma {:induction false} RunKeepsAgreed(svc: Service, s: State, actions: seq<Action>, key: Key, text: string)
    requires Agreed(svc, s, key, text) && CalmRun(svc, s, actions, key, text)
    ensures Agreed(svc, Run(svc, s, actions), key, text)
    ensures key in s.primary ==>
      key in Run(svc, s, actions).primary && Run(svc, s, actions).primary[key] == s.primary[key]
    decreases |actions|
  {
    if actions != [] {
      StepKeepsAgreed(svc, s, actions[0], key, text);
      RunKeepsAgreed(svc, Step(svc, s, actions[0]), actions[1..], key, text);
    }
  }

  lemma {:induction false} RunSplits(svc: Service, s: State, before: seq<Action>, after: seq<Action>)
    ensures Run(svc, s, before + after) == Run(svc, Run(svc, s, before), after)
    decreases |before|
  {
    if before == [] {
      assert before + after == after;
    } else {
      RunSplits(svc, Step(svc, s, before[0]), before[1..], after);
      assert (before + after)[1..] == before[1..] + after;
    }
  }

  lemma {:induction false} CalmSplits(
    svc: Service, s: State, before: seq<Action>, after: seq<Action>, key: Key, text: string)
    requires CalmRun(svc, s, before + after, key, text)
    ensures CalmRun(svc, s, before, key, text) && CalmRun(svc, Run(svc, s, before), after, key, text)
    decreases |before|
  {
    if before == [] {
      assert before + after == after;
    } else {
      assert (before + after)[1..] == before[1..] + after;
      CalmSplits(svc, Step(svc, s, before[0]), before[1..], after, key, text);
    }
  }

  /** In every calm run, under any mix of policies: as soon as one request has finished there is one record,
      made by exactly one request (the only one whose answer is a fresh mask); requests carrying the text get
      that record's mask; requests carrying that mask get the text back, and those holding its masks get them
      restored, or are refused when they may not unmask. */
  lemma RequestsAgree(svc: Service, actions: seq<Action>, key: Key, text: string)
    requires CalmRun(svc, EMPTY, actions, key, text)
    ensures var s := Run(svc, EMPTY, actions);
      (exists i :: 0 <= i < |s.requests| && s.requests[i].key == key && s.requests[i].progress.Finished?)
      ==> key in s.primary
    ensures var s := Run(svc, EMPTY, actions);
      key in s.primary ==>
        && s.primary[key].original == text
        && OneFreshMask(svc, s.requests, key, s.primary[key])
        && AllRoundTrip(s.requests, key, s.primary[key])
  {
    RunKeepsAgreed(svc, EMPTY, actions, key, text);
    var s := Run(svc, EMPTY, actions);
    if key in s.primary {
      var record := s.primary[key];
      var w :| AfterTheRecord(svc, s.requests, key, record, w);
      assert forall i :: 0 <= i < |s.requests| && s.requests[i].key == key ==>
        i == w || Settling(svc, s.requests[i], record);
      assert MadeFresh(svc, s.requests, key, record, w);
    }
  }

  /** Request `w` made the record, and no other request was given a fresh mask. */
  ghost predicate MadeFresh(svc: Service, rs: seq<Request>, key: Key, record: Record, w: nat) {
    && w < |rs| && rs[w].key == key && Winner(svc, rs[w], record)
    && forall i :: 0 <= i < |rs| && rs[i].key == key && i != w && rs[i].progress.Finished? ==>
         AnsweredBy(rs[i], record, rs[i].progress.response)
  }

  ghost predicate OneFreshMask(svc: Service, rs: seq<Request>, key: Key, record: Record) {
    exists w :: MadeFresh(svc, rs, key, record, w)
  }

  ghost predicate AllRoundTrip(rs: seq<Request>, key: Key, record: Record) {
    forall i :: 0 <= i < |rs| && rs[i].key == key && rs[i].progress.Finished? ==> RoundTrip(rs[i], record)
  }

  /** The text gives the mask; the mask gives the text; what holds the masks is restored. */
  ghost predicate RoundTrip(r: Request, record: Record)
    requires r.progress.Finished?
  {
    var response := r.progress.response;
    if r.payload == record.original then response.Result? && response.text == record.masked
    else if !r.policy.unmaskAllowed then response == UnmaskForbidden
    else if r.payload == record.masked then response == Result(record.original, Unmask)
    else HoldsAMask(r.payload, record.fragments) && RestoredIn(r.payload, record, response)
  }

  ghost predicate RestoredIn(payload: string, record: Record, response: Response) {
    exists hashOrder ::
      Enumerates(hashOrder, record.fragments)
      && response == Result(Restoration.UnmaskFragments(payload, hashOrder).0, UnmaskFragments)
  }

  /** A record, once there, is never changed by what happens later. */
  lemma RecordNeverChanges(svc: Service, before: seq<Action>, after: seq<Action>, key: Key, text: string)
    requires CalmRun(svc, EMPTY, before + after, key, text)
    requires key in Run(svc, EMPTY, before).primary
    ensures var s, s' := Run(svc, EMPTY, before), Run(svc, EMPTY, before + after);
      key in s'.primary && s'.primary[key] == s.primary[key]
  {
    RunSplits(svc, EMPTY, before, after);
    CalmSplits(svc, EMPTY, before, after, key, text);
    RunKeepsAgreed(svc, EMPTY, before, key, text);
    RunKeepsAgreed(svc, Run(svc, EMPTY, before), after, key, text);
  }
}
