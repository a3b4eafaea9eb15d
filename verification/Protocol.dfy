/** app/core/processor.py over app/storage/fallback.py: any number of requests, in any number of worker
    processes, interleaved at every awaited call on a store. */
module Protocol {
  import opened Storage
  import opened Restoration
  import opened Masking
  import opened Policy
  import opened Fallback

  /** Detection followed by masking: what Processor._mask computes from a text under a policy. */
  type Service = (string, SystemPolicy) -> MaskResult

  function RecordFor(svc: Service, text: string, policy: SystemPolicy): Record {
    Record(text, svc(text, policy).text, svc(text, policy).fragments)
  }

  datatype Direction = Mask | MaskRetry | Unmask | UnmaskFragments

  datatype Response = Result(text: string, direction: Direction) | UnmaskForbidden | StoreUnavailable

  /** Where a request stands: which call of Processor.process it awaits, and which store that call is at. */
  datatype Progress =
    | Looking(at: Stage)
    | Reserving(at: Stage, own: Record)
    | Rereading(at: Stage, own: Record)
    | Overwriting(at: Stage, own: Record)
    | Finished(response: Response)

  datatype Request = Request(worker: nat, key: Key, payload: string, policy: SystemPolicy, progress: Progress)

  /** One shared primary, one fallback per worker, the writes whose callers have given up on them, and all
      requests so far. */
  datatype State = State(primary: Shelf, fallbacks: map<nat, Shelf>, inFlight: seq<Op>, requests: seq<Request>)

  const EMPTY := State(map[], map[], [], [])

  function FallbackOf(s: State, worker: nat): Shelf {
    if worker in s.fallbacks then s.fallbacks[worker] else map[]
  }

  /** What Processor does with a record found under the id. */
  function Existing(svc: Service, payload: string, policy: SystemPolicy, record: Record, hashOrder: seq<Fragment>)
    : Progress
  {
    if payload == record.masked then
      if record.masked != record.original && !policy.unmaskAllowed then Finished(UnmaskForbidden)
      else Finished(Result(record.original, Unmask))
    else if payload == record.original then Finished(Result(record.masked, MaskRetry))
    else
      var (restored, replaced) := Restoration.UnmaskFragments(payload, hashOrder);
      if replaced > 0 then
        if !policy.unmaskAllowed then Finished(UnmaskForbidden) else Finished(Result(restored, UnmaskFragments))
      else Overwriting(First, RecordFor(svc, payload, policy))
  }

  function Awaited(r: Request): Op
    requires !r.progress.Finished?
  {
    match r.progress
    case Looking(_) => Get(r.key)
    case Rereading(_, _) => Get(r.key)
    case Reserving(_, own) => PutIfAbsent(r.key, own)
    case Overwriting(_, own) => Put(r.key, own)
  }

  /** One call on one store. A failed write may still be on its way to the primary. */
  function CallStore(s: State, worker: nat, at: Stage, op: Op, fate: Fate): (State, Verdict) {
    if at == Spare then
      var (shelf, answer) := Serve(FallbackOf(s, worker), op);
      (s.(fallbacks := s.fallbacks[worker := shelf]), Return(answer))
    else
      match fate
      case Serves =>
        var (shelf, answer) := Serve(s.primary, op);
        (s.(primary := shelf), Route(at, Ok(answer)))
      case Fails(e, applied) =>
        (if applied && !op.Get? then s.(inFlight := s.inFlight + [op]) else s, Route(at, Raised(e)))
  }

  function Resume(svc: Service, r: Request, verdict: Verdict, hashOrder: seq<Fragment>): Progress
    requires !r.progress.Finished?
  {
    match verdict
    case Go(stage) => r.progress.(at := stage)
    case Unavailable => Finished(StoreUnavailable)
    case Return(Found(Some(record))) => Existing(svc, r.payload, r.policy, record, hashOrder)
    case Return(Found(None)) =>
      if r.progress.Looking? then Reserving(First, RecordFor(svc, r.payload, r.policy))
      else if r.progress.Rereading? then Finished(Result(r.progress.own.masked, Mask))
      else r.progress
    case Return(Stored(done)) =>
      if r.progress.Looking? || r.progress.Rereading? then r.progress
      else if done then Finished(Result(r.progress.own.masked, Mask))
      else Rereading(First, r.progress.own)
  }

  datatype Action =
    | Arrive(worker: nat, key: Key, payload: string, policy: SystemPolicy)
    | Advance(i: nat, fate: Fate, hashOrder: seq<Fragment>)
    | Deliver(n: nat)
    | LosePrimary(key: Key)
    | LoseFallback(worker: nat, key: Key)

  /** The order in which a set of fragments is iterated lists that set. */
  ghost predicate OrderFits(verdict: Verdict, hashOrder: seq<Fragment>) {
    verdict.Return? && verdict.answer.Found? && verdict.answer.record.Some?
    ==> Enumerates(hashOrder, verdict.answer.record.value.fragments)
  }

  ghost function AdvanceRequest(svc: Service, s: State, i: nat, fate: Fate, hashOrder: seq<Fragment>): State
    requires i < |s.requests| && !s.requests[i].progress.Finished?
  {
    var r := s.requests[i];
    var (after, verdict) := CallStore(s, r.worker, r.progress.at, Awaited(r), fate);
    if !OrderFits(verdict, hashOrder) then s
    else after.(requests := s.requests[i := r.(progress := Resume(svc, r, verdict, hashOrder))])
  }

  /** An action that cannot happen changes nothing. */
  ghost function Step(svc: Service, s: State, a: Action): State {
    match a
    case Arrive(w, k, payload, policy) =>
      s.(requests := s.requests + [Request(w, k, payload, policy, Looking(First))])
    case Advance(i, fate, hashOrder) =>
      if i < |s.requests| && !s.requests[i].progress.Finished? then AdvanceRequest(svc, s, i, fate, hashOrder) else s
    case Deliver(n) =>
      if n < |s.inFlight| then
        s.(primary := Serve(s.primary, s.inFlight[n]).0, inFlight := s.inFlight[..n] + s.inFlight[n + 1..])
      else s
    case LosePrimary(k) => s.(primary := s.primary - {k})
    case LoseFallback(w, k) => s.(fallbacks := s.fallbacks[w := FallbackOf(s, w) - {k}])
  }

  ghost function Run(svc: Service, s: State, actions: seq<Action>): State
    decreases |actions|
  {
    if actions == [] then s else Run(svc, Step(svc, s, actions[0]), actions[1..])
  }

  // ---- where everything comes from ----

  /** Some request under this id submitted the text the record was made from. */
  ghost predicate Origin(svc: Service, rs: seq<Request>, key: Key, record: Record) {
    exists j :: 0 <= j < |rs| && rs[j].key == key && record == RecordFor(svc, rs[j].payload, rs[j].policy)
  }

  ghost predicate ShelfTraced(svc: Service, rs: seq<Request>, shelf: Shelf) {
    forall k :: k in shelf ==> Origin(svc, rs, k, shelf[k])
  }

  ghost predicate OpTraced(svc: Service, rs: seq<Request>, op: Op) {
    !op.Get? ==> Origin(svc, rs, op.key, op.record)
  }

  /** The response is what Processor makes of this record. */
  ghost predicate AnswersFrom(svc: Service, r: Request, record: Record, response: Response) {
    exists hashOrder ::
      Enumerates(hashOrder, record.fragments)
      && Existing(svc, r.payload, r.policy, record, hashOrder) == Finished(response)
  }

  ghost predicate AnswersFromItsId(svc: Service, rs: seq<Request>, r: Request, response: Response) {
    exists record :: Origin(svc, rs, r.key, record) && AnswersFrom(svc, r, record, response)
  }

  ghost predicate Justified(svc: Service, rs: seq<Request>, r: Request, response: Response) {
    || response == StoreUnavailable
    || response == Result(RecordFor(svc, r.payload, r.policy).masked, Mask)
    || AnswersFromItsId(svc, rs, r, response)
  }

  ghost predicate RequestTraced(svc: Service, rs: seq<Request>, r: Request) {
    match r.progress
    case Looking(_) => true
    case Finished(response) => Justified(svc, rs, r, response)
    case _ => r.progress.own == RecordFor(svc, r.payload, r.policy)
  }

  ghost predicate StoresTraced(svc: Service, rs: seq<Request>, s: State) {
    && ShelfTraced(svc, rs, s.primary)
    && (forall w :: w in s.fallbacks ==> ShelfTraced(svc, rs, s.fallbacks[w]))
    && (forall n :: 0 <= n < |s.inFlight| ==> OpTraced(svc, rs, s.inFlight[n]))
  }

  ghost predicate RequestsTraced(svc: Service, rs: seq<Request>, some: seq<Request>) {
    forall i :: 0 <= i < |some| ==> RequestTraced(svc, rs, some[i])
  }

  ghost predicate Traced(svc: Service, s: State) {
    StoresTraced(svc, s.requests, s) && RequestsTraced(svc, s.requests, s.requests)
  }

  ghost predicate SameAsked(a: Request, b: Request) {
    a.worker == b.worker && a.key == b.key && a.payload == b.payload && a.policy == b.policy
  }

  /** Requests are never forgotten, and never change what they asked. */
  ghost predicate Grows(rs: seq<Request>, rs': seq<Request>) {
    |rs| <= |rs'| && forall i :: 0 <= i < |rs| ==> SameAsked(rs[i], rs'[i])
  }

  lemma {:induction false} RunGrows(svc: Service, s: State, actions: seq<Action>)
    ensures Grows(s.requests, Run(svc, s, actions).requests)
    decreases |actions|
  {
    if actions != [] {
      var next := Step(svc, s, actions[0]);
      RunGrows(svc, next, actions[1..]);
      forall i | 0 <= i < |s.requests| ensures SameAsked(s.requests[i], Run(svc, next, actions[1..]).requests[i]) {
        assert SameAsked(s.requests[i], next.requests[i]);
      }
    }
  }

  lemma OriginKept(svc: Service, rs: seq<Request>, rs': seq<Request>, key: Key, record: Record)
    requires Grows(rs, rs') && Origin(svc, rs, key, record)
    ensures Origin(svc, rs', key, record)
  {
    var j :| 0 <= j < |rs| && rs[j].key == key && record == RecordFor(svc, rs[j].payload, rs[j].policy);
    assert SameAsked(rs[j], rs'[j]);
  }

  lemma StoresKept(svc: Service, rs: seq<Request>, rs': seq<Request>, s: State)
    requires Grows(rs, rs') && StoresTraced(svc, rs, s)
    ensures StoresTraced(svc, rs', s)
  {
    ShelfKept(svc, rs, rs', s.primary);
    forall w | w in s.fallbacks ensures ShelfTraced(svc, rs', s.fallbacks[w]) {
      ShelfKept(svc, rs, rs', s.fallbacks[w]);
    }
    forall n | 0 <= n < |s.inFlight| ensures OpTraced(svc, rs', s.inFlight[n]) {
      var op := s.inFlight[n];
      if !op.Get? {
        OriginKept(svc, rs, rs', op.key, op.record);
      }
    }
  }

  lemma ShelfKept(svc: Service, rs: seq<Request>, rs': seq<Request>, shelf: Shelf)
    requires Grows(rs, rs') && ShelfTraced(svc, rs, shelf)
    ensures ShelfTraced(svc, rs', shelf)
  {
    forall k | k in shelf ensures Origin(svc, rs', k, shelf[k]) {
      OriginKept(svc, rs, rs', k, shelf[k]);
    }
  }

  lemma RequestsKept(svc: Service, rs: seq<Request>, rs': seq<Request>, some: seq<Request>)
    requires Grows(rs, rs') && RequestsTraced(svc, rs, some)
    ensures RequestsTraced(svc, rs', some)
  {
    forall i | 0 <= i < |some| ensures RequestTraced(svc, rs', some[i]) {
      var r := some[i];
      if r.progress.Finished? && AnswersFromItsId(svc, rs, r, r.progress.response) {
        var record :| Origin(svc, rs, r.key, record) && AnswersFrom(svc, r, record, r.progress.response);
        OriginKept(svc, rs, rs', r.key, record);
      }
    }
  }

  lemma ServeKeepsTraced(svc: Service, rs: seq<Request>, shelf: Shelf, op: Op)
    requires ShelfTraced(svc, rs, shelf) && OpTraced(svc, rs, op)
    ensures ShelfTraced(svc, rs, Serve(shelf, op).0)
    ensures var answer := Serve(shelf, op).1;
      answer.Found? && answer.record.Some? ==> Origin(svc, rs, op.key, answer.record.value)
  {
  }

  lemma CallKeepsTraced(svc: Service, rs: seq<Request>, s: State, worker: nat, at: Stage, op: Op, fate: Fate)
    requires StoresTraced(svc, rs, s) && OpTraced(svc, rs, op)
    ensures var (after, verdict) := CallStore(s, worker, at, op, fate);
      && StoresTraced(svc, rs, after) && after.requests == s.requests
      && (verdict.Return? && verdict.answer.Found? && verdict.answer.record.Some? ==>
            Origin(svc, rs, op.key, verdict.answer.record.value))
  {
    ServeKeepsTraced(svc, rs, s.primary, op);
    ServeKeepsTraced(svc, rs, FallbackOf(s, worker), op);
  }

  lemma ResumeKeepsTraced(svc: Service, rs: seq<Request>, r: Request, verdict: Verdict, hashOrder: seq<Fragment>)
    requires RequestTraced(svc, rs, r) && !r.progress.Finished? && OrderFits(verdict, hashOrder)
    requires verdict.Return? && verdict.answer.Found? && verdict.answer.record.Some? ==>
      Origin(svc, rs, r.key, verdict.answer.record.value)
    ensures RequestTraced(svc, rs, r.(progress := Resume(svc, r, verdict, hashOrder)))
  {
    var next := r.(progress := Resume(svc, r, verdict, hashOrder));
    if verdict.Return? && verdict.answer.Found? && verdict.answer.record.Some? {
      var record := verdict.answer.record.value;
      if next.progress.Finished? {
        assert AnswersFrom(svc, next, record, next.progress.response);
      }
    }
  }

  lemma AdvanceKeepsTraced(svc: Service, s: State, i: nat, fate: Fate, hashOrder: seq<Fragment>)
    requires Traced(svc, s) && i < |s.requests| && !s.requests[i].progress.Finished?
    ensures Traced(svc, AdvanceRequest(svc, s, i, fate, hashOrder))
  {
    var r, rs := s.requests[i], s.requests;
    var op := Awaited(r);
    var (after, verdict) := CallStore(s, r.worker, r.progress.at, op, fate);
    assert RequestTraced(svc, rs, r);
    assert Origin(svc, rs, r.key, RecordFor(svc, rs[i].payload, rs[i].policy));
    CallKeepsTraced(svc, rs, s, r.worker, r.progress.at, op, fate);
    if OrderFits(verdict, hashOrder) {
      ResumeKeepsTraced(svc, rs, r, verdict, hashOrder);
      var rs' := rs[i := r.(progress := Resume(svc, r, verdict, hashOrder))];
      assert RequestsTraced(svc, rs, rs');
      StoresKept(svc, rs, rs', after);
      RequestsKept(svc, rs, rs', rs');
    }
  }

  lemma StepKeepsTraced(svc: Service, s: State, a: Action)
    requires Traced(svc, s)
    ensures Traced(svc, Step(svc, s, a))
  {
    match a
    case Arrive(w, k, payload, policy) =>
      var rs' := s.requests + [Request(w, k, payload, policy, Looking(First))];
      StoresKept(svc, s.requests, rs', s);
      RequestsKept(svc, s.requests, rs', s.requests);
    case Advance(i, fate, hashOrder) =>
      if i < |s.requests| && !s.requests[i].progress.Finished? {
        AdvanceKeepsTraced(svc, s, i, fate, hashOrder);
      }
    case Deliver(n) =>
      if n < |s.inFlight| {
        ServeKeepsTraced(svc, s.requests, s.primary, s.inFlight[n]);
      }
    case LosePrimary(k) =>
    case LoseFallback(w, k) =>
  }

  lemma {:induction false} RunKeepsTraced(svc: Service, s: State, actions: seq<Action>)
    requires Traced(svc, s)
    ensures Traced(svc, Run(svc, s, actions))
    decreases |actions|
  {
    if actions != [] {
      StepKeepsTraced(svc, s, actions[0]);
      RunKeepsTraced(svc, Step(svc, s, actions[0]), actions[1..]);
    }
  }

  // ---- what holds in every run, whatever fails, expires or is evicted ----

  /** Ids do not mix: a finished request was refused for want of a store, or masked anew, or answered from a
      record of a text submitted under its own id. */
  lemma AnswersStayWithinTheId(svc: Service, actions: seq<Action>, i: nat)
    requires var s := Run(svc, EMPTY, actions); i < |s.requests| && s.requests[i].progress.Finished?
    ensures var s := Run(svc, EMPTY, actions);
      Justified(svc, s.requests, s.requests[i], s.requests[i].progress.response)
  {
    RunKeepsTraced(svc, EMPTY, actions);
  }

  /** Ambiguous failures do no harm: where an id is only ever used with one text under one policy, every
      finished request under it was either told that the store is unavailable or given that text's mask. */
  lemma SameTextSameMask(svc: Service, actions: seq<Action>, key: Key, text: string, policy: SystemPolicy, i: nat)
    requires var s := Run(svc, EMPTY, actions);
      && (forall j :: 0 <= j < |s.requests| && s.requests[j].key == key ==>
            s.requests[j].payload == text && s.requests[j].policy == policy)
      && i < |s.requests| && s.requests[i].key == key && s.requests[i].progress.Finished?
    ensures var response := Run(svc, EMPTY, actions).requests[i].progress.response;
      response == StoreUnavailable || (response.Result? && response.text == svc(text, policy).text)
  {
    var s := Run(svc, EMPTY, actions);
    AnswersStayWithinTheId(svc, actions, i);
    var r, response := s.requests[i], s.requests[i].progress.response;
    if AnswersFromItsId(svc, s.requests, r, response) {
      var record :| Origin(svc, s.requests, r.key, record) && AnswersFrom(svc, r, record, response);
      assert record == RecordFor(svc, text, policy);
    }
  }

  /** A system that may not unmask only ever receives a mask of the very text it sent, made under the policy
      of some request that sent the same text under the same id. */
  lemma WithoutUnmaskingOnlyMasks(svc: Service, actions: seq<Action>, i: nat)
    requires var s := Run(svc, EMPTY, actions);
      i < |s.requests| && s.requests[i].progress.Finished? && !s.requests[i].policy.unmaskAllowed
    ensures var rs := Run(svc, EMPTY, actions).requests;
      rs[i].progress.response.Result? ==>
        exists j :: 0 <= j < |rs| && rs[j].key == rs[i].key && rs[j].payload == rs[i].payload
          && rs[i].progress.response.text == svc(rs[j].payload, rs[j].policy).text
  {
    var rs := Run(svc, EMPTY, actions).requests;
    AnswersStayWithinTheId(svc, actions, i);
    var r, response := rs[i], rs[i].progress.response;
    if response == Result(RecordFor(svc, r.payload, r.policy).masked, Mask) {
      assert response.text == svc(rs[i].payload, rs[i].policy).text;
    } else if response.Result? {
      var record :| Origin(svc, rs, r.key, record) && AnswersFrom(svc, r, record, response);
      var j :| 0 <= j < |rs| && rs[j].key == r.key && record == RecordFor(svc, rs[j].payload, rs[j].policy);
      assert record.original == r.payload && response.text == record.masked;
    }
  }
}
