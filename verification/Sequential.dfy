/** app/core/processor.py, one request at a time under an id: the table of what a payload does to its record. */
module Sequential {
  import opened Storage
  import opened Restoration
  import opened Fallback
  import opened Protocol
  import opened Agreement
  import opened Wrappers

  /** Request `i` takes its next `n` steps, all served, with nothing in between. */
  ghost function Undisturbed(svc: Service, s: State, i: nat, hashOrder: seq<Fragment>, n: nat): State
    decreases n
  {
    if n == 0 then s else Undisturbed(svc, Step(svc, s, Advance(i, Serves, hashOrder)), i, hashOrder, n - 1)
  }

  /** The request does not concern the record the id has. */
  ghost predicate Overwrites(payload: string, found: Option<Record>) {
    found.None? || Foreign(payload, found.value)
  }

  function Lookup(shelf: Shelf, key: Key): Option<Record> {
    if key in shelf then Some(shelf[key]) else None
  }

  ghost function TableAnswer(svc: Service, r: Request, found: Option<Record>, hashOrder: seq<Fragment>): Response {
    if Overwrites(r.payload, found) then Result(svc(r.payload, r.policy).text, Mask)
    else RelatedAnswer(r, found.value, hashOrder)
  }

  ghost function PrimaryAfter(svc: Service, primary: Shelf, r: Request, found: Option<Record>): Shelf {
    if Overwrites(r.payload, found) then primary[r.key := RecordFor(svc, r.payload, r.policy)] else primary
  }

  lemma ThreeSteps(svc: Service, s: State, i: nat, hashOrder: seq<Fragment>)
    ensures var a := Advance(i, Serves, hashOrder);
      Undisturbed(svc, s, i, hashOrder, 3) == Step(svc, Step(svc, Step(svc, s, a), a), a)
  {
    var a := Advance(i, Serves, hashOrder);
    var s1 := Step(svc, s, a);
    var s2 := Step(svc, s1, a);
    assert Undisturbed(svc, s, i, hashOrder, 3) == Undisturbed(svc, s1, i, hashOrder, 2)
        == Undisturbed(svc, s2, i, hashOrder, 1) == Undisturbed(svc, Step(svc, s2, a), i, hashOrder, 0);
  }

  lemma WithoutARecord(svc: Service, s: State, i: nat, hashOrder: seq<Fragment>)
    requires i < |s.requests| && s.requests[i].progress == Looking(First)
    requires s.requests[i].key !in FallbackOf(s, s.requests[i].worker) && s.requests[i].key !in s.primary
    ensures var r, s' := s.requests[i], Undisturbed(svc, s, i, hashOrder, 3);
      && s'.requests == s.requests[i := r.(progress := Finished(Result(svc(r.payload, r.policy).text, Mask)))]
      && s'.primary == s.primary[r.key := RecordFor(svc, r.payload, r.policy)]
  {
    var r, a := s.requests[i], Advance(i, Serves, hashOrder);
    var s1 := Step(svc, s, a);
    var s2 := Step(svc, s1, a);
    var s3 := Step(svc, s2, a);
    ThreeSteps(svc, s, i, hashOrder);
    assert s1.requests[i].progress == Looking(Spare);
    assert s2.requests[i].progress == Reserving(First, RecordFor(svc, r.payload, r.policy));
    assert s3.requests == s.requests[i := s3.requests[i]];
  }

  lemma WithARecord(svc: Service, s: State, i: nat, hashOrder: seq<Fragment>)
    requires i < |s.requests| && s.requests[i].progress == Looking(First) && s.requests[i].key in s.primary
    requires Enumerates(hashOrder, s.primary[s.requests[i].key].fragments)
    ensures var r, s' := s.requests[i], Undisturbed(svc, s, i, hashOrder, 3);
      var found := Some(s.primary[r.key]);
      && s'.requests == s.requests[i := r.(progress := Finished(TableAnswer(svc, r, found, hashOrder)))]
      && s'.primary == PrimaryAfter(svc, s.primary, r, found)
  {
    var r, a := s.requests[i], Advance(i, Serves, hashOrder);
    var record := s.primary[r.key];
    var s1 := Step(svc, s, a);
    var s3 := Step(svc, Step(svc, s1, a), a);
    ThreeSteps(svc, s, i, hashOrder);
    ReportsReplacementsExactly(r.payload, record.fragments, hashOrder);
    assert s1.requests[i].progress == Existing(svc, r.payload, r.policy, record, hashOrder);
    assert s3.requests == s.requests[i := s3.requests[i]];
  }

  lemma WithASpareRecord(svc: Service, s: State, i: nat, hashOrder: seq<Fragment>)
    requires i < |s.requests| && s.requests[i].progress == Looking(First) && s.requests[i].key !in s.primary
    requires var r := s.requests[i];
      r.key in FallbackOf(s, r.worker) && Enumerates(hashOrder, FallbackOf(s, r.worker)[r.key].fragments)
    ensures var r, s' := s.requests[i], Undisturbed(svc, s, i, hashOrder, 3);
      var found := Some(FallbackOf(s, r.worker)[r.key]);
      && s'.requests == s.requests[i := r.(progress := Finished(TableAnswer(svc, r, found, hashOrder)))]
      && s'.primary == PrimaryAfter(svc, s.primary, r, found)
  {
    var r, a := s.requests[i], Advance(i, Serves, hashOrder);
    var record := FallbackOf(s, r.worker)[r.key];
    var s1 := Step(svc, s, a);
    var s2 := Step(svc, s1, a);
    var s3 := Step(svc, s2, a);
    ThreeSteps(svc, s, i, hashOrder);
    ReportsReplacementsExactly(r.payload, record.fragments, hashOrder);
    assert s1.requests[i].progress == Looking(Spare);
    assert s2.requests[i].progress == Existing(svc, r.payload, r.policy, record, hashOrder);
    assert s3.requests == s.requests[i := s3.requests[i]];
  }

  /** The record a request finds when every call is served: the primary's, else the fallback's. */
  ghost function FoundBy(s: State, r: Request): Option<Record> {
    if r.key in s.primary then Some(s.primary[r.key]) else Lookup(FallbackOf(s, r.worker), r.key)
  }

  /** An undisturbed request is finished after at most three calls. A live record is superseded exactly when the
      payload is foreign to it; otherwise the primary stays as it is, and the answer is the text for its mask, the
      mask for its text, and the restored payload for one that holds its masks. */
  lemma SequentialContract(svc: Service, s: State, i: nat, hashOrder: seq<Fragment>)
    requires i < |s.requests| && s.requests[i].progress == Looking(First)
    requires FoundBy(s, s.requests[i]).Some? ==> Enumerates(hashOrder, FoundBy(s, s.requests[i]).value.fragments)
    ensures var r, s' := s.requests[i], Undisturbed(svc, s, i, hashOrder, 3);
      var found := FoundBy(s, r);
      && s'.requests == s.requests[i := r.(progress := Finished(TableAnswer(svc, r, found, hashOrder)))]
      && s'.primary == PrimaryAfter(svc, s.primary, r, found)
  {
    var r := s.requests[i];
    if r.key in s.primary {
      WithARecord(svc, s, i, hashOrder);
    } else if r.key in FallbackOf(s, r.worker) {
      WithASpareRecord(svc, s, i, hashOrder);
    } else {
      WithoutARecord(svc, s, i, hashOrder);
    }
  }

  // ---- whole runs in which the requests under one id take turns ----

  ghost predicate AllFinished(rs: seq<Request>, key: Key) {
    forall i :: 0 <= i < |rs| && rs[i].key == key ==> rs[i].progress.Finished?
  }

  /** Under `key` a request arrives only when the ones before it are finished, calls are served and nothing is lost.
      Under other ids anything may happen. */
  ghost predicate Orderly(s: State, a: Action, key: Key) {
    match a
    case Arrive(_, k, _, _) => k == key ==> AllFinished(s.requests, key)
    case Advance(i, fate, _) => i < |s.requests| && s.requests[i].key == key ==> fate == Serves
    case Deliver(_) => true
    case LosePrimary(k) => k != key
    case LoseFallback(_, _) => true
  }

  ghost predicate OrderlyRun(svc: Service, s: State, actions: seq<Action>, key: Key)
    decreases |actions|
  {
    actions == [] || (Orderly(s, actions[0], key) && OrderlyRun(svc, Step(svc, s, actions[0]), actions[1..], key))
  }

  ghost predicate OwnRecord(svc: Service, r: Request, own: Record) {
    own == RecordFor(svc, r.payload, r.policy)
  }

  /** Where a request stands that nothing under its id overtakes: what it is about to do fits the live record. */
  ghost predicate InStep(svc: Service, r: Request, live: Option<Record>) {
    match r.progress
    case Looking(at) => at == First || (at == Spare && live == None)
    case Reserving(at, own) => at == First && OwnRecord(svc, r, own) && live == None
    case Rereading(_, _) => false
    case Overwriting(at, own) => at == First && OwnRecord(svc, r, own) && live.Some? && Foreign(r.payload, live.value)
    case Finished(_) => true
  }

  ghost predicate InTurn(svc: Service, s: State, key: Key) {
    && Alone(s, key)
    && (forall i :: 0 <= i < |s.requests| && s.requests[i].key == key ==>
          InStep(svc, s.requests[i], Lookup(s.primary, key)))
    && (forall i, j :: 0 <= i < j < |s.requests| && s.requests[i].key == key && s.requests[j].key == key ==>
          s.requests[i].progress.Finished?)
  }

  /** One served call of a request in step. */
  lemma TurnAdvances(svc: Service, s: State, i: nat, hashOrder: seq<Fragment>)
    requires i < |s.requests| && !s.requests[i].progress.Finished? && Alone(s, s.requests[i].key)
    requires InStep(svc, s.requests[i], Lookup(s.primary, s.requests[i].key))
    ensures var r, s' := s.requests[i], AdvanceRequest(svc, s, i, Serves, hashOrder);
      && Alone(s', r.key) && |s'.requests| == |s.requests|
      && s'.requests == s.requests[i := s'.requests[i]] && SameAsked(r, s'.requests[i])
      && InStep(svc, s'.requests[i], Lookup(s'.primary, r.key))
      && (Lookup(s'.primary, r.key) != Lookup(s.primary, r.key) ==>
            && s'.requests[i].progress.Finished?
            && Overwrites(r.payload, Lookup(s.primary, r.key))
            && Lookup(s'.primary, r.key) == Some(RecordFor(svc, r.payload, r.policy)))
  {
    var r, s' := s.requests[i], AdvanceRequest(svc, s, i, Serves, hashOrder);
    assert r.key !in FallbackOf(s, r.worker);
    if r.progress == Looking(First) && r.key in s.primary && Enumerates(hashOrder, s.primary[r.key].fragments) {
      ReportsReplacementsExactly(r.payload, s.primary[r.key].fragments, hashOrder);
    }
    assert s'.requests == s.requests || s'.requests == s.requests[i := s'.requests[i]];
  }

  /** Every orderly step keeps the turns, and changes the live record only as the table says. */
  lemma StepKeepsInTurn(svc: Service, s: State, a: Action, key: Key)
    requires InTurn(svc, s, key) && Orderly(s, a, key)
    ensures InTurn(svc, Step(svc, s, a), key)
    ensures Lookup(Step(svc, s, a).primary, key) != Lookup(s.primary, key) ==> ReplacesByForeign(svc, s, a, key)
  {
    match a
    case Arrive(w, k, payload, policy) =>
    case Advance(i, fate, hashOrder) =>
      if i < |s.requests| && !s.requests[i].progress.Finished? {
        if s.requests[i].key == key {
          TurnAdvances(svc, s, i, hashOrder);
        } else {
          AdvanceKeepsOut(svc, s, i, fate, hashOrder, key);
        }
      }
    case Deliver(n) =>
      if n < |s.inFlight| {
        ServeElsewhere(s.primary, s.inFlight[n], key);
      }
    case LosePrimary(k) =>
    case LoseFallback(w, k) =>
  }

  /** The action stores the record of a payload that has nothing to do with the live record, if there is one. */
  ghost predicate ReplacesByForeign(svc: Service, s: State, a: Action, key: Key) {
    && a.Advance? && a.i < |s.requests| && s.requests[a.i].key == key
    && Overwrites(s.requests[a.i].payload, Lookup(s.primary, key))
    && Has(Step(svc, s, a).primary, key, RecordFor(svc, s.requests[a.i].payload, s.requests[a.i].policy))
  }

  lemma {:induction false} RunKeepsInTurn(svc: Service, s: State, actions: seq<Action>, key: Key)
    requires InTurn(svc, s, key) && OrderlyRun(svc, s, actions, key)
    ensures InTurn(svc, Run(svc, s, actions), key)
    decreases |actions|
  {
    if actions != [] {
      StepKeepsInTurn(svc, s, actions[0], key);
      RunKeepsInTurn(svc, Step(svc, s, actions[0]), actions[1..], key);
    }
  }

  lemma {:induction false} OrderlySplits(svc: Service, s: State, before: seq<Action>, after: seq<Action>, key: Key)
    requires OrderlyRun(svc, s, before + after, key)
    ensures OrderlyRun(svc, s, before, key) && OrderlyRun(svc, Run(svc, s, before), after, key)
    decreases |before|
  {
    if before == [] {
      assert before + after == after;
    } else {
      assert (before + after)[1..] == before[1..] + after;
      OrderlySplits(svc, Step(svc, s, before[0]), before[1..], after, key);
    }
  }

  /** In every run in which the requests under an id take turns, whatever goes on under other ids, the record of the
      id changes only when a request stores the record of a payload that is neither the live record's text nor its
      mask and holds none of its masks. */
  lemma OnlyForeignPayloadsReplace(svc: Service, actions: seq<Action>, a: Action, key: Key)
    requires OrderlyRun(svc, EMPTY, actions + [a], key)
    ensures var s := Run(svc, EMPTY, actions);
      Lookup(Step(svc, s, a).primary, key) != Lookup(s.primary, key) ==> ReplacesByForeign(svc, s, a, key)
  {
    OrderlySplits(svc, EMPTY, actions, [a], key);
    RunKeepsInTurn(svc, EMPTY, actions, key);
    StepKeepsInTurn(svc, Run(svc, EMPTY, actions), a, key);
  }

  // ---- one turn ----

  /** The request has found `found`, or is about to, and leaves the record as the table says. */
  ghost predicate Follows(svc: Service, r: Request, found: Option<Record>, live: Option<Record>) {
    match r.progress
    case Finished(response) => FollowsTheTable(svc, r, found, response) && live == LeftBehind(svc, r, found)
    case _ => InStep(svc, r, live) && live == found
  }

  ghost predicate FollowsTheTable(svc: Service, r: Request, found: Option<Record>, response: Response) {
    exists hashOrder ::
      (!Overwrites(r.payload, found) ==> Enumerates(hashOrder, found.value.fragments))
      && response == TableAnswer(svc, r, found, hashOrder)
  }

  ghost function LeftBehind(svc: Service, r: Request, found: Option<Record>): Option<Record> {
    if Overwrites(r.payload, found) then Some(RecordFor(svc, r.payload, r.policy)) else found
  }

  /** Request `i` has its turn. */
  ghost predicate HasTheTurn(svc: Service, s: State, key: Key, i: nat, found: Option<Record>) {
    && Alone(s, key)
    && i < |s.requests| && s.requests[i].key == key && Follows(svc, s.requests[i], found, Lookup(s.primary, key))
    && forall j :: 0 <= j < |s.requests| && s.requests[j].key == key && j != i ==> s.requests[j].progress.Finished?
  }

  lemma TurnFollows(svc: Service, s: State, i: nat, hashOrder: seq<Fragment>, found: Option<Record>)
    requires i < |s.requests| && !s.requests[i].progress.Finished? && Alone(s, s.requests[i].key)
    requires Follows(svc, s.requests[i], found, Lookup(s.primary, s.requests[i].key))
    ensures var r, s' := s.requests[i], AdvanceRequest(svc, s, i, Serves, hashOrder);
      Follows(svc, s'.requests[i], found, Lookup(s'.primary, r.key))
  {
    var r, s' := s.requests[i], AdvanceRequest(svc, s, i, Serves, hashOrder);
    assert r.key !in FallbackOf(s, r.worker);
    if found.Some? && Enumerates(hashOrder, found.value.fragments) {
      ReportsReplacementsExactly(r.payload, found.value.fragments, hashOrder);
    }
    if s'.requests[i].progress.Finished? {
      assert s'.requests[i].progress.response == TableAnswer(svc, s'.requests[i], found, hashOrder);
    }
  }

  ghost predicate NoArrival(a: Action, key: Key) {
    a.Arrive? ==> a.key != key
  }

  lemma StepKeepsTheTurn(svc: Service, s: State, a: Action, key: Key, i: nat, found: Option<Record>)
    requires HasTheTurn(svc, s, key, i, found) && Orderly(s, a, key) && NoArrival(a, key)
    ensures HasTheTurn(svc, Step(svc, s, a), key, i, found)
    ensures SameAsked(s.requests[i], Step(svc, s, a).requests[i])
  {
    match a
    case Arrive(w, k, payload, policy) =>
    case Advance(j, fate, hashOrder) =>
      if j < |s.requests| && !s.requests[j].progress.Finished? {
        if s.requests[j].key == key {
          if !s.requests[i].progress.Finished? {
            TurnAdvances(svc, s, i, hashOrder);
            TurnFollows(svc, s, i, hashOrder, found);
          }
        } else {
          AdvanceKeepsOut(svc, s, j, fate, hashOrder, key);
        }
      }
    case Deliver(n) =>
      if n < |s.inFlight| {
        ServeElsewhere(s.primary, s.inFlight[n], key);
      }
    case LosePrimary(k) =>
    case LoseFallback(w, k) =>
  }

  lemma {:induction false} RunKeepsTheTurn(
    svc: Service, s: State, actions: seq<Action>, key: Key, i: nat, found: Option<Record>)
    requires HasTheTurn(svc, s, key, i, found) && OrderlyRun(svc, s, actions, key)
    requires forall a :: a in actions ==> NoArrival(a, key)
    ensures HasTheTurn(svc, Run(svc, s, actions), key, i, found)
    ensures SameAsked(s.requests[i], Run(svc, s, actions).requests[i])
    decreases |actions|
  {
    if actions != [] {
      assert actions[0] in actions;
      StepKeepsTheTurn(svc, s, actions[0], key, i, found);
      RunKeepsTheTurn(svc, Step(svc, s, actions[0]), actions[1..], key, i, found);
    }
  }

  /** In every run in which the requests under an id take turns, each of them follows the table: as long as the next
      one has not arrived, the record is the one there was on its arrival until it is finished; then its answer and
      the record are what the table says. */
  lemma SequentialRunsFollowTheTable(
    svc: Service, before: seq<Action>, arrival: Action, during: seq<Action>, key: Key)
    requires arrival.Arrive? && arrival.key == key && (forall a :: a in during ==> NoArrival(a, key))
    requires OrderlyRun(svc, EMPTY, before + ([arrival] + during), key)
    ensures var s, s' := Run(svc, EMPTY, before), Run(svc, EMPTY, before + ([arrival] + during));
      var i, found, live := |s.requests|, Lookup(s.primary, key), Lookup(s'.primary, key);
      && i < |s'.requests| && s'.requests[i].payload == arrival.payload && s'.requests[i].policy == arrival.policy
      && (if s'.requests[i].progress.Finished? then
            && FollowsTheTable(svc, s'.requests[i], found, s'.requests[i].progress.response)
            && live == LeftBehind(svc, s'.requests[i], found)
          else live == found)
  {
    var s := Run(svc, EMPTY, before);
    OrderlySplits(svc, EMPTY, before, [arrival] + during, key);
    RunKeepsInTurn(svc, EMPTY, before, key);
    RunSplits(svc, EMPTY, before, [arrival] + during);
    assert ([arrival] + during)[1..] == during;
    var s1 := Step(svc, s, arrival);
    assert HasTheTurn(svc, s1, key, |s.requests|, Lookup(s.primary, key));
    RunKeepsTheTurn(svc, s1, during, key, |s.requests|, Lookup(s.primary, key));
  }

  /** Interleaved, the table fails: a request that has read a record foreign to its payload goes on to replace
      whatever is there by then. After another such request has stored its own, that is a related record exactly when
      the payload has to do with that other record: is its text or its mask, or holds one of its masks. */
  lemma StaleReadReplacesARelatedRecord(svc: Service, s: State, i: nat, j: nat, hashOrder: seq<Fragment>)
    requires i < |s.requests| && j < |s.requests| && i != j
    requires s.requests[i].progress == s.requests[j].progress == Looking(First)
    requires s.requests[i].key == s.requests[j].key && s.requests[i].key in s.primary
    requires Enumerates(hashOrder, s.primary[s.requests[i].key].fragments)
    requires Foreign(s.requests[i].payload, s.primary[s.requests[i].key])
    requires Foreign(s.requests[j].payload, s.primary[s.requests[i].key])
    ensures var ri, rj := s.requests[i], s.requests[j];
      var interrupted := Undisturbed(svc, Undisturbed(svc, s, i, hashOrder, 1), j, hashOrder, 2);
      var end := Undisturbed(svc, interrupted, i, hashOrder, 1);
      && Has(interrupted.primary, ri.key, RecordFor(svc, rj.payload, rj.policy))
      && Has(end.primary, ri.key, RecordFor(svc, ri.payload, ri.policy))
      && (!Foreign(ri.payload, interrupted.primary[ri.key])
          <==> !Foreign(ri.payload, RecordFor(svc, rj.payload, rj.policy)))
  {
    var record := s.primary[s.requests[i].key];
    ReportsReplacementsExactly(s.requests[i].payload, record.fragments, hashOrder);
    ReportsReplacementsExactly(s.requests[j].payload, record.fragments, hashOrder);
    var ri, rj := RecordFor(svc, s.requests[i].payload, s.requests[i].policy),
                  RecordFor(svc, s.requests[j].payload, s.requests[j].policy);
    var s1 := Step(svc, s, Advance(i, Serves, hashOrder));
    assert Undisturbed(svc, s, i, hashOrder, 1) == Undisturbed(svc, s1, i, hashOrder, 0) == s1;
    assert s1.requests[i].progress == Overwriting(First, ri) && s1.requests[j] == s.requests[j];
    var s2 := Step(svc, s1, Advance(j, Serves, hashOrder));
    var s3 := Step(svc, s2, Advance(j, Serves, hashOrder));
    assert Undisturbed(svc, s1, j, hashOrder, 2) == Undisturbed(svc, s2, j, hashOrder, 1)
        == Undisturbed(svc, s3, j, hashOrder, 0) == s3;
    assert s2.requests[j].progress == Overwriting(First, rj);
    assert s3.requests[i].progress == Overwriting(First, ri);
    var s4 := Step(svc, s3, Advance(i, Serves, hashOrder));
    assert Undisturbed(svc, s3, i, hashOrder, 1) == Undisturbed(svc, s4, i, hashOrder, 0) == s4;
  }
}
