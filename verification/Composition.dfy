/** The parts put together: the detection engine and the masker behind the /process protocol. */
module Composition {
  import opened Storage
  import opened Texts
  import opened Engine
  import opened Restoration
  import opened Masking
  import opened MaskingLaws
  import opened Policy
  import opened ChatProxy
  import opened Fallback
  import opened Protocol
  import opened Processing
  import opened Sequential
  import opened Agreement

  // ---- a model's answer comes back through /process ----

  ghost predicate TokenMasked(engine: DetectionEngine, message: string, policy: SystemPolicy) {
    && ReportsFit(engine, message, policy) && BracketFree(message)
    && DetectedBy(engine, message, policy) != []
    && AllTokens(DetectedBy(engine, message, policy), policy.rules)
  }

  lemma EchoHoldsMasks(
    engine: DetectionEngine, masker: Masker, message: string, policy: SystemPolicy, before: string, after: string,
    hashOrder: seq<Fragment>)
    requires TokenMasked(engine, message, policy) && BracketFree(before) && BracketFree(after)
    requires CollisionFree(MaskedBy(engine, masker, message, policy).fragments)
    requires Enumerates(hashOrder, MaskedBy(engine, masker, message, policy).fragments)
    ensures var masked := MaskedBy(engine, masker, message, policy); var echo := before + masked.text + after;
      && HoldsAMask(echo, masked.fragments)
      && Restoration.UnmaskFragments(echo, hashOrder).0 == before + message + after
      && '[' in echo
  {
    var es, masked := DetectedBy(engine, message, policy), MaskedBy(engine, masker, message, policy);
    var echo := before + masked.text + after;
    DetectedFits(engine, message, policy);
    TokenEchoRestoresTheMessage(masker, message, es, policy.rules, before, after, hashOrder);
    ReportsReplacementsExactly(echo, masked.fragments, hashOrder);
    FragmentsAreTokens(masker, message, es, policy.rules);
    TokensHaveBrackets(echo, masked.fragments);
  }

  lemma TokensHaveBrackets(echo: string, fs: seq<Fragment>)
    requires AllTokenFragments(fs) && HoldsAMask(echo, fs)
    ensures '[' in echo
  {
    var f :| f in fs && f.masked != f.original && Contains(echo, f.masked);
    var at :| 0 <= at <= |echo| - |f.masked| && OccursAt(echo, f.masked, at);
    assert TokenFragment(f) && f.masked[0] == '[';
    assert echo[at] == echo[at..at + |f.masked|][0];
  }

  /** Masked with tokens only, a message without '[' comes back through /process: a payload that repeats the mask
      kept under the id, inside anything without '[', is answered with the message inside that same thing, or
      refused when the system may not unmask; the record stays. */
  lemma EchoComesBackThroughProcess(
    engine: DetectionEngine, masker: Masker, s: State, i: nat, message: string, policy: SystemPolicy, before: string,
    after: string, hashOrder: seq<Fragment>)
    requires TokenMasked(engine, message, policy) && BracketFree(before) && BracketFree(after)
    requires CollisionFree(MaskedBy(engine, masker, message, policy).fragments)
    requires Enumerates(hashOrder, MaskedBy(engine, masker, message, policy).fragments)
    requires i < |s.requests| && s.requests[i].progress == Looking(First)
    requires Has(s.primary, s.requests[i].key, RecordFor(ServiceOf(engine, masker), message, policy))
    requires s.requests[i].payload == before + MaskedBy(engine, masker, message, policy).text + after
    ensures var r, s' := s.requests[i], Undisturbed(ServiceOf(engine, masker), s, i, hashOrder, 3);
      && s'.primary == s.primary
      && s'.requests == s.requests[i := r.(progress := Finished(
           if !r.policy.unmaskAllowed then UnmaskForbidden
           else Result(before + message + after, if before + after == "" then Unmask else Direction.UnmaskFragments)))]
  {
    ServiceMasks(engine, masker, message, policy);
    EchoHoldsMasks(engine, masker, message, policy, before, after, hashOrder);
    EchoHoldsMasks(engine, masker, message, policy, "", "", hashOrder);
    EchoAnswered(ServiceOf(engine, masker), s, i, RecordFor(ServiceOf(engine, masker), message, policy), before, after,
                 hashOrder);
  }

  lemma ServiceMasks(engine: DetectionEngine, masker: Masker, message: string, policy: SystemPolicy)
    requires ReportsFit(engine, message, policy)
    ensures var masked := MaskedBy(engine, masker, message, policy);
      RecordFor(ServiceOf(engine, masker), message, policy) == Record(message, masked.text, masked.fragments)
  {
  }

  lemma EchoAnswered(
    svc: Service, s: State, i: nat, record: Record, before: string, after: string, hashOrder: seq<Fragment>)
    requires i < |s.requests| && s.requests[i].progress == Looking(First) && Has(s.primary, s.requests[i].key, record)
    requires s.requests[i].payload == before + record.masked + after && Enumerates(hashOrder, record.fragments)
    requires '[' !in record.original && '[' in before + record.masked + after && '[' in "" + record.masked + ""
    requires HoldsAMask(before + record.masked + after, record.fragments)
    requires Restoration.UnmaskFragments(before + record.masked + after, hashOrder).0
          == before + record.original + after
    ensures var r, s' := s.requests[i], Undisturbed(svc, s, i, hashOrder, 3);
      && s'.primary == s.primary
      && s'.requests == s.requests[i := r.(progress := Finished(
           if !r.policy.unmaskAllowed then UnmaskForbidden
           else Result(before + record.original + after,
                       if before + after == "" then Unmask else Direction.UnmaskFragments)))]
  {
    assert "" + record.masked + "" == record.masked;
    NothingAround(before, record.masked, after);
    NothingAround(before, record.original, after);
    RelatedPayload(svc, s, i, before + record.original + after, hashOrder);
  }

  lemma NothingAround(before: string, inner: string, after: string)
    ensures before + inner + after == inner <==> before + after == ""
  {
    if before + after == "" {
      assert before == "" && after == "";
    } else {
      assert |before + inner + after| == |inner| + |before + after|;
    }
  }

  lemma RelatedPayload(svc: Service, s: State, i: nat, restored: string, hashOrder: seq<Fragment>)
    requires i < |s.requests| && s.requests[i].progress == Looking(First) && s.requests[i].key in s.primary
    requires var payload, record := s.requests[i].payload, s.primary[s.requests[i].key];
      && Enumerates(hashOrder, record.fragments) && HoldsAMask(payload, record.fragments)
      && payload != record.original && record.masked != record.original
      && Restoration.UnmaskFragments(payload, hashOrder).0 == restored
      && (payload == record.masked ==> restored == record.original)
    ensures var r, s' := s.requests[i], Undisturbed(svc, s, i, hashOrder, 3);
      && s'.primary == s.primary
      && s'.requests == s.requests[i := r.(progress := Finished(
           if !r.policy.unmaskAllowed then UnmaskForbidden
           else Result(restored, if r.payload == s.primary[r.key].masked then Unmask else Direction.UnmaskFragments)))]
  {
    WithARecord(svc, s, i, hashOrder);
  }

  /** The same in every calm run, however the requests interleave: whoever sends the mask back, inside anything without
      '[', is answered with the message inside that same thing, or refused when it may not unmask. */
  lemma EchoComesBackInCalmRuns(
    engine: DetectionEngine, masker: Masker, actions: seq<Action>, i: nat, message: string, policy: SystemPolicy,
    before: string, after: string)
    requires TokenMasked(engine, message, policy) && BracketFree(before) && BracketFree(after)
    requires CollisionFree(MaskedBy(engine, masker, message, policy).fragments)
    requires var s := Run(ServiceOf(engine, masker), EMPTY, actions);
      && i < |s.requests| && s.requests[i].progress.Finished?
      && CalmRun(ServiceOf(engine, masker), EMPTY, actions, s.requests[i].key, message)
      && s.requests[i].payload == before + MaskedBy(engine, masker, message, policy).text + after
      && Has(s.primary, s.requests[i].key, RecordFor(ServiceOf(engine, masker), message, policy))
    ensures var r := Run(ServiceOf(engine, masker), EMPTY, actions).requests[i];
      if !r.policy.unmaskAllowed then r.progress.response == UnmaskForbidden
      else r.progress.response.Result? && r.progress.response.text == before + message + after
  {
    var svc := ServiceOf(engine, masker);
    var s := Run(svc, EMPTY, actions);
    var r, record := s.requests[i], RecordFor(svc, message, policy);
    ServiceMasks(engine, masker, message, policy);
    RequestsAgree(svc, actions, r.key, message);
    assert RoundTrip(r, record);
    AnEnumeration(record.fragments);
    var some :| Enumerates(some, record.fragments);
    EchoHoldsMasks(engine, masker, message, policy, before, after, some);
    assert r.payload != record.original;
    NothingAround(before, record.masked, after);
    NothingAround(before, message, after);
    if r.policy.unmaskAllowed && r.payload != record.masked {
      var hashOrder :| Enumerates(hashOrder, record.fragments)
        && r.progress.response
           == Result(Restoration.UnmaskFragments(r.payload, hashOrder).0, Direction.UnmaskFragments);
      EchoHoldsMasks(engine, masker, message, policy, before, after, hashOrder);
    }
  }

  /** A set can be iterated. */
  lemma {:induction false} AnEnumeration(fragments: seq<Fragment>)
    ensures exists hashOrder :: Enumerates(hashOrder, fragments)
  {
    if fragments == [] {
      assert Enumerates([], fragments);
    } else {
      AnEnumeration(fragments[1..]);
      var rest :| Enumerates(rest, fragments[1..]);
      assert fragments == [fragments[0]] + fragments[1..];
      if fragments[0] in rest {
        assert Enumerates(rest, fragments);
      } else {
        assert Enumerates([fragments[0]] + rest, fragments);
      }
    }
  }

  // ---- what a system that may not unmask gets to see ----

  /** Where every policy used on the id masks in full, a system without the right to unmask is given a text as long
      as the one it sent, in which every letter and digit inside what some request's policy detects is covered. */
  lemma WithoutUnmaskingOnlyCoveredTexts(engine: DetectionEngine, masker: Masker, actions: seq<Action>, i: nat)
    requires var s := Run(ServiceOf(engine, masker), EMPTY, actions);
      && i < |s.requests| && s.requests[i].progress.Finished? && s.requests[i].progress.response.Result?
      && !s.requests[i].policy.unmaskAllowed
      && forall j :: 0 <= j < |s.requests| && s.requests[j].key == s.requests[i].key ==>
           && ReportsFit(engine, s.requests[i].payload, s.requests[j].policy)
           && AllFull(DetectedBy(engine, s.requests[i].payload, s.requests[j].policy), s.requests[j].policy.rules)
    ensures var rs := Run(ServiceOf(engine, masker), EMPTY, actions).requests;
      var text, out := rs[i].payload, rs[i].progress.response.text;
      && |out| == |text|
      && exists j :: 0 <= j < |rs| && rs[j].key == rs[i].key && rs[j].payload == text
           && Covers(engine, masker, text, rs[j].policy, out)
  {
    var svc := ServiceOf(engine, masker);
    var rs := Run(svc, EMPTY, actions).requests;
    WithoutUnmaskingOnlyMasks(svc, actions, i);
    var j :| 0 <= j < |rs| && rs[j].key == rs[i].key && rs[j].payload == rs[i].payload
      && rs[i].progress.response.text == svc(rs[j].payload, rs[j].policy).text;
    var es := DetectedBy(engine, rs[i].payload, rs[j].policy);
    DetectedFits(engine, rs[i].payload, rs[j].policy);
    FullMaskIsPointwise(masker, rs[i].payload, es, rs[j].policy.rules);
    assert Covers(engine, masker, rs[i].payload, rs[j].policy, rs[i].progress.response.text);
  }

  ghost predicate Covers(engine: DetectionEngine, masker: Masker, text: string, policy: SystemPolicy, out: string) {
    |out| == |text|
    && forall p, e :: 0 <= p < |text| && e in DetectedBy(engine, text, policy) && masker.Maskable(text, e, p) ==>
         out[p] == RuleFor(e, policy.rules).mark
  }
}
