/** app/core/chat_proxy.py: mask a message, guard it, ask the model, restore its answer. */
module ChatProxy {
  import opened Texts
  import opened Entities
  import opened Engine
  import opened Restoration
  import opened Masking
  import opened Synthetics
  import opened MaskingLaws
  import opened Policy
  import opened Wrappers

  /** Everything the applicable detectors report of the policy's types is something the masker can work on. */
  ghost predicate ReportsFit(engine: DetectionEngine, text: string, policy: SystemPolicy) {
    forall e :: e in engine.CandidatesFrom(0, text, policy.pdTypes) ==> Fits(e, text)
  }

  ghost function DetectedBy(engine: DetectionEngine, text: string, policy: SystemPolicy): seq<Candidate> {
    engine.Detected(text, policy.pdTypes, policy.combinations)
  }

  lemma DetectedFits(engine: DetectionEngine, text: string, policy: SystemPolicy)
    requires ReportsFit(engine, text, policy)
    ensures AllFit(DetectedBy(engine, text, policy), text)
  {
    engine.DetectedIsInLine(text, policy.pdTypes, policy.combinations);
  }

  ghost function MaskedBy(engine: DetectionEngine, masker: Masker, text: string, policy: SystemPolicy): MaskResult
    requires ReportsFit(engine, text, policy)
  {
    DetectedFits(engine, text, policy);
    masker.Masked(text, DetectedBy(engine, text, policy), policy.rules)
  }

  /** The language model: it remembers what it was sent and answers somehow. */
  class LanguageModel {
    var sent: seq<string>
    const reply: string -> string

    constructor (reply: string -> string)
      ensures sent == [] && this.reply == reply
    {
      sent := [];
      this.reply := reply;
    }

    method Complete(message: string) returns (answer: string)
      modifies this
      ensures sent == old(sent) + [message] && answer == reply(message)
    {
      sent := sent + [message];
      answer := reply(message);
    }
  }

  datatype ChatResult = LeakBlocked | ChatResult(sentToLlm: string, llmAnswer: string, answer: string)

  method Handle(engine: DetectionEngine, masker: Masker, llm: LanguageModel, message: string, policy: SystemPolicy,
                hashOrder: seq<Fragment>)
    returns (result: ChatResult)
    requires ReportsFit(engine, message, policy)
    requires Enumerates(hashOrder, MaskedBy(engine, masker, message, policy).fragments)
    modifies llm
    ensures AllFit(engine.Detected(message, policy.pdTypes, policy.combinations), message)
    ensures var found := engine.Detected(message, policy.pdTypes, policy.combinations);
      var masked := masker.Masked(message, found, policy.rules);
      if engine.Detected(masked.text, policy.pdTypes, policy.combinations) != [] then
        result == LeakBlocked && llm.sent == old(llm.sent)
      else
        && llm.sent == old(llm.sent) + [masked.text]
        && result == ChatResult(masked.text, llm.reply(masked.text),
                                UnmaskFragments(llm.reply(masked.text), hashOrder).0)
  {
    var entities := engine.Detect(message, policy.pdTypes, policy.combinations);
    DetectedFits(engine, message, policy);
    var masked := masker.Mask(message, entities, policy.rules);
    var leaked := engine.Detect(masked.text, policy.pdTypes, policy.combinations);
    if leaked != [] {
      return LeakBlocked;
    }
    var llmAnswer := llm.Complete(masked.text);
    var answer, _ := RestoreFragments(llmAnswer, masked.fragments, hashOrder);
    result := ChatResult(masked.text, llmAnswer, answer);
  }

  // ---- the round trip through token masks ----

  ghost predicate AllTokens(es: seq<Candidate>, rules: Rules) {
    forall e :: e in es ==> RuleFor(e, rules).strategy == Strategy.Token
  }

  lemma TokenBodyIsClean(m: Masker, t: PDType, span: string)
    ensures TokenBody(m.TokenBodyOf(t, span))
  {
    UpperNameIsTokenBody(t);
    var hex := m.digest(t, span);
    forall c | c in hex[..6] ensures c != '[' && c != ']' {
      assert c in hex && IsHexDigit(c);
    }
  }

  lemma TokenReplacement(m: Masker, text: string, es: seq<Candidate>, rules: Rules, k: nat)
    requires AllFit(es, text) && AllTokens(es, rules) && k < |es| && BracketFree(text)
    ensures Fits(es[k], text)
    ensures var body := m.TokenBodyOf(es[k].pdType, SpanOf(text, es[k]));
      && m.FragmentOf(text, es[k], rules) == Fragment(Bracketed(body), SpanOf(text, es[k]))
      && TokenBody(body)
      && TokenFragment(m.FragmentOf(text, es[k], rules))
  {
    assert es[k] in es;
    var body := m.TokenBodyOf(es[k].pdType, SpanOf(text, es[k]));
    TokenBodyIsClean(m, es[k].pdType, SpanOf(text, es[k]));
    assert Bracketed(body)[1..|Bracketed(body)| - 1] == body;
  }

  lemma FragmentsAreTokens(m: Masker, text: string, es: seq<Candidate>, rules: Rules)
    requires AllFit(es, text) && AllTokens(es, rules) && BracketFree(text)
    ensures AllTokenFragments(m.Masked(text, es, rules).fragments)
    ensures |m.Masked(text, es, rules).fragments| == |es|
  {
    var fs := m.Masked(text, es, rules).fragments;
    forall f | f in fs ensures TokenFragment(f) {
      var k :| 0 <= k < |fs| && fs[k] == f;
      FragmentAt(m, text, es, rules, k);
      TokenReplacement(m, text, es, rules, k);
    }
  }

  ghost predicate AllTokenFragments(fs: seq<Fragment>) {
    forall f :: f in fs ==> TokenFragment(f)
  }

  ghost function BodyOf(f: Fragment): string {
    if |f.masked| >= 2 then f.masked[1..|f.masked| - 1] else ""
  }

  /** gap, token, gap, token, ..., gap */
  ghost function Woven(gaps: seq<string>, fs: seq<Fragment>): seq<Piece>
    requires |gaps| == |fs| + 1
  {
    if fs == [] then [Plain(gaps[0])]
    else [Plain(gaps[0])] + ([Piece.Token(BodyOf(fs[0]))] + Woven(gaps[1..], fs[1..]))
  }

  lemma ColumnsTail(fs: seq<Fragment>)
    requires fs != []
    ensures MasksOf(fs) != [] && MasksOf(fs)[0] == fs[0].masked && MasksOf(fs)[1..] == MasksOf(fs[1..])
    ensures OriginalsOf(fs) != [] && OriginalsOf(fs)[0] == fs[0].original
    ensures OriginalsOf(fs)[1..] == OriginalsOf(fs[1..])
    ensures AllTokenFragments(fs) ==> TokenFragment(fs[0]) && AllTokenFragments(fs[1..])
  {
  }

  lemma WeaveUnfolds(gaps: seq<string>, fs: seq<Fragment>)
    requires fs != [] && |gaps| == |fs| + 1
    ensures Weave(gaps, MasksOf(fs)) == gaps[0] + fs[0].masked + Weave(gaps[1..], MasksOf(fs[1..]))
    ensures Weave(gaps, OriginalsOf(fs)) == gaps[0] + fs[0].original + Weave(gaps[1..], OriginalsOf(fs[1..]))
  {
    ColumnsTail(fs);
  }

  lemma {:induction false} GapsAreBracketFree(gaps: seq<string>, fs: seq<Fragment>)
    requires |gaps| == |fs| + 1 && BracketFree(Weave(gaps, OriginalsOf(fs)))
    ensures forall g :: g in gaps ==> BracketFree(g)
  {
    if fs == [] {
    } else {
      WeaveUnfolds(gaps, fs);
      PartsBracketFree(gaps[0], fs[0].original, Weave(gaps[1..], OriginalsOf(fs[1..])));
      GapsAreBracketFree(gaps[1..], fs[1..]);
      assert gaps == [gaps[0]] + gaps[1..];
    }
  }

  lemma PartsBracketFree(a: string, b: string, c: string)
    requires BracketFree(a + b + c)
    ensures BracketFree(a) && BracketFree(c)
  {
    forall x | x in a || x in c ensures x in a + b + c {
    }
  }

  lemma {:induction false} WovenShows(gaps: seq<string>, fs: seq<Fragment>)
    requires |gaps| == |fs| + 1 && AllTokenFragments(fs)
    ensures ShowAll(Woven(gaps, fs)) == Weave(gaps, MasksOf(fs))
  {
    if fs == [] {
      ShowCons(Plain(gaps[0]), []);
    } else {
      ColumnsTail(fs);
      WovenShows(gaps[1..], fs[1..]);
      ShowTwo(gaps[0], Piece.Token(BodyOf(fs[0])), Woven(gaps[1..], fs[1..]));
      WeaveUnfolds(gaps, fs);
    }
  }

  lemma {:induction false} WovenIsOk(gaps: seq<string>, fs: seq<Fragment>)
    requires |gaps| == |fs| + 1 && AllTokenFragments(fs) && forall g :: g in gaps ==> BracketFree(g)
    ensures PiecesOk(Woven(gaps, fs))
  {
    assert gaps[0] in gaps;
    if fs == [] {
    } else {
      ColumnsTail(fs);
      WovenIsOk(gaps[1..], fs[1..]);
      TwoOk(gaps[0], Piece.Token(BodyOf(fs[0])), Woven(gaps[1..], fs[1..]));
    }
  }

  lemma ShowTwo(gap: string, token: Piece, rest: seq<Piece>)
    ensures ShowAll([Plain(gap)] + ([token] + rest)) == gap + Show(token) + ShowAll(rest)
  {
    ShowCons(token, rest);
    ShowCons(Plain(gap), [token] + rest);
    Associate(gap, Show(token), ShowAll(rest));
  }

  lemma TwoOk(gap: string, token: Piece, rest: seq<Piece>)
    requires PiecesOk(rest) && BracketFree(gap) && token.Token? && TokenBody(token.body)
    ensures PiecesOk([Plain(gap)] + ([token] + rest))
  {
  }

  lemma RestoreTwo(gap: string, token: Piece, rest: seq<Piece>, fs: seq<Fragment>, span: string)
    requires token.Token? && Lookup(fs, Show(token)) == Some(span)
    ensures var ps := [Plain(gap)] + ([token] + rest);
      && ShowAll(RestoreAll(ps, fs)) == gap + span + ShowAll(RestoreAll(rest, fs))
      && Known(ps, fs) == 1 + Known(rest, fs)
  {
    KnownCons(token, rest, fs);
    KnownCons(Plain(gap), [token] + rest, fs);
    ShowTwo(gap, Plain(span), RestoreAll(rest, fs));
  }

  lemma KnownToken(f: Fragment, all: seq<Fragment>)
    requires TokenFragment(f) && f in all && CollisionFree(all)
    ensures Lookup(all, Show(Piece.Token(BodyOf(f)))) == Some(f.original)
  {
    LookupFinds(all, f.masked);
  }

  lemma {:induction false} WovenRestores(gaps: seq<string>, fs: seq<Fragment>, all: seq<Fragment>)
    requires |gaps| == |fs| + 1 && AllTokenFragments(fs) && CollisionFree(all) && forall f :: f in fs ==> f in all
    ensures ShowAll(RestoreAll(Woven(gaps, fs), all)) == Weave(gaps, OriginalsOf(fs))
    ensures Known(Woven(gaps, fs), all) == |fs|
  {
    if fs == [] {
      RestoreLast(gaps[0], all);
    } else {
      ColumnsTail(fs);
      WovenRestores(gaps[1..], fs[1..], all);
      KnownToken(fs[0], all);
      RestoreTwo(gaps[0], Piece.Token(BodyOf(fs[0])), Woven(gaps[1..], fs[1..]), all, fs[0].original);
      WeaveUnfolds(gaps, fs);
    }
  }

  lemma RestoreLast(s: string, fs: seq<Fragment>)
    ensures ShowAll(RestoreAll([Plain(s)], fs)) == s && Known([Plain(s)], fs) == 0
    ensures RestoreAll([Plain(s)], fs) == [Plain(s)]
  {
    KnownCons(Plain(s), [], fs);
    ShowCons(Plain(s), []);
  }

  /** Masked with tokens only, a message without '[' survives the model: an answer that repeats the masked
      text inside anything without '[' is restored to the message inside that same thing, each entity being
      one replacement, in whatever order the fragments are tried, provided no two spans share a token. */
  lemma TokenEchoRestoresTheMessage(
    m: Masker, message: string, es: seq<Candidate>, rules: Rules, before: string, after: string,
    hashOrder: seq<Fragment>)
    requires AllFit(es, message) && AllTokens(es, rules)
    requires BracketFree(message) && BracketFree(before) && BracketFree(after)
    requires CollisionFree(m.Masked(message, es, rules).fragments)
    requires Enumerates(hashOrder, m.Masked(message, es, rules).fragments)
    ensures UnmaskFragments(before + m.Masked(message, es, rules).text + after, hashOrder)
         == (before + message + after, |es|)
  {
    var masked := m.Masked(message, es, rules);
    FragmentsAreTokens(m, message, es, rules);
    FragmentsRebuildTheText(m, message, es, rules);
    FirstFits(es, message);
    WovenEchoIsRestored(Gaps(message, es, 0, 0), masked.fragments, before, after, hashOrder);
  }

  lemma WovenEchoIsRestored(
    gaps: seq<string>, fs: seq<Fragment>, before: string, after: string, hashOrder: seq<Fragment>)
    requires |gaps| == |fs| + 1 && AllTokenFragments(fs) && CollisionFree(fs) && Enumerates(hashOrder, fs)
    requires BracketFree(Weave(gaps, OriginalsOf(fs))) && BracketFree(before) && BracketFree(after)
    ensures UnmaskFragments(before + Weave(gaps, MasksOf(fs)) + after, hashOrder)
         == (before + Weave(gaps, OriginalsOf(fs)) + after, |fs|)
  {
    var inner := Woven(gaps, fs);
    GapsAreBracketFree(gaps, fs);
    WovenShows(gaps, fs);
    WovenIsOk(gaps, fs);
    WovenRestores(gaps, fs, fs);
    WrappedOk(inner, before, after);
    WrappedRestores(inner, before, after, fs, Weave(gaps, MasksOf(fs)), Weave(gaps, OriginalsOf(fs)));
    TokenRestorationIsSubstitution([Plain(before)] + (inner + [Plain(after)]), fs, hashOrder);
  }

  lemma WrappedOk(ps: seq<Piece>, before: string, after: string)
    requires PiecesOk(ps) && BracketFree(before) && BracketFree(after)
    ensures PiecesOk([Plain(before)] + (ps + [Plain(after)]))
  {
  }

  lemma WrappedShows(ps: seq<Piece>, before: string, after: string)
    ensures ShowAll([Plain(before)] + (ps + [Plain(after)])) == before + ShowAll(ps) + after
  {
    ShowCons(Plain(before), ps + [Plain(after)]);
    ShowAppend(ps, [Plain(after)]);
    ShowCons(Plain(after), []);
    Associate(before, ShowAll(ps), after);
  }

  lemma WrappedRestores(
    ps: seq<Piece>, before: string, after: string, fs: seq<Fragment>, shown: string, restored: string)
    requires ShowAll(ps) == shown && ShowAll(RestoreAll(ps, fs)) == restored
    ensures var wrapped := [Plain(before)] + (ps + [Plain(after)]);
      && ShowAll(wrapped) == before + shown + after
      && ShowAll(RestoreAll(wrapped, fs)) == before + restored + after
      && Known(wrapped, fs) == Known(ps, fs)
  {
    WrappedShows(ps, before, after);
    KnownCons(Plain(before), ps + [Plain(after)], fs);
    KnownAppend(ps, [Plain(after)], fs);
    RestoreAppend(ps, [Plain(after)], fs);
    RestoreLast(after, fs);
    WrappedShows(RestoreAll(ps, fs), before, after);
  }
}
