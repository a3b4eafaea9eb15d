/** What the spliced text looks like, told position by position. */
module MaskingLaws {
  import opened Engine
  import opened Restoration
  import opened Masking

  lemma StartsAfter(es: seq<Candidate>, text: string, k: nat, j: nat)
    requires AllFit(es, text) && k < j < |es|
    ensures es[k].End() <= es[j].Start()
  {
  }

  // ---- entities masked character by character ----

  /** The rules under which the mask hides single characters. */
  ghost predicate HidesCharacters(text: string, e: Candidate, rule: MaskRule)
    requires Fits(e, text)
  {
    match rule.strategy
    case Full => true
    case Partial => true
    case MaskedEmail => '@' !in SpanOf(text, e)
    case Initials => Words(SpanOf(text, e)) == []
    case _ => false
  }

  ghost predicate AllHideCharacters(es: seq<Candidate>, text: string, rules: Rules)
    requires AllFit(es, text)
  {
    forall e :: e in es ==> HidesCharacters(text, e, RuleFor(e, rules))
  }

  /** The character shown at position `i` by entity `k` and the later ones. */
  ghost function Shown(m: Masker, text: string, es: seq<Candidate>, rules: Rules, k: nat, i: nat): char
    requires k <= |es| && i < |text|
    decreases |es| - k
  {
    if k == |es| then text[i]
    else if m.Hidden(text, es[k], RuleFor(es[k], rules), i) then RuleFor(es[k], rules).mark
    else Shown(m, text, es, rules, k + 1, i)
  }

  /** `out`, laid over text[pos..], shows what entity `k` and the later ones show. */
  ghost predicate Pointwise(
    m: Masker, text: string, es: seq<Candidate>, rules: Rules, k: nat, pos: nat, out: string)
    requires k <= |es|
  {
    && |out| == |text| - pos
    && forall i: nat :: pos <= i < |text| ==> out[i - pos] == Shown(m, text, es, rules, k, i)
  }

  /** `veil`, laid over the entity, shows the mark over what the rule hides. */
  ghost predicate Veils(m: Masker, text: string, e: Candidate, rule: MaskRule, veil: string)
    requires Fits(e, text)
  {
    |veil| == e.Length()
    && forall i :: e.Start() <= i < e.End() ==>
         veil[i - e.Start()] == if m.Hidden(text, e, rule, i) then rule.mark else text[i]
  }

  lemma VeilVeils(m: Masker, text: string, e: Candidate, rule: MaskRule)
    requires Fits(e, text)
    ensures Veils(m, text, e, rule, m.Veil(text, e, rule))
  {
    var out := m.Veil(text, e, rule);
    forall i | e.Start() <= i < e.End()
      ensures out[i - e.Start()] == if m.Hidden(text, e, rule, i) then rule.mark else text[i]
    {
      var k := i - e.Start();
      assert out[k] == if m.Hidden(text, e, rule, e.Start() + k) then rule.mark else text[e.Start() + k];
    }
  }

  lemma ReplacementIsTheVeil(m: Masker, text: string, e: Candidate, rule: MaskRule)
    requires Fits(e, text) && HidesCharacters(text, e, rule)
    ensures m.Replacement(text, e, rule) == m.Veil(text, e, rule)
  {
  }

  lemma SplicedUnfolds(m: Masker, text: string, es: seq<Candidate>, rules: Rules, k: nat, pos: nat)
    requires StandsAt(text, es, k, pos) && k < |es|
    ensures Fits(es[k], text) && pos <= es[k].Start() < es[k].End() <= |text|
    ensures StandsAt(text, es, k + 1, es[k].End())
    ensures m.Spliced(text, es, rules, k, pos)
         == text[pos..es[k].Start()] + m.Replacement(text, es[k], RuleFor(es[k], rules))
            + m.Spliced(text, es, rules, k + 1, es[k].End())
  {
    FollowsOn(es, text, k, pos);
  }

  lemma UntouchedBefore(m: Masker, text: string, es: seq<Candidate>, rules: Rules, k: nat, i: nat)
    requires StandsAt(text, es, k, i) && i < |text| && (k < |es| ==> i < es[k].Start())
    ensures Shown(m, text, es, rules, k, i) == text[i]
    decreases |es| - k
  {
    if k < |es| {
      FollowsOn(es, text, k, i);
      UntouchedBefore(m, text, es, rules, k + 1, i);
    }
  }

  lemma {:induction false} SplicedPointwise(
    m: Masker, text: string, es: seq<Candidate>, rules: Rules, k: nat, pos: nat)
    requires StandsAt(text, es, k, pos) && AllHideCharacters(es, text, rules)
    ensures Pointwise(m, text, es, rules, k, pos, m.Spliced(text, es, rules, k, pos))
    decreases |es| - k
  {
    if k < |es| {
      SplicedUnfolds(m, text, es, rules, k, pos);
      SplicedPointwise(m, text, es, rules, k + 1, es[k].End());
      VeilStep(m, text, es, rules, k, pos, m.Spliced(text, es, rules, k + 1, es[k].End()));
    }
  }

  lemma VeilStep(m: Masker, text: string, es: seq<Candidate>, rules: Rules, k: nat, pos: nat, rest: string)
    requires StandsAt(text, es, k, pos) && AllHideCharacters(es, text, rules) && k < |es|
    requires Pointwise(m, text, es, rules, k + 1, es[k].End(), rest)
    ensures Fits(es[k], text) && pos <= es[k].Start() < es[k].End() <= |text|
    ensures Pointwise(m, text, es, rules, k, pos,
                      text[pos..es[k].Start()] + m.Replacement(text, es[k], RuleFor(es[k], rules)) + rest)
  {
    FollowsOn(es, text, k, pos);
    assert es[k] in es;
    ReplacementIsTheVeil(m, text, es[k], RuleFor(es[k], rules));
    VeilVeils(m, text, es[k], RuleFor(es[k], rules));
    GluePointwise(m, text, es, rules, k, pos, m.Veil(text, es[k], RuleFor(es[k], rules)), rest);
  }

  lemma GluePointwise(m: Masker, text: string, es: seq<Candidate>, rules: Rules, k: nat, pos: nat,
                      veil: string, rest: string)
    requires AllFit(es, text) && k < |es| && pos <= es[k].Start() < es[k].End() <= |text| && Fits(es[k], text)
    requires Veils(m, text, es[k], RuleFor(es[k], rules), veil)
    requires Pointwise(m, text, es, rules, k + 1, es[k].End(), rest)
    ensures Pointwise(m, text, es, rules, k, pos, text[pos..es[k].Start()] + veil + rest)
  {
    var e, out := es[k], text[pos..es[k].Start()] + veil + rest;
    forall i: nat | pos <= i < |text| ensures out[i - pos] == Shown(m, text, es, rules, k, i) {
      FollowsOn(es, text, k, pos);
      if i < e.Start() {
        UntouchedBefore(m, text, es, rules, k, i);
      } else if i < e.End() {
        assert out[i - pos] == veil[i - e.Start()];
        UntouchedBefore(m, text, es, rules, k + 1, i);
      } else {
        assert out[i - pos] == rest[i - e.End()];
      }
    }
  }

  lemma ShownMeans(m: Masker, text: string, es: seq<Candidate>, rules: Rules, k: nat, i: nat)
    requires AllFit(es, text) && k <= |es| && i < |text|
    ensures forall j :: k <= j < |es| && m.Hidden(text, es[j], RuleFor(es[j], rules), i) ==>
      Shown(m, text, es, rules, k, i) == RuleFor(es[j], rules).mark
    ensures (forall j :: k <= j < |es| ==> !m.Hidden(text, es[j], RuleFor(es[j], rules), i)) ==>
      Shown(m, text, es, rules, k, i) == text[i]
    decreases |es| - k
  {
    if k < |es| {
      ShownMeans(m, text, es, rules, k + 1, i);
      forall j | k < j < |es| && m.Hidden(text, es[j], RuleFor(es[j], rules), i)
        ensures !m.Hidden(text, es[k], RuleFor(es[k], rules), i)
      {
        StartsAfter(es, text, k, j);
      }
    }
  }

  /** Under rules that hide characters, in any mixture, the masked text has the length of the original, shows the
      entity's mark exactly over the characters its rule hides, and the original character everywhere else. */
  lemma CharacterMasksArePointwise(m: Masker, text: string, es: seq<Candidate>, rules: Rules)
    requires AllFit(es, text) && AllHideCharacters(es, text, rules)
    ensures var out := m.Masked(text, es, rules).text;
      && |out| == |text|
      && (forall i, e :: 0 <= i < |text| && e in es && m.Hidden(text, e, RuleFor(e, rules), i) ==>
            out[i] == RuleFor(e, rules).mark)
      && (forall i :: 0 <= i < |text| && (forall e :: e in es ==> !m.Hidden(text, e, RuleFor(e, rules), i)) ==>
            out[i] == text[i])
  {
    FirstFits(es, text);
    SplicedPointwise(m, text, es, rules, 0, 0);
    var out := m.Masked(text, es, rules).text;
    forall i: nat | i < |text| ensures out[i] == Shown(m, text, es, rules, 0, i) {
      assert out[i - 0] == Shown(m, text, es, rules, 0, i);
    }
    forall i, e | 0 <= i < |text| && e in es && m.Hidden(text, e, RuleFor(e, rules), i)
      ensures out[i] == RuleFor(e, rules).mark
    {
      var j :| 0 <= j < |es| && es[j] == e;
      ShownMeans(m, text, es, rules, 0, i);
    }
    forall i | 0 <= i < |text| && (forall e :: e in es ==> !m.Hidden(text, e, RuleFor(e, rules), i))
      ensures out[i] == text[i]
    {
      assert forall j :: 0 <= j < |es| ==> es[j] in es;
      ShownMeans(m, text, es, rules, 0, i);
    }
  }

  ghost predicate AllFull(es: seq<Candidate>, rules: Rules) {
    forall e :: e in es ==> RuleFor(e, rules).strategy == Full
  }

  lemma MaskableInside(m: Masker, text: string, e: Candidate, i: int)
    requires Fits(e, text) && m.Maskable(text, e, i)
    ensures e.Start() <= i < e.End()
  {
    var p :| p in e.parts && p.lo <= i < p.hi;
    var k :| 0 <= k < |e.parts| && e.parts[k] == p;
    PartsInside(e, k);
  }

  /** Under `full` rules these are the letters and digits inside the entities' parts. */
  lemma FullMaskIsPointwise(m: Masker, text: string, es: seq<Candidate>, rules: Rules)
    requires AllFit(es, text) && AllFull(es, rules)
    ensures var out := m.Masked(text, es, rules).text;
      && |out| == |text|
      && (forall i, e :: 0 <= i < |text| && e in es && m.Maskable(text, e, i) ==>
            out[i] == RuleFor(e, rules).mark)
      && (forall i :: 0 <= i < |text| && (forall e :: e in es ==> !m.Maskable(text, e, i)) ==>
            out[i] == text[i])
      && (forall i, e, p :: 0 <= i < |text| && m.isAlnum(text[i]) && e in es && p in e.parts && p.lo <= i < p.hi ==>
            out[i] == RuleFor(e, rules).mark)
      && (forall i :: 0 <= i < |text| && !m.isAlnum(text[i]) ==> out[i] == text[i])
  {
    CharacterMasksArePointwise(m, text, es, rules);
    forall i, e | 0 <= i < |text| && e in es && m.Maskable(text, e, i)
      ensures m.Hidden(text, e, RuleFor(e, rules), i)
    {
      MaskableInside(m, text, e, i);
    }
  }

  // ---- what the fragments keep ----

  /** The stretches of text between the entities, from `pos` on; the last one ends the text. */
  ghost function Gaps(text: string, es: seq<Candidate>, k: nat, pos: int): seq<string>
    requires StandsAt(text, es, k, pos)
    decreases |es| - k
  {
    if k == |es| then [text[pos..]]
    else
      FollowsOn(es, text, k, pos);
      [text[pos..es[k].Start()]] + Gaps(text, es, k + 1, es[k].End())
  }

  /** gap, value, gap, value, ..., gap */
  ghost function Weave(gaps: seq<string>, values: seq<string>): string
    requires |gaps| == |values| + 1
  {
    if values == [] then gaps[0] else gaps[0] + values[0] + Weave(gaps[1..], values[1..])
  }

  ghost function MasksOf(fs: seq<Fragment>): seq<string> {
    seq(|fs|, i requires 0 <= i < |fs| => fs[i].masked)
  }

  ghost function OriginalsOf(fs: seq<Fragment>): seq<string> {
    seq(|fs|, i requires 0 <= i < |fs| => fs[i].original)
  }

  lemma WeaveCons(gap: string, value: string, gaps: seq<string>, values: seq<string>)
    requires |gaps| == |values| + 1
    ensures Weave([gap] + gaps, [value] + values) == gap + value + Weave(gaps, values)
  {
    assert ([gap] + gaps)[1..] == gaps && ([value] + values)[1..] == values;
  }

  ghost function LaterMasks(m: Masker, text: string, es: seq<Candidate>, rules: Rules, k: nat): seq<string>
    requires AllFit(es, text) && k <= |es|
    decreases |es| - k
  {
    if k == |es| then []
    else
      FirstFits(es, text);
      [m.Replacement(text, es[k], RuleFor(es[k], rules))] + LaterMasks(m, text, es, rules, k + 1)
  }

  ghost function LaterSpans(text: string, es: seq<Candidate>, k: nat): seq<string>
    requires AllFit(es, text) && k <= |es|
    decreases |es| - k
  {
    if k == |es| then []
    else
      FirstFits(es, text);
      [SpanOf(text, es[k])] + LaterSpans(text, es, k + 1)
  }

  lemma {:induction false} WeaveFrom(m: Masker, text: string, es: seq<Candidate>, rules: Rules, k: nat, pos: int)
    requires StandsAt(text, es, k, pos)
    ensures |Gaps(text, es, k, pos)| == |LaterMasks(m, text, es, rules, k)| + 1 == |LaterSpans(text, es, k)| + 1
    ensures Weave(Gaps(text, es, k, pos), LaterMasks(m, text, es, rules, k)) == m.Spliced(text, es, rules, k, pos)
    ensures Weave(Gaps(text, es, k, pos), LaterSpans(text, es, k)) == text[pos..]
    decreases |es| - k
  {
    if k < |es| {
      FollowsOn(es, text, k, pos);
      var e := es[k];
      WeaveFrom(m, text, es, rules, k + 1, e.End());
      SplicedUnfolds(m, text, es, rules, k, pos);
      var gap, gaps := text[pos..e.Start()], Gaps(text, es, k + 1, e.End());
      WeaveCons(gap, m.Replacement(text, e, RuleFor(e, rules)), gaps, LaterMasks(m, text, es, rules, k + 1));
      WeaveCons(gap, SpanOf(text, e), gaps, LaterSpans(text, es, k + 1));
      assert text[pos..] == gap + SpanOf(text, e) + text[e.End()..];
    }
  }

  lemma {:induction false} FragmentsFrom(m: Masker, text: string, es: seq<Candidate>, rules: Rules, k: nat)
    requires AllFit(es, text) && k <= |es|
    ensures MasksOf(m.Fragments(text, es, rules, |es|)[k..]) == LaterMasks(m, text, es, rules, k)
    ensures OriginalsOf(m.Fragments(text, es, rules, |es|)[k..]) == LaterSpans(text, es, k)
    decreases |es| - k
  {
    var all := m.Fragments(text, es, rules, |es|);
    if k < |es| {
      FragmentsFrom(m, text, es, rules, k + 1);
      FragmentAt(m, text, es, rules, k);
      ColumnsUnfold(all, k);
    } else {
      assert all[k..] == [];
    }
  }

  lemma FragmentAt(m: Masker, text: string, es: seq<Candidate>, rules: Rules, k: nat)
    requires AllFit(es, text) && k < |es|
    ensures Fits(es[k], text)
    ensures m.Fragments(text, es, rules, |es|)[k] == m.FragmentOf(text, es[k], rules)
  {
    FirstFits(es, text);
  }

  lemma ColumnsUnfold(all: seq<Fragment>, k: nat)
    requires k < |all|
    ensures MasksOf(all[k..]) == [all[k].masked] + MasksOf(all[k + 1..])
    ensures OriginalsOf(all[k..]) == [all[k].original] + OriginalsOf(all[k + 1..])
  {
  }

  /** Masking loses nothing that the fragments do not keep: one and the same list of gaps, woven with the
      masks, is the masked text and, woven with the originals, is the text. Whatever the rules are. */
  lemma FragmentsRebuildTheText(m: Masker, text: string, es: seq<Candidate>, rules: Rules)
    requires AllFit(es, text)
    ensures es != [] ==> 0 <= es[0].Start()
    ensures var gaps, result := Gaps(text, es, 0, 0), m.Masked(text, es, rules);
      && |gaps| == |result.fragments| + 1
      && Weave(gaps, MasksOf(result.fragments)) == result.text
      && Weave(gaps, OriginalsOf(result.fragments)) == text
  {
    FirstFits(es, text);
    WeaveFrom(m, text, es, rules, 0, 0);
    FragmentsFrom(m, text, es, rules, 0);
    assert m.Fragments(text, es, rules, |es|)[0..] == m.Fragments(text, es, rules, |es|);
    assert text[0..] == text;
  }

  // ---- `partial` rules ----

  /** The hidden positions of an entity in [Start(), hi), ascending. */
  ghost function Hiddens(m: Masker, text: string, e: Candidate, rule: MaskRule, hi: int): seq<int>
    decreases hi - e.Start()
  {
    if hi <= e.Start() then []
    else Hiddens(m, text, e, rule, hi - 1) + (if m.Hidden(text, e, rule, hi - 1) then [hi - 1] else [])
  }

  ghost function Clamp(x: int, n: nat): nat {
    if x < 0 then 0 else if x > n then n else x
  }

  lemma {:induction false} HiddensAreAStretch(
    m: Masker, text: string, e: Candidate, rule: MaskRule, hi: int, from: int, to: int)
    requires e.Start() <= hi <= e.End() && from <= to
    requires forall i :: e.Start() <= i < e.End() ==>
      (m.Hidden(text, e, rule, i) <==> m.Maskable(text, e, i) && from <= m.Rank(text, e, i) < to)
    ensures var seen := m.Maskables(text, e, e.Start(), hi);
      Hiddens(m, text, e, rule, hi) == seen[Clamp(from, |seen|)..Clamp(to, |seen|)]
    decreases hi - e.Start()
  {
    if e.Start() < hi {
      HiddensAreAStretch(m, text, e, rule, hi - 1, from, to);
      StretchGrows(m.Maskables(text, e, e.Start(), hi - 1), hi - 1, from, to);
      assert m.Rank(text, e, hi - 1) == |m.Maskables(text, e, e.Start(), hi - 1)|;
    }
  }

  lemma StretchGrows(xs: seq<int>, x: int, from: int, to: int)
    requires from <= to
    ensures (xs + [x])[Clamp(from, |xs| + 1)..Clamp(to, |xs| + 1)]
         == xs[Clamp(from, |xs|)..Clamp(to, |xs|)] + (if from <= |xs| < to then [x] else [])
  {
    var lo, hi := Clamp(from, |xs| + 1), Clamp(to, |xs| + 1);
    if hi == |xs| + 1 && lo <= |xs| {
      assert (xs + [x])[lo..hi] == xs[lo..] + [x] && xs[lo..] == xs[lo..|xs|];
    } else if hi <= |xs| {
      assert (xs + [x])[lo..hi] == xs[lo..hi] + [];
    } else {
      assert (xs + [x])[lo..hi] == [] && xs[Clamp(from, |xs|)..Clamp(to, |xs|)] == [];
    }
  }

  /** Of the n letters and digits inside the parts, a `partial` rule hides all when it would keep all of
      them, and otherwise exactly the ones between the first keepStart and the last keepEnd. */
  lemma PartialHidesTheMiddle(m: Masker, text: string, e: Candidate, rule: MaskRule)
    requires Fits(e, text) && rule.strategy == Partial
    ensures var all := m.Maskables(text, e, e.Start(), e.End());
      var n := |all|;
      Hiddens(m, text, e, rule, e.End())
        == if n <= rule.keepStart + rule.keepEnd then all else all[rule.keepStart..n - rule.keepEnd]
  {
    var n := m.MaskableCount(text, e);
    forall i | e.Start() <= i < e.End() && m.Maskable(text, e, i) ensures m.Rank(text, e, i) < n {
      m.RankLocates(text, e, e.End(), i);
    }
    var all := m.Maskables(text, e, e.Start(), e.End());
    if n <= rule.keepStart + rule.keepEnd {
      HiddensAreAStretch(m, text, e, rule, e.End(), 0, n);
      assert all[Clamp(0, n)..Clamp(n, n)] == all;
    } else {
      assert forall i :: e.Start() <= i < e.End() ==>
        (m.Hidden(text, e, rule, i) <==>
           m.Maskable(text, e, i) && rule.keepStart <= m.Rank(text, e, i) < n - rule.keepEnd);
      HiddensAreAStretch(m, text, e, rule, e.End(), rule.keepStart, n - rule.keepEnd);
    }
  }

  /** Hence how many characters an entity loses. */
  lemma PartialHiddenCount(m: Masker, text: string, e: Candidate, rule: MaskRule)
    requires Fits(e, text) && rule.strategy == Partial
    ensures var n, kept := m.MaskableCount(text, e), rule.keepStart + rule.keepEnd;
      |Hiddens(m, text, e, rule, e.End())| == if n <= kept then n else n - kept
  {
    PartialHidesTheMiddle(m, text, e, rule);
  }
}
