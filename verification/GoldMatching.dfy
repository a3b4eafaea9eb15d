/** scripts/eval_gold.py: where a labelled value occurs and how well the findings cover it. */
module GoldMatching {
  import opened Texts
  import opened Entities
  import opened Wrappers

  datatype Finding = Finding(pdType: string, spans: seq<Interval>)

  datatype Class = TP | WRONG_TYPE | PARTIAL | FN | NOT_IN_TEXT

  // ---- occurrences ----

  /** str.find */
  function Find(text: string, value: string, from: nat): (at: int)
    ensures at == -1 || (from <= at && OccursAt(text, value, at))
    decreases |text| - from
  {
    if from > |text| - |value| then -1
    else if OccursAt(text, value, from) then from
    else Find(text, value, from + 1)
  }

  lemma {:induction false} FindIsFirst(text: string, value: string, from: nat, i: nat)
    requires from <= i && OccursAt(text, value, i)
    ensures Find(text, value, from) != -1 && Find(text, value, from) <= i
    decreases |text| - from
  {
    if !OccursAt(text, value, from) {
      FindIsFirst(text, value, from + 1, i);
    }
  }

  /** The occurrence at `start`, when that is one, and the later ones. */
  function OccurrencesFrom(text: string, value: string, start: int): seq<Interval>
    requires value != "" && (start == -1 || (0 <= start && OccursAt(text, value, start)))
    decreases if start == -1 then 0 else |text| - start + 1
  {
    if start == -1 then []
    else [Interval(start, start + |value|)] + OccurrencesFrom(text, value, Find(text, value, start + 1))
  }

  function Occurrences(text: string, value: string): seq<Interval> {
    if value == "" then [] else OccurrencesFrom(text, value, Find(text, value, 0))
  }

  method FindOccurrences(text: string, value: string) returns (found: seq<Interval>)
    ensures found == Occurrences(text, value)
    ensures value != "" ==> ListsAll(found, text, value, 0)
  {
    found := [];
    if value == "" {
      return;
    }
    var start := Find(text, value, 0);
    while start != -1
      invariant start == -1 || (0 <= start && OccursAt(text, value, start))
      invariant Occurrences(text, value) == found + OccurrencesFrom(text, value, start)
      decreases if start == -1 then 0 else |text| - start + 1
    {
      OneMore(found, Interval(start, start + |value|), OccurrencesFrom(text, value, Find(text, value, start + 1)));
      found := found + [Interval(start, start + |value|)];
      start := Find(text, value, start + 1);
    }
    OccurrencesListAll(text, value, 0);
  }

  lemma OneMore(found: seq<Interval>, x: Interval, rest: seq<Interval>)
    ensures found + ([x] + rest) == found + [x] + rest
  {
  }

  ghost predicate OccurrenceFrom(text: string, value: string, from: nat, x: Interval) {
    x.lo >= from && OccursAt(text, value, x.lo) && x.hi == x.lo + |value|
  }

  ghost predicate ListsOnly(found: seq<Interval>, text: string, value: string, from: nat) {
    forall k :: 0 <= k < |found| ==> OccurrenceFrom(text, value, from, found[k])
  }

  ghost predicate ListsPosition(found: seq<Interval>, at: int) {
    exists k :: 0 <= k < |found| && found[k].lo == at
  }

  ghost predicate ListsEvery(found: seq<Interval>, text: string, value: string, from: nat) {
    forall at :: at >= from && OccursAt(text, value, at) ==> ListsPosition(found, at)
  }

  ghost predicate StrictlyAscending(found: seq<Interval>) {
    forall i, j :: 0 <= i < j < |found| ==> found[i].lo < found[j].lo
  }

  /** Exactly the positions of the value from `from` on, overlapping ones included, each once, ascending. */
  ghost predicate ListsAll(found: seq<Interval>, text: string, value: string, from: nat) {
    ListsOnly(found, text, value, from) && ListsEvery(found, text, value, from) && StrictlyAscending(found)
  }

  /** The first occurrence, and the later ones. */
  lemma OccurrencesUnfold(text: string, value: string, start: int)
    requires value != "" && 0 <= start && OccursAt(text, value, start)
    ensures OccurrencesFrom(text, value, start)
         == [Interval(start, start + |value|)] + OccurrencesFrom(text, value, Find(text, value, start + 1))
  {
  }

  lemma {:induction false} OccurrencesOnly(text: string, value: string, start: int, k: nat)
    requires value != "" && 0 <= start && OccursAt(text, value, start) && k < |OccurrencesFrom(text, value, start)|
    ensures OccurrenceFrom(text, value, start, OccurrencesFrom(text, value, start)[k])
    decreases k
  {
    OccurrencesUnfold(text, value, start);
    if k > 0 {
      OccurrencesOnly(text, value, Find(text, value, start + 1), k - 1);
    }
  }

  lemma {:induction false} OccurrencesEvery(text: string, value: string, start: int, i: int) returns (k: nat)
    requires value != "" && 0 <= start <= i && OccursAt(text, value, start) && OccursAt(text, value, i)
    ensures k < |OccurrencesFrom(text, value, start)| && OccurrencesFrom(text, value, start)[k].lo == i
    decreases i - start
  {
    k := 0;
    if start < i {
      FindIsFirst(text, value, start + 1, i);
      var later := OccurrencesEvery(text, value, Find(text, value, start + 1), i);
      k := later + 1;
    }
    OccurrencesUnfold(text, value, start);
  }

  ghost predicate AllAfter(at: int, rest: seq<Interval>) {
    forall k :: 0 <= k < |rest| ==> at < rest[k].lo
  }

  lemma LaterOnesAreLater(text: string, value: string, at: nat)
    requires value != ""
    ensures AllAfter(at, OccurrencesFrom(text, value, Find(text, value, at + 1)))
  {
    var rest := OccurrencesFrom(text, value, Find(text, value, at + 1));
    forall k | 0 <= k < |rest| ensures at < rest[k].lo {
      OccurrencesOnly(text, value, Find(text, value, at + 1), k);
    }
  }

  lemma PrependAscends(x: Interval, rest: seq<Interval>)
    requires StrictlyAscending(rest) && AllAfter(x.lo, rest)
    ensures StrictlyAscending([x] + rest)
  {
  }

  lemma {:induction false} OccurrencesAscend(text: string, value: string, start: int)
    requires value != "" && (start == -1 || (0 <= start && OccursAt(text, value, start)))
    ensures StrictlyAscending(OccurrencesFrom(text, value, start))
    decreases if start == -1 then 0 else |text| - start + 1
  {
    if start != -1 {
      var x, rest := Interval(start, start + |value|), OccurrencesFrom(text, value, Find(text, value, start + 1));
      OccurrencesAscend(text, value, Find(text, value, start + 1));
      LaterOnesAreLater(text, value, start);
      PrependAscends(x, rest);
    }
  }

  lemma OccurrencesListAll(text: string, value: string, from: nat)
    requires value != ""
    ensures ListsAll(OccurrencesFrom(text, value, Find(text, value, from)), text, value, from)
  {
    var found := OccurrencesFrom(text, value, Find(text, value, from));
    OccurrencesAscend(text, value, Find(text, value, from));
    forall k | 0 <= k < |found| ensures OccurrenceFrom(text, value, from, found[k]) {
      OccurrencesOnly(text, value, Find(text, value, from), k);
    }
    forall at | at >= from && OccursAt(text, value, at) ensures ListsPosition(found, at) {
      FindIsFirst(text, value, from, at);
      var k := OccurrencesEvery(text, value, Find(text, value, from), at);
    }
  }

  // ---- coverage ----

  function TypeAt(pos: int, findings: seq<Finding>): Option<string> {
    if findings == [] then None
    else if exists s | s in findings[0].spans :: s.lo <= pos < s.hi then Some(findings[0].pdType)
    else TypeAt(pos, findings[1..])
  }

  predicate CoveredBy(pos: int, finding: Finding) {
    exists s | s in finding.spans :: s.lo <= pos < s.hi
  }

  /** The type at a position is that of the first finding that covers it. */
  lemma {:induction false} TypeAtIsTheFirst(pos: int, findings: seq<Finding>)
    ensures TypeAt(pos, findings) == None <==> forall k :: 0 <= k < |findings| ==> !CoveredBy(pos, findings[k])
    ensures TypeAt(pos, findings).Some? ==>
      exists k :: 0 <= k < |findings| && CoveredBy(pos, findings[k])
                  && findings[k].pdType == TypeAt(pos, findings).value
                  && forall j :: 0 <= j < k ==> !CoveredBy(pos, findings[j])
  {
    if findings == [] {
    } else if CoveredBy(pos, findings[0]) {
      assert findings[0].pdType == TypeAt(pos, findings).value;
    } else {
      var later := findings[1..];
      TypeAtIsTheFirst(pos, later);
      assert forall k :: 0 <= k < |later| ==> later[k] == findings[k + 1];
      if TypeAt(pos, findings).Some? {
        var k :| 0 <= k < |later| && CoveredBy(pos, later[k]) && later[k].pdType == TypeAt(pos, findings).value
                 && forall j :: 0 <= j < k ==> !CoveredBy(pos, later[j]);
        assert findings[k + 1] == later[k];
        forall j | 0 <= j < k + 1 ensures !CoveredBy(pos, findings[j]) {
          assert j > 0 ==> findings[j] == later[j - 1];
        }
      } else {
        forall k | 0 <= k < |findings| ensures !CoveredBy(pos, findings[k]) {
          assert k > 0 ==> findings[k] == later[k - 1];
        }
      }
    }
  }

  datatype Coverage = Coverage(share: real, types: set<string>)

  /** Better coverage first by the share, then by the type being right. */
  datatype Match = Match(share: real, typeOk: bool) {
    predicate BetterThan(other: Match) {
      share > other.share || (share == other.share && typeOk && !other.typeOk)
    }
  }

  datatype Evaluator = Evaluator(isSpace: char -> bool) {

    function Positions(text: string, lo: int, hi: int): (ps: seq<int>)
      requires 0 <= lo && hi <= |text|
      ensures forall i :: i in ps <==> lo <= i < hi && !isSpace(text[i])
      decreases hi - lo
    {
      if hi <= lo then [] else Positions(text, lo, hi - 1) + (if isSpace(text[hi - 1]) then [] else [hi - 1])
    }

    function CoveredTypes(ps: seq<int>, findings: seq<Finding>): seq<string> {
      if ps == [] then []
      else
        (if TypeAt(ps[0], findings).Some? then [TypeAt(ps[0], findings).value] else [])
        + CoveredTypes(ps[1..], findings)
    }

    function CoverageOf(text: string, span: Interval, findings: seq<Finding>): Coverage
      requires 0 <= span.lo && span.hi <= |text|
    {
      var positions := Positions(text, span.lo, span.hi);
      var covered := CoveredTypes(positions, findings);
      Coverage(if positions == [] then 0.0 else (|covered| as real) / (|positions| as real),
               set t | t in covered)
    }

    function MatchOf(text: string, span: Interval, expectedType: string, findings: seq<Finding>): Match
      requires 0 <= span.lo && span.hi <= |text|
    {
      var c := CoverageOf(text, span, findings);
      Match(c.share, c.share == 1.0 && c.types == {expectedType})
    }

    ghost predicate InText(text: string, spans: seq<Interval>) {
      forall i :: 0 <= i < |spans| ==> 0 <= spans[i].lo && spans[i].hi <= |text|
    }

    function Best(text: string, spans: seq<Interval>, expectedType: string, findings: seq<Finding>): Match
      requires InText(text, spans)
    {
      if spans == [] then Match(0.0, false)
      else
        var best := Best(text, spans[..|spans| - 1], expectedType, findings);
        var next := MatchOf(text, spans[|spans| - 1], expectedType, findings);
        if next.BetterThan(best) then next else best
    }

    lemma OccurrencesInText(text: string, value: string)
      ensures InText(text, Occurrences(text, value))
    {
      if value != "" {
        OccurrencesListAll(text, value, 0);
      }
    }

    lemma BestUnfolds(text: string, spans: seq<Interval>, k: nat, expectedType: string, findings: seq<Finding>)
      requires InText(text, spans) && k < |spans|
      ensures InText(text, spans[..k]) && InText(text, spans[..k + 1]) && InText(text, [spans[k]])
      ensures var best := Best(text, spans[..k], expectedType, findings);
        var next := MatchOf(text, spans[k], expectedType, findings);
        Best(text, spans[..k + 1], expectedType, findings) == if next.BetterThan(best) then next else best
    {
      assert spans[k] in spans;
      assert spans[..k + 1][..k] == spans[..k];
    }

    method MatchValue(text: string, value: string, expectedType: string, findings: seq<Finding>)
      returns (best: Match)
      ensures InText(text, Occurrences(text, value))
      ensures best == Best(text, Occurrences(text, value), expectedType, findings)
    {
      OccurrencesInText(text, value);
      best := Match(0.0, false);
      var spans := FindOccurrences(text, value);
      for k := 0 to |spans|
        invariant best == Best(text, spans[..k], expectedType, findings)
      {
        BestUnfolds(text, spans, k, expectedType, findings);
        var next := MatchOf(text, spans[k], expectedType, findings);
        if next.BetterThan(best) {
          best := next;
        }
      }
      assert spans[..|spans|] == spans;
    }

    function Classify(text: string, value: string, expectedType: string, findings: seq<Finding>): Class {
      if Occurrences(text, value) == [] then NOT_IN_TEXT
      else
        OccurrencesInText(text, value);
        var best := Best(text, Occurrences(text, value), expectedType, findings);
        if best.share == 0.0 then FN
        else if best.share < 1.0 then PARTIAL
        else if best.typeOk then TP
        else WRONG_TYPE
    }

    // ---- what the class means ----

    /** Some character of the span is covered. */
    ghost predicate Touched(text: string, span: Interval, findings: seq<Finding>)
      requires 0 <= span.lo && span.hi <= |text|
    {
      exists i :: span.lo <= i < span.hi && !isSpace(text[i]) && TypeAt(i, findings).Some?
    }

    /** Every character of the span but the spaces is covered, and there is one. */
    ghost predicate Covered(text: string, span: Interval, findings: seq<Finding>)
      requires 0 <= span.lo && span.hi <= |text|
    {
      Touched(text, span, findings)
      && forall i :: span.lo <= i < span.hi && !isSpace(text[i]) ==> TypeAt(i, findings).Some?
    }

    /** Covered by nothing but the expected type. */
    ghost predicate CoveredAs(text: string, span: Interval, expectedType: string, findings: seq<Finding>)
      requires 0 <= span.lo && span.hi <= |text|
    {
      Covered(text, span, findings)
      && forall i :: span.lo <= i < span.hi && !isSpace(text[i]) ==> TypeAt(i, findings) == Some(expectedType)
    }

    lemma {:induction false} CoveredTypesOf(ps: seq<int>, findings: seq<Finding>)
      ensures var ts := CoveredTypes(ps, findings);
        && |ts| <= |ps|
        && (|ts| == |ps| <==> forall i :: i in ps ==> TypeAt(i, findings).Some?)
        && (ts == [] <==> forall i :: i in ps ==> TypeAt(i, findings).None?)
        && (forall t :: t in ts <==> exists i :: i in ps && TypeAt(i, findings) == Some(t))
    {
      if ps != [] {
        CoveredTypesOf(ps[1..], findings);
        assert forall i :: i in ps <==> i == ps[0] || i in ps[1..];
        assert (forall i :: i in ps ==> TypeAt(i, findings).Some?) <==>
          (TypeAt(ps[0], findings).Some? && forall i :: i in ps[1..] ==> TypeAt(i, findings).Some?);
        var ts, rest := CoveredTypes(ps, findings), CoveredTypes(ps[1..], findings);
        forall t ensures t in ts <==> exists i :: i in ps && TypeAt(i, findings) == Some(t) {
          if t in ts {
            if t in rest {
              var i :| i in ps[1..] && TypeAt(i, findings) == Some(t);
              assert i in ps;
            } else {
              assert ps[0] in ps && TypeAt(ps[0], findings) == Some(t);
            }
          }
        }
      }
    }

    lemma OneTypeOnly(ps: seq<int>, expectedType: string, findings: seq<Finding>)
      ensures var ts := CoveredTypes(ps, findings);
        ps != [] && |ts| == |ps| ==>
          ((set t | t in ts) == {expectedType} <==> forall i :: i in ps ==> TypeAt(i, findings) == Some(expectedType))
    {
      var ts := CoveredTypes(ps, findings);
      var types := set t | t in ts;
      CoveredTypesOf(ps, findings);
      if ps != [] && |ts| == |ps| {
        if types == {expectedType} {
          forall i | i in ps ensures TypeAt(i, findings) == Some(expectedType) {
            assert TypeAt(i, findings).value in ts && TypeAt(i, findings).value in types;
          }
        }
        if forall i :: i in ps ==> TypeAt(i, findings) == Some(expectedType) {
          assert ts[0] in types && forall t :: t in types ==> t == expectedType;
        }
      }
    }

    lemma ShareFacts(c: real, p: real)
      requires 0.0 < p && 0.0 <= c <= p
      ensures 0.0 <= c / p <= 1.0 && (c / p == 0.0 <==> c == 0.0) && (c / p == 1.0 <==> c == p)
    {
      var share := c / p;
      assert share * p == c;
    }

    /** The match of one occurrence tells exactly how it is covered. */
    lemma MatchMeans(text: string, span: Interval, expectedType: string, findings: seq<Finding>)
      requires 0 <= span.lo && span.hi <= |text|
      ensures var m := MatchOf(text, span, expectedType, findings);
        && 0.0 <= m.share <= 1.0
        && (m.share > 0.0 <==> Touched(text, span, findings))
        && (m.share == 1.0 <==> Covered(text, span, findings))
        && (m.typeOk <==> CoveredAs(text, span, expectedType, findings))
    {
      var positions := Positions(text, span.lo, span.hi);
      var covered := CoveredTypes(positions, findings);
      CoveredTypesOf(positions, findings);
      if positions != [] {
        ShareFacts(|covered| as real, |positions| as real);
        assert positions[0] in positions;
      }
      OneTypeOnly(positions, expectedType, findings);
    }

    lemma {:induction false} NoneIsBetter(
      text: string, spans: seq<Interval>, expectedType: string, findings: seq<Finding>, i: nat)
      requires InText(text, spans) && i < |spans|
      ensures !MatchOf(text, spans[i], expectedType, findings).BetterThan(Best(text, spans, expectedType, findings))
    {
      var n := |spans| - 1;
      if i < n {
        assert spans[..n][i] == spans[i];
        NoneIsBetter(text, spans[..n], expectedType, findings, i);
      }
    }

    lemma {:induction false} BestIsSome(
      text: string, spans: seq<Interval>, expectedType: string, findings: seq<Finding>)
      returns (i: nat)
      requires InText(text, spans)
      ensures var best := Best(text, spans, expectedType, findings);
        best == Match(0.0, false) || (i < |spans| && best == MatchOf(text, spans[i], expectedType, findings))
    {
      i := 0;
      if spans != [] {
        var n := |spans| - 1;
        var before := Best(text, spans[..n], expectedType, findings);
        var next := MatchOf(text, spans[n], expectedType, findings);
        var earlier := BestIsSome(text, spans[..n], expectedType, findings);
        assert earlier < n ==> spans[..n][earlier] == spans[earlier];
        i := if next.BetterThan(before) then n else earlier;
      }
    }

    lemma BestIsBest(text: string, spans: seq<Interval>, expectedType: string, findings: seq<Finding>)
      requires InText(text, spans)
      ensures var best := Best(text, spans, expectedType, findings);
        && (forall i :: 0 <= i < |spans| ==> !MatchOf(text, spans[i], expectedType, findings).BetterThan(best))
        && (best == Match(0.0, false)
            || exists i :: 0 <= i < |spans| && best == MatchOf(text, spans[i], expectedType, findings))
    {
      forall i | 0 <= i < |spans|
        ensures !MatchOf(text, spans[i], expectedType, findings).BetterThan(Best(text, spans, expectedType, findings))
      {
        NoneIsBetter(text, spans, expectedType, findings, i);
      }
      var i := BestIsSome(text, spans, expectedType, findings);
    }

    ghost predicate SomeTouched(text: string, spans: seq<Interval>, findings: seq<Finding>)
      requires InText(text, spans)
    {
      exists i :: 0 <= i < |spans| && Touched(text, spans[i], findings)
    }

    ghost predicate SomeCovered(text: string, spans: seq<Interval>, findings: seq<Finding>)
      requires InText(text, spans)
    {
      exists i :: 0 <= i < |spans| && Covered(text, spans[i], findings)
    }

    ghost predicate SomeCoveredAs(text: string, spans: seq<Interval>, expectedType: string, findings: seq<Finding>)
      requires InText(text, spans)
    {
      exists i :: 0 <= i < |spans| && CoveredAs(text, spans[i], expectedType, findings)
    }

    lemma BestMeans(text: string, spans: seq<Interval>, expectedType: string, findings: seq<Finding>)
      requires InText(text, spans)
      ensures var best := Best(text, spans, expectedType, findings);
        && 0.0 <= best.share <= 1.0
        && (best.share > 0.0 <==> SomeTouched(text, spans, findings))
        && (best.share == 1.0 <==> SomeCovered(text, spans, findings))
        && (best.typeOk <==> SomeCoveredAs(text, spans, expectedType, findings))
    {
      BestIsBest(text, spans, expectedType, findings);
      forall i | 0 <= i < |spans|
        ensures var m := MatchOf(text, spans[i], expectedType, findings);
          && 0.0 <= m.share <= 1.0
          && (m.share > 0.0 <==> Touched(text, spans[i], findings))
          && (m.share == 1.0 <==> Covered(text, spans[i], findings))
          && (m.typeOk <==> CoveredAs(text, spans[i], expectedType, findings))
      {
        MatchMeans(text, spans[i], expectedType, findings);
      }
    }

    /** The class of a value, told without shares and maxima. */
    lemma ClassMeans(text: string, value: string, expectedType: string, findings: seq<Finding>)
      ensures InText(text, Occurrences(text, value))
      ensures var spans, class_ := Occurrences(text, value), Classify(text, value, expectedType, findings);
        && (class_ == NOT_IN_TEXT <==> value == "" || !Contains(text, value))
        && (class_ == TP <==> SomeCoveredAs(text, spans, expectedType, findings))
        && (class_ == WRONG_TYPE <==>
              SomeCovered(text, spans, findings) && !SomeCoveredAs(text, spans, expectedType, findings))
        && (class_ == PARTIAL <==> SomeTouched(text, spans, findings) && !SomeCovered(text, spans, findings))
        && (class_ == FN <==> spans != [] && !SomeTouched(text, spans, findings))
    {
      OccurrencesInText(text, value);
      var spans := Occurrences(text, value);
      BestMeans(text, spans, expectedType, findings);
      if value != "" {
        OccurrencesListAll(text, value, 0);
        if Contains(text, value) {
          var at :| 0 <= at <= |text| - |value| && OccursAt(text, value, at);
          assert ListsPosition(spans, at);
        }
        if spans != [] {
          assert OccursAt(text, value, spans[0].lo);
        }
      }
      assert SomeCovered(text, spans, findings) ==> SomeTouched(text, spans, findings);
      assert SomeCoveredAs(text, spans, expectedType, findings) ==> SomeCovered(text, spans, findings);
    }
  }
}
