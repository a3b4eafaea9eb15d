/** scripts/eval_gold.py: what the numbers of a report count, told without the traversal. */
module GoldMeanings {
  import opened Texts
  import opened Entities
  import opened GoldMatching
  import opened GoldMetrics
  import opened GoldLaws

  // ---- spans and positions of one row ----

  /** An expected value of the row occurs at `at`. */
  ghost predicate ExpectedAt(row: GoldRow, value: string, at: int) {
    value != "" && OccursAt(row.text, value, at) && exists e :: e in row.expected && e.value == value
  }

  lemma {:induction false} ExpectedSpansAre(text: string, expected: seq<Expected>, w: Interval)
    ensures w in ExpectedSpans(text, expected)
       <==> exists e :: e in expected && e.value != "" && OccursAt(text, e.value, w.lo) && w.hi == w.lo + |e.value|
  {
    if expected != [] {
      var e := expected[0];
      ExpectedSpansAre(text, expected[1..], w);
      assert expected == [e] + expected[1..];
      OccurrencesAre(text, e.value, w);
    }
  }

  lemma OccurrencesAre(text: string, value: string, w: Interval)
    ensures w in Occurrences(text, value) <==> value != "" && OccursAt(text, value, w.lo) && w.hi == w.lo + |value|
  {
    if value != "" {
      var found := Occurrences(text, value);
      OccurrencesListAll(text, value, 0);
      if w in found {
        var k :| 0 <= k < |found| && found[k] == w;
        assert OccurrenceFrom(text, value, 0, found[k]);
      }
      if OccursAt(text, value, w.lo) && w.hi == w.lo + |value| {
        assert ListsPosition(found, w.lo);
        var k :| 0 <= k < |found| && found[k].lo == w.lo;
        assert OccurrenceFrom(text, value, 0, found[k]) && found[k] == w;
      }
    }
  }

  /** The span shares no position with any occurrence of an expected value. */
  ghost predicate Unexpected(row: GoldRow, s: Interval) {
    forall value, at :: ExpectedAt(row, value, at) ==> at + |value| <= s.lo || s.hi <= at
  }

  lemma UnexpectedMeans(row: GoldRow, s: Interval)
    ensures Unexpected(row, s) <==> !Crosses(s, ExpectedSpans(row.text, row.expected))
  {
    var wanted := ExpectedSpans(row.text, row.expected);
    if Crosses(s, wanted) {
      var w :| w in wanted && s.lo < w.hi && w.lo < s.hi;
      ExpectedSpansAre(row.text, row.expected, w);
      var e :| e in row.expected && e.value != "" && OccursAt(row.text, e.value, w.lo) && w.hi == w.lo + |e.value|;
      assert ExpectedAt(row, e.value, w.lo);
    }
    if !Unexpected(row, s) {
      var value, at :| ExpectedAt(row, value, at) && !(at + |value| <= s.lo || s.hi <= at);
      ExpectedSpansAre(row.text, row.expected, Interval(at, at + |value|));
    }
  }

  function AllPairs(findings: seq<Finding>): seq<Extra> {
    if findings == [] then [] else PairsOf(findings[0].pdType, findings[0].spans) + AllPairs(findings[1..])
  }

  function PairsOf(pdType: string, spans: seq<Interval>): seq<Extra> {
    seq(|spans|, i requires 0 <= i < |spans| => Extra(pdType, spans[i]))
  }

  lemma {:induction false} ExtrasOfOne(pdType: string, spans: seq<Interval>, wanted: seq<Interval>, x: Extra)
    ensures multiset(ExtraOf(pdType, spans, wanted))[x]
         == if Crosses(x.span, wanted) then 0 else multiset(PairsOf(pdType, spans))[x]
  {
    if spans != [] {
      ExtrasOfOne(pdType, spans[1..], wanted, x);
      assert PairsOf(pdType, spans) == [Extra(pdType, spans[0])] + PairsOf(pdType, spans[1..]);
    }
  }

  lemma {:induction false} ExtrasOfAll(findings: seq<Finding>, wanted: seq<Interval>, x: Extra)
    ensures multiset(ExtrasAmong(findings, wanted))[x]
         == if Crosses(x.span, wanted) then 0 else multiset(AllPairs(findings))[x]
  {
    if findings != [] {
      ExtrasOfOne(findings[0].pdType, findings[0].spans, wanted, x);
      ExtrasOfAll(findings[1..], wanted, x);
    }
  }

  /** The extra spans are the found ones, each as often as it is found, that no expected value meets. */
  lemma ExtraSpansAre(row: GoldRow, findings: seq<Finding>, x: Extra)
    ensures multiset(ExtraSpans(row, findings))[x]
         == if Unexpected(row, x.span) then multiset(AllPairs(findings))[x] else 0
  {
    ExtrasOfAll(findings, ExpectedSpans(row.text, row.expected), x);
    UnexpectedMeans(row, x.span);
  }

  lemma {:induction false} NonSpaceIs(isSpace: char -> bool, text: string, spans: seq<Interval>, i: int)
    ensures i in NonSpace(isSpace, text, spans)
       <==> 0 <= i < |text| && !isSpace(text[i]) && exists s :: s in spans && s.lo <= i < s.hi
  {
    if spans != [] {
      NonSpaceIs(isSpace, text, spans[1..], i);
      assert spans == [spans[0]] + spans[1..];
    }
  }

  lemma {:induction false} AllSpansAre(findings: seq<Finding>, s: Interval)
    ensures s in AllSpans(findings) <==> exists f :: f in findings && s in f.spans
  {
    if findings != [] {
      AllSpansAre(findings[1..], s);
      assert findings == [findings[0]] + findings[1..];
    }
  }

  /** Wanted is what an expected value covers, masked what a finding covers; spaces are neither. */
  lemma PositionsAre(ev: Evaluator, row: GoldRow, findings: seq<Finding>, i: int)
    ensures i in WantedIn(ev, row)
       <==> 0 <= i < |row.text| && !ev.isSpace(row.text[i])
            && exists value, at :: ExpectedAt(row, value, at) && at <= i < at + |value|
    ensures i in MaskedIn(ev, row, findings)
       <==> 0 <= i < |row.text| && !ev.isSpace(row.text[i])
            && exists f, s :: f in findings && s in f.spans && s.lo <= i < s.hi
  {
    WantedAre(ev, row, i);
    MaskedAre(ev, row, findings, i);
  }

  lemma WantedAre(ev: Evaluator, row: GoldRow, i: int)
    ensures i in WantedIn(ev, row)
       <==> 0 <= i < |row.text| && !ev.isSpace(row.text[i])
            && exists value, at :: ExpectedAt(row, value, at) && at <= i < at + |value|
  {
    var wanted := ExpectedSpans(row.text, row.expected);
    NonSpaceIs(ev.isSpace, row.text, wanted, i);
    if exists s :: s in wanted && s.lo <= i < s.hi {
      var s :| s in wanted && s.lo <= i < s.hi;
      ExpectedSpansAre(row.text, row.expected, s);
      var e :| e in row.expected && e.value != "" && OccursAt(row.text, e.value, s.lo) && s.hi == s.lo + |e.value|;
      assert ExpectedAt(row, e.value, s.lo);
    }
    if exists value, at :: ExpectedAt(row, value, at) && at <= i < at + |value| {
      var value, at :| ExpectedAt(row, value, at) && at <= i < at + |value|;
      ExpectedSpansAre(row.text, row.expected, Interval(at, at + |value|));
    }
  }

  lemma MaskedAre(ev: Evaluator, row: GoldRow, findings: seq<Finding>, i: int)
    ensures i in MaskedIn(ev, row, findings)
       <==> 0 <= i < |row.text| && !ev.isSpace(row.text[i])
            && exists f, s :: f in findings && s in f.spans && s.lo <= i < s.hi
  {
    NonSpaceIs(ev.isSpace, row.text, AllSpans(findings), i);
    if exists s :: s in AllSpans(findings) && s.lo <= i < s.hi {
      var s :| s in AllSpans(findings) && s.lo <= i < s.hi;
      AllSpansAre(findings, s);
    }
    if exists f, s :: f in findings && s in f.spans && s.lo <= i < s.hi {
      var f, s :| f in findings && s in f.spans && s.lo <= i < s.hi;
      AllSpansAre(findings, s);
    }
  }

  // ---- the counters of a report ----

  /** How many rows `p` holds of. */
  ghost function RowsThat(rows: seq<Scored>, p: Scored -> bool): nat {
    if rows == [] then 0 else RowsThat(rows[..|rows| - 1], p) + if p(rows[|rows| - 1]) then 1 else 0
  }

  predicate InText(s: Scored) {
    exists v | v in s.verdicts :: v.class_ != NOT_IN_TEXT
  }

  /** A text with data whose values, as far as they are in it, are all of this class; at least one is. */
  predicate AllOfClass(s: Scored, c: Class) {
    s.trap == HasPd && InText(s) && forall v | v in s.verdicts :: v.class_ == NOT_IN_TEXT || v.class_ == c
  }

  lemma {:induction false} ClassesAre(verdicts: seq<Verdict>)
    ensures forall c :: c in InTextClasses(verdicts) <==> c != NOT_IN_TEXT && exists v :: v in verdicts && v.class_ == c
    decreases |verdicts|
  {
    if verdicts != [] {
      ClassesAre(verdicts[..|verdicts| - 1]);
      assert verdicts == verdicts[..|verdicts| - 1] + [verdicts[|verdicts| - 1]];
    }
  }

  lemma {:induction false} OnlyMeans(classes: seq<Class>, c: Class)
    ensures Only(classes, c) <==> forall k :: k in classes ==> k == c
  {
    if classes != [] {
      OnlyMeans(classes[1..], c);
      assert forall k :: k in classes <==> k == classes[0] || k in classes[1..];
      assert classes[0] in classes;
    }
  }

  lemma AllAreMeans(s: Scored, c: Class)
    requires s.trap == HasPd && c != NOT_IN_TEXT
    ensures AllAre(InTextClasses(s.verdicts), c) <==> AllOfClass(s, c)
  {
    var classes := InTextClasses(s.verdicts);
    ClassesAre(s.verdicts);
    OnlyMeans(classes, c);
    if classes != [] {
      assert classes[0] in classes;
      var v :| v in s.verdicts && v.class_ == classes[0];
      assert InText(s);
    }
    if InText(s) {
      var v :| v in s.verdicts && v.class_ != NOT_IN_TEXT;
      assert v.class_ in classes;
    }
    if forall k :: k in classes ==> k == c {
      forall v | v in s.verdicts ensures v.class_ == NOT_IN_TEXT || v.class_ == c {
        assert v.class_ != NOT_IN_TEXT ==> v.class_ in classes;
      }
    }
  }

  function IsSkipped(): Scored -> bool {
    (s: Scored) => s.trap == Unlabelled
  }

  function IsTrapRow(): Scored -> bool {
    (s: Scored) => s.trap == IsTrap
  }

  function IsFalseAlarm(): Scored -> bool {
    (s: Scored) => s.trap == IsTrap && s.anyFound
  }

  function HasData(): Scored -> bool {
    (s: Scored) => s.trap == HasPd
  }

  function HasAll(c: Class): Scored -> bool {
    (s: Scored) => AllOfClass(s, c)
  }

  /** What each of the counters of texts counts. */
  lemma {:induction false} TextCountersMean(rows: seq<Scored>)
    ensures var t := Counted(rows).texts;
      && t.skipped == RowsThat(rows, IsSkipped())
      && t.traps == RowsThat(rows, IsTrapRow()) && t.trapFp == RowsThat(rows, IsFalseAlarm())
      && t.pdTexts == RowsThat(rows, HasData())
      && t.fnText == RowsThat(rows, HasAll(FN)) && t.perfectText == RowsThat(rows, HasAll(TP))
    decreases |rows|
  {
    if rows != [] {
      var s := rows[|rows| - 1];
      TextCountersMean(rows[..|rows| - 1]);
      if s.trap == HasPd {
        AllAreMeans(s, FN);
        AllAreMeans(s, TP);
      }
    }
  }

  // ---- the counters of characters ----

  ghost predicate Labelled(rows: seq<Scored>, i: int) {
    0 <= i < |rows| && rows[i].trap != Unlabelled
  }

  /** Every labelled row has only what it should. */
  ghost predicate AllFound(rows: seq<Scored>) {
    forall i :: Labelled(rows, i) ==> rows[i].wanted <= rows[i].masked
  }

  ghost predicate NothingElse(rows: seq<Scored>) {
    forall i :: Labelled(rows, i) ==> rows[i].masked <= rows[i].wanted
  }

  ghost predicate NothingWanted(rows: seq<Scored>) {
    forall i :: Labelled(rows, i) ==> rows[i].wanted == {}
  }

  ghost predicate NothingMasked(rows: seq<Scored>) {
    forall i :: Labelled(rows, i) ==> rows[i].masked == {}
  }

  lemma NoDifference(a: set<int>, b: set<int>)
    ensures a - b == {} <==> a <= b
    ensures |a - b| == 0 <==> a <= b
  {
    if a - b == {} {
      forall x | x in a ensures x in b {
        assert x !in a - b;
      }
    }
  }

  lemma SizesMean(a: set<int>, b: set<int>)
    ensures |a * b| <= |a| && (|a * b| == |a| <==> a <= b)
    ensures |b - a| == 0 <==> b <= a
  {
    SplitSet(b, a);
    assert a * b == b * a;
    NoDifference(a, b);
    NoDifference(b, a);
  }

  lemma PrefixLabels(rows: seq<Scored>)
    requires rows != []
    ensures forall i ::
      Labelled(rows, i) <==> Labelled(rows[..|rows| - 1], i) || (i == |rows| - 1 && rows[i].trap != Unlabelled)
    ensures forall i :: 0 <= i < |rows| - 1 ==> rows[..|rows| - 1][i] == rows[i]
  {
  }

  lemma {:induction false} CharsOfMean(rows: seq<Scored>)
    ensures CharsOf(rows).expectedMasked <= CharsOf(rows).expectedChars
    ensures CharsOf(rows).expectedChars == 0 <==> NothingWanted(rows)
    ensures CharsOf(rows).expectedMasked == CharsOf(rows).expectedChars <==> AllFound(rows)
    ensures CharsOf(rows).overmask == 0 <==> NothingElse(rows)
    ensures CharsOf(rows).maskedChars == 0 <==> NothingMasked(rows)
    decreases |rows|
  {
    if rows != [] {
      var s, fewer := rows[|rows| - 1], rows[..|rows| - 1];
      CharsOfMean(fewer);
      PrefixLabels(rows);
      SizesMean(s.wanted, s.masked);
      LastOne(rows);
    }
  }

  lemma LastOne(rows: seq<Scored>)
    requires rows != []
    ensures var s, fewer := rows[|rows| - 1], rows[..|rows| - 1]; var labelled := s.trap != Unlabelled;
      && (NothingWanted(rows) <==> NothingWanted(fewer) && (labelled ==> s.wanted == {}))
      && (NothingMasked(rows) <==> NothingMasked(fewer) && (labelled ==> s.masked == {}))
      && (AllFound(rows) <==> AllFound(fewer) && (labelled ==> s.wanted <= s.masked))
      && (NothingElse(rows) <==> NothingElse(fewer) && (labelled ==> s.masked <= s.wanted))
  {
    PrefixLabels(rows);
    var n := |rows| - 1;
    assert rows[n].trap != Unlabelled ==> Labelled(rows, n);
    forall i | Labelled(rows[..n], i) ensures Labelled(rows, i) && rows[..n][i] == rows[i] {
    }
  }

  /** The character counters of a report tell whether everything wanted is masked and whether anything else is. */
  lemma CharCountersMean(rows: seq<Scored>)
    ensures var c := Counted(rows).chars;
      && (c.expectedChars == 0 <==> NothingWanted(rows)) && (c.maskedChars == 0 <==> NothingMasked(rows))
      && (c.expectedMasked == c.expectedChars <==> AllFound(rows)) && (c.overmask == 0 <==> NothingElse(rows))
  {
    CountedChars(rows);
    CharsOfMean(rows);
  }

  // ---- the counters of values ----

  /** How many of the values `p` holds of. */
  ghost function ValuesThat(verdicts: seq<Verdict>, p: Verdict -> bool): nat {
    if verdicts == [] then 0
    else ValuesThat(verdicts[..|verdicts| - 1], p) + if p(verdicts[|verdicts| - 1]) then 1 else 0
  }

  ghost function ValuesInReport(rows: seq<Scored>, p: Verdict -> bool): nat {
    if rows == [] then 0
    else
      var s := rows[|rows| - 1];
      ValuesInReport(rows[..|rows| - 1], p) + if s.trap == HasPd then ValuesThat(s.verdicts, p) else 0
  }

  function OfClass(c: Class): Verdict -> bool {
    (v: Verdict) => v.class_ == c
  }

  function OfTypeAndClass(pdType: string, c: Class): Verdict -> bool {
    (v: Verdict) => v.pdType == pdType && v.class_ == c
  }

  lemma {:induction false} RowValuesMean(t: Values, verdicts: seq<Verdict>, pdType: string, c: Class)
    requires c != NOT_IN_TEXT
    ensures var after := ValuesCounted(t, verdicts);
      && At(after.classes, c) == At(t.classes, c) + ValuesThat(verdicts, OfClass(c))
      && At(OfType(after.byType, pdType), c)
         == At(OfType(t.byType, pdType), c) + ValuesThat(verdicts, OfTypeAndClass(pdType, c))
      && after.notInText == t.notInText + ValuesThat(verdicts, OfClass(NOT_IN_TEXT))
    decreases |verdicts|
  {
    if verdicts != [] {
      RowValuesMean(t, verdicts[..|verdicts| - 1], pdType, c);
    }
  }

  /** Each counter of values, in all and per type, counts the values of that class in the texts with data. */
  lemma {:induction false} ValueCountersMean(rows: seq<Scored>, pdType: string, c: Class)
    requires c != NOT_IN_TEXT
    ensures var t := Counted(rows).values;
      && At(t.classes, c) == ValuesInReport(rows, OfClass(c))
      && At(OfType(t.byType, pdType), c) == ValuesInReport(rows, OfTypeAndClass(pdType, c))
      && t.notInText == ValuesInReport(rows, OfClass(NOT_IN_TEXT))
    decreases |rows|
  {
    if rows != [] {
      var s, before := rows[|rows| - 1], Counted(rows[..|rows| - 1]);
      ValueCountersMean(rows[..|rows| - 1], pdType, c);
      RowStep(rows, |rows| - 1);
      assert rows[..|rows| - 1 + 1] == rows;
      if s.trap == HasPd {
        RowValuesMean(before.values, s.verdicts, pdType, c);
      }
    }
  }

  /** The k-th value of a row is judged by its own text, value and type. */
  lemma VerdictsMean(ev: Evaluator, row: GoldRow, findings: seq<Finding>, k: nat)
    requires k < |row.expected|
    ensures var e, s := row.expected[k], Score(ev, row, findings);
      && |s.verdicts| == |row.expected|
      && s.verdicts[k].pdType == e.pdType && s.verdicts[k].value == e.value
      && ev.InText(row.text, Occurrences(row.text, e.value))
      && (s.verdicts[k].class_ == TP
          <==> ev.SomeCoveredAs(row.text, Occurrences(row.text, e.value), e.pdType, findings))
      && (s.verdicts[k].class_ == NOT_IN_TEXT <==> e.value == "" || !Contains(row.text, e.value))
  {
    ScoredParts(ev, row, findings);
    ev.ClassMeans(row.text, row.expected[k].value, row.expected[k].pdType, findings);
  }

  /** Each row is scored against the findings under its own id, or none. */
  lemma RowsMean(ev: Evaluator, rows: seq<GoldRow>, byId: FindingsById, i: nat)
    requires i < |rows|
    ensures var scored, row := ScoreAll(ev, rows, byId), rows[i];
      var findings := if row.id in byId then byId[row.id] else [];
      && |scored| == |rows|
      && scored[i].id == row.id && scored[i].text == row.text && scored[i].trap == row.trap
      && (scored[i].anyFound <==> findings != [])
      && scored[i].extras == ExtraSpans(row, findings)
      && scored[i].wanted == WantedIn(ev, row) && scored[i].masked == MaskedIn(ev, row, findings)
      && scored[i].verdicts == VerdictsOf(ev, row, findings)
  {
    ScoredParts(ev, rows[i], FindingsFor(byId, rows[i].id));
  }

  // ---- the ratios ----

  lemma PrecisionAndRecall(right: nat, other: nat, missed: nat, fp: nat)
    ensures var all := right + other + missed;
      && (Ratio(right + other, right + other + fp) == 1.0 <==> right + other > 0 && fp == 0)
      && (Ratio(right, all) == 1.0 <==> right > 0 && other + missed == 0)
      && (Ratio(right + other, all) == 1.0 <==> right + other > 0 && missed == 0)
  {
    PerfectRatio(right + other, right + other + fp);
    PerfectRatio(right, right + other + missed);
    PerfectRatio(right + other, right + other + missed);
  }

  lemma PerfectTally(t: Tally)
    requires CharsBalance(t.chars)
    ensures var right, other := At(t.values.classes, TP), At(t.values.classes, WRONG_TYPE);
      var missed := At(t.values.classes, PARTIAL) + At(t.values.classes, FN);
      && (Precision(t) == 1.0 <==> right + other > 0 && t.fp == 0)
      && (Recall(t) == 1.0 <==> right > 0 && other + missed == 0)
      && (RecallAnyType(t) == 1.0 <==> right + other > 0 && missed == 0)
    ensures RecallChars(t) == 1.0 <==> 0 < t.chars.expectedChars == t.chars.expectedMasked
    ensures OvermaskChars(t) == 0.0 <==> t.chars.overmask == 0
  {
    PrecisionAndRecall(At(t.values.classes, TP), At(t.values.classes, WRONG_TYPE),
                       At(t.values.classes, PARTIAL) + At(t.values.classes, FN), t.fp);
    PerfectRatio(t.chars.expectedMasked, t.chars.expectedChars);
    PerfectRatio(t.chars.overmask, t.chars.maskedChars);
  }

  /** When each ratio of a report is perfect. */
  lemma RatiosMean(rows: seq<Scored>)
    ensures var t := Counted(rows); var right, other := At(t.values.classes, TP), At(t.values.classes, WRONG_TYPE);
      var missed := At(t.values.classes, PARTIAL) + At(t.values.classes, FN);
      && (Precision(t) == 1.0 <==> right + other > 0 && t.fp == 0)
      && (Recall(t) == 1.0 <==> right > 0 && other + missed == 0)
      && (RecallAnyType(t) == 1.0 <==> right + other > 0 && missed == 0)
    ensures RecallChars(Counted(rows)) == 1.0 <==> !NothingWanted(rows) && AllFound(rows)
    ensures OvermaskChars(Counted(rows)) == 0.0 <==> NothingElse(rows)
  {
    ReportBalances(rows);
    CharCountersMean(rows);
    PerfectTally(Counted(rows));
  }

  lemma PerfectRatio(part: nat, whole: nat)
    requires part <= whole
    ensures Ratio(part, whole) == 1.0 <==> 0 < whole == part
    ensures Ratio(part, whole) == 0.0 <==> part == 0
  {
    if whole > 0 {
      var share := (part as real) / (whole as real);
      assert share * (whole as real) == part as real;
    }
  }

  // ---- the error rows ----

  ghost predicate TellsExtra(s: Scored, e: ErrorRow) {
    e.kind == (if s.trap == IsTrap then TrapFp else FpValue)
    && exists x :: x in s.extras
         && e == ErrorRow(s.id, e.kind, x.pdType, "", Slice(s.text, x.span.lo, x.span.hi), s.text)
  }

  ghost predicate TellsValue(s: Scored, e: ErrorRow) {
    s.trap == HasPd
    && exists v :: v in s.verdicts && v.class_ != TP
         && e == ErrorRow(s.id, e.kind, v.pdType, v.value, v.found, s.text)
         && (e.kind == FnValue <==> v.class_ == FN) && (e.kind == Partial <==> v.class_ == PARTIAL)
         && (e.kind == WrongType <==> v.class_ == WRONG_TYPE) && (e.kind == NotInText <==> v.class_ == NOT_IN_TEXT)
         && e.kind != FpValue && e.kind != TrapFp
  }

  lemma {:induction false} ExtraErrorsAre(s: Scored, extras: seq<Extra>, kind: ErrorKind, e: ErrorRow)
    ensures e in ExtraErrors(s.id, s.text, kind, extras)
       <==> exists x :: x in extras
                        && e == ErrorRow(s.id, kind, x.pdType, "", Slice(s.text, x.span.lo, x.span.hi), s.text)
    decreases |extras|
  {
    if extras != [] {
      var n := |extras| - 1;
      ExtraErrorsAre(s, extras[..n], kind, e);
      assert forall x :: x in extras <==> x in extras[..n] || x == extras[n];
    }
  }

  lemma {:induction false} ValueErrorsAre(s: Scored, verdicts: seq<Verdict>, e: ErrorRow)
    ensures e in ValueErrors(s.id, s.text, verdicts)
       <==> exists v :: v in verdicts && v.class_ != TP
              && e == ErrorRow(s.id, KindOf(v.class_), v.pdType, v.value, v.found, s.text)
    decreases |verdicts|
  {
    if verdicts != [] {
      var n := |verdicts| - 1;
      ValueErrorsAre(s, verdicts[..n], e);
      assert forall v :: v in verdicts <==> v in verdicts[..n] || v == verdicts[n];
    }
  }

  lemma RowErrorsAre(s: Scored, e: ErrorRow)
    requires s.trap != Unlabelled
    ensures e in ExtraErrors(s.id, s.text, ExtraKind(s.trap), s.extras) <==> TellsExtra(s, e)
    ensures s.trap == HasPd ==> (e in ValueErrors(s.id, s.text, s.verdicts) <==> TellsValue(s, e))
  {
    ExtraErrorsAre(s, s.extras, ExtraKind(s.trap), e);
    ValueErrorsAre(s, s.verdicts, e);
  }

  /** The error rows tell of the extra spans of every labelled row and of every value in a text with data that is not
      found whole with its type alone; of nothing else. */
  lemma {:induction false} ErrorsAre(rows: seq<Scored>, e: ErrorRow)
    ensures e in Errors(rows)
       <==> exists i :: Labelled(rows, i) && (TellsExtra(rows[i], e) || TellsValue(rows[i], e))
    decreases |rows|
  {
    if rows != [] {
      var n := |rows| - 1;
      var fewer, s := rows[..n], rows[n];
      ErrorsAre(fewer, e);
      if s.trap != Unlabelled {
        RowErrorsAre(s, e);
        assert Labelled(rows, n);
      }
      assert forall i :: Labelled(fewer, i) ==> Labelled(rows, i) && rows[i] == fewer[i];
      assert forall i :: Labelled(rows, i) && i < n ==> Labelled(fewer, i) && fewer[i] == rows[i];
    }
  }

  ghost predicate FirstAt(text: string, value: string, at: int) {
    value != "" && OccursAt(text, value, at) && forall i :: 0 <= i < at ==> !OccursAt(text, value, i)
  }

  /** The found text shows the value's first occurrence, or nothing when there is none. */
  lemma FoundTextMeans(text: string, value: string, findings: seq<Finding>)
    ensures value == "" || !Contains(text, value) ==> FoundText(text, value, findings) == ""
    ensures forall at :: FirstAt(text, value, at) ==>
      FoundText(text, value, findings)
      == JoinWith(" | ", Shown(text, Interval(at, at + |value|), AllSpans(findings)))
  {
    var spans := Occurrences(text, value);
    if spans != [] {
      OccurrencesListAll(text, value, 0);
      assert OccurrenceFrom(text, value, 0, spans[0]);
      assert Contains(text, value);
    }
    forall at | FirstAt(text, value, at)
      ensures spans != [] && spans[0] == Interval(at, at + |value|)
    {
      OccurrencesListAll(text, value, 0);
      assert ListsPosition(spans, at);
      var k :| 0 <= k < |spans| && spans[k].lo == at;
      assert OccurrenceFrom(text, value, 0, spans[0]);
    }
  }

  /** Where the spans lie inside the text, every piece shown is a non-empty piece of the value. */
  lemma {:induction false} ShownIsInside(text: string, stretch: Interval, spans: seq<Interval>, piece: string)
    requires 0 <= stretch.lo < stretch.hi <= |text| && piece in Shown(text, stretch, spans)
    requires forall s :: s in spans ==> 0 <= s.lo < s.hi <= |text|
    ensures exists s :: s in spans && Within(text, stretch, s, piece)
  {
    var s := spans[0];
    assert s in spans;
    if s.lo < stretch.hi && stretch.lo < s.hi && piece == Slice(text, Max(s.lo, stretch.lo), Min(s.hi, stretch.hi)) {
      assert Within(text, stretch, s, piece);
    } else {
      ShownIsInside(text, stretch, spans[1..], piece);
    }
  }

  /** The piece is exactly what the span and the stretch have in common. */
  ghost predicate Within(text: string, stretch: Interval, s: Interval, piece: string) {
    exists lo, hi :: 0 <= lo < hi <= |text| && piece == text[lo..hi]
      && forall i :: Holds(Interval(lo, hi), i) <==> Holds(s, i) && Holds(stretch, i)
  }

  predicate Holds(span: Interval, i: int) {
    span.lo <= i < span.hi
  }
}
