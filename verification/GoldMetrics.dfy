/** scripts/eval_gold.py: the metrics and the list of errors, two traversals of one labelled set. */
module GoldMetrics {
  import opened Entities
  import opened GoldMatching
  import opened Texts

  datatype Expected = Expected(pdType: string, value: string)

  /** What parse_trap reads: nothing, a text with personal data, or a trap without. */
  datatype Trap = Unlabelled | HasPd | IsTrap

  datatype GoldRow = GoldRow(id: string, text: string, trap: Trap, expected: seq<Expected>)

  type FindingsById = map<string, seq<Finding>>

  function FindingsFor(byId: FindingsById, id: string): seq<Finding> {
    if id in byId then byId[id] else []
  }

  // ---- spans ----

  datatype Extra = Extra(pdType: string, span: Interval)

  function ExpectedSpans(text: string, expected: seq<Expected>): seq<Interval> {
    if expected == [] then [] else Occurrences(text, expected[0].value) + ExpectedSpans(text, expected[1..])
  }

  predicate Crosses(a: Interval, wanted: seq<Interval>) {
    exists w | w in wanted :: a.lo < w.hi && w.lo < a.hi
  }

  function ExtraOf(pdType: string, spans: seq<Interval>, wanted: seq<Interval>): seq<Extra> {
    if spans == [] then []
    else (if Crosses(spans[0], wanted) then [] else [Extra(pdType, spans[0])]) + ExtraOf(pdType, spans[1..], wanted)
  }

  function ExtrasAmong(findings: seq<Finding>, wanted: seq<Interval>): seq<Extra> {
    if findings == [] then []
    else ExtraOf(findings[0].pdType, findings[0].spans, wanted) + ExtrasAmong(findings[1..], wanted)
  }

  function AllSpans(findings: seq<Finding>): seq<Interval> {
    if findings == [] then [] else findings[0].spans + AllSpans(findings[1..])
  }

  function NonSpace(isSpace: char -> bool, text: string, spans: seq<Interval>): set<int> {
    if spans == [] then {}
    else
      (set i | spans[0].lo <= i < spans[0].hi && 0 <= i < |text| && !isSpace(text[i]))
      + NonSpace(isSpace, text, spans[1..])
  }

  // ---- one row, matched against its findings ----

  /** A bound of a slice: counted from the end when negative, and never beyond the text. */
  function Bound(at: int, length: nat): nat {
    var from := if at < 0 then at + length else at;
    if from < 0 then 0 else if from > length then length else from
  }

  /** text[lo:hi] */
  function Slice(text: string, lo: int, hi: int): string {
    var from, to := Bound(lo, |text|), Bound(hi, |text|);
    if from < to then text[from..to] else ""
  }

  function Max(a: int, b: int): int {
    if a >= b then a else b
  }

  function Min(a: int, b: int): int {
    if a <= b then a else b
  }

  /** What the spans show of the stretch. */
  function Shown(text: string, stretch: Interval, spans: seq<Interval>): seq<string> {
    if spans == [] then []
    else
      var s := spans[0];
      (if s.lo < stretch.hi && stretch.lo < s.hi
       then [Slice(text, Max(s.lo, stretch.lo), Min(s.hi, stretch.hi))] else [])
      + Shown(text, stretch, spans[1..])
  }

  /** What was masked of the first occurrence of the value. */
  function FoundText(text: string, value: string, findings: seq<Finding>): string {
    var spans := Occurrences(text, value);
    if spans == [] then "" else JoinWith(" | ", Shown(text, spans[0], AllSpans(findings)))
  }

  datatype Verdict = Verdict(pdType: string, value: string, class_: Class, found: string)

  datatype Scored = Scored(
    id: string, text: string, trap: Trap, anyFound: bool, extras: seq<Extra>, wanted: set<int>, masked: set<int>,
    verdicts: seq<Verdict>)

  function VerdictsOf(ev: Evaluator, row: GoldRow, findings: seq<Finding>): seq<Verdict> {
    seq(|row.expected|, i requires 0 <= i < |row.expected| =>
      var e := row.expected[i];
      Verdict(e.pdType, e.value, ev.Classify(row.text, e.value, e.pdType, findings),
              FoundText(row.text, e.value, findings)))
  }

  function ExtraSpans(row: GoldRow, findings: seq<Finding>): seq<Extra> {
    ExtrasAmong(findings, ExpectedSpans(row.text, row.expected))
  }

  function WantedIn(ev: Evaluator, row: GoldRow): set<int> {
    NonSpace(ev.isSpace, row.text, ExpectedSpans(row.text, row.expected))
  }

  function MaskedIn(ev: Evaluator, row: GoldRow, findings: seq<Finding>): set<int> {
    NonSpace(ev.isSpace, row.text, AllSpans(findings))
  }

  function Score(ev: Evaluator, row: GoldRow, findings: seq<Finding>): Scored {
    Scored(row.id, row.text, row.trap, findings != [], ExtraSpans(row, findings), WantedIn(ev, row),
           MaskedIn(ev, row, findings), VerdictsOf(ev, row, findings))
  }

  // ---- the counters ----

  type Counter = map<Class, nat>

  function At(m: Counter, c: Class): nat {
    if c in m then m[c] else 0
  }

  function Bump(m: Counter, c: Class): Counter {
    m[c := At(m, c) + 1]
  }

  function OfType(m: map<string, Counter>, t: string): Counter {
    if t in m then m[t] else map[]
  }

  datatype TextCounts = TextCounts(
    labeled: nat, skipped: nat, traps: nat, trapFp: nat, pdTexts: nat, fnText: nat, perfectText: nat)

  datatype Chars = Chars(expectedChars: nat, expectedMasked: nat, maskedChars: nat, overmask: nat)

  datatype Values = Values(classes: Counter, notInText: nat, byType: map<string, Counter>)

  datatype Tally = Tally(texts: TextCounts, fp: nat, chars: Chars, values: Values)

  const ZERO := Tally(TextCounts(0, 0, 0, 0, 0, 0, 0), 0, Chars(0, 0, 0, 0), Values(map[], 0, map[]))

  function CharsCounted(c: Chars, wanted: set<int>, masked: set<int>): Chars {
    Chars(c.expectedChars + |wanted|, c.expectedMasked + |wanted * masked|,
          c.maskedChars + |masked|, c.overmask + |masked - wanted|)
  }

  /** Masked characters are expected or too many. */
  ghost predicate CharsBalance(c: Chars) {
    c.expectedMasked + c.overmask == c.maskedChars && c.expectedMasked <= c.expectedChars
  }

  lemma SplitSet(a: set<int>, b: set<int>)
    ensures |a * b| + |b - a| == |b| && |a * b| <= |a|
  {
    assert b == (a * b) + (b - a) && (a * b) * (b - a) == {};
    assert a == (a * b) + (a - b) && (a * b) * (a - b) == {};
  }

  function ValueCounted(t: Values, v: Verdict): Values {
    if v.class_ == NOT_IN_TEXT then t.(notInText := t.notInText + 1)
    else
      t.(classes := Bump(t.classes, v.class_),
         byType := t.byType[v.pdType := Bump(OfType(t.byType, v.pdType), v.class_)])
  }

  function ValuesCounted(t: Values, verdicts: seq<Verdict>): Values {
    if verdicts == [] then t
    else ValueCounted(ValuesCounted(t, verdicts[..|verdicts| - 1]), verdicts[|verdicts| - 1])
  }

  function InTextClasses(verdicts: seq<Verdict>): seq<Class> {
    if verdicts == [] then []
    else
      var c := verdicts[|verdicts| - 1].class_;
      InTextClasses(verdicts[..|verdicts| - 1]) + (if c == NOT_IN_TEXT then [] else [c])
  }

  predicate AllAre(classes: seq<Class>, c: Class) {
    classes != [] && Only(classes, c)
  }

  predicate Only(classes: seq<Class>, c: Class) {
    classes == [] || (classes[0] == c && Only(classes[1..], c))
  }

  function TextCounted(t: TextCounts, classes: seq<Class>): TextCounts {
    t.(fnText := t.fnText + (if AllAre(classes, FN) then 1 else 0),
       perfectText := t.perfectText + (if AllAre(classes, TP) then 1 else 0))
  }

  function TextsOf(t: TextCounts, trap: Trap, anyFound: bool, verdicts: seq<Verdict>): TextCounts {
    if trap == IsTrap then t.(traps := t.traps + 1, trapFp := t.trapFp + (if anyFound then 1 else 0))
    else TextCounted(t.(pdTexts := t.pdTexts + 1), InTextClasses(verdicts))
  }

  function ValuesOf(t: Values, trap: Trap, verdicts: seq<Verdict>): Values {
    if trap == IsTrap then t else ValuesCounted(t, verdicts)
  }

  function RowOf(
    t: Tally, trap: Trap, anyFound: bool, extras: seq<Extra>, wanted: set<int>, masked: set<int>,
    verdicts: seq<Verdict>): Tally
  {
    Tally(TextsOf(t.texts, trap, anyFound, verdicts), t.fp + |extras|, CharsCounted(t.chars, wanted, masked),
          ValuesOf(t.values, trap, verdicts))
  }

  function RowCounted(t: Tally, s: Scored): Tally {
    RowOf(t, s.trap, s.anyFound, s.extras, s.wanted, s.masked, s.verdicts)
  }

  function Labeled(t: Tally): Tally {
    t.(texts := t.texts.(labeled := t.texts.labeled + 1))
  }

  function Skipped(t: Tally): Tally {
    t.(texts := t.texts.(skipped := t.texts.skipped + 1))
  }

  function Counted(rows: seq<Scored>): Tally {
    if rows == [] then ZERO
    else
      var t, s := Counted(rows[..|rows| - 1]), rows[|rows| - 1];
      if s.trap == Unlabelled then Skipped(t) else RowCounted(Labeled(t), s)
  }

  function ScoreAll(ev: Evaluator, rows: seq<GoldRow>, byId: FindingsById): seq<Scored> {
    seq(|rows|, i requires 0 <= i < |rows| => Score(ev, rows[i], FindingsFor(byId, rows[i].id)))
  }

  /** The mutable counters. */
  class Metrics {
    var labeled: nat
    var skipped: nat
    var traps: nat
    var trapFp: nat
    var pdTexts: nat
    var fnText: nat
    var perfectText: nat
    var classes: Counter
    var notInText: nat
    var fp: nat
    var expectedChars: nat
    var expectedMasked: nat
    var maskedChars: nat
    var overmask: nat
    var byType: map<string, Counter>

    ghost function TextsView(): TextCounts
      reads `labeled, `skipped, `traps, `trapFp, `pdTexts, `fnText, `perfectText
    {
      TextCounts(labeled, skipped, traps, trapFp, pdTexts, fnText, perfectText)
    }

    ghost function CharsView(): Chars
      reads `expectedChars, `expectedMasked, `maskedChars, `overmask
    {
      Chars(expectedChars, expectedMasked, maskedChars, overmask)
    }

    ghost function ValuesView(): Values
      reads `classes, `notInText, `byType
    {
      Values(classes, notInText, byType)
    }

    ghost function View(): Tally
      reads this
    {
      Tally(TextsView(), fp, CharsView(), ValuesView())
    }

    constructor ()
      ensures View() == ZERO
    {
      labeled, skipped, traps, trapFp, pdTexts, fnText, perfectText := 0, 0, 0, 0, 0, 0, 0;
      classes, notInText, fp, byType := map[], 0, 0, map[];
      expectedChars, expectedMasked, maskedChars, overmask := 0, 0, 0, 0;
    }

    method CountChars(ev: Evaluator, row: GoldRow, findings: seq<Finding>)
      modifies `expectedChars, `expectedMasked, `maskedChars, `overmask
      ensures CharsView() == CharsCounted(old(CharsView()), WantedIn(ev, row), MaskedIn(ev, row, findings))
      ensures CharsBalance(old(CharsView())) ==> CharsBalance(CharsView())
    {
      var masked := MaskedIn(ev, row, findings);
      var wanted := WantedIn(ev, row);
      SplitSet(wanted, masked);
      expectedChars := expectedChars + |wanted|;
      expectedMasked := expectedMasked + |wanted * masked|;
      maskedChars := maskedChars + |masked|;
      overmask := overmask + |masked - wanted|;
    }

    method CountValues(ev: Evaluator, row: GoldRow, findings: seq<Finding>, ghost verdicts: seq<Verdict>)
      requires verdicts == VerdictsOf(ev, row, findings)
      modifies `classes, `notInText, `byType, `fnText, `perfectText
      ensures ValuesView() == ValuesCounted(old(ValuesView()), verdicts)
      ensures TextsView() == TextCounted(old(TextsView()), InTextClasses(verdicts))
    {
      var inText := CountEach(ev, row, findings, verdicts);
      if AllAre(inText, FN) {
        fnText := fnText + 1;
      }
      if AllAre(inText, TP) {
        perfectText := perfectText + 1;
      }
    }

    /** The loop of _count_values: the classes of the values that are in the text, in order. */
    method CountEach(ev: Evaluator, row: GoldRow, findings: seq<Finding>, ghost verdicts: seq<Verdict>)
      returns (inText: seq<Class>)
      requires verdicts == VerdictsOf(ev, row, findings)
      modifies `classes, `notInText, `byType
      ensures ValuesView() == ValuesCounted(old(ValuesView()), verdicts)
      ensures inText == InTextClasses(verdicts)
    {
      inText := [];
      for k := 0 to |row.expected|
        invariant ValuesView() == ValuesCounted(old(ValuesView()), verdicts[..k])
        invariant inText == InTextClasses(verdicts[..k])
      {
        var v := Judge(ev, row, k, findings);
        VerdictStep(old(ValuesView()), verdicts, k);
        if v.class_ == NOT_IN_TEXT {
          notInText := notInText + 1;
        } else {
          inText := inText + [v.class_];
          classes := Bump(classes, v.class_);
          byType := byType[v.pdType := Bump(OfType(byType, v.pdType), v.class_)];
        }
      }
      assert verdicts[..|verdicts|] == verdicts;
    }

    method CountRow(ev: Evaluator, row: GoldRow, findings: seq<Finding>)
      modifies `traps, `trapFp, `pdTexts, `classes, `notInText, `byType, `fnText, `perfectText, `fp,
        `expectedChars, `expectedMasked, `maskedChars, `overmask
      ensures View()
           == RowOf(old(View()), row.trap, findings != [], ExtraSpans(row, findings), WantedIn(ev, row),
                    MaskedIn(ev, row, findings), VerdictsOf(ev, row, findings))
    {
      CountSpans(ev, row, findings);
      assert TextsView() == old(TextsView()) && ValuesView() == old(ValuesView());
      CountText(ev, row, findings);
    }

    /** The first half of _count_row: what the spans alone tell. */
    method CountSpans(ev: Evaluator, row: GoldRow, findings: seq<Finding>)
      modifies `fp, `expectedChars, `expectedMasked, `maskedChars, `overmask
      ensures fp == old(fp) + |ExtraSpans(row, findings)|
      ensures CharsView() == CharsCounted(old(CharsView()), WantedIn(ev, row), MaskedIn(ev, row, findings))
    {
      fp := fp + |ExtraSpans(row, findings)|;
      CountChars(ev, row, findings);
    }

    /** The rest of _count_row: traps end early. */
    method CountText(ev: Evaluator, row: GoldRow, findings: seq<Finding>)
      modifies `traps, `trapFp, `pdTexts, `classes, `notInText, `byType, `fnText, `perfectText
      ensures TextsView() == TextsOf(old(TextsView()), row.trap, findings != [], VerdictsOf(ev, row, findings))
      ensures ValuesView() == ValuesOf(old(ValuesView()), row.trap, VerdictsOf(ev, row, findings))
    {
      if row.trap == IsTrap {
        traps := traps + 1;
        trapFp := trapFp + (if findings != [] then 1 else 0);
        return;
      }
      pdTexts := pdTexts + 1;
      CountValues(ev, row, findings, VerdictsOf(ev, row, findings));
    }

    /** One round of compute_metrics. */
    method CountOne(ev: Evaluator, row: GoldRow, findings: seq<Finding>)
      modifies this
      ensures View()
           == if row.trap == Unlabelled then Skipped(old(View()))
              else RowCounted(Labeled(old(View())), Score(ev, row, findings))
    {
      if row.trap == Unlabelled {
        skipped := skipped + 1;
        return;
      }
      labeled := labeled + 1;
      assert View() == Labeled(old(View()));
      ScoredParts(ev, row, findings);
      CountRow(ev, row, findings);
    }
  }

  lemma ScoredParts(ev: Evaluator, row: GoldRow, findings: seq<Finding>)
    ensures var s := Score(ev, row, findings);
      && s.id == row.id && s.text == row.text && s.trap == row.trap && (s.anyFound <==> findings != [])
      && s.extras == ExtraSpans(row, findings)
      && s.wanted == WantedIn(ev, row) && s.masked == MaskedIn(ev, row, findings)
      && s.verdicts == VerdictsOf(ev, row, findings)
  {
  }

  /** classify_value for the k-th expected value. */
  method Judge(ev: Evaluator, row: GoldRow, k: nat, findings: seq<Finding>) returns (v: Verdict)
    requires k < |row.expected|
    ensures v == VerdictsOf(ev, row, findings)[k]
  {
    var e := row.expected[k];
    v := Verdict(e.pdType, e.value, ev.Classify(row.text, e.value, e.pdType, findings),
                 FoundText(row.text, e.value, findings));
  }

  lemma PrefixStep<T>(xs: seq<T>, k: nat)
    requires k < |xs|
    ensures xs[..k + 1] != [] && xs[..k + 1][..|xs[..k + 1]| - 1] == xs[..k] && xs[..k + 1][|xs[..k + 1]| - 1] == xs[k]
  {
  }

  lemma VerdictStep(t: Values, verdicts: seq<Verdict>, k: nat)
    requires k < |verdicts|
    ensures ValuesCounted(t, verdicts[..k + 1]) == ValueCounted(ValuesCounted(t, verdicts[..k]), verdicts[k])
    ensures InTextClasses(verdicts[..k + 1])
         == InTextClasses(verdicts[..k]) + (if verdicts[k].class_ == NOT_IN_TEXT then [] else [verdicts[k].class_])
  {
    PrefixStep(verdicts, k);
  }

  lemma RowStep(rows: seq<Scored>, n: nat)
    requires n < |rows|
    ensures var t, s := Counted(rows[..n]), rows[n];
      Counted(rows[..n + 1])
        == if s.trap == Unlabelled then Skipped(t) else RowCounted(Labeled(t), s)
  {
    PrefixStep(rows, n);
  }

  /** What one round of compute_metrics has to add, in the terms of the row itself. */
  lemma RoundAdds(ev: Evaluator, rows: seq<GoldRow>, byId: FindingsById, n: nat)
    requires n < |rows|
    ensures var scored := ScoreAll(ev, rows, byId); var t := Counted(scored[..n]);
      Counted(scored[..n + 1])
        == if rows[n].trap == Unlabelled then Skipped(t)
           else RowCounted(Labeled(t), Score(ev, rows[n], FindingsFor(byId, rows[n].id)))
  {
    RowStep(ScoreAll(ev, rows, byId), n);
    ScoredParts(ev, rows[n], FindingsFor(byId, rows[n].id));
  }

  method ComputeMetrics(ev: Evaluator, rows: seq<GoldRow>, byId: FindingsById) returns (m: Metrics)
    ensures fresh(m) && m.View() == Counted(ScoreAll(ev, rows, byId))
  {
    m := new Metrics();
    ghost var scored := ScoreAll(ev, rows, byId);
    for n := 0 to |rows|
      invariant fresh(m) && m.View() == Counted(scored[..n])
    {
      RoundAdds(ev, rows, byId, n);
      m.CountOne(ev, rows[n], FindingsFor(byId, rows[n].id));
    }
    assert scored[..|scored|] == scored;
  }

  // ---- the errors ----

  datatype ErrorKind = FnValue | Partial | WrongType | NotInText | FpValue | TrapFp

  datatype ErrorRow = ErrorRow(
    id: string, kind: ErrorKind, pdType: string, expected: string, found: string, text: string)

  function KindOf(c: Class): ErrorKind {
    match c
    case NOT_IN_TEXT => NotInText
    case PARTIAL => Partial
    case WRONG_TYPE => WrongType
    case _ => FnValue
  }

  function ValueErrors(id: string, text: string, verdicts: seq<Verdict>): seq<ErrorRow> {
    if verdicts == [] then []
    else
      var v := verdicts[|verdicts| - 1];
      ValueErrors(id, text, verdicts[..|verdicts| - 1])
      + (if v.class_ == TP then [] else [ErrorRow(id, KindOf(v.class_), v.pdType, v.value, v.found, text)])
  }

  function ExtraErrors(id: string, text: string, kind: ErrorKind, extras: seq<Extra>): seq<ErrorRow> {
    if extras == [] then []
    else
      var x := extras[|extras| - 1];
      ExtraErrors(id, text, kind, extras[..|extras| - 1])
      + [ErrorRow(id, kind, x.pdType, "", Slice(text, x.span.lo, x.span.hi), text)]
  }

  function ExtraKind(trap: Trap): ErrorKind {
    if trap == IsTrap then TrapFp else FpValue
  }

  function Errors(rows: seq<Scored>): seq<ErrorRow> {
    if rows == [] then []
    else
      var before, s := Errors(rows[..|rows| - 1]), rows[|rows| - 1];
      if s.trap == Unlabelled then before
      else if s.trap == IsTrap then before + ExtraErrors(s.id, s.text, TrapFp, s.extras)
      else before + ExtraErrors(s.id, s.text, FpValue, s.extras) + ValueErrors(s.id, s.text, s.verdicts)
  }

  method CollectValueErrors(ev: Evaluator, row: GoldRow, findings: seq<Finding>, ghost verdicts: seq<Verdict>)
    returns (errors: seq<ErrorRow>)
    requires verdicts == VerdictsOf(ev, row, findings)
    ensures errors == ValueErrors(row.id, row.text, verdicts)
  {
    errors := [];
    for k := 0 to |row.expected|
      invariant errors == ValueErrors(row.id, row.text, verdicts[..k])
    {
      var v := Judge(ev, row, k, findings);
      var cls := v.class_;
      PrefixStep(verdicts, k);
      if cls == TP {
        continue;
      }
      var kind := if cls == NOT_IN_TEXT || cls == PARTIAL || cls == WRONG_TYPE then KindOf(cls) else FnValue;
      errors := errors + [ErrorRow(row.id, kind, v.pdType, v.value, v.found, row.text)];
    }
    assert verdicts[..|verdicts|] == verdicts;
  }

  method CollectErrors(ev: Evaluator, rows: seq<GoldRow>, byId: FindingsById) returns (errors: seq<ErrorRow>)
    ensures errors == Errors(ScoreAll(ev, rows, byId))
  {
    errors := [];
    ghost var scored := ScoreAll(ev, rows, byId);
    for n := 0 to |rows|
      invariant errors == Errors(scored[..n])
    {
      var row := rows[n];
      PrefixStep(scored, n);
      if row.trap == Unlabelled {
        continue;
      }
      var findings := FindingsFor(byId, row.id);
      var kind := ExtraKind(row.trap);
      var extras := ExtraSpans(row, findings);
      ScoredParts(ev, row, findings);
      ghost var before := errors;
      for k := 0 to |extras|
        invariant errors == before + ExtraErrors(row.id, row.text, kind, extras[..k])
      {
        PrefixStep(extras, k);
        var x := extras[k];
        errors := errors + [ErrorRow(row.id, kind, x.pdType, "", Slice(row.text, x.span.lo, x.span.hi), row.text)];
      }
      assert extras[..|extras|] == extras;
      if row.trap == HasPd {
        var more := CollectValueErrors(ev, row, findings, scored[n].verdicts);
        errors := errors + more;
      }
    }
    assert scored[..|scored|] == scored;
  }
}
