/** scripts/eval_gold.py: how the numbers of a report hang together. */
module GoldLaws {
  import opened GoldMatching
  import opened GoldMetrics
  import opened Texts

  function CountKind(errors: seq<ErrorRow>, kind: ErrorKind): nat {
    if errors == [] then 0
    else (if errors[|errors| - 1].kind == kind then 1 else 0) + CountKind(errors[..|errors| - 1], kind)
  }

  /** The counters and the error list tell the same story. */
  ghost predicate Agree(t: Tally, errors: seq<ErrorRow>) {
    && t.fp == CountKind(errors, FpValue) + CountKind(errors, TrapFp)
    && ValuesAgree(t.values, errors)
  }

  ghost predicate ValuesAgree(t: Values, errors: seq<ErrorRow>) {
    && At(t.classes, FN) == CountKind(errors, FnValue)
    && At(t.classes, PARTIAL) == CountKind(errors, Partial)
    && At(t.classes, WRONG_TYPE) == CountKind(errors, WrongType)
    && t.notInText == CountKind(errors, NotInText)
  }

  lemma CountOneMore(errors: seq<ErrorRow>, e: ErrorRow)
    ensures forall kind :: CountKind(errors + [e], kind) == CountKind(errors, kind) + if e.kind == kind then 1 else 0
  {
    assert (errors + [e])[..|errors|] == errors;
  }

  lemma {:induction false} ExtrasAgree(
    t: Tally, errors: seq<ErrorRow>, id: string, text: string, kind: ErrorKind, extras: seq<Extra>)
    requires Agree(t, errors) && (kind == FpValue || kind == TrapFp)
    ensures Agree(t.(fp := t.fp + |extras|), errors + ExtraErrors(id, text, kind, extras))
    decreases |extras|
  {
    if extras == [] {
      assert errors + [] == errors;
    } else {
      var fewer := extras[..|extras| - 1];
      var x := extras[|extras| - 1];
      var last := ErrorRow(id, kind, x.pdType, "", Slice(text, x.span.lo, x.span.hi), text);
      ExtrasAgree(t, errors, id, text, kind, fewer);
      CountOneMore(errors + ExtraErrors(id, text, kind, fewer), last);
      Associate(errors, ExtraErrors(id, text, kind, fewer), [last]);
    }
  }

  lemma ValueAgrees(t: Values, errors: seq<ErrorRow>, e: ErrorRow, v: Verdict)
    requires ValuesAgree(t, errors) && v.class_ != TP && e.kind == KindOf(v.class_)
    ensures ValuesAgree(ValueCounted(t, v), errors + [e])
    ensures CountKind(errors + [e], FpValue) == CountKind(errors, FpValue)
    ensures CountKind(errors + [e], TrapFp) == CountKind(errors, TrapFp)
  {
    CountOneMore(errors, e);
  }

  lemma {:induction false} AllValuesAgree(
    t: Values, errors: seq<ErrorRow>, id: string, text: string, verdicts: seq<Verdict>)
    requires ValuesAgree(t, errors)
    ensures var all := errors + ValueErrors(id, text, verdicts);
      && ValuesAgree(ValuesCounted(t, verdicts), all)
      && CountKind(all, FpValue) == CountKind(errors, FpValue)
      && CountKind(all, TrapFp) == CountKind(errors, TrapFp)
    decreases |verdicts|
  {
    if verdicts == [] {
      assert errors + [] == errors;
    } else {
      var fewer, v := verdicts[..|verdicts| - 1], verdicts[|verdicts| - 1];
      AllValuesAgree(t, errors, id, text, fewer);
      if v.class_ == TP {
        assert ValueErrors(id, text, fewer) + [] == ValueErrors(id, text, fewer);
      } else {
        var last := ErrorRow(id, KindOf(v.class_), v.pdType, v.value, v.found, text);
        ValueAgrees(ValuesCounted(t, fewer), errors + ValueErrors(id, text, fewer), last, v);
        Associate(errors, ValueErrors(id, text, fewer), [last]);
      }
    }
  }

  lemma RowAgrees(t: Tally, errors: seq<ErrorRow>, s: Scored)
    requires Agree(t, errors) && s.trap != Unlabelled
    ensures s.trap == IsTrap ==> Agree(RowCounted(t, s), errors + ExtraErrors(s.id, s.text, TrapFp, s.extras))
    ensures s.trap == HasPd ==>
      Agree(RowCounted(t, s),
            errors + ExtraErrors(s.id, s.text, FpValue, s.extras) + ValueErrors(s.id, s.text, s.verdicts))
  {
    var first := ExtraErrors(s.id, s.text, ExtraKind(s.trap), s.extras);
    ExtrasAgree(t, errors, s.id, s.text, ExtraKind(s.trap), s.extras);
    if s.trap == HasPd {
      AllValuesAgree(t.values, errors + first, s.id, s.text, s.verdicts);
    }
  }

  /** For every labelled set the two traversals agree: as many FP_VALUE and TRAP_FP errors as false positives,
      as many FN_VALUE, PARTIAL, WRONG_TYPE and NOT_IN_TEXT errors as their counters say. */
  lemma {:induction false} CountersMatchErrors(rows: seq<Scored>)
    ensures Agree(Counted(rows), Errors(rows))
    decreases |rows|
  {
    if rows != [] {
      var fewer, s := rows[..|rows| - 1], rows[|rows| - 1];
      CountersMatchErrors(fewer);
      if s.trap != Unlabelled {
        var t := Counted(fewer);
        RowAgrees(Labeled(t), Errors(fewer), s);
      }
    }
  }

  // ---- conservation ----

  function ValueCount(t: Values): nat {
    At(t.classes, TP) + At(t.classes, WRONG_TYPE) + At(t.classes, PARTIAL) + At(t.classes, FN)
  }

  ghost predicate TextsBalance(t: TextCounts, rows: nat) {
    && t.labeled + t.skipped == rows
    && t.labeled == t.traps + t.pdTexts
    && t.trapFp <= t.traps
    && t.fnText + t.perfectText <= t.pdTexts
  }

  lemma CharsStayBalanced(c: Chars, wanted: set<int>, masked: set<int>)
    requires CharsBalance(c)
    ensures CharsBalance(CharsCounted(c, wanted, masked))
  {
    SplitSet(wanted, masked);
  }

  lemma TextsStayBalanced(t: TextCounts, rows: nat, trap: Trap, anyFound: bool, verdicts: seq<Verdict>)
    requires TextsBalance(t, rows)
    ensures TextsBalance(TextsOf(t.(labeled := t.labeled + 1), trap, anyFound, verdicts), rows + 1)
  {
    NotBoth(InTextClasses(verdicts));
  }

  /** The character counters alone. */
  ghost function CharsOf(rows: seq<Scored>): Chars {
    if rows == [] then Chars(0, 0, 0, 0)
    else
      var before, s := CharsOf(rows[..|rows| - 1]), rows[|rows| - 1];
      if s.trap == Unlabelled then before else CharsCounted(before, s.wanted, s.masked)
  }

  lemma {:induction false} CharsOfBalance(rows: seq<Scored>)
    ensures CharsBalance(CharsOf(rows))
    decreases |rows|
  {
    if rows != [] {
      CharsOfBalance(rows[..|rows| - 1]);
      CharsStayBalanced(CharsOf(rows[..|rows| - 1]), rows[|rows| - 1].wanted, rows[|rows| - 1].masked);
    }
  }

  lemma {:induction false} CountedChars(rows: seq<Scored>)
    ensures Counted(rows).chars == CharsOf(rows)
    decreases |rows|
  {
    if rows != [] {
      CountedChars(rows[..|rows| - 1]);
    }
  }

  lemma {:induction false} CountedTexts(rows: seq<Scored>)
    ensures TextsBalance(Counted(rows).texts, |rows|)
    decreases |rows|
  {
    if rows != [] {
      var s, t := rows[|rows| - 1], Counted(rows[..|rows| - 1]);
      CountedTexts(rows[..|rows| - 1]);
      TextsStayBalanced(t.texts, |rows| - 1, s.trap, s.anyFound, s.verdicts);
    }
  }

  /** Rows are labelled or skipped, labelled ones are traps or texts with data, and masked characters are
      expected or too many. */
  lemma ReportBalances(rows: seq<Scored>)
    ensures TextsBalance(Counted(rows).texts, |rows|)
    ensures CharsBalance(Counted(rows).chars)
  {
    CountedTexts(rows);
    CountedChars(rows);
    CharsOfBalance(rows);
  }

  lemma NotBoth(classes: seq<Class>)
    ensures !(AllAre(classes, FN) && AllAre(classes, TP))
  {
    if classes != [] {
      assert classes[0] in classes;
    }
  }

  // ---- per-type counters ----

  /** How many values of class `c` the listed types have. */
  ghost function SumOver(types: seq<string>, byType: map<string, Counter>, c: Class): nat {
    if types == [] then 0 else At(OfType(byType, types[0]), c) + SumOver(types[1..], byType, c)
  }

  ghost predicate Distinct(types: seq<string>) {
    forall i, j :: 0 <= i < j < |types| ==> types[i] != types[j]
  }

  lemma DistinctTail(types: seq<string>, t: string)
    requires Distinct(types) && types != []
    ensures Distinct(types[1..])
    ensures t in types <==> t == types[0] || t in types[1..]
    ensures !(t == types[0] && t in types[1..])
  {
    assert types == [types[0]] + types[1..];
    if t in types[1..] {
      var i :| 0 <= i < |types[1..]| && types[1..][i] == t;
      assert types[0] != types[i + 1];
    }
  }

  lemma BumpedAt(byType: map<string, Counter>, name: string, t: string, k: Class, c: Class)
    ensures At(OfType(byType[t := Bump(OfType(byType, t), k)], name), c)
         == At(OfType(byType, name), c) + if name == t && k == c then 1 else 0
  {
  }

  lemma {:induction false} SumAfterBump(types: seq<string>, byType: map<string, Counter>, t: string, k: Class, c: Class)
    requires Distinct(types)
    ensures SumOver(types, byType[t := Bump(OfType(byType, t), k)], c)
         == SumOver(types, byType, c) + if t in types && k == c then 1 else 0
  {
    if types != [] {
      DistinctTail(types, t);
      BumpedAt(byType, types[0], t, k, c);
      SumAfterBump(types[1..], byType, t, k, c);
    }
  }

  /** Under any list of distinct types that names every type counted, the sums per class are the classes. */
  ghost predicate PerTypeAddsUp(t: Values) {
    forall types, c :: Distinct(types) && (forall name :: name in t.byType ==> name in types) ==>
      SumOver(types, t.byType, c) == At(t.classes, c)
  }

  lemma ValueAddsUp(t: Values, v: Verdict)
    requires PerTypeAddsUp(t)
    ensures PerTypeAddsUp(ValueCounted(t, v))
  {
    var after := ValueCounted(t, v);
    forall types, c | Distinct(types) && (forall name :: name in after.byType ==> name in types)
      ensures SumOver(types, after.byType, c) == At(after.classes, c)
    {
      assert forall name :: name in t.byType ==> name in after.byType;
      assert SumOver(types, t.byType, c) == At(t.classes, c);
      SumAfterBump(types, t.byType, v.pdType, v.class_, c);
    }
  }

  lemma {:induction false} ValuesAddUp(t: Values, verdicts: seq<Verdict>)
    requires PerTypeAddsUp(t)
    ensures PerTypeAddsUp(ValuesCounted(t, verdicts))
    decreases |verdicts|
  {
    if verdicts != [] {
      ValuesAddUp(t, verdicts[..|verdicts| - 1]);
      ValueAddsUp(ValuesCounted(t, verdicts[..|verdicts| - 1]), verdicts[|verdicts| - 1]);
    }
  }

  lemma {:induction false} SumOfNothing(types: seq<string>, c: Class)
    ensures SumOver(types, map[], c) == 0
  {
    if types != [] {
      SumOfNothing(types[1..], c);
    }
  }

  lemma {:induction false} TypesAddUp(rows: seq<Scored>)
    ensures PerTypeAddsUp(Counted(rows).values)
    decreases |rows|
  {
    if rows == [] {
      forall types, c ensures SumOver(types, ZERO.values.byType, c) == At(ZERO.values.classes, c) {
        SumOfNothing(types, c);
      }
    } else {
      var s, t := rows[|rows| - 1], Counted(rows[..|rows| - 1]);
      TypesAddUp(rows[..|rows| - 1]);
      if s.trap == HasPd {
        ValuesAddUp(t.values, s.verdicts);
      }
    }
  }

  // ---- ratios ----

  function Ratio(part: nat, whole: nat): real {
    if whole == 0 then 0.0 else (part as real) / (whole as real)
  }

  function Precision(t: Tally): real {
    var tp := At(t.values.classes, TP) + At(t.values.classes, WRONG_TYPE);
    Ratio(tp, tp + t.fp)
  }

  function Recall(t: Tally): real {
    Ratio(At(t.values.classes, TP), ValueCount(t.values))
  }

  function RecallAnyType(t: Tally): real {
    Ratio(At(t.values.classes, TP) + At(t.values.classes, WRONG_TYPE), ValueCount(t.values))
  }

  function RecallChars(t: Tally): real {
    Ratio(t.chars.expectedMasked, t.chars.expectedChars)
  }

  function OvermaskChars(t: Tally): real {
    Ratio(t.chars.overmask, t.chars.maskedChars)
  }

  lemma RatioInUnit(part: nat, whole: nat)
    requires part <= whole
    ensures 0.0 <= Ratio(part, whole) <= 1.0
  {
  }

  lemma RatioMonotone(a: nat, b: nat, whole: nat)
    requires a <= b
    ensures Ratio(a, whole) <= Ratio(b, whole)
  {
    if whole > 0 {
      DivideMonotone(a as real, b as real, whole as real);
    }
  }

  lemma DivideMonotone(a: real, b: real, c: real)
    requires a <= b && c > 0.0
    ensures a / c <= b / c
  {
    assert b / c - a / c == (b - a) / c;
  }

  /** The counts behind the ratios, and the ratios themselves. */
  lemma SharesOf(right: nat, other: nat, all: nat, fp: nat)
    requires right + other <= all
    ensures 0.0 <= Ratio(right + other, right + other + fp) <= 1.0
    ensures 0.0 <= Ratio(right, all) <= Ratio(right + other, all) <= 1.0
  {
    RatioInUnit(right + other, right + other + fp);
    RatioInUnit(right, all);
    RatioInUnit(right + other, all);
    RatioMonotone(right, right + other, all);
  }

  lemma TallyShares(t: Tally)
    requires CharsBalance(t.chars)
    ensures 0.0 <= Precision(t) <= 1.0
    ensures 0.0 <= Recall(t) <= RecallAnyType(t) <= 1.0
    ensures 0.0 <= RecallChars(t) <= 1.0 && 0.0 <= OvermaskChars(t) <= 1.0
  {
    SharesOf(At(t.values.classes, TP), At(t.values.classes, WRONG_TYPE), ValueCount(t.values), t.fp);
    RatioInUnit(t.chars.expectedMasked, t.chars.expectedChars);
    RatioInUnit(t.chars.overmask, t.chars.maskedChars);
  }

  /** Every ratio of a report is a share, and minding the type never raises recall. */
  lemma RatiosAreShares(rows: seq<Scored>)
    ensures var t := Counted(rows);
      && 0.0 <= Precision(t) <= 1.0
      && 0.0 <= Recall(t) <= RecallAnyType(t) <= 1.0
      && 0.0 <= RecallChars(t) <= 1.0
      && 0.0 <= OvermaskChars(t) <= 1.0
  {
    ReportBalances(rows);
    TallyShares(Counted(rows));
  }
}
