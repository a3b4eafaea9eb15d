/** The check digit of card numbers (ISO/IEC 7812-1, Annex B): app/core/detectors/base.py and
    scripts/format_matrix.py each compute it. */
module Luhn {
  import opened Wrappers

  predicate IsDigit(c: char) {
    '0' <= c <= '9'
  }

  predicate Digits(s: string) {
    forall i :: 0 <= i < |s| ==> IsDigit(s[i])
  }

  function Value(c: char): int {
    c as int - 48
  }

  function Weighted(digit: int, doubled: bool): int {
    if !doubled then digit else if 2 * digit > 9 then 2 * digit - 9 else 2 * digit
  }

  /** The weighted sum from the right; `doubled` says whether the rightmost digit is doubled. */
  function LuhnSum(s: string, doubled: bool): int {
    if s == "" then 0
    else Weighted(Value(s[|s| - 1]), doubled) + LuhnSum(s[..|s| - 1], !doubled)
  }

  predicate Valid(s: string) {
    LuhnSum(s, false) % 10 == 0
  }

  predicate Odd(n: nat) {
    n % 2 == 1
  }

  lemma {:induction false} LuhnSumOfConcat(a: string, b: string, doubled: bool)
    ensures LuhnSum(a + b, doubled) == LuhnSum(b, doubled) + LuhnSum(a, doubled != Odd(|b|))
    decreases |b|
  {
    if b == "" {
      assert a + b == a;
    } else {
      var n := |b| - 1;
      assert (a + b)[..|a + b| - 1] == a + b[..n];
      LuhnSumOfConcat(a, b[..n], !doubled);
    }
  }

  lemma LuhnSumOfDigit(c: char, doubled: bool)
    ensures LuhnSum([c], doubled) == Weighted(Value(c), doubled)
  {
    assert [c][..0] == "";
  }

  /** One digit, seen between what is left and what is right of it. */
  lemma LuhnSumAround(left: string, c: char, right: string, doubled: bool)
    ensures LuhnSum(left + [c] + right, doubled)
         == LuhnSum(right, doubled) + Weighted(Value(c), doubled != Odd(|right|))
            + LuhnSum(left, doubled == Odd(|right|))
  {
    LuhnSumOfConcat(left + [c], right, doubled);
    LuhnSumOfConcat(left, [c], doubled != Odd(|right|));
    LuhnSumOfDigit(c, doubled != Odd(|right|));
  }

  function DigitSum(n: int): int {
    n / 10 + n % 10
  }

  /** The standard's sum: the digits, every second one from the right replaced by the digit sum of its double. */
  function StandardSum(s: string, n: nat): int
    requires n <= |s|
  {
    if n == 0 then 0
    else
      var d := Value(s[n - 1]);
      StandardSum(s, n - 1) + if (|s| - n) % 2 == 0 then d else DigitSum(2 * d)
  }

  lemma {:induction false} LuhnSumIsStandard(s: string, n: nat)
    requires Digits(s) && n <= |s|
    ensures StandardSum(s, n) == LuhnSum(s[..n], Odd(|s| - n))
  {
    if n > 0 {
      assert s[..n][..n - 1] == s[..n - 1] && IsDigit(s[n - 1]);
      LuhnSumIsStandard(s, n - 1);
      Parity(|s| - n);
    }
  }

  /** The digit at distance `idx` from the right. */
  lemma OneMoreDigit(s: string, idx: nat)
    requires idx < |s|
    ensures LuhnSum(s[|s| - 1 - idx..], false)
         == LuhnSum(s[|s| - idx..], false) + Weighted(Value(s[|s| - 1 - idx]), Odd(idx))
  {
    var rest := s[|s| - idx..];
    LuhnSumAround("", s[|s| - 1 - idx], rest, false);
    assert "" + [s[|s| - 1 - idx]] + rest == s[|s| - 1 - idx..];
  }

  /** detectors/base.py */
  method LuhnValid(number: string) returns (ok: bool)
    ensures ok <==> Valid(number)
    ensures Digits(number) ==> (ok <==> StandardSum(number, |number|) % 10 == 0)
  {
    var total := 0;
    var n := |number|;
    if Digits(number) {
      LuhnSumIsStandard(number, n);
      assert number[..n] == number;
    }
    for idx := 0 to n
      invariant total == LuhnSum(number[n - idx..], false)
    {
      var digit := number[n - 1 - idx] as int - 48;
      if idx % 2 == 1 {
        digit := digit * 2;
        if digit > 9 {
          digit := digit - 9;
        }
      }
      OneMoreDigit(number, idx);
      total := total + digit;
    }
    assert number[0..] == number;
    return total % 10 == 0;
  }

  function DigitChar(d: int): char
    requires 0 <= d <= 9
  {
    (d + 48) as char
  }

  /** What int() makes of one character: a decimal digit of any script, or an error. */
  ghost predicate ReadsDigits(toInt: char -> Option<int>) {
    && (forall c :: IsDigit(c) ==> toInt(c) == Some(Value(c)))
    && (forall c :: toInt(c).Some? ==> 0 <= toInt(c).value <= 9)
  }

  /** The number in ASCII digits. */
  function InAscii(number: string, toInt: char -> Option<int>): string {
    seq(|number|, i requires 0 <= i < |number| =>
      if toInt(number[i]).Some? && 0 <= toInt(number[i]).value <= 9 then DigitChar(toInt(number[i]).value)
      else number[i])
  }

  /** scripts/format_matrix.py: None where int() raises. */
  method LuhnOk(number: string, toInt: char -> Option<int>) returns (ok: Option<bool>)
    requires ReadsDigits(toInt)
    ensures ok == None <==> exists i :: 0 <= i < |number| && toInt(number[i]) == None
    ensures ok.Some? ==> (ok.value <==> Valid(InAscii(number, toInt)))
  {
    ghost var ascii := InAscii(number, toInt);
    var total := 0;
    var n := |number|;
    for idx := 0 to n
      invariant total == LuhnSum(ascii[n - idx..], false)
      invariant forall i :: n - idx <= i < n ==> toInt(number[i]).Some?
    {
      var value := toInt(number[n - 1 - idx]);
      if value == None {
        return None;
      }
      var digit := value.value * (if idx % 2 != 0 then 2 else 1);
      OneMoreDigit(ascii, idx);
      total := total + (if digit > 9 then digit - 9 else digit);
    }
    assert ascii[0..] == ascii;
    return Some(total % 10 == 0);
  }

  /** On ASCII digits the two implementations agree. */
  lemma AsciiIsItself(number: string, toInt: char -> Option<int>)
    requires Digits(number) && ReadsDigits(toInt)
    ensures InAscii(number, toInt) == number
    ensures forall i :: 0 <= i < |number| ==> toInt(number[i]).Some?
  {
    forall i | 0 <= i < |number| ensures InAscii(number, toInt)[i] == number[i] {
      assert IsDigit(number[i]);
    }
  }

  /** Misreading one digit is always noticed. */
  lemma OneDigitChangeIsCaught(left: string, c: char, d: char, right: string)
    requires IsDigit(c) && IsDigit(d) && c != d
    requires Valid(left + [c] + right)
    ensures !Valid(left + [d] + right)
  {
    LuhnSumAround(left, c, right, false);
    LuhnSumAround(left, d, right, false);
    WeightsDiffer(Value(c), Value(d), false != Odd(|right|));
    SumsShiftTogether(LuhnSum(left + [c] + right, false), LuhnSum(left + [d] + right, false));
  }

  lemma WeightsDiffer(c: int, d: int, doubled: bool)
    requires 0 <= c <= 9 && 0 <= d <= 9 && c != d
    ensures 0 <= Weighted(c, doubled) <= 9 && 0 <= Weighted(d, doubled) <= 9
    ensures Weighted(c, doubled) != Weighted(d, doubled)
  {
  }

  /** Exchanging two neighbouring digits is noticed, unless they are 0 and 9. */
  lemma TranspositionIsCaughtUnlessZeroNine(left: string, c: char, d: char, right: string)
    requires IsDigit(c) && IsDigit(d) && c != d
    requires Valid(left + [c, d] + right)
    ensures Valid(left + [d, c] + right) <==> {c, d} == {'0', '9'}
  {
    LuhnSumOfTwo(left, c, d, right);
    LuhnSumOfTwo(left, d, c, right);
    TranspositionShift(Value(c), Value(d), Odd(|right|));
    SumsShiftTogether(LuhnSum(left + [c, d] + right, false), LuhnSum(left + [d, c] + right, false));
    ZeroNine(c, d);
  }

  lemma ZeroNine(c: char, d: char)
    requires c != d
    ensures {c, d} == {'0', '9'} <==> (Value(c) == 0 && Value(d) == 9) || (Value(c) == 9 && Value(d) == 0)
  {
    assert c in {c, d} && d in {c, d} && '0' in {'0', '9'} && '9' in {'0', '9'};
  }

  lemma SumsShiftTogether(a: int, b: int)
    requires a % 10 == 0 && -10 < a - b < 10
    ensures b % 10 == 0 <==> a == b
  {
  }

  lemma LuhnSumOfTwo(left: string, c: char, d: char, right: string)
    ensures LuhnSum(left + [c, d] + right, false)
         == LuhnSum(right, false) + Weighted(Value(d), Odd(|right|)) + Weighted(Value(c), !Odd(|right|))
            + LuhnSum(left, Odd(|right|))
  {
    assert left + [c, d] + right == left + [c] + ([d] + right);
    Parity(|right|);
    LuhnSumAround(left, c, [d] + right, false);
    LuhnSumOfHead(d, right);
  }

  lemma LuhnSumOfHead(d: char, right: string)
    ensures LuhnSum([d] + right, false) == LuhnSum(right, false) + Weighted(Value(d), Odd(|right|))
  {
    assert [d] + right == "" + [d] + right;
    LuhnSumAround("", d, right, false);
  }

  lemma Parity(n: nat)
    ensures Odd(n + 1) <==> !Odd(n)
  {
  }

  lemma TranspositionShift(c: int, d: int, doubled: bool)
    requires 0 <= c <= 9 && 0 <= d <= 9 && c != d
    ensures var shift := Weighted(c, doubled) + Weighted(d, !doubled) - Weighted(d, doubled) - Weighted(c, !doubled);
      && -10 < shift < 10
      && (shift == 0 <==> (c == 0 && d == 9) || (c == 9 && d == 0))
  {
  }

  function CheckDigit(prefix: string): int {
    (10 - LuhnSum(prefix, true) % 10) % 10
  }

  lemma Complement(sum: int, digit: int)
    requires 0 <= digit <= 9
    ensures (digit + sum) % 10 == 0 <==> digit == (10 - sum % 10) % 10
  {
    assert sum == 10 * (sum / 10) + sum % 10;
  }

  /** Every prefix has exactly one check digit. */
  lemma ExactlyOneCheckDigit(prefix: string, c: char)
    requires IsDigit(c)
    ensures Valid(prefix + [c]) <==> Value(c) == CheckDigit(prefix)
  {
    LuhnSumAround(prefix, c, "", false);
    assert prefix + [c] + "" == prefix + [c];
    Complement(LuhnSum(prefix, true), Value(c));
  }

  /** The first of the digits from `d` on that makes the number valid. */
  function FirstValid(prefix: string, d: int): (card: string)
    requires 0 <= d <= CheckDigit(prefix)
    ensures card == prefix + [DigitChar(CheckDigit(prefix))]
    decreases CheckDigit(prefix) - d
  {
    ExactlyOneCheckDigit(prefix, DigitChar(d));
    if Valid(prefix + [DigitChar(d)]) then prefix + [DigitChar(d)] else FirstValid(prefix, d + 1)
  }

  /** The search through the ten digits always finds one, and the number it gives is valid. */
  function MakeCard(prefix: string): (card: string)
    ensures Valid(card) && |card| == |prefix| + 1 && prefix <= card
  {
    ExactlyOneCheckDigit(prefix, DigitChar(CheckDigit(prefix)));
    FirstValid(prefix, 0)
  }
}
