/** app/core/masking.py: the masking strategies and the splicing of masks into the text. */
module Masking {
  import opened Texts
  import opened Entities
  import opened Engine
  import opened Restoration
  import opened Synthetics

  datatype Strategy = Initials | Partial | Full | MaskedEmail | Token | Redact | Synthetic

  datatype MaskRule = MaskRule(strategy: Strategy, keepStart: nat, keepEnd: nat, mark: char)

  const DEFAULT_RULE := MaskRule(Full, 0, 0, '*')

  type Rules = map<PDType, MaskRule>

  datatype MaskResult = MaskResult(text: string, fragments: seq<Fragment>)

  /** [A-Za-zА-ЯЁа-яё] */
  predicate IsLetter(c: char) {
    || 'A' <= c <= 'Z' || 'a' <= c <= 'z'
    || '\U{0410}' <= c <= '\U{042F}' || c == '\U{0401}'
    || '\U{0430}' <= c <= '\U{044F}' || c == '\U{0451}'
  }

  /** The code points are the letters of the pattern. */
  lemma LettersAre(c: char)
    ensures IsLetter(c)
       <==> 'A' <= c <= 'Z' || 'a' <= c <= 'z' || 'А' <= c <= 'Я' || c == 'Ё' || 'а' <= c <= 'я' || c == 'ё'
  {
  }

  function LetterRun(s: string): (n: nat)
    ensures n <= |s|
    ensures s != "" && IsLetter(s[0]) ==> n > 0
  {
    if s == "" || !IsLetter(s[0]) then 0 else 1 + LetterRun(s[1..])
  }

  /** The maximal runs of letters, from left to right. */
  function Words(s: string): (words: seq<string>)
    ensures forall w :: w in words ==> w != ""
    decreases |s|
  {
    if s == "" then []
    else if IsLetter(s[0]) then [s[..LetterRun(s)]] + Words(s[LetterRun(s)..])
    else Words(s[1..])
  }

  function InitialsOf(words: seq<string>): string
    requires forall w :: w in words ==> w != ""
  {
    if words == [] then ""
    else
      assert words[0] in words && forall w :: w in words[1..] ==> w in words;
      [words[0][0], '.'] + (if |words| == 1 then "" else " " + InitialsOf(words[1..]))
  }

  function IndexOf(s: string, c: char): (at: nat)
    requires c in s
    ensures at < |s| && s[at] == c && c !in s[..at]
  {
    if s[0] == c then 0 else 1 + IndexOf(s[1..], c)
  }

  function Repeat(c: char, times: int): string {
    if times <= 0 then "" else [c] + Repeat(c, times - 1)
  }

  function HiddenEmail(span: string, c: char): string
    requires '@' in span
  {
    var at := IndexOf(span, '@');
    var local := span[..at];
    (if local == "" then "" else local[..1]) + Repeat(c, |local| - 1) + "@" + span[at + 1..]
  }

  function UpperName(t: PDType): string {
    match t
    case Fio => "FIO"
    case BirthDate => "BIRTH_DATE"
    case BirthPlace => "BIRTH_PLACE"
    case Passport => "PASSPORT"
    case Citizenship => "CITIZENSHIP"
    case PassportIssuer => "PASSPORT_ISSUER"
    case DepartmentCode => "DEPARTMENT_CODE"
    case PassportIssueDate => "PASSPORT_ISSUE_DATE"
    case DriverLicense => "DRIVER_LICENSE"
    case Address => "ADDRESS"
    case Email => "EMAIL"
    case Phone => "PHONE"
    case Inn => "INN"
    case CardNumber => "CARD_NUMBER"
    case CardCvv => "CVV"
    case CardPin => "PIN"
    case CardHolder => "CARD_HOLDER"
    case CardExpiry => "CARD_EXPIRY"
    case Date => "DATE"
    case Snils => "SNILS"
    case ForeignPassport => "FOREIGN_PASSPORT"
    case MilitaryId => "MILITARY_ID"
    case BirthCertificate => "BIRTH_CERTIFICATE"
  }

  lemma UpperNameIsTokenBody(t: PDType)
    ensures TokenBody(UpperName(t))
  {
    if t.Fio? || t.BirthDate? || t.BirthPlace? || t.Passport? || t.Citizenship? || t.PassportIssuer? {
      IdentityNames(t);
    } else if t.DepartmentCode? || t.PassportIssueDate? || t.DriverLicense? || t.Address? || t.Email? || t.Phone? {
      OfficeNames(t);
    } else if t.ForeignPassport? || t.MilitaryId? || t.BirthCertificate? || t.Snils? {
      PaperNames(t);
    } else {
      CardNames(t);
    }
  }

  lemma IdentityNames(t: PDType)
    requires t.Fio? || t.BirthDate? || t.BirthPlace? || t.Passport? || t.Citizenship? || t.PassportIssuer?
    ensures TokenBody(UpperName(t))
  {
  }

  lemma OfficeNames(t: PDType)
    requires t.DepartmentCode? || t.PassportIssueDate? || t.DriverLicense? || t.Address? || t.Email? || t.Phone?
    ensures TokenBody(UpperName(t))
  {
  }

  lemma PaperNames(t: PDType)
    requires t.ForeignPassport? || t.MilitaryId? || t.BirthCertificate? || t.Snils?
    ensures TokenBody(UpperName(t))
  {
  }

  lemma CardNames(t: PDType)
    requires t.Inn? || t.CardNumber? || t.CardCvv? || t.CardPin? || t.CardHolder? || t.CardExpiry? || t.Date?
    ensures TokenBody(UpperName(t))
  {
  }

  /** What tells a type's name from the others: its length and its first, second and sixth letters. */
  function KeyOf(name: string): (nat, char, char, char)
    requires |name| >= 3
  {
    (|name|, name[0], name[1], if |name| > 5 then name[5] else ' ')
  }

  function NameKey(t: PDType): (nat, char, char, char) {
    match t
    case Fio => (3, 'F', 'I', ' ')
    case BirthDate => (10, 'B', 'I', '_')
    case BirthPlace => (11, 'B', 'I', '_')
    case Passport => (8, 'P', 'A', 'O')
    case Citizenship => (11, 'C', 'I', 'E')
    case PassportIssuer => (15, 'P', 'A', 'O')
    case DepartmentCode => (15, 'D', 'E', 'T')
    case PassportIssueDate => (19, 'P', 'A', 'O')
    case DriverLicense => (14, 'D', 'R', 'R')
    case Address => (7, 'A', 'D', 'S')
    case Email => (5, 'E', 'M', ' ')
    case Phone => (5, 'P', 'H', ' ')
    case Inn => (3, 'I', 'N', ' ')
    case CardNumber => (11, 'C', 'A', 'N')
    case CardCvv => (3, 'C', 'V', ' ')
    case CardPin => (3, 'P', 'I', ' ')
    case CardHolder => (11, 'C', 'A', 'H')
    case CardExpiry => (11, 'C', 'A', 'E')
    case Date => (4, 'D', 'A', ' ')
    case Snils => (5, 'S', 'N', ' ')
    case ForeignPassport => (16, 'F', 'O', 'G')
    case MilitaryId => (11, 'M', 'I', 'A')
    case BirthCertificate => (17, 'B', 'I', '_')
  }

  lemma NamesHaveTheirKeys(t: PDType)
    ensures |UpperName(t)| >= 3 && KeyOf(UpperName(t)) == NameKey(t)
  {
  }

  lemma NamesDiffer(t: PDType, u: PDType)
    ensures UpperName(t) == UpperName(u) <==> t == u
  {
    NamesHaveTheirKeys(t);
    NamesHaveTheirKeys(u);
    KeysDiffer(t, u);
  }

  lemma KeysDiffer(t: PDType, u: PDType)
    ensures NameKey(t) == NameKey(u) <==> t == u
  {
  }

  lemma TokenParts(name: string, hex: string, other: string, otherHex: string)
    requires |hex| == |otherHex|
    ensures "[" + (name + "_" + hex) + "]" == "[" + (other + "_" + otherHex) + "]" <==> name == other && hex == otherHex
  {
    var a, b := name + "_" + hex, other + "_" + otherHex;
    if "[" + a + "]" == "[" + b + "]" {
      assert ("[" + a + "]")[1..|a| + 1] == a && ("[" + b + "]")[1..|b| + 1] == b;
      assert |a| == |b| && a == b && |name| == |other|;
      assert a[..|name|] == name && b[..|other|] == other;
      assert a[|name| + 1..] == hex && b[|other| + 1..] == otherHex;
    }
  }

  function Label(t: PDType): string {
    match t
    case Fio => "ФИО"
    case BirthDate => "ДАТА_РОЖДЕНИЯ"
    case BirthPlace => "МЕСТО_РОЖДЕНИЯ"
    case Passport => "ПАСПОРТ"
    case Citizenship => "ГРАЖДАНСТВО"
    case PassportIssuer => "ОРГАН_ВЫДАЧИ"
    case DepartmentCode => "КОД_ПОДРАЗДЕЛЕНИЯ"
    case PassportIssueDate => "ДАТА_ВЫДАЧИ"
    case DriverLicense => "ВУ"
    case Address => "АДРЕС"
    case Email => "EMAIL"
    case Phone => "ТЕЛЕФОН"
    case Inn => "ИНН"
    case CardNumber => "НОМЕР_КАРТЫ"
    case CardCvv => "CVV"
    case CardPin => "PIN"
    case CardHolder => "ДЕРЖАТЕЛЬ_КАРТЫ"
    case CardExpiry => "СРОК_КАРТЫ"
    case Date => "ДАТА"
    case Snils => "СНИЛС"
    case ForeignPassport => "ЗАГРАНПАСПОРТ"
    case MilitaryId => "ВОЕННЫЙ_БИЛЕТ"
    case BirthCertificate => "СВИДЕТЕЛЬСТВО_О_РОЖДЕНИИ"
  }

  /** A label is told from the others by its length and its first letter. */
  function LabelKey(t: PDType): (nat, char) {
    match t
    case Fio => (3, 'Ф')
    case BirthDate => (13, 'Д')
    case BirthPlace => (14, 'М')
    case Passport => (7, 'П')
    case Citizenship => (11, 'Г')
    case PassportIssuer => (12, 'О')
    case DepartmentCode => (17, 'К')
    case PassportIssueDate => (11, 'Д')
    case DriverLicense => (2, 'В')
    case Address => (5, 'А')
    case Email => (5, 'E')
    case Phone => (7, 'Т')
    case Inn => (3, 'И')
    case CardNumber => (11, 'Н')
    case CardCvv => (3, 'C')
    case CardPin => (3, 'P')
    case CardHolder => (15, 'Д')
    case CardExpiry => (10, 'С')
    case Date => (4, 'Д')
    case Snils => (5, 'С')
    case ForeignPassport => (13, 'З')
    case MilitaryId => (13, 'В')
    case BirthCertificate => (24, 'С')
  }

  lemma LabelsHaveTheirKeys(t: PDType)
    ensures Label(t) != "" && (|Label(t)|, Label(t)[0]) == LabelKey(t)
  {
  }

  lemma LabelKeysDiffer(t: PDType, u: PDType)
    ensures LabelKey(t) == LabelKey(u) <==> t == u
  {
  }

  lemma LabelsDiffer(t: PDType, u: PDType)
    ensures Label(t) == Label(u) <==> t == u
  {
    LabelsHaveTheirKeys(t);
    LabelsHaveTheirKeys(u);
    LabelKeysDiffer(t, u);
  }

  lemma LabelParts(a: string, b: string)
    ensures "[" + a + "]" == "[" + b + "]" <==> a == b
  {
    if "[" + a + "]" == "[" + b + "]" {
      assert ("[" + a + "]")[1..|a| + 1] == a && ("[" + b + "]")[1..|b| + 1] == b;
    }
  }

  // ---- what `email` and `initials` show ----

  lemma {:induction false} RepeatIs(c: char, times: int)
    ensures Repeat(c, times) == seq(if times < 0 then 0 else times, _ => c)
  {
    if times > 0 {
      RepeatIs(c, times - 1);
    }
  }

  /** Everything before the first '@' but the first character is covered, position by position. */
  lemma HiddenEmailShows(span: string, c: char, at: nat)
    requires at < |span| && span[at] == '@' && '@' !in span[..at]
    ensures var out := HiddenEmail(span, c);
      |out| == |span| && forall i :: 0 <= i < |span| ==> out[i] == if 0 < i < at then c else span[i]
  {
    var first := IndexOf(span, '@');
    assert forall i :: 0 <= i < at ==> span[..at][i] == span[i];
    assert forall i :: 0 <= i < first ==> span[..first][i] == span[i];
    assert first == at;
    RepeatIs(c, at - 1);
  }

  /** The first letters of the words: the letters that no letter comes before. */
  function WordStarts(s: string, from: nat): seq<char>
    requires from <= |s|
    decreases |s| - from
  {
    if from == |s| then []
    else
      (if IsLetter(s[from]) && (from == 0 || !IsLetter(s[from - 1])) then [s[from]] else []) + WordStarts(s, from + 1)
  }

  function FirstLetters(words: seq<string>): seq<char>
    requires forall w :: w in words ==> w != ""
  {
    if words == [] then []
    else
      assert words[0] in words && forall w :: w in words[1..] ==> w in words;
      [words[0][0]] + FirstLetters(words[1..])
  }

  lemma {:induction false} NoStartInARun(s: string, from: nat, to: nat)
    requires 0 < from <= to <= |s| && IsLetter(s[from - 1])
    requires forall i :: from <= i < to ==> IsLetter(s[i])
    ensures WordStarts(s, from) == WordStarts(s, to)
    decreases |s| - from
  {
    if from < to {
      NoStartInARun(s, from + 1, to);
    }
  }

  lemma {:induction false} LetterRunIsMaximal(s: string)
    ensures forall i :: 0 <= i < LetterRun(s) ==> IsLetter(s[i])
    ensures LetterRun(s) < |s| ==> !IsLetter(s[LetterRun(s)])
  {
    if s != "" && IsLetter(s[0]) {
      LetterRunIsMaximal(s[1..]);
      assert forall i :: 0 < i < LetterRun(s) ==> s[i] == s[1..][i - 1];
    }
  }

  lemma RunEnds(s: string, from: nat) returns (to: nat)
    requires from < |s| && IsLetter(s[from])
    ensures from < to <= |s| && to - from == LetterRun(s[from..])
    ensures s[from..][LetterRun(s[from..])..] == s[to..]
    ensures (forall i :: from <= i < to ==> IsLetter(s[i])) && (to < |s| ==> !IsLetter(s[to]))
  {
    var rest := s[from..];
    LetterRunIsMaximal(rest);
    to := from + LetterRun(rest);
    assert forall i :: from <= i < |s| ==> s[i] == rest[i - from];
  }

  lemma FirstLettersOfARun(rest: string)
    requires rest != "" && IsLetter(rest[0])
    ensures FirstLetters(Words(rest)) == [rest[0]] + FirstLetters(Words(rest[LetterRun(rest)..]))
  {
    var later := Words(rest[LetterRun(rest)..]);
    assert ([rest[..LetterRun(rest)]] + later)[1..] == later;
  }

  /** findall gives one word for each letter that starts one. */
  lemma {:induction false} WordsStartThere(s: string, from: nat)
    requires from <= |s| && (0 < from < |s| && IsLetter(s[from]) ==> !IsLetter(s[from - 1]))
    ensures FirstLetters(Words(s[from..])) == WordStarts(s, from)
    decreases |s| - from
  {
    if from == |s| {
    } else if IsLetter(s[from]) {
      var to := RunEnds(s, from);
      FirstLettersOfARun(s[from..]);
      NoStartInARun(s, from + 1, to);
      WordsStartThere(s, to);
    } else {
      assert s[from..][1..] == s[from + 1..];
      WordsStartThere(s, from + 1);
    }
  }

  lemma {:induction false} InitialsShow(words: seq<string>)
    requires forall w :: w in words ==> w != ""
    ensures var out, n := InitialsOf(words), |FirstLetters(words)|;
      && |out| == (if n == 0 then 0 else 3 * n - 1)
      && forall k :: 0 <= k < n ==>
           out[3 * k] == FirstLetters(words)[k] && out[3 * k + 1] == '.' && (k + 1 < n ==> out[3 * k + 2] == ' ')
  {
    if words != [] {
      assert words[0] in words && forall w :: w in words[1..] ==> w in words;
      InitialsShow(words[1..]);
      var out, rest, n := InitialsOf(words), InitialsOf(words[1..]), |FirstLetters(words)|;
      assert FirstLetters(words) == [words[0][0]] + FirstLetters(words[1..]);
      if n > 1 {
        assert out == [words[0][0], '.', ' '] + rest;
        forall k | 0 < k < n
          ensures out[3 * k] == FirstLetters(words)[k] && out[3 * k + 1] == '.'
          ensures k + 1 < n ==> out[3 * k + 2] == ' '
        {
          assert out[3 * k] == rest[3 * (k - 1)] && out[3 * k + 1] == rest[3 * (k - 1) + 1];
        }
      }
    }
  }

  /** An entity the masker can work on. */
  ghost predicate Fits(e: Candidate, text: string) {
    e.WellFormed() && e.Within(text)
  }

  ghost predicate AllFit(es: seq<Candidate>, text: string) {
    InLine(es) && forall e :: e in es ==> Fits(e, text)
  }

  /** `pos` is where the masker may stand before entity `k`: after the entities before it. */
  ghost predicate StandsAt(text: string, es: seq<Candidate>, k: nat, pos: int) {
    AllFit(es, text) && k <= |es| && 0 <= pos <= |text| && (k < |es| ==> pos <= es[k].Start())
  }

  lemma PartsInside(e: Candidate, k: nat)
    requires e.WellFormed() && k < |e.parts|
    ensures e.Start() <= e.parts[k].lo < e.parts[k].hi <= e.End()
  {
    var last := |e.parts| - 1;
    assert k > 0 ==> e.parts[0].Nonempty() && e.parts[0].hi <= e.parts[k].lo;
    assert k < last ==> e.parts[last].Nonempty() && e.parts[k].hi <= e.parts[last].lo;
  }

  function SpanOf(text: string, e: Candidate): string
    requires e.Within(text)
  {
    text[e.Start()..e.End()]
  }

  function RuleFor(e: Candidate, rules: Rules): MaskRule {
    if e.pdType in rules then rules[e.pdType] else DEFAULT_RULE
  }

  datatype Masker = Masker(
    isAlnum: char -> bool,
    alphabet: Alphabet,
    digest: (PDType, string) -> HexDigest)
  {
    // ---- which characters a character mask hides ----

    /** A letter or digit inside a part of the entity. */
    predicate Maskable(text: string, e: Candidate, i: int) {
      0 <= i < |text| && isAlnum(text[i]) && exists p | p in e.parts :: p.lo <= i < p.hi
    }

    /** The maskable positions in [lo, hi), ascending. */
    ghost function Maskables(text: string, e: Candidate, lo: int, hi: int): seq<int>
      decreases hi - lo
    {
      if hi <= lo then []
      else Maskables(text, e, lo, hi - 1) + (if Maskable(text, e, hi - 1) then [hi - 1] else [])
    }

    /** How many maskable characters of the entity come before position `i`. */
    ghost function Rank(text: string, e: Candidate, i: int): nat {
      |Maskables(text, e, e.Start(), i)|
    }

    ghost function MaskableCount(text: string, e: Candidate): nat {
      Rank(text, e, e.End())
    }

    ghost predicate Hidden(text: string, e: Candidate, rule: MaskRule, i: int) {
      var n := MaskableCount(text, e);
      && e.Start() <= i < e.End()
      && Maskable(text, e, i)
      && (rule.strategy != Partial
          || n <= rule.keepStart + rule.keepEnd
          || rule.keepStart <= Rank(text, e, i) < n - rule.keepEnd)
    }

    ghost function Veil(text: string, e: Candidate, rule: MaskRule): string
      requires Fits(e, text)
    {
      seq(e.Length(), k requires 0 <= k < e.Length() =>
        if Hidden(text, e, rule, e.Start() + k) then rule.mark else text[e.Start() + k])
    }

    function AlnumsIn(text: string, lo: int, hi: int): seq<int>
      requires 0 <= lo && hi <= |text|
      decreases hi - lo
    {
      if hi <= lo then [] else AlnumsIn(text, lo, hi - 1) + (if isAlnum(text[hi - 1]) then [hi - 1] else [])
    }

    function Positions(text: string, parts: seq<Interval>): seq<int>
      requires forall p :: p in parts ==> 0 <= p.lo && p.hi <= |text|
    {
      if parts == [] then []
      else
        var last := parts[|parts| - 1];
        assert last in parts;
        Positions(text, parts[..|parts| - 1]) + AlnumsIn(text, last.lo, last.hi)
    }

    lemma MaskablesSplit(text: string, e: Candidate, lo: int, mid: int, hi: int)
      requires lo <= mid <= hi
      ensures Maskables(text, e, lo, hi) == Maskables(text, e, lo, mid) + Maskables(text, e, mid, hi)
      decreases hi - mid
    {
      if mid < hi {
        MaskablesSplit(text, e, lo, mid, hi - 1);
      }
    }

    lemma {:induction false} PartMaskables(text: string, e: Candidate, k: nat, hi: int)
      requires Fits(e, text) && k < |e.parts| && e.parts[k].lo <= hi <= e.parts[k].hi
      requires 0 <= e.parts[k].lo && e.parts[k].hi <= |text|
      ensures Maskables(text, e, e.parts[k].lo, hi) == AlnumsIn(text, e.parts[k].lo, hi)
      decreases hi - e.parts[k].lo
    {
      if e.parts[k].lo < hi {
        PartMaskables(text, e, k, hi - 1);
        assert e.parts[k] in e.parts;
      }
    }

    lemma {:induction false} GapHasNoMaskables(text: string, e: Candidate, k: nat, hi: int)
      requires Fits(e, text) && 0 < k < |e.parts| && e.parts[k - 1].hi <= hi <= e.parts[k].lo
      ensures Maskables(text, e, e.parts[k - 1].hi, hi) == []
      decreases hi - e.parts[k - 1].hi
    {
      if e.parts[k - 1].hi < hi {
        GapHasNoMaskables(text, e, k, hi - 1);
        forall p | p in e.parts ensures !(p.lo <= hi - 1 < p.hi) {
          var j :| 0 <= j < |e.parts| && e.parts[j] == p;
          if j < k {
            assert j < k - 1 ==> e.parts[j].hi <= e.parts[k - 1].lo && e.parts[k - 1].Nonempty();
          } else {
            assert j > k ==> e.parts[k].hi <= e.parts[j].lo && e.parts[k].Nonempty();
          }
        }
      }
    }

    /** One part, and the gap before it, add exactly the letters and digits of the part. */
    lemma PartAdds(text: string, e: Candidate, k: nat)
      requires Fits(e, text) && 0 < k < |e.parts| && 0 <= e.parts[k].lo && e.parts[k].hi <= |text|
      ensures Maskables(text, e, e.Start(), e.parts[k].hi)
           == Maskables(text, e, e.Start(), e.parts[k - 1].hi) + AlnumsIn(text, e.parts[k].lo, e.parts[k].hi)
    {
      var from, gap, part := e.Start(), e.parts[k - 1].hi, e.parts[k];
      PartsInside(e, k);
      PartsInside(e, k - 1);
      PartMaskables(text, e, k, part.hi);
      GapHasNoMaskables(text, e, k, part.lo);
      MaskablesSplit(text, e, from, gap, part.lo);
      assert Maskables(text, e, from, gap) + [] == Maskables(text, e, from, gap);
      MaskablesSplit(text, e, from, part.lo, part.hi);
    }

    lemma {:induction false} PositionsUpTo(text: string, e: Candidate, k: nat)
      requires Fits(e, text) && k <= |e.parts|
      requires forall p :: p in e.parts ==> 0 <= p.lo && p.hi <= |text|
      ensures Positions(text, e.parts[..k])
           == Maskables(text, e, e.Start(), if k == 0 then e.Start() else e.parts[k - 1].hi)
    {
      if k > 0 {
        PositionsUpTo(text, e, k - 1);
        assert e.parts[..k][..k - 1] == e.parts[..k - 1] && e.parts[k - 1] in e.parts;
        if k > 1 {
          PartAdds(text, e, k - 1);
        } else {
          PartMaskables(text, e, 0, e.parts[0].hi);
        }
      }
    }

    lemma PositionsAreMaskables(text: string, e: Candidate)
      requires Fits(e, text)
      ensures forall p :: p in e.parts ==> 0 <= p.lo && p.hi <= |text|
      ensures Positions(text, e.parts) == Maskables(text, e, e.Start(), e.End())
    {
      forall p | p in e.parts ensures 0 <= p.lo && p.hi <= |text| {
        var k :| 0 <= k < |e.parts| && e.parts[k] == p;
        PartsInside(e, k);
      }
      assert e.parts[..|e.parts|] == e.parts;
      PositionsUpTo(text, e, |e.parts|);
    }

    /** The maskable position of rank k is the k-th one. */
    lemma {:induction false} RankOf(text: string, e: Candidate, hi: int, k: nat)
      requires e.Start() <= hi && k < |Maskables(text, e, e.Start(), hi)|
      ensures var at := Maskables(text, e, e.Start(), hi)[k];
        e.Start() <= at < hi && Maskable(text, e, at) && Rank(text, e, at) == k
      decreases hi - e.Start()
    {
      if e.Start() < hi && k < |Maskables(text, e, e.Start(), hi - 1)| {
        RankOf(text, e, hi - 1, k);
      }
    }

    lemma {:induction false} RankLocates(text: string, e: Candidate, hi: int, i: int)
      requires e.Start() <= i < hi && Maskable(text, e, i)
      ensures var ms := Maskables(text, e, e.Start(), hi);
        Rank(text, e, i) < |ms| && ms[Rank(text, e, i)] == i
      decreases hi - e.Start()
    {
      if i < hi - 1 {
        RankLocates(text, e, hi - 1, i);
      }
    }

    /** Hidden, and one of the first `idx` maskable positions. */
    ghost predicate HiddenBefore(text: string, e: Candidate, rule: MaskRule, idx: int, i: int) {
      Hidden(text, e, rule, i) && Rank(text, e, i) < idx
    }

    lemma HiddenStep(text: string, e: Candidate, rule: MaskRule, idx: nat)
      requires e.Start() <= e.End() && idx < MaskableCount(text, e)
      ensures var at, n := Maskables(text, e, e.Start(), e.End())[idx], MaskableCount(text, e);
        && e.Start() <= at < e.End() && 0 <= at < |text|
        && (Hidden(text, e, rule, at) <==>
              rule.strategy != Partial || n <= rule.keepStart + rule.keepEnd
              || rule.keepStart <= idx < n - rule.keepEnd)
        && forall i :: HiddenBefore(text, e, rule, idx + 1, i)
             <==> HiddenBefore(text, e, rule, idx, i) || (i == at && Hidden(text, e, rule, at))
    {
      RankOf(text, e, e.End(), idx);
      var at := Maskables(text, e, e.Start(), e.End())[idx];
      forall i
        ensures HiddenBefore(text, e, rule, idx + 1, i)
           <==> HiddenBefore(text, e, rule, idx, i) || (i == at && Hidden(text, e, rule, at))
      {
        if Hidden(text, e, rule, i) {
          RankLocates(text, e, e.End(), i);
        }
      }
    }

    /** The span with the mask over the hidden ones of the first `idx` maskable positions. */
    ghost function Overlaid(text: string, e: Candidate, rule: MaskRule, idx: int): string
      requires Fits(e, text)
    {
      seq(e.Length(), k requires 0 <= k < e.Length() =>
        if HiddenBefore(text, e, rule, idx, e.Start() + k) then rule.mark else text[e.Start() + k])
    }

    lemma OverlaidStep(text: string, e: Candidate, rule: MaskRule, idx: nat)
      requires Fits(e, text) && idx < MaskableCount(text, e)
      ensures var at, n := Maskables(text, e, e.Start(), e.End())[idx], MaskableCount(text, e);
        && e.Start() <= at < e.End()
        && Overlaid(text, e, rule, idx + 1)
           == if || rule.strategy != Partial
                 || n <= rule.keepStart + rule.keepEnd
                 || rule.keepStart <= idx < n - rule.keepEnd
              then Overlaid(text, e, rule, idx)[at - e.Start() := rule.mark] else Overlaid(text, e, rule, idx)
    {
      HiddenStep(text, e, rule, idx);
      var at, now, next := Maskables(text, e, e.Start(), e.End())[idx], Overlaid(text, e, rule, idx),
                           Overlaid(text, e, rule, idx + 1);
      forall k | 0 <= k < e.Length()
        ensures next[k] == if k == at - e.Start() && Hidden(text, e, rule, at) then rule.mark else now[k]
      {
        assert HiddenBefore(text, e, rule, idx + 1, e.Start() + k)
          <==> HiddenBefore(text, e, rule, idx, e.Start() + k) || (e.Start() + k == at && Hidden(text, e, rule, at));
      }
    }

    lemma OverlaidEnds(text: string, e: Candidate, rule: MaskRule)
      requires Fits(e, text)
      ensures Overlaid(text, e, rule, 0) == SpanOf(text, e)
      ensures Overlaid(text, e, rule, MaskableCount(text, e)) == Veil(text, e, rule)
    {
      var n := MaskableCount(text, e);
      forall k | 0 <= k < e.Length() ensures Overlaid(text, e, rule, 0)[k] == SpanOf(text, e)[k] {
        assert !HiddenBefore(text, e, rule, 0, e.Start() + k);
      }
      forall k | 0 <= k < e.Length() ensures Overlaid(text, e, rule, n)[k] == Veil(text, e, rule)[k] {
        var i := e.Start() + k;
        if Hidden(text, e, rule, i) {
          RankLocates(text, e, e.End(), i);
        }
        assert HiddenBefore(text, e, rule, n, i) <==> Hidden(text, e, rule, i);
        assert Overlaid(text, e, rule, n)[k] == if HiddenBefore(text, e, rule, n, i) then rule.mark else text[i];
        assert Veil(text, e, rule)[k] == if Hidden(text, e, rule, i) then rule.mark else text[i];
      }
    }

    /** Puts the mask character over the hidden positions, in place. */
    method Chars(text: string, e: Candidate, rule: MaskRule) returns (masked: string)
      requires Fits(e, text)
      ensures masked == Veil(text, e, rule)
    {
      var base := e.Start();
      var chars := new char[e.Length()](k requires 0 <= k < e.Length() => text[base + k]);
      PositionsAreMaskables(text, e);
      OverlaidEnds(text, e, rule);
      assert chars[..] == SpanOf(text, e);
      var positions := Positions(text, e.parts);
      var keepStart, keepEnd := if rule.strategy.Partial? then rule.keepStart else 0,
        if rule.strategy.Partial? then rule.keepEnd else 0;
      if |positions| <= keepStart + keepEnd {
        keepStart, keepEnd := 0, 0;
      }
      for idx := 0 to |positions|
        invariant chars[..] == Overlaid(text, e, rule, idx)
      {
        OverlaidStep(text, e, rule, idx);
        var pos := positions[idx] - base;
        if idx < keepStart || idx >= |positions| - keepEnd {
          continue;
        }
        chars[pos] := rule.mark;
      }
      masked := chars[..];
    }

    // ---- the strategies ----

    function TokenBodyOf(t: PDType, span: string): string {
      UpperName(t) + "_" + digest(t, span)[..6]
    }

    ghost function Replacement(text: string, e: Candidate, rule: MaskRule): string
      requires Fits(e, text)
    {
      var span := SpanOf(text, e);
      match rule.strategy
      case Initials => if Words(span) != [] then InitialsOf(Words(span)) else Veil(text, e, rule)
      case MaskedEmail => if '@' in span then HiddenEmail(span, rule.mark) else Veil(text, e, rule)
      case Token => Bracketed(TokenBodyOf(e.pdType, span))
      case Redact => "[" + Label(e.pdType) + "]"
      case Synthetic => alphabet.Synthetic(e.pdType, span, digest(e.pdType, span), |Words(span)|)
      case _ => Veil(text, e, rule)
    }

    method Apply(text: string, e: Candidate, rule: MaskRule) returns (replacement: string)
      requires Fits(e, text)
      ensures replacement == Replacement(text, e, rule)
    {
      var span := SpanOf(text, e);
      if rule.strategy == Initials && Words(span) != [] {
        return InitialsOf(Words(span));
      }
      if rule.strategy == MaskedEmail && '@' in span {
        return HiddenEmail(span, rule.mark);
      }
      if rule.strategy == Strategy.Token {
        return "[" + UpperName(e.pdType) + "_" + digest(e.pdType, span)[..6] + "]";
      }
      if rule.strategy == Redact {
        return "[" + Label(e.pdType) + "]";
      }
      if rule.strategy == Synthetic {
        replacement := alphabet.Synthesize(e.pdType, span, digest(e.pdType, span), |Words(span)|);
        return;
      }
      replacement := Chars(text, e, rule);
    }

    /** Two entities get one token exactly when they are of one type and the digests of the stretches they cover agree
        in their first six digits. */
    lemma TokensAreEqualIff(text: string, e: Candidate, f: Candidate, ruleOfE: MaskRule, ruleOfF: MaskRule)
      requires Fits(e, text) && Fits(f, text)
      requires ruleOfE.strategy == Strategy.Token && ruleOfF.strategy == Strategy.Token
      ensures Replacement(text, e, ruleOfE) == Replacement(text, f, ruleOfF)
         <==> e.pdType == f.pdType
              && digest(e.pdType, text[e.Start()..e.End()])[..6] == digest(f.pdType, text[f.Start()..f.End()])[..6]
    {
      var hexOfE, hexOfF := digest(e.pdType, SpanOf(text, e))[..6], digest(f.pdType, SpanOf(text, f))[..6];
      if Replacement(text, e, ruleOfE) == Replacement(text, f, ruleOfF) {
        TokenParts(UpperName(e.pdType), hexOfE, UpperName(f.pdType), hexOfF);
        NamesDiffer(e.pdType, f.pdType);
      }
    }

    lemma LabelsAreEqualIff(text: string, e: Candidate, f: Candidate, ruleOfE: MaskRule, ruleOfF: MaskRule)
      requires Fits(e, text) && Fits(f, text) && ruleOfE.strategy == Redact && ruleOfF.strategy == Redact
      ensures Replacement(text, e, ruleOfE) == Replacement(text, f, ruleOfF) <==> e.pdType == f.pdType
    {
      LabelParts(Label(e.pdType), Label(f.pdType));
      LabelsDiffer(e.pdType, f.pdType);
    }

    lemma {:induction false} AsManyWords(words: seq<string>)
      requires forall w :: w in words ==> w != ""
      ensures |FirstLetters(words)| == |words|
    {
      if words != [] {
        assert forall w :: w in words[1..] ==> w in words;
        AsManyWords(words[1..]);
      }
    }

    /** The synthetic mask is made from the digest of the stretch and the number of its words. */
    lemma SyntheticIsOfTheStretch(text: string, e: Candidate, rule: MaskRule)
      requires Fits(e, text) && rule.strategy == Strategy.Synthetic
      ensures var span := text[e.Start()..e.End()];
        Replacement(text, e, rule)
          == alphabet.Synthetic(e.pdType, span, digest(e.pdType, span), |WordStarts(span, 0)|)
    {
      var span := SpanOf(text, e);
      WordsStartThere(span, 0);
      assert span[0..] == span;
      AsManyWords(Words(span));
    }

    /** `email` keeps the first character and everything from the first '@' on. */
    lemma EmailShows(text: string, e: Candidate, rule: MaskRule, at: nat)
      requires Fits(e, text) && rule.strategy == MaskedEmail
      requires e.Start() <= at < e.End() && text[at] == '@' && forall i :: e.Start() <= i < at ==> text[i] != '@'
      ensures var out := Replacement(text, e, rule);
        && |out| == e.End() - e.Start()
        && forall i :: e.Start() <= i < e.End() ==>
             out[i - e.Start()] == if e.Start() < i < at then rule.mark else text[i]
    {
      var span, k := SpanOf(text, e), at - e.Start();
      assert span[k] == '@';
      HiddenEmailShows(span, rule.mark, k);
      forall i | e.Start() <= i < e.End()
        ensures HiddenEmail(span, rule.mark)[i - e.Start()] == if e.Start() < i < at then rule.mark else text[i]
      {
        assert span[i - e.Start()] == text[i];
      }
    }

    /** `initials` shows the letters that start a word, a full stop after each and a space between them. */
    lemma InitialsShowWordStarts(text: string, e: Candidate, rule: MaskRule)
      requires Fits(e, text) && rule.strategy == Initials && WordStarts(SpanOf(text, e), 0) != []
      ensures var out, starts := Replacement(text, e, rule), WordStarts(SpanOf(text, e), 0);
        && |out| == 3 * |starts| - 1
        && forall k :: 0 <= k < |starts| ==>
             out[3 * k] == starts[k] && out[3 * k + 1] == '.' && (k + 1 < |starts| ==> out[3 * k + 2] == ' ')
    {
      var span := SpanOf(text, e);
      WordsStartThere(span, 0);
      assert span[0..] == span;
      InitialsShow(Words(span));
    }

    // ---- splicing ----

    /** The text from `pos` on, with entity `k` and the later ones replaced. */
    ghost function Spliced(text: string, es: seq<Candidate>, rules: Rules, k: nat, pos: int): string
      requires StandsAt(text, es, k, pos)
      decreases |es| - k
    {
      if k == |es| then text[pos..]
      else
        FollowsOn(es, text, k, pos);
        text[pos..es[k].Start()] + Replacement(text, es[k], RuleFor(es[k], rules))
        + Spliced(text, es, rules, k + 1, es[k].End())
    }

    ghost function FragmentOf(text: string, e: Candidate, rules: Rules): Fragment
      requires Fits(e, text)
    {
      Fragment(Replacement(text, e, RuleFor(e, rules)), SpanOf(text, e))
    }

    ghost function Fragments(text: string, es: seq<Candidate>, rules: Rules, upTo: nat): seq<Fragment>
      requires AllFit(es, text) && upTo <= |es|
    {
      FirstFits(es, text);
      seq(upTo, i requires 0 <= i < upTo => FragmentOf(text, es[i], rules))
    }

    ghost function Masked(text: string, es: seq<Candidate>, rules: Rules): MaskResult
      requires AllFit(es, text)
    {
      FirstFits(es, text);
      MaskResult(Spliced(text, es, rules, 0, 0), Fragments(text, es, rules, |es|))
    }

    lemma SpliceStep(text: string, es: seq<Candidate>, rules: Rules, k: nat, pos: int, chunks: seq<string>)
      requires StandsAt(text, es, k, pos) && k < |es|
      ensures Fits(es[k], text) && pos <= es[k].Start() <= es[k].End() <= |text|
      ensures StandsAt(text, es, k + 1, es[k].End())
      ensures var replacement := Replacement(text, es[k], RuleFor(es[k], rules));
        Join(chunks + [text[pos..es[k].Start()], replacement]) + Spliced(text, es, rules, k + 1, es[k].End())
        == Join(chunks) + Spliced(text, es, rules, k, pos)
    {
      FollowsOn(es, text, k, pos);
      JoinTwo(chunks, text[pos..es[k].Start()], Replacement(text, es[k], RuleFor(es[k], rules)));
      Regroup(Join(chunks), text[pos..es[k].Start()], Replacement(text, es[k], RuleFor(es[k], rules)),
              Spliced(text, es, rules, k + 1, es[k].End()));
    }

    lemma FragmentsStep(text: string, es: seq<Candidate>, rules: Rules, k: nat)
      requires AllFit(es, text) && k < |es| && Fits(es[k], text)
      ensures Fragments(text, es, rules, k + 1) == Fragments(text, es, rules, k) + [FragmentOf(text, es[k], rules)]
    {
    }

    method Mask(text: string, entities: seq<Candidate>, rules: Rules) returns (result: MaskResult)
      requires AllFit(entities, text)
      ensures result == Masked(text, entities, rules)
      ensures |result.fragments| == |entities|
      ensures forall k :: 0 <= k < |entities| ==>
        && Fits(entities[k], text)
        && result.fragments[k].original == text[entities[k].Start()..entities[k].End()]
        && result.fragments[k].masked
           == Replacement(text, entities[k], if entities[k].pdType in rules then rules[entities[k].pdType]
                                             else MaskRule(Full, 0, 0, '*'))
    {
      var chunks: seq<string> := [];
      var fragments: seq<Fragment> := [];
      var pos := 0;
      FirstFits(entities, text);
      for k := 0 to |entities|
        invariant StandsAt(text, entities, k, pos)
        invariant fragments == Fragments(text, entities, rules, k)
        invariant Join(chunks) + Spliced(text, entities, rules, k, pos) == Spliced(text, entities, rules, 0, 0)
      {
        var entity := entities[k];
        FollowsOn(entities, text, k, pos);
        var replacement := Apply(text, entity, RuleFor(entity, rules));
        SpliceStep(text, entities, rules, k, pos, chunks);
        FragmentsStep(text, entities, rules, k);
        chunks := chunks + [text[pos..entity.Start()], replacement];
        fragments := fragments + [Fragment(replacement, text[entity.Start()..entity.End()])];
        pos := entity.End();
      }
      JoinOne(chunks, text[pos..]);
      chunks := chunks + [text[pos..]];
      result := MaskResult(Join(chunks), fragments);
    }
  }

  lemma FollowsOn(es: seq<Candidate>, text: string, k: nat, pos: int)
    requires StandsAt(text, es, k, pos) && k < |es|
    ensures Fits(es[k], text) && pos <= es[k].Start() < es[k].End() <= |text|
    ensures StandsAt(text, es, k + 1, es[k].End())
  {
    assert es[k] in es;
  }

  lemma FirstFits(es: seq<Candidate>, text: string)
    requires AllFit(es, text)
    ensures StandsAt(text, es, 0, 0)
    ensures forall i :: 0 <= i < |es| ==> Fits(es[i], text)
  {
    assert forall i :: 0 <= i < |es| ==> es[i] in es;
  }

  lemma Regroup(a: string, b: string, c: string, d: string)
    ensures a + b + c + d == a + (b + c + d)
  {
  }

  lemma JoinOne(chunks: seq<string>, a: string)
    ensures Join(chunks + [a]) == Join(chunks) + a
  {
    JoinAppend(chunks, [a]);
    assert [a][1..] == [] && Join([a]) == a + Join([]) == a;
  }

  lemma JoinTwo(chunks: seq<string>, a: string, b: string)
    ensures Join(chunks + [a, b]) == Join(chunks) + a + b
  {
    JoinOne(chunks, a);
    JoinOne(chunks + [a], b);
    assert chunks + [a] + [b] == chunks + [a, b];
  }
}
