/** app/core/masking.py: the `synthetic` mask, made from the digest of the masked stretch. */
module Synthetics {
  import opened Entities
  import opened Texts

  predicate IsHexDigit(c: char) {
    '0' <= c <= '9' || 'a' <= c <= 'f'
  }

  /** hexdigest() of a SHA-256. */
  type HexDigest = d: string | |d| == 64 && forall c :: c in d ==> IsHexDigit(c) witness seq(64, _ => '0')

  function HexValue(c: char): (v: nat)
    requires IsHexDigit(c)
    ensures v < 16 && "0123456789abcdef"[v] == c
  {
    if c <= '9' then c as int - 48 else c as int - 87
  }

  /** int(s, 16) */
  function HexNumber(s: string): nat
    requires forall c :: c in s ==> IsHexDigit(c)
  {
    if s == "" then 0
    else
      assert s[|s| - 1] in s && forall c :: c in s[..|s| - 1] ==> c in s;
      16 * HexNumber(s[..|s| - 1]) + HexValue(s[|s| - 1])
  }

  const SURNAMES := ["Смирнов", "Кузнецов", "Попов", "Соколов", "Лебедев", "Новиков", "Морозов", "Волков"]
  const NAMES := ["Алексей", "Дмитрий", "Сергей", "Андрей", "Михаил", "Николай", "Олег", "Павел"]
  const PATRONYMICS := ["Петрович", "Сергеевич", "Андреевич", "Олегович", "Павлович", "Игоревич"]

  /** A surname, with a name and a patronymic when the stretch has as many words. */
  function FakeName(seed: nat, words: nat): string {
    SURNAMES[seed % |SURNAMES|]
    + (if words >= 2 then " " + NAMES[(seed / 256) % |NAMES|] else "")
    + (if words >= 3 then " " + PATRONYMICS[(seed / 65536) % |PATRONYMICS|] else "")
  }

  /** str.isdigit, str.isalpha and str.isupper of a character. */
  datatype Alphabet = Alphabet(isDigit: char -> bool, isAlpha: char -> bool, isUpper: char -> bool) {

    function Substitute(digest: HexDigest, idx: nat, c: char): char {
      if isDigit(c) then
        assert digest[idx % |digest|] in digest;
        (HexValue(digest[idx % |digest|]) % 10 + 48) as char
      else if isAlpha(c) then if isUpper(c) then 'X' else 'x'
      else c
    }

    function SameFormat(digest: HexDigest, span: string): string {
      seq(|span|, i requires 0 <= i < |span| => Substitute(digest, i, span[i]))
    }

    method Synthesize(t: PDType, span: string, digest: HexDigest, words: nat) returns (masked: string)
      ensures masked == Synthetic(t, span, digest, words)
    {
      var seed := HexNumber(digest);
      if t == Fio || t == CardHolder {
        return FakeName(seed, words);
      }
      if t == Email {
        return "user" + digest[..6] + "@example.com";
      }
      masked := "";
      for idx := 0 to |span|
        invariant masked == SameFormat(digest, span)[..idx]
      {
        masked := masked + [Substitute(digest, idx, span[idx])];
      }
    }

    function Synthetic(t: PDType, span: string, digest: HexDigest, words: nat): string {
      if t == Fio || t == CardHolder then FakeName(HexNumber(digest), words)
      else if t == Email then "user" + digest[..6] + "@example.com"
      else SameFormat(digest, span)
    }

    /** The last hexadecimal digit of the digest chooses the surname, the third last the name, and the first sixty the
        patronymic; there are as many parts as the stretch has words, at least one and at most three. */
    lemma FakeNameByDigits(t: PDType, span: string, digest: HexDigest, words: nat)
      requires t == Fio || t == CardHolder
      ensures digest[63] in digest && digest[61] in digest && forall c :: c in digest[..60] ==> c in digest
      ensures var parts := [SURNAMES[HexValue(digest[63]) % 8], NAMES[HexValue(digest[61]) % 8],
                            PATRONYMICS[HexNumber(digest[..60]) % 6]];
        Synthetic(t, span, digest, words)
        == JoinWith(" ", parts[..if words == 0 then 1 else if words > 3 then 3 else words])
    {
      SeedByDigits(digest);
      FakeNameIsJoined(HexNumber(digest), words);
    }

    // ---- the same format ----

    /** What Python says of the characters that a substitute is made of. */
    ghost predicate KnowsAscii() {
      && (forall c :: '0' <= c <= '9' ==> isDigit(c))
      && !isDigit('X') && !isDigit('x') && isAlpha('X') && isAlpha('x') && isUpper('X') && !isUpper('x')
    }

    /** A digit, an upper-case letter, another letter, or exactly this character. */
    ghost predicate SameKind(a: char, b: char) {
      if isDigit(a) then isDigit(b)
      else if isAlpha(a) then !isDigit(b) && isAlpha(b) && (isUpper(a) <==> isUpper(b))
      else a == b
    }

    /** Masking documents and numbers synthetically keeps their format, position by position. */
    lemma SyntheticKeepsTheFormat(t: PDType, span: string, digest: HexDigest, words: nat)
      requires KnowsAscii() && t != Fio && t != CardHolder && t != Email
      ensures var out := Synthetic(t, span, digest, words);
        |out| == |span| && forall i :: 0 <= i < |span| ==> SameKind(span[i], out[i])
    {
      forall i | 0 <= i < |span| ensures SameKind(span[i], Substitute(digest, i, span[i])) {
        assert digest[i % |digest|] in digest;
      }
    }

    /** A digit is replaced by the digest's digit at its place, modulo ten, the digest being repeated as needed. */
    lemma DigitsComeFromTheDigest(t: PDType, span: string, digest: HexDigest, words: nat, i: nat, lap: nat, place: nat)
      requires t != Fio && t != CardHolder && t != Email && i < |span| && isDigit(span[i])
      requires place < 64 && i == 64 * lap + place
      ensures digest[place] in digest
      ensures Synthetic(t, span, digest, words)[i] as int == HexValue(digest[place]) % 10 + 48
    {
      assert digest[place] in digest && i % 64 == place;
    }

    lemma FakeAddressesAreEqualIff(
      span: string, other: string, digest: HexDigest, otherDigest: HexDigest, n: nat, m: nat)
      ensures Synthetic(Email, span, digest, n) == Synthetic(Email, other, otherDigest, m)
         <==> digest[..6] == otherDigest[..6]
    {
      var a, b := Synthetic(Email, span, digest, n), Synthetic(Email, other, otherDigest, m);
      assert a[4..10] == digest[..6] && b[4..10] == otherDigest[..6];
    }
  }

  lemma HexNumberUnfolds(digest: HexDigest, n: nat)
    requires 0 < n <= 64
    ensures digest[n - 1] in digest
    ensures (forall c :: c in digest[..n] ==> IsHexDigit(c)) && (forall c :: c in digest[..n - 1] ==> IsHexDigit(c))
    ensures HexNumber(digest[..n]) == 16 * HexNumber(digest[..n - 1]) + HexValue(digest[n - 1])
  {
    assert digest[..n][..n - 1] == digest[..n - 1] && digest[..n][n - 1] == digest[n - 1];
  }

  lemma SeedByDigits(digest: HexDigest)
    ensures digest[63] in digest && digest[61] in digest && forall c :: c in digest[..60] ==> c in digest
    ensures HexNumber(digest) % 8 == HexValue(digest[63]) % 8
    ensures (HexNumber(digest) / 256) % 8 == HexValue(digest[61]) % 8
    ensures HexNumber(digest) / 65536 == HexNumber(digest[..60])
  {
    SeedUnfolds(digest);
    Shifts(HexNumber(digest[..60]),
           HexValue(digest[60]), HexValue(digest[61]), HexValue(digest[62]), HexValue(digest[63]));
  }

  lemma SeedUnfolds(digest: HexDigest)
    ensures digest[60] in digest && digest[61] in digest && digest[62] in digest && digest[63] in digest
    ensures forall c :: c in digest[..60] ==> c in digest
    ensures HexNumber(digest)
         == 16 * (16 * (16 * (16 * HexNumber(digest[..60]) + HexValue(digest[60])) + HexValue(digest[61]))
                  + HexValue(digest[62])) + HexValue(digest[63])
  {
    assert digest[..64] == digest;
    HexNumberUnfolds(digest, 64);
    HexNumberUnfolds(digest, 63);
    HexNumberUnfolds(digest, 62);
    HexNumberUnfolds(digest, 61);
  }

  lemma Shifts(high: nat, a: nat, b: nat, c: nat, d: nat)
    requires a < 16 && b < 16 && c < 16 && d < 16
    ensures var seed := 16 * (16 * (16 * (16 * high + a) + b) + c) + d;
      seed % 8 == d % 8 && (seed / 256) % 8 == b % 8 && seed / 65536 == high
  {
    LastDigitDecides(16 * (16 * (16 * high + a) + b) + c, d);
    DropsTwoDigits(16 * (16 * high + a) + b, 16 * c + d);
    LastDigitDecides(16 * high + a, b);
    DropsFourDigits(high, 4096 * a + 256 * b + 16 * c + d);
  }

  lemma LastDigitDecides(high: nat, d: nat)
    ensures (16 * high + d) % 8 == d % 8
  {
  }

  lemma DropsTwoDigits(high: nat, low: nat)
    requires low < 256
    ensures (256 * high + low) / 256 == high
  {
  }

  lemma DropsFourDigits(high: nat, low: nat)
    requires low < 65536
    ensures (65536 * high + low) / 65536 == high
  {
  }

  lemma FakeNameIsJoined(seed: nat, words: nat)
    ensures var parts := [SURNAMES[seed % 8], NAMES[(seed / 256) % 8], PATRONYMICS[(seed / 65536) % 6]];
      FakeName(seed, words) == JoinWith(" ", parts[..if words == 0 then 1 else if words > 3 then 3 else words])
  {
    JoinThree([SURNAMES[seed % 8], NAMES[(seed / 256) % 8], PATRONYMICS[(seed / 65536) % 6]]);
  }

  lemma JoinThree(parts: seq<string>)
    requires |parts| == 3
    ensures JoinWith(" ", parts[..1]) == parts[0]
    ensures JoinWith(" ", parts[..2]) == parts[0] + " " + parts[1]
    ensures JoinWith(" ", parts[..3]) == parts[0] + " " + parts[1] + " " + parts[2]
  {
    assert parts[..3][1..] == [parts[1], parts[2]] && [parts[1], parts[2]][1..] == [parts[2]];
    assert parts[..2][1..] == [parts[1]];
    assert JoinWith(" ", [parts[2]]) == parts[2] && JoinWith(" ", [parts[1]]) == parts[1];
  }
}
