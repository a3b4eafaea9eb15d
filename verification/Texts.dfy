/** The string built-ins used to restore a text: `in`, `str.count` and `str.replace`. */
module Texts {

  predicate OccursAt(s: string, pat: string, at: int) {
    0 <= at <= |s| - |pat| && s[at..at + |pat|] == pat
  }

  predicate Contains(s: string, pat: string) {
    exists at | 0 <= at <= |s| - |pat| :: OccursAt(s, pat, at)
  }

  /** Leftmost, non-overlapping replacement. The empty pattern matches before every character and at the end. */
  function Replace(s: string, pat: string, new_: string): string {
    if pat == "" then new_ + (if s == "" then "" else [s[0]] + Replace(s[1..], pat, new_))
    else if |s| < |pat| then s
    else if s[..|pat|] == pat then new_ + Replace(s[|pat|..], pat, new_)
    else [s[0]] + Replace(s[1..], pat, new_)
  }

  /** The number of replacements that Replace makes. */
  function Count(s: string, pat: string): nat {
    if pat == "" then |s| + 1
    else if |s| < |pat| then 0
    else if s[..|pat|] == pat then 1 + Count(s[|pat|..], pat)
    else Count(s[1..], pat)
  }

  lemma ContainsFurther(s: string, pat: string)
    requires s != "" && !OccursAt(s, pat, 0)
    ensures Contains(s, pat) <==> Contains(s[1..], pat)
  {
    if Contains(s, pat) {
      var at :| 0 <= at <= |s| - |pat| && OccursAt(s, pat, at);
      assert s[1..][at - 1..at - 1 + |pat|] == s[at..at + |pat|];
      assert OccursAt(s[1..], pat, at - 1);
    }
    if Contains(s[1..], pat) {
      var at :| 0 <= at <= |s[1..]| - |pat| && OccursAt(s[1..], pat, at);
      assert s[1..][at..at + |pat|] == s[at + 1..at + 1 + |pat|];
      assert OccursAt(s, pat, at + 1);
    }
  }

  lemma {:induction false} CountIsPositiveIff(s: string, pat: string)
    ensures Count(s, pat) > 0 <==> Contains(s, pat)
    decreases |s|
  {
    if pat == "" {
      assert OccursAt(s, pat, 0);
    } else if |s| < |pat| {
    } else if s[..|pat|] == pat {
      assert OccursAt(s, pat, 0);
    } else {
      CountIsPositiveIff(s[1..], pat);
      ContainsFurther(s, pat);
    }
  }

  lemma {:induction false} ReplaceChangesNothing(s: string, pat: string, new_: string)
    requires !Contains(s, pat)
    ensures Replace(s, pat, new_) == s
    decreases |s|
  {
    CountIsPositiveIff(s, pat);
    if pat == "" || |s| < |pat| {
    } else {
      CountIsPositiveIff(s[1..], pat);
      ReplaceChangesNothing(s[1..], pat, new_);
      assert s == [s[0]] + s[1..];
    }
  }

  lemma ReplaceSkips(s: string, pat: string, new_: string)
    requires s != "" && pat != "" && s[0] != pat[0]
    ensures Replace(s, pat, new_) == [s[0]] + Replace(s[1..], pat, new_)
    ensures Count(s, pat) == Count(s[1..], pat)
  {
    if |s| < |pat| {
      assert s == [s[0]] + s[1..];
    } else {
      assert s[..|pat|][0] == s[0];
    }
  }

  /** Taking the head off a concatenation, and putting it back. */
  lemma HeadAndTail<T>(xs: seq<T>, ys: seq<T>)
    requires xs != []
    ensures (xs + ys)[0] == xs[0] && (xs + ys)[1..] == xs[1..] + ys
    ensures xs + ys == [xs[0]] + (xs[1..] + ys)
  {
  }

  lemma {:induction false} ReplacePassesLiteral(lit: string, rest: string, pat: string, new_: string)
    requires pat != "" && pat[0] !in lit
    ensures Replace(lit + rest, pat, new_) == lit + Replace(rest, pat, new_)
    ensures Count(lit + rest, pat) == Count(rest, pat)
  {
    if lit == "" {
      assert lit + rest == rest && lit + Replace(rest, pat, new_) == Replace(rest, pat, new_);
    } else {
      HeadAndTail(lit, rest);
      ReplaceSkips(lit + rest, pat, new_);
      ReplacePassesLiteral(lit[1..], rest, pat, new_);
      HeadAndTail(lit, Replace(rest, pat, new_));
    }
  }

  lemma ReplaceHead(pat: string, rest: string, new_: string)
    requires pat != ""
    ensures Replace(pat + rest, pat, new_) == new_ + Replace(rest, pat, new_)
    ensures Count(pat + rest, pat) == 1 + Count(rest, pat)
  {
    assert (pat + rest)[..|pat|] == pat && (pat + rest)[|pat|..] == rest;
  }

  // ---- str.replace is str.split and str.join ----

  /** The text between the occurrences, taken from the left and without overlaps. */
  function Split(s: string, pat: string): (parts: seq<string>)
    requires pat != ""
    ensures parts != []
  {
    if |s| < |pat| then [s]
    else if s[..|pat|] == pat then [""] + Split(s[|pat|..], pat)
    else
      var rest := Split(s[1..], pat);
      [[s[0]] + rest[0]] + rest[1..]
  }

  function JoinWith(sep: string, parts: seq<string>): string {
    if parts == [] then "" else parts[0] + (if |parts| == 1 then "" else sep + JoinWith(sep, parts[1..]))
  }

  lemma JoinWithLongerHead(c: char, sep: string, parts: seq<string>)
    requires parts != []
    ensures JoinWith(sep, [[c] + parts[0]] + parts[1..]) == [c] + JoinWith(sep, parts)
  {
    var longer := [[c] + parts[0]] + parts[1..];
    assert longer[1..] == parts[1..];
    Associate([c], parts[0], if |parts| == 1 then "" else sep + JoinWith(sep, parts[1..]));
  }

  /** Joined with the pattern, the parts are the text; joined with anything else, they are the text with the pattern
      replaced; there is one part more than there are replacements. */
  lemma {:induction false} ReplaceIsSplitAndJoin(s: string, pat: string, new_: string)
    requires pat != ""
    ensures JoinWith(pat, Split(s, pat)) == s
    ensures JoinWith(new_, Split(s, pat)) == Replace(s, pat, new_)
    ensures |Split(s, pat)| == Count(s, pat) + 1
    decreases |s|
  {
    if |s| < |pat| {
    } else if s[..|pat|] == pat {
      var rest := Split(s[|pat|..], pat);
      ReplaceIsSplitAndJoin(s[|pat|..], pat, new_);
      assert ([""] + rest)[1..] == rest;
      assert "" + (pat + s[|pat|..]) == s;
      assert "" + (new_ + JoinWith(new_, rest)) == new_ + JoinWith(new_, rest);
    } else {
      ReplaceIsSplitAndJoin(s[1..], pat, new_);
      JoinWithLongerHead(s[0], pat, Split(s[1..], pat));
      JoinWithLongerHead(s[0], new_, Split(s[1..], pat));
      assert [s[0]] + s[1..] == s;
    }
  }

  /** The parts end where the pattern first occurs: none but the last holds the pattern, even with all but the last
      character of the occurrence that ends it, and the last one does not hold it either. */
  lemma {:induction false} PartsHoldNoPattern(s: string, pat: string, k: nat)
    requires pat != "" && k < |Split(s, pat)|
    ensures !Contains(Guarded(Split(s, pat)[k..], pat), pat)
    decreases |s|
  {
    if |s| < |pat| {
    } else if s[..|pat|] == pat {
      if k > 0 {
        PartsHoldNoPattern(s[|pat|..], pat, k - 1);
        assert Split(s, pat)[k..] == Split(s[|pat|..], pat)[k - 1..];
      }
    } else {
      PartsHoldNoPattern(s[1..], pat, k);
      if k == 0 {
        assert Split(s[1..], pat)[0..] == Split(s[1..], pat) && Split(s, pat)[0..] == Split(s, pat);
        FirstPart(s, pat);
      } else {
        assert Split(s, pat)[k..] == Split(s[1..], pat)[k..];
      }
    }
  }

  /** A part and as much of the pattern as could complete an occurrence begun in it. */
  function Guarded(parts: seq<string>, pat: string): string
    requires pat != "" && parts != []
  {
    if |parts| == 1 then parts[0] else parts[0] + pat[..|pat| - 1]
  }

  lemma GuardedIsAPrefix(s: string, pat: string)
    requires pat != ""
    ensures Guarded(Split(s, pat), pat) <= s
  {
    var parts := Split(s, pat);
    ReplaceIsSplitAndJoin(s, pat, "");
    if |parts| > 1 {
      var rest := JoinWith(pat, parts[1..]);
      assert s == parts[0] + (pat + rest) && pat == pat[..|pat| - 1] + pat[|pat| - 1..];
      assert s == parts[0] + pat[..|pat| - 1] + (pat[|pat| - 1..] + rest);
    }
  }

  lemma NotInLonger(s: string, shorter: string, pat: string)
    requires pat != "" && s != "" && shorter <= s[1..] && !Contains(shorter, pat)
    requires |s| >= |pat| ==> s[..|pat|] != pat
    ensures !Contains([s[0]] + shorter, pat)
  {
    var longer := [s[0]] + shorter;
    assert longer <= s && longer[1..] == shorter;
    ContainsFurther(longer, pat);
  }

  lemma GuardedCons(c: char, rest: seq<string>, pat: string)
    requires pat != "" && rest != []
    ensures Guarded([[c] + rest[0]] + rest[1..], pat) == [c] + Guarded(rest, pat)
  {
    Associate([c], rest[0], pat[..|pat| - 1]);
  }

  lemma FirstPart(s: string, pat: string)
    requires pat != "" && |s| >= |pat| && s[..|pat|] != pat && !Contains(Guarded(Split(s[1..], pat), pat), pat)
    ensures !Contains(Guarded(Split(s, pat), pat), pat)
  {
    GuardedIsAPrefix(s[1..], pat);
    NotInLonger(s, Guarded(Split(s[1..], pat), pat), pat);
    GuardedCons(s[0], Split(s[1..], pat), pat);
  }

  lemma ReplaceMisses(s: string, pat: string, new_: string)
    requires s != "" && pat != "" && !(pat <= s)
    ensures Replace(s, pat, new_) == [s[0]] + Replace(s[1..], pat, new_)
    ensures Count(s, pat) == Count(s[1..], pat)
  {
    if |s| < |pat| {
      assert s == [s[0]] + s[1..];
    }
  }

  lemma Associate<T>(a: seq<T>, b: seq<T>, c: seq<T>)
    ensures a + (b + c) == a + b + c
  {
  }

  function Join(parts: seq<string>): string {
    if parts == [] then "" else parts[0] + Join(parts[1..])
  }

  lemma {:induction false} JoinAppend(parts: seq<string>, more: seq<string>)
    ensures Join(parts + more) == Join(parts) + Join(more)
  {
    if parts == [] {
      assert parts + more == more && "" + Join(more) == Join(more);
    } else {
      HeadAndTail(parts, more);
      JoinAppend(parts[1..], more);
      Associate(parts[0], Join(parts[1..]), Join(more));
    }
  }
}
