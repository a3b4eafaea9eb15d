/** app/core/detectors/address.py, given the spans its patterns match. */
module AddressSweeps {
  import opened Sorting
  import opened Entities
  import opened Wrappers

  datatype Component = Component(kind: string, start: int, end: int, value: Interval) {
    predicate Nonempty() {
      start < end
    }

    predicate Meets(other: Component) {
      start < other.end && other.start < end
    }
  }

  // ---- nested and overlapping matches ----

  predicate EarlierThenLonger(a: Component, b: Component) {
    a.start < b.start || (a.start == b.start && a.end - a.start >= b.end - b.start)
  }

  ghost predicate InSequence(cs: seq<Component>) {
    forall i, j :: 0 <= i < j < |cs| ==> cs[i].end <= cs[j].start
  }

  ghost predicate AllNonempty(cs: seq<Component>) {
    forall i :: 0 <= i < |cs| ==> cs[i].Nonempty()
  }

  ghost predicate MeetsSome(c: Component, kept: seq<Component>) {
    exists i :: 0 <= i < |kept| && kept[i].Meets(c)
  }

  /** The reference: of the first n matches, keep one when it meets none of the matches kept before it. */
  ghost function Kept(found: seq<Component>, n: nat): seq<Component>
    requires n <= |found|
  {
    if n == 0 then []
    else
      var before := Kept(found, n - 1);
      if MeetsSome(found[n - 1], before) then before else before + [found[n - 1]]
  }

  /** A dropped match starts inside a kept one, and no longer one is dropped for a shorter one with the same start. */
  ghost predicate StartsInside(c: Component, kept: seq<Component>) {
    exists i :: 0 <= i < |kept| && kept[i].start <= c.start < kept[i].end
                && (kept[i].start == c.start ==> c.end <= kept[i].end)
  }

  ghost predicate ReachesNoFurther(kept: seq<Component>, c: Component) {
    forall i :: 0 <= i < |kept| ==> EarlierThenLonger(kept[i], c)
  }

  /** Only the last kept match can reach as far as the next one. */
  lemma LastDecides(kept: seq<Component>, c: Component)
    requires InSequence(kept) && AllNonempty(kept) && c.Nonempty() && ReachesNoFurther(kept, c)
    ensures MeetsSome(c, kept) <==> (kept != [] && c.start < kept[|kept| - 1].end)
    ensures MeetsSome(c, kept) ==> StartsInside(c, kept)
    ensures !MeetsSome(c, kept) ==> InSequence(kept + [c])
  {
    if kept != [] {
      var last := |kept| - 1;
      forall i | 0 <= i < last ensures kept[i].end <= kept[last].start < kept[last].end {
      }
    }
  }

  lemma {:induction false} KeptMembers(found: seq<Component>, n: nat)
    requires n <= |found|
    ensures forall i :: 0 <= i < |Kept(found, n)| ==> Kept(found, n)[i] in found
    ensures AllNonempty(found) ==> AllNonempty(Kept(found, n))
  {
    if n > 0 {
      KeptMembers(found, n - 1);
    }
  }

  lemma {:induction false} KeptReach(found: seq<Component>, n: nat, m: nat)
    requires SortedBy(found, EarlierThenLonger) && n <= m < |found|
    ensures ReachesNoFurther(Kept(found, n), found[m])
  {
    if n > 0 {
      KeptReach(found, n - 1, m);
      assert EarlierThenLonger(found[n - 1], found[m]);
    }
  }

  lemma KeptStep(found: seq<Component>, n: nat)
    requires SortedBy(found, EarlierThenLonger) && AllNonempty(found) && n < |found|
    requires InSequence(Kept(found, n))
    ensures var before, c := Kept(found, n), found[n];
      && (MeetsSome(c, before) <==> (before != [] && c.start < before[|before| - 1].end))
      && (MeetsSome(c, before) ==> StartsInside(c, before))
      && (!MeetsSome(c, before) ==> InSequence(before + [c]))
  {
    KeptMembers(found, n);
    KeptReach(found, n, n);
    LastDecides(Kept(found, n), found[n]);
  }

  lemma {:induction false} KeptInSequence(found: seq<Component>, n: nat)
    requires SortedBy(found, EarlierThenLonger) && AllNonempty(found) && n <= |found|
    ensures InSequence(Kept(found, n))
  {
    if n > 0 {
      KeptInSequence(found, n - 1);
      KeptStep(found, n - 1);
    }
  }

  lemma {:induction false} KeptCover(found: seq<Component>, n: nat, i: nat)
    requires SortedBy(found, EarlierThenLonger) && AllNonempty(found) && i < n <= |found|
    ensures StartsInside(found[i], Kept(found, n))
  {
    var before, kept, c := Kept(found, n - 1), Kept(found, n), found[n - 1];
    if i < n - 1 {
      KeptCover(found, n - 1, i);
      var k :| 0 <= k < |before| && before[k].start <= found[i].start < before[k].end
               && (before[k].start == found[i].start ==> found[i].end <= before[k].end);
      assert kept[k] == before[k];
    } else if MeetsSome(c, before) {
      KeptInSequence(found, n - 1);
      KeptStep(found, n - 1);
    } else {
      assert kept[|before|] == c && c.Nonempty();
    }
  }

  method SortAndSweep(matches: seq<Component>) returns (result: seq<Component>)
    requires AllNonempty(matches)
    ensures result == Kept(Sort(matches, EarlierThenLonger), |Sort(matches, EarlierThenLonger)|)
    ensures InSequence(result)
    ensures forall k :: k in result ==> FirstWithItsSpan(k, matches)
    ensures forall c :: c in matches ==> StartsInside(c, result)
  {
    var found := Sort(matches, EarlierThenLonger);
    SortedMatches(matches, found);
    result := [];
    for n := 0 to |found|
      invariant result == Kept(found, n)
    {
      var comp := found[n];
      KeptInSequence(found, n);
      KeptStep(found, n);
      if result != [] && comp.start < result[|result| - 1].end {
        continue;
      }
      result := result + [comp];
    }
    KeptInSequence(found, |found|);
    forall k | k in result ensures FirstWithItsSpan(k, matches) {
      KeptAreFirst(matches, k);
    }
    forall c | c in matches ensures StartsInside(c, result) {
      var i :| 0 <= i < |found| && found[i] == c;
      KeptCover(found, |found|, i);
    }
  }

  /** Of the matches with this span it is the one found first. */
  ghost predicate FirstWithItsSpan(c: Component, matches: seq<Component>) {
    exists i :: 0 <= i < |matches| && matches[i] == c
      && forall j :: 0 <= j < i ==> matches[j].start != c.start || matches[j].end != c.end
  }

  function WithSpan(start: int, end: int): Component -> bool {
    (c: Component) => c.start == start && c.end == end
  }

  lemma {:induction false} KeptAreFirstInOrder(found: seq<Component>, n: nat, c: Component)
    requires AllNonempty(found) && n <= |found| && c in Kept(found, n)
    ensures First(found[..n], WithSpan(c.start, c.end)) == Some(c)
  {
    var before, p, last := Kept(found, n - 1), WithSpan(c.start, c.end), found[n - 1];
    assert found[..n] == found[..n - 1] + [last];
    FirstOfPrefix(found[..n - 1], last, p);
    if c in before {
      KeptAreFirstInOrder(found, n - 1, c);
    } else {
      SpanIsNew(found, n - 1, last);
    }
  }

  lemma SpanIsNew(found: seq<Component>, n: nat, c: Component)
    requires AllNonempty(found) && n <= |found| && !MeetsSome(c, Kept(found, n)) && c.Nonempty()
    ensures First(found[..n], WithSpan(c.start, c.end)) == None
  {
    forall x | x in found[..n] ensures x.start != c.start || x.end != c.end {
      var i :| 0 <= i < n && found[i] == x;
      MetByKept(found, n, i);
    }
    FirstMeans(found[..n], WithSpan(c.start, c.end));
  }

  lemma {:induction false} MetByKept(found: seq<Component>, n: nat, i: nat)
    requires AllNonempty(found) && i < n <= |found|
    ensures MeetsSome(found[i], Kept(found, n))
  {
    var before, kept := Kept(found, n - 1), Kept(found, n);
    if i < n - 1 {
      MetByKept(found, n - 1, i);
      var k :| 0 <= k < |before| && before[k].Meets(found[i]);
      assert kept[k] == before[k];
    } else if !MeetsSome(found[i], before) {
      assert kept[|before|] == found[i] && found[i].Meets(found[i]);
    }
  }

  lemma KeptAreFirst(matches: seq<Component>, c: Component)
    requires AllNonempty(matches)
    requires var found := Sort(matches, EarlierThenLonger); c in Kept(found, |found|)
    ensures FirstWithItsSpan(c, matches)
  {
    var found, p := Sort(matches, EarlierThenLonger), WithSpan(c.start, c.end);
    SortedMatches(matches, found);
    KeptAreFirstInOrder(found, |found|, c);
    assert found[..|found|] == found;
    SortKeepsFirst(matches, EarlierThenLonger, p);
    FirstMeans(matches, p);
    var i :| 0 <= i < |matches| && matches[i] == c && p(matches[i]) && forall j :: 0 <= j < i ==> !p(matches[j]);
    forall j | 0 <= j < i ensures matches[j].start != c.start || matches[j].end != c.end {
      assert !p(matches[j]);
    }
  }

  lemma SortedMatches(matches: seq<Component>, found: seq<Component>)
    requires AllNonempty(matches) && found == Sort(matches, EarlierThenLonger)
    ensures SortedBy(found, EarlierThenLonger) && AllNonempty(found)
    ensures forall c :: c in found <==> c in matches
  {
    SortSorts(matches, EarlierThenLonger);
    SortMembers(matches, EarlierThenLonger);
    forall i | 0 <= i < |found| ensures found[i].Nonempty() {
      assert found[i] in found && found[i] in matches;
    }
  }

  // ---- chains of neighbouring components ----

  /** A chain is not empty and its neighbours pass the gap test. */
  ghost predicate Linked(chain: seq<Component>, gapOk: (int, int) -> bool) {
    chain != [] && forall j :: 0 <= j < |chain| - 1 ==> gapOk(chain[j].end, chain[j + 1].start)
  }

  /** The gap test fails between the end of one chain and the start of the other. */
  ghost predicate Broken(a: seq<Component>, b: seq<Component>, gapOk: (int, int) -> bool) {
    a != [] && b != [] && !gapOk(a[|a| - 1].end, b[0].start)
  }

  ghost predicate ChainsBreakAtGaps(chains: seq<seq<Component>>, gapOk: (int, int) -> bool) {
    && (forall i :: 0 <= i < |chains| ==> Linked(chains[i], gapOk))
    && (forall i :: 0 <= i < |chains| - 1 ==> Broken(chains[i], chains[i + 1], gapOk))
  }

  method Chains(components: seq<Component>, gapOk: (int, int) -> bool) returns (chains: seq<seq<Component>>)
    ensures Flatten(chains) == components
    ensures ChainsBreakAtGaps(chains, gapOk)
  {
    chains := [];
    for n := 0 to |components|
      invariant Flatten(chains) == components[..n]
      invariant ChainsBreakAtGaps(chains, gapOk)
    {
      var comp := components[n];
      if chains != [] && gapOk(chains[|chains| - 1][|chains[|chains| - 1]| - 1].end, comp.start) {
        FlattenExtended(chains, comp);
        ExtendedBreaks(chains, comp, gapOk);
        chains := chains[|chains| - 1 := chains[|chains| - 1] + [comp]];
      } else {
        FlattenOpened(chains, comp);
        OpenedBreaks(chains, comp, gapOk);
        chains := chains + [[comp]];
      }
      assert components[..n + 1] == components[..n] + [comp];
    }
    assert components[..|components|] == components;
  }

  lemma FlattenExtended(chains: seq<seq<Component>>, comp: Component)
    requires chains != []
    ensures Flatten(chains[|chains| - 1 := chains[|chains| - 1] + [comp]]) == Flatten(chains) + [comp]
  {
    var last := |chains| - 1;
    var longer := chains[last := chains[last] + [comp]];
    assert longer[..last] == chains[..last];
  }

  lemma FlattenOpened(chains: seq<seq<Component>>, comp: Component)
    ensures Flatten(chains + [[comp]]) == Flatten(chains) + [comp]
  {
    assert (chains + [[comp]])[..|chains|] == chains;
  }

  lemma ExtendedBreaks(chains: seq<seq<Component>>, comp: Component, gapOk: (int, int) -> bool)
    requires chains != [] && ChainsBreakAtGaps(chains, gapOk)
    requires gapOk(chains[|chains| - 1][|chains[|chains| - 1]| - 1].end, comp.start)
    ensures ChainsBreakAtGaps(chains[|chains| - 1 := chains[|chains| - 1] + [comp]], gapOk)
  {
    var last := |chains| - 1;
    var chain := chains[last];
    assert Linked(chain, gapOk);
    assert Linked(chain + [comp], gapOk);
    forall i | 0 <= i < last ensures Broken(chains[i], if i + 1 == last then chain + [comp] else chains[i + 1], gapOk) {
      assert Broken(chains[i], chains[i + 1], gapOk);
    }
  }

  lemma OpenedBreaks(chains: seq<seq<Component>>, comp: Component, gapOk: (int, int) -> bool)
    requires ChainsBreakAtGaps(chains, gapOk)
    requires chains == [] || (
      var chain := chains[|chains| - 1]; chain != [] && !gapOk(chain[|chain| - 1].end, comp.start))
    ensures ChainsBreakAtGaps(chains + [[comp]], gapOk)
  {
    assert Linked([comp], gapOk);
    assert chains != [] ==> Broken(chains[|chains| - 1], [comp], gapOk);
  }

  // ---- organisation cues ----

  predicate OrgCueBefore(pos: int, orgPositions: seq<int>, sentenceStarts: seq<int>)
    requires Ascending(orgPositions) && Ascending(sentenceStarts)
    requires sentenceStarts != [] && sentenceStarts[0] == 0 <= pos
  {
    var si := BisectRight(sentenceStarts, pos) - 1;
    var sentenceStart := sentenceStarts[si];
    var oi := BisectLeft(orgPositions, sentenceStart);
    oi < |orgPositions| && orgPositions[oi] < pos
  }

  /** The two binary searches look for a cue before the position with no sentence starting in between. */
  lemma OrgCueBeforeMeans(pos: int, orgPositions: seq<int>, sentenceStarts: seq<int>)
    requires Ascending(orgPositions) && Ascending(sentenceStarts)
    requires sentenceStarts != [] && sentenceStarts[0] == 0 <= pos
    ensures OrgCueBefore(pos, orgPositions, sentenceStarts)
       <==> exists cue :: cue in orgPositions && cue < pos
              && forall s :: s in sentenceStarts ==> !(cue < s <= pos)
  {
    var si := BisectRight(sentenceStarts, pos) - 1;
    var start := sentenceStarts[si];
    var oi := BisectLeft(orgPositions, start);
    assert start in sentenceStarts && start <= pos;
    if oi < |orgPositions| && orgPositions[oi] < pos {
      var cue := orgPositions[oi];
      assert cue in orgPositions && start <= cue;
      forall s | s in sentenceStarts ensures !(cue < s <= pos) {
        var k :| 0 <= k < |sentenceStarts| && sentenceStarts[k] == s;
        assert k <= si ==> s <= start;
      }
    }
    if exists cue :: cue in orgPositions && cue < pos && forall s :: s in sentenceStarts ==> !(cue < s <= pos) {
      var cue :| cue in orgPositions && cue < pos && forall s :: s in sentenceStarts ==> !(cue < s <= pos);
      var k :| 0 <= k < |orgPositions| && orgPositions[k] == cue;
      assert cue >= start && oi <= k;
    }
  }
}
