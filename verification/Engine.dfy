/** app/core/engine.py: from the detectors' candidates to the entities that get masked. */
module Engine {
  import opened Sorting
  import opened Entities
  import opened Wrappers

  /** What make_entity hands out: an entity that covers something. */
  type Candidate = e: Entity | e.Proper() witness Entity(Fio, [Interval(0, 1)], 50, "", {})

  type Combinations = map<PDType, set<PDType>>

  // ---- overlap resolution ----

  /** Higher priority first, then the longer one, then the earlier one. */
  predicate RankLe(a: Candidate, b: Candidate) {
    a.priority > b.priority
    || (a.priority == b.priority
        && (a.Length() > b.Length() || (a.Length() == b.Length() && a.Start() <= b.Start())))
  }

  predicate Outranks(a: Candidate, b: Candidate) {
    RankLe(a, b) && !RankLe(b, a)
  }

  predicate ClearOf(e: Candidate, chosen: seq<Candidate>) {
    forall a | a in chosen :: !a.Overlaps(e)
  }

  /** Start-sorted and pairwise disjoint. */
  ghost predicate InLine(es: seq<Candidate>) {
    forall i, j :: 0 <= i < j < |es| ==> es[i].End() <= es[j].Start()
  }

  function Starts(es: seq<Candidate>): seq<int> {
    seq(|es|, i requires 0 <= i < |es| => es[i].Start())
  }

  lemma InLineAscends(es: seq<Candidate>)
    requires InLine(es)
    ensures Ascending(Starts(es))
  {
    forall i, j | 0 <= i < j < |es| ensures es[i].Start() <= es[j].Start() {
      assert es[i].End() <= es[j].Start() && es[i].Proper();
    }
  }

  function InsertAt<T>(xs: seq<T>, at: nat, x: T): seq<T>
    requires at <= |xs|
  {
    xs[..at] + [x] + xs[at..]
  }

  lemma InsertAtMembers<T>(xs: seq<T>, at: nat, x: T)
    requires at <= |xs|
    ensures forall y :: y in InsertAt(xs, at, x) <==> y == x || y in xs
  {
    var all := InsertAt(xs, at, x);
    assert xs == xs[..at] + xs[at..];
    assert all[at] == x;
    forall y | y in xs ensures y in all {
      assert y in xs[..at] || y in xs[at..];
    }
  }

  /** Looking at the two neighbours of the insertion point is as good as looking at every accepted entity. */
  lemma TwoNeighboursDecide(chosen: seq<Candidate>, e: Candidate, at: nat)
    requires InLine(chosen) && Ascending(Starts(chosen))
    requires at == BisectLeft(Starts(chosen), e.Start())
    ensures ((at > 0 && chosen[at - 1].End() > e.Start()) || (at < |chosen| && chosen[at].Start() < e.End()))
       <==> !ClearOf(e, chosen)
    ensures ClearOf(e, chosen) ==> InLine(InsertAt(chosen, at, e))
  {
    assert forall i :: 0 <= i < |chosen| ==> Starts(chosen)[i] == chosen[i].Start();
    forall i | 0 <= i < |chosen|
      ensures chosen[i].Overlaps(e) ==>
        (at > 0 && chosen[at - 1].End() > e.Start()) || (at < |chosen| && chosen[at].Start() < e.End())
    {
      if i < at {
        assert i < at - 1 ==> chosen[i].End() <= chosen[at - 1].Start() && chosen[at - 1].Proper();
      } else {
        assert i > at ==> chosen[at].End() <= chosen[i].Start() && chosen[at].Proper();
      }
    }
    if at > 0 {
      assert chosen[at - 1] in chosen && Starts(chosen)[at - 1] < e.Start() < e.End();
    }
    if at < |chosen| {
      assert chosen[at] in chosen && chosen[at].Start() < chosen[at].End();
    }
    if ClearOf(e, chosen) {
      PlacedInLine(chosen, e, at);
    }
  }

  lemma PlacedInLine(chosen: seq<Candidate>, e: Candidate, at: nat)
    requires InLine(chosen) && at <= |chosen|
    requires at > 0 ==> chosen[at - 1].End() <= e.Start()
    requires at < |chosen| ==> e.End() <= chosen[at].Start()
    ensures InLine(InsertAt(chosen, at, e))
  {
    var all := InsertAt(chosen, at, e);
    forall i | 0 <= i < |all|
      ensures all[i] == if i < at then chosen[i] else if i == at then e else chosen[i - 1]
    {
    }
    forall i, j | 0 <= i < j < |all| ensures all[i].End() <= all[j].Start() {
      if i < at && j == at {
        assert i < at - 1 ==> chosen[i].End() <= chosen[at - 1].Start() && chosen[at - 1].Proper();
      } else if i == at {
        assert j - 1 > at ==> chosen[at].End() <= chosen[j - 1].Start() && chosen[at].Proper();
      }
    }
  }

  /** The reference: walk the ranked candidates, accept one when it overlaps none accepted so far. */
  ghost function Resolve(ordered: seq<Candidate>): (chosen: seq<Candidate>)
    ensures InLine(chosen)
  {
    if ordered == [] then []
    else
      var prev := Resolve(ordered[..|ordered| - 1]);
      var e := ordered[|ordered| - 1];
      InLineAscends(prev);
      var at := BisectLeft(Starts(prev), e.Start());
      TwoNeighboursDecide(prev, e, at);
      if ClearOf(e, prev) then InsertAt(prev, at, e) else prev
  }

  lemma ResolveExtends(ordered: seq<Candidate>, k: nat, at: nat)
    requires k < |ordered|
    requires Ascending(Starts(Resolve(ordered[..k])))
    requires at == BisectLeft(Starts(Resolve(ordered[..k])), ordered[k].Start())
    ensures var chosen, e := Resolve(ordered[..k]), ordered[k];
      && Resolve(ordered[..k + 1])
         == (if (at > 0 && chosen[at - 1].End() > e.Start()) || (at < |chosen| && chosen[at].Start() < e.End())
             then chosen else InsertAt(chosen, at, e))
  {
    var upTo := ordered[..k + 1];
    assert upTo[..k] == ordered[..k] && upTo[|upTo| - 1] == ordered[k];
    TwoNeighboursDecide(Resolve(ordered[..k]), ordered[k], at);
  }

  lemma StartsOfInsert(es: seq<Candidate>, at: nat, e: Candidate)
    requires at <= |es|
    ensures Starts(InsertAt(es, at, e)) == InsertAt(Starts(es), at, e.Start())
  {
  }

  method ResolveOverlaps(candidates: seq<Candidate>) returns (chosen: seq<Candidate>)
    ensures chosen == Resolve(Sort(candidates, RankLe))
    ensures InLine(chosen)
    ensures forall e :: e in chosen ==> FirstInItsPlace(e, candidates)
    ensures forall c :: c in candidates ==> GivesWay(c, chosen)
  {
    var ordered := Sort(candidates, RankLe);
    var starts: seq<int> := [];
    chosen := [];
    for k := 0 to |ordered|
      invariant chosen == Resolve(ordered[..k])
      invariant starts == Starts(chosen)
    {
      var e := ordered[k];
      InLineAscends(chosen);
      var at := BisectLeft(starts, e.Start());
      ResolveExtends(ordered, k, at);
      StartsOfInsert(chosen, at, e);
      if at > 0 && chosen[at - 1].End() > e.Start() {
        continue;
      }
      if at < |chosen| && chosen[at].Start() < e.End() {
        continue;
      }
      starts := InsertAt(starts, at, e.Start());
      chosen := InsertAt(chosen, at, e);
    }
    assert ordered[..|ordered|] == ordered;
    ResolutionIsExact(candidates);
    forall e | e in chosen ensures FirstInItsPlace(e, candidates) {
      AcceptedIsFirst(candidates, e);
    }
  }

  /** Overlapping and ranked at least as high, in numbers. */
  ghost predicate Ahead(a: Candidate, c: Candidate) {
    && a.Start() < c.End() && c.Start() < a.End()
    && (|| a.priority > c.priority
        || (a.priority == c.priority && a.End() - a.Start() > c.End() - c.Start())
        || (a.priority == c.priority && a.End() - a.Start() == c.End() - c.Start() && a.Start() <= c.Start()))
  }

  ghost predicate GivesWay(c: Candidate, chosen: seq<Candidate>) {
    exists a :: a in chosen && Ahead(a, c)
  }

  /** Of the candidates with this start, end and priority it is the one reported first. */
  ghost predicate FirstInItsPlace(e: Candidate, candidates: seq<Candidate>) {
    exists i :: 0 <= i < |candidates| && candidates[i] == e
      && forall j :: 0 <= j < i ==>
           candidates[j].Start() != e.Start() || candidates[j].End() != e.End() || candidates[j].priority != e.priority
  }

  /** Accepted entities are candidates, and every candidate overlaps an accepted one (itself, when it is
      accepted) that ranks at least as high: by priority, then by length, then by being earlier. */
  lemma ResolutionIsExact(candidates: seq<Candidate>)
    ensures var chosen := Resolve(Sort(candidates, RankLe));
      && (forall e :: e in chosen ==> e in candidates)
      && (forall c :: c in candidates ==> Yields(chosen, c) && GivesWay(c, chosen))
  {
    var ordered := Sort(candidates, RankLe);
    RankIsTotal();
    SortSorts(candidates, RankLe);
    SortMembers(candidates, RankLe);
    AcceptedAreCandidates(ordered);
    forall c | c in candidates ensures Yields(Resolve(ordered), c) && GivesWay(c, Resolve(ordered)) {
      var a := PlaceTakenBy(candidates, c);
    }
  }

  lemma PlaceTakenBy(candidates: seq<Candidate>, c: Candidate) returns (a: Candidate)
    requires c in candidates
    ensures a in Resolve(Sort(candidates, RankLe)) && a in candidates
    ensures Ahead(a, c) && a.Overlaps(c) && RankLe(a, c)
  {
    var ordered := Sort(candidates, RankLe);
    RankIsTotal();
    SortSorts(candidates, RankLe);
    SortMembers(candidates, RankLe);
    EveryCandidateYields(ordered, c);
    a :| a in Resolve(ordered) && a.Overlaps(c) && RankLe(a, c);
    AcceptedAreCandidates(ordered);
    RankInNumbers(a, c);
  }

  lemma RankInNumbers(a: Candidate, c: Candidate)
    ensures Ahead(a, c) <==> a.Overlaps(c) && RankLe(a, c)
  {
  }

  ghost predicate Yields(chosen: seq<Candidate>, c: Candidate) {
    exists a :: a in chosen && a.Overlaps(c) && RankLe(a, c)
  }

  lemma RankIsTotal()
    ensures TotalPreorder(RankLe)
  {
  }

  lemma {:induction false} AcceptedAreCandidates(ordered: seq<Candidate>)
    ensures forall a :: a in Resolve(ordered) ==> a in ordered
  {
    if ordered != [] {
      var n := |ordered| - 1;
      AcceptedAreCandidates(ordered[..n]);
      ResolveStep(ordered);
    }
  }

  lemma ResolveStep(ordered: seq<Candidate>)
    requires ordered != []
    ensures var prev, e := Resolve(ordered[..|ordered| - 1]), ordered[|ordered| - 1];
      forall a :: a in Resolve(ordered) <==> a in prev || (a == e && ClearOf(e, prev))
  {
    var prev, e := Resolve(ordered[..|ordered| - 1]), ordered[|ordered| - 1];
    InLineAscends(prev);
    InsertAtMembers(prev, BisectLeft(Starts(prev), e.Start()), e);
  }

  /** A rejected candidate overlaps an accepted one that ranks at least as high. */
  lemma {:induction false} EveryCandidateYields(ordered: seq<Candidate>, c: Candidate)
    requires SortedBy(ordered, RankLe) && c in ordered
    ensures Yields(Resolve(ordered), c)
  {
    var n := |ordered| - 1;
    var prev, e := Resolve(ordered[..n]), ordered[n];
    ResolveStep(ordered);
    if c in ordered[..n] {
      EveryCandidateYields(ordered[..n], c);
      var a :| a in prev && a.Overlaps(c) && RankLe(a, c);
      assert a in Resolve(ordered);
    } else {
      assert c == e;
      if ClearOf(e, prev) {
        assert e in Resolve(ordered) && e.Overlaps(e);
      } else {
        var a :| a in prev && a.Overlaps(e);
        AcceptedAreCandidates(ordered[..n]);
        var i :| 0 <= i < n && ordered[i] == a;
        assert RankLe(ordered[i], ordered[n]);
        assert a in Resolve(ordered);
      }
    }
  }

  /** The place a candidate competes for. */
  datatype Slot = Slot(start: int, end: int, priority: int)

  function SlotOf(e: Candidate): Slot {
    Slot(e.Start(), e.End(), e.priority)
  }

  function Slots(es: seq<Candidate>): seq<Slot> {
    seq(|es|, i requires 0 <= i < |es| => SlotOf(es[i]))
  }

  function InSlot(s: Slot): Candidate -> bool {
    (e: Candidate) => SlotOf(e) == s
  }

  lemma PlaceIsNew(ordered: seq<Candidate>, e: Candidate)
    requires SortedBy(ordered, RankLe) && ClearOf(e, Resolve(ordered))
    ensures First(ordered, InSlot(SlotOf(e))) == None
  {
    forall c | c in ordered ensures SlotOf(c) != SlotOf(e) {
      EveryCandidateYields(ordered, c);
      var a :| a in Resolve(ordered) && a.Overlaps(c) && RankLe(a, c);
      assert !a.Overlaps(e);
    }
    FirstMeans(ordered, InSlot(SlotOf(e)));
  }

  lemma {:induction false} AcceptedIsFirstInOrder(ordered: seq<Candidate>, e: Candidate)
    requires SortedBy(ordered, RankLe) && e in Resolve(ordered)
    ensures First(ordered, InSlot(SlotOf(e))) == Some(e)
  {
    var n := |ordered| - 1;
    var before := ordered[..n];
    assert ordered == before + [ordered[n]] && SortedBy(before, RankLe);
    FirstOfPrefix(before, ordered[n], InSlot(SlotOf(e)));
    ResolveStep(ordered);
    if e in Resolve(before) {
      AcceptedIsFirstInOrder(before, e);
    } else {
      PlaceIsNew(before, e);
    }
  }

  /** Between candidates for the same place the order of the reports decides. */
  lemma AcceptedIsFirst(candidates: seq<Candidate>, e: Candidate)
    requires e in Resolve(Sort(candidates, RankLe))
    ensures FirstInItsPlace(e, candidates)
  {
    var p := InSlot(SlotOf(e));
    RankIsTotal();
    SortSorts(candidates, RankLe);
    AcceptedIsFirstInOrder(Sort(candidates, RankLe), e);
    SortKeepsFirst(candidates, RankLe, p);
    FirstInSlotMeans(candidates, e);
  }

  lemma FirstInSlotMeans(candidates: seq<Candidate>, e: Candidate)
    requires First(candidates, InSlot(SlotOf(e))) == Some(e)
    ensures FirstInItsPlace(e, candidates)
  {
    var p := InSlot(SlotOf(e));
    FirstMeans(candidates, p);
    var i :| 0 <= i < |candidates| && candidates[i] == e && p(candidates[i])
             && forall j :: 0 <= j < i ==> !p(candidates[j]);
    forall j | 0 <= j < i
      ensures candidates[j].Start() != e.Start() || candidates[j].End() != e.End()
           || candidates[j].priority != e.priority
    {
      assert !p(candidates[j]);
    }
  }

  ghost predicate Holds(es: seq<Candidate>, s: Slot) {
    exists a :: a in es && SlotOf(a) == s
  }

  ghost predicate SameSlots(xs: seq<Candidate>, ys: seq<Candidate>) {
    forall s :: Holds(xs, s) <==> Holds(ys, s)
  }

  ghost predicate Beaten(es: seq<Candidate>, c: Candidate) {
    exists a :: a in es && Outranks(a, c) && a.Overlaps(c)
  }

  lemma InLineApart(es: seq<Candidate>, a: Candidate, b: Candidate)
    requires InLine(es) && a in es && b in es && a.Overlaps(b)
    ensures a == b
  {
    var i :| 0 <= i < |es| && es[i] == a;
    var j :| 0 <= j < |es| && es[j] == b;
  }

  lemma TakenIsNotBeaten(chosen: seq<Candidate>, c: Candidate)
    requires InLine(chosen) && Holds(chosen, SlotOf(c))
    ensures !Beaten(chosen, c)
  {
    var own :| own in chosen && SlotOf(own) == SlotOf(c);
    forall b | b in chosen && b.Overlaps(c) ensures !Outranks(b, c) {
      InLineApart(chosen, own, b);
    }
  }

  /** A characterisation without any order of processing: a candidate's slot is taken exactly when no
      accepted entity both outranks and overlaps it. */
  lemma AcceptedIffNotBeaten(ordered: seq<Candidate>, c: Candidate)
    requires SortedBy(ordered, RankLe) && c in ordered
    ensures Holds(Resolve(ordered), SlotOf(c)) <==> !Beaten(Resolve(ordered), c)
  {
    var chosen := Resolve(ordered);
    if Holds(chosen, SlotOf(c)) {
      TakenIsNotBeaten(chosen, c);
    } else {
      EveryCandidateYields(ordered, c);
      var a :| a in chosen && a.Overlaps(c) && RankLe(a, c);
      assert Outranks(a, c);
    }
  }

  lemma {:induction false} AgreeOnCandidate(o1: seq<Candidate>, o2: seq<Candidate>, i: nat)
    requires SortedBy(o1, RankLe) && SortedBy(o2, RankLe) && SameSlots(o1, o2) && i < |o1|
    ensures Holds(Resolve(o1), SlotOf(o1[i])) <==> Holds(Resolve(o2), SlotOf(o1[i]))
    decreases i
  {
    var c := o1[i];
    assert Holds(o1, SlotOf(c));
    var c2 :| c2 in o2 && SlotOf(c2) == SlotOf(c);
    AcceptedIffNotBeaten(o1, c);
    AcceptedIffNotBeaten(o2, c2);
    forall j | 0 <= j < i
      ensures Holds(Resolve(o1), SlotOf(o1[j])) <==> Holds(Resolve(o2), SlotOf(o1[j]))
    {
      AgreeOnCandidate(o1, o2, j);
    }
    AcceptedSlots(o1, o1);
    AcceptedSlots(o2, o1);
    BeatenAlike(o1, Resolve(o1), Resolve(o2), i);
    BeatenAlike(o1, Resolve(o2), Resolve(o1), i);
    BeatenBySlot(Resolve(o2), c, c2);
  }

  lemma AcceptedSlots(ordered: seq<Candidate>, other: seq<Candidate>)
    requires SameSlots(ordered, other)
    ensures forall a :: a in Resolve(ordered) ==> Holds(other, SlotOf(a))
  {
    AcceptedAreCandidates(ordered);
    assert forall a :: a in ordered ==> Holds(ordered, SlotOf(a));
  }

  lemma BeatenBySlot(chosen: seq<Candidate>, c: Candidate, d: Candidate)
    requires SlotOf(c) == SlotOf(d)
    ensures Beaten(chosen, c) <==> Beaten(chosen, d)
  {
    if Beaten(chosen, c) {
      var a :| a in chosen && Outranks(a, c) && a.Overlaps(c);
      assert Outranks(a, d) && a.Overlaps(d);
    }
    if Beaten(chosen, d) {
      var a :| a in chosen && Outranks(a, d) && a.Overlaps(d);
      assert Outranks(a, c) && a.Overlaps(c);
    }
  }

  lemma BeatenAlike(ordered: seq<Candidate>, xs: seq<Candidate>, ys: seq<Candidate>, i: nat)
    requires SortedBy(ordered, RankLe) && i < |ordered|
    requires forall a :: a in xs ==> Holds(ordered, SlotOf(a))
    requires forall j :: 0 <= j < i ==> Holds(xs, SlotOf(ordered[j])) ==> Holds(ys, SlotOf(ordered[j]))
    ensures Beaten(xs, ordered[i]) ==> Beaten(ys, ordered[i])
  {
    var c := ordered[i];
    if Beaten(xs, c) {
      var a :| a in xs && Outranks(a, c) && a.Overlaps(c);
      var j :| 0 <= j < |ordered| && SlotOf(ordered[j]) == SlotOf(a);
      OutrankersComeFirst(ordered, j, i);
      assert Outranks(ordered[j], c);
      assert Holds(xs, SlotOf(ordered[j]));
      var b :| b in ys && SlotOf(b) == SlotOf(a);
      assert Outranks(b, c) && b.Overlaps(c);
    }
  }

  lemma OutrankersComeFirst(ordered: seq<Candidate>, j: nat, i: nat)
    requires SortedBy(ordered, RankLe) && i < |ordered| && j < |ordered|
    ensures Outranks(ordered[j], ordered[i]) ==> j < i
  {
    if i < j {
      assert RankLe(ordered[i], ordered[j]);
    }
  }

  lemma FirstSlotsAgree(xs: seq<Candidate>, ys: seq<Candidate>)
    requires InLine(xs) && InLine(ys) && SameSlots(xs, ys) && xs != [] && ys != []
    ensures SlotOf(xs[0]) == SlotOf(ys[0])
  {
    assert Holds(ys, SlotOf(ys[0])) && Holds(xs, SlotOf(xs[0]));
    var j :| 0 <= j < |ys| && SlotOf(ys[j]) == SlotOf(xs[0]);
    var k :| 0 <= k < |xs| && SlotOf(xs[k]) == SlotOf(ys[0]);
    FirstIsEarliest(xs, k);
    FirstIsEarliest(ys, j);
  }

  lemma {:induction false} InLineSlotsDetermined(xs: seq<Candidate>, ys: seq<Candidate>)
    requires InLine(xs) && InLine(ys) && SameSlots(xs, ys)
    ensures Slots(xs) == Slots(ys)
  {
    if ys != [] {
      assert Holds(ys, SlotOf(ys[0]));
    }
    if xs != [] {
      assert Holds(xs, SlotOf(xs[0]));
      FirstSlotsAgree(xs, ys);
      TailsHoldTheSame(xs, ys);
      TailsHoldTheSame(ys, xs);
      InLineSlotsDetermined(xs[1..], ys[1..]);
      assert Slots(xs) == [SlotOf(xs[0])] + Slots(xs[1..]);
      assert Slots(ys) == [SlotOf(ys[0])] + Slots(ys[1..]);
    }
  }

  lemma FirstIsEarliest(es: seq<Candidate>, k: nat)
    requires InLine(es) && k < |es|
    ensures es[0].Start() <= es[k].Start()
    ensures k > 0 ==> es[0].Start() < es[k].Start()
  {
    assert k > 0 ==> es[0].End() <= es[k].Start() && es[0].Proper();
  }

  lemma TailsHoldTheSame(xs: seq<Candidate>, ys: seq<Candidate>)
    requires InLine(xs) && InLine(ys) && SameSlots(xs, ys) && xs != [] && ys != []
    requires SlotOf(xs[0]) == SlotOf(ys[0])
    ensures forall s :: Holds(xs[1..], s) ==> Holds(ys[1..], s)
  {
    forall s | Holds(xs[1..], s) ensures Holds(ys[1..], s) {
      var i :| 0 <= i < |xs[1..]| && SlotOf(xs[1..][i]) == s;
      FirstIsEarliest(xs, i + 1);
      assert xs[i + 1] in xs && Holds(xs, s);
      var j :| 0 <= j < |ys| && SlotOf(ys[j]) == s;
      assert j > 0 && ys[j] == ys[1..][j - 1];
    }
  }

  /** The accepted slots depend only on which slots are competed for: not on the order of the candidates,
      nor on how often one is repeated. */
  lemma ResolutionIsCanonical(xs: seq<Candidate>, ys: seq<Candidate>)
    requires SameSlots(xs, ys)
    ensures Slots(Resolve(Sort(xs, RankLe))) == Slots(Resolve(Sort(ys, RankLe)))
  {
    var o1, o2 := Sort(xs, RankLe), Sort(ys, RankLe);
    RankIsTotal();
    SortSorts(xs, RankLe);
    SortSorts(ys, RankLe);
    SortMembers(xs, RankLe);
    SortMembers(ys, RankLe);
    assert forall s :: Holds(o1, s) <==> Holds(xs, s);
    assert forall s :: Holds(o2, s) <==> Holds(ys, s);
    AcceptedAreCandidates(o1);
    AcceptedAreCandidates(o2);
    forall s ensures Holds(Resolve(o1), s) <==> Holds(Resolve(o2), s) {
      if Holds(o1, s) {
        var c :| c in o1 && SlotOf(c) == s;
        var i :| 0 <= i < |o1| && o1[i] == c;
        AgreeOnCandidate(o1, o2, i);
      }
    }
    InLineSlotsDetermined(Resolve(o1), Resolve(o2));
  }

  lemma PermutationsResolveAlike(xs: seq<Candidate>, ys: seq<Candidate>)
    requires multiset(xs) == multiset(ys)
    ensures Slots(Resolve(Sort(xs, RankLe))) == Slots(Resolve(Sort(ys, RankLe)))
  {
    forall s ensures Holds(xs, s) <==> Holds(ys, s) {
      assert forall a :: a in xs <==> a in multiset(xs);
      assert forall a :: a in ys <==> a in multiset(ys);
    }
    ResolutionIsCanonical(xs, ys);
  }

  // ---- "only together with ..." ----

  function Types(es: seq<Candidate>): set<PDType> {
    set e | e in es :: e.pdType
  }

  predicate Satisfied(e: Candidate, combinations: Combinations, present: set<PDType>) {
    && (e.requiresAny == {} || e.requiresAny * present != {})
    && (e.pdType !in combinations || combinations[e.pdType] == {} || combinations[e.pdType] * present != {})
  }

  function Keep(es: seq<Candidate>, combinations: Combinations, present: set<PDType>): seq<Candidate> {
    if es == [] then []
    else (if Satisfied(es[0], combinations, present) then [es[0]] else []) + Keep(es[1..], combinations, present)
  }

  /** Every member is satisfied by the types of the members. */
  ghost predicate SelfSupporting(es: seq<Candidate>, combinations: Combinations) {
    forall e :: e in es ==> Satisfied(e, combinations, Types(es))
  }

  lemma {:induction false} KeepMembers(es: seq<Candidate>, combinations: Combinations, present: set<PDType>)
    ensures forall e :: e in Keep(es, combinations, present) <==> e in es && Satisfied(e, combinations, present)
    ensures |Keep(es, combinations, present)| <= |es|
    ensures |Keep(es, combinations, present)| == |es| ==> Keep(es, combinations, present) == es
  {
    if es != [] {
      KeepMembers(es[1..], combinations, present);
      assert es == [es[0]] + es[1..];
      assert forall e :: e in es <==> e == es[0] || e in es[1..];
    }
  }

  lemma {:induction false} KeepInLine(es: seq<Candidate>, combinations: Combinations, present: set<PDType>)
    requires InLine(es)
    ensures InLine(Keep(es, combinations, present))
  {
    if es != [] {
      FirstEndsBefore(es);
      KeepInLine(es[1..], combinations, present);
      KeepMembers(es[1..], combinations, present);
      PrependInLine(es[0], Keep(es[1..], combinations, present));
    }
  }

  lemma FirstEndsBefore(es: seq<Candidate>)
    requires InLine(es) && es != []
    ensures InLine(es[1..])
    ensures forall r :: r in es[1..] ==> es[0].End() <= r.Start()
  {
    forall r | r in es[1..] ensures es[0].End() <= r.Start() {
      var j :| 0 <= j < |es[1..]| && es[1..][j] == r;
      assert es[j + 1] == r;
    }
  }

  lemma PrependInLine(e: Candidate, rest: seq<Candidate>)
    requires InLine(rest) && forall r :: r in rest ==> e.End() <= r.Start()
    ensures InLine([e] + rest)
  {
  }

  lemma KeepCons(e: Candidate, es: seq<Candidate>, combinations: Combinations, present: set<PDType>)
    ensures Keep([e] + es, combinations, present)
         == (if Satisfied(e, combinations, present) then [e] else []) + Keep(es, combinations, present)
  {
    assert ([e] + es)[1..] == es;
  }

  lemma {:induction false} KeepTwice(
    es: seq<Candidate>, combinations: Combinations, wide: set<PDType>, narrow: set<PDType>)
    requires narrow <= wide
    ensures Keep(Keep(es, combinations, wide), combinations, narrow) == Keep(es, combinations, narrow)
  {
    if es != [] {
      var rest := Keep(es[1..], combinations, wide);
      KeepTwice(es[1..], combinations, wide, narrow);
      KeepCons(es[0], rest, combinations, narrow);
      assert [] + rest == rest;
      if Satisfied(es[0], combinations, narrow) {
        SatisfiedIsMonotone(es[0], combinations, wide, narrow);
      }
    }
  }

  lemma SatisfiedIsMonotone(e: Candidate, combinations: Combinations, wide: set<PDType>, narrow: set<PDType>)
    requires narrow <= wide && Satisfied(e, combinations, narrow)
    ensures Satisfied(e, combinations, wide)
  {
    assert e.requiresAny * narrow <= e.requiresAny * wide;
    if e.pdType in combinations {
      assert combinations[e.pdType] * narrow <= combinations[e.pdType] * wide;
    }
  }

  /** The list the filtering settles on. */
  function Supported(es: seq<Candidate>, combinations: Combinations): seq<Candidate>
    decreases |es|
  {
    var filtered := Keep(es, combinations, Types(es));
    KeepMembers(es, combinations, Types(es));
    if |filtered| == |es| then filtered else Supported(filtered, combinations)
  }

  /** How many passes over the list that takes. */
  ghost function Passes(es: seq<Candidate>, combinations: Combinations): nat
    decreases |es|
  {
    var filtered := Keep(es, combinations, Types(es));
    KeepMembers(es, combinations, Types(es));
    if |filtered| == |es| then 1 else 1 + Passes(filtered, combinations)
  }

  method ApplyRequirements(entities: seq<Candidate>, combinations: Combinations)
    returns (filtered: seq<Candidate>, ghost passes: nat)
    ensures filtered == Supported(entities, combinations)
    ensures passes <= |Types(entities)| + 1
    ensures forall e :: e in filtered <==> e in entities && Backed(e, filtered, combinations)
    ensures forall sub :: BacksItself(sub, entities, combinations) ==> forall e :: e in sub ==> e in filtered
  {
    var kept := entities;
    passes := 0;
    while true
      invariant Supported(kept, combinations) == Supported(entities, combinations)
      invariant passes + Passes(kept, combinations) == Passes(entities, combinations)
      decreases |kept|
    {
      var present := Types(kept);
      filtered := Keep(kept, combinations, present);
      passes := passes + 1;
      KeepMembers(kept, combinations, present);
      if |filtered| == |kept| {
        PassesBounded(entities, combinations);
        SupportedByBacking(entities, combinations);
        return;
      }
      kept := filtered;
    }
  }

  // In other words: one entity of any of the required types is enough.

  ghost predicate SomeOf(types: set<PDType>, es: seq<Candidate>) {
    exists f :: f in es && f.pdType in types
  }

  /** The entity's own condition and its type's condition, where there is one, are met. */
  ghost predicate Backed(e: Candidate, es: seq<Candidate>, combinations: Combinations) {
    && (e.requiresAny != {} ==> SomeOf(e.requiresAny, es))
    && (e.pdType in combinations && combinations[e.pdType] != {} ==> SomeOf(combinations[e.pdType], es))
  }

  ghost predicate BacksItself(sub: seq<Candidate>, es: seq<Candidate>, combinations: Combinations) {
    forall e :: e in sub ==> e in es && Backed(e, sub, combinations)
  }

  lemma SomeOfMeans(types: set<PDType>, es: seq<Candidate>)
    ensures SomeOf(types, es) <==> types * Types(es) != {}
  {
    if SomeOf(types, es) {
      var f :| f in es && f.pdType in types;
      assert f.pdType in types * Types(es);
    }
    if types * Types(es) != {} {
      var t :| t in types * Types(es);
      assert t in types && t in Types(es);
    }
  }

  lemma SatisfiedMeans(e: Candidate, es: seq<Candidate>, combinations: Combinations)
    ensures Satisfied(e, combinations, Types(es)) <==> Backed(e, es, combinations)
  {
    SomeOfMeans(e.requiresAny, es);
    if e.pdType in combinations {
      SomeOfMeans(combinations[e.pdType], es);
    }
  }

  /** The survivors are the entities that the survivors back, and the largest such selection. */
  lemma SupportedByBacking(es: seq<Candidate>, combinations: Combinations)
    ensures var kept := Supported(es, combinations);
      && (forall e :: e in kept <==> e in es && Backed(e, kept, combinations))
      && (forall sub :: BacksItself(sub, es, combinations) ==> forall e :: e in sub ==> e in kept)
  {
    var kept := Supported(es, combinations);
    SupportedIsGreatest(es, combinations);
    KeepMembers(es, combinations, Types(kept));
    forall e ensures e in kept <==> e in es && Backed(e, kept, combinations) {
      SatisfiedMeans(e, kept, combinations);
    }
    forall sub | BacksItself(sub, es, combinations)
      ensures forall e :: e in sub ==> e in kept
    {
      forall e | e in sub ensures Satisfied(e, combinations, Types(sub)) {
        SatisfiedMeans(e, sub, combinations);
      }
      assert SelfSupporting(sub, combinations);
    }
  }

  /** What survives: every survivor is satisfied by the survivors' types, nothing satisfied by them was
      dropped and the order is kept, and no self-supporting selection reaches beyond the survivors. */
  lemma SupportedIsGreatest(es: seq<Candidate>, combinations: Combinations)
    ensures var kept := Supported(es, combinations);
      && SelfSupporting(kept, combinations)
      && kept == Keep(es, combinations, Types(kept))
      && (forall sub: seq<Candidate> ::
            (forall e :: e in sub ==> e in es) && SelfSupporting(sub, combinations)
            ==> forall e :: e in sub ==> e in kept)
  {
    SupportedSettles(es, combinations);
    var kept := Supported(es, combinations);
    KeepMembers(es, combinations, Types(kept));
    forall sub: seq<Candidate> |
      (forall e :: e in sub ==> e in es) && SelfSupporting(sub, combinations)
      ensures forall e :: e in sub ==> e in kept
    {
      SupportedContains(es, sub, combinations);
    }
  }

  lemma {:induction false} SupportedSettles(es: seq<Candidate>, combinations: Combinations)
    ensures var kept := Supported(es, combinations);
      && kept == Keep(es, combinations, Types(kept))
      && Types(kept) <= Types(es)
    decreases |es|
  {
    var filtered := Keep(es, combinations, Types(es));
    KeepMembers(es, combinations, Types(es));
    if |filtered| != |es| {
      SupportedSettles(filtered, combinations);
      KeepTwice(es, combinations, Types(es), Types(Supported(es, combinations)));
    }
  }

  lemma {:induction false} SupportedContains(es: seq<Candidate>, sub: seq<Candidate>, combinations: Combinations)
    requires (forall e :: e in sub ==> e in es) && SelfSupporting(sub, combinations)
    ensures forall e :: e in sub ==> e in Supported(es, combinations)
    decreases |es|
  {
    var filtered := Keep(es, combinations, Types(es));
    KeepMembers(es, combinations, Types(es));
    forall e | e in sub ensures e in filtered {
      SatisfiedIsMonotone(e, combinations, Types(es), Types(sub));
    }
    if |filtered| != |es| {
      SupportedContains(filtered, sub, combinations);
    }
  }

  /** More entities in the text never make the filtering drop more. */
  lemma SupportedIsMonotone(fewer: seq<Candidate>, more: seq<Candidate>, combinations: Combinations)
    requires forall e :: e in fewer ==> e in more
    ensures forall e :: e in Supported(fewer, combinations) ==> e in Supported(more, combinations)
  {
    var kept := Supported(fewer, combinations);
    SupportedIsGreatest(fewer, combinations);
    KeepMembers(fewer, combinations, Types(kept));
    SupportedContains(more, kept, combinations);
  }

  lemma {:induction false} PassesBounded(es: seq<Candidate>, combinations: Combinations)
    ensures Passes(es, combinations) <= |Types(es)| + 1
    decreases |es|
  {
    var filtered := Keep(es, combinations, Types(es));
    KeepMembers(es, combinations, Types(es));
    if |filtered| != |es| {
      assert Types(filtered) <= Types(es) && es[0].pdType in Types(es);
      if Types(filtered) == Types(es) {
        KeepTwice(es, combinations, Types(es), Types(es));
        assert Passes(filtered, combinations) == 1;
      } else {
        PassesBounded(filtered, combinations);
        SmallerSet(Types(filtered), Types(es));
      }
    }
  }

  lemma SmallerSet<T>(a: set<T>, b: set<T>)
    requires a < b
    ensures |a| < |b|
  {
    assert b == a + (b - a) && b - a != {};
  }

  // ---- detection ----

  datatype Detector = Detector(types: set<PDType>, needsDigits: bool, run: string -> seq<Option<Candidate>>) {
    predicate Applicable(hasDigits: bool, enabled: set<PDType>) {
      types * enabled != {} && (hasDigits || !needsDigits)
    }
  }

  predicate StartLe(a: Candidate, b: Candidate) {
    a.Start() <= b.Start()
  }

  function Wanted(found: seq<Option<Candidate>>, enabled: set<PDType>): seq<Candidate> {
    if found == [] then []
    else
      (if found[0].Some? && found[0].value.pdType in enabled then [found[0].value] else [])
      + Wanted(found[1..], enabled)
  }

  datatype DetectionEngine = DetectionEngine(detectors: seq<Detector>, hasDigits: string -> bool) {

    function CandidatesFrom(k: nat, text: string, enabled: set<PDType>): seq<Candidate>
      requires k <= |detectors|
      decreases |detectors| - k
    {
      if k == |detectors| then []
      else
        CandidatesOf(detectors[k], text, enabled) + CandidatesFrom(k + 1, text, enabled)
    }

    function CandidatesOf(d: Detector, text: string, enabled: set<PDType>): seq<Candidate> {
      if d.Applicable(hasDigits(text), enabled) then Wanted(d.run(text), enabled) else []
    }

    ghost function Detected(text: string, enabled: set<PDType>, combinations: Combinations): seq<Candidate> {
      if text == "" || enabled == {} then []
      else Supported(Resolve(Sort(CandidatesFrom(0, text, enabled), RankLe)), combinations)
    }

    method Detect(text: string, enabled: set<PDType>, combinations: Combinations) returns (found: seq<Candidate>)
      ensures found == Detected(text, enabled, combinations)
      ensures InLine(found) && SelfSupporting(found, combinations)
      ensures forall e :: e in found ==> Competes(e, text, enabled) && Backed(e, found, combinations)
      ensures text != "" ==> forall c :: Competes(c, text, enabled) ==> Yielded(c, text, enabled, combinations, found)
      ensures text != "" && combinations == map[] && NothingRequired(text, enabled) ==>
                forall c :: Competes(c, text, enabled) ==> GivesWay(c, found)
    {
      DetectedIsInLine(text, enabled, combinations);
      forall c | text != "" && Competes(c, text, enabled)
        ensures Yielded(c, text, enabled, combinations, Detected(text, enabled, combinations))
      {
        IsNotOverlooked(text, enabled, combinations, c);
      }
      if text == "" || enabled == {} {
        return [];
      }
      var candidates := CandidatesFrom(0, text, enabled);
      var accepted := ResolveOverlaps(candidates);
      var kept, passes := ApplyRequirements(accepted, combinations);
      assert SortedBy(kept, StartLe) by {
        forall i, j | 0 <= i < j < |kept| ensures StartLe(kept[i], kept[j]) {
          assert kept[i].End() <= kept[j].Start() && kept[i].Proper();
        }
      }
      SortOfSorted(kept, StartLe);
      found := Sort(kept, StartLe);
    }

    /** Some detector that looks for an enabled type, and needs no digits or has them, reports `e`, of an enabled
        type, in `text`. */
    ghost predicate Competes(e: Candidate, text: string, enabled: set<PDType>) {
      e.pdType in enabled && exists k :: 0 <= k < |detectors| && ReportedBy(detectors[k], e, text, enabled)
    }

    ghost predicate ReportedBy(d: Detector, e: Candidate, text: string, enabled: set<PDType>) {
      && (exists t :: t in d.types && t in enabled)
      && (d.needsDigits ==> hasDigits(text))
      && Some(e) in d.run(text)
    }

    /** A competing candidate ahead of `c` has been found, or is dropped because nothing found backs it. */
    ghost predicate Yielded(
      c: Candidate, text: string, enabled: set<PDType>, combinations: Combinations, found: seq<Candidate>)
    {
      exists a :: Competes(a, text, enabled) && Ahead(a, c) && (a in found || !Backed(a, found, combinations))
    }

    ghost predicate NothingRequired(text: string, enabled: set<PDType>) {
      forall e :: Competes(e, text, enabled) ==> e.requiresAny == {}
    }

    lemma CandidatesOfMeans(d: Detector, text: string, enabled: set<PDType>, c: Candidate)
      ensures c in CandidatesOf(d, text, enabled) <==> c.pdType in enabled && ReportedBy(d, c, text, enabled)
    {
      WantedAreTheFound(d.run(text), enabled, c);
      ApplicableMeans(d, hasDigits(text), enabled);
    }

    ghost function Reports(text: string, enabled: set<PDType>): (reports: seq<seq<Candidate>>)
      ensures |reports| == |detectors|
    {
      seq(|detectors|, k requires 0 <= k < |detectors| => CandidatesOf(detectors[k], text, enabled))
    }

    lemma {:induction false} ReportsUpTo(k: nat, text: string, enabled: set<PDType>)
      requires k <= |detectors|
      ensures CandidatesFrom(0, text, enabled)
           == Flatten(Reports(text, enabled)[..k]) + CandidatesFrom(k, text, enabled)
    {
      if k > 0 {
        ReportsUpTo(k - 1, text, enabled);
        assert Reports(text, enabled)[..k][..k - 1] == Reports(text, enabled)[..k - 1];
      }
    }

    lemma CandidatesAreTheReports(text: string, enabled: set<PDType>)
      ensures CandidatesFrom(0, text, enabled) == Flatten(Reports(text, enabled))
    {
      ReportsUpTo(|detectors|, text, enabled);
      assert Reports(text, enabled)[..|detectors|] == Reports(text, enabled);
    }

    lemma CandidatesCompete(text: string, enabled: set<PDType>, e: Candidate)
      ensures e in CandidatesFrom(0, text, enabled) <==> Competes(e, text, enabled)
    {
      CandidatesAreTheReports(text, enabled);
      FlattenMembers(Reports(text, enabled), e);
      forall k | 0 <= k < |detectors|
        ensures e in Reports(text, enabled)[k] <==> e.pdType in enabled && ReportedBy(detectors[k], e, text, enabled)
      {
        CandidatesOfMeans(detectors[k], text, enabled, e);
      }
    }

    /** No competing candidate is overlooked. */
    lemma IsNotOverlooked(text: string, enabled: set<PDType>, combinations: Combinations, c: Candidate)
      requires text != "" && Competes(c, text, enabled)
      ensures Yielded(c, text, enabled, combinations, Detected(text, enabled, combinations))
    {
      var candidates := CandidatesFrom(0, text, enabled);
      CandidatesCompete(text, enabled, c);
      var a := PlaceTakenBy(candidates, c);
      CandidatesCompete(text, enabled, a);
      SurvivesIfBacked(Resolve(Sort(candidates, RankLe)), combinations, a);
      assert enabled != {};
    }

    /** Nothing that `d` reports takes the place `s`. */
    ghost predicate LeavesFree(d: Detector, text: string, enabled: set<PDType>, s: Slot) {
      forall c: Candidate :: c.pdType in enabled && ReportedBy(d, c, text, enabled) ==> SlotOf(c) != s
    }

    /** Where candidates compete for one place, the detector listed first wins, and of its reports the first one. */
    lemma FoundIsReportedFirst(text: string, enabled: set<PDType>, combinations: Combinations, e: Candidate)
      returns (n: nat, i: nat)
      requires e in Detected(text, enabled, combinations)
      ensures n < |detectors| && ReportedBy(detectors[n], e, text, enabled)
      ensures i < |detectors[n].run(text)| && detectors[n].run(text)[i] == Some(e)
      ensures forall j :: 0 <= j < n ==> LeavesFree(detectors[j], text, enabled, SlotOf(e))
      ensures var found := detectors[n].run(text);
        forall j :: 0 <= j < i && found[j].Some? && found[j].value.pdType in enabled ==>
          SlotOf(found[j].value) != SlotOf(e)
    {
      var s := SlotOf(e);
      SurvivorIsFirst(CandidatesFrom(0, text, enabled), combinations, e);
      n := FirstDetector(text, enabled, e, s);
      forall j | 0 <= j < n ensures LeavesFree(detectors[j], text, enabled, s) {
        NoneIsReported(detectors[j], text, enabled, s);
      }
      FirstIsReported(detectors[n], text, enabled, e, s);
      i := FirstReport(detectors[n].run(text), enabled, e, s);
    }

    lemma FirstDetector(text: string, enabled: set<PDType>, e: Candidate, s: Slot) returns (n: nat)
      requires First(CandidatesFrom(0, text, enabled), InSlot(s)) == Some(e)
      ensures n < |detectors| && First(CandidatesOf(detectors[n], text, enabled), InSlot(s)) == Some(e)
      ensures forall j :: 0 <= j < n ==> First(CandidatesOf(detectors[j], text, enabled), InSlot(s)) == None
    {
      var reports := Reports(text, enabled);
      CandidatesAreTheReports(text, enabled);
      n := FirstOfFlattened(reports, InSlot(s));
      forall j | 0 <= j < n ensures First(CandidatesOf(detectors[j], text, enabled), InSlot(s)) == None {
        assert reports[j] == CandidatesOf(detectors[j], text, enabled);
      }
    }

    lemma NoneIsReported(d: Detector, text: string, enabled: set<PDType>, s: Slot)
      requires First(CandidatesOf(d, text, enabled), InSlot(s)) == None
      ensures LeavesFree(d, text, enabled, s)
    {
      FirstMeans(CandidatesOf(d, text, enabled), InSlot(s));
      forall c: Candidate | c.pdType in enabled && ReportedBy(d, c, text, enabled) ensures SlotOf(c) != s {
        CandidatesOfMeans(d, text, enabled, c);
        assert !InSlot(s)(c);
      }
    }

    lemma FirstIsReported(d: Detector, text: string, enabled: set<PDType>, e: Candidate, s: Slot)
      requires First(CandidatesOf(d, text, enabled), InSlot(s)) == Some(e)
      ensures ReportedBy(d, e, text, enabled)
      ensures First(Wanted(d.run(text), enabled), InSlot(s)) == Some(e)
    {
      FirstMeans(CandidatesOf(d, text, enabled), InSlot(s));
      CandidatesOfMeans(d, text, enabled, e);
    }

    /** What the engine promises the masker. */
    lemma DetectedIsInLine(text: string, enabled: set<PDType>, combinations: Combinations)
      ensures var found := Detected(text, enabled, combinations);
        && InLine(found)
        && SelfSupporting(found, combinations)
        && (forall e :: e in found ==> e in CandidatesFrom(0, text, enabled))
        && (forall e :: e in found ==> Competes(e, text, enabled) && Backed(e, found, combinations))
    {
      if text != "" && enabled != {} {
        var candidates := CandidatesFrom(0, text, enabled);
        var accepted := Resolve(Sort(candidates, RankLe));
        var found := Supported(accepted, combinations);
        RankIsTotal();
        SortMembers(candidates, RankLe);
        AcceptedAreCandidates(Sort(candidates, RankLe));
        SupportedIsGreatest(accepted, combinations);
        SupportedByBacking(accepted, combinations);
        KeepInLine(accepted, combinations, Types(found));
        forall e | e in found ensures e in candidates && Competes(e, text, enabled) {
          CandidatesCompete(text, enabled, e);
        }
      }
    }
  }

  lemma SurvivesIfBacked(es: seq<Candidate>, combinations: Combinations, a: Candidate)
    requires a in es
    ensures a in Supported(es, combinations) <==> Backed(a, Supported(es, combinations), combinations)
  {
    SupportedByBacking(es, combinations);
  }

  lemma SurvivorIsFirst(candidates: seq<Candidate>, combinations: Combinations, e: Candidate)
    requires e in Supported(Resolve(Sort(candidates, RankLe)), combinations)
    ensures First(candidates, InSlot(SlotOf(e))) == Some(e)
  {
    var ordered := Sort(candidates, RankLe);
    SupportedByBacking(Resolve(ordered), combinations);
    RankIsTotal();
    SortSorts(candidates, RankLe);
    AcceptedIsFirstInOrder(ordered, e);
    SortKeepsFirst(candidates, RankLe, InSlot(SlotOf(e)));
  }

  lemma {:induction false} FirstReport(
    found: seq<Option<Candidate>>, enabled: set<PDType>, e: Candidate, s: Slot) returns (i: nat)
    requires First(Wanted(found, enabled), InSlot(s)) == Some(e)
    ensures i < |found| && found[i] == Some(e)
    ensures forall j :: 0 <= j < i && found[j].Some? && found[j].value.pdType in enabled ==> SlotOf(found[j].value) != s
  {
    var rest := Wanted(found[1..], enabled);
    if found[0].Some? && found[0].value.pdType in enabled {
      assert ([found[0].value] + rest)[1..] == rest;
      if SlotOf(found[0].value) == s {
        i := 0;
        return;
      }
    } else {
      assert [] + rest == rest;
    }
    var later := FirstReport(found[1..], enabled, e, s);
    i := later + 1;
    assert forall j :: 0 < j < i ==> found[j] == found[1..][j - 1];
  }

  lemma ApplicableMeans(d: Detector, hasDigits: bool, enabled: set<PDType>)
    ensures d.Applicable(hasDigits, enabled)
       <==> (exists t :: t in d.types && t in enabled) && (d.needsDigits ==> hasDigits)
  {
    if exists t :: t in d.types && t in enabled {
      var t :| t in d.types && t in enabled;
      assert t in d.types * enabled;
    }
    if d.types * enabled != {} {
      var t :| t in d.types * enabled;
    }
  }

  lemma {:induction false} WantedAreTheFound(found: seq<Option<Candidate>>, enabled: set<PDType>, e: Candidate)
    ensures e in Wanted(found, enabled) <==> e.pdType in enabled && Some(e) in found
  {
    if found != [] {
      WantedAreTheFound(found[1..], enabled, e);
      assert found == [found[0]] + found[1..];
    }
  }
}
