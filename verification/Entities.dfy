/** app/core/entities.py: the personal-data types and the stretch of text an entity covers. */
module Entities {
  import opened Sorting
  import opened Wrappers

  datatype PDType =
    | Fio | BirthDate | BirthPlace | Passport | Citizenship | PassportIssuer | DepartmentCode
    | PassportIssueDate | DriverLicense | Address | Email | Phone | Inn | CardNumber | CardCvv
    | CardPin | CardHolder | CardExpiry | Date | Snils | ForeignPassport | MilitaryId | BirthCertificate

  datatype Interval = Interval(lo: int, hi: int) {
    predicate Nonempty() {
      hi > lo
    }
  }

  datatype Entity = Entity(
    pdType: PDType, parts: seq<Interval>, priority: int, subtype: string, requiresAny: set<PDType>)
  {
    function Start(): int
      requires parts != []
    {
      parts[0].lo
    }

    function End(): int
      requires parts != []
    {
      parts[|parts| - 1].hi
    }

    function Length(): int
      requires parts != []
    {
      End() - Start()
    }

    predicate Overlaps(other: Entity)
      requires parts != [] && other.parts != []
    {
      Start() < other.End() && other.Start() < End()
    }

    /** Covers at least one character: all that overlap resolution relies on. */
    predicate Proper() {
      parts != [] && Start() < End()
    }

    /** The masked intervals are non-empty and follow one another. */
    predicate WellFormed() {
      && parts != []
      && (forall i :: 0 <= i < |parts| ==> parts[i].Nonempty())
      && (forall i, j :: 0 <= i < j < |parts| ==> parts[i].hi <= parts[j].lo)
    }

    predicate Within(text: string) {
      parts != [] && 0 <= Start() && End() <= |text|
    }
  }

  predicate IntervalLe(a: Interval, b: Interval) {
    a.lo < b.lo || (a.lo == b.lo && a.hi <= b.hi)
  }

  function NonemptyOnes(parts: seq<Interval>): seq<Interval> {
    if parts == [] then []
    else (if parts[0].Nonempty() then [parts[0]] else []) + NonemptyOnes(parts[1..])
  }

  function MakeEntity(
    pdType: PDType, parts: seq<Interval>, priority: int, subtype: string, requiresAny: set<PDType>): Option<Entity>
  {
    var clean := Sort(NonemptyOnes(parts), IntervalLe);
    if clean == [] then None else Some(Entity(pdType, clean, priority, subtype, requiresAny))
  }

  predicate Apart(a: Interval, b: Interval) {
    a.hi <= b.lo || b.hi <= a.lo
  }

  predicate ApartFromAll(x: Interval, ys: seq<Interval>) {
    forall y | y in ys :: Apart(x, y)
  }

  predicate PairwiseApart(xs: seq<Interval>) {
    xs == [] || (ApartFromAll(xs[0], xs[1..]) && PairwiseApart(xs[1..]))
  }

  lemma NonemptyOnesAreNonempty(parts: seq<Interval>)
    ensures forall p :: p in NonemptyOnes(parts) <==> p in parts && p.Nonempty()
  {
  }

  lemma {:induction false} InsertKeepsApart(x: Interval, xs: seq<Interval>)
    ensures PairwiseApart(Insert(x, xs, IntervalLe)) <==> PairwiseApart([x] + xs)
  {
    assert ([x] + xs)[1..] == xs;
    if xs == [] || IntervalLe(x, xs[0]) {
    } else {
      var head, tail := xs[0], xs[1..];
      var rest := Insert(x, tail, IntervalLe);
      InsertKeepsApart(x, tail);
      InsertPermutes(x, tail, IntervalLe);
      assert ([head] + rest)[1..] == rest && ([x] + tail)[1..] == tail && xs == [head] + tail;
      forall y ensures y in rest <==> y == x || y in tail {
        assert y in multiset(rest) <==> y == x || y in multiset(tail);
      }
      assert x in rest && forall y :: y in tail ==> y in rest;
      assert ApartFromAll(head, rest) <==> Apart(x, head) && ApartFromAll(head, tail);
      assert head in xs && forall y :: y in tail ==> y in xs;
      assert ApartFromAll(x, xs) <==> Apart(x, head) && ApartFromAll(x, tail);
    }
  }

  lemma {:induction false} SortKeepsApart(xs: seq<Interval>)
    ensures PairwiseApart(Sort(xs, IntervalLe)) <==> PairwiseApart(xs)
  {
    if xs != [] {
      var sorted := Sort(xs[1..], IntervalLe);
      SortKeepsApart(xs[1..]);
      InsertKeepsApart(xs[0], sorted);
      SortMembers(xs[1..], IntervalLe);
      assert ([xs[0]] + sorted)[1..] == sorted;
    }
  }

  predicate InOrder(xs: seq<Interval>) {
    forall i, j :: 0 <= i < j < |xs| ==> xs[i].hi <= xs[j].lo
  }

  predicate BeforeAll(x: Interval, xs: seq<Interval>) {
    forall j :: 0 <= j < |xs| ==> x.hi <= xs[j].lo
  }

  lemma InOrderUnfolds(xs: seq<Interval>)
    requires xs != []
    ensures InOrder(xs) <==> BeforeAll(xs[0], xs[1..]) && InOrder(xs[1..])
  {
    if InOrder(xs) {
      forall i, j | 0 <= i < j < |xs[1..]| ensures xs[1..][i].hi <= xs[1..][j].lo {
        assert xs[i + 1].hi <= xs[j + 1].lo;
      }
    }
    if BeforeAll(xs[0], xs[1..]) && InOrder(xs[1..]) {
      forall i, j | 0 <= i < j < |xs| ensures xs[i].hi <= xs[j].lo {
        assert xs[j] == xs[1..][j - 1];
        assert i > 0 ==> xs[i] == xs[1..][i - 1];
      }
    }
  }

  lemma {:induction false} SortedApartMeansInOrder(xs: seq<Interval>)
    requires SortedBy(xs, IntervalLe) && (forall x :: x in xs ==> x.Nonempty())
    ensures PairwiseApart(xs) <==> InOrder(xs)
  {
    if xs != [] {
      SortedApartMeansInOrder(xs[1..]);
      InOrderUnfolds(xs);
      forall j | 0 <= j < |xs[1..]| ensures Apart(xs[0], xs[1..][j]) <==> xs[0].hi <= xs[1..][j].lo {
        assert xs[j + 1] in xs && IntervalLe(xs[0], xs[j + 1]);
      }
    }
  }

  lemma {:induction false} NonemptyOnesAreKept(parts: seq<Interval>)
    ensures forall p :: multiset(NonemptyOnes(parts))[p] == if p.lo < p.hi then multiset(parts)[p] else 0
  {
    if parts != [] {
      NonemptyOnesAreKept(parts[1..]);
      assert parts == [parts[0]] + parts[1..];
    }
  }

  /** make_entity gives nothing exactly when no interval has a character; otherwise the entity covers
      something, keeps exactly the non-empty intervals, and its intervals follow one another exactly when
      the given non-empty ones do not overlap. */
  lemma MakeEntityContract(
    pdType: PDType, parts: seq<Interval>, priority: int, subtype: string, requiresAny: set<PDType>)
    ensures var made := MakeEntity(pdType, parts, priority, subtype, requiresAny);
      && (made.None? <==> forall p :: p in parts ==> !p.Nonempty())
      && (made.Some? ==>
            && made.value.pdType == pdType && made.value.priority == priority && made.value.subtype == subtype
            && made.value.requiresAny == requiresAny
            && made.value.Proper()
            && (forall i, j :: 0 <= i < j < |made.value.parts| ==>
                  var a, b := made.value.parts[i], made.value.parts[j]; a.lo < b.lo || (a.lo == b.lo && a.hi <= b.hi))
            && (forall p :: multiset(made.value.parts)[p] == if p.lo < p.hi then multiset(parts)[p] else 0)
            && (made.value.WellFormed() <==> PairwiseApart(NonemptyOnes(parts))))
  {
    var some := NonemptyOnes(parts);
    var clean := Sort(some, IntervalLe);
    NonemptyOnesAreNonempty(parts);
    NonemptyOnesAreKept(parts);
    SortSorts(some, IntervalLe);
    SortMembers(some, IntervalLe);
    SortKeepsApart(some);
    if clean == [] {
      assert some == [];
    } else {
      assert clean[0] in some;
      SortedNonemptyIsProper(Entity(pdType, clean, priority, subtype, requiresAny));
    }
  }

  lemma SortedNonemptyIsProper(e: Entity)
    requires e.parts != [] && SortedBy(e.parts, IntervalLe) && (forall p :: p in e.parts ==> p.Nonempty())
    ensures e.Proper()
    ensures e.WellFormed() <==> PairwiseApart(e.parts)
  {
    var xs := e.parts;
    SortedApartMeansInOrder(xs);
    assert xs[0] in xs && xs[|xs| - 1] in xs;
    assert |xs| > 1 ==> IntervalLe(xs[0], xs[|xs| - 1]);
  }
}
