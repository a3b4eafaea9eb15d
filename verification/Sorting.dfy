/** The built-in operations the service leans on: a stable sort by a key and the two bisections. */
module Sorting {
  import opened Wrappers

  ghost predicate TotalPreorder<T(!new)>(le: (T, T) -> bool) {
    && (forall x, y :: le(x, y) || le(y, x))
    && (forall x, y, z :: le(x, y) && le(y, z) ==> le(x, z))
  }

  ghost predicate SortedBy<T>(xs: seq<T>, le: (T, T) -> bool) {
    forall i, j :: 0 <= i < j < |xs| ==> le(xs[i], xs[j])
  }

  function Insert<T>(x: T, xs: seq<T>, le: (T, T) -> bool): seq<T> {
    if |xs| == 0 || le(x, xs[0]) then [x] + xs else [xs[0]] + Insert(x, xs[1..], le)
  }

  /** A stable sort: of two elements that compare equal the one that came first stays first. */
  function Sort<T>(xs: seq<T>, le: (T, T) -> bool): seq<T> {
    if |xs| == 0 then [] else Insert(xs[0], Sort(xs[1..], le), le)
  }

  lemma {:induction false} InsertPermutes<T>(x: T, xs: seq<T>, le: (T, T) -> bool)
    ensures multiset(Insert(x, xs, le)) == multiset{x} + multiset(xs)
    ensures |Insert(x, xs, le)| == |xs| + 1
  {
    if |xs| == 0 || le(x, xs[0]) {
    } else {
      InsertPermutes(x, xs[1..], le);
      assert xs == [xs[0]] + xs[1..];
    }
  }

  lemma {:induction false} InsertSorts<T(!new)>(x: T, xs: seq<T>, le: (T, T) -> bool)
    requires TotalPreorder(le) && SortedBy(xs, le)
    ensures SortedBy(Insert(x, xs, le), le)
  {
    if |xs| == 0 {
    } else if le(x, xs[0]) {
      forall i | 0 <= i < |xs| ensures le(x, xs[i]) {
        assert i > 0 ==> le(xs[0], xs[i]);
      }
    } else {
      InsertSorts(x, xs[1..], le);
      InsertPermutes(x, xs[1..], le);
      PrependSorted(xs[0], x, xs[1..], Insert(x, xs[1..], le), le);
    }
  }

  lemma PrependSorted<T(!new)>(head: T, x: T, tail: seq<T>, rest: seq<T>, le: (T, T) -> bool)
    requires le(head, x) && SortedBy(rest, le)
    requires forall i :: 0 <= i < |tail| ==> le(head, tail[i])
    requires multiset(rest) == multiset{x} + multiset(tail)
    ensures SortedBy([head] + rest, le)
  {
    forall i | 0 <= i < |rest| ensures le(head, rest[i]) {
      assert rest[i] in multiset(rest);
      assert rest[i] == x || rest[i] in multiset(tail);
    }
  }

  lemma {:induction false} SortSorts<T(!new)>(xs: seq<T>, le: (T, T) -> bool)
    requires TotalPreorder(le)
    ensures SortedBy(Sort(xs, le), le) && multiset(Sort(xs, le)) == multiset(xs)
    ensures |Sort(xs, le)| == |xs|
  {
    if |xs| == 0 {
    } else {
      SortSorts(xs[1..], le);
      InsertSorts(xs[0], Sort(xs[1..], le), le);
      InsertPermutes(xs[0], Sort(xs[1..], le), le);
      assert xs == [xs[0]] + xs[1..];
    }
  }

  lemma SortMembers<T(!new)>(xs: seq<T>, le: (T, T) -> bool)
    requires TotalPreorder(le)
    ensures forall x :: x in Sort(xs, le) <==> x in xs
  {
    SortSorts(xs, le);
    forall x ensures x in Sort(xs, le) <==> x in xs {
      assert x in multiset(Sort(xs, le)) <==> x in multiset(xs);
    }
  }

  /** The first element that `p` holds of. */
  function First<T>(xs: seq<T>, p: T -> bool): Option<T> {
    if |xs| == 0 then None else if p(xs[0]) then Some(xs[0]) else First(xs[1..], p)
  }

  lemma {:induction false} FirstMeans<T>(xs: seq<T>, p: T -> bool)
    ensures First(xs, p) == None <==> forall x :: x in xs ==> !p(x)
    ensures First(xs, p).Some? ==>
      exists i :: 0 <= i < |xs| && xs[i] == First(xs, p).value && p(xs[i]) && forall j :: 0 <= j < i ==> !p(xs[j])
  {
    if |xs| == 0 {
    } else if p(xs[0]) {
    } else {
      FirstMeans(xs[1..], p);
      assert xs == [xs[0]] + xs[1..];
      if First(xs, p).Some? {
        var i :| 0 <= i < |xs[1..]| && xs[1..][i] == First(xs, p).value && p(xs[1..][i])
                 && forall j :: 0 <= j < i ==> !p(xs[1..][j]);
        forall j | 0 <= j < i + 1 ensures !p(xs[j]) {
          assert j > 0 ==> xs[j] == xs[1..][j - 1];
        }
        assert xs[i + 1] == First(xs, p).value;
      }
    }
  }

  lemma {:induction false} FirstOfPrefix<T>(xs: seq<T>, x: T, p: T -> bool)
    ensures First(xs + [x], p) == if First(xs, p).Some? then First(xs, p) else if p(x) then Some(x) else None
  {
    if |xs| == 0 {
      assert xs + [x] == [x] && [x][1..] == [];
    } else {
      assert (xs + [x])[1..] == xs[1..] + [x];
      FirstOfPrefix(xs[1..], x, p);
    }
  }

  lemma {:induction false} FirstOfConcat<T>(xs: seq<T>, ys: seq<T>, p: T -> bool)
    ensures First(xs + ys, p) == if First(xs, p).Some? then First(xs, p) else First(ys, p)
  {
    if |xs| == 0 {
      assert xs + ys == ys;
    } else {
      assert (xs + ys)[1..] == xs[1..] + ys;
      FirstOfConcat(xs[1..], ys, p);
    }
  }

  function Flatten<T>(parts: seq<seq<T>>): seq<T> {
    if |parts| == 0 then [] else Flatten(parts[..|parts| - 1]) + parts[|parts| - 1]
  }

  lemma {:induction false} FlattenMembers<T>(parts: seq<seq<T>>, x: T)
    ensures x in Flatten(parts) <==> exists n :: 0 <= n < |parts| && x in parts[n]
  {
    if |parts| > 0 {
      FlattenMembers(parts[..|parts| - 1], x);
    }
  }

  /** The first element of all parts together stands in the first part that has one. */
  lemma {:induction false} FirstOfFlattened<T>(parts: seq<seq<T>>, p: T -> bool) returns (n: nat)
    requires First(Flatten(parts), p).Some?
    ensures n < |parts| && First(parts[n], p) == First(Flatten(parts), p)
    ensures forall j :: 0 <= j < n ==> First(parts[j], p) == None
  {
    var last := |parts| - 1;
    FirstOfConcat(Flatten(parts[..last]), parts[last], p);
    if First(Flatten(parts[..last]), p).Some? {
      n := FirstOfFlattened(parts[..last], p);
    } else {
      n := last;
      NoneOfFlattened(parts[..last], p);
    }
  }

  lemma {:induction false} NoneOfFlattened<T>(parts: seq<seq<T>>, p: T -> bool)
    requires First(Flatten(parts), p) == None
    ensures forall j :: 0 <= j < |parts| ==> First(parts[j], p) == None
  {
    if |parts| > 0 {
      var last := |parts| - 1;
      FirstOfConcat(Flatten(parts[..last]), parts[last], p);
      NoneOfFlattened(parts[..last], p);
    }
  }

  lemma {:induction false} InsertKeepsFirst<T(!new)>(x: T, xs: seq<T>, le: (T, T) -> bool, p: T -> bool)
    requires forall y, z :: p(y) && p(z) ==> le(y, z)
    ensures First(Insert(x, xs, le), p) == if p(x) then Some(x) else First(xs, p)
  {
    if |xs| == 0 || le(x, xs[0]) {
      assert ([x] + xs)[1..] == xs;
    } else {
      InsertKeepsFirst(x, xs[1..], le, p);
      assert ([xs[0]] + Insert(x, xs[1..], le))[1..] == Insert(x, xs[1..], le);
    }
  }

  /** Stability: of the elements that all compare equal, the first one stays the first. */
  lemma {:induction false} SortKeepsFirst<T(!new)>(xs: seq<T>, le: (T, T) -> bool, p: T -> bool)
    requires forall y, z :: p(y) && p(z) ==> le(y, z)
    ensures First(Sort(xs, le), p) == First(xs, p)
  {
    if |xs| > 0 {
      SortKeepsFirst(xs[1..], le, p);
      InsertKeepsFirst(xs[0], Sort(xs[1..], le), le, p);
    }
  }

  lemma SortOfSorted<T>(xs: seq<T>, le: (T, T) -> bool)
    requires SortedBy(xs, le)
    ensures Sort(xs, le) == xs
  {
    if |xs| > 0 {
      SortOfSorted(xs[1..], le);
      assert xs == [xs[0]] + xs[1..];
    }
  }

  ghost predicate Ascending(xs: seq<int>) {
    forall i, j :: 0 <= i < j < |xs| ==> xs[i] <= xs[j]
  }

  function BisectLeft(xs: seq<int>, x: int): (at: nat)
    requires Ascending(xs)
    ensures at <= |xs|
    ensures forall i :: 0 <= i < |xs| ==> (i < at <==> xs[i] < x)
  {
    if |xs| == 0 || x <= xs[0] then 0 else 1 + BisectLeft(xs[1..], x)
  }

  function BisectRight(xs: seq<int>, x: int): (at: nat)
    requires Ascending(xs)
    ensures at <= |xs|
    ensures forall i :: 0 <= i < |xs| ==> (i < at <==> xs[i] <= x)
  {
    if |xs| == 0 || x < xs[0] then 0 else 1 + BisectRight(xs[1..], x)
  }
}
