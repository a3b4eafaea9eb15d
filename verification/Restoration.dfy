/** app/core/masking.py, unmask_fragments: restoring the originals in an arbitrary text. */
module Restoration {
  import opened Sorting
  import opened Texts
  import opened Wrappers

  /** A mask and the stretch of text it stands for. */
  datatype Fragment = Fragment(masked: string, original: string)

  predicate LongerFirst(a: Fragment, b: Fragment) {
    |a.masked| >= |b.masked|
  }

  /** `order` lists the elements of set(fragments), each once, in whatever order the set yields them. */
  ghost predicate Enumerates(order: seq<Fragment>, fragments: seq<Fragment>) {
    && (forall f :: f in order <==> f in fragments)
    && (forall i, j :: 0 <= i < j < |order| ==> order[i] != order[j])
  }

  /** What one pass over `fragments` does to `text`, and how many replacements it makes. */
  function Unmask(text: string, fragments: seq<Fragment>): (string, nat)
    decreases |fragments|
  {
    if fragments == [] then (text, 0)
    else
      var f := fragments[0];
      if f.masked == f.original || !Contains(text, f.masked) then Unmask(text, fragments[1..])
      else
        var (restored, replaced) := Unmask(Replace(text, f.masked, f.original), fragments[1..]);
        (restored, Count(text, f.masked) + replaced)
  }

  /** The result of unmask_fragments when the set is iterated in `hashOrder`. */
  function UnmaskFragments(text: string, hashOrder: seq<Fragment>): (string, nat) {
    Unmask(text, Sort(hashOrder, LongerFirst))
  }

  method RestoreFragments(text: string, fragments: seq<Fragment>, hashOrder: seq<Fragment>)
    returns (restored: string, replaced: nat)
    requires Enumerates(hashOrder, fragments)
    ensures (restored, replaced) == UnmaskFragments(text, hashOrder)
    ensures replaced > 0 <==> HoldsAMask(text, fragments)
    ensures replaced == 0 ==> restored == text
    ensures forall f :: f in fragments && text == f.masked && Unambiguous(f, fragments) ==>
      restored == f.original && replaced == 1
  {
    restored, replaced := text, 0;
    var order := Sort(hashOrder, LongerFirst);
    for i := 0 to |order|
      invariant Unmask(text, order).0 == Unmask(restored, order[i..]).0
      invariant Unmask(text, order).1 == replaced + Unmask(restored, order[i..]).1
    {
      var f := order[i];
      assert order[i..][1..] == order[i + 1..];
      if f.masked == f.original || !Contains(restored, f.masked) {
        continue;
      }
      var count := Count(restored, f.masked);
      restored := Replace(restored, f.masked, f.original);
      replaced := replaced + count;
    }
    ReportsReplacementsExactly(text, fragments, hashOrder);
    forall f | f in fragments && text == f.masked && Unambiguous(f, fragments)
      ensures restored == f.original && replaced == 1
    {
      MaskComesBack(f, fragments, hashOrder);
    }
  }

  /** The mask hides something, means one original only, and that original holds no mask. */
  ghost predicate Unambiguous(f: Fragment, fragments: seq<Fragment>) {
    && f.masked != f.original
    && (forall g :: g in fragments && g.masked == f.masked ==> g.original == f.original)
    && (forall g :: g in fragments ==> !Contains(f.original, g.masked))
  }

  /** Some fragment whose mask is not its own original occurs in the text. */
  ghost predicate HoldsAMask(text: string, fragments: seq<Fragment>) {
    exists f :: f in fragments && f.masked != f.original && Contains(text, f.masked)
  }

  lemma {:induction false} UnmaskReports(text: string, order: seq<Fragment>)
    ensures Unmask(text, order).1 > 0 <==> HoldsAMask(text, order)
    ensures Unmask(text, order).1 == 0 ==> Unmask(text, order).0 == text
  {
    if order == [] {
    } else {
      var f := order[0];
      CountIsPositiveIff(text, f.masked);
      assert order == [f] + order[1..];
      if f.masked != f.original && Contains(text, f.masked) {
        assert f in order && HoldsAMask(text, order);
        assert Unmask(text, order).1
            == Count(text, f.masked) + Unmask(Replace(text, f.masked, f.original), order[1..]).1;
      } else {
        UnmaskReports(text, order[1..]);
        assert forall g :: g in order <==> g == f || g in order[1..];
        assert HoldsAMask(text, order) <==> HoldsAMask(text, order[1..]);
      }
    }
  }

  lemma ReportsReplacementsExactly(text: string, fragments: seq<Fragment>, hashOrder: seq<Fragment>)
    requires Enumerates(hashOrder, fragments)
    ensures UnmaskFragments(text, hashOrder).1 > 0 <==> HoldsAMask(text, fragments)
    ensures UnmaskFragments(text, hashOrder).1 == 0 ==> UnmaskFragments(text, hashOrder).0 == text
  {
    UnmaskReports(text, Sort(hashOrder, LongerFirst));
    OrderHasTheFragments(fragments, hashOrder);
  }

  // ---- one mask by itself, of any strategy ----

  lemma ContainsNoLonger(s: string, pat: string)
    requires Contains(s, pat)
    ensures |pat| < |s| || pat == s
  {
    var at :| 0 <= at <= |s| - |pat| && OccursAt(s, pat, at);
    if |pat| == |s| {
      assert at == 0 && s[0..|s|] == s;
    }
  }

  lemma EmptyOccurs(s: string)
    ensures Contains(s, "")
  {
    assert OccursAt(s, "", 0);
  }

  lemma ReplaceWhole(pat: string, new_: string)
    requires pat != ""
    ensures Contains(pat, pat) && Replace(pat, pat, new_) == new_ && Count(pat, pat) == 1
  {
    assert OccursAt(pat, pat, 0);
    ReplaceHead(pat, "", new_);
    assert pat + "" == pat && new_ + "" == new_;
  }

  /** Nothing that is left to try occurs in the text. */
  lemma {:induction false} NothingLeft(text: string, order: seq<Fragment>)
    requires forall g :: g in order ==> !Contains(text, g.masked)
    ensures Unmask(text, order) == (text, 0)
  {
    if order != [] {
      assert order == [order[0]] + order[1..];
      NothingLeft(text, order[1..]);
    }
  }

  /** From the longest mask on, a mask is replaced before any shorter one that is a part of it. */
  lemma {:induction false} MaskIsTriedInTime(f: Fragment, order: seq<Fragment>)
    requires f in order && SortedBy(order, LongerFirst) && Unambiguous(f, order)
    ensures Unmask(f.masked, order) == (f.original, 1)
  {
    var g := order[0];
    assert order == [g] + order[1..];
    if g.masked == f.masked {
      assert g in order && g == f;
      EmptyOccurs(f.original);
      ReplaceWhole(f.masked, f.original);
      NothingLeft(f.original, order[1..]);
    } else {
      var i :| 0 <= i < |order| && order[i] == f;
      assert LongerFirst(order[0], order[i]);
      if Contains(f.masked, g.masked) {
        ContainsNoLonger(f.masked, g.masked);
      }
      assert f in order[1..];
      MaskIsTriedInTime(f, order[1..]);
    }
  }

  lemma LongerFirstIsTotal()
    ensures TotalPreorder(LongerFirst)
  {
  }

  /** Whatever the strategies are, a mask sent back by itself is its original, one replacement: a shorter mask that
      is a part of it does not get in its way. */
  lemma MaskComesBack(f: Fragment, fragments: seq<Fragment>, hashOrder: seq<Fragment>)
    requires f in fragments && Unambiguous(f, fragments) && Enumerates(hashOrder, fragments)
    ensures UnmaskFragments(f.masked, hashOrder) == (f.original, 1)
  {
    LongerFirstIsTotal();
    SortSorts(hashOrder, LongerFirst);
    OrderHasTheFragments(fragments, hashOrder);
    MaskIsTriedInTime(f, Sort(hashOrder, LongerFirst));
  }

  // ---- texts made of plain literals and bracketed tokens ----

  datatype Piece = Plain(text: string) | Token(body: string)

  predicate BracketFree(s: string) {
    '[' !in s
  }

  predicate TokenBody(s: string) {
    '[' !in s && ']' !in s
  }

  function Bracketed(body: string): string {
    "[" + body + "]"
  }

  function Show(p: Piece): string {
    match p
    case Plain(t) => t
    case Token(body) => Bracketed(body)
  }

  function ShowAll(ps: seq<Piece>): string {
    if ps == [] then "" else Show(ps[0]) + ShowAll(ps[1..])
  }

  predicate PiecesOk(ps: seq<Piece>) {
    forall p :: p in ps ==> if p.Plain? then BracketFree(p.text) else TokenBody(p.body)
  }

  /** Fragments as the `token` strategy makes them from a text without '['. */
  predicate TokenFragment(f: Fragment) {
    && |f.masked| >= 2
    && f.masked == Bracketed(f.masked[1..|f.masked| - 1])
    && TokenBody(f.masked[1..|f.masked| - 1])
    && BracketFree(f.original)
  }

  /** The original the first fragment with this mask gives. */
  function Lookup(fragments: seq<Fragment>, mask: string): Option<string> {
    if fragments == [] then None
    else if fragments[0].masked == mask then Some(fragments[0].original)
    else Lookup(fragments[1..], mask)
  }

  function RestorePiece(p: Piece, fragments: seq<Fragment>): Piece {
    if p.Token? && Lookup(fragments, Show(p)).Some? then Plain(Lookup(fragments, Show(p)).value) else p
  }

  function RestoreAll(ps: seq<Piece>, fragments: seq<Fragment>): seq<Piece> {
    seq(|ps|, i requires 0 <= i < |ps| => RestorePiece(ps[i], fragments))
  }

  function Known(ps: seq<Piece>, fragments: seq<Fragment>): nat {
    if ps == [] then 0
    else (if ps[0].Token? && Lookup(fragments, Show(ps[0])).Some? then 1 else 0) + Known(ps[1..], fragments)
  }

  lemma ShowCons(p: Piece, rest: seq<Piece>)
    ensures ShowAll([p] + rest) == Show(p) + ShowAll(rest)
    ensures rest == [] ==> ShowAll([p]) == Show(p)
  {
    assert ([p] + rest)[1..] == rest && [p][1..] == [];
  }

  lemma {:induction false} ShowAppend(a: seq<Piece>, b: seq<Piece>)
    ensures ShowAll(a + b) == ShowAll(a) + ShowAll(b)
  {
    if a == [] {
      assert a + b == b && "" + ShowAll(b) == ShowAll(b);
    } else {
      HeadAndTail(a, b);
      ShowAppend(a[1..], b);
      Associate(Show(a[0]), ShowAll(a[1..]), ShowAll(b));
    }
  }

  lemma KnownCons(p: Piece, rest: seq<Piece>, fs: seq<Fragment>)
    ensures Known([p] + rest, fs) == (if p.Token? && Lookup(fs, Show(p)).Some? then 1 else 0) + Known(rest, fs)
    ensures RestoreAll([p] + rest, fs) == [RestorePiece(p, fs)] + RestoreAll(rest, fs)
    ensures [p] + [] == [p]
  {
    assert ([p] + rest)[1..] == rest;
    RestoreAppend([p], rest, fs);
    assert RestoreAll([p], fs) == [RestorePiece(p, fs)];
  }

  lemma {:induction false} KnownAppend(a: seq<Piece>, b: seq<Piece>, fs: seq<Fragment>)
    ensures Known(a + b, fs) == Known(a, fs) + Known(b, fs)
  {
    if a == [] {
      assert a + b == b;
    } else {
      HeadAndTail(a, b);
      KnownAppend(a[1..], b, fs);
    }
  }

  lemma RestoreAppend(a: seq<Piece>, b: seq<Piece>, fs: seq<Fragment>)
    ensures RestoreAll(a + b, fs) == RestoreAll(a, fs) + RestoreAll(b, fs)
  {
  }

  /** Two fragments with one mask stand for one original. */
  ghost predicate CollisionFree(fragments: seq<Fragment>) {
    forall f, g :: f in fragments && g in fragments && f.masked == g.masked ==> f.original == g.original
  }

  lemma TokenCharAt(body: string, rest: string, at: nat)
    requires at < |Bracketed(body)|
    ensures (Bracketed(body) + rest)[at] == Bracketed(body)[at]
         == if at == 0 then '[' else if at <= |body| then body[at - 1] else ']'
  {
  }

  /** A token that is a prefix of another token followed by anything is that token. */
  lemma TokensMatchWhole(body: string, b: string, rest: string)
    requires TokenBody(body) && TokenBody(b)
    requires Bracketed(body) <= Bracketed(b) + rest
    ensures b == body
  {
    var shorter := if |body| < |b| then |body| else |b|;
    TokenCharAt(body, "", shorter + 1);
    TokenCharAt(b, rest, shorter + 1);
    assert |b| == |body|;
    forall i | 0 <= i < |b| ensures b[i] == body[i] {
      TokenCharAt(b, rest, i + 1);
      TokenCharAt(body, "", i + 1);
    }
  }

  lemma ReplacePassesToken(b: string, rest: string, body: string, new_: string)
    requires TokenBody(body) && TokenBody(b) && b != body
    ensures Replace(Bracketed(b) + rest, Bracketed(body), new_) == Bracketed(b) + Replace(rest, Bracketed(body), new_)
    ensures Count(Bracketed(b) + rest, Bracketed(body)) == Count(rest, Bracketed(body))
  {
    var pat, s, tail := Bracketed(body), Bracketed(b) + rest, b + "]";
    if pat <= s {
      TokensMatchWhole(body, b, rest);
    }
    ReplaceMisses(s, pat, new_);
    HeadAndTail(Bracketed(b), rest);
    assert Bracketed(b)[1..] == tail;
    ReplacePassesLiteral(tail, rest, pat, new_);
    HeadAndTail(Bracketed(b), Replace(rest, pat, new_));
  }

  lemma ReplaceAtToken(b: string, rest: string, body: string, new_: string)
    requires TokenBody(body) && TokenBody(b)
    ensures Replace(Bracketed(b) + rest, Bracketed(body), new_)
         == (if b == body then new_ else Bracketed(b)) + Replace(rest, Bracketed(body), new_)
    ensures Count(Bracketed(b) + rest, Bracketed(body))
         == (if b == body then 1 else 0) + Count(rest, Bracketed(body))
  {
    if b == body {
      ReplaceHead(Bracketed(body), rest, new_);
    } else {
      ReplacePassesToken(b, rest, body, new_);
    }
  }

  lemma {:induction false} ReplaceInPieces(ps: seq<Piece>, f: Fragment)
    requires PiecesOk(ps) && TokenFragment(f)
    ensures Replace(ShowAll(ps), f.masked, f.original) == ShowAll(RestoreAll(ps, [f]))
    ensures Count(ShowAll(ps), f.masked) == Known(ps, [f])
  {
    var body := f.masked[1..|f.masked| - 1];
    if ps == [] {
    } else {
      ReplaceInPieces(ps[1..], f);
      assert RestoreAll(ps, [f])[1..] == RestoreAll(ps[1..], [f]);
      match ps[0]
      case Plain(t) => ReplacePassesLiteral(t, ShowAll(ps[1..]), f.masked, f.original);
      case Token(b) =>
        ReplaceAtToken(b, ShowAll(ps[1..]), body, f.original);
        assert b == Bracketed(b)[1..|b| + 1];
        LookupFirst(f, [], Bracketed(b));
    }
  }

  lemma LookupFirst(f: Fragment, more: seq<Fragment>, mask: string)
    ensures Lookup([f] + more, mask) == if f.masked == mask then Some(f.original) else Lookup(more, mask)
    ensures [f] + [] == [f]
  {
    assert ([f] + more)[1..] == more;
  }

  lemma RestoreStepwise(ps: seq<Piece>, f: Fragment, more: seq<Fragment>)
    ensures RestoreAll(RestoreAll(ps, [f]), more) == RestoreAll(ps, [f] + more)
    ensures Known(ps, [f]) + Known(RestoreAll(ps, [f]), more) == Known(ps, [f] + more)
  {
    forall i | 0 <= i < |ps|
      ensures RestorePiece(RestorePiece(ps[i], [f]), more) == RestorePiece(ps[i], [f] + more)
    {
      LookupFirst(f, [], Show(ps[i]));
      LookupFirst(f, more, Show(ps[i]));
    }
    if ps != [] {
      LookupFirst(f, [], Show(ps[0]));
      LookupFirst(f, more, Show(ps[0]));
      RestoreStepwise(ps[1..], f, more);
      assert RestoreAll(ps, [f])[1..] == RestoreAll(ps[1..], [f]);
    }
  }

  lemma {:induction false} UnmaskInPieces(ps: seq<Piece>, order: seq<Fragment>)
    requires PiecesOk(ps) && (forall f :: f in order ==> TokenFragment(f))
    ensures Unmask(ShowAll(ps), order).0 == ShowAll(RestoreAll(ps, order))
    ensures Unmask(ShowAll(ps), order).1 == Known(ps, order)
    decreases |order|
  {
    if order == [] {
      assert RestoreAll(ps, order) == ps;
      NothingKnown(ps);
    } else {
      var f, more := order[0], order[1..];
      assert order == [f] + more;
      var next := RestoreAll(ps, [f]);
      ReplaceInPieces(ps, f);
      RestoreStepwise(ps, f, more);
      RestoredPiecesOk(ps, f);
      UnmaskInPieces(next, more);
      CountIsPositiveIff(ShowAll(ps), f.masked);
      assert f.masked[0] == '[' && f in order;
      if !Contains(ShowAll(ps), f.masked) {
        ReplaceChangesNothing(ShowAll(ps), f.masked, f.original);
      }
    }
  }

  lemma RestoredPiecesOk(ps: seq<Piece>, f: Fragment)
    requires PiecesOk(ps) && BracketFree(f.original)
    ensures PiecesOk(RestoreAll(ps, [f]))
  {
    forall p | p in RestoreAll(ps, [f]) ensures if p.Plain? then BracketFree(p.text) else TokenBody(p.body) {
      var i :| 0 <= i < |ps| && p == RestorePiece(ps[i], [f]);
      assert ps[i] in ps;
      LookupFirst(f, [], Show(ps[i]));
    }
  }

  lemma NothingKnown(ps: seq<Piece>)
    ensures Known(ps, []) == 0
  {
  }

  lemma {:induction false} LookupFinds(fragments: seq<Fragment>, mask: string)
    ensures Lookup(fragments, mask).Some? ==> Fragment(mask, Lookup(fragments, mask).value) in fragments
    ensures forall f :: f in fragments && f.masked == mask ==> Lookup(fragments, mask).Some?
  {
    if fragments != [] {
      LookupFinds(fragments[1..], mask);
      assert fragments == [fragments[0]] + fragments[1..];
      assert fragments[0] == Fragment(fragments[0].masked, fragments[0].original);
    }
  }

  lemma LookupIgnoresOrder(a: seq<Fragment>, b: seq<Fragment>, mask: string)
    requires CollisionFree(a) && (forall f :: f in a <==> f in b)
    ensures Lookup(a, mask) == Lookup(b, mask)
  {
    LookupFinds(a, mask);
    LookupFinds(b, mask);
  }

  lemma KnownIgnoresOrder(ps: seq<Piece>, a: seq<Fragment>, b: seq<Fragment>)
    requires CollisionFree(a) && (forall f :: f in a <==> f in b)
    ensures Known(ps, a) == Known(ps, b)
  {
    if ps != [] {
      LookupIgnoresOrder(a, b, Show(ps[0]));
      KnownIgnoresOrder(ps[1..], a, b);
    }
  }

  /** Restoring tokens is a substitution: whatever order the set of fragments is iterated in, exactly the
      known tokens are replaced, each by its own original, and exactly they are counted. */
  lemma TokenRestorationIsSubstitution(ps: seq<Piece>, fragments: seq<Fragment>, hashOrder: seq<Fragment>)
    requires PiecesOk(ps) && (forall f :: f in fragments ==> TokenFragment(f))
    requires CollisionFree(fragments) && Enumerates(hashOrder, fragments)
    ensures UnmaskFragments(ShowAll(ps), hashOrder)
         == (ShowAll(RestoreAll(ps, fragments)), Known(ps, fragments))
  {
    var order := Sort(hashOrder, LongerFirst);
    OrderHasTheFragments(fragments, hashOrder);
    UnmaskInPieces(ps, order);
    KnownIgnoresOrder(ps, fragments, order);
    RestoreIgnoresOrder(ps, fragments, order);
  }

  lemma OrderHasTheFragments(fragments: seq<Fragment>, hashOrder: seq<Fragment>)
    requires Enumerates(hashOrder, fragments)
    ensures forall f :: f in Sort(hashOrder, LongerFirst) <==> f in fragments
  {
    SortMembers(hashOrder, LongerFirst);
  }

  lemma RestoreIgnoresOrder(ps: seq<Piece>, a: seq<Fragment>, b: seq<Fragment>)
    requires CollisionFree(a) && (forall f :: f in a <==> f in b)
    ensures RestoreAll(ps, a) == RestoreAll(ps, b)
  {
    forall i | 0 <= i < |ps| ensures RestorePiece(ps[i], a) == RestorePiece(ps[i], b) {
      LookupIgnoresOrder(a, b, Show(ps[i]));
    }
  }

  /** When does every token come back as the stretch it was made from? Exactly when no two fragments
      share a token with different originals. */
  lemma TokensComeBackIffCollisionFree(fragments: seq<Fragment>, hashOrder: seq<Fragment>)
    requires forall f :: f in fragments ==> TokenFragment(f)
    requires Enumerates(hashOrder, fragments)
    ensures (forall f :: f in fragments ==> UnmaskFragments(f.masked, hashOrder).0 == f.original)
       <==> CollisionFree(fragments)
  {
    forall f | f in fragments && CollisionFree(fragments)
      ensures UnmaskFragments(f.masked, hashOrder).0 == f.original
    {
      var ps := [Token(f.masked[1..|f.masked| - 1])];
      assert ShowAll(ps) == f.masked + ShowAll(ps[1..]) == f.masked;
      TokenRestorationIsSubstitution(ps, fragments, hashOrder);
      LookupFinds(fragments, f.masked);
      var rs := RestoreAll(ps, fragments);
      assert rs == [Plain(f.original)];
      assert ShowAll(rs) == f.original + ShowAll(rs[1..]) == f.original;
    }
  }
}
