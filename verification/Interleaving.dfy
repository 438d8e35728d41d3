/** Texts in which literal stretches and items introduced by a percent sign take turns. */
module Interleaving {
  datatype Option<T> = None | Some(value: T)

  /** Literal text and the item after it. */
  datatype Piece<X> = Piece(gap: string, item: X)

  predicate Literal(s: string) { forall i :: 0 <= i < |s| ==> s[i] != '%' }

  function ShowPiece<X>(body: X -> string, p: Piece<X>): string { p.gap + "%" + body(p.item) }

  function Show<X>(body: X -> string, pieces: seq<Piece<X>>): string
  {
    if pieces == [] then "" else ShowPiece(body, pieces[0]) + Show(body, pieces[1..])
  }

  predicate WellFormed<X>(valid: X -> bool, pieces: seq<Piece<X>>)
  {
    forall i :: 0 <= i < |pieces| ==> Literal(pieces[i].gap) && valid(pieces[i].item)
  }

  /** `format` consists of these pieces and a literal end. */
  predicate Splits<X>(body: X -> string, valid: X -> bool, format: string, pieces: seq<Piece<X>>, end: string)
  {
    WellFormed(valid, pieces) && Literal(end) && format == Show(body, pieces) + end
  }

  /** Every valid item is read back from the front of any text that begins with it. */
  ghost predicate Faithful<X(!new)>(body: X -> string, read: string -> Option<X>, valid: X -> bool)
  {
    forall x, rest :: valid(x) ==> read(body(x) + rest) == Some(x)
  }

  lemma {:induction false} ShowMore<X>(body: X -> string, pieces: seq<Piece<X>>, p: Piece<X>)
    ensures Show(body, pieces + [p]) == Show(body, pieces) + ShowPiece(body, p)
  {
    if pieces == [] {
      assert (pieces + [p])[1..] == [];
    } else {
      assert (pieces + [p])[1..] == pieces[1..] + [p];
      ShowMore(body, pieces[1..], p);
    }
  }

  lemma LiteralThenPercent(a: string, s: string, b: string, t: string)
    requires Literal(a) && Literal(b) && a + "%" + s == b + "%" + t
    ensures a == b && s == t
  {
    PercentAt(a, s, |b|);
    PercentAt(b, t, |a|);
    var f := a + "%" + s;
    assert a == f[..|a|] && b == f[..|b|] && s == f[|a| + 1..] && t == f[|b| + 1..];
  }

  lemma CharBefore(a: string, s: string, i: nat)
    requires i < |a|
    ensures (a + "%" + s)[i] == a[i]
  {
  }

  lemma PercentAt(a: string, s: string, i: nat)
    requires Literal(a) && i < |a + "%" + s| && (a + "%" + s)[i] == '%'
    ensures i >= |a|
  {
    if i < |a| {
      CharBefore(a, s, i);
    }
  }

  /** The first piece of a text is determined. */
  lemma FirstPiece<X(!new)>(body: X -> string, read: string -> Option<X>, valid: X -> bool, gap: string, s: string,
                            p: Piece<X>, rest: string)
    requires Faithful(body, read, valid) && Literal(gap) && Literal(p.gap) && valid(p.item)
    requires gap + "%" + s == ShowPiece(body, p) + rest
    ensures gap == p.gap && s == body(p.item) + rest && read(s) == Some(p.item)
  {
    assert ShowPiece(body, p) + rest == p.gap + "%" + (body(p.item) + rest);
    LiteralThenPercent(gap, s, p.gap, body(p.item) + rest);
  }

  lemma SamePiece<X(!new)>(body: X -> string, read: string -> Option<X>, valid: X -> bool, p: Piece<X>, rest: string,
                           q: Piece<X>, more: string)
    requires Faithful(body, read, valid) && Literal(p.gap) && Literal(q.gap) && valid(p.item) && valid(q.item)
    requires ShowPiece(body, p) + rest == ShowPiece(body, q) + more
    ensures p == q && rest == more
  {
    assert ShowPiece(body, p) + rest == p.gap + "%" + (body(p.item) + rest);
    FirstPiece(body, read, valid, p.gap, body(p.item) + rest, q, more);
    assert rest == (body(p.item) + rest)[|body(p.item)|..];
    assert more == (body(q.item) + more)[|body(q.item)|..];
  }

  lemma PercentInside<X>(body: X -> string, done: seq<Piece<X>>, gap: string, s: string, end: string)
    requires Literal(end)
    ensures Show(body, done) + (gap + "%" + s) != Show(body, []) + end
  {
    assert (Show(body, done) + (gap + "%" + s))[|Show(body, done)| + |gap|] == '%';
    assert Show(body, []) + end == end;
  }

  /** A text that begins with well-formed pieces, and goes on with literal text, a percent sign and `s`, can only be
      split with those pieces first and the item at the front of `s` next. */
  lemma {:induction false} SplitGoesOn<X(!new)>(body: X -> string, read: string -> Option<X>, valid: X -> bool,
                                                done: seq<Piece<X>>, gap: string, s: string, pieces: seq<Piece<X>>,
                                                end: string)
    requires Faithful(body, read, valid) && WellFormed(valid, done) && Literal(gap)
    requires Splits(body, valid, Show(body, done) + (gap + "%" + s), pieces, end)
    ensures |done| < |pieces| && pieces[..|done|] == done && pieces[|done|].gap == gap
    ensures read(s) == Some(pieces[|done|].item)
    decreases |done|
  {
    var format := Show(body, done) + (gap + "%" + s);
    if pieces == [] {
      PercentInside(body, done, gap, s, end);
    } else {
      assert format == ShowPiece(body, pieces[0]) + (Show(body, pieces[1..]) + end);
      if done == [] {
        assert format == gap + "%" + s;
        FirstPiece(body, read, valid, gap, s, pieces[0], Show(body, pieces[1..]) + end);
      } else {
        assert format == ShowPiece(body, done[0]) + (Show(body, done[1..]) + (gap + "%" + s));
        SamePiece(body, read, valid, done[0], Show(body, done[1..]) + (gap + "%" + s), pieces[0],
                  Show(body, pieces[1..]) + end);
        SplitGoesOn(body, read, valid, done[1..], gap, s, pieces[1..], end);
        assert pieces[..|done|] == [pieces[0]] + pieces[1..][..|done| - 1];
      }
    }
  }

  /** The same, with the next piece put together. */
  lemma SplitMustGoOn<X(!new)>(body: X -> string, read: string -> Option<X>, valid: X -> bool, done: seq<Piece<X>>,
                               gap: string, s: string, pieces: seq<Piece<X>>, end: string)
    requires Faithful(body, read, valid) && WellFormed(valid, done) && Literal(gap)
    requires Splits(body, valid, Show(body, done) + (gap + "%" + s), pieces, end)
    ensures read(s).Some? && valid(read(s).value)
    ensures |done| < |pieces| && pieces[..|done| + 1] == done + [Piece(gap, read(s).value)]
  {
    SplitGoesOn(body, read, valid, done, gap, s, pieces, end);
    TakeOneMore(valid, done, pieces);
  }

  lemma TakeOneMore<X>(valid: X -> bool, done: seq<Piece<X>>, pieces: seq<Piece<X>>)
    requires |done| < |pieces| && pieces[..|done|] == done && WellFormed(valid, pieces)
    ensures pieces[..|done| + 1] == done + [Piece(pieces[|done|].gap, pieces[|done|].item)]
    ensures valid(pieces[|done|].item)
  {
  }

  /** A text can be split in one way only. */
  lemma {:induction false} SplitIsUnique<X(!new)>(body: X -> string, read: string -> Option<X>, valid: X -> bool,
                                                  format: string, p: seq<Piece<X>>, a: string, q: seq<Piece<X>>,
                                                      b: string)
    requires Faithful(body, read, valid) && Splits(body, valid, format, p, a) && Splits(body, valid, format, q, b)
    ensures p == q && a == b
    decreases |p|
  {
    if p == [] && q == [] {
      assert format == a == b;
    } else if p == [] {
      NotLiteral(body, q, a, b);
    } else if q == [] {
      NotLiteral(body, p, b, a);
    } else {
      var more, after := Show(body, p[1..]) + a, Show(body, q[1..]) + b;
      assert format == ShowPiece(body, p[0]) + more == ShowPiece(body, q[0]) + after;
      SamePiece(body, read, valid, p[0], more, q[0], after);
      SplitIsUnique(body, read, valid, more, p[1..], a, q[1..], b);
    }
  }

  lemma NotLiteral<X>(body: X -> string, q: seq<Piece<X>>, a: string, b: string)
    requires q != [] && Literal(a)
    ensures a != Show(body, q) + b
  {
    assert (Show(body, q) + b)[|q[0].gap|] == '%';
  }

  /** Reading on: literal text, a percent sign and an item. */
  lemma ShowOn<X>(body: X -> string, f: string, upto: nat, cp: nat, end: nat, done: seq<Piece<X>>, x: X)
    requires upto <= cp < end <= |f| && f[cp] == '%' && f[..upto] == Show(body, done) && body(x) == f[cp + 1..end]
    ensures f[..end] == Show(body, done + [Piece(f[upto..cp], x)])
    ensures f[cp..end] == "%" + body(x)
    ensures |Show(body, done)| + |f[upto..cp]| == cp
  {
    ShowMore(body, done, Piece(f[upto..cp], x));
    CutAround(f, upto, cp, end);
  }

  lemma CutAround(f: string, upto: nat, cp: nat, end: nat)
    requires upto <= cp < end <= |f| && f[cp] == '%'
    ensures f[..end] == f[..upto] + (f[upto..cp] + "%" + f[cp + 1..end])
    ensures f[cp..end] == "%" + f[cp + 1..end]
    ensures |f[..upto]| + |f[upto..cp]| == cp
  {
  }

  lemma PrefixAt(f: string, start: nat, b: string)
    requires start <= |f| && b <= f[start..]
    ensures start + |b| <= |f| && f[start..start + |b|] == b
  {
  }

  lemma Around(f: string, upto: nat, cp: nat)
    requires upto <= cp < |f| && f[cp] == '%'
    ensures f == f[..upto] + (f[upto..cp] + "%" + f[cp + 1..])
  {
  }

  lemma SplitsAt<X>(body: X -> string, valid: X -> bool, f: string, upto: nat, pieces: seq<Piece<X>>)
    requires upto <= |f| && f[..upto] == Show(body, pieces) && WellFormed(valid, pieces) && Literal(f[upto..])
    ensures Splits(body, valid, f, pieces, f[upto..])
  {
    assert f == f[..upto] + f[upto..];
  }

  /** No percent sign from `a` up to `b`. */
  predicate LiteralFrom(f: string, a: nat, b: nat)
  {
    forall i :: a <= i < b && i < |f| ==> f[i] != '%'
  }

  lemma LiteralSlice(f: string, a: nat, b: nat)
    requires a <= b <= |f| && LiteralFrom(f, a, b)
    ensures Literal(f[a..b])
  {
  }

  /** The first pieces stand at the front of the text. */
  lemma {:induction false} ShowStart<X>(body: X -> string, pieces: seq<Piece<X>>, k: nat)
    requires k <= |pieces|
    ensures Show(body, pieces[..k]) <= Show(body, pieces)
  {
    if k > 0 {
      assert pieces[..k][1..] == pieces[1..][..k - 1];
      ShowStart(body, pieces[1..], k - 1);
    }
  }

  /** Where the literal text and the item of a piece stand. */
  lemma PieceAt<X>(body: X -> string, f: string, pieces: seq<Piece<X>>, rest: string, k: nat)
    requires f == Show(body, pieces) + rest && k < |pieces|
    ensures
      var from := |Show(body, pieces[..k])|;
      var at := from + |pieces[k].gap|;
      && at <= |f| && f[from..at] == pieces[k].gap
      && |Show(body, pieces[..k + 1])| == at + 1 + |body(pieces[k].item)|
  {
    assert pieces[..k + 1] == pieces[..k] + [pieces[k]];
    ShowMore(body, pieces[..k], pieces[k]);
    ShowStart(body, pieces, k + 1);
    StartAt(f, Show(body, pieces[..k]), pieces[k].gap, "%" + body(pieces[k].item));
  }

  lemma StartAt(f: string, a: string, b: string, c: string)
    requires a + (b + c) <= f
    ensures |a| + |b| <= |f| && f[|a|..|a| + |b|] == b
  {
    assert f[..|a| + |b + c|] == a + (b + c);
  }
}
