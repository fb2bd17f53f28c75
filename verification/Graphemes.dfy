/** The grapheme cluster segmenter as an abstract function with the laws the projections rely on. */
module Graphemes {
  import opened Types
  import opened Utf8

  /** What segmentation of one text promises: the pieces are its text, none is empty, the pieces of the first
      `k` pieces' text are those pieces, and a code point is never split. */
  ghost predicate LawsAt(f: Text -> seq<Text>, s: Text) {
    && Concat(f(s)) == s
    && (forall i :: 0 <= i < |f(s)| ==> f(s)[i] != [])
    && (forall k {:trigger f(s)[..k]} :: 0 <= k <= |f(s)| ==> f(Concat(f(s)[..k])) == f(s)[..k])
    && (ValidUtf8(s) ==> forall i :: 0 <= i < |f(s)| ==> ValidUtf8(f(s)[i]))
  }

  ghost predicate Lawful(f: Text -> seq<Text>) {
    forall s :: LawsAt(f, s)
  }

  type Segmenter = f: Text -> seq<Text> | Lawful(f) ghost witness (CodePointsAreLawful(); CodePoints)

  lemma SegmentLaws(seg: Segmenter, s: Text)
    ensures LawsAt(seg, s)
  {
  }

  /** Pieces that begin at the first byte and at every byte `starts` accepts. */
  function PiecesBy(starts: byte -> bool, s: Text): seq<Text> {
    if s == [] then []
    else
      var r, b := PiecesBy(starts, s[..|s| - 1]), s[|s| - 1];
      if r == [] || starts(b) then r + [[b]] else r[..|r| - 1] + [r[|r| - 1] + [b]]
  }

  const CodePoints: Text -> seq<Text> := s => PiecesBy(RuneStart, s)

  /** A byte that starts a cluster when combining diacritical marks (U+0300 to U+036F) attach to what precedes. */
  predicate StartsUnmarked(b: byte) {
    RuneStart(b) && b != 0xCC && b != 0xCD
  }

  const MarkedLetters: Text -> seq<Text> := s => PiecesBy(StartsUnmarked, s)

  lemma {:induction false} PiecesJoin(starts: byte -> bool, s: Text)
    ensures Concat(PiecesBy(starts, s)) == s
  {
    if s != [] {
      var t, b := s[..|s| - 1], s[|s| - 1];
      PiecesJoin(starts, t);
      var r := PiecesBy(starts, t);
      if r == [] || starts(b) {
        ConcatOne(r, [b]);
      } else {
        var init, last := r[..|r| - 1], r[|r| - 1];
        assert r == init + [last];
        ConcatOne(init, last);
        ConcatOne(init, last + [b]);
      }
    }
  }

  /** No piece is empty, and every piece but the first begins where one may. */
  predicate WellBegun(starts: byte -> bool, pieces: seq<Text>) {
    forall i :: 0 <= i < |pieces| ==> pieces[i] != [] && (i > 0 ==> starts(pieces[i][0]))
  }

  lemma LastGrows(starts: byte -> bool, pieces: seq<Text>, b: byte)
    requires WellBegun(starts, pieces) && pieces != []
    ensures WellBegun(starts, pieces[..|pieces| - 1] + [pieces[|pieces| - 1] + [b]])
  {
    var last := pieces[|pieces| - 1];
    var grown := pieces[..|pieces| - 1] + [last + [b]];
    assert (last + [b])[0] == last[0];
    forall i | 0 <= i < |grown|
      ensures grown[i] != [] && (i > 0 ==> starts(grown[i][0]))
    {
      assert i < |pieces| - 1 ==> grown[i] == pieces[i];
    }
  }

  lemma {:induction false} PiecesBegin(starts: byte -> bool, s: Text)
    ensures WellBegun(starts, PiecesBy(starts, s))
    ensures PiecesBy(starts, s) == [] <==> s == []
  {
    if s != [] {
      var t, b := s[..|s| - 1], s[|s| - 1];
      PiecesBegin(starts, t);
      var r := PiecesBy(starts, t);
      if r != [] && !starts(b) {
        LastGrows(starts, r, b);
        hide WellBegun;
      }
    }
  }

  lemma PiecesShape(starts: byte -> bool, s: Text)
    ensures var r := PiecesBy(starts, s);
            && Concat(r) == s
            && (r == [] <==> s == [])
            && (forall i :: 0 <= i < |r| ==> r[i] != [])
            && (forall i :: 1 <= i < |r| ==> starts(r[i][0]))
  {
    PiecesJoin(starts, s);
    PiecesBegin(starts, s);
  }

  lemma {:induction false} PiecesOfPrefix(starts: byte -> bool, s: Text, k: nat)
    requires k <= |PiecesBy(starts, s)|
    ensures PiecesBy(starts, Concat(PiecesBy(starts, s)[..k])) == PiecesBy(starts, s)[..k]
  {
    var r := PiecesBy(starts, s);
    PiecesShape(starts, s);
    if k == |r| {
      assert r[..k] == r;
    } else {
      var t := s[..|s| - 1];
      assert r[..k] == PiecesBy(starts, t)[..k];
      PiecesOfPrefix(starts, t, k);
    }
  }

  lemma PieceIsValid(starts: byte -> bool, s: Text, k: nat)
    requires forall b: byte :: starts(b) ==> RuneStart(b)
    requires ValidUtf8(s) && k < |PiecesBy(starts, s)|
    ensures ValidUtf8(PiecesBy(starts, s)[k])
  {
    hide ValidUtf8;
    hide PiecesBy;
    PiecesShape(starts, s);
    var r := PiecesBy(starts, s);
    var before, piece, after := Concat(r[..k]), r[k], Concat(r[k + 1..]);
    assert r == r[..k] + [piece] + r[k + 1..];
    ConcatAppend(r[..k] + [piece], r[k + 1..]);
    ConcatOne(r[..k], piece);
    assert s == before + piece + after;
    if after != [] {
      assert r[k + 1..] == [r[k + 1]] + r[k + 2..];
      ConcatAppend([r[k + 1]], r[k + 2..]);
      ConcatOne([], r[k + 1]);
      assert [] + [r[k + 1]] == [r[k + 1]];
      assert after[0] == r[k + 1][0];
      assert s[|before + piece|] == after[0];
    }
    CutAtRuneStart(s, |before + piece|);
    assert s[..|before + piece|] == before + piece;
    if k == 0 {
      assert before == [];
      assert before + piece == piece;
    } else {
      assert (before + piece)[|before|] == piece[0];
      CutAtRuneStart(before + piece, |before|);
      assert (before + piece)[|before|..] == piece;
    }
  }

  lemma PiecesAreLawful(starts: byte -> bool, s: Text)
    requires forall b: byte :: starts(b) ==> RuneStart(b)
    ensures LawsAt(t => PiecesBy(starts, t), s)
  {
    var f := t => PiecesBy(starts, t);
    PiecesShape(starts, s);
    forall k | 0 <= k <= |f(s)|
      ensures f(Concat(f(s)[..k])) == f(s)[..k]
    {
      PiecesOfPrefix(starts, s, k);
    }
    if ValidUtf8(s) {
      forall i | 0 <= i < |f(s)|
        ensures ValidUtf8(f(s)[i])
      {
        PieceIsValid(starts, s, i);
      }
    }
  }

  /** The laws are met by splitting into code points, and by keeping combining marks with their letter. */
  lemma CodePointsAreLawful()
    ensures Lawful(CodePoints)
  {
    forall s
      ensures LawsAt(CodePoints, s)
    {
      PiecesAreLawful(RuneStart, s);
      SameLaws(t => PiecesBy(RuneStart, t), CodePoints, s);
    }
  }

  lemma MarkedLettersAreLawful()
    ensures Lawful(MarkedLetters)
  {
    forall s
      ensures LawsAt(MarkedLetters, s)
    {
      PiecesAreLawful(StartsUnmarked, s);
      SameLaws(t => PiecesBy(StartsUnmarked, t), MarkedLetters, s);
    }
  }

  lemma SameLaws(f: Text -> seq<Text>, g: Text -> seq<Text>, s: Text)
    requires forall t :: f(t) == g(t)
    requires LawsAt(f, s)
    ensures LawsAt(g, s)
  {
    forall k | 0 <= k <= |g(s)|
      ensures g(Concat(g(s)[..k])) == g(s)[..k]
    {
      assert f(s)[..k] == g(s)[..k];
    }
  }
}
