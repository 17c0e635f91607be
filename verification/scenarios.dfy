/** Worked examples: concrete fonts and texts whose wrap and layout results
    follow from the definitions. */
module Scenarios {
  import opened Strings
  import opened Font
  import opened WordWrapper
  import opened LayoutGenerator
  import opened LayoutProperties

  const A: int := 65
  const B: int := 66

  /** A monospace breaker without kerning: every letter advances 0.5, and
      so does the space when the font has a space glyph. */
  function Monospace(spaceGlyph: bool): Wrapper {
    Wrapper(DefaultBreakPoints,
            if spaceGlyph then map[A := 0.5, SPACE := 0.5] else map[A := 0.5],
            [], false)
  }

  const ThreeWords: Text := [A, A, SPACE, A, A, SPACE, A, A]

  /** "AA AA AA" in a column of width 2 when the space is as wide as a
      letter: A, A, space and A add up to the width, so the fourth code unit
      of each remaining text reaches it and the scan overflows at position 4.
      The space before it becomes a newline, and every word gets a line of
      its own. */
  lemma ThreeWordsSpaceGlyph()
    ensures Pieces(Monospace(true), ThreeWords, 2.0, 0.0, 1.0)
            == [[A, A, NEWLINE], [A, A, NEWLINE], [A, A]]
    ensures Wrap(Monospace(true), ThreeWords, 2.0, 0.0, 1.0)
            == [A, A, NEWLINE, A, A, NEWLINE, A, A]
  {
    var nl: Text := [A, A, NEWLINE];
    var s1: Text := [A, A, SPACE, A, A];
    var s2: Text := [A, A];
    assert nl + nl + s2 == [A, A, NEWLINE, A, A, NEWLINE, A, A];
    assert ThreeWords[..5] == s1 && ThreeWords[3..] == s1;
    assert s1[..5] == s1 && s1[3..] == s2;
    BreakAtSpace(ThreeWords);
    BreakAtSpace(s1);
    LastWord();
    ThreeCuts(Monospace(true), ThreeWords, s1, s2, nl, nl, 2.0, 0.0, 1.0);
  }

  /** Three greedy cuts that use up a text make three lines. */
  lemma ThreeCuts(w: Wrapper, s0: Text, s1: Text, s2: Text, l0: Text, l1: Text,
                  width: real, ls: real, tw: real)
    requires width > 0.0 && |s0| > 0 && |s1| > 0 && |s2| > 0
    requires Greedy(w, s0, width, ls, tw) == Cut(l0, s1)
    requires Greedy(w, s1, width, ls, tw) == Cut(l1, s2)
    requires Greedy(w, s2, width, ls, tw) == Cut(s2, [])
    ensures Pieces(w, s0, width, ls, tw) == [l0, l1, s2]
    ensures Wrap(w, s0, width, ls, tw) == l0 + l1 + s2
  {
    var none: Text := [];
    PiecesCut(w, s2, width, ls, tw, s2, none);
    assert Pieces(w, none, width, ls, tw) == [];
    assert Pieces(w, s2, width, ls, tw) == [s2];
    PiecesCut(w, s1, width, ls, tw, l1, s2);
    assert Pieces(w, s1, width, ls, tw) == [l1, s2];
    PiecesCut(w, s0, width, ls, tw, l0, s1);
    assert Pieces(w, s0, width, ls, tw) == [l0, l1, s2];
    ConcatCons(s2, []);
    ConcatCons(l1, [s2]);
    ConcatCons(l0, [l1, s2]);
    assert [l0] + [l1, s2] == [l0, l1, s2];
    assert [l1] + [s2] == [l1, s2];
  }

  /** A text starting "AA AA" reaches the width with its fourth code unit,
      so the scan overflows at the fifth, and the line breaks at the space. */
  lemma BreakAtSpace(s: Text)
    requires |s| >= 5 && s[..5] == [A, A, SPACE, A, A]
    ensures Greedy(Monospace(true), s, 2.0, 0.0, 1.0) == Cut([A, A, NEWLINE], s[3..])
  {
    var w := Monospace(true);
    assert s[0] == A && s[1] == A && s[2] == SPACE && s[3] == A && s[4] == A by {
      assert forall k :: 0 <= k < 5 ==> s[k] == s[..5][k];
    }
    assert CharCost(w, 0.0, 1.0, 0, A) == 0.5 && CharCost(w, 0.0, 1.0, A, A) == 0.5;
    assert CharCost(w, 0.0, 1.0, A, SPACE) == 0.5 && CharCost(w, 0.0, 1.0, SPACE, A) == 0.5;
    assert Scan(w, 0.0, 1.0, s, 2.0, 4, 2.0, A) == Overflow(4);
    assert Scan(w, 0.0, 1.0, s, 2.0, 3, 1.5, SPACE) == Overflow(4);
    assert Scan(w, 0.0, 1.0, s, 2.0, 2, 1.0, A) == Overflow(4);
    assert Scan(w, 0.0, 1.0, s, 2.0, 1, 0.5, A) == Overflow(4);
    assert Scan(w, 0.0, 1.0, s, 2.0, 0, 0.0, 0) == Overflow(4);
    assert LastBreak(w.breakPoints, s, 4) == Some(2) by {
      assert !IsBreakChar(w.breakPoints, A);
      assert IsBreakChar(w.breakPoints, SPACE) by { assert BreakCache(w.breakPoints)[0] == SPACE; }
    }
    assert Replacement(w.breakPoints, SPACE) == [NEWLINE];
    assert s[..2] == [A, A];
  }

  /** The last word fits and is returned whole. */
  lemma LastWord()
    ensures Greedy(Monospace(true), [A, A], 2.0, 0.0, 1.0) == Cut([A, A], [])
  {
    var w := Monospace(true);
    var s: Text := [A, A];
    assert CharCost(w, 0.0, 1.0, 0, A) == 0.5 && CharCost(w, 0.0, 1.0, A, A) == 0.5;
    assert Scan(w, 0.0, 1.0, s, 2.0, 2, 1.0, A) == EndOfText;
    assert Scan(w, 0.0, 1.0, s, 2.0, 1, 0.5, A) == EndOfText;
    assert Scan(w, 0.0, 1.0, s, 2.0, 0, 0.0, 0) == EndOfText;
  }

  /** The same text when the font has no space glyph: spaces cost nothing,
      the fourth letter reaches the width, and the space right after it is
      the nearest break point, so the first line keeps two words. */
  lemma ThreeWordsNoSpaceGlyph()
    ensures Wrap(Monospace(false), ThreeWords, 2.0, 0.0, 1.0)
            == [A, A, SPACE, A, A, NEWLINE, A, A]
  {
    var w := Monospace(false);
    var s1 := ThreeWords[6..];
    assert s1 == [A, A];
    assert CharCost(w, 0.0, 1.0, 0, A) == 0.5 && CharCost(w, 0.0, 1.0, A, A) == 0.5;
    assert CharCost(w, 0.0, 1.0, A, SPACE) == 0.0 && CharCost(w, 0.0, 1.0, SPACE, A) == 0.5;
    assert Scan(w, 0.0, 1.0, ThreeWords, 2.0, 5, 2.0, A) == Overflow(5);
    assert Scan(w, 0.0, 1.0, ThreeWords, 2.0, 4, 1.5, A) == Overflow(5);
    assert Scan(w, 0.0, 1.0, ThreeWords, 2.0, 3, 1.0, SPACE) == Overflow(5);
    assert Scan(w, 0.0, 1.0, ThreeWords, 2.0, 2, 1.0, A) == Overflow(5);
    assert Scan(w, 0.0, 1.0, ThreeWords, 2.0, 1, 0.5, A) == Overflow(5);
    assert Scan(w, 0.0, 1.0, ThreeWords, 2.0, 0, 0.0, 0) == Overflow(5);
    assert LastBreak(w.breakPoints, ThreeWords, 5) == Some(5) by {
      assert IsBreakChar(w.breakPoints, SPACE) by { assert BreakCache(w.breakPoints)[0] == SPACE; }
    }
    assert Replacement(w.breakPoints, SPACE) == [NEWLINE];
    assert Greedy(w, ThreeWords, 2.0, 0.0, 1.0) == Cut([A, A, SPACE, A, A, NEWLINE], s1);
    assert Scan(w, 0.0, 1.0, s1, 2.0, 2, 1.0, A) == EndOfText;
    assert Scan(w, 0.0, 1.0, s1, 2.0, 1, 0.5, A) == EndOfText;
    assert Scan(w, 0.0, 1.0, s1, 2.0, 0, 0.0, 0) == EndOfText;
    PiecesStep(w, ThreeWords, 2.0, 0.0, 1.0);
    PiecesStep(w, s1, 2.0, 0.0, 1.0);
    ConcatCons([A, A, SPACE, A, A, NEWLINE], [s1]);
    ConcatCons(s1, []);
  }

  /** A text exactly as wide as the column still gets a newline: the scan
      stops once the width is reached, not only when it is exceeded. */
  lemma ExactFitBreaks()
    ensures Wrap(Monospace(false), [A, A, A, A], 2.0, 0.0, 1.0) == [A, A, A, A, NEWLINE]
  {
    var w := Monospace(false);
    var s := [A, A, A, A];
    assert CharCost(w, 0.0, 1.0, 0, A) == 0.5 && CharCost(w, 0.0, 1.0, A, A) == 0.5;
    assert Scan(w, 0.0, 1.0, s, 2.0, 4, 2.0, A) == Overflow(4);
    assert Scan(w, 0.0, 1.0, s, 2.0, 3, 1.5, A) == Overflow(4);
    assert Scan(w, 0.0, 1.0, s, 2.0, 2, 1.0, A) == Overflow(4);
    assert Scan(w, 0.0, 1.0, s, 2.0, 1, 0.5, A) == Overflow(4);
    assert Scan(w, 0.0, 1.0, s, 2.0, 0, 0.0, 0) == Overflow(4);
    assert !IsBreakChar(w.breakPoints, A);
    assert LastBreak(w.breakPoints, s, 4) == None;
    assert s[4..] == [];
    assert Greedy(w, s, 2.0, 0.0, 1.0) == Cut(s + [NEWLINE], []);
    PiecesStep(w, s, 2.0, 0.0, 1.0);
    ConcatCons(s + [NEWLINE], []);
  }

  /** At width zero a space and a hyphen-minus are used up one per step,
      each replaced by its replacement text, so wrap ends. */
  lemma ZeroWidthBreakCodes()
    ensures Finishes(DefaultBreakPoints, 0.0, [SPACE, HYPHEN_MINUS])
            && Wrap(Monospace(true), [SPACE, HYPHEN_MINUS], 0.0, 0.0, 1.0) == [NEWLINE, HYPHEN_MINUS, NEWLINE]
  {
    var w := Monospace(true);
    var s: Text := [SPACE, HYPHEN_MINUS];
    assert BreakCache(w.breakPoints) == [SPACE, SOFT_HYPHEN, EN_DASH, HYPHEN_MINUS];
    assert IsBreakChar(w.breakPoints, SPACE) && IsBreakChar(w.breakPoints, HYPHEN_MINUS);
    assert Replacement(w.breakPoints, SPACE) == [NEWLINE];
    assert Replacement(w.breakPoints, HYPHEN_MINUS) == [HYPHEN_MINUS, NEWLINE];
    WrapZeroWidth(w, s, 0.0, 0.0, 1.0);
    var ps := Pieces(w, s, 0.0, 0.0, 1.0);
    assert ps == [[NEWLINE], [HYPHEN_MINUS, NEWLINE]];
    ConcatCons([NEWLINE], [[HYPHEN_MINUS, NEWLINE]]);
    ConcatCons([HYPHEN_MINUS, NEWLINE], []);
  }

  /** A font whose atlas size is 0 but whose nominal size is 2: the line
      breaker divides by the nominal size alone, so it still gets an advance
      of 1.5 for a glyph of advance 3 and a kerning amount of 1 for a raw
      amount of 2. */
  lemma ZeroAtlasWrapper()
    ensures var f := RawFont([RawChar(A, 0.0, 0.0, 4.0, 4.0, 3.0, 0.0, 0.0, 0)],
                             [Kerning(A, A, 2.0)], 2.0, 0.0, 0.0, 1.0, 1.0);
            && Sized(f) && !Divisible(f)
            && NewWrapper(f, DefaultBreakPoints, true).advances == map[A := 1.5]
            && NewWrapper(f, DefaultBreakPoints, true).kernings == [Kerning(A, A, 1.0)]
  {
    var f := RawFont([RawChar(A, 0.0, 0.0, 4.0, 4.0, 3.0, 0.0, 0.0, 0)],
                     [Kerning(A, A, 2.0)], 2.0, 0.0, 0.0, 1.0, 1.0);
    assert f.chars[..0] == [];
    assert AdvanceTable(f, f.chars) == map[A := 1.5];
    assert NormalizeKernings(f, f.kernings)[0] == Kerning(A, A, 1.0);
  }

  /** A unit-square glyph with advance 1. */
  function Square(id: int): Char {
    Char(id, 1.0, 1.0, 1.0, 0.0, 0.0, 0, UvRect(0.0, 0.0, 1.0, 1.0))
  }

  function KernedFont(): Generator {
    var ks := [Kerning(A, B, -0.1)];
    Generator(map[A := Square(A), B := Square(B)], ks, 0.0, 1.0,
              Wrapper(DefaultBreakPoints, map[A := 1.0, B := 1.0], ks, true))
  }

  /** "AB" with kerning(A, B) = -0.1 and no letter spacing: B is drawn at
      1.0 - 0.1 = 0.9, and the pen ends at 1.9. */
  lemma KernedPair(measure: Text -> real)
    ensures var g := KernedFont();
            var s := Settings(10.0, 0.0, 1.0, 1.0, Left);
            var pen := PlaceLine(g, s, measure, [A, B], 0, Geometry([], [], []), 0);
            |pen.out.verts| == 16 && pen.out.verts[0] == 0.0 && pen.out.verts[8] == 0.9 && pen.x == 1.9
  {
    var g := KernedFont();
    var s := Settings(10.0, 0.0, 1.0, 1.0, Left);
    var line := [A, B];
    var st := LineSettingsFor(s, measure, line, 0);
    var pen0 := Pen(0.0, None, 0, Geometry([], [], []));
    assert KerningAmount(g.kernings, A, B) == -0.1 by {
      assert FirstMatch(g.kernings, A, B) == 0;
    }
    StepPlaces(g, st, pen0, A);
    var pen1 := PlaceGlyph(g, st, pen0, Square(A));
    assert pen1.x == 1.0 && pen1.prev == Some(Square(A)) && |pen1.out.verts| == 8 && pen1.out.verts[0] == 0.0;
    StepPlaces(g, st, pen1, B);
    var pen2 := PlaceGlyph(g, st, pen1, Square(B));
    assert pen2.out.verts[8] == 0.9 && pen2.x == 1.9;
    assert PlaceChars(g, st, pen1, line, 1) == pen2;
    assert PlaceLine(g, s, measure, line, 0, Geometry([], [], []), 0) == PlaceChars(g, st, pen0, line, 0);
  }
}
