/** The greedy line breaker (src/lib/WordWrapper.ts).

    `Greedy` cuts one line off the front of a text: a forward scan adds up
    the advance of each code unit until the running width reaches the
    column width, a newline is met or the text ends; on overflow a backward
    search looks for the nearest break point, whose character is replaced by
    its replacement text, and without one the line is cut hard at the
    overflow point. `Wrap` repeats this until the text is used up and joins
    the lines.

    The letter spacing and tab width are per-call parameters here; the
    source stores them on the shared instance for the duration of a call. */
module WordWrapper {
  import opened Strings
  import opened Font

  /** A code unit at which a line may break, and the text that replaces it. */
  datatype BreakPoint = BreakPoint(code: int, replace: Text)

  /** Space breaks to a newline; soft hyphen and en dash break to an en dash
      and a newline; hyphen-minus breaks to a hyphen-minus and a newline. */
  const DefaultBreakPoints: seq<BreakPoint> := [
    BreakPoint(SPACE, [NEWLINE]),
    BreakPoint(SOFT_HYPHEN, [EN_DASH, NEWLINE]),
    BreakPoint(EN_DASH, [EN_DASH, NEWLINE]),
    BreakPoint(HYPHEN_MINUS, [HYPHEN_MINUS, NEWLINE])
  ]

  /** What the constructor keeps: the break points, the advance of every
      glyph by code, the normalised kerning list and the kerning switch. */
  datatype Wrapper = Wrapper(
    breakPoints: seq<BreakPoint>,
    advances: map<int, real>,
    kernings: seq<Kerning>,
    useKernings: bool)

  function NewWrapper(f: RawFont, breakPoints: seq<BreakPoint>, useKernings: bool): (w: Wrapper)
    requires Sized(f)
    ensures w.breakPoints == breakPoints && w.useKernings == useKernings
    ensures |w.kernings| == |f.kernings|
    ensures forall i :: 0 <= i < |f.kernings| ==>
              w.kernings[i].first == f.kernings[i].first && w.kernings[i].second == f.kernings[i].second
              && w.kernings[i].amount * f.size == f.kernings[i].amount
  {
    Wrapper(breakPoints, AdvanceTable(f, f.chars), NormalizeKernings(f, f.kernings), useKernings)
  }

  /** The advance cache has an entry exactly for the ids listed in the
      atlas. */
  lemma NewWrapperKeys(f: RawFont, breakPoints: seq<BreakPoint>, useKernings: bool)
    requires Sized(f)
    ensures forall id :: id in NewWrapper(f, breakPoints, useKernings).advances <==>
              exists j :: 0 <= j < |f.chars| && f.chars[j].id == id
  {
    AdvanceTableKeys(f, f.chars);
  }

  /** The advance cache holds, for every glyph id, the advance of the last
      glyph listed with that id over the nominal size. The atlas size plays
      no part. */
  lemma NewWrapperAdvances(f: RawFont, breakPoints: seq<BreakPoint>, useKernings: bool, i: int)
    requires Sized(f)
    requires 0 <= i < |f.chars| && LastWithId(f.chars, i)
    ensures var w := NewWrapper(f, breakPoints, useKernings);
            f.chars[i].id in w.advances && w.advances[f.chars[i].id] * f.size == f.chars[i].xadvance
  {
    AdvanceTableLastWins(f, f.chars, i);
  }

  /** The break-code cache the constructor builds: the codes of the break
      points, in order. */
  function BreakCache(bps: seq<BreakPoint>): (r: seq<int>)
    ensures |r| == |bps|
    ensures forall i :: 0 <= i < |bps| ==> r[i] == bps[i].code
  {
    seq(|bps|, i requires 0 <= i < |bps| => bps[i].code)
  }

  predicate IsBreakChar(bps: seq<BreakPoint>, c: int) {
    c in BreakCache(bps)
  }

  /** The first break point for `c`, as Array.prototype.find returns it. */
  function FindBreakPoint(bps: seq<BreakPoint>, c: int): (r: Option<BreakPoint>)
    ensures r.Some? <==> IsBreakChar(bps, c)
    ensures r.Some? ==> exists i :: 0 <= i < |bps| && bps[i] == r.value && bps[i].code == c
                          && forall j :: 0 <= j < i ==> bps[j].code != c
    decreases |bps|
  {
    if |bps| == 0 then None
    else if bps[0].code == c then
      assert BreakCache(bps)[0] == c;
      Some(bps[0])
    else
      var r := FindBreakPoint(bps[1..], c);
      assert forall j :: 1 <= j < |bps| ==> bps[j] == bps[1..][j - 1];
      assert IsBreakChar(bps, c) <==> IsBreakChar(bps[1..], c) by {
        assert BreakCache(bps) == [bps[0].code] + BreakCache(bps[1..]);
      }
      r
  }

  /** The replacement text of the first break point for a break code. */
  function Replacement(bps: seq<BreakPoint>, c: int): Text
    requires IsBreakChar(bps, c)
  {
    FindBreakPoint(bps, c).value.replace
  }

  /** The width one code unit adds to a line: the tab width for a tab, else
      its advance (0 for a code without a glyph); the first-match kerning
      with the previous code when kerning is on and there is a previous code
      (0 stands for none: an absent previous code and code 0 are both falsy);
      and the letter spacing, for every code unit including the first. */
  function CharCost(w: Wrapper, ls: real, tw: real, prev: int, c: int): real {
    var advance := if c == TAB then tw else if c in w.advances then w.advances[c] else 0.0;
    var kerning := if w.useKernings && prev != 0 then KerningAmount(w.kernings, prev, c) else 0.0;
    advance + kerning + ls
  }

  /** The code before position `i`, or 0 at the start. */
  function Prev(s: Text, i: nat): int
    requires i <= |s|
  {
    if i == 0 then 0 else s[i - 1]
  }

  /** Width of a text by the breaker's rule: the costs of its code units,
      each taken with the code before it. */
  function LineWidth(w: Wrapper, ls: real, tw: real, s: Text): real
    decreases |s|
  {
    if |s| == 0 then 0.0
    else LineWidth(w, ls, tw, s[..|s| - 1]) + CharCost(w, ls, tw, Prev(s, |s| - 1), s[|s| - 1])
  }

  /** Every prefix of `s` up to length `n` is narrower than `width`. */
  ghost predicate FitsUpTo(w: Wrapper, ls: real, tw: real, width: real, s: Text, n: int)
    requires n <= |s|
  {
    forall k :: 0 <= k <= n ==> LineWidth(w, ls, tw, s[..k]) < width
  }

  ghost predicate NoNewlineBefore(s: Text, n: int)
    requires n <= |s|
  {
    forall k :: 0 <= k < n ==> s[k] != NEWLINE
  }

  /** How the forward scan stopped. */
  datatype ScanEnd = EndOfText | NewlineAt(at: nat) | Overflow(at: nat)

  /** The forward walk of greedy: `acc` is the running width, `prev` the
      previous code (0 for none). It runs while the width is below `width`. */
  function Scan(w: Wrapper, ls: real, tw: real, str: Text, width: real,
                pos: nat, acc: real, prev: int): (r: ScanEnd)
    requires pos <= |str|
    ensures r.NewlineAt? ==> pos <= r.at < |str| && str[r.at] == NEWLINE
    ensures r.Overflow? ==> pos <= r.at <= |str|
    ensures r.Overflow? && acc < width ==> pos < r.at
    decreases |str| - pos
  {
    if !(acc < width) then Overflow(pos)
    else if pos == |str| then EndOfText
    else if str[pos] == NEWLINE then NewlineAt(pos)
    else Scan(w, ls, tw, str, width, pos + 1, acc + CharCost(w, ls, tw, prev, str[pos]), str[pos])
  }

  /** The backward walk of greedy from `pos`: the nearest position at or
      before it holding a break code. Position |str| reads as NaN, which is
      no break code. */
  function LastBreak(bps: seq<BreakPoint>, str: Text, pos: int): (r: Option<nat>)
    requires -1 <= pos <= |str|
    ensures r.Some? ==> r.value <= pos && r.value < |str| && IsBreakChar(bps, str[r.value])
    ensures r.Some? ==> forall q :: r.value < q <= pos && q < |str| ==> !IsBreakChar(bps, str[q])
    ensures r.None? ==> forall q :: 0 <= q <= pos && q < |str| ==> !IsBreakChar(bps, str[q])
    decreases pos + 1
  {
    if pos < 0 then None
    else if pos < |str| && IsBreakChar(bps, str[pos]) then Some(pos)
    else LastBreak(bps, str, pos - 1)
  }

  /** One line cut off the front of a text, and the text that remains. */
  datatype Cut = Cut(line: Text, rest: Text)

  /** greedy: the remainder is always a suffix of the input, and it is
      strictly shorter whenever the column width is positive or the text
      starts with a break code. */
  function Greedy(w: Wrapper, str: Text, width: real, ls: real, tw: real): (r: Cut)
    ensures |r.rest| <= |str| && r.rest == str[|str| - |r.rest|..]
    ensures |str| > 0 && (width > 0.0 || IsBreakChar(w.breakPoints, str[0])) ==> |r.rest| < |str|
    ensures Finishes(w.breakPoints, width, str) ==> Finishes(w.breakPoints, width, r.rest)
  {
    match Scan(w, ls, tw, str, width, 0, 0.0, 0)
    case EndOfText => Cut(str, [])
    case NewlineAt(p) => Cut(str[..p + 1], str[p + 1..])
    case Overflow(h) =>
      match LastBreak(w.breakPoints, str, h)
      case Some(p) => Cut(str[..p] + Replacement(w.breakPoints, str[p]), str[p + 1..])
      case None => Cut(str[..h] + [NEWLINE], str[h..])
  }

  /** The texts on which wrap's loop ends: every text when the column width
      is positive, and otherwise only texts made of break codes, which greedy
      uses up one per step (`GreedyZeroWidthBreak`). On any other text the
      loop reaches a remainder that starts with a code that is no break code,
      and greedy returns it unchanged for ever (`GreedyStalls`). */
  predicate Finishes(bps: seq<BreakPoint>, width: real, str: Text) {
    width > 0.0 || forall i :: 0 <= i < |str| ==> IsBreakChar(bps, str[i])
  }

  /** The lines wrap collects, one greedy step each. */
  function Pieces(w: Wrapper, str: Text, width: real, ls: real, tw: real): seq<Text>
    requires Finishes(w.breakPoints, width, str)
    decreases |str|
  {
    if |str| == 0 then []
    else
      var c := Greedy(w, str, width, ls, tw);
      [c.line] + Pieces(w, c.rest, width, ls, tw)
  }

  /** wrap: the lines joined without a separator. */
  function Wrap(w: Wrapper, str: Text, width: real, ls: real, tw: real): Text
    requires Finishes(w.breakPoints, width, str)
  {
    Concat(Pieces(w, str, width, ls, tw))
  }

  // ---------------------------------------------------------------------
  // The forward scan measures by LineWidth

  lemma LineWidthStep(w: Wrapper, ls: real, tw: real, s: Text, k: nat)
    requires k < |s|
    ensures LineWidth(w, ls, tw, s[..k + 1])
            == LineWidth(w, ls, tw, s[..k]) + CharCost(w, ls, tw, Prev(s, k), s[k])
  {
    assert s[..k + 1][..k] == s[..k];
  }

  /** Without kerning and tabs a line is as wide as its advances plus one
      letter spacing per code unit, the first one included. */
  lemma {:induction false} LineWidthPlain(w: Wrapper, ls: real, tw: real, s: Text)
    requires !w.useKernings
    requires TAB !in s
    ensures LineWidth(w, ls, tw, s) == SumAdvances(w, s) + (|s| as real) * ls
    decreases |s|
  {
    if |s| > 0 {
      var init := s[..|s| - 1];
      assert TAB !in init by { assert forall k :: 0 <= k < |init| ==> init[k] == s[k]; }
      LineWidthPlain(w, ls, tw, init);
    }
  }

  /** The advances of the code units of `s`, 0 for a code without a glyph. */
  function SumAdvances(w: Wrapper, s: Text): real
    decreases |s|
  {
    if |s| == 0 then 0.0
    else SumAdvances(w, s[..|s| - 1]) + (if s[|s| - 1] in w.advances then w.advances[s[|s| - 1]] else 0.0)
  }

  /** The forward scan, started after a newline-free prefix that fits, stops
      at the end of a fitting newline-free text, at the first newline if
      everything before it fits, or at the first prefix whose width reaches
      `width`. */
  lemma {:induction false} ScanSpec(w: Wrapper, ls: real, tw: real, str: Text, width: real,
                                    pos: nat, acc: real, prev: int)
    requires pos <= |str|
    requires acc == LineWidth(w, ls, tw, str[..pos]) && prev == Prev(str, pos)
    requires pos > 0 ==> FitsUpTo(w, ls, tw, width, str, pos - 1)
    requires NoNewlineBefore(str, pos)
    ensures var r := Scan(w, ls, tw, str, width, pos, acc, prev);
            && (r.EndOfText? ==> NoNewlineBefore(str, |str|) && FitsUpTo(w, ls, tw, width, str, |str|))
            && (r.NewlineAt? ==> NoNewlineBefore(str, r.at) && FitsUpTo(w, ls, tw, width, str, r.at))
            && (r.Overflow? ==> OverflowsAt(w, ls, tw, width, str, r.at))
    decreases |str| - pos
  {
    if acc < width && pos < |str| && str[pos] != NEWLINE {
      LineWidthStep(w, ls, tw, str, pos);
      ScanSpec(w, ls, tw, str, width, pos + 1, acc + CharCost(w, ls, tw, prev, str[pos]), str[pos]);
    }
  }

  // ---------------------------------------------------------------------
  // The four outcomes of greedy, each stated from the measured widths

  /** A newline-free text all of whose prefixes fit is returned whole. */
  lemma GreedyFits(w: Wrapper, str: Text, width: real, ls: real, tw: real)
    requires NEWLINE !in str
    requires FitsUpTo(w, ls, tw, width, str, |str|)
    ensures Greedy(w, str, width, ls, tw) == Cut(str, [])
  {
    ScanSpec(w, ls, tw, str, width, 0, 0.0, 0);
  }

  /** A newline met before the width fills ends the line, newline included. */
  lemma GreedyNewline(w: Wrapper, str: Text, width: real, ls: real, tw: real, p: nat)
    requires p < |str| && str[p] == NEWLINE
    requires NoNewlineBefore(str, p)
    requires FitsUpTo(w, ls, tw, width, str, p)
    ensures Greedy(w, str, width, ls, tw) == Cut(str[..p + 1], str[p + 1..])
  {
    ScanSpec(w, ls, tw, str, width, 0, 0.0, 0);
  }

  /** `h` is where the forward scan overflows: no newline before it, every
      shorter prefix fits and the prefix of length `h` does not. */
  ghost predicate OverflowsAt(w: Wrapper, ls: real, tw: real, width: real, str: Text, h: nat)
  {
    && h <= |str|
    && NoNewlineBefore(str, h)
    && LineWidth(w, ls, tw, str[..h]) >= width
    && (h > 0 ==> FitsUpTo(w, ls, tw, width, str, h - 1))
  }

  lemma ScanOverflows(w: Wrapper, str: Text, width: real, ls: real, tw: real, h: nat)
    requires OverflowsAt(w, ls, tw, width, str, h)
    ensures Scan(w, ls, tw, str, width, 0, 0.0, 0) == Overflow(h)
  {
    ScanSpec(w, ls, tw, str, width, 0, 0.0, 0);
  }

  /** On overflow the nearest break code at or before the overflow point
      is consumed and replaced by its replacement text. */
  lemma GreedyBreakpoint(w: Wrapper, str: Text, width: real, ls: real, tw: real, h: nat, p: nat)
    requires OverflowsAt(w, ls, tw, width, str, h)
    requires p <= h && p < |str| && IsBreakChar(w.breakPoints, str[p])
    requires forall q :: p < q <= h && q < |str| ==> !IsBreakChar(w.breakPoints, str[q])
    ensures Greedy(w, str, width, ls, tw)
            == Cut(str[..p] + Replacement(w.breakPoints, str[p]), str[p + 1..])
  {
    ScanOverflows(w, str, width, ls, tw, h);
  }

  /** On overflow with no break code back to the line start, the line is
      cut at the overflow point and a newline appended. */
  lemma GreedyHardBreak(w: Wrapper, str: Text, width: real, ls: real, tw: real, h: nat)
    requires OverflowsAt(w, ls, tw, width, str, h)
    requires forall q :: 0 <= q <= h && q < |str| ==> !IsBreakChar(w.breakPoints, str[q])
    ensures Greedy(w, str, width, ls, tw) == Cut(str[..h] + [NEWLINE], str[h..])
  {
    ScanOverflows(w, str, width, ls, tw, h);
  }

  /** Every greedy step is one of three shapes: the line is a prefix of the
      text ending at its end or at a newline; a break code is replaced; or a
      newline is forced. */
  lemma GreedyShapes(w: Wrapper, str: Text, width: real, ls: real, tw: real)
    ensures var r := Greedy(w, str, width, ls, tw);
            || r.line + r.rest == str
            || (exists p :: 0 <= p < |str| && IsBreakChar(w.breakPoints, str[p])
                  && r == Cut(str[..p] + Replacement(w.breakPoints, str[p]), str[p + 1..]))
            || (exists h :: 0 <= h <= |str| && r == Cut(str[..h] + [NEWLINE], str[h..]))
  {
    var r := Greedy(w, str, width, ls, tw);
    match Scan(w, ls, tw, str, width, 0, 0.0, 0)
    case EndOfText =>
      assert r.line + r.rest == str;
    case NewlineAt(p) =>
      assert r == Cut(str[..p + 1], str[p + 1..]);
      assert str[..p + 1] + str[p + 1..] == str;
    case Overflow(h) =>
      match LastBreak(w.breakPoints, str, h)
      case Some(p) =>
        assert r == Cut(str[..p] + Replacement(w.breakPoints, str[p]), str[p + 1..]);
      case None =>
        assert r == Cut(str[..h] + [NEWLINE], str[h..]);
  }

  // ---------------------------------------------------------------------
  // Termination and the degenerate width

  /** With a width of zero or less the scan does not run: the first code
      unit is consumed only if it is a break code. */
  lemma GreedyZeroWidthBreak(w: Wrapper, str: Text, width: real, ls: real, tw: real)
    requires width <= 0.0 && |str| > 0 && IsBreakChar(w.breakPoints, str[0])
    ensures Greedy(w, str, width, ls, tw) == Cut(Replacement(w.breakPoints, str[0]), str[1..])
  {
    assert str[..0] == [];
  }

  /** With a width of zero or less and no break code in front, greedy
      returns a bare newline and the text unchanged, so wrap would repeat
      the same step forever. */
  lemma GreedyStalls(w: Wrapper, str: Text, width: real, ls: real, tw: real)
    requires width <= 0.0 && |str| > 0 && !IsBreakChar(w.breakPoints, str[0])
    ensures Greedy(w, str, width, ls, tw) == Cut([NEWLINE], str)
  {
    assert str[..0] == [];
  }

  // ---------------------------------------------------------------------
  // wrap

  lemma {:induction false} SplitAtFirst(s: Text, p: nat)
    requires p < |s| && s[p] == NEWLINE && NoNewlineBefore(s, p)
    ensures Split(s, NEWLINE) == [s[..p]] + Split(s[p + 1..], NEWLINE)
    decreases p
  {
    var rest := Split(s[p + 1..], NEWLINE);
    if p > 0 {
      var tail := s[1..];
      assert tail[p - 1] == s[p];
      assert tail[p..] == s[p + 1..];
      SplitAtFirst(tail, p - 1);
      var t := Split(tail, NEWLINE);
      assert t == [tail[..p - 1]] + rest;
      assert t[0] == tail[..p - 1] && t[1..] == rest;
      assert s[0] != NEWLINE;
      assert Split(s, NEWLINE) == [[s[0]] + t[0]] + t[1..];
      assert [s[0]] + tail[..p - 1] == s[..p];
    } else {
      assert s[..0] == [] && s[1..] == s[p + 1..];
      assert Split(s, NEWLINE) == [[]] + Split(s[1..], NEWLINE);
    }
  }

  lemma {:induction false} FirstNewline(s: Text) returns (p: nat)
    requires NEWLINE in s
    ensures p < |s| && s[p] == NEWLINE && NoNewlineBefore(s, p)
    decreases |s|
  {
    if s[0] == NEWLINE {
      p := 0;
    } else {
      assert NEWLINE in s[1..] by {
        var i :| 0 <= i < |s| && s[i] == NEWLINE;
        assert s[1..][i - 1] == s[i];
      }
      var q := FirstNewline(s[1..]);
      p := q + 1;
      assert forall k :: 1 <= k < p ==> s[k] == s[1..][k - 1];
    }
  }

  lemma PiecesStep(w: Wrapper, str: Text, width: real, ls: real, tw: real)
    requires Finishes(w.breakPoints, width, str) && |str| > 0
    ensures var c := Greedy(w, str, width, ls, tw);
            Pieces(w, str, width, ls, tw) == [c.line] + Pieces(w, c.rest, width, ls, tw)
  {
  }

  /** PiecesStep for a cut already known. */
  lemma PiecesCut(w: Wrapper, str: Text, width: real, ls: real, tw: real, line: Text, rest: Text)
    requires Finishes(w.breakPoints, width, str) && |str| > 0
    requires Greedy(w, str, width, ls, tw) == Cut(line, rest)
    ensures Pieces(w, str, width, ls, tw) == [line] + Pieces(w, rest, width, ls, tw)
  {
    PiecesStep(w, str, width, ls, tw);
  }

  /** At width zero or less, wrap turns a text of break codes into their
      replacement texts, one line per code. */
  lemma {:induction false} WrapZeroWidth(w: Wrapper, str: Text, width: real, ls: real, tw: real)
    requires width <= 0.0
    requires forall i :: 0 <= i < |str| ==> IsBreakChar(w.breakPoints, str[i])
    ensures |Pieces(w, str, width, ls, tw)| == |str|
    ensures forall i :: 0 <= i < |str| ==>
              Pieces(w, str, width, ls, tw)[i] == Replacement(w.breakPoints, str[i])
    decreases |str|
  {
    if |str| > 0 {
      var rest := str[1..];
      GreedyZeroWidthBreak(w, str, width, ls, tw);
      PiecesCut(w, str, width, ls, tw, Replacement(w.breakPoints, str[0]), rest);
      WrapZeroWidth(w, rest, width, ls, tw);
      assert forall i :: 1 <= i < |str| ==> str[i] == rest[i - 1];
    }
  }

  lemma ConcatCons(a: Text, ps: seq<Text>)
    ensures Concat([a] + ps) == a + Concat(ps)
  {
    assert ([a] + ps)[1..] == ps;
  }

  lemma FitsFromPrefix(w: Wrapper, ls: real, tw: real, width: real, s: Text, p: nat)
    requires p <= |s|
    requires FitsUpTo(w, ls, tw, width, s[..p], p)
    ensures FitsUpTo(w, ls, tw, width, s, p)
  {
    forall k | 0 <= k <= p ensures LineWidth(w, ls, tw, s[..k]) < width {
      assert s[..p][..k] == s[..k];
    }
  }

  /** All lines of a text fit the column. */
  ghost predicate AllLinesFit(w: Wrapper, ls: real, tw: real, width: real, str: Text) {
    var lines := Split(str, NEWLINE);
    forall i :: 0 <= i < |lines| ==> FitsUpTo(w, ls, tw, width, lines[i], |lines[i]|)
  }

  /** Text whose every line fits the column comes back from wrap unchanged. */
  lemma {:induction false} WrapUnchanged(w: Wrapper, str: Text, width: real, ls: real, tw: real)
    requires width > 0.0
    requires AllLinesFit(w, ls, tw, width, str)
    ensures Wrap(w, str, width, ls, tw) == str
    decreases |str|
  {
    if |str| > 0 {
      var c := Greedy(w, str, width, ls, tw);
      PiecesStep(w, str, width, ls, tw);
      ConcatCons(c.line, Pieces(w, c.rest, width, ls, tw));
      GreedyKeepsFittingLine(w, str, width, ls, tw);
      WrapUnchanged(w, c.rest, width, ls, tw);
    }
  }

  /** On text whose lines fit, greedy cuts off the first line verbatim and
      the lines of the remainder still fit. */
  lemma GreedyKeepsFittingLine(w: Wrapper, str: Text, width: real, ls: real, tw: real)
    requires AllLinesFit(w, ls, tw, width, str)
    ensures var c := Greedy(w, str, width, ls, tw);
            c.line + c.rest == str && AllLinesFit(w, ls, tw, width, c.rest)
  {
    if NEWLINE !in str {
      SplitFree(str, NEWLINE);
      assert Split(str, NEWLINE)[0] == str;
      assert FitsUpTo(w, ls, tw, width, str, |str|);
      assert LineWidth(w, ls, tw, str[..0]) < width;
      assert str[..0] == [];
      GreedyFits(w, str, width, ls, tw);
      EmptyFits(w, ls, tw, width);
    } else {
      var p := FirstNewline(str);
      WrapUnchangedStep(w, str, width, ls, tw, p);
      assert str[..p + 1] + str[p + 1..] == str;
    }
  }

  /** The empty text fits any column with room for nothing. */
  lemma EmptyFits(w: Wrapper, ls: real, tw: real, width: real)
    requires LineWidth(w, ls, tw, []) < width
    ensures AllLinesFit(w, ls, tw, width, [])
  {
    var empty: Text := [];
    assert Split(empty, NEWLINE) == [[]];
    assert empty[..0] == empty;
  }

  lemma WrapUnchangedStep(w: Wrapper, str: Text, width: real, ls: real, tw: real, p: nat)
    requires p < |str| && str[p] == NEWLINE && NoNewlineBefore(str, p)
    requires AllLinesFit(w, ls, tw, width, str)
    ensures Greedy(w, str, width, ls, tw) == Cut(str[..p + 1], str[p + 1..])
    ensures AllLinesFit(w, ls, tw, width, str[p + 1..])
  {
    FirstLineFits(w, str, width, ls, tw, p);
    GreedyNewline(w, str, width, ls, tw, p);
  }

  /** The first line of a text whose lines fit is narrower than the width
      all along, and so are the lines after it. */
  lemma FirstLineFits(w: Wrapper, str: Text, width: real, ls: real, tw: real, p: nat)
    requires p < |str| && str[p] == NEWLINE && NoNewlineBefore(str, p)
    requires AllLinesFit(w, ls, tw, width, str)
    ensures FitsUpTo(w, ls, tw, width, str, p)
    ensures AllLinesFit(w, ls, tw, width, str[p + 1..])
  {
    var lines := Split(str, NEWLINE);
    var tail := str[p + 1..];
    SplitAtFirst(str, p);
    assert lines[0] == str[..p];
    FitsFromPrefix(w, ls, tw, width, str, p);
    forall i | 0 <= i < |Split(tail, NEWLINE)|
      ensures FitsUpTo(w, ls, tw, width, Split(tail, NEWLINE)[i], |Split(tail, NEWLINE)[i]|)
    {
      assert Split(tail, NEWLINE)[i] == lines[i + 1];
    }
  }

  /** Every replacement text ends in a newline. */
  ghost predicate ReplacementsEndInNewline(bps: seq<BreakPoint>) {
    forall i :: 0 <= i < |bps| ==> |bps[i].replace| > 0 && bps[i].replace[|bps[i].replace| - 1] == NEWLINE
  }

  lemma DefaultReplacementsEndInNewline()
    ensures ReplacementsEndInNewline(DefaultBreakPoints)
  {
  }

  /** With replacements that end in a newline, a greedy step that leaves
      text over produces a line ending in a newline. */
  lemma GreedyLineEnds(w: Wrapper, str: Text, width: real, ls: real, tw: real)
    requires ReplacementsEndInNewline(w.breakPoints)
    ensures var r := Greedy(w, str, width, ls, tw);
            |r.rest| > 0 ==> |r.line| > 0 && r.line[|r.line| - 1] == NEWLINE
  {
    match Scan(w, ls, tw, str, width, 0, 0.0, 0)
    case EndOfText =>
    case NewlineAt(p) =>
    case Overflow(h) =>
      match LastBreak(w.breakPoints, str, h)
      case Some(p) =>
        var c := str[p];
        var bp := FindBreakPoint(w.breakPoints, c).value;
        var i :| 0 <= i < |w.breakPoints| && w.breakPoints[i] == bp && bp.code == c;
      case None =>
  }

  /** With such replacements every line of wrap but the last ends in a
      newline. */
  lemma {:induction false} WrapLinesEnd(w: Wrapper, str: Text, width: real, ls: real, tw: real)
    requires Finishes(w.breakPoints, width, str)
    requires ReplacementsEndInNewline(w.breakPoints)
    ensures InnerLinesEnd(Pieces(w, str, width, ls, tw))
    decreases |str|
  {
    if |str| > 0 {
      var c := Greedy(w, str, width, ls, tw);
      var tail := Pieces(w, c.rest, width, ls, tw);
      WrapLinesEnd(w, c.rest, width, ls, tw);
      GreedyLineEnds(w, str, width, ls, tw);
      PiecesStep(w, str, width, ls, tw);
      if |c.rest| == 0 {
        assert tail == [];
      }
      EndsInNewlineCons(c.line, tail);
    }
  }

  /** With the default break points every line of wrap but the last ends
      in a newline. */
  lemma DefaultWrapLinesEnd(w: Wrapper, str: Text, width: real, ls: real, tw: real)
    requires Finishes(w.breakPoints, width, str)
    requires w.breakPoints == DefaultBreakPoints
    ensures InnerLinesEnd(Pieces(w, str, width, ls, tw))
  {
    DefaultReplacementsEndInNewline();
    WrapLinesEnd(w, str, width, ls, tw);
  }

  /** All lines but the last end in a newline. */
  ghost predicate InnerLinesEnd(ps: seq<Text>) {
    forall i :: 0 <= i < |ps| - 1 ==> |ps[i]| > 0 && ps[i][|ps[i]| - 1] == NEWLINE
  }

  lemma EndsInNewlineCons(line: Text, ps: seq<Text>)
    requires InnerLinesEnd(ps)
    requires |ps| > 0 ==> |line| > 0 && line[|line| - 1] == NEWLINE
    ensures InnerLinesEnd([line] + ps)
  {
    forall i | 0 <= i < |[line] + ps| - 1
      ensures |([line] + ps)[i]| > 0 && ([line] + ps)[i][|([line] + ps)[i]| - 1] == NEWLINE
    {
      if i > 0 {
        assert ([line] + ps)[i] == ps[i - 1];
      }
    }
  }
}
