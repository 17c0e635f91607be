/** What the placement walk of LayoutGenerator guarantees.

    The reference definitions here are independent of the walk: `Glyphs`
    filters a line down to the glyphs that get placed, `LinesPlaced` tags
    them with their line number, `Emits` says what quad each of them owns in
    the output arrays, and `PenAt` gives the pen position after a prefix of
    a line in closed form (advances, kerning and letter spacing between
    placed glyphs, tab widths, and justification shares). */
module LayoutProperties {
  import opened Strings
  import opened Font
  import opened LayoutGenerator

  /** A code that produces a quad: not a tab, and present in the table. */
  predicate Placeable(g: Generator, code: int) {
    code != TAB && code in g.chars
  }

  /** The glyphs a line places, in order. */
  function Glyphs(g: Generator, s: Text): seq<Char>
    decreases |s|
  {
    if |s| == 0 then []
    else Glyphs(g, s[..|s| - 1]) + (if Placeable(g, s[|s| - 1]) then [g.chars[s[|s| - 1]]] else [])
  }

  /** Number of placed glyphs in a text, newlines (which end lines) excluded. */
  function PlacedCount(g: Generator, s: Text): nat
    decreases |s|
  {
    if |s| == 0 then 0
    else (if s[0] != NEWLINE && Placeable(g, s[0]) then 1 else 0) + PlacedCount(g, s[1..])
  }

  datatype PlacedGlyph = PlacedGlyph(glyph: Char, lineNo: nat)

  function Tag(glyphs: seq<Char>, lineNo: nat): (r: seq<PlacedGlyph>)
    ensures |r| == |glyphs|
    ensures forall k :: 0 <= k < |glyphs| ==> r[k] == PlacedGlyph(glyphs[k], lineNo)
  {
    seq(|glyphs|, k requires 0 <= k < |glyphs| => PlacedGlyph(glyphs[k], lineNo))
  }

  /** The glyphs of consecutive lines, each with its line number. */
  function LinesPlaced(g: Generator, lines: seq<Text>, lineNo: nat): seq<PlacedGlyph>
    decreases |lines|
  {
    if |lines| == 0 then []
    else Tag(Glyphs(g, lines[0]), lineNo) + LinesPlaced(g, lines[1..], lineNo + 1)
  }

  /** The six indices of the k-th quad: triangles (tl, bl, tr) and (tr, bl, br). */
  function IndexQuad(k: int): seq<int> {
    [4 * k, 4 * k + 2, 4 * k + 1, 4 * k + 1, 4 * k + 2, 4 * k + 3]
  }

  /** Top edge of a placed glyph: its line moved down by the line height,
      its own y offset, and the baseline offset. */
  function QuadTop(pg: PlacedGlyph, lh: real, bo: real): real {
    -((pg.lineNo as real) * lh) - pg.glyph.yOffset + bo
  }

  /** Eight coordinates forming the glyph's quad (x1,y1) (x2,y1) (x1,y2)
      (x2,y2), as wide and as high as the glyph, with the given top edge. */
  ghost predicate QuadShape(v: seq<real>, c: Char, top: real)
    requires |v| == 8
  {
    && v[4] == v[0] && v[6] == v[2]
    && v[1] == top && v[3] == top && v[7] == v[5]
    && v[2] - v[0] == c.width
    && v[1] - v[5] == c.height
  }

  /** The k-th quad of `out` belongs to `pg`. */
  ghost predicate QuadAt(out: Geometry, k: nat, pg: PlacedGlyph, lh: real, bo: real) {
    && 8 * k + 8 <= |out.verts| && 8 * k + 8 <= |out.uvs| && 6 * k + 6 <= |out.indices|
    && QuadShape(out.verts[8 * k .. 8 * k + 8], pg.glyph, QuadTop(pg, lh, bo))
    && out.uvs[8 * k .. 8 * k + 8] == UvQuad(pg.glyph.uvs)
    && out.indices[6 * k .. 6 * k + 6] == IndexQuad(k)
  }

  /** `out` holds exactly one quad per placed glyph, in order. */
  ghost predicate Emits(out: Geometry, placed: seq<PlacedGlyph>, lh: real, bo: real) {
    && |out.verts| == 8 * |placed|
    && |out.uvs| == 8 * |placed|
    && |out.indices| == 6 * |placed|
    && forall k {:trigger QuadAt(out, k, placed[k], lh, bo)} :: 0 <= k < |placed| ==> QuadAt(out, k, placed[k], lh, bo)
  }

  // ---------------------------------------------------------------------
  // Closed form of the pen

  /** Kerning with the previous placed glyph plus letter spacing; nothing
      for the first glyph of a line. */
  function Spacing(g: Generator, ls: real, before: seq<Char>, c: Char): real {
    if |before| == 0 then 0.0
    else KerningAmount(g.kernings, before[|before| - 1].id, c.id) + ls
  }

  /** Total horizontal extent of consecutive glyphs: each advance, and the
      spacing before every glyph but the first. */
  function Advance(g: Generator, ls: real, glyphs: seq<Char>): real
    decreases |glyphs|
  {
    if |glyphs| == 0 then 0.0
    else
      var init := glyphs[..|glyphs| - 1];
      var c := glyphs[|glyphs| - 1];
      Advance(g, ls, init) + Spacing(g, ls, init, c) + c.xAdvance
  }

  /** `r` added up `n` times. */
  function Times(n: nat, r: real): real {
    if n == 0 then 0.0 else Times(n - 1, r) + r
  }

  /** Width added by the tabs of `s`. */
  function TabPart(st: LineSettings, s: Text): real {
    Times(Count(s, TAB), st.tw)
  }

  /** Width added by justification before the spaces of `s`. */
  function FillPart(st: LineSettings, s: Text): real {
    if st.align == Justify then Times(CountSpaces(s), st.fill) else 0.0
  }

  /** The pen after the prefix `s` of a line started at `x0`. */
  function PenAt(g: Generator, st: LineSettings, x0: real, s: Text): real {
    x0 + Advance(g, st.ls, Glyphs(g, s)) + TabPart(st, s) + FillPart(st, s)
  }

  /** The pen where the glyph at position j is drawn (before its x offset):
      after the prefix, after a justification share if it is a space, and
      after kerning and letter spacing if a glyph precedes it. */
  function GlyphX(g: Generator, st: LineSettings, x0: real, line: Text, j: nat): real
    requires j < |line| && Placeable(g, line[j])
  {
    PenAt(g, st, x0, line[..j])
      + (if st.align == Justify && IsSpace(line[j]) then st.fill else 0.0)
      + Spacing(g, st.ls, Glyphs(g, line[..j]), g.chars[line[j]])
  }

  /** How many glyphs the line places before position j: the glyph at j,
      if any, owns the quad with that number on the line. */
  function Slot(g: Generator, line: Text, j: nat): nat
    requires j <= |line|
  {
    |Glyphs(g, line[..j])|
  }

  function LastOf(glyphs: seq<Char>): Option<Char> {
    if |glyphs| == 0 then None else Some(glyphs[|glyphs| - 1])
  }

  /** Every placed glyph of `line` before position `i` has its left edge,
      at GlyphX plus its x offset, in the vertex array. */
  ghost predicate LeftEdges(g: Generator, st: LineSettings, x0: real, line: Text, i: nat,
                            m: nat, verts: seq<real>)
    requires i <= |line|
  {
    forall j {:trigger Slot(g, line, j)} :: 0 <= j < i && Placeable(g, line[j]) ==>
      && 8 * (m + Slot(g, line, j)) < |verts|
      && verts[8 * (m + Slot(g, line, j))] == GlyphX(g, st, x0, line, j) + g.chars[line[j]].xOffset
  }

  /** The state of the walk over `line` after `i` code units, when the
      lines before it placed `placed` and left vertex array `base`. */
  ghost predicate WalkedTo(g: Generator, st: LineSettings, x0: real, line: Text, i: nat,
                           placed: seq<PlacedGlyph>, base: seq<real>, pen: Pen)
    requires i <= |line|
  {
    var glyphs := Glyphs(g, line[..i]);
    var m := |placed|;
    && pen.x == PenAt(g, st, x0, line[..i])
    && pen.prev == LastOf(glyphs)
    && pen.pointer == 4 * (m + |glyphs|)
    && Emits(pen.out, placed + Tag(glyphs, st.lineNo), st.lh, g.baselineOffset)
    && |base| == 8 * m
    && pen.out.verts[..8 * m] == base
    && LeftEdges(g, st, x0, line, i, m, pen.out.verts)
  }

  // ---------------------------------------------------------------------
  // One step

  lemma GlyphsStep(g: Generator, line: Text, i: nat)
    requires i < |line|
    ensures Glyphs(g, line[..i + 1])
            == Glyphs(g, line[..i]) + (if Placeable(g, line[i]) then [g.chars[line[i]]] else [])
  {
    assert line[..i + 1][..i] == line[..i];
  }

  lemma CountStep(s: Text, i: nat, c: int)
    requires i < |s|
    ensures Count(s[..i + 1], c) == Count(s[..i], c) + (if s[i] == c then 1 else 0)
  {
    assert s[..i + 1][..i] == s[..i];
  }

  lemma AdvanceStep(g: Generator, ls: real, glyphs: seq<Char>, c: Char)
    ensures Advance(g, ls, glyphs + [c]) == Advance(g, ls, glyphs) + Spacing(g, ls, glyphs, c) + c.xAdvance
  {
    assert (glyphs + [c])[..|glyphs|] == glyphs;
  }

  lemma TabPartStep(st: LineSettings, line: Text, i: nat)
    requires i < |line|
    ensures TabPart(st, line[..i + 1]) == TabPart(st, line[..i]) + (if line[i] == TAB then st.tw else 0.0)
  {
    CountStep(line, i, TAB);
  }

  lemma CountSpacesStep(line: Text, i: nat)
    requires i < |line|
    ensures CountSpaces(line[..i + 1]) == CountSpaces(line[..i]) + (if IsSpace(line[i]) then 1 else 0)
  {
    CountStep(line, i, SPACE);
    CountStep(line, i, NO_BREAK_SPACE);
  }

  lemma FillPartStep(st: LineSettings, line: Text, i: nat)
    requires i < |line|
    ensures FillPart(st, line[..i + 1])
            == FillPart(st, line[..i]) + (if st.align == Justify && IsSpace(line[i]) then st.fill else 0.0)
  {
    CountSpacesStep(line, i);
  }

  lemma AdvancePartStep(g: Generator, ls: real, line: Text, i: nat)
    requires i < |line|
    ensures Advance(g, ls, Glyphs(g, line[..i + 1]))
            == Advance(g, ls, Glyphs(g, line[..i]))
               + (if Placeable(g, line[i])
                  then Spacing(g, ls, Glyphs(g, line[..i]), g.chars[line[i]]) + g.chars[line[i]].xAdvance
                  else 0.0)
  {
    GlyphsStep(g, line, i);
    if Placeable(g, line[i]) {
      AdvanceStep(g, ls, Glyphs(g, line[..i]), g.chars[line[i]]);
    } else {
      assert Glyphs(g, line[..i + 1]) == Glyphs(g, line[..i]);
    }
  }

  /** Closed-form pen, one code unit further. */
  lemma PenAtStep(g: Generator, st: LineSettings, x0: real, line: Text, i: nat)
    requires i < |line|
    ensures PenAt(g, st, x0, line[..i + 1])
            == PenAt(g, st, x0, line[..i])
               + (if line[i] == TAB then st.tw else 0.0)
               + (if st.align == Justify && IsSpace(line[i]) then st.fill else 0.0)
               + (if Placeable(g, line[i])
                  then Spacing(g, st.ls, Glyphs(g, line[..i]), g.chars[line[i]]) + g.chars[line[i]].xAdvance
                  else 0.0)
  {
    TabPartStep(st, line, i);
    FillPartStep(st, line, i);
    AdvancePartStep(g, st.ls, line, i);
  }

  lemma SliceOfAppend<T>(a: seq<T>, b: seq<T>, i: nat, j: nat)
    requires i <= j <= |a|
    ensures (a + b)[i..j] == a[i..j]
  {
  }

  /** Appending the quad of one more glyph keeps the arrays in step with
      the placed glyphs. */
  lemma EmitsAppend(out: Geometry, placed: seq<PlacedGlyph>, pg: PlacedGlyph, lh: real, bo: real,
                    v: seq<real>, u: seq<real>, ix: seq<int>)
    requires Emits(out, placed, lh, bo)
    requires |v| == 8 && QuadShape(v, pg.glyph, QuadTop(pg, lh, bo))
    requires u == UvQuad(pg.glyph.uvs) && ix == IndexQuad(|placed|)
    ensures Emits(Geometry(out.verts + v, out.uvs + u, out.indices + ix), placed + [pg], lh, bo)
  {
    var out' := Geometry(out.verts + v, out.uvs + u, out.indices + ix);
    var placed' := placed + [pg];
    var m := |placed|;
    forall k | 0 <= k < |placed'|
      ensures QuadAt(out', k, placed'[k], lh, bo)
    {
      if k < m {
        assert QuadAt(out, k, placed[k], lh, bo);
        SliceOfAppend(out.verts, v, 8 * k, 8 * k + 8);
        SliceOfAppend(out.uvs, u, 8 * k, 8 * k + 8);
        SliceOfAppend(out.indices, ix, 6 * k, 6 * k + 6);
      } else {
        assert out'.verts[8 * m .. 8 * m + 8] == v;
        assert out'.uvs[8 * m .. 8 * m + 8] == u;
        assert out'.indices[6 * m .. 6 * m + 6] == ix;
      }
    }
  }

  /** What placing one glyph does to the pen and the arrays. */
  lemma PlaceGlyphSpec(g: Generator, st: LineSettings, pen: Pen, c: Char)
    ensures var r := PlaceGlyph(g, st, pen, c);
            var n := |pen.out.verts|;
            var xk := pen.x + (if pen.prev.Some? then KerningAmount(g.kernings, pen.prev.value.id, c.id) + st.ls else 0.0);
            && r.x == xk + c.xAdvance
            && r.prev == Some(c)
            && r.pointer == pen.pointer + 4
            && |r.out.verts| == n + 8
            && r.out.verts == pen.out.verts + r.out.verts[n..]
            && r.out.verts[n] == xk + c.xOffset
            && QuadShape(r.out.verts[n..], c, QuadTop(PlacedGlyph(c, st.lineNo), st.lh, g.baselineOffset))
            && r.out.uvs == pen.out.uvs + UvQuad(c.uvs)
            && r.out.indices == pen.out.indices + [pen.pointer, pen.pointer + 2, pen.pointer + 1,
                                                   pen.pointer + 1, pen.pointer + 2, pen.pointer + 3]
  {
    var r := PlaceGlyph(g, st, pen, c);
    var n := |pen.out.verts|;
    assert r.out.verts[n..] == r.out.verts[n..n + 8];
  }

  /** A placed glyph appends its quad behind the existing ones; anything else
      leaves the arrays alone. */
  lemma StepEmits(g: Generator, st: LineSettings, pen: Pen, code: int, placed: seq<PlacedGlyph>)
    requires Emits(pen.out, placed, st.lh, g.baselineOffset)
    requires pen.pointer == 4 * |placed|
    ensures var r := Step(g, st, pen, code);
            if Placeable(g, code) then
              && Emits(r.out, placed + [PlacedGlyph(g.chars[code], st.lineNo)], st.lh, g.baselineOffset)
              && r.pointer == 4 * (|placed| + 1)
              && r.out.verts[..|pen.out.verts|] == pen.out.verts
            else r.out == pen.out && r.pointer == pen.pointer
  {
    if Placeable(g, code) {
      var x := if st.align == Justify && IsSpace(code) then pen.x + st.fill else pen.x;
      StepPlaces(g, st, pen, code);
      PlaceGlyphEmits(g, st, pen.(x := x), g.chars[code], placed);
    }
  }

  /** A placeable code is placed after the justification share. */
  lemma StepPlaces(g: Generator, st: LineSettings, pen: Pen, code: int)
    requires Placeable(g, code)
    ensures Step(g, st, pen, code)
            == PlaceGlyph(g, st, pen.(x := if st.align == Justify && IsSpace(code) then pen.x + st.fill else pen.x),
                          g.chars[code])
  {
  }

  lemma PlaceGlyphEmits(g: Generator, st: LineSettings, pen: Pen, c: Char, placed: seq<PlacedGlyph>)
    requires Emits(pen.out, placed, st.lh, g.baselineOffset)
    requires pen.pointer == 4 * |placed|
    ensures var r := PlaceGlyph(g, st, pen, c);
            && Emits(r.out, placed + [PlacedGlyph(c, st.lineNo)], st.lh, g.baselineOffset)
            && r.pointer == 4 * (|placed| + 1)
            && r.out.verts[..|pen.out.verts|] == pen.out.verts
  {
    var r := PlaceGlyph(g, st, pen, c);
    var n := |pen.out.verts|;
    var p := pen.pointer;
    PlaceGlyphSpec(g, st, pen, c);
    assert IndexQuad(|placed|) == [p, p + 2, p + 1, p + 1, p + 2, p + 3];
    var v := r.out.verts[n..];
    assert r.out == Geometry(pen.out.verts + v, pen.out.uvs + UvQuad(c.uvs), pen.out.indices + IndexQuad(|placed|));
    EmitsAppend(pen.out, placed, PlacedGlyph(c, st.lineNo), st.lh, g.baselineOffset,
                v, UvQuad(c.uvs), IndexQuad(|placed|));
  }

  /** The walk invariant survives one code unit. */
  lemma WalkStep(g: Generator, st: LineSettings, x0: real, line: Text, i: nat,
                 placed: seq<PlacedGlyph>, base: seq<real>, pen: Pen)
    requires i < |line|
    requires WalkedTo(g, st, x0, line, i, placed, base, pen)
    ensures WalkedTo(g, st, x0, line, i + 1, placed, base, Step(g, st, pen, line[i]))
  {
    if Placeable(g, line[i]) {
      WalkStepGlyph(g, st, x0, line, i, placed, base, pen);
    } else {
      WalkStepOther(g, st, x0, line, i, placed, base, pen);
    }
  }

  lemma WalkStepOther(g: Generator, st: LineSettings, x0: real, line: Text, i: nat,
                      placed: seq<PlacedGlyph>, base: seq<real>, pen: Pen)
    requires i < |line| && !Placeable(g, line[i])
    requires WalkedTo(g, st, x0, line, i, placed, base, pen)
    ensures WalkedTo(g, st, x0, line, i + 1, placed, base, Step(g, st, pen, line[i]))
  {
    var r := Step(g, st, pen, line[i]);
    GlyphsStep(g, line, i);
    assert Glyphs(g, line[..i + 1]) == Glyphs(g, line[..i]);
    PenAtStep(g, st, x0, line, i);
    assert r.out == pen.out && r.pointer == pen.pointer && r.prev == pen.prev;
    assert LeftEdges(g, st, x0, line, i + 1, |placed|, r.out.verts) by {
      assert LeftEdges(g, st, x0, line, i, |placed|, pen.out.verts);
    }
  }

  lemma WalkStepGlyph(g: Generator, st: LineSettings, x0: real, line: Text, i: nat,
                      placed: seq<PlacedGlyph>, base: seq<real>, pen: Pen)
    requires i < |line| && Placeable(g, line[i])
    requires WalkedTo(g, st, x0, line, i, placed, base, pen)
    ensures WalkedTo(g, st, x0, line, i + 1, placed, base, Step(g, st, pen, line[i]))
  {
    var r := Step(g, st, pen, line[i]);
    var m := |placed|;
    WalkGlyphEmits(g, st, line, i, placed, pen);
    StepPlaces(g, st, pen, line[i]);
    WalkGlyphEdges(g, st, x0, line, i, m, pen, r);
    assert r.out.verts[..8 * m] == pen.out.verts[..8 * m] by {
      assert r.out.verts[..|pen.out.verts|] == pen.out.verts;
    }
  }

  /** A placed glyph's quad joins those of the glyphs before it. */
  lemma WalkGlyphEmits(g: Generator, st: LineSettings, line: Text, i: nat, placed: seq<PlacedGlyph>, pen: Pen)
    requires i < |line| && Placeable(g, line[i])
    requires pen.pointer == 4 * (|placed| + |Glyphs(g, line[..i])|)
    requires Emits(pen.out, placed + Tag(Glyphs(g, line[..i]), st.lineNo), st.lh, g.baselineOffset)
    ensures var r := Step(g, st, pen, line[i]);
            && r.pointer == 4 * (|placed| + |Glyphs(g, line[..i + 1])|)
            && Emits(r.out, placed + Tag(Glyphs(g, line[..i + 1]), st.lineNo), st.lh, g.baselineOffset)
            && r.out.verts[..|pen.out.verts|] == pen.out.verts
  {
    var code := line[i];
    var c := g.chars[code];
    var glyphs := Glyphs(g, line[..i]);
    var before := placed + Tag(glyphs, st.lineNo);
    GlyphsStep(g, line, i);
    assert Glyphs(g, line[..i + 1]) == glyphs + [c];
    var x := if st.align == Justify && IsSpace(code) then pen.x + st.fill else pen.x;
    StepPlaces(g, st, pen, code);
    PlaceGlyphEmits(g, st, pen.(x := x), c, before);
    assert Tag(glyphs + [c], st.lineNo) == Tag(glyphs, st.lineNo) + [PlacedGlyph(c, st.lineNo)];
    assert placed + Tag(glyphs + [c], st.lineNo) == before + [PlacedGlyph(c, st.lineNo)];
  }

  /** A placed glyph is drawn at GlyphX, the pen moves on to PenAt, and the
      glyph becomes the previous one. */
  lemma WalkGlyphEdges(g: Generator, st: LineSettings, x0: real, line: Text, i: nat, m: nat, pen: Pen, r: Pen)
    requires i < |line| && Placeable(g, line[i])
    requires pen.x == PenAt(g, st, x0, line[..i])
    requires pen.prev == LastOf(Glyphs(g, line[..i]))
    requires |pen.out.verts| == 8 * (m + |Glyphs(g, line[..i])|)
    requires LeftEdges(g, st, x0, line, i, m, pen.out.verts)
    requires r == PlaceGlyph(g, st, pen.(x := if st.align == Justify && IsSpace(line[i]) then pen.x + st.fill else pen.x),
                             g.chars[line[i]])
    ensures r.x == PenAt(g, st, x0, line[..i + 1])
    ensures r.prev == LastOf(Glyphs(g, line[..i + 1]))
    ensures LeftEdges(g, st, x0, line, i + 1, m, r.out.verts)
  {
    var code := line[i];
    var c := g.chars[code];
    var x := if st.align == Justify && IsSpace(code) then pen.x + st.fill else pen.x;
    GlyphsStep(g, line, i);
    WalkStepPen(g, st, x0, line, i, pen);
    PlaceGlyphSpec(g, st, pen.(x := x), c);
    LeftEdgesGrow(g, st, x0, line, i, m, pen.out.verts, r.out.verts);
  }

  /** The pen of a placed glyph: drawn at GlyphX, then left at PenAt of the
      longer prefix. */
  lemma WalkStepPen(g: Generator, st: LineSettings, x0: real, line: Text, i: nat, pen: Pen)
    requires i < |line| && Placeable(g, line[i])
    requires pen.x == PenAt(g, st, x0, line[..i])
    requires pen.prev == LastOf(Glyphs(g, line[..i]))
    ensures var code := line[i];
            var c := g.chars[code];
            var x := if st.align == Justify && IsSpace(code) then pen.x + st.fill else pen.x;
            var r := PlaceGlyph(g, st, pen.(x := x), c);
            && r.out.verts[|pen.out.verts|] == GlyphX(g, st, x0, line, i) + c.xOffset
            && r.x == PenAt(g, st, x0, line[..i + 1])
  {
    var code := line[i];
    var c := g.chars[code];
    var x := if st.align == Justify && IsSpace(code) then pen.x + st.fill else pen.x;
    PenAtStep(g, st, x0, line, i);
    PlaceGlyphSpec(g, st, pen.(x := x), c);
  }

  lemma LeftEdgesGrow(g: Generator, st: LineSettings, x0: real, line: Text, i: nat, m: nat,
                      verts: seq<real>, verts': seq<real>)
    requires i < |line| && Placeable(g, line[i])
    requires LeftEdges(g, st, x0, line, i, m, verts)
    requires |verts| == 8 * (m + |Glyphs(g, line[..i])|)
    requires |verts'| > |verts| && verts'[..|verts|] == verts
    requires verts'[|verts|] == GlyphX(g, st, x0, line, i) + g.chars[line[i]].xOffset
    ensures LeftEdges(g, st, x0, line, i + 1, m, verts')
  {
    forall j | 0 <= j < i + 1 && Placeable(g, line[j])
      ensures 8 * (m + Slot(g, line, j)) < |verts'|
      ensures verts'[8 * (m + Slot(g, line, j))] == GlyphX(g, st, x0, line, j) + g.chars[line[j]].xOffset
    {
      if j < i {
        var q := 8 * (m + Slot(g, line, j));
        assert verts'[q] == verts'[..|verts|][q];
      }
    }
  }

  lemma {:induction false} WalkLine(g: Generator, st: LineSettings, x0: real, line: Text, i: nat,
                                    placed: seq<PlacedGlyph>, base: seq<real>, pen: Pen)
    requires i <= |line|
    requires WalkedTo(g, st, x0, line, i, placed, base, pen)
    ensures WalkedTo(g, st, x0, line, |line|, placed, base, PlaceChars(g, st, pen, line, i))
    decreases |line| - i
  {
    if i < |line| {
      WalkStep(g, st, x0, line, i, placed, base, pen);
      WalkLine(g, st, x0, line, i + 1, placed, base, Step(g, st, pen, line[i]));
    }
  }

  /** A whole line, from a fresh pen: the line's glyphs get consecutive
      quads behind those of the earlier lines, which stay as they were;
      each glyph is drawn at GlyphX plus its x offset; and the pen ends at
      PenAt of the whole line. */
  lemma PlaceLineSpec(g: Generator, s: Settings, measure: Text -> real, line: Text, lineNo: nat,
                      out: Geometry, placed: seq<PlacedGlyph>)
    requires Emits(out, placed, s.lh, g.baselineOffset)
    ensures WalkedTo(g, LineSettingsFor(s, measure, line, lineNo), LineStart(s, measure, line),
                     line, |line|, placed, out.verts,
                     PlaceLine(g, s, measure, line, lineNo, out, 4 * |placed|))
  {
    var st := LineSettingsFor(s, measure, line, lineNo);
    var x0 := LineStart(s, measure, line);
    var pen := Pen(x0, None, 4 * |placed|, out);
    assert line[..0] == [];
    assert Tag([], lineNo) == [];
    assert placed + [] == placed;
    assert WalkedTo(g, st, x0, line, 0, placed, out.verts, pen);
    WalkLine(g, st, x0, line, 0, placed, out.verts, pen);
    assert line[..|line|] == line;
  }

  // ---------------------------------------------------------------------
  // Whole layouts

  /** The lines one after the other: each line's glyphs get consecutive
      quads, tagged with the line's number. */
  lemma {:induction false} LayoutLinesSpec(g: Generator, s: Settings, measure: Text -> real,
                                           lines: seq<Text>, lineNo: nat,
                                           out: Geometry, placed: seq<PlacedGlyph>)
    requires Emits(out, placed, s.lh, g.baselineOffset)
    ensures var b := LayoutLines(g, s, measure, lines, lineNo, out, 4 * |placed|);
            && Emits(b.out, placed + LinesPlaced(g, lines, lineNo), s.lh, g.baselineOffset)
            && b.pointer == 4 * (|placed| + |LinesPlaced(g, lines, lineNo)|)
    decreases |lines|
  {
    if |lines| > 0 {
      var line := lines[0];
      var pen := PlaceLine(g, s, measure, line, lineNo, out, 4 * |placed|);
      PlaceLineEmits(g, s, measure, line, lineNo, out, placed);
      var placed' := placed + Tag(Glyphs(g, line), lineNo);
      assert |placed'| == |placed| + |Glyphs(g, line)|;
      LayoutLinesSpec(g, s, measure, lines[1..], lineNo + 1, pen.out, placed');
      assert LayoutLines(g, s, measure, lines, lineNo, out, 4 * |placed|)
             == LayoutLines(g, s, measure, lines[1..], lineNo + 1, pen.out, pen.pointer);
      assert LinesPlaced(g, lines, lineNo) == Tag(Glyphs(g, line), lineNo) + LinesPlaced(g, lines[1..], lineNo + 1);
      assert placed' + LinesPlaced(g, lines[1..], lineNo + 1) == placed + LinesPlaced(g, lines, lineNo);
    }
  }

  /** A whole line appends the quads of its glyphs (a part of PlaceLineSpec). */
  lemma PlaceLineEmits(g: Generator, s: Settings, measure: Text -> real, line: Text, lineNo: nat,
                       out: Geometry, placed: seq<PlacedGlyph>)
    requires Emits(out, placed, s.lh, g.baselineOffset)
    ensures var pen := PlaceLine(g, s, measure, line, lineNo, out, 4 * |placed|);
            && Emits(pen.out, placed + Tag(Glyphs(g, line), lineNo), s.lh, g.baselineOffset)
            && pen.pointer == 4 * (|placed| + |Glyphs(g, line)|)
  {
    PlaceLineSpec(g, s, measure, line, lineNo, out, placed);
    assert line[..|line|] == line;
  }

  /** Line i's glyphs, tagged with line number lineNo + i, come right after
      those of the lines before it. */
  lemma {:induction false} LinesPlacedAt(g: Generator, lines: seq<Text>, lineNo: nat, i: nat)
    requires i < |lines|
    ensures LinesPlaced(g, lines, lineNo)
            == LinesPlaced(g, lines[..i], lineNo) + Tag(Glyphs(g, lines[i]), lineNo + i)
               + LinesPlaced(g, lines[i + 1..], lineNo + i + 1)
    decreases i
  {
    if i > 0 {
      var tail := lines[1..];
      var head := Tag(Glyphs(g, lines[0]), lineNo);
      var mid := Tag(Glyphs(g, lines[i]), lineNo + i);
      var after := LinesPlaced(g, lines[i + 1..], lineNo + i + 1);
      assert tail[..i - 1] == lines[..i][1..];
      assert tail[i - 1] == lines[i];
      assert tail[i..] == lines[i + 1..];
      LinesPlacedAt(g, tail, lineNo + 1, i - 1);
      var before := LinesPlaced(g, tail[..i - 1], lineNo + 1);
      assert LinesPlaced(g, tail, lineNo + 1) == before + mid + after;
      assert lines[..i][0] == lines[0];
      assert LinesPlaced(g, lines[..i], lineNo) == head + before;
      assert LinesPlaced(g, lines, lineNo) == head + LinesPlaced(g, tail, lineNo + 1);
      assert head + (before + mid + after) == (head + before) + mid + after;
    } else {
      assert lines[..0] == [];
      assert LinesPlaced(g, lines[..0], lineNo) == [];
      assert lines[1..] == lines[i + 1..];
    }
  }

  /** The output of a layout: one quad per placed glyph of the (wrapped)
      text, line by line, each quad shaped after its glyph, with the glyph's
      UV rectangle and the two triangles of the quad; the top edge of a
      glyph on line i lies i line heights below that of line 0. */
  lemma LayoutEmits(g: Generator, p: LayoutProps, measure: Text -> real)
    requires p.noWrap || WordWrapper.Finishes(g.wrapper.breakPoints, p.width, p.text)
    ensures Emits(Layout(g, p, measure), LinesPlaced(g, Split(LayoutText(g, p), NEWLINE), 0),
                  Resolve(g, p).lh, g.baselineOffset)
  {
    var empty := Geometry([], [], []);
    assert Emits(empty, [], Resolve(g, p).lh, g.baselineOffset);
    LayoutLinesSpec(g, Resolve(g, p), measure, Split(LayoutText(g, p), NEWLINE), 0, empty, []);
    assert [] + LinesPlaced(g, Split(LayoutText(g, p), NEWLINE), 0)
           == LinesPlaced(g, Split(LayoutText(g, p), NEWLINE), 0);
  }

  lemma {:induction false} GlyphsAppend(g: Generator, a: Text, b: Text)
    ensures Glyphs(g, a + b) == Glyphs(g, a) + Glyphs(g, b)
    decreases |b|
  {
    if |b| == 0 {
      assert a + b == a;
    } else {
      assert (a + b)[..|a + b| - 1] == a + b[..|b| - 1];
      GlyphsAppend(g, a, b[..|b| - 1]);
    }
  }

  /** Splitting at newlines loses no glyph and adds none: the lines place
      as many glyphs as the text holds placeable codes other than newline. */
  lemma {:induction false} LinesPlacedCount(g: Generator, t: Text, lineNo: nat)
    ensures |LinesPlaced(g, Split(t, NEWLINE), lineNo)| == PlacedCount(g, t)
    decreases |t|
  {
    if |t| > 0 {
      var u := Split(t[1..], NEWLINE);
      if t[0] == NEWLINE {
        LinesPlacedCount(g, t[1..], lineNo + 1);
        assert Split(t, NEWLINE) == [[]] + u;
        assert ([[]] + u)[1..] == u;
      } else {
        LinesPlacedCount(g, t[1..], lineNo);
        var first := [t[0]] + u[0];
        assert Split(t, NEWLINE) == [first] + u[1..];
        assert ([first] + u[1..])[1..] == u[1..];
        GlyphsAppend(g, [t[0]], u[0]);
        assert Glyphs(g, [t[0]]) == if Placeable(g, t[0]) then [g.chars[t[0]]] else [] by {
          assert [t[0]][..0] == [];
        }
      }
    }
  }

  /** Array sizes: 8 vertex and 8 UV coordinates and 6 indices per placed
      glyph of the text that is laid out. */
  lemma LayoutCardinality(g: Generator, p: LayoutProps, measure: Text -> real)
    requires p.noWrap || WordWrapper.Finishes(g.wrapper.breakPoints, p.width, p.text)
    ensures var out := Layout(g, p, measure);
            var n := PlacedCount(g, LayoutText(g, p));
            |out.verts| == 8 * n && |out.uvs| == 8 * n && |out.indices| == 6 * n
  {
    LayoutEmits(g, p, measure);
    LinesPlacedCount(g, LayoutText(g, p), 0);
  }

  /** Every index names a vertex that exists, and quad k uses exactly the
      vertices 4k .. 4k+3 in the pattern of its two triangles. */
  lemma IndicesInRange(out: Geometry, placed: seq<PlacedGlyph>, lh: real, bo: real)
    requires Emits(out, placed, lh, bo)
    ensures forall i :: 0 <= i < |out.indices| ==> 0 <= out.indices[i] && 2 * out.indices[i] < |out.verts|
    ensures forall k :: 0 <= k < |placed| ==> out.indices[6 * k .. 6 * k + 6] == IndexQuad(k)
  {
    forall i | 0 <= i < |out.indices|
      ensures 0 <= out.indices[i] && 2 * out.indices[i] < |out.verts|
    {
      var k := i / 6;
      assert QuadAt(out, k, placed[k], lh, bo);
      assert out.indices[i] == out.indices[6 * k .. 6 * k + 6][i - 6 * k];
    }
    forall k | 0 <= k < |placed|
      ensures out.indices[6 * k .. 6 * k + 6] == IndexQuad(k)
    {
      assert QuadAt(out, k, placed[k], lh, bo);
    }
  }

  /** With wrapping off, the lines are the text's own newline-separated
      pieces and the quads count the text's placeable codes. */
  lemma NoWrapLines(g: Generator, p: LayoutProps, measure: Text -> real)
    requires p.noWrap
    ensures |Split(LayoutText(g, p), NEWLINE)| == Count(p.text, NEWLINE) + 1
    ensures Join(Split(LayoutText(g, p), NEWLINE), NEWLINE) == p.text
    ensures |Layout(g, p, measure).verts| == 8 * PlacedCount(g, p.text)
  {
    JoinSplit(p.text, NEWLINE);
    LayoutCardinality(g, p, measure);
  }

  // ---------------------------------------------------------------------
  // Alignment

  /** Where the quads of a line land: the k-th placed glyph of the line
      (the one at position j) has its left edge at GlyphX plus its x offset,
      and the pen ends at PenAt of the whole line. */
  lemma PlaceLinePositions(g: Generator, s: Settings, measure: Text -> real, line: Text, lineNo: nat,
                           out: Geometry, placed: seq<PlacedGlyph>)
    requires Emits(out, placed, s.lh, g.baselineOffset)
    ensures var pen := PlaceLine(g, s, measure, line, lineNo, out, 4 * |placed|);
            var st := LineSettingsFor(s, measure, line, lineNo);
            var x0 := LineStart(s, measure, line);
            && pen.x == PenAt(g, st, x0, line)
            && |pen.out.verts| == 8 * (|placed| + |Glyphs(g, line)|)
            && forall j {:trigger Slot(g, line, j)} :: 0 <= j < |line| && Placeable(g, line[j]) ==>
                 && 8 * (|placed| + Slot(g, line, j)) < |pen.out.verts|
                 && pen.out.verts[8 * (|placed| + Slot(g, line, j))]
                    == GlyphX(g, st, x0, line, j) + g.chars[line[j]].xOffset
  {
    PlaceLinePen(g, s, measure, line, lineNo, out, placed);
    PlaceLineEdges(g, s, measure, line, lineNo, out, placed);
  }

  /** Where the pen of a whole line ends, and how many vertices it adds. */
  lemma PlaceLinePen(g: Generator, s: Settings, measure: Text -> real, line: Text, lineNo: nat,
                     out: Geometry, placed: seq<PlacedGlyph>)
    requires Emits(out, placed, s.lh, g.baselineOffset)
    ensures var pen := PlaceLine(g, s, measure, line, lineNo, out, 4 * |placed|);
            && pen.x == PenAt(g, LineSettingsFor(s, measure, line, lineNo), LineStart(s, measure, line), line)
            && |pen.out.verts| == 8 * (|placed| + |Glyphs(g, line)|)
  {
    var pen := PlaceLine(g, s, measure, line, lineNo, out, 4 * |placed|);
    PlaceLineSpec(g, s, measure, line, lineNo, out, placed);
    assert line[..|line|] == line;
    assert |placed + Tag(Glyphs(g, line), lineNo)| == |placed| + |Glyphs(g, line)|;
  }

  /** Right alignment moves a left-aligned line, every glyph and the final
      pen, right by the unused width `width - measure(line)`; when the
      measurement agrees with the placed advance, the line ends at `width`. */
  lemma RightAlignShift(g: Generator, s: Settings, measure: Text -> real, line: Text, lineNo: nat,
                        out: Geometry, placed: seq<PlacedGlyph>)
    requires Emits(out, placed, s.lh, g.baselineOffset)
    requires s.align == Left
    ensures var left := PlaceLine(g, s, measure, line, lineNo, out, 4 * |placed|);
            var right := PlaceLine(g, s.(align := Right), measure, line, lineNo, out, 4 * |placed|);
            var shift := s.width - measure(line);
            && |right.out.verts| == |left.out.verts|
            && right.x == left.x + shift
            && (measure(line) == left.x ==> right.x == s.width)
            && forall j {:trigger Slot(g, line, j)} :: 0 <= j < |line| && Placeable(g, line[j]) ==>
                 && 8 * (|placed| + Slot(g, line, j)) < |left.out.verts| == |right.out.verts|
                 && right.out.verts[8 * (|placed| + Slot(g, line, j))]
                    == left.out.verts[8 * (|placed| + Slot(g, line, j))] + shift
  {
    var sr := s.(align := Right);
    var st := LineSettingsFor(s, measure, line, lineNo);
    var str := LineSettingsFor(sr, measure, line, lineNo);
    var shift := s.width - measure(line);
    var left := PlaceLine(g, s, measure, line, lineNo, out, 4 * |placed|);
    var right := PlaceLine(g, sr, measure, line, lineNo, out, 4 * |placed|);
    PlaceLinePositions(g, s, measure, line, lineNo, out, placed);
    PlaceLinePositions(g, sr, measure, line, lineNo, out, placed);
    assert str == st.(align := Right);
    assert left.x == PenAt(g, st, 0.0, line);
    assert right.x == PenAt(g, str, shift, line);
    forall j | 0 <= j < |line| && Placeable(g, line[j])
      ensures right.out.verts[8 * (|placed| + Slot(g, line, j))]
              == left.out.verts[8 * (|placed| + Slot(g, line, j))] + shift
    {
      assert GlyphX(g, str, shift, line, j) == GlyphX(g, st, 0.0, line, j) + shift;
    }
  }

  lemma {:induction false} TimesMul(n: nat, r: real)
    ensures Times(n, r) == (n as real) * r
  {
    if n > 0 {
      TimesMul(n - 1, r);
    }
  }

  /** n equal shares of a total add up to the total. */
  lemma SharesSum(n: nat, total: real)
    requires n > 0
    ensures Times(n, total / (n as real)) == total
  {
    TimesMul(n, total / (n as real));
  }

  /** Justification moves each glyph of a left-aligned line right by one
      share of the unused width per space or no-break space up to and
      including it, and the shares add up to the unused width
      `width - measure(line)` (nothing moves on a line without spaces). */
  lemma JustifyFill(g: Generator, s: Settings, measure: Text -> real, line: Text, lineNo: nat,
                    out: Geometry, placed: seq<PlacedGlyph>)
    requires Emits(out, placed, s.lh, g.baselineOffset)
    requires s.align == Left
    ensures var left := PlaceLine(g, s, measure, line, lineNo, out, 4 * |placed|);
            var just := PlaceLine(g, s.(align := Justify), measure, line, lineNo, out, 4 * |placed|);
            var fill := LineFill(s, measure, line);
            && |just.out.verts| == |left.out.verts|
            && just.x == left.x + (if CountSpaces(line) > 0 then s.width - measure(line) else 0.0)
            && forall j {:trigger Slot(g, line, j)} :: 0 <= j < |line| && Placeable(g, line[j]) ==>
                 && 8 * (|placed| + Slot(g, line, j)) < |left.out.verts| == |just.out.verts|
                 && just.out.verts[8 * (|placed| + Slot(g, line, j))]
                    == left.out.verts[8 * (|placed| + Slot(g, line, j))]
                       + Times(CountSpaces(line[..j + 1]), fill)
  {
    JustifyPen(g, s, measure, line, lineNo, out, placed);
    JustifyLine(g, s, measure, line, lineNo, out, placed);
  }

  lemma JustifyPen(g: Generator, s: Settings, measure: Text -> real, line: Text, lineNo: nat,
                   out: Geometry, placed: seq<PlacedGlyph>)
    requires Emits(out, placed, s.lh, g.baselineOffset)
    requires s.align == Left
    ensures var left := PlaceLine(g, s, measure, line, lineNo, out, 4 * |placed|);
            var just := PlaceLine(g, s.(align := Justify), measure, line, lineNo, out, 4 * |placed|);
            && |just.out.verts| == |left.out.verts|
            && just.x == left.x + (if CountSpaces(line) > 0 then s.width - measure(line) else 0.0)
  {
    var st := LineSettingsFor(s, measure, line, lineNo);
    PlaceLineSpec(g, s, measure, line, lineNo, out, placed);
    PlaceLineSpec(g, s.(align := Justify), measure, line, lineNo, out, placed);
    assert line[..|line|] == line;
    PenAtJustify(g, st, 0.0, line);
    FillTotal(s, measure, line);
  }

  lemma JustifyLine(g: Generator, s: Settings, measure: Text -> real, line: Text, lineNo: nat,
                    out: Geometry, placed: seq<PlacedGlyph>)
    requires Emits(out, placed, s.lh, g.baselineOffset)
    requires s.align == Left
    ensures var left := PlaceLine(g, s, measure, line, lineNo, out, 4 * |placed|);
            var just := PlaceLine(g, s.(align := Justify), measure, line, lineNo, out, 4 * |placed|);
            forall j {:trigger Slot(g, line, j)} :: 0 <= j < |line| && Placeable(g, line[j]) ==>
              && 8 * (|placed| + Slot(g, line, j)) < |left.out.verts|
              && 8 * (|placed| + Slot(g, line, j)) < |just.out.verts|
              && just.out.verts[8 * (|placed| + Slot(g, line, j))]
                 == left.out.verts[8 * (|placed| + Slot(g, line, j))]
                    + Times(CountSpaces(line[..j + 1]), LineFill(s, measure, line))
  {
    var st := LineSettingsFor(s, measure, line, lineNo);
    var sj := s.(align := Justify);
    var vl := PlaceLine(g, s, measure, line, lineNo, out, 4 * |placed|).out.verts;
    var vj := PlaceLine(g, sj, measure, line, lineNo, out, 4 * |placed|).out.verts;
    PlaceLineEdges(g, s, measure, line, lineNo, out, placed);
    PlaceLineEdges(g, sj, measure, line, lineNo, out, placed);
    assert LineSettingsFor(sj, measure, line, lineNo) == st.(align := Justify);
    assert LineStart(s, measure, line) == 0.0 && LineStart(sj, measure, line) == 0.0;
    JustifyEdges(g, st, line, |placed|, vl, vj);
  }

  /** The left edges of a whole line (a part of PlaceLineSpec). */
  lemma PlaceLineEdges(g: Generator, s: Settings, measure: Text -> real, line: Text, lineNo: nat,
                       out: Geometry, placed: seq<PlacedGlyph>)
    requires Emits(out, placed, s.lh, g.baselineOffset)
    ensures LeftEdges(g, LineSettingsFor(s, measure, line, lineNo), LineStart(s, measure, line), line, |line|,
                      |placed|, PlaceLine(g, s, measure, line, lineNo, out, 4 * |placed|).out.verts)
  {
    PlaceLineSpec(g, s, measure, line, lineNo, out, placed);
  }

  lemma JustifyEdges(g: Generator, st: LineSettings, line: Text, m: nat, vl: seq<real>, vj: seq<real>)
    requires st.align == Left
    requires LeftEdges(g, st, 0.0, line, |line|, m, vl)
    requires LeftEdges(g, st.(align := Justify), 0.0, line, |line|, m, vj)
    ensures forall j {:trigger Slot(g, line, j)} :: 0 <= j < |line| && Placeable(g, line[j]) ==>
              && 8 * (m + Slot(g, line, j)) < |vl|
              && 8 * (m + Slot(g, line, j)) < |vj|
              && vj[8 * (m + Slot(g, line, j))]
                 == vl[8 * (m + Slot(g, line, j))] + Times(CountSpaces(line[..j + 1]), st.fill)
  {
    forall j | 0 <= j < |line| && Placeable(g, line[j])
      ensures 8 * (m + Slot(g, line, j)) < |vj|
      ensures vj[8 * (m + Slot(g, line, j))]
              == vl[8 * (m + Slot(g, line, j))] + Times(CountSpaces(line[..j + 1]), st.fill)
    {
      var q := 8 * (m + Slot(g, line, j));
      var xo := g.chars[line[j]].xOffset;
      assert q < |vl| && vl[q] == GlyphX(g, st, 0.0, line, j) + xo;
      assert q < |vj| && vj[q] == GlyphX(g, st.(align := Justify), 0.0, line, j) + xo;
      JustifyEdge(g, st, line, j, vl[q], vj[q]);
    }
  }

  /** Justification adds one share per space of the prefix to the pen. */
  lemma PenAtJustify(g: Generator, st: LineSettings, x0: real, s: Text)
    requires st.align == Left
    ensures PenAt(g, st.(align := Justify), x0, s) == PenAt(g, st, x0, s) + Times(CountSpaces(s), st.fill)
  {
  }

  lemma JustifyEdge(g: Generator, st: LineSettings, line: Text, j: nat, vl: real, vj: real)
    requires st.align == Left
    requires j < |line| && Placeable(g, line[j])
    requires vl == GlyphX(g, st, 0.0, line, j) + g.chars[line[j]].xOffset
    requires vj == GlyphX(g, st.(align := Justify), 0.0, line, j) + g.chars[line[j]].xOffset
    ensures vj == vl + Times(CountSpaces(line[..j + 1]), st.fill)
  {
    GlyphXJustify(g, st, 0.0, line, j);
  }

  lemma GlyphXJustify(g: Generator, st: LineSettings, x0: real, line: Text, j: nat)
    requires st.align == Left
    requires j < |line| && Placeable(g, line[j])
    ensures GlyphX(g, st.(align := Justify), x0, line, j)
            == GlyphX(g, st, x0, line, j) + Times(CountSpaces(line[..j + 1]), st.fill)
  {
    PenAtJustify(g, st, x0, line[..j]);
    CountSpacesStep(line, j);
  }

  /** The shares of a line add up to its unused width, or to nothing when
      the line has no space. */
  lemma FillTotal(s: Settings, measure: Text -> real, line: Text)
    ensures Times(CountSpaces(line), LineFill(s, measure, line))
            == if CountSpaces(line) > 0 then s.width - measure(line) else 0.0
  {
    if CountSpaces(line) > 0 {
      SharesSum(CountSpaces(line), s.width - measure(line));
    }
  }

  // ---------------------------------------------------------------------
  // Advance conservation and skipped codes

  /** On a left-aligned line without tabs, each glyph's left edge is the
      sum of the advances, kernings and letter spacings of the glyphs
      before it (plus its own kerning and spacing and x offset), its right
      edge is its width further on, and the pen ends at the total advance. */
  lemma AdvanceConservation(g: Generator, s: Settings, measure: Text -> real, line: Text, lineNo: nat,
                            out: Geometry, placed: seq<PlacedGlyph>)
    requires Emits(out, placed, s.lh, g.baselineOffset)
    requires s.align == Left && TAB !in line
    ensures var pen := PlaceLine(g, s, measure, line, lineNo, out, 4 * |placed|);
            && pen.x == Advance(g, s.ls, Glyphs(g, line))
            && forall j {:trigger Slot(g, line, j)} :: 0 <= j < |line| && Placeable(g, line[j]) ==>
                 var c := g.chars[line[j]];
                 var x1 := Advance(g, s.ls, Glyphs(g, line[..j])) + Spacing(g, s.ls, Glyphs(g, line[..j]), c) + c.xOffset;
                 && 8 * (|placed| + Slot(g, line, j)) + 2 < |pen.out.verts|
                 && pen.out.verts[8 * (|placed| + Slot(g, line, j))] == x1
                 && pen.out.verts[8 * (|placed| + Slot(g, line, j)) + 2] == x1 + c.width
  {
    var pen := PlaceLine(g, s, measure, line, lineNo, out, 4 * |placed|);
    var st := LineSettingsFor(s, measure, line, lineNo);
    PlaceLineSpec(g, s, measure, line, lineNo, out, placed);
    assert line[..|line|] == line;
    NoTabs(st, line, |line|);
    forall j {:trigger Slot(g, line, j)} | 0 <= j < |line| && Placeable(g, line[j])
      ensures var c := g.chars[line[j]];
              var x1 := Advance(g, s.ls, Glyphs(g, line[..j])) + Spacing(g, s.ls, Glyphs(g, line[..j]), c) + c.xOffset;
              && 8 * (|placed| + Slot(g, line, j)) + 2 < |pen.out.verts|
              && pen.out.verts[8 * (|placed| + Slot(g, line, j))] == x1
              && pen.out.verts[8 * (|placed| + Slot(g, line, j)) + 2] == x1 + c.width
    {
      assert pen.out.verts[8 * (|placed| + Slot(g, line, j))]
             == GlyphX(g, st, 0.0, line, j) + g.chars[line[j]].xOffset;
      TabFreeQuad(g, st, line, j, pen.out, placed, s.lh);
    }
  }

  /** One glyph of a left-aligned tab-free line: its quad starts at the
      advance of the glyphs before it plus its spacing and x offset, and is
      as wide as the glyph. */
  lemma TabFreeQuad(g: Generator, st: LineSettings, line: Text, j: nat,
                    out: Geometry, placed: seq<PlacedGlyph>, lh: real)
    requires st.align == Left && TAB !in line
    requires j < |line| && Placeable(g, line[j])
    requires Emits(out, placed + Tag(Glyphs(g, line), st.lineNo), lh, g.baselineOffset)
    requires 8 * (|placed| + Slot(g, line, j)) < |out.verts|
    requires out.verts[8 * (|placed| + Slot(g, line, j))]
             == GlyphX(g, st, 0.0, line, j) + g.chars[line[j]].xOffset
    ensures var c := g.chars[line[j]];
            var x1 := Advance(g, st.ls, Glyphs(g, line[..j])) + Spacing(g, st.ls, Glyphs(g, line[..j]), c) + c.xOffset;
            && 8 * (|placed| + Slot(g, line, j)) + 2 < |out.verts|
            && out.verts[8 * (|placed| + Slot(g, line, j))] == x1
            && out.verts[8 * (|placed| + Slot(g, line, j)) + 2] == x1 + c.width
  {
    var all := placed + Tag(Glyphs(g, line), st.lineNo);
    var k := |placed| + Slot(g, line, j);
    NoTabs(st, line, j);
    SlotBound(g, line, j);
    assert all[k].glyph == g.chars[line[j]];
    QuadOfGlyph(out, all, lh, g.baselineOffset, k);
  }

  /** A prefix of a tab-free line adds no tab width. */
  lemma NoTabs(st: LineSettings, line: Text, j: nat)
    requires j <= |line| && TAB !in line
    ensures TabPart(st, line[..j]) == 0.0
  {
    assert TAB !in line[..j] by {
      assert forall k :: 0 <= k < j ==> line[..j][k] == line[k];
    }
  }

  /** The glyph at a placeable position is one of the line's glyphs. */
  lemma SlotBound(g: Generator, line: Text, j: nat)
    requires j < |line| && Placeable(g, line[j])
    ensures Slot(g, line, j) < |Glyphs(g, line)|
    ensures Glyphs(g, line)[Slot(g, line, j)] == g.chars[line[j]]
  {
    GlyphsAppend(g, line[..j], line[j..]);
    assert line[..j] + line[j..] == line;
    GlyphsAppend(g, [line[j]], line[j + 1..]);
    assert [line[j]] + line[j + 1..] == line[j..];
    assert Glyphs(g, [line[j]]) == [g.chars[line[j]]] by {
      assert [line[j]][..0] == [];
    }
  }

  /** The quad of the k-th placed glyph: its right edge is the glyph's width
      right of its left edge. */
  lemma QuadOfGlyph(out: Geometry, placed: seq<PlacedGlyph>, lh: real, bo: real, k: nat)
    requires k < |placed|
    requires Emits(out, placed, lh, bo)
    ensures 8 * k + 8 <= |out.verts|
    ensures out.verts[8 * k + 2] == out.verts[8 * k] + placed[k].glyph.width
  {
    assert QuadAt(out, k, placed[k], lh, bo);
    assert out.verts[8 * k + 2] == out.verts[8 * k .. 8 * k + 8][2];
    assert out.verts[8 * k] == out.verts[8 * k .. 8 * k + 8][0];
  }

  /** Starting the walk at position i is walking the suffix from i. */
  lemma {:induction false} PlaceCharsSuffix(g: Generator, st: LineSettings, pen: Pen, line: Text, i: nat)
    requires i <= |line|
    ensures PlaceChars(g, st, pen, line, i) == PlaceChars(g, st, pen, line[i..], 0)
    decreases |line| - i
  {
    if i < |line| {
      var pen' := Step(g, st, pen, line[i]);
      PlaceCharsSuffix(g, st, pen', line, i + 1);
      PlaceCharsSuffix(g, st, pen', line[i..], 1);
      assert line[i..][1..] == line[i + 1..];
    }
  }

  /** The codes of `s` that the walk does not skip: tabs and codes with a
      glyph. */
  function Supported(g: Generator, s: Text): Text
    decreases |s|
  {
    if |s| == 0 then []
    else (if s[0] == TAB || s[0] in g.chars then [s[0]] else []) + Supported(g, s[1..])
  }

  /** Without justification a code with no glyph contributes nothing: the
      walk over a line gives the same pen, previous glyph and arrays as the
      walk over the line with those codes removed; in particular the kerning
      context passes over them. */
  lemma {:induction false} SkipUnsupported(g: Generator, st: LineSettings, pen: Pen, line: Text)
    requires st.align != Justify
    ensures PlaceChars(g, st, pen, line, 0) == PlaceChars(g, st, pen, Supported(g, line), 0)
    decreases |line|
  {
    if |line| > 0 {
      var code := line[0];
      var pen' := Step(g, st, pen, code);
      PlaceCharsSuffix(g, st, pen', line, 1);
      SkipUnsupported(g, st, pen', line[1..]);
      if code == TAB || code in g.chars {
        var sup := [code] + Supported(g, line[1..]);
        PlaceCharsSuffix(g, st, pen', sup, 1);
        assert sup[1..] == Supported(g, line[1..]);
      } else {
        assert pen' == pen;
        SkipUnsupported(g, st, pen, line[1..]);
        assert Supported(g, line) == Supported(g, line[1..]);
        PlaceCharsSuffix(g, st, pen, line, 1);
      }
    }
  }
}
