/** Glyph placement (src/lib/LayoutGenerator.ts).

    The constructor normalises the atlas description into a glyph table, a
    kerning list and a baseline offset. `Layout` wraps the text (unless
    wrapping is off), splits it into lines at newlines and walks each line
    code unit by code unit: a tab moves the pen by the tab width, a code
    without a glyph is skipped, and a glyph is placed after kerning and
    letter spacing, emitting one quad (4 vertices, 4 UV pairs, 6 indices).
    Right alignment starts the pen at the unused width; justification adds
    an equal share of it before every space and no-break space. */
module LayoutGenerator {
  import opened Strings
  import opened Font
  import WordWrapper

  datatype Align = Left | Right | Justify

  /** What the constructor keeps. The default line height is the font's
      line height over its nominal size, read by layout when none is given. */
  datatype Generator = Generator(
    chars: map<int, Char>,
    kernings: seq<Kerning>,
    baselineOffset: real,
    defaultLineHeight: real,
    wrapper: WordWrapper.Wrapper)

  function NewGenerator(f: RawFont): (g: Generator)
    requires Divisible(f)
    ensures g.baselineOffset * f.size == f.base
    ensures g.defaultLineHeight * f.size == f.lineHeight
    ensures forall id :: id in g.chars ==> g.chars[id].id == id
    ensures g.wrapper.useKernings && g.wrapper.breakPoints == WordWrapper.DefaultBreakPoints
  {
    Generator(
      GlyphTable(f, f.chars),
      NormalizeKernings(f, f.kernings),
      f.base / f.size,
      f.lineHeight / f.size,
      WordWrapper.NewWrapper(f, WordWrapper.DefaultBreakPoints, true))
  }

  /** The glyph table the constructor builds: exactly the listed ids have a
      glyph, and the last listing of an id wins. The wrapper it creates has
      one advance per glyph of the table, that glyph's advance. */
  lemma NewGeneratorGlyphs(f: RawFont)
    requires Divisible(f)
    ensures var g := NewGenerator(f);
            && (forall id :: id in g.chars <==> exists i :: 0 <= i < |f.chars| && f.chars[i].id == id)
            && (forall i :: 0 <= i < |f.chars| && LastWithId(f.chars, i) ==>
                  f.chars[i].id in g.chars && g.chars[f.chars[i].id] == NormalizeChar(f, f.chars[i]))
            && g.wrapper.advances.Keys == g.chars.Keys
            && (forall id :: id in g.wrapper.advances ==> g.wrapper.advances[id] == g.chars[id].xAdvance)
  {
    var g := NewGenerator(f);
    assert g.chars == GlyphTable(f, f.chars);
    assert g.wrapper.advances == AdvanceTable(f, f.chars);
    GlyphTableKeys(f, f.chars);
    AdvanceTableAgrees(f, f.chars);
    forall i | 0 <= i < |f.chars| && LastWithId(f.chars, i)
      ensures f.chars[i].id in GlyphTable(f, f.chars)
      ensures GlyphTable(f, f.chars)[f.chars[i].id] == NormalizeChar(f, f.chars[i])
    {
      GlyphTableLastWins(f, f.chars, i);
    }
  }

  /** The kerning list the constructor builds is the font's, in order, with
      every amount over the nominal size, and the wrapper it creates holds
      the same list. */
  lemma NewGeneratorKernings(f: RawFont)
    requires Divisible(f)
    ensures var g := NewGenerator(f);
            && |g.kernings| == |f.kernings|
            && (forall i :: 0 <= i < |f.kernings| ==>
                  g.kernings[i].first == f.kernings[i].first && g.kernings[i].second == f.kernings[i].second
                  && g.kernings[i].amount * f.size == f.kernings[i].amount)
            && g.wrapper.kernings == g.kernings
  {
    var g := NewGenerator(f);
    var ks := NormalizeKernings(f, f.kernings);
    assert g.kernings == ks == g.wrapper.kernings;
    assert forall i :: 0 <= i < |f.kernings| ==>
             ks[i].first == f.kernings[i].first && ks[i].second == f.kernings[i].second
             && ks[i].amount * f.size == f.kernings[i].amount;
  }

  /** The options of one layout call; absent options take their defaults. */
  datatype LayoutProps = LayoutProps(
    text: Text,
    width: real,
    noWrap: bool,
    letterSpacing: Option<real>,
    lineHeight: Option<real>,
    tabWidth: Option<real>,
    align: Option<Align>)

  datatype Settings = Settings(width: real, ls: real, lh: real, tw: real, align: Align)

  function Resolve(g: Generator, p: LayoutProps): Settings {
    Settings(p.width,
             p.letterSpacing.GetOr(0.0),
             p.lineHeight.GetOr(g.defaultLineHeight),
             p.tabWidth.GetOr(1.0),
             p.align.GetOr(Left))
  }

  /** The flat output arrays. */
  datatype Geometry = Geometry(verts: seq<real>, uvs: seq<real>, indices: seq<int>)

  /** The walk's state: the pen position, the previous placed glyph of the
      line, the vertex counter and the arrays written so far. */
  datatype Pen = Pen(x: real, prev: Option<Char>, pointer: int, out: Geometry)

  /** What stays fixed along one line. */
  datatype LineSettings = LineSettings(
    align: Align, ls: real, tw: real, lh: real, fill: real, lineNo: nat)

  predicate IsSpace(code: int) {
    code == SPACE || code == NO_BREAK_SPACE
  }

  /** The four UV pairs of a quad: top-left, top-right, bottom-left,
      bottom-right. */
  function UvQuad(r: UvRect): seq<real> {
    [r.u1, r.v1, r.u2, r.v1, r.u1, r.v2, r.u2, r.v2]
  }

  /** One code unit of a line: a justification share before a space, then
      a tab moves the pen, a glyph is placed, and any other code is
      skipped. */
  function Step(g: Generator, st: LineSettings, pen: Pen, code: int): Pen {
    var x := if st.align == Justify && IsSpace(code) then pen.x + st.fill else pen.x;
    if code == TAB then pen.(x := x + st.tw)
    else if code in g.chars then PlaceGlyph(g, st, pen.(x := x), g.chars[code])
    else pen.(x := x)
  }

  /** Kerning and letter spacing when a glyph precedes on the line, then the
      quad at the pen, then the advance. */
  function PlaceGlyph(g: Generator, st: LineSettings, pen: Pen, c: Char): Pen {
    var xk := if pen.prev.Some? then pen.x + KerningAmount(g.kernings, pen.prev.value.id, c.id) + st.ls else pen.x;
    var x1 := xk + c.xOffset;
    var x2 := xk + c.xOffset + c.width;
    var y1 := -((st.lineNo as real) * st.lh) - c.yOffset + g.baselineOffset;
    var y2 := -((st.lineNo as real) * st.lh) - c.yOffset - c.height + g.baselineOffset;
    var p := pen.pointer;
    Pen(xk + c.xAdvance, Some(c), p + 4,
        Geometry(pen.out.verts + [x1, y1, x2, y1, x1, y2, x2, y2],
                 pen.out.uvs + UvQuad(c.uvs),
                 pen.out.indices + [p, p + 2, p + 1, p + 1, p + 2, p + 3]))
  }

  /** The code units of `line` from position `i` on. */
  function PlaceChars(g: Generator, st: LineSettings, pen: Pen, line: Text, i: nat): Pen
    requires i <= |line|
    decreases |line| - i
  {
    if i == |line| then pen
    else PlaceChars(g, st, Step(g, st, pen, line[i]), line, i + 1)
  }

  function CountSpaces(s: Text): nat {
    Count(s, SPACE) + Count(s, NO_BREAK_SPACE)
  }

  /** The justification share: the unused width over the number of spaces,
      or over 1 when there are none. */
  function LineFill(s: Settings, measure: Text -> real, line: Text): real {
    var spaces := CountSpaces(line);
    (s.width - measure(line)) / (if spaces > 0 then spaces as real else 1.0)
  }

  /** Where the pen starts: at the unused width for right alignment. */
  function LineStart(s: Settings, measure: Text -> real, line: Text): real {
    if s.align == Right then s.width - measure(line) else 0.0
  }

  function LineSettingsFor(s: Settings, measure: Text -> real, line: Text, lineNo: nat): LineSettings {
    LineSettings(s.align, s.ls, s.tw, s.lh, LineFill(s, measure, line), lineNo)
  }

  /** One line: a fresh pen with no previous glyph, the arrays carried on. */
  function PlaceLine(g: Generator, s: Settings, measure: Text -> real, line: Text, lineNo: nat,
                     out: Geometry, pointer: int): Pen
  {
    PlaceChars(g, LineSettingsFor(s, measure, line, lineNo),
               Pen(LineStart(s, measure, line), None, pointer, out), line, 0)
  }

  datatype Buffers = Buffers(out: Geometry, pointer: int)

  function LayoutLines(g: Generator, s: Settings, measure: Text -> real, lines: seq<Text>, lineNo: nat,
                       out: Geometry, pointer: int): Buffers
    decreases |lines|
  {
    if |lines| == 0 then Buffers(out, pointer)
    else
      var pen := PlaceLine(g, s, measure, lines[0], lineNo, out, pointer);
      LayoutLines(g, s, measure, lines[1..], lineNo + 1, pen.out, pen.pointer)
  }

  /** The text that is split into lines: wrapped unless wrapping is off. */
  function LayoutText(g: Generator, p: LayoutProps): Text
    requires p.noWrap || WordWrapper.Finishes(g.wrapper.breakPoints, p.width, p.text)
  {
    var s := Resolve(g, p);
    if p.noWrap then p.text else WordWrapper.Wrap(g.wrapper, p.text, s.width, s.ls, s.tw)
  }

  /** layout. `measure` stands for the wrapper's line measurement, which is
      not part of this model. */
  function Layout(g: Generator, p: LayoutProps, measure: Text -> real): Geometry
    requires p.noWrap || WordWrapper.Finishes(g.wrapper.breakPoints, p.width, p.text)
  {
    var lines := Split(LayoutText(g, p), NEWLINE);
    LayoutLines(g, Resolve(g, p), measure, lines, 0, Geometry([], [], []), 0).out
  }
}
