/** The font data the layout engine works from: the atlas description as the
    external loader supplies it (pixel units), the normalised glyph records the
    constructors of WordWrapper and LayoutGenerator derive from it (units of
    the font's nominal size), and the first-match kerning lookup both of them
    use. */
module Font {

  datatype Option<T> = None | Some(value: T) {
    /** The value, or `default` when absent (a destructuring default). */
    function GetOr(default: T): T {
      match this
      case Some(v) => v
      case None => default
    }
  }

  /** One glyph of the atlas description, in pixels. */
  datatype RawChar = RawChar(
    id: int,
    x: real, y: real, width: real, height: real,
    xadvance: real, xoffset: real, yoffset: real,
    page: int)

  /** A kerning pair: `amount` is added between `first` and `second`. */
  datatype Kerning = Kerning(first: int, second: int, amount: real)

  /** The parts of the atlas description the layout engine reads:
      `size` is info.size, the rest are fields of common. */
  datatype RawFont = RawFont(
    chars: seq<RawChar>,
    kernings: seq<Kerning>,
    size: real,
    scaleW: real, scaleH: real,
    base: real,
    lineHeight: real)

  /** Normalised atlas rectangle of a glyph: top-left (u1, v1) and
      bottom-right (u2, v2), as fractions of the atlas size. */
  datatype UvRect = UvRect(u1: real, v1: real, u2: real, v2: real)

  /** A glyph with every dimension divided by the font's nominal size. */
  datatype Char = Char(
    id: int,
    width: real, height: real,
    xAdvance: real, xOffset: real, yOffset: real,
    page: int,
    uvs: UvRect)

  /** The nominal size is non-zero: the only divisor of advances, metrics
      and kerning amounts. */
  predicate Sized(f: RawFont) {
    f.size != 0.0
  }

  /** All the divisors LayoutGenerator's constructor uses are non-zero: the
      nominal size, and the atlas size for the UV rectangles. */
  predicate Divisible(f: RawFont) {
    Sized(f) && f.scaleW != 0.0 && f.scaleH != 0.0
  }

  /** A glyph record as LayoutGenerator's constructor builds it. */
  function NormalizeChar(f: RawFont, c: RawChar): (r: Char)
    requires Divisible(f)
    ensures r.id == c.id && r.page == c.page
    ensures r.width * f.size == c.width && r.height * f.size == c.height
    ensures r.xAdvance * f.size == c.xadvance
    ensures r.xOffset * f.size == c.xoffset && r.yOffset * f.size == c.yoffset
    ensures r.uvs.u1 * f.scaleW == c.x && r.uvs.v1 * f.scaleH == c.y
    ensures (r.uvs.u2 - r.uvs.u1) * f.scaleW == c.width
    ensures (r.uvs.v2 - r.uvs.v1) * f.scaleH == c.height
  {
    Char(c.id,
         c.width / f.size, c.height / f.size,
         c.xadvance / f.size, c.xoffset / f.size, c.yoffset / f.size,
         c.page,
         UvRect(c.x / f.scaleW, c.y / f.scaleH,
                (c.x + c.width) / f.scaleW, (c.y + c.height) / f.scaleH))
  }

  /** Pixel metrics recovered from a normalised glyph. */
  function Denormalize(f: RawFont, r: Char): RawChar {
    RawChar(r.id,
            r.uvs.u1 * f.scaleW, r.uvs.v1 * f.scaleH,
            r.width * f.size, r.height * f.size,
            r.xAdvance * f.size, r.xOffset * f.size, r.yOffset * f.size,
            r.page)
  }

  /** Normalisation loses nothing: the pixel glyph can be rebuilt from it. */
  lemma NormalizeLossless(f: RawFont, c: RawChar)
    requires Divisible(f)
    ensures Denormalize(f, NormalizeChar(f, c)) == c
  {
  }

  /** No glyph after position `i` has the same id: `chars[i]` is the one a
      forEach that assigns by id leaves behind. */
  ghost predicate LastWithId(chars: seq<RawChar>, i: int)
    requires 0 <= i < |chars|
  {
    forall j :: i < j < |chars| ==> chars[j].id != chars[i].id
  }

  /** The glyph table of LayoutGenerator's constructor: every glyph is stored
      under its id, a later glyph with the same id replacing an earlier one. */
  function GlyphTable(f: RawFont, chars: seq<RawChar>): (m: map<int, Char>)
    requires Divisible(f)
    ensures forall id :: id in m ==> m[id].id == id
    decreases |chars|
  {
    if |chars| == 0 then map[]
    else
      var last := chars[|chars| - 1];
      GlyphTable(f, chars[..|chars| - 1])[last.id := NormalizeChar(f, last)]
  }

  /** Exactly the ids listed in the atlas have a glyph. */
  lemma {:induction false} GlyphTableKeys(f: RawFont, chars: seq<RawChar>)
    requires Divisible(f)
    ensures forall id :: id in GlyphTable(f, chars) <==>
              exists i :: 0 <= i < |chars| && chars[i].id == id
    decreases |chars|
  {
    if |chars| > 0 {
      var init := chars[..|chars| - 1];
      var last := chars[|chars| - 1];
      GlyphTableKeys(f, init);
      var m := GlyphTable(f, chars);
      assert m.Keys == GlyphTable(f, init).Keys + {last.id};
      forall id
        ensures id in m <==> exists i :: 0 <= i < |chars| && chars[i].id == id
      {
        if id in m && id != last.id {
          var i :| 0 <= i < |init| && init[i].id == id;
          assert chars[i] == init[i];
        }
        if exists i :: 0 <= i < |chars| && chars[i].id == id {
          var i :| 0 <= i < |chars| && chars[i].id == id;
          if i < |init| {
            assert init[i] == chars[i];
          }
        }
      }
    }
  }

  /** Each id holds the last glyph listed with that id. */
  lemma {:induction false} GlyphTableLastWins(f: RawFont, chars: seq<RawChar>, i: int)
    requires Divisible(f)
    requires 0 <= i < |chars| && LastWithId(chars, i)
    ensures chars[i].id in GlyphTable(f, chars)
    ensures GlyphTable(f, chars)[chars[i].id] == NormalizeChar(f, chars[i])
    decreases |chars|
  {
    var init := chars[..|chars| - 1];
    var last := chars[|chars| - 1];
    if i < |init| {
      assert init[i] == chars[i];
      assert chars[i].id != last.id;
      assert LastWithId(init, i) by {
        forall j | i < j < |init| ensures init[j].id != init[i].id {
          assert init[j] == chars[j];
        }
      }
      GlyphTableLastWins(f, init, i);
    }
  }

  /** The advance table of WordWrapper's constructor: each glyph's advance
      by id, a later glyph with the same id replacing an earlier one. */
  function AdvanceTable(f: RawFont, chars: seq<RawChar>): map<int, real>
    requires Sized(f)
    decreases |chars|
  {
    if |chars| == 0 then map[]
    else
      var last := chars[|chars| - 1];
      AdvanceTable(f, chars[..|chars| - 1])[last.id := last.xadvance / f.size]
  }

  /** Exactly the ids listed in the atlas have an advance. */
  lemma {:induction false} AdvanceTableKeys(f: RawFont, chars: seq<RawChar>)
    requires Sized(f)
    ensures forall id :: id in AdvanceTable(f, chars) <==>
              exists i :: 0 <= i < |chars| && chars[i].id == id
    decreases |chars|
  {
    if |chars| > 0 {
      var init := chars[..|chars| - 1];
      var last := chars[|chars| - 1];
      AdvanceTableKeys(f, init);
      var m := AdvanceTable(f, chars);
      assert m.Keys == AdvanceTable(f, init).Keys + {last.id};
      forall id
        ensures id in m <==> exists i :: 0 <= i < |chars| && chars[i].id == id
      {
        if id in m && id != last.id {
          var i :| 0 <= i < |init| && init[i].id == id;
          assert chars[i] == init[i];
        }
        if exists i :: 0 <= i < |chars| && chars[i].id == id {
          var i :| 0 <= i < |chars| && chars[i].id == id;
          if i < |init| {
            assert init[i] == chars[i];
          }
        }
      }
    }
  }

  /** Each id holds the advance of the last glyph listed with that id, over
      the nominal size. */
  lemma {:induction false} AdvanceTableLastWins(f: RawFont, chars: seq<RawChar>, i: int)
    requires Sized(f)
    requires 0 <= i < |chars| && LastWithId(chars, i)
    ensures chars[i].id in AdvanceTable(f, chars)
    ensures AdvanceTable(f, chars)[chars[i].id] * f.size == chars[i].xadvance
    decreases |chars|
  {
    var init := chars[..|chars| - 1];
    var last := chars[|chars| - 1];
    if i < |init| {
      assert init[i] == chars[i];
      assert chars[i].id != last.id;
      assert LastWithId(init, i) by {
        forall j | i < j < |init| ensures init[j].id != init[i].id {
          assert init[j] == chars[j];
        }
      }
      AdvanceTableLastWins(f, init, i);
    }
  }

  /** The line breaker and the glyph placer see the same advance for every
      code: the two constructors agree. */
  lemma {:induction false} AdvanceTableAgrees(f: RawFont, chars: seq<RawChar>)
    requires Divisible(f)
    ensures AdvanceTable(f, chars).Keys == GlyphTable(f, chars).Keys
    ensures forall id :: id in AdvanceTable(f, chars) ==>
              AdvanceTable(f, chars)[id] == GlyphTable(f, chars)[id].xAdvance
    decreases |chars|
  {
    if |chars| > 0 {
      AdvanceTableAgrees(f, chars[..|chars| - 1]);
    }
  }

  /** Kerning amounts divided by the nominal size, as both constructors do. */
  function NormalizeKernings(f: RawFont, ks: seq<Kerning>): (r: seq<Kerning>)
    requires Sized(f)
    ensures |r| == |ks|
    ensures forall i :: 0 <= i < |ks| ==>
              r[i].first == ks[i].first && r[i].second == ks[i].second
              && r[i].amount * f.size == ks[i].amount
  {
    seq(|ks|, i requires 0 <= i < |ks| => Kerning(ks[i].first, ks[i].second, ks[i].amount / f.size))
  }

  predicate Matches(k: Kerning, first: int, second: int) {
    k.first == first && k.second == second
  }

  /** Position of the first pair for (first, second), or |ks| if none. */
  function FirstMatch(ks: seq<Kerning>, first: int, second: int): (i: nat)
    ensures i <= |ks|
    ensures i < |ks| ==> Matches(ks[i], first, second)
    ensures forall j :: 0 <= j < i ==> !Matches(ks[j], first, second)
    decreases |ks|
  {
    if |ks| == 0 then 0
    else if Matches(ks[0], first, second) then 0
    else
      var i := FirstMatch(ks[1..], first, second);
      assert forall j :: 1 <= j < |ks| ==> ks[j] == ks[1..][j - 1];
      i + 1
  }

  /** The first kerning pair for (first, second), as Array.prototype.find
      returns it. */
  function FindKerning(ks: seq<Kerning>, first: int, second: int): (r: Option<Kerning>)
    ensures r.None? <==> forall i :: 0 <= i < |ks| ==> !Matches(ks[i], first, second)
    ensures r.Some? ==> exists i :: 0 <= i < |ks| && ks[i] == r.value && Matches(ks[i], first, second)
                          && forall j :: 0 <= j < i ==> !Matches(ks[j], first, second)
  {
    var i := FirstMatch(ks, first, second);
    if i < |ks| then Some(ks[i]) else None
  }

  /** The amount a kerning lookup contributes: 0 when no pair matches. */
  function KerningAmount(ks: seq<Kerning>, first: int, second: int): real {
    match FindKerning(ks, first, second)
    case Some(k) => k.amount
    case None => 0.0
  }

  /** Lists with the same pairs in the same order find at the same place. */
  lemma {:induction false} FirstMatchSameKeys(xs: seq<Kerning>, ys: seq<Kerning>, first: int, second: int)
    requires |xs| == |ys|
    requires forall i :: 0 <= i < |xs| ==> xs[i].first == ys[i].first && xs[i].second == ys[i].second
    ensures FirstMatch(xs, first, second) == FirstMatch(ys, first, second)
    decreases |xs|
  {
    if |xs| > 0 && !Matches(xs[0], first, second) {
      FirstMatchSameKeys(xs[1..], ys[1..], first, second);
    }
  }

  /** Normalising the kerning list and looking up commute: the normalised
      lookup gives the raw first-match amount over the nominal size. */
  lemma KerningAmountScales(f: RawFont, ks: seq<Kerning>, first: int, second: int)
    requires Sized(f)
    ensures KerningAmount(NormalizeKernings(f, ks), first, second) * f.size
            == KerningAmount(ks, first, second)
  {
    var nk := NormalizeKernings(f, ks);
    FirstMatchSameKeys(nk, ks, first, second);
    var i := FirstMatch(ks, first, second);
    if i < |ks| {
      assert KerningAmount(nk, first, second) == nk[i].amount;
      assert KerningAmount(ks, first, second) == ks[i].amount;
    } else {
      assert KerningAmount(nk, first, second) == 0.0;
      assert KerningAmount(ks, first, second) == 0.0;
    }
  }
}
