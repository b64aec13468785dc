/**
 * Text watermark layers of core/watermark.py: `get_font` and
 * `create_text_watermark`. A layer is recorded as its size plus the list of
 * `draw.text` calls made on it, in order; turning glyphs into pixels is Pillow's
 * and enters only through a caller-supplied rasteriser.
 */
module TextLayer {
  import opened Wrappers
  import opened Pixels

  /** A loaded font: a TrueType face at a size, or Pillow's built-in bitmap font, which has no size. */
  datatype Font = TrueType(name: string, size: int) | BuiltinDefault

  const DefaultFontSize := 36
  const DefaultFontColor := Color(255, 255, 255, 128)
  const DefaultStrokeColor := Color(0, 0, 0, 255)
  const ShadowOffset := 3

  /**
   * `get_font`: a non-empty font name that `ImageFont.truetype` can open (one in
   * `loadable`) gives that face; otherwise, or when loading fails, the built-in font.
   */
  function GetFont(fontName: Option<string>, fontSize: Option<int>, loadable: set<string>): Font {
    var size := fontSize.GetOr(DefaultFontSize);
    if fontName.Some? && fontName.value != "" && fontName.value in loadable then TrueType(fontName.value, size)
    else BuiltinDefault
  }

  /** Whenever the built-in font is used the requested size is ignored; a loaded face has exactly the requested size, 36 when none is given. */
  lemma GetFontFallbackIgnoresSize(fontName: Option<string>, s1: Option<int>, s2: Option<int>, loadable: set<string>)
    ensures GetFont(fontName, s1, loadable) == BuiltinDefault ==> GetFont(fontName, s2, loadable) == BuiltinDefault
    ensures GetFont(fontName, s1, loadable).TrueType? ==>
      GetFont(fontName, s1, loadable).size == (if s1.Some? then s1.value else 36)
    ensures GetFont(fontName, s1, loadable).TrueType? <==>
      fontName.Some? && fontName.value != "" && fontName.value in loadable
  {
  }

  /** One `draw.text((x, y), text, font=font, fill=fill)` call. */
  datatype DrawOp = DrawText(x: int, y: int, fill: Color)

  /** A transparent RGBA layer of the given size and the text drawn on it, in call order. */
  datatype Layer = Layer(width: int, height: int, text: string, font: Font, ops: seq<DrawOp>)

  /** The offsets (dx, dy) of the stroke loops for dx in [lo, hi) and dy in [-sw, sw], skipping (0, 0), in loop order. */
  function RingRows(lo: int, hi: int, sw: int): seq<(int, int)>
    decreases hi - lo
  {
    if lo >= hi then [] else RingRows(lo, hi - 1, sw) + RingColumn(hi - 1, -sw, sw + 1)
  }

  /** The offsets (dx, dy) for dy in [lo, hi), skipping (0, 0), in loop order. */
  function RingColumn(dx: int, lo: int, hi: int): seq<(int, int)>
    decreases hi - lo
  {
    if lo >= hi then [] else RingColumn(dx, lo, hi - 1) + (if dx != 0 || hi - 1 != 0 then [(dx, hi - 1)] else [])
  }

  /** Every offset the stroke loops visit. */
  function StrokeOffsets(sw: int): seq<(int, int)> {
    RingRows(-sw, sw + 1, sw)
  }

  /** The stroke draws around the text origin (x0, y0), one per offset. */
  function StrokeDraws(x0: int, y0: int, offsets: seq<(int, int)>, fill: Color): (r: seq<DrawOp>)
    ensures |r| == |offsets|
  {
    if offsets == [] then []
    else
      var last := offsets[|offsets| - 1];
      StrokeDraws(x0, y0, offsets[..|offsets| - 1], fill) + [DrawText(x0 + last.0, y0 + last.1, fill)]
  }

  /** The k-th stroke draw is at the text origin shifted by the k-th offset. */
  lemma {:induction false} StrokeDrawsAt(x0: int, y0: int, offsets: seq<(int, int)>, fill: Color, k: nat)
    requires k < |offsets|
    ensures StrokeDraws(x0, y0, offsets, fill)[k] == DrawText(x0 + offsets[k].0, y0 + offsets[k].1, fill)
    decreases |offsets|
  {
    if k < |offsets| - 1 {
      StrokeDrawsAt(x0, y0, offsets[..|offsets| - 1], fill, k);
    }
  }

  lemma {:induction false} RingColumnMembers(dx: int, lo: int, hi: int, d: (int, int))
    ensures d in RingColumn(dx, lo, hi) <==> d.0 == dx && lo <= d.1 < hi && d != (0, 0)
    decreases hi - lo
  {
    if lo < hi {
      RingColumnMembers(dx, lo, hi - 1, d);
    }
  }

  lemma {:induction false} RingRowsMembers(lo: int, hi: int, sw: int, d: (int, int))
    ensures d in RingRows(lo, hi, sw) <==> lo <= d.0 < hi && -sw <= d.1 <= sw && d != (0, 0)
    decreases hi - lo
  {
    if lo < hi {
      RingRowsMembers(lo, hi - 1, sw, d);
      RingColumnMembers(hi - 1, -sw, sw + 1, d);
    }
  }

  /** The stroke visits exactly the offsets of the square [-sw, sw]² other than the centre; none when sw < 0. */
  lemma StrokeOffsetsMembers(sw: int, d: (int, int))
    ensures d in StrokeOffsets(sw) <==> -sw <= d.0 <= sw && -sw <= d.1 <= sw && d != (0, 0)
  {
    RingRowsMembers(-sw, sw + 1, sw, d);
  }

  lemma {:induction false} RingColumnCount(dx: int, lo: int, hi: int)
    requires lo <= hi
    ensures |RingColumn(dx, lo, hi)| == hi - lo - (if dx == 0 && lo <= 0 < hi then 1 else 0)
    decreases hi - lo
  {
    if lo < hi {
      RingColumnCount(dx, lo, hi - 1);
    }
  }

  lemma {:induction false} RingRowsCount(lo: int, hi: int, sw: int)
    requires lo <= hi && sw >= 0
    ensures |RingRows(lo, hi, sw)| == (hi - lo) * (2 * sw + 1) - (if lo <= 0 < hi then 1 else 0)
    decreases hi - lo
  {
    if lo < hi {
      RingRowsCount(lo, hi - 1, sw);
      RingColumnCount(hi - 1, -sw, sw + 1);
      assert (hi - lo) * (2 * sw + 1) == (hi - 1 - lo) * (2 * sw + 1) + (2 * sw + 1);
    }
  }

  /** For a non-negative stroke width the ring has (2sw+1)² - 1 draws. */
  lemma StrokeOffsetsCount(sw: int)
    requires sw >= 0
    ensures |StrokeOffsets(sw)| == (2 * sw + 1) * (2 * sw + 1) - 1
  {
    RingRowsCount(-sw, sw + 1, sw);
  }

  /** The padding reserved on every side of the text, and the extra room for the shadow. */
  function Padding(stroke: bool, strokeWidth: int): int {
    if stroke then strokeWidth * 2 else 0
  }

  function ShadowRoom(shadow: bool): int {
    if shadow then ShadowOffset else 0
  }

  /**
   * The layer `create_text_watermark` builds for a text whose bounding box measures
   * `box`, once the defaults are filled in; `None` when the computed size is negative,
   * where `Image.new` raises.
   */
  function TextLayerSpec(text: string, font: Font, box: (nat, nat), color: Color,
                         shadow: bool, stroke: bool, strokeWidth: int, strokeColor: Color): Option<Layer>
  {
    var p := Padding(stroke, strokeWidth);
    var s := ShadowRoom(shadow);
    var width := box.0 + p * 2 + s;
    var height := box.1 + p * 2 + s;
    if width < 0 || height < 0 then None
    else
      Some(Layer(width, height, text, font,
        (if shadow then [DrawText(p + s, p + s, Color(0, 0, 0, color.a / 2))] else [])
        + (if stroke then StrokeDraws(p, p, StrokeOffsets(strokeWidth), strokeColor) else [])
        + [DrawText(p, p, color)]))
  }

  /**
   * The layer is the text box plus twice the stroke padding plus the shadow room on each
   * axis; the main text is the last draw, at (p, p). Before it come one half-alpha black
   * shadow draw at (p+3, p+3) when shadow is on, then (2sw+1)² - 1 stroke draws.
   */
  lemma TextLayerShape(text: string, font: Font, box: (nat, nat), color: Color,
                       shadow: bool, stroke: bool, sw: int, strokeColor: Color)
    requires !stroke || sw >= 0
    ensures var r := TextLayerSpec(text, font, box, color, shadow, stroke, sw, strokeColor);
      var p := if stroke then 2 * sw else 0;
      var s := if shadow then 3 else 0;
      r.Some? && r.value.width == box.0 + 2 * p + s && r.value.height == box.1 + 2 * p + s
      && |r.value.ops| == (if shadow then 1 else 0) + (if stroke then (2 * sw + 1) * (2 * sw + 1) - 1 else 0) + 1
      && r.value.ops[|r.value.ops| - 1] == DrawText(p, p, color)
      && (shadow ==> r.value.ops[0] == DrawText(p + 3, p + 3, Color(0, 0, 0, color.a / 2)))
  {
    if stroke {
      StrokeOffsetsCount(sw);
    }
  }

  /**
   * With a non-negative stroke width every draw's origin leaves room for the whole text
   * box inside the layer: the padding covers the stroke ring and the extra 3 px the shadow.
   */
  lemma TextLayerDrawsFit(text: string, font: Font, box: (nat, nat), color: Color,
                          shadow: bool, stroke: bool, sw: int, strokeColor: Color)
    requires sw >= 0
    ensures var r := TextLayerSpec(text, font, box, color, shadow, stroke, sw, strokeColor);
      r.Some? && forall op :: op in r.value.ops ==>
        0 <= op.x <= r.value.width - box.0 && 0 <= op.y <= r.value.height - box.1
  {
    var r := TextLayerSpec(text, font, box, color, shadow, stroke, sw, strokeColor);
    var p := Padding(stroke, sw);
    var offs := StrokeOffsets(sw);
    var ring := StrokeDraws(p, p, offs, strokeColor);
    forall op | op in ring
      ensures p - sw <= op.x <= p + sw && p - sw <= op.y <= p + sw
    {
      var k :| 0 <= k < |ring| && ring[k] == op;
      StrokeDrawsAt(p, p, offs, strokeColor, k);
      StrokeOffsetsMembers(sw, offs[k]);
    }
  }

  /**
   * `create_text_watermark`. Fonts that `truetype` can open are `loadable`; `measure` is
   * `textbbox` at the origin, reduced to the box's width and height. Missing colour and
   * stroke colour take their defaults.
   */
  method CreateTextWatermark(text: string, fontName: Option<string>, fontSize: Option<int>, color: Option<Color>,
                             bold: bool, italic: bool, shadow: bool, stroke: bool, strokeWidth: int,
                             strokeColor: Option<Color>, loadable: set<string>, measure: (Font, string) -> (nat, nat))
    returns (layer: Option<Layer>)
    ensures var font := GetFont(fontName, fontSize, loadable);
      layer == TextLayerSpec(text, font, measure(font, text), color.GetOr(DefaultFontColor),
                             shadow, stroke, strokeWidth, strokeColor.GetOr(DefaultStrokeColor))
  {
    var fill := color.GetOr(DefaultFontColor);
    var outline := strokeColor.GetOr(DefaultStrokeColor);
    var font := GetFont(fontName, fontSize, loadable);
    var box := measure(font, text);
    var padding := if stroke then strokeWidth * 2 else 0;
    var shadowOffset := if shadow then ShadowOffset else 0;
    var width := box.0 + padding * 2 + shadowOffset;
    var height := box.1 + padding * 2 + shadowOffset;
    if width < 0 || height < 0 {
      return None;
    }
    var shadowOps: seq<DrawOp> := [];
    if shadow {
      shadowOps := [DrawText(padding + shadowOffset, padding + shadowOffset, Color(0, 0, 0, fill.a / 2))];
    }
    var strokeOps: seq<DrawOp> := [];
    if stroke {
      strokeOps := DrawStroke(padding, padding, strokeWidth, outline);
    }
    layer := Some(Layer(width, height, text, font, shadowOps + strokeOps + [DrawText(padding, padding, fill)]));
  }

  /** The nested stroke loops: one draw at every offset of the ring, in loop order. */
  method DrawStroke(x0: int, y0: int, sw: int, fill: Color) returns (ops: seq<DrawOp>)
    ensures ops == StrokeDraws(x0, y0, StrokeOffsets(sw), fill)
  {
    ops := [];
    var dx := -sw;
    while dx < sw + 1
      invariant dx == -sw || -sw <= dx <= sw + 1
      invariant ops == StrokeDraws(x0, y0, RingRows(-sw, dx, sw), fill)
      decreases sw + 1 - dx
    {
      var column := DrawStrokeColumn(x0, y0, dx, sw, fill);
      StrokeDrawsAppend(x0, y0, RingRows(-sw, dx, sw), RingColumn(dx, -sw, sw + 1), fill);
      ops := ops + column;
      dx := dx + 1;
    }
  }

  /** The inner loop over dy for one dx, skipping the text's own origin. */
  method DrawStrokeColumn(x0: int, y0: int, dx: int, sw: int, fill: Color) returns (ops: seq<DrawOp>)
    ensures ops == StrokeDraws(x0, y0, RingColumn(dx, -sw, sw + 1), fill)
  {
    ops := [];
    var dy := -sw;
    while dy < sw + 1
      invariant dy == -sw || -sw <= dy <= sw + 1
      invariant ops == StrokeDraws(x0, y0, RingColumn(dx, -sw, dy), fill)
      decreases sw + 1 - dy
    {
      var next := if dx != 0 || dy != 0 then [(dx, dy)] else [];
      assert RingColumn(dx, -sw, dy + 1) == RingColumn(dx, -sw, dy) + next;
      StrokeDrawsAppend(x0, y0, RingColumn(dx, -sw, dy), next, fill);
      if dx != 0 || dy != 0 {
        assert StrokeDraws(x0, y0, next, fill) == [DrawText(x0 + dx, y0 + dy, fill)];
        ops := ops + [DrawText(x0 + dx, y0 + dy, fill)];
      } else {
        assert StrokeDraws(x0, y0, next, fill) == [];
      }
      dy := dy + 1;
    }
  }

  lemma {:induction false} StrokeDrawsAppend(x0: int, y0: int, a: seq<(int, int)>, b: seq<(int, int)>, fill: Color)
    ensures StrokeDraws(x0, y0, a + b, fill) == StrokeDraws(x0, y0, a, fill) + StrokeDraws(x0, y0, b, fill)
    decreases |b|
  {
    if b == [] {
      assert a + b == a;
    } else {
      var init := b[..|b| - 1];
      assert (a + b)[..|a + b| - 1] == a + init;
      StrokeDrawsAppend(x0, y0, a, init, fill);
    }
  }

  /** A rasteriser turns a layer into a raster of exactly the layer's size. */
  ghost predicate RasterizesToSize(rasterize: Layer -> Raster) {
    forall l: Layer :: l.width >= 0 && l.height >= 0 ==>
      rasterize(l).Valid() && rasterize(l).width == l.width && rasterize(l).height == l.height
  }
}
