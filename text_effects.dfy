/**
 * `TextEffectsRenderer.render_text_with_effects` of utils/text_effects.py: a text
 * layer padded for an optional shadow and stroke, drawn shadow first, then the
 * stroke ring, then the text, and pasted onto a copy of the image so that the
 * text's own origin lands on the requested position.
 */
module TextEffects {
  import opened Wrappers
  import opened Pixels
  import opened Colors
  import opened TextLayer
  import opened Numbers

  /** The 'shadow' entry of the effects dictionary; a missing key is `None`, a missing entry is disabled. */
  datatype ShadowConfig = ShadowConfig(enabled: bool, offsetX: Option<int>, offsetY: Option<int>,
                                       color: Option<string>, opacity: Option<int>)

  /** The 'stroke' entry of the effects dictionary. */
  datatype StrokeConfig = StrokeConfig(enabled: bool, width: Option<int>, color: Option<string>)

  datatype Effects = Effects(shadow: ShadowConfig, stroke: StrokeConfig)

  const DefaultShadowColor := "#808080"
  const DefaultStrokeHex := "#FFFFFF"

  /** The padding the renderer reserves for the effects along one axis, given that axis's shadow offset. */
  function Extra(shadowOn: bool, offset: Option<int>, stroke: StrokeConfig): int {
    var afterShadow := if shadowOn then Max(0, Abs(offset.GetOr(0))) else 0;
    if stroke.enabled then Max(afterShadow, stroke.width.GetOr(1)) else afterShadow
  }

  function ExtraWidth(e: Effects): int {
    Extra(e.shadow.enabled, e.shadow.offsetX, e.stroke)
  }

  function ExtraHeight(e: Effects): int {
    Extra(e.shadow.enabled, e.shadow.offsetY, e.stroke)
  }

  /**
   * The padding is never negative, covers the given shadow offset (0 when the key is
   * missing) and the stroke width (1 when missing), and is the least such value: it is
   * 0 or one of those two.
   */
  lemma ExtraIsLeastCover(shadowOn: bool, offset: Option<int>, stroke: StrokeConfig)
    ensures var x := Extra(shadowOn, offset, stroke);
      var o := if shadowOn then Abs(offset.GetOr(0)) else 0;
      var w := if stroke.enabled then stroke.width.GetOr(1) else 0;
      x >= 0 && x >= o && x >= w && (x == 0 || x == o || x == w)
  {
  }

  /** The shadow draw, if the shadow is on: at the text origin plus the offset (2 when missing), in the parsed colour with the configured opacity. */
  function ShadowOps(s: ShadowConfig, tx: int, ty: int): Option<seq<DrawOp>> {
    if !s.enabled then Some([])
    else
      match HexToRgb(s.color.GetOr(DefaultShadowColor))
      case None => None
      case Some(rgb) =>
        Some([DrawText(tx + s.offsetX.GetOr(2), ty + s.offsetY.GetOr(2), Color(rgb.0, rgb.1, rgb.2, s.opacity.GetOr(128)))])
  }

  /** The stroke draws, if the stroke is on: the ring of the configured width around the text origin, fully opaque. */
  function StrokeOps(s: StrokeConfig, tx: int, ty: int): Option<seq<DrawOp>> {
    if !s.enabled then Some([])
    else
      match HexToRgb(s.color.GetOr(DefaultStrokeHex))
      case None => None
      case Some(rgb) => Some(StrokeDraws(tx, ty, StrokeOffsets(s.width.GetOr(1)), Color(rgb.0, rgb.1, rgb.2, 255)))
  }

  /**
   * `text_img` once drawn, for a text whose bounding box measures `box`; `None` where
   * `hex_to_rgb` raises on the shadow or stroke colour.
   */
  function EffectsLayer(text: string, font: Font, box: (nat, nat), color: Color, e: Effects): Option<Layer> {
    var ew, eh := ExtraWidth(e), ExtraHeight(e);
    var tx, ty := ew * 2, eh * 2;
    var shadowOps := ShadowOps(e.shadow, tx, ty);
    var strokeOps := StrokeOps(e.stroke, tx, ty);
    if shadowOps.None? || strokeOps.None? then None
    else
      Some(Layer(box.0 + ew * 4, box.1 + eh * 4, text, font,
                 shadowOps.value + strokeOps.value + [DrawText(tx, ty, color)]))
  }

  lemma EffectsLayerOf(text: string, font: Font, box: (nat, nat), color: Color, e: Effects, a: seq<DrawOp>, b: seq<DrawOp>)
    requires ShadowOps(e.shadow, ExtraWidth(e) * 2, ExtraHeight(e) * 2) == Some(a)
    requires StrokeOps(e.stroke, ExtraWidth(e) * 2, ExtraHeight(e) * 2) == Some(b)
    ensures EffectsLayer(text, font, box, color, e)
      == Some(Layer(box.0 + ExtraWidth(e) * 4, box.1 + ExtraHeight(e) * 4, text, font,
                    a + b + [DrawText(ExtraWidth(e) * 2, ExtraHeight(e) * 2, color)]))
  {
  }

  /** Where the layer's top-left corner goes so that its text origin lands on `position`. */
  function PasteOrigin(position: (int, int), e: Effects): (int, int) {
    (position.0 - ExtraWidth(e) * 2, position.1 - ExtraHeight(e) * 2)
  }

  /**
   * The image `render_text_with_effects` returns for an image of mode `mode`. The copy is
   * not converted to RGBA, so the paste blends in the way that mode calls for.
   */
  function RenderSpec(mode: Mode, image: Raster, text: string, font: Font, box: (nat, nat), color: Color,
                      position: (int, int), e: Effects, rasterize: Layer -> Raster): Option<Raster>
    requires image.Valid() && RasterizesToSize(rasterize)
  {
    match EffectsLayer(text, font, box, color, e)
    case None => None
    case Some(layer) =>
      var origin := PasteOrigin(position, e);
      Some(PasteAt(mode, image, rasterize(layer), origin.0, origin.1))
  }

  lemma RenderSpecOf(mode: Mode, image: Raster, text: string, font: Font, box: (nat, nat), color: Color,
                     position: (int, int), e: Effects, rasterize: Layer -> Raster, layer: Layer)
    requires image.Valid() && RasterizesToSize(rasterize)
    requires EffectsLayer(text, font, box, color, e) == Some(layer)
    ensures layer.width >= 0 && layer.height >= 0
    ensures RenderSpec(mode, image, text, font, box, color, position, e, rasterize)
      == Some(PasteAt(mode, image, rasterize(layer), position.0 - ExtraWidth(e) * 2, position.1 - ExtraHeight(e) * 2))
  {
    ExtraIsLeastCover(e.shadow.enabled, e.shadow.offsetX, e.stroke);
    ExtraIsLeastCover(e.shadow.enabled, e.shadow.offsetY, e.stroke);
  }

  /**
   * The rendered image has the input's size, and keeps the input's mode: on an RGB or L
   * image no pixel's alpha changes, and a grey pixel of an L image stays grey.
   */
  lemma RenderKeepsMode(mode: Mode, image: Raster, text: string, font: Font, box: (nat, nat), color: Color,
                        position: (int, int), e: Effects, rasterize: Layer -> Raster, i: nat, j: nat)
    requires image.Valid() && RasterizesToSize(rasterize) && i < image.height && j < image.width
    requires RenderSpec(mode, image, text, font, box, color, position, e, rasterize).Some?
    ensures var r := RenderSpec(mode, image, text, font, box, color, position, e, rasterize).value;
      r.Valid() && r.width == image.width && r.height == image.height
      && (mode != RGBA ==> r.rows[i][j].a == image.rows[i][j].a)
      && (mode == L && Grey(image.rows[i][j]) ==> Grey(r.rows[i][j]))
  {
    var layer := EffectsLayer(text, font, box, color, e).value;
    var origin := PasteOrigin(position, e);
    PasteKeepsMode(mode, image, rasterize(layer), origin.0, origin.1, i, j);
  }

  /**
   * The layer is the text box plus four times the padding on each axis; the main text is
   * drawn last at twice the padding. With the shadow on, its draw comes first, at the offset (2 when
   * missing) from the text, with the configured opacity (128 when missing); with the
   * stroke on, (2w+1)² - 1 opaque draws follow. A layer is produced exactly when the
   * colours of the enabled effects parse.
   */
  lemma EffectsLayerShape(text: string, font: Font, box: (nat, nat), color: Color, e: Effects)
    requires e.stroke.enabled ==> e.stroke.width.GetOr(1) >= 0
    ensures var r := EffectsLayer(text, font, box, color, e);
      var ew, eh := ExtraWidth(e), ExtraHeight(e);
      var sw := e.stroke.width.GetOr(1);
      (r.Some? <==> (e.shadow.enabled ==> HexToRgb(e.shadow.color.GetOr(DefaultShadowColor)).Some?)
                    && (e.stroke.enabled ==> HexToRgb(e.stroke.color.GetOr(DefaultStrokeHex)).Some?))
      && (r.Some? ==>
        r.value.width == box.0 + 4 * ew && r.value.height == box.1 + 4 * eh
        && |r.value.ops| == (if e.shadow.enabled then 1 else 0)
                            + (if e.stroke.enabled then (2 * sw + 1) * (2 * sw + 1) - 1 else 0) + 1
        && r.value.ops[|r.value.ops| - 1] == DrawText(2 * ew, 2 * eh, color)
        && (e.shadow.enabled ==>
              r.value.ops[0].x == 2 * ew + e.shadow.offsetX.GetOr(2)
              && r.value.ops[0].y == 2 * eh + e.shadow.offsetY.GetOr(2)
              && r.value.ops[0].fill.a == e.shadow.opacity.GetOr(128))
        && (e.stroke.enabled ==> forall k :: (if e.shadow.enabled then 1 else 0) <= k < |r.value.ops| - 1 ==> r.value.ops[k].fill.a == 255))
  {
    var r := EffectsLayer(text, font, box, color, e);
    if r.Some? {
      var tx, ty := ExtraWidth(e) * 2, ExtraHeight(e) * 2;
      var sh := ShadowOps(e.shadow, tx, ty).value;
      var st := StrokeOps(e.stroke, tx, ty).value;
      assert r.value.ops == sh + st + [DrawText(tx, ty, color)];
      if e.stroke.enabled {
        var sw := e.stroke.width.GetOr(1);
        StrokeOffsetsCount(sw);
        var rgb := HexToRgb(e.stroke.color.GetOr(DefaultStrokeHex)).value;
        forall k | |sh| <= k < |r.value.ops| - 1
          ensures r.value.ops[k].fill.a == 255
        {
          assert r.value.ops[k] == st[k - |sh|];
          StrokeDrawsAt(tx, ty, StrokeOffsets(sw), Color(rgb.0, rgb.1, rgb.2, 255), k - |sh|);
        }
      }
    }
  }

  /**
   * Pasting at `PasteOrigin` puts the main text's origin exactly on `position`: the
   * canvas pixel at `position` lies under the layer pixel at the text origin whenever
   * the text box is not empty.
   */
  lemma TextLandsOnPosition(text: string, font: Font, box: (nat, nat), color: Color, e: Effects, position: (int, int))
    requires EffectsLayer(text, font, box, color, e).Some? && box.0 > 0 && box.1 > 0
    ensures var layer := EffectsLayer(text, font, box, color, e).value;
      var main := layer.ops[|layer.ops| - 1];
      var origin := PasteOrigin(position, e);
      origin.0 + main.x == position.0 && origin.1 + main.y == position.1
      && 0 <= main.x < layer.width && 0 <= main.y < layer.height
  {
    var ew, eh := ExtraWidth(e), ExtraHeight(e);
    ExtraIsLeastCover(e.shadow.enabled, e.shadow.offsetX, e.stroke);
    ExtraIsLeastCover(e.shadow.enabled, e.shadow.offsetY, e.stroke);
    var tx, ty := ew * 2, eh * 2;
    var layer := EffectsLayer(text, font, box, color, e).value;
    assert layer.ops == ShadowOps(e.shadow, tx, ty).value + StrokeOps(e.stroke, tx, ty).value + [DrawText(tx, ty, color)];
  }

  /**
   * When the shadow offsets are given, every draw leaves room for the whole text box
   * inside the layer: the shadow stays within the padding on both axes, and so does the
   * stroke ring.
   */
  lemma DrawsFit(text: string, font: Font, box: (nat, nat), color: Color, e: Effects)
    requires EffectsLayer(text, font, box, color, e).Some?
    requires e.shadow.enabled ==> e.shadow.offsetX.Some? && e.shadow.offsetY.Some?
    ensures var layer := EffectsLayer(text, font, box, color, e).value;
      forall op :: op in layer.ops ==>
        0 <= op.x <= layer.width - box.0 && 0 <= op.y <= layer.height - box.1
  {
    var ew, eh := ExtraWidth(e), ExtraHeight(e);
    ExtraIsLeastCover(e.shadow.enabled, e.shadow.offsetX, e.stroke);
    ExtraIsLeastCover(e.shadow.enabled, e.shadow.offsetY, e.stroke);
    var tx, ty := ew * 2, eh * 2;
    var layer := EffectsLayer(text, font, box, color, e).value;
    var sh := ShadowOps(e.shadow, tx, ty).value;
    var st := StrokeOps(e.stroke, tx, ty).value;
    assert layer.ops == sh + st + [DrawText(tx, ty, color)];
    if e.stroke.enabled {
      var sw := e.stroke.width.GetOr(1);
      var rgb := HexToRgb(e.stroke.color.GetOr(DefaultStrokeHex)).value;
      var offs := StrokeOffsets(sw);
      forall op | op in st
        ensures tx - ew <= op.x <= tx + ew && ty - eh <= op.y <= ty + eh
      {
        var k :| 0 <= k < |st| && st[k] == op;
        StrokeDrawsAt(tx, ty, offs, Color(rgb.0, rgb.1, rgb.2, 255), k);
        StrokeOffsetsMembers(sw, offs[k]);
      }
    }
  }

  /**
   * A shadow without offsets is padded as if its offset were 0 but drawn 2 px away: with
   * no stroke, the layer is exactly the text box and the shadow starts 2 px past the
   * room the text needs on each axis.
   */
  lemma MissingOffsetShadowOverflows(text: string, font: Font, box: (nat, nat), color: Color, e: Effects)
    requires e.shadow.enabled && e.shadow.offsetX.None? && e.shadow.offsetY.None? && !e.stroke.enabled
    requires HexToRgb(e.shadow.color.GetOr(DefaultShadowColor)).Some?
    ensures var r := EffectsLayer(text, font, box, color, e);
      r.Some? && r.value.width == box.0 && r.value.height == box.1
      && r.value.ops[0].x == r.value.width - box.0 + 2 && r.value.ops[0].y == r.value.height - box.1 + 2
  {
  }

  /**
   * `render_text_with_effects`. `measure` is `font.getbbox(text)` reduced to the box's
   * width and height; `rasterize` turns the drawn layer into pixels; `mode` is the image's
   * mode. The result is a new image; the input image is a value and stays as it was.
   */
  method RenderTextWithEffects(mode: Mode, image: Raster, text: string, font: Font, color: Color, position: (int, int),
                               e: Effects, measure: (Font, string) -> (nat, nat), rasterize: Layer -> Raster)
    returns (result: Option<Raster>)
    requires image.Valid() && RasterizesToSize(rasterize)
    ensures result == RenderSpec(mode, image, text, font, measure(font, text), color, position, e, rasterize)
  {
    var box := measure(font, text);
    var extraWidth, extraHeight := 0, 0;
    if e.shadow.enabled {
      extraWidth := Max(extraWidth, Abs(e.shadow.offsetX.GetOr(0)));
      extraHeight := Max(extraHeight, Abs(e.shadow.offsetY.GetOr(0)));
    }
    if e.stroke.enabled {
      var strokeWidth := e.stroke.width.GetOr(1);
      extraWidth := Max(extraWidth, strokeWidth);
      extraHeight := Max(extraHeight, strokeWidth);
    }
    assert extraWidth == ExtraWidth(e) && extraHeight == ExtraHeight(e);
    var textX, textY := extraWidth * 2, extraHeight * 2;
    var shadowOps := DrawShadow(e.shadow, textX, textY);
    if shadowOps.None? {
      assert EffectsLayer(text, font, box, color, e).None?;
      assert RenderSpec(mode, image, text, font, box, color, position, e, rasterize).None?;
      return None;
    }
    var strokeOps := DrawStrokeEffect(e.stroke, textX, textY);
    if strokeOps.None? {
      assert EffectsLayer(text, font, box, color, e).None?;
      assert RenderSpec(mode, image, text, font, box, color, position, e, rasterize).None?;
      return None;
    }
    var ops := shadowOps.value + strokeOps.value + [DrawText(textX, textY, color)];
    var layer := Layer(box.0 + extraWidth * 4, box.1 + extraHeight * 4, text, font, ops);
    EffectsLayerOf(text, font, box, color, e, shadowOps.value, strokeOps.value);
    RenderSpecOf(mode, image, text, font, box, color, position, e, rasterize, layer);
    var pasted := Paste(mode, image, rasterize(layer), position.0 - extraWidth * 2, position.1 - extraHeight * 2);
    assert pasted == PasteAt(mode, image, rasterize(layer), position.0 - ExtraWidth(e) * 2, position.1 - ExtraHeight(e) * 2);
    result := Some(pasted);
    assert result == RenderSpec(mode, image, text, font, box, color, position, e, rasterize);
  }

  /** The shadow's `draw.text` call, once its colour is parsed. */
  method DrawShadow(s: ShadowConfig, textX: int, textY: int) returns (ops: Option<seq<DrawOp>>)
    ensures ops == ShadowOps(s, textX, textY)
  {
    if !s.enabled {
      return Some([]);
    }
    var rgb := HexToRgb(s.color.GetOr(DefaultShadowColor));
    if rgb.None? {
      return None;
    }
    ops := Some([DrawText(textX + s.offsetX.GetOr(2), textY + s.offsetY.GetOr(2),
                          Color(rgb.value.0, rgb.value.1, rgb.value.2, s.opacity.GetOr(128)))]);
  }

  /** The stroke loops, once the stroke colour is parsed. */
  method DrawStrokeEffect(s: StrokeConfig, textX: int, textY: int) returns (ops: Option<seq<DrawOp>>)
    ensures ops == StrokeOps(s, textX, textY)
  {
    if !s.enabled {
      return Some([]);
    }
    var rgb := HexToRgb(s.color.GetOr(DefaultStrokeHex));
    if rgb.None? {
      return None;
    }
    var ring := DrawStroke(textX, textY, s.width.GetOr(1), Color(rgb.value.0, rgb.value.1, rgb.value.2, 255));
    ops := Some(ring);
  }
}
