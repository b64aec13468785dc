/**
 * Raster images as values, and Pillow's `paste(layer, (x, y), layer)` of an RGBA
 * layer: the layer is blended into the canvas through its own alpha channel,
 * clipped to the canvas, in the way the canvas's mode calls for.
 */
module Pixels {
  import opened Numbers

  /** An 8-bit channel value. */
  type Byte = x: int | 0 <= x < 256

  /**
   * An RGBA pixel. Images of mode RGB or L are kept in their RGBA expansion
   * (alpha 255, and r == g == b for L), so `convert('RGBA')` leaves the pixels as they are.
   */
  datatype Pixel = Pixel(r: Byte, g: Byte, b: Byte, a: Byte)

  /** A fill colour handed to Pillow's drawing calls: four integers, as the caller passed them. */
  datatype Color = Color(r: int, g: int, b: int, a: int)

  /** The modes a loaded image can have. */
  datatype Mode = RGBA | RGB | L

  /** The pixel of an L image: its three colour channels agree. */
  predicate Grey(p: Pixel) {
    p.r == p.g && p.g == p.b
  }

  /** A raster image: `height` rows of `width` pixels each. */
  datatype Raster = Raster(width: nat, height: nat, rows: seq<seq<Pixel>>) {
    predicate Valid() {
      |rows| == height && forall i :: 0 <= i < height ==> |rows[i]| == width
    }
  }

  /** One channel of `d` blended towards `s` by mask value `m` (0 keeps `d`, 255 gives `s`). */
  function Mix(d: Byte, s: Byte, m: Byte): (r: Byte)
  {
    MixRange(d, s, m);
    (s * m + d * (255 - m)) / 255
  }

  lemma MixRange(d: Byte, s: Byte, m: Byte)
    ensures 0 <= (s * m + d * (255 - m)) / 255 < 256
  {
    MulMono(s, 255, m);
    MulMono(d, 255, 255 - m);
    MulMono(0, s, m);
    MulMono(0, d, 255 - m);
  }

  /** A blended channel lies between the two channels it mixes. */
  lemma MixBetween(d: Byte, s: Byte, m: Byte)
    ensures Min(d, s) <= Mix(d, s, m) <= Max(d, s)
  {
    var lo, hi := Min(d, s), Max(d, s);
    MulMono(lo, s, m);
    MulMono(s, hi, m);
    MulMono(lo, d, 255 - m);
    MulMono(d, hi, 255 - m);
    assert lo * m + lo * (255 - m) == lo * 255;
    assert hi * m + hi * (255 - m) == hi * 255;
  }

  /** The canvas pixel `d` after pasting source pixel `s` with its own alpha as the mask. */
  function Over(d: Pixel, s: Pixel): Pixel {
    Pixel(Mix(d.r, s.r, s.a), Mix(d.g, s.g, s.a), Mix(d.b, s.b, s.a), Mix(d.a, s.a, s.a))
  }

  /** A fully transparent source pixel leaves the canvas as it was; a fully opaque one replaces it. */
  lemma OverExtremes(d: Pixel, s: Pixel)
    ensures s.a == 0 ==> Over(d, s) == d
    ensures s.a == 255 ==> Over(d, s) == s
  {
  }

  /**
   * The grey level Pillow's `convert('L')` gives a pixel: the ITU-R 601-2 luma
   * 299/1000 R + 587/1000 G + 114/1000 B in 16-bit fixed point, rounded.
   */
  function Luma(p: Pixel): (v: Byte)
  {
    LumaRange(p);
    (p.r * 19595 + p.g * 38470 + p.b * 7471 + 0x8000) / 0x10000
  }

  lemma LumaRange(p: Pixel)
    ensures 0 <= (p.r * 19595 + p.g * 38470 + p.b * 7471 + 0x8000) / 0x10000 < 256
  {
    MulMono(p.r, 255, 19595);
    MulMono(p.g, 255, 38470);
    MulMono(p.b, 255, 7471);
  }

  /**
   * The canvas pixel `d` after pasting the RGBA pixel `s` through its alpha into a canvas
   * of mode `mode`. An RGBA canvas blends all four bands. An RGB canvas blends the colour
   * bands only and stays opaque. An L canvas receives the layer converted to L first.
   */
  function Blend(mode: Mode, d: Pixel, s: Pixel): (r: Pixel)
  {
    match mode
    case RGBA => Over(d, s)
    case RGB => Pixel(Mix(d.r, s.r, s.a), Mix(d.g, s.g, s.a), Mix(d.b, s.b, s.a), d.a)
    case L =>
      var v := Mix(d.r, Luma(s), s.a);
      Pixel(v, v, v, d.a)
  }

  /**
   * A fully transparent source pixel leaves the canvas pixel as it was (a grey one, for L).
   * A fully opaque one replaces it: entirely on RGBA, in the colour bands on RGB, and by its
   * grey level on L. Only an RGBA canvas changes its alpha, and an L canvas stays grey.
   */
  lemma BlendExtremes(mode: Mode, d: Pixel, s: Pixel)
    ensures s.a == 0 && (mode == L ==> Grey(d)) ==> Blend(mode, d, s) == d
    ensures s.a == 255 && mode == RGBA ==> Blend(mode, d, s) == s
    ensures s.a == 255 && mode == RGB ==> Blend(mode, d, s) == s.(a := d.a)
    ensures s.a == 255 && mode == L ==> Blend(mode, d, s) == Pixel(Luma(s), Luma(s), Luma(s), d.a)
    ensures mode != RGBA ==> Blend(mode, d, s).a == d.a
    ensures mode == L ==> Grey(Blend(mode, d, s))
  {
    match mode
    case RGBA => OverExtremes(d, s);
    case RGB => MixEnds(d.r, s.r, s.a); MixEnds(d.g, s.g, s.a); MixEnds(d.b, s.b, s.a);
    case L => MixEnds(d.r, Luma(s), s.a);
  }

  /** Mask 0 keeps the canvas channel and mask 255 gives the source channel. */
  lemma MixEnds(d: Byte, s: Byte, m: Byte)
    ensures m == 0 ==> Mix(d, s, m) == d
    ensures m == 255 ==> Mix(d, s, m) == s
  {
  }

  /** Row `i`, column `j` of the canvas lies under the layer placed with its top-left corner at (x, y). */
  predicate Covers(layer: Raster, x: int, y: int, i: int, j: int) {
    y <= i < y + layer.height && x <= j < x + layer.width
  }

  /** The canvas pixel at (i, j) once the layer is pasted at (x, y). */
  function PastedPixel(mode: Mode, canvas: Raster, layer: Raster, x: int, y: int, i: nat, j: nat): Pixel
    requires canvas.Valid() && layer.Valid() && i < canvas.height && j < canvas.width
  {
    if Covers(layer, x, y, i, j) then Blend(mode, canvas.rows[i][j], layer.rows[i - y][j - x])
    else canvas.rows[i][j]
  }

  /**
   * `canvas.paste(layer, (x, y), layer)`: every canvas pixel under the layer is
   * blended with the layer pixel above it; the rest of the canvas, and every part
   * of the layer that falls outside the canvas, is ignored. The position is not clamped.
   */
  function PasteAt(mode: Mode, canvas: Raster, layer: Raster, x: int, y: int): (r: Raster)
    requires canvas.Valid() && layer.Valid()
    ensures r.Valid() && r.width == canvas.width && r.height == canvas.height
  {
    Raster(canvas.width, canvas.height,
      seq(canvas.height, i requires 0 <= i < canvas.height =>
        seq(canvas.width, j requires 0 <= j < canvas.width => PastedPixel(mode, canvas, layer, x, y, i, j))))
  }

  /**
   * Pasting changes nothing outside the layer's rectangle. Inside it each canvas pixel is
   * blended with the layer pixel above it: a transparent one keeps the canvas pixel, an
   * opaque one replaces it as the canvas's mode allows.
   */
  lemma PasteEffect(mode: Mode, canvas: Raster, layer: Raster, x: int, y: int, i: nat, j: nat)
    requires canvas.Valid() && layer.Valid() && i < canvas.height && j < canvas.width
    ensures !Covers(layer, x, y, i, j) ==> PasteAt(mode, canvas, layer, x, y).rows[i][j] == canvas.rows[i][j]
    ensures Covers(layer, x, y, i, j) ==>
      PasteAt(mode, canvas, layer, x, y).rows[i][j] == Blend(mode, canvas.rows[i][j], layer.rows[i - y][j - x])
    ensures Covers(layer, x, y, i, j) && layer.rows[i - y][j - x].a == 0 && (mode == L ==> Grey(canvas.rows[i][j])) ==>
      PasteAt(mode, canvas, layer, x, y).rows[i][j] == canvas.rows[i][j]
    ensures Covers(layer, x, y, i, j) && layer.rows[i - y][j - x].a == 255 && mode == RGBA ==>
      PasteAt(mode, canvas, layer, x, y).rows[i][j] == layer.rows[i - y][j - x]
  {
    PasteAtPixel(mode, canvas, layer, x, y, i, j);
    if Covers(layer, x, y, i, j) {
      BlendExtremes(mode, canvas.rows[i][j], layer.rows[i - y][j - x]);
    }
  }

  /** An RGB or L canvas keeps its alpha everywhere, and an L canvas whose pixels are grey stays grey. */
  lemma PasteKeepsMode(mode: Mode, canvas: Raster, layer: Raster, x: int, y: int, i: nat, j: nat)
    requires canvas.Valid() && layer.Valid() && i < canvas.height && j < canvas.width
    ensures mode != RGBA ==> PasteAt(mode, canvas, layer, x, y).rows[i][j].a == canvas.rows[i][j].a
    ensures mode == L && Grey(canvas.rows[i][j]) ==> Grey(PasteAt(mode, canvas, layer, x, y).rows[i][j])
  {
    PasteAtPixel(mode, canvas, layer, x, y, i, j);
    if Covers(layer, x, y, i, j) {
      BlendExtremes(mode, canvas.rows[i][j], layer.rows[i - y][j - x]);
    }
  }

  lemma PasteAtPixel(mode: Mode, canvas: Raster, layer: Raster, x: int, y: int, i: nat, j: nat)
    requires canvas.Valid() && layer.Valid() && i < canvas.height && j < canvas.width
    ensures PasteAt(mode, canvas, layer, x, y).rows[i][j] == PastedPixel(mode, canvas, layer, x, y, i, j)
  {
  }

  /**
   * The paste as Pillow performs it on a copy of the canvas: only the rows and
   * columns where canvas and layer overlap are visited, each pixel blended in place.
   */
  method Paste(mode: Mode, canvas: Raster, layer: Raster, x: int, y: int) returns (result: Raster)
    requires canvas.Valid() && layer.Valid()
    ensures result == PasteAt(mode, canvas, layer, x, y)
  {
    var top, bottom := Max(0, y), Min(canvas.height, y + layer.height);
    var left, right := Max(0, x), Min(canvas.width, x + layer.width);
    var rows := canvas.rows;
    var i := top;
    while i < bottom
      invariant top <= i
      invariant |rows| == canvas.height
      invariant forall k :: 0 <= k < canvas.height ==> |rows[k]| == canvas.width
      invariant forall k, c :: 0 <= k < canvas.height && 0 <= c < canvas.width ==>
        rows[k][c] == (if k < i then PastedPixel(mode, canvas, layer, x, y, k, c) else canvas.rows[k][c])
    {
      var row := rows[i];
      var j := left;
      while j < right
        invariant left <= j
        invariant |row| == canvas.width
        invariant forall c :: 0 <= c < canvas.width ==>
          row[c] == (if c < j then PastedPixel(mode, canvas, layer, x, y, i, c) else canvas.rows[i][c])
      {
        row := row[j := Blend(mode, row[j], layer.rows[i - y][j - x])];
        j := j + 1;
      }
      rows := rows[i := row];
      i := i + 1;
    }
    result := Raster(canvas.width, canvas.height, rows);
    forall k | 0 <= k < canvas.height
      ensures rows[k] == PasteAt(mode, canvas, layer, x, y).rows[k]
    {
    }
  }
}
