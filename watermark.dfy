/**
 * The rest of `WatermarkProcessor` in core/watermark.py: image watermarks,
 * rotation, applying a layer to a base image, and the batch loop. Pillow's
 * decoding, LANCZOS resampling, non-zero rotation and glyph drawing are
 * parameters whose contracts cover sizes only.
 */
module Watermark {
  import opened Wrappers
  import opened Pixels
  import opened Placement
  import opened TextLayer
  import opened Numbers

  /** `int(size * scale_percent / 100)`: one scaled dimension. */
  function ScaledDimension(size: int, percent: real): int {
    Trunc(size as real * percent / 100.0)
  }

  /** The value `alpha.point(lambda p: int(p * opacity / 255))` stores: the quotient, clipped into a byte. */
  function ScaledAlpha(a: Byte, opacity: int): (r: Byte) {
    var q := TruncDiv(a * opacity, 255);
    if q < 0 then 0 else if q > 255 then 255 else q
  }

  /** An opacity of 255 keeps every alpha, 0 or less clears it, and any opacity up to 255 never raises it. */
  lemma ScaledAlphaBounds(a: Byte, opacity: int)
    ensures opacity == 255 ==> ScaledAlpha(a, opacity) == a
    ensures opacity <= 0 ==> ScaledAlpha(a, opacity) == 0
    ensures opacity <= 255 ==> ScaledAlpha(a, opacity) <= a
  {
    if 0 < opacity <= 255 {
      MulMono(opacity, 255, a);
    } else if opacity <= 0 {
      MulMono(opacity, 0, a);
    }
  }

  /** A larger opacity never gives a smaller alpha. */
  lemma {:induction false} ScaledAlphaMonotone(a: Byte, o1: int, o2: int)
    requires o1 <= o2
    ensures ScaledAlpha(a, o1) <= ScaledAlpha(a, o2)
  {
    MulMono(o1, o2, a);
    assert a * o1 <= a * o2;
    DivMono(a * o1, a * o2);
  }

  lemma DivMono(x: int, y: int)
    requires x <= y
    ensures TruncDiv(x, 255) <= TruncDiv(y, 255)
  {
    if x < 0 && y >= 0 {
    } else if x < 0 {
      assert (-y) / 255 <= (-x) / 255;
    }
  }

  /** A pixel with its alpha replaced as `putalpha` does; colour channels are untouched. */
  function FadePixel(p: Pixel, opacity: int): Pixel {
    p.(a := ScaledAlpha(p.a, opacity))
  }

  /** The whole image with its alpha band rewritten. */
  function Faded(img: Raster, opacity: int): (r: Raster)
    requires img.Valid()
    ensures r.Valid() && r.width == img.width && r.height == img.height
  {
    Raster(img.width, img.height,
      seq(img.height, i requires 0 <= i < img.height =>
        seq(img.width, j requires 0 <= j < img.width => FadePixel(img.rows[i][j], opacity))))
  }

  /** The alpha band rewrite, row by row and pixel by pixel. */
  method FadeAlpha(img: Raster, opacity: int) returns (result: Raster)
    requires img.Valid()
    ensures result == Faded(img, opacity)
  {
    var rows: seq<seq<Pixel>> := [];
    var i := 0;
    while i < img.height
      invariant 0 <= i <= img.height
      invariant |rows| == i
      invariant forall k :: 0 <= k < i ==> rows[k] == Faded(img, opacity).rows[k]
    {
      var row: seq<Pixel> := [];
      var j := 0;
      while j < img.width
        invariant 0 <= j <= img.width
        invariant |row| == j
        invariant forall c :: 0 <= c < j ==> row[c] == FadePixel(img.rows[i][c], opacity)
      {
        row := row + [FadePixel(img.rows[i][j], opacity)];
        j := j + 1;
      }
      rows := rows + [row];
      i := i + 1;
    }
    result := Raster(img.width, img.height, rows);
  }

  /** A resampler gives a raster of exactly the requested size. */
  ghost predicate ResamplesToSize(resample: (Raster, nat, nat) -> Raster) {
    forall img: Raster, w: nat, h: nat :: img.Valid() ==>
      resample(img, w, h).Valid() && resample(img, w, h).width == w && resample(img, w, h).height == h
  }

  /** A rotation gives a well-formed raster, of whatever size the expansion needs. */
  ghost predicate RotatesSoundly(rotate: (Raster, real) -> Raster) {
    forall img: Raster, angle: real :: img.Valid() ==> rotate(img, angle).Valid()
  }

  /** What the decodable files hold, already converted to RGBA. */
  ghost predicate FilesSound(files: map<string, Raster>) {
    forall path :: path in files ==> files[path].Valid()
  }

  /**
   * `create_image_watermark`: `None` when the file does not open, or when scaling asks
   * for a dimension below 1, where `resize` raises. Scaling happens only for a percentage
   * other than 100, the alpha rewrite only for an opacity below 255.
   */
  function ImageWatermarkSpec(path: string, scalePercent: real, opacity: int,
                              files: map<string, Raster>, resample: (Raster, nat, nat) -> Raster): Option<Raster>
  {
    if path !in files then None
    else
      var img := files[path];
      var w := ScaledDimension(img.width, scalePercent);
      var h := ScaledDimension(img.height, scalePercent);
      if scalePercent != 100.0 && (w < 1 || h < 1) then None
      else
        var scaled := if scalePercent != 100.0 then resample(img, w, h) else img;
        if opacity < 255 && scaled.Valid() then Some(Faded(scaled, opacity)) else Some(scaled)
  }

  /**
   * The image watermark has the decoded size at 100 percent and (int(w·p/100), int(h·p/100))
   * otherwise; from an opacity of 255 up its pixels are the resampled ones, below that each
   * alpha becomes the scaled one and colours are kept.
   */
  lemma ImageWatermarkShape(path: string, p: real, opacity: int, files: map<string, Raster>,
                            resample: (Raster, nat, nat) -> Raster)
    requires FilesSound(files) && ResamplesToSize(resample)
    ensures var r := ImageWatermarkSpec(path, p, opacity, files, resample);
      (r.Some? <==>
        (path in files && (p == 100.0 ||
          (ScaledDimension(files[path].width, p) >= 1 && ScaledDimension(files[path].height, p) >= 1))))
      && (r.Some? ==>
        (r.value.Valid()
         && r.value.width == (if p == 100.0 then files[path].width else ScaledDimension(files[path].width, p))
         && r.value.height == (if p == 100.0 then files[path].height else ScaledDimension(files[path].height, p))))
      && (r.Some? && p == 100.0 && opacity >= 255 ==> r.value == files[path])
  {
  }

  /** Below full opacity every pixel keeps its colour and gets the scaled alpha, never a larger one. */
  lemma FadedPixels(img: Raster, opacity: int, i: nat, j: nat)
    requires img.Valid() && i < img.height && j < img.width
    ensures var p := Faded(img, opacity).rows[i][j];
      var q := img.rows[i][j];
      p.r == q.r && p.g == q.g && p.b == q.b && p.a == ScaledAlpha(q.a, opacity)
      && (opacity <= 255 ==> p.a <= q.a)
      && (opacity <= 0 ==> p.a == 0)
  {
    ScaledAlphaBounds(img.rows[i][j].a, opacity);
  }

  method CreateImageWatermark(path: string, scalePercent: real, opacity: int,
                              files: map<string, Raster>, resample: (Raster, nat, nat) -> Raster)
    returns (mark: Option<Raster>)
    requires FilesSound(files) && ResamplesToSize(resample)
    ensures mark == ImageWatermarkSpec(path, scalePercent, opacity, files, resample)
  {
    if path !in files {
      return None;
    }
    var img := files[path];
    if scalePercent != 100.0 {
      var w := ScaledDimension(img.width, scalePercent);
      var h := ScaledDimension(img.height, scalePercent);
      if w < 1 || h < 1 {
        return None;
      }
      img := resample(img, w, h);
    }
    if opacity < 255 {
      img := FadeAlpha(img, opacity);
    }
    mark := Some(img);
  }

  /** `rotate_watermark`: an angle of 0 returns the layer itself; any other angle goes to Pillow's `rotate(expand=True)`. */
  function RotateWatermark(mark: Raster, angle: real, rotate: (Raster, real) -> Raster): (r: Raster)
    requires mark.Valid() && RotatesSoundly(rotate)
    ensures r.Valid()
    ensures angle == 0.0 ==> r == mark
  {
    if angle == 0.0 then mark else rotate(mark, angle)
  }

  /** The layer `apply_watermark` pastes: the watermark rotated when the angle is not 0. */
  function PastedLayer(mark: Raster, rotation: real, rotate: (Raster, real) -> Raster): (r: Raster)
    requires mark.Valid() && RotatesSoundly(rotate)
    ensures r.Valid()
  {
    if rotation != 0.0 then RotateWatermark(mark, rotation, rotate) else mark
  }

  /** Where `apply_watermark` puts the top-left corner of that layer. */
  function PastedAt(base: Raster, layer: Raster, position: PositionKey, customPos: Option<Point>, margin: Option<int>): Point {
    CalculatePosition(Size(base.width, base.height), Size(layer.width, layer.height), position, customPos, margin)
  }

  /** The image `apply_watermark` returns: the possibly rotated layer pasted onto a copy of the base at the computed position. */
  function Applied(base: Raster, mark: Raster, position: PositionKey, customPos: Option<Point>,
                   margin: Option<int>, rotation: real, rotate: (Raster, real) -> Raster): (r: Raster)
    requires base.Valid() && mark.Valid() && RotatesSoundly(rotate)
    ensures r.Valid() && r.width == base.width && r.height == base.height
  {
    var layer := PastedLayer(mark, rotation, rotate);
    var at := PastedAt(base, layer, position, customPos, margin);
    PasteAt(RGBA, base, layer, at.x, at.y)
  }

  /**
   * For any position, angle and rotation: outside the pasted layer's rectangle the result
   * is the base; under it, a fully transparent layer pixel leaves the base pixel and a fully
   * opaque one replaces it, and every other pixel is the blend of the two.
   */
  lemma AppliedKeepsBaseOutsideLayer(base: Raster, mark: Raster, position: PositionKey, customPos: Option<Point>,
                                     margin: Option<int>, rotation: real, rotate: (Raster, real) -> Raster, i: nat, j: nat)
    requires base.Valid() && mark.Valid() && RotatesSoundly(rotate) && i < base.height && j < base.width
    ensures var layer := PastedLayer(mark, rotation, rotate);
      var at := PastedAt(base, layer, position, customPos, margin);
      var r := Applied(base, mark, position, customPos, margin, rotation, rotate);
      (!Covers(layer, at.x, at.y, i, j) ==> r.rows[i][j] == base.rows[i][j])
      && (Covers(layer, at.x, at.y, i, j) ==> r.rows[i][j] == Over(base.rows[i][j], layer.rows[i - at.y][j - at.x]))
      && (Covers(layer, at.x, at.y, i, j) && layer.rows[i - at.y][j - at.x].a == 0 ==> r.rows[i][j] == base.rows[i][j])
      && (Covers(layer, at.x, at.y, i, j) && layer.rows[i - at.y][j - at.x].a == 255 ==> r.rows[i][j] == layer.rows[i - at.y][j - at.x])
  {
    var layer := PastedLayer(mark, rotation, rotate);
    var at := PastedAt(base, layer, position, customPos, margin);
    PasteEffect(RGBA, base, layer, at.x, at.y, i, j);
  }

  /** `apply_watermark`: works on a copy of the base (a value here), so the caller's base is never changed. */
  method ApplyWatermark(base: Raster, mark: Raster, position: PositionKey, customPos: Option<Point>,
                        margin: Option<int>, rotation: real, rotate: (Raster, real) -> Raster)
    returns (result: Raster)
    requires base.Valid() && mark.Valid() && RotatesSoundly(rotate)
    ensures result == Applied(base, mark, position, customPos, margin, rotation, rotate)
    ensures result.width == base.width && result.height == base.height
  {
    var layer := mark;
    if rotation != 0.0 {
      layer := RotateWatermark(mark, rotation, rotate);
    }
    var at := CalculatePosition(Size(base.width, base.height), Size(layer.width, layer.height), position, customPos, margin);
    result := Paste(RGBA, base, layer, at.x, at.y);
  }

  /**
   * The watermark settings a batch reads, each holding what `watermark_config.get(key, default)`
   * returns; `None` in `kind`, `text` or `imagePath` is a missing key, which raises.
   */
  datatype Config = Config(
    kind: Option<string>,
    text: Option<string>,
    fontName: Option<string>,
    fontSize: Option<int>,
    color: Option<Color>,
    bold: bool,
    italic: bool,
    shadow: bool,
    stroke: bool,
    strokeWidth: int,
    strokeColor: Option<Color>,
    imagePath: Option<string>,
    scalePercent: real,
    opacity: int,
    position: string,
    customPos: Option<Point>,
    margin: Option<int>,
    rotation: real)

  /** One input of the batch: its name and its 'image' entry (`None` for a missing key). */
  datatype Item = Item(name: string, image: Option<Raster>)

  /** One output: a copy of the input's entries plus 'watermarked_image'. */
  datatype Output = Output(item: Item, watermarked: Raster)

  /** The Pillow side of a batch: fonts, text measuring and drawing, decodable files, resampling, rotation. */
  datatype Pillow = Pillow(
    loadable: set<string>,
    measure: (Font, string) -> (nat, nat),
    rasterize: Layer -> Raster,
    files: map<string, Raster>,
    resample: (Raster, nat, nat) -> Raster,
    rotate: (Raster, real) -> Raster)

  ghost predicate Sound(env: Pillow) {
    RasterizesToSize(env.rasterize) && FilesSound(env.files)
    && ResamplesToSize(env.resample) && RotatesSoundly(env.rotate)
  }

  /** The watermark layer the configuration asks for; `None` for an unknown type, a missing key or a failed build. */
  function MarkFor(config: Config, env: Pillow): (r: Option<Raster>)
    requires Sound(env)
    ensures r.Some? ==> r.value.Valid()
  {
    if config.kind == Some("text") then
      if config.text.None? then None
      else
        var font := GetFont(config.fontName, config.fontSize, env.loadable);
        var layer := TextLayerSpec(config.text.value, font, env.measure(font, config.text.value),
                                   config.color.GetOr(DefaultFontColor), config.shadow, config.stroke,
                                   config.strokeWidth, config.strokeColor.GetOr(DefaultStrokeColor));
        if layer.None? then None else Some(env.rasterize(layer.value))
    else if config.kind == Some("image") then
      if config.imagePath.None? then None
      else ImageWatermarkSpec(config.imagePath.value, config.scalePercent, config.opacity, env.files, env.resample)
    else None
  }

  /** What one iteration of the batch loop produces; `None` when the item is skipped. */
  function ProcessItem(item: Item, config: Config, env: Pillow): Option<Raster>
    requires Sound(env)
    requires item.image.Some? ==> item.image.value.Valid()
  {
    if item.image.None? || config.kind.None? then None
    else
      match MarkFor(config, env)
      case None => None
      case Some(mark) =>
        match FromValue(config.position)
        case None => None
        case Some(p) =>
          Some(Applied(item.image.value, mark, Member(p), config.customPos, config.margin, config.rotation, env.rotate))
  }

  ghost predicate ItemsValid(items: seq<Item>) {
    forall k :: 0 <= k < |items| ==> items[k].image.Some? ==> items[k].image.value.Valid()
  }

  /** `batch_apply_watermark`: the successful items, in input order, each with its result. */
  function BatchSpec(items: seq<Item>, config: Config, env: Pillow): seq<Output>
    requires Sound(env) && ItemsValid(items)
  {
    if items == [] then []
    else
      var last := items[|items| - 1];
      BatchSpec(items[..|items| - 1], config, env)
        + match ProcessItem(last, config, env)
          case None => []
          case Some(r) => [Output(last, r)]
  }

  /** The input positions whose item succeeds, in increasing order. */
  function Successes(items: seq<Item>, config: Config, env: Pillow): seq<nat>
    requires Sound(env) && ItemsValid(items)
  {
    if items == [] then []
    else
      Successes(items[..|items| - 1], config, env)
        + if ProcessItem(items[|items| - 1], config, env).Some? then [|items| - 1] else []
  }

  /**
   * The batch output is the successful inputs, in input order, each paired with its own
   * result: output j belongs to input `Successes[j]`, those positions increase, and a
   * position is among them exactly when that input succeeds on its own.
   */
  lemma {:induction false} BatchIsOrderedFilter(items: seq<Item>, config: Config, env: Pillow)
    requires Sound(env) && ItemsValid(items)
    ensures var out := BatchSpec(items, config, env);
      var idx := Successes(items, config, env);
      |out| == |idx| <= |items|
      && (forall j :: 0 <= j < |idx| ==> idx[j] < |items|)
      && (forall j, j' :: 0 <= j < j' < |idx| ==> idx[j] < idx[j'])
      && (forall j :: 0 <= j < |idx| ==>
            (ProcessItem(items[idx[j]], config, env).Some?
             && out[j] == Output(items[idx[j]], ProcessItem(items[idx[j]], config, env).value)))
      && (forall k :: 0 <= k < |items| ==> (k in idx <==> ProcessItem(items[k], config, env).Some?))
  {
    SuccessPositions(items, config, env);
    BatchOutputs(items, config, env);
  }

  /** The success positions are in range, increasing, and exactly those of the inputs that succeed. */
  lemma {:induction false} SuccessPositions(items: seq<Item>, config: Config, env: Pillow)
    requires Sound(env) && ItemsValid(items)
    ensures var idx := Successes(items, config, env);
      |idx| <= |items|
      && (forall j :: 0 <= j < |idx| ==> idx[j] < |items|)
      && (forall j, j' :: 0 <= j < j' < |idx| ==> idx[j] < idx[j'])
      && (forall k :: 0 <= k < |items| ==> (k in idx <==> ProcessItem(items[k], config, env).Some?))
  {
    if items != [] {
      var n := |items| - 1;
      var init := items[..n];
      InitValid(items);
      SuccessPositions(init, config, env);
      var idx := Successes(items, config, env);
      var idx0 := Successes(init, config, env);
      forall k | 0 <= k < n ensures (k in idx <==> ProcessItem(items[k], config, env).Some?) {
        assert init[k] == items[k];
      }
    }
  }

  /** Output j is the result of input `Successes[j]`, which succeeds. */
  lemma {:induction false} BatchOutputs(items: seq<Item>, config: Config, env: Pillow)
    requires Sound(env) && ItemsValid(items)
    ensures var out := BatchSpec(items, config, env);
      var idx := Successes(items, config, env);
      |out| == |idx|
      && (forall j :: 0 <= j < |idx| ==>
            (idx[j] < |items| && ProcessItem(items[idx[j]], config, env).Some?
             && out[j] == Output(items[idx[j]], ProcessItem(items[idx[j]], config, env).value)))
  {
    if items != [] {
      var n := |items| - 1;
      var init := items[..n];
      InitValid(items);
      BatchOutputs(init, config, env);
      var idx0 := Successes(init, config, env);
      forall j | 0 <= j < |idx0| ensures items[idx0[j]] == init[idx0[j]] { }
    }
  }

  /** Dropping the last item keeps the items valid. */
  lemma InitValid(items: seq<Item>)
    requires items != [] && ItemsValid(items)
    ensures ItemsValid(items[..|items| - 1])
  {
    var init := items[..|items| - 1];
    forall k | 0 <= k < |init| ensures init[k] == items[k] { }
  }

  /** Every output has the size of the base image it was made from. */
  lemma {:induction false} BatchKeepsSizes(items: seq<Item>, config: Config, env: Pillow)
    requires Sound(env) && ItemsValid(items)
    ensures forall o :: o in BatchSpec(items, config, env) ==>
      o.item.image.Some? && o.watermarked.width == o.item.image.value.width
      && o.watermarked.height == o.item.image.value.height
  {
    if items != [] {
      var init := items[..|items| - 1];
      assert ItemsValid(init) by {
        forall k | 0 <= k < |init| ensures init[k] == items[k] { }
      }
      BatchKeepsSizes(init, config, env);
    }
  }

  /** An unknown type, a missing image, or a position string the enum rejects yields no output at all. */
  lemma BatchSkipsAll(items: seq<Item>, config: Config, env: Pillow)
    requires Sound(env) && ItemsValid(items)
    requires (config.kind != Some("text") && config.kind != Some("image"))
          || (config.kind == Some("image") && config.imagePath.Some? && config.imagePath.value !in env.files)
          || FromValue(config.position).None?
    ensures BatchSpec(items, config, env) == []
  {
    BatchIsOrderedFilter(items, config, env);
    forall k | 0 <= k < |items| ensures ProcessItem(items[k], config, env).None? { }
  }

  /** One iteration of the loop body, built from the layer constructors and `apply_watermark`. */
  method ProcessOne(item: Item, config: Config, env: Pillow) returns (r: Option<Raster>)
    requires Sound(env)
    requires item.image.Some? ==> item.image.value.Valid()
    ensures r == ProcessItem(item, config, env)
  {
    if item.image.None? || config.kind.None? {
      return None;
    }
    var mark: Option<Raster>;
    if config.kind == Some("text") {
      if config.text.None? {
        return None;
      }
      var layer := CreateTextWatermark(config.text.value, config.fontName, config.fontSize, config.color,
                                       config.bold, config.italic, config.shadow, config.stroke,
                                       config.strokeWidth, config.strokeColor, env.loadable, env.measure);
      if layer.None? {
        return None;
      }
      mark := Some(env.rasterize(layer.value));
    } else if config.kind == Some("image") {
      if config.imagePath.None? {
        return None;
      }
      mark := CreateImageWatermark(config.imagePath.value, config.scalePercent, config.opacity, env.files, env.resample);
    } else {
      return None;
    }
    assert mark == MarkFor(config, env);
    if mark.None? {
      return None;
    }
    var position := FromValue(config.position);
    if position.None? {
      return None;
    }
    var result := ApplyWatermark(item.image.value, mark.value, Member(position.value), config.customPos,
                                 config.margin, config.rotation, env.rotate);
    r := Some(result);
  }

  /** `batch_apply_watermark`: one pass over the items, appending each success. */
  method BatchApplyWatermark(items: seq<Item>, config: Config, env: Pillow) returns (results: seq<Output>)
    requires Sound(env) && ItemsValid(items)
    ensures results == BatchSpec(items, config, env)
  {
    results := [];
    var k := 0;
    while k < |items|
      invariant 0 <= k <= |items|
      invariant ItemsValid(items[..k])
      invariant results == BatchSpec(items[..k], config, env)
    {
      var r := ProcessOne(items[k], config, env);
      assert items[..k + 1][..k] == items[..k];
      if r.Some? {
        results := results + [Output(items[k], r.value)];
      }
      k := k + 1;
    }
    assert items[..k] == items;
  }
}
