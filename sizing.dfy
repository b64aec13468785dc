/**
 * The size rule shared by `WatermarkScaler` (utils/watermark_scaling.py) and
 * `ImageResizer` (utils/image_resize.py). Both `calculate_*size` and the
 * `scale_watermark`/`resize_image` pair repeat the same four-mode branches line for
 * line, so one definition serves all four.
 */
module Sizing {
  import opened Wrappers
  import opened Numbers
  import opened Pixels
  import Watermark

  /** The mode names the configuration dialogs store. */
  const ByPercent: string := "\U{6309}\U{767E}\U{5206}\U{6BD4}"
  const ByWidth: string := "\U{6309}\U{5BBD}\U{5EA6}"
  const ByHeight: string := "\U{6309}\U{9AD8}\U{5EA6}"

  /** A scaling or resize configuration dictionary; `None` is a missing key. */
  datatype ScaleConfig = ScaleConfig(
    enabled: Option<bool>,
    mode: Option<string>,
    keepAspectRatio: Option<bool>,
    scalePercent: Option<int>,
    targetWidth: Option<int>,
    targetHeight: Option<int>)

  /** The dimension before the `max(1, ·)` floor: `None` is the `ZeroDivisionError` of keeping the ratio of a zero-sized side. */
  function RawSize(w: nat, h: nat, config: ScaleConfig): Option<(int, int)> {
    var mode := config.mode.GetOr(ByPercent);
    var keep := config.keepAspectRatio.GetOr(true);
    if mode == ByPercent then
      var p := config.scalePercent.GetOr(100);
      Some((TruncDiv(w * p, 100), TruncDiv(h * p, 100)))
    else if mode == ByWidth then
      var tw := config.targetWidth.GetOr(w);
      if !keep then Some((tw, h))
      else if w == 0 then None
      else Some((tw, TruncDiv(tw * h, w)))
    else if mode == ByHeight then
      var th := config.targetHeight.GetOr(h);
      if !keep then Some((w, th))
      else if h == 0 then None
      else Some((TruncDiv(th * w, h), th))
    else
      Some((config.targetWidth.GetOr(w), config.targetHeight.GetOr(h)))
  }

  /**
   * `calculate_scaled_size` / `calculate_size`: the original size when scaling is not
   * enabled (a missing key counts as disabled), otherwise the mode's size with each
   * side raised to at least 1.
   */
  function CalculateSize(original: (nat, nat), config: ScaleConfig): Option<(int, int)> {
    if !config.enabled.GetOr(false) then Some((original.0 as int, original.1 as int))
    else
      match RawSize(original.0, original.1, config)
      case None => None
      case Some(d) => Some((Max(1, d.0), Max(1, d.1)))
  }

  /**
   * An enabled configuration gives two sides of at least 1, and fails only when it keeps
   * the ratio of a side that is zero; a disabled one keeps the size.
   */
  lemma SizeAtLeastOne(original: (nat, nat), config: ScaleConfig)
    ensures var r := CalculateSize(original, config);
      (!config.enabled.GetOr(false) ==> r == Some((original.0 as int, original.1 as int)))
      && (config.enabled.GetOr(false) && r.Some? ==> r.value.0 >= 1 && r.value.1 >= 1)
      && (r.None? <==>
            config.enabled.GetOr(false) && config.keepAspectRatio.GetOr(true)
            && ((config.mode.GetOr(ByPercent) == ByWidth && original.0 == 0)
                || (config.mode.GetOr(ByPercent) == ByHeight && original.1 == 0)))
  {
  }

  /** `int(a / b)` for a non-negative quotient is the largest `q` with `q * b <= a`. */
  lemma TruncDivIsFloor(a: nat, b: int)
    requires b > 0
    ensures TruncDiv(a, b) * b <= a < (TruncDiv(a, b) + 1) * b
  {
  }

  /**
   * In percent mode (the default mode, with 100 the default percentage) each side is the
   * largest whole number not above `p` percent of the original, floored at 1.
   */
  lemma PercentSize(original: (nat, nat), config: ScaleConfig)
    requires config.enabled.GetOr(false) && config.mode.GetOr(ByPercent) == ByPercent
    requires config.scalePercent.GetOr(100) >= 0
    ensures var p := config.scalePercent.GetOr(100);
      var r := CalculateSize(original, config);
      r.Some?
      && (r.value.0 == 1 || r.value.0 * 100 <= original.0 * p < (r.value.0 + 1) * 100)
      && (r.value.1 == 1 || r.value.1 * 100 <= original.1 * p < (r.value.1 + 1) * 100)
      && r.value.0 >= 1 && r.value.1 >= 1
  {
    var p := config.scalePercent.GetOr(100);
    TruncDivIsFloor(original.0 * p, 100);
    TruncDivIsFloor(original.1 * p, 100);
  }

  /** With no mode, no percentage and sides of at least 1, an enabled configuration keeps the size. */
  lemma DefaultsKeepSize(original: (nat, nat), enabled: Option<bool>, keep: Option<bool>, tw: Option<int>, th: Option<int>)
    requires original.0 >= 1 && original.1 >= 1
    ensures CalculateSize(original, ScaleConfig(enabled, None, keep, None, tw, th)) == Some((original.0 as int, original.1 as int))
  {
  }

  /**
   * Width mode sets the width to the target (floored at 1) and, keeping the ratio, the
   * height to the largest whole number whose ratio to the target does not exceed the
   * original's; without the ratio it keeps the original height.
   */
  lemma WidthKeepsAspect(original: (nat, nat), config: ScaleConfig)
    requires config.enabled.GetOr(false) && config.mode.GetOr(ByPercent) == ByWidth
    requires original.0 > 0
    ensures var tw := config.targetWidth.GetOr(original.0);
      var r := CalculateSize(original, config);
      r.Some? && r.value.0 == Max(1, tw)
      && (config.keepAspectRatio.GetOr(true) && tw >= 0 ==>
            r.value.1 == 1 || r.value.1 * original.0 <= tw * original.1 < (r.value.1 + 1) * original.0)
      && (!config.keepAspectRatio.GetOr(true) ==> r.value.1 == Max(1, original.1))
  {
    var tw := config.targetWidth.GetOr(original.0);
    if tw >= 0 {
      TruncDivIsFloor(tw * original.1, original.0);
    }
  }

  /** Height mode is width mode with the sides exchanged. */
  lemma HeightKeepsAspect(original: (nat, nat), config: ScaleConfig)
    requires config.enabled.GetOr(false) && config.mode.GetOr(ByPercent) == ByHeight
    requires original.1 > 0
    ensures var th := config.targetHeight.GetOr(original.1);
      var r := CalculateSize(original, config);
      r.Some? && r.value.1 == Max(1, th)
      && (config.keepAspectRatio.GetOr(true) && th >= 0 ==>
            r.value.0 == 1 || r.value.0 * original.1 <= th * original.0 < (r.value.0 + 1) * original.1)
      && (!config.keepAspectRatio.GetOr(true) ==> r.value.0 == Max(1, original.0))
  {
    var th := config.targetHeight.GetOr(original.1);
    if th >= 0 {
      TruncDivIsFloor(th * original.0, original.1);
    }
  }

  /** Any other mode string means a custom size, each side defaulting to the original one. */
  lemma UnknownModeIsCustom(original: (nat, nat), config: ScaleConfig)
    requires config.enabled.GetOr(false)
    requires config.mode.Some? && config.mode.value !in {ByPercent, ByWidth, ByHeight}
    ensures CalculateSize(original, config)
      == Some((Max(1, config.targetWidth.GetOr(original.0)), Max(1, config.targetHeight.GetOr(original.1))))
  {
  }

  /**
   * `scale_watermark` / `resize_image`: the image itself when not enabled, otherwise the
   * LANCZOS resample to the computed size; `None` is the division by zero above.
   */
  function Rescale(img: Raster, config: ScaleConfig, resample: (Raster, nat, nat) -> Raster): Option<Raster> {
    if !config.enabled.GetOr(false) then Some(img)
    else
      match CalculateSize((img.width, img.height), config)
      case None => None
      case Some(d) => Some(resample(img, Max(1, d.0), Max(1, d.1)))
  }

  /** The rescaled image has exactly the size `CalculateSize` gives for the same inputs. */
  lemma RescaleSize(img: Raster, config: ScaleConfig, resample: (Raster, nat, nat) -> Raster)
    requires img.Valid() && Watermark.ResamplesToSize(resample)
    ensures var r := Rescale(img, config, resample);
      var s := CalculateSize((img.width, img.height), config);
      r.Some? == s.Some?
      && (r.Some? ==> r.value.Valid() && r.value.width == s.value.0 && r.value.height == s.value.1)
  {
    var s := CalculateSize((img.width, img.height), config);
    if config.enabled.GetOr(false) && s.Some? {
      SizeAtLeastOne((img.width, img.height), config);
      assert Max(1, s.value.0) == s.value.0 && Max(1, s.value.1) == s.value.1;
    }
  }
}
