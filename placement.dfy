/**
 * Where a watermark layer goes on the canvas: `WatermarkPosition` and
 * `WatermarkProcessor.calculate_position` of core/watermark.py.
 */
module Placement {
  import opened Wrappers

  /** The ten members of the position enum. */
  datatype WatermarkPosition =
    | TopLeft | TopCenter | TopRight
    | MiddleLeft | MiddleCenter | MiddleRight
    | BottomLeft | BottomCenter | BottomRight
    | Custom

  /** The string value each member carries. */
  function Value(p: WatermarkPosition): string {
    match p
    case TopLeft => "top_left"
    case TopCenter => "top_center"
    case TopRight => "top_right"
    case MiddleLeft => "middle_left"
    case MiddleCenter => "middle_center"
    case MiddleRight => "middle_right"
    case BottomLeft => "bottom_left"
    case BottomCenter => "bottom_center"
    case BottomRight => "bottom_right"
    case Custom => "custom"
  }

  /** `WatermarkPosition(s)`: the member whose value is `s`; `None` where the enum raises `ValueError`. */
  function FromValue(s: string): (r: Option<WatermarkPosition>)
    ensures r.Some? ==> Value(r.value) == s
  {
    match s
    case "top_left" => Some(TopLeft)
    case "top_center" => Some(TopCenter)
    case "top_right" => Some(TopRight)
    case "middle_left" => Some(MiddleLeft)
    case "middle_center" => Some(MiddleCenter)
    case "middle_right" => Some(MiddleRight)
    case "bottom_left" => Some(BottomLeft)
    case "bottom_center" => Some(BottomCenter)
    case "bottom_right" => Some(BottomRight)
    case "custom" => Some(Custom)
    case _ => None
  }

  /** Every member's value looks it up again, and only values of members are accepted. */
  lemma FromValueRoundTrip(p: WatermarkPosition, s: string)
    ensures FromValue(Value(p)) == Some(p)
    ensures FromValue(s).None? <==> forall q :: Value(q) != s
  {
    if FromValue(s).None? {
      forall q ensures Value(q) != s {
        assert FromValue(Value(q)).Some?;
      }
    }
  }

  /**
   * The `position` argument as Python sees it: a member of the enum, or any other
   * value (such as the raw string "bottom_right"), which equals no member.
   */
  datatype PositionKey = Member(position: WatermarkPosition) | Raw(text: string)

  datatype Point = Point(x: int, y: int)

  datatype Size = Size(width: int, height: int)

  const DefaultMargin := 20

  /** The nine-anchor table; `None` for `Custom`, which has no entry. */
  function Anchor(image: Size, mark: Size, p: WatermarkPosition, margin: int): Option<Point> {
    var centerX := (image.width - mark.width) / 2;
    var centerY := (image.height - mark.height) / 2;
    var rightX := image.width - mark.width - margin;
    var bottomY := image.height - mark.height - margin;
    match p
    case TopLeft => Some(Point(margin, margin))
    case TopCenter => Some(Point(centerX, margin))
    case TopRight => Some(Point(rightX, margin))
    case MiddleLeft => Some(Point(margin, centerY))
    case MiddleCenter => Some(Point(centerX, centerY))
    case MiddleRight => Some(Point(rightX, centerY))
    case BottomLeft => Some(Point(margin, bottomY))
    case BottomCenter => Some(Point(centerX, bottomY))
    case BottomRight => Some(Point(rightX, bottomY))
    case Custom => None
  }

  /**
   * `calculate_position`: the top-left corner of the layer. `Custom` with a position
   * returns it as given; every key without a table entry falls back to the
   * middle-centre entry. Nothing is clamped to the canvas.
   */
  function CalculatePosition(image: Size, mark: Size, position: PositionKey,
                             customPos: Option<Point>, margin: Option<int>): Point
  {
    var m := margin.GetOr(DefaultMargin);
    if position == Member(Custom) && customPos.Some? then customPos.value
    else
      var entry := if position.Member? then Anchor(image, mark, position.position, m) else None;
      match entry
      case Some(pt) => pt
      case None => Anchor(image, mark, MiddleCenter, m).value
  }

  /** The three places along one axis: the near edge, the centre, the far edge. */
  datatype Align = Near | Center | Far

  function Column(p: WatermarkPosition): Align {
    match p
    case TopLeft | MiddleLeft | BottomLeft => Near
    case TopRight | MiddleRight | BottomRight => Far
    case _ => Center
  }

  function Row(p: WatermarkPosition): Align {
    match p
    case TopLeft | TopCenter | TopRight => Near
    case BottomLeft | BottomCenter | BottomRight => Far
    case _ => Center
  }

  /** The offset of a layer of length `mark` on an axis of length `canvas`. */
  function AxisOffset(a: Align, canvas: int, mark: int, margin: int): int {
    match a
    case Near => margin
    case Center => (canvas - mark) / 2
    case Far => canvas - mark - margin
  }

  /**
   * Each of the nine anchors is its column's offset across and its row's offset down:
   * the margin at a near edge, the margin from a far edge, floor-halved slack at the centre.
   */
  lemma AnchorsOnGrid(image: Size, mark: Size, p: WatermarkPosition, margin: Option<int>)
    requires p != Custom
    ensures var m := margin.GetOr(DefaultMargin);
      CalculatePosition(image, mark, Member(p), None, margin)
        == Point(AxisOffset(Column(p), image.width, mark.width, m), AxisOffset(Row(p), image.height, mark.height, m))
  {
  }

  /** A centred layer leaves equal slack on both sides, or one pixel more on the far side; floor division also for a layer wider than the canvas. */
  lemma CenterSplitsSlack(canvas: int, mark: int)
    ensures var x := AxisOffset(Center, canvas, mark, 0);
      x <= canvas - mark - x <= x + 1
  {
  }

  /** A margin of `None` is the default 20; any given margin, 0 included, is used as it is. */
  lemma MarginDefault(image: Size, mark: Size, p: WatermarkPosition, m: int)
    ensures CalculatePosition(image, mark, Member(p), None, None)
      == CalculatePosition(image, mark, Member(p), None, Some(DefaultMargin))
    ensures p == TopLeft ==> CalculatePosition(image, mark, Member(p), None, Some(m)) == Point(m, m)
  {
  }

  /** `Custom` with a position returns it unchanged, however far outside the canvas it lies. */
  lemma CustomVerbatim(image: Size, mark: Size, pt: Point, margin: Option<int>)
    ensures CalculatePosition(image, mark, Member(Custom), Some(pt), margin) == pt
  {
  }

  /**
   * `Custom` without a position, and any key that is not a member, give the
   * middle-centre result; a custom position given with any other member is ignored.
   */
  lemma FallbackToMiddleCenter(image: Size, mark: Size, key: PositionKey, customPos: Option<Point>, margin: Option<int>)
    requires key.Raw? || (key == Member(Custom) && customPos.None?)
    ensures CalculatePosition(image, mark, key, customPos, margin)
      == CalculatePosition(image, mark, Member(MiddleCenter), None, margin)
    ensures CalculatePosition(image, mark, key, customPos, margin)
      == Point((image.width - mark.width) / 2, (image.height - mark.height) / 2)
  {
  }

  lemma CustomPosIgnoredForAnchors(image: Size, mark: Size, p: WatermarkPosition, pt: Point, margin: Option<int>)
    requires p != Custom
    ensures CalculatePosition(image, mark, Member(p), Some(pt), margin)
      == CalculatePosition(image, mark, Member(p), None, margin)
  {
  }

  /**
   * The same table in the release copy, on a 1000x800 canvas with a 200x100 layer and
   * the default margin: a corner sits 20 px in from both edges, and the centre is exact.
   */
  lemma ReleaseAnchorExample()
    ensures CalculatePosition(Size(1000, 800), Size(200, 100), Member(BottomRight), None, None) == Point(780, 680)
    ensures CalculatePosition(Size(1000, 800), Size(200, 100), Member(TopLeft), None, None) == Point(20, 20)
    ensures CalculatePosition(Size(1000, 800), Size(200, 100), Member(MiddleCenter), None, None) == Point(400, 350)
    ensures CalculatePosition(Size(101, 50), Size(200, 10), Member(TopCenter), None, Some(0)) == Point(-50, 0)
  {
  }

  /** The release copy's fallback: the raw string "bottom_right" is not the member and lands in the middle. */
  lemma ReleaseRawStringFallback()
    ensures CalculatePosition(Size(1000, 800), Size(200, 100), Raw("bottom_right"), None, None) == Point(400, 350)
    ensures CalculatePosition(Size(1000, 800), Size(200, 100), Member(Custom), None, None) == Point(400, 350)
  {
  }
}
