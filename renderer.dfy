/**
 * The per-frame arithmetic of `BannerRenderer.draw_frame`: canvas sizing,
 * colour parsing, the indicator blink, the banner's expansion, the background
 * pulse, the layout, the marquee's scroll tiling and the corner and indicator
 * geometry. A frame is described as a `Scene` (what is drawn where, in which
 * colour and opacity) rather than as pixels; the width of one marquee text
 * unit, which the source measures with the font, is an input.
 */
module Renderer {
  import opened Wrappers
  import opened Numeric
  import opened Colors
  import opened Marquee

  const BannerHeight: int := 80
  const IndicatorSize: int := 60
  const FontSize: int := 40
  const FixedCanvasHeight: int := 1080
  /** The banner's full width is the canvas width less this. */
  const SideRoom: int := 100
  const IndicatorGap: int := 10
  const ExpandDuration: real := 0.45
  const BlinkPeriod: real := 0.5
  /** Marquee scroll speed in pixels per second. */
  const ScrollSpeed: int := 200
  const FallbackUnitWidth: int := 100
  const BannerAlpha: int := 180
  const CornerLength: int := 20
  const CornerThickness: int := 3
  const TriangleInset: int := 12
  const OutlineWidth: int := 7

  datatype HeightMode = Fixed | Fit

  /** The configuration keys `draw_frame` reads. */
  datatype Config = Config(
    customText: string,
    threatLevel: ThreatInput,
    color: string,
    bgColor1: string,
    bgColor2: string,
    startFlicker: bool,
    startFlickerDuration: real,
    bgFlickerSpeed: real)

  /** A rectangle as PIL takes it: `[left, top, right, bottom]`, both ends included. */
  datatype Rect = Rect(left: int, top: int, right: int, bottom: int)

  datatype Point = Point(x: int, y: int)

  datatype Rgba = Rgba(rgb: Rgb, alpha: int)

  /** The banner surface pasted at (x, y): its fill, the text unit tiled at `tiles`, and the corner accents. */
  datatype BannerSurface = BannerSurface(
    x: int, y: int, width: int, height: int, fill: Rgba,
    text: string, textY: int, textFill: Rgba, unitWidth: int, tiles: seq<int>,
    corners: seq<Rect>, cornerFill: Rgba)

  /** The indicator square and the closed triangle outlined on it. */
  datatype IndicatorGlyph = IndicatorGlyph(box: Rect, fill: Rgba, outline: seq<Point>, outlineFill: Rgba, outlineWidth: int)

  datatype Scene = Scene(
    width: int, height: int,
    opacity: int, bannerWidth: int, background: Rgb,
    banner: Option<BannerSurface>, indicator: Option<IndicatorGlyph>)

  /** `Image.new` refuses a negative size; `int(…, 16)` refuses a malformed colour. */
  datatype FrameError = BadCanvasSize | BadColor

  // ---------------------------------------------------------------- timing

  function CanvasHeight(mode: HeightMode, padding: int): int {
    match mode
    case Fixed => FixedCanvasHeight
    case Fit => BannerHeight + 2 * padding
  }

  /** When the blink ends: the configured duration with the intro on, 0 without it. */
  function FlickerEnd(cfg: Config): real {
    if cfg.startFlicker then cfg.startFlickerDuration else 0.0
  }

  /** When the banner reaches full width: `start_time + expand_dur`. */
  function ExpandedAt(cfg: Config): real {
    FlickerEnd(cfg) + (if cfg.startFlicker then ExpandDuration else 0.0)
  }

  /** The indicator's alpha: it blinks on a half-second square wave during the intro and is opaque otherwise. */
  function IndicatorOpacity(t: real, cfg: Config): (r: int)
    ensures r == 0 || r == 255
    ensures !cfg.startFlicker || cfg.startFlickerDuration <= t ==> r == 255
  {
    if cfg.startFlicker && t < cfg.startFlickerDuration then
      if FloorMod(t, BlinkPeriod) / BlinkPeriod > 0.5 then 0 else 255
    else
      255
  }

  /** During the blink the indicator shows for the first quarter second of every half second and hides for the rest. */
  lemma OpacityBlink(t: real, cfg: Config)
    requires cfg.startFlicker && t < cfg.startFlickerDuration
    ensures IndicatorOpacity(t, cfg) == 255 <==> FloorMod(t, BlinkPeriod) <= 0.25
  {
  }

  /** The blink repeats every half second while it lasts. */
  lemma {:induction false} OpacityPeriodic(t: real, cfg: Config, k: int)
    requires cfg.startFlicker && t < cfg.startFlickerDuration
    requires t + k as real * BlinkPeriod < cfg.startFlickerDuration
    ensures IndicatorOpacity(t + k as real * BlinkPeriod, cfg) == IndicatorOpacity(t, cfg)
  {
    FloorModShift(t, BlinkPeriod, k);
  }

  /** The banner's current width: nothing during the blink, a linear grow over 0.45 s, then `canvas_width - 100`. */
  function BannerWidth(t: real, cfg: Config, canvasWidth: int): (w: int)
    ensures 100 <= canvasWidth ==> 0 <= w <= canvasWidth - SideRoom
    ensures !cfg.startFlicker || ExpandedAt(cfg) <= t ==> w == canvasWidth - SideRoom
    ensures cfg.startFlicker && t < cfg.startFlickerDuration ==> w == 0
  {
    var target := canvasWidth - SideRoom;
    if !cfg.startFlicker then target
    else if t < cfg.startFlickerDuration then 0
    else if t < cfg.startFlickerDuration + ExpandDuration then
      var progress := (t - cfg.startFlickerDuration) / ExpandDuration;
      GrowBounds(target, progress);
      Grow(target, progress)
    else target
  }

  /** `int(target * progress)`. */
  function Grow(target: int, progress: real): int {
    Trunc(target as real * progress)
  }

  lemma GrowBounds(target: int, progress: real)
    requires 0.0 <= progress <= 1.0
    ensures 0 <= target ==> 0 <= Grow(target, progress) <= target
  {
    if 0 <= target {
      var v := target as real;
      TruncScaled(v, progress);
      assert Grow(target, progress) == Trunc(v * progress);
    }
  }

  lemma GrowMono(target: int, p1: real, p2: real)
    requires 0 <= target && 0.0 <= p1 <= p2
    ensures Grow(target, p1) <= Grow(target, p2)
  {
    var v := target as real;
    ScaleMono(v, p1, p2);
    ScaleMono(v, 0.0, p1);
    var x1 := v * p1;
    var x2 := v * p2;
    assert 0.0 <= x1 <= x2;
    TruncMono(x1, x2);
    assert Grow(target, p1) == Trunc(x1) && Grow(target, p2) == Trunc(x2);
  }

  /** The banner never shrinks as time goes on. */
  lemma WidthMonotone(t1: real, t2: real, cfg: Config, canvasWidth: int)
    requires 100 <= canvasWidth && t1 <= t2
    ensures BannerWidth(t1, cfg, canvasWidth) <= BannerWidth(t2, cfg, canvasWidth)
  {
    var target := canvasWidth - SideRoom;
    var d := cfg.startFlickerDuration;
    var w1 := BannerWidth(t1, cfg, canvasWidth);
    var w2 := BannerWidth(t2, cfg, canvasWidth);
    if !cfg.startFlicker || t1 < d || d + ExpandDuration <= t2 {
      assert w1 == 0 || w2 == target;
    } else {
      var p1 := (t1 - d) / ExpandDuration;
      var p2 := (t2 - d) / ExpandDuration;
      assert 0.0 <= p1 <= p2;
      assert w1 == Grow(target, p1) && w2 == Grow(target, p2);
      GrowMono(target, p1, p2);
    }
  }

  // ------------------------------------------------------------ background

  /** The triangle wave 0 -> 1 -> 0 over each `1 / speed` seconds; 0 when the speed is not positive. */
  function MixFactor(loopTime: real, speed: real): (m: real)
    ensures 0.0 <= m <= 1.0
    ensures speed <= 0.0 ==> m == 0.0
  {
    if speed > 0.0 then
      var cycle := Cycle(loopTime, speed);
      if cycle < 0.5 then cycle / 0.5 else 1.0 - (cycle - 0.5) / 0.5
    else
      0.0
  }

  /** `(loop_time * speed) % 1.0`: how far into its cycle the wave is. */
  function Cycle(loopTime: real, speed: real): (c: real)
    ensures 0.0 <= c < 1.0
  {
    FloorMod(loopTime * speed, 1.0)
  }

  /** The wave starts at 0. */
  lemma MixStart(speed: real)
    ensures MixFactor(0.0, speed) == 0.0
  {
    if speed > 0.0 {
      FloorModMultiple(1.0, 0);
      CycleOf(0.0, speed, 0.0);
    }
  }

  /** The wave peaks at 1 halfway through each cycle. */
  lemma MixPeak(speed: real, k: int)
    requires speed > 0.0
    ensures MixFactor((k as real + 0.5) / speed, speed) == 1.0
  {
    var half := k as real + 0.5;
    DivTimes(half, speed);
    CycleOf(half / speed, speed, half);
    HalfCycle(k);
  }

  lemma CycleOf(t: real, speed: real, y: real)
    requires t * speed == y
    ensures Cycle(t, speed) == FloorMod(y, 1.0)
  {
  }

  lemma HalfCycle(k: int)
    ensures FloorMod(k as real + 0.5, 1.0) == 0.5
  {
    FloorModShift(0.5, 1.0, k);
    assert k as real + 0.5 == 0.5 + k as real * 1.0;
    assert FloorMod(0.5, 1.0) == 0.5;
  }

  /** The wave repeats every `1 / speed` seconds. */
  lemma MixPeriodic(loopTime: real, speed: real, k: int)
    requires speed > 0.0
    ensures MixFactor(loopTime + k as real / speed, speed) == MixFactor(loopTime, speed)
  {
    var x := loopTime * speed;
    var q := k as real / speed;
    var later := loopTime + q;
    DivTimes(k as real, speed);
    assert q * speed == k as real;
    AddTimes(loopTime, q, speed);
    assert later * speed == x + k as real * 1.0;
    FloorModShift(x, 1.0, k);
    assert Cycle(later, speed) == Cycle(loopTime, speed);
  }

  /** `a + (b - a) * m`. */
  function Blend(x: real, y: real, m: real): real {
    x + (y - x) * m
  }

  lemma BlendBounds(x: real, y: real, m: real)
    requires 0.0 <= m <= 1.0
    ensures x <= y ==> x <= Blend(x, y, m) <= y
    ensures y <= x ==> y <= Blend(x, y, m) <= x
    ensures m == 0.0 ==> Blend(x, y, m) == x
    ensures m == 1.0 ==> Blend(x, y, m) == y
  {
    var d := y - x;
    ScaleBetween(d, m);
    var p := d * m;
    assert 0.0 <= d ==> 0.0 <= p <= d;
    assert d < 0.0 ==> d <= p <= 0.0;
    assert Blend(x, y, m) == x + p;
  }

  /** `int(a + (b - a) * m)`: one channel of the blend. */
  function Lerp(a: int, b: int, m: real): int {
    Trunc(Blend(a as real, b as real, m))
  }

  predicate Between(a: int, b: int, v: int) {
    (a <= v <= b) || (b <= v <= a)
  }

  /** A blend by a factor in [0, 1] lies between its ends, and is exactly them at 0 and 1. */
  lemma LerpBetween(a: int, b: int, m: real)
    requires 0.0 <= m <= 1.0
    ensures Between(a, b, Lerp(a, b, m))
    ensures m == 0.0 ==> Lerp(a, b, m) == a
    ensures m == 1.0 ==> Lerp(a, b, m) == b
  {
    var x := a as real;
    var y := b as real;
    BlendBounds(x, y, m);
    var z := Blend(x, y, m);
    if a <= b {
      TruncBetweenInts(z, a, b);
    } else {
      TruncBetweenInts(z, b, a);
    }
    TruncOfInt(a);
    TruncOfInt(b);
  }

  /**
   * The banner's fill: the first background colour until the banner is fully
   * out, then a per-channel blend toward the second by the triangle wave.
   */
  function BackgroundColor(t: real, cfg: Config, c1: Rgb, c2: Rgb): (r: Rgb)
    ensures Between(c1.r, c2.r, r.r) && Between(c1.g, c2.g, r.g) && Between(c1.b, c2.b, r.b)
    ensures t <= ExpandedAt(cfg) || cfg.bgFlickerSpeed <= 0.0 ==> r == c1
  {
    if t > ExpandedAt(cfg) then
      var m := MixFactor(t - ExpandedAt(cfg), cfg.bgFlickerSpeed);
      LerpBetween(c1.r, c2.r, m);
      LerpBetween(c1.g, c2.g, m);
      LerpBetween(c1.b, c2.b, m);
      Rgb(Lerp(c1.r, c2.r, m), Lerp(c1.g, c2.g, m), Lerp(c1.b, c2.b, m))
    else
      c1
  }

  /** Between the two colours the background pulses with the same period as the wave. */
  lemma BackgroundPeriodic(t: real, cfg: Config, c1: Rgb, c2: Rgb, k: nat)
    requires cfg.bgFlickerSpeed > 0.0 && ExpandedAt(cfg) < t
    ensures BackgroundColor(Later(t, k, 1.0 / cfg.bgFlickerSpeed), cfg, c1, c2) == BackgroundColor(t, cfg, c1, c2)
  {
    LaterInverse(t, k, cfg.bgFlickerSpeed);
    var s := cfg.bgFlickerSpeed;
    var e := ExpandedAt(cfg);
    var t2 := t + k as real / s;
    DivNonneg(k as real, s);
    assert t2 - e == (t - e) + k as real / s;
    MixPeriodic(t - e, s, k);
  }

  lemma DivNonneg(x: real, m: real)
    requires 0.0 <= x && 0.0 < m
    ensures 0.0 <= x / m
  {

  }

  // ---------------------------------------------------------------- layout

  /** `(canvas_width - target - 60) // 2`. */
  function BannerX(canvasWidth: int): (x: int)
    ensures x == 20
  {
    (canvasWidth - (canvasWidth - SideRoom) - IndicatorSize) / 2
  }

  function CenterY(canvasHeight: int): int {
    canvasHeight / 2
  }

  function BannerY(canvasHeight: int): int {
    CenterY(canvasHeight) - BannerHeight / 2
  }

  function IndicatorX(canvasWidth: int, bannerWidth: int): int {
    BannerX(canvasWidth) + bannerWidth + IndicatorGap
  }

  function IndicatorY(canvasHeight: int): int {
    CenterY(canvasHeight) - IndicatorSize / 2
  }

  /** In fit mode the banner sits `padding` below the top and above the bottom; the indicator is centred on the same line. */
  lemma LayoutFit(padding: int)
    ensures var h := CanvasHeight(Fit, padding);
      BannerY(h) == padding && h - (BannerY(h) + BannerHeight) == padding
      && IndicatorY(h) == padding + 10
  {
  }

  /** In fixed mode the canvas is 1080 high and the banner band is at 500..580. */
  lemma LayoutFixed(padding: int)
    ensures var h := CanvasHeight(Fixed, padding);
      h == 1080 && BannerY(h) == 500 && IndicatorY(h) == 510
  {
  }

  /** At full width the banner starts 20 px from the left and the indicator ends 10 px from the right. */
  lemma LayoutFullWidth(canvasWidth: int)
    ensures var w := canvasWidth - SideRoom;
      BannerX(canvasWidth) == 20
      && canvasWidth - (IndicatorX(canvasWidth, w) + IndicatorSize) == 10
  {
  }

  // ------------------------------------------------------------- scrolling

  /** Time since the banner reached full width, 0 before. */
  function ScrollTime(t: real, cfg: Config): (s: real)
    ensures 0.0 <= s
    ensures t <= ExpandedAt(cfg) ==> s == 0.0
  {
    if t > ExpandedAt(cfg) then t - ExpandedAt(cfg) else 0.0
  }

  /** `int(scroll_time * 200)`: pixels scrolled so far. */
  function ScrollOffset(t: real, cfg: Config): (n: int)
    ensures 0 <= n
    ensures t <= ExpandedAt(cfg) ==> n == 0
  {
    Trunc(ScrollTime(t, cfg) * ScrollSpeed as real)
  }

  /** The width of one text unit, with the fallback for a degenerate measurement. */
  function UnitWidth(measured: int): (u: int)
    ensures 1 <= u
    ensures 1 <= measured ==> u == measured
  {
    if measured < 1 then FallbackUnitWidth else measured
  }

  /** `-(scroll_offset % unit_width)`: where the first unit is drawn. */
  function ScrollStart(offset: int, unit: int): (x: int)
    requires 1 <= unit
    ensures -unit < x <= 0
  {
    -(offset % unit)
  }

  /** Scrolling one more whole unit draws the same picture. */
  lemma ScrollStartPeriodic(offset: int, unit: int)
    requires 1 <= unit
    ensures ScrollStart(offset + unit, unit) == ScrollStart(offset, unit)
  {
    ModAdd(offset, unit);
  }

  /** Seconds the text takes to scroll by one unit. */
  function ScrollPeriod(unit: int): real {
    unit as real / ScrollSpeed as real
  }

  /** Once the banner is out, the text repeats every `unit / 200` seconds. */
  lemma {:induction false} ScrollPeriodic(t: real, cfg: Config, unit: int, k: nat)
    requires 1 <= unit && ExpandedAt(cfg) <= t
    ensures ScrollStart(ScrollOffset(Later(t, k, ScrollPeriod(unit)), cfg), unit)
         == ScrollStart(ScrollOffset(t, cfg), unit)
  {
    if k > 0 {
      var period := ScrollPeriod(unit);
      var t1 := Later(t, k - 1, period);
      var t2 := Later(t, k, period);
      StepMultiple(t, period, k);
      ScrollPeriodic(t, cfg, unit, k - 1);
      ScrollOneUnit(t1, t2, cfg, unit);
      ScrollStartPeriodic(ScrollOffset(t1, cfg), unit);
    }
  }

  lemma ScrollOneUnit(t: real, later: real, cfg: Config, unit: int)
    requires 1 <= unit && ExpandedAt(cfg) <= t && later == t + ScrollPeriod(unit)
    ensures ScrollOffset(later, cfg) == ScrollOffset(t, cfg) + unit
  {
    var e := ExpandedAt(cfg);
    var x := (t - e) * ScrollSpeed as real;
    assert ScrollTime(t, cfg) == t - e;
    assert ScrollTime(later, cfg) == (t - e) + ScrollPeriod(unit);
    assert ScrollTime(later, cfg) * ScrollSpeed as real == x + unit as real;
    TruncShift(x, unit);
  }

  /** The x positions the tiling loop draws at: from `x`, one unit apart, while left of `width`. */
  function Tiles(x: int, unit: int, width: int): (r: seq<int>)
    requires 1 <= unit
    ensures x < width <==> r != []
    ensures r != [] ==> r[0] == x
    ensures forall i :: 0 <= i < |r| ==> x <= r[i] < width
    decreases width - x
  {
    if x < width then [x] + Tiles(x + unit, unit, width) else []
  }

  /** The tiles are one unit apart, all start left of the width, and the last one reaches it. */
  lemma {:induction false} TilesShape(x: int, unit: int, width: int)
    requires 1 <= unit
    ensures var r := Tiles(x, unit, width);
      (forall i :: 0 <= i < |r| ==> r[i] == x + i * unit && r[i] < width)
      && (x < width <==> r != [])
      && (r != [] ==> width <= r[|r| - 1] + unit)
    decreases width - x
  {
    var r := Tiles(x, unit, width);
    if x < width {
      var rest := Tiles(x + unit, unit, width);
      TilesShape(x + unit, unit, width);
      assert r == [x] + rest;
      forall i | 0 <= i < |r|
        ensures r[i] == x + i * unit && r[i] < width
      {
        if i > 0 {
          assert r[i] == rest[i - 1] == x + unit + (i - 1) * unit;
        }
      }
    }
  }

  /** Some tile spans pixel `p`. */
  predicate Covered(tiles: seq<int>, unit: int, p: int) {
    exists i :: 0 <= i < |tiles| && tiles[i] <= p < tiles[i] + unit
  }

  /** Starting at or left of 0, the tiles leave no pixel of [0, width) bare. */
  lemma {:induction false} TilesCover(x: int, unit: int, width: int, p: int)
    requires 1 <= unit && x <= p < width
    ensures Covered(Tiles(x, unit, width), unit, p)
    decreases width - x
  {
    var r := Tiles(x, unit, width);
    assert r[0] == x;
    if p >= x + unit {
      TilesCover(x + unit, unit, width, p);
      var rest := Tiles(x + unit, unit, width);
      var i :| 0 <= i < |rest| && rest[i] <= p < rest[i] + unit;
      assert r[i + 1] == rest[i];
    }
  }

  /**
   * The `while draw_x < current_banner_width` loop: draw one unit at `draw_x`,
   * step right by a unit. The positions drawn are recorded in order.
   */
  method TileMarquee(start: int, unit: int, width: int) returns (drawn: seq<int>)
    requires 1 <= unit
    ensures drawn == Tiles(start, unit, width)
  {
    drawn := [];
    var drawX := start;
    while drawX < width
      invariant drawn + Tiles(drawX, unit, width) == Tiles(start, unit, width)
      decreases width - drawX
    {
      drawn := drawn + [drawX];
      drawX := drawX + unit;
    }
  }

  // -------------------------------------------------------------- geometry

  function MirrorX(r: Rect, w: int): Rect {
    Rect(w - r.right, r.top, w - r.left, r.bottom)
  }

  function MirrorY(r: Rect, h: int): Rect {
    Rect(r.left, h - r.bottom, r.right, h - r.top)
  }

  predicate Inside(r: Rect, w: int, h: int) {
    0 <= r.left <= r.right <= w && 0 <= r.top <= r.bottom <= h
  }

  /**
   * The eight bars of the corner accents on a banner of width `w`: a
   * horizontal and a vertical bar at top-left, top-right, bottom-left and
   * bottom-right, in that order.
   */
  function Corners(w: int): (r: seq<Rect>)
    ensures |r| == 8
    ensures forall i :: 0 <= i < 4 ==> r[i + 4] == MirrorY(r[i], BannerHeight)
    ensures forall i :: 0 <= i < 8 && i % 4 < 2 ==> r[i + 2] == MirrorX(r[i], w)
    ensures CornerLength <= w ==> forall i :: 0 <= i < 8 ==> Inside(r[i], w, BannerHeight)
    ensures r[0] == Rect(0, 0, CornerLength, CornerThickness) && r[1] == Rect(0, 0, CornerThickness, CornerLength)
  {
    var h := BannerHeight;
    var l := CornerLength;
    var th := CornerThickness;
    [ Rect(0, 0, l, th), Rect(0, 0, th, l),
      Rect(w - l, 0, w, th), Rect(w - th, 0, w, l),
      Rect(0, h - th, l, h), Rect(0, h - l, th, h),
      Rect(w - l, h - th, w, h), Rect(w - th, h - l, w, h) ]
  }

  /** The closed outline of the indicator's triangle: apex, right foot, left foot, apex. */
  function Triangle(ix: int, iy: int): (r: seq<Point>)
    ensures |r| == 4 && r[0] == r[3]
    ensures forall i :: 0 <= i < 4 ==>
      ix + TriangleInset <= r[i].x <= ix + IndicatorSize - TriangleInset
      && iy + TriangleInset <= r[i].y <= iy + IndicatorSize - TriangleInset
    ensures r[0].x - r[2].x == r[1].x - r[0].x && r[1].y == r[2].y && r[0].y < r[1].y
    ensures r[0].y == iy + TriangleInset
      && r[1] == Point(ix + IndicatorSize - TriangleInset, iy + IndicatorSize - TriangleInset)
      && r[2] == Point(ix + TriangleInset, iy + IndicatorSize - TriangleInset)
  {
    var s := IndicatorSize;
    var pad := TriangleInset;
    var p1 := Point(ix + s / 2, iy + pad);
    var p2 := Point(ix + s - pad, iy + s - pad);
    var p3 := Point(ix + pad, iy + s - pad);
    [p1, p2, p3, p1]
  }

  // ----------------------------------------------------------------- frame

  /** `(80 - 40) // 2 - 5`. */
  const TextY: int := (BannerHeight - FontSize) / 2 - 5

  /** The tile positions of a frame, for a banner of width `w`. */
  function FrameTiles(t: real, cfg: Config, measured: int, w: int): seq<int> {
    var unit := UnitWidth(measured);
    Tiles(ScrollStart(ScrollOffset(t, cfg), unit), unit, w)
  }

  /**
   * Everything drawn, once the canvas size and the three colours are known
   * to be good: the banner only when its width is positive, the indicator
   * only when it is not blinked out, both in the main colour.
   */
  function Compose(t: real, cfg: Config, canvasWidth: int, canvasHeight: int, measured: int,
                   main: Rgb, c1: Rgb, c2: Rgb, tiles: seq<int>): (r: Scene)
    ensures r.width == canvasWidth && r.height == canvasHeight
    ensures r.banner.Some? <==> r.bannerWidth > 0
    ensures r.indicator.Some? <==> r.opacity > 0
    ensures r.banner.Some? ==> var b := r.banner.value;
      b.width == r.bannerWidth && b.height == BannerHeight && b.tiles == tiles
      && b.fill == Rgba(r.background, BannerAlpha) && b.textFill == Rgba(main, 255) && b.cornerFill == Rgba(main, 255)
      && b.text == MarqueeUnit(cfg.customText, cfg.threatLevel) && |b.corners| == 8
    ensures r.banner.Some? ==> var b := r.banner.value;
      b.x == BannerX(canvasWidth) && b.y == BannerY(canvasHeight) && b.textY == TextY
      && b.unitWidth == UnitWidth(measured) && b.corners == Corners(b.width)
    ensures r.indicator.Some? ==> var g := r.indicator.value;
      g.fill == Rgba(main, r.opacity) && g.outlineFill == Rgba(Rgb(0, 0, 0), r.opacity)
      && g.box.right - g.box.left == IndicatorSize == g.box.bottom - g.box.top
    ensures r.indicator.Some? ==> var g := r.indicator.value;
      g.box.left == IndicatorX(canvasWidth, r.bannerWidth) && g.box.top == IndicatorY(canvasHeight)
      && g.outline == Triangle(g.box.left, g.box.top) && g.outlineWidth == OutlineWidth
  {
    var opacity := IndicatorOpacity(t, cfg);
    var w := BannerWidth(t, cfg, canvasWidth);
    var bg := BackgroundColor(t, cfg, c1, c2);
    var bx := BannerX(canvasWidth);
    var ix := IndicatorX(canvasWidth, w);
    var iy := IndicatorY(canvasHeight);
    var solid := Rgba(main, 255);
    Scene(canvasWidth, canvasHeight, opacity, w, bg,
      if w > 0 then
        Some(BannerSurface(bx, BannerY(canvasHeight), w, BannerHeight, Rgba(bg, BannerAlpha),
          MarqueeUnit(cfg.customText, cfg.threatLevel), TextY, solid, UnitWidth(measured), tiles,
          Corners(w), solid))
      else None,
      if opacity > 0 then
        Some(IndicatorGlyph(Rect(ix, iy, ix + IndicatorSize, iy + IndicatorSize), Rgba(main, opacity),
          Triangle(ix, iy), Rgba(Rgb(0, 0, 0), opacity), OutlineWidth))
      else None)
  }

  /**
   * `draw_frame(time_sec, width, height_mode, _, padding)` with the measured
   * width of one text unit: the canvas size is checked first, then the three
   * colours are parsed.
   */
  function Frame(t: real, cfg: Config, canvasWidth: int, mode: HeightMode, padding: int, measured: int): (r: Result<Scene, FrameError>)
    ensures var sizeOk := 0 <= canvasWidth && 0 <= CanvasHeight(mode, padding);
      var colorsOk := HexToRgb(cfg.color).Some? && HexToRgb(cfg.bgColor1).Some? && HexToRgb(cfg.bgColor2).Some?;
      (r == Failure(BadCanvasSize) <==> !sizeOk)
      && (r == Failure(BadColor) <==> sizeOk && !colorsOk)
      && (r.Success? <==> sizeOk && colorsOk)
    ensures r.Success? ==> r.value == FrameScene(t, cfg, canvasWidth, CanvasHeight(mode, padding), measured,
                                                 HexToRgb(cfg.color).value, HexToRgb(cfg.bgColor1).value, HexToRgb(cfg.bgColor2).value)
  {
    var h := CanvasHeight(mode, padding);
    var main := HexToRgb(cfg.color);
    var c1 := HexToRgb(cfg.bgColor1);
    var c2 := HexToRgb(cfg.bgColor2);
    if canvasWidth < 0 || h < 0 then Failure(BadCanvasSize)
    else if main.None? || c1.None? || c2.None? then Failure(BadColor)
    else Success(FrameScene(t, cfg, canvasWidth, h, measured, main.value, c1.value, c2.value))
  }

  /**
   * The scene of a frame whose canvas size and colours are good: the banner
   * at the width of the moment over the background of the moment, with the
   * text tiled only when the banner is drawn.
   */
  function FrameScene(t: real, cfg: Config, canvasWidth: int, canvasHeight: int, measured: int,
                      main: Rgb, c1: Rgb, c2: Rgb): (r: Scene)
    ensures r.width == canvasWidth && r.height == canvasHeight
    ensures r.bannerWidth == BannerWidth(t, cfg, canvasWidth) && r.background == BackgroundColor(t, cfg, c1, c2)
    ensures r.opacity == IndicatorOpacity(t, cfg)
    ensures r.banner.Some? <==> BannerWidth(t, cfg, canvasWidth) > 0
    ensures r.banner.Some? ==> r.banner.value.tiles == FrameTiles(t, cfg, measured, r.bannerWidth)
  {
    var w := BannerWidth(t, cfg, canvasWidth);
    var tiles := if w > 0 then FrameTiles(t, cfg, measured, w) else [];
    Compose(t, cfg, canvasWidth, canvasHeight, measured, main, c1, c2, tiles)
  }

  /** The frame, computed step by step as the source does. */
  method DrawFrame(t: real, cfg: Config, canvasWidth: int, mode: HeightMode, padding: int, measured: int)
    returns (r: Result<Scene, FrameError>)
    ensures r == Frame(t, cfg, canvasWidth, mode, padding, measured)
  {
    var h := if mode == Fixed then FixedCanvasHeight else BannerHeight + 2 * padding;
    assert h == CanvasHeight(mode, padding);
    if canvasWidth < 0 || h < 0 {
      return Failure(BadCanvasSize);
    }
    var main := HexToRgb(cfg.color);
    var c1 := HexToRgb(cfg.bgColor1);
    var c2 := HexToRgb(cfg.bgColor2);
    if main.None? || c1.None? || c2.None? {
      return Failure(BadColor);
    }
    var scene := DrawScene(t, cfg, canvasWidth, h, measured, main.value, c1.value, c2.value);
    r := Success(scene);
  }

  /** Everything after the colours are parsed, with the tiling loop run only when the banner is drawn. */
  method DrawScene(t: real, cfg: Config, canvasWidth: int, canvasHeight: int, measured: int,
                   main: Rgb, c1: Rgb, c2: Rgb) returns (scene: Scene)
    ensures scene == FrameScene(t, cfg, canvasWidth, canvasHeight, measured, main, c1, c2)
  {
    var w := BannerWidth(t, cfg, canvasWidth);
    var tiles := [];
    if w > 0 {
      var unit := UnitWidth(measured);
      var start := ScrollStart(ScrollOffset(t, cfg), unit);
      tiles := TileMarquee(start, unit, w);
    }
    scene := Compose(t, cfg, canvasWidth, canvasHeight, measured, main, c1, c2, tiles);
  }

  // ------------------------------------------------------ frame properties

  /**
   * Whenever the banner is drawn, the text tiles start within one unit left of
   * its edge, are one unit apart, stay left of its right end, and together
   * cover every pixel column of it.
   */
  lemma FrameTilesCover(t: real, cfg: Config, canvasWidth: int, canvasHeight: int, measured: int, main: Rgb, c1: Rgb, c2: Rgb)
    requires FrameScene(t, cfg, canvasWidth, canvasHeight, measured, main, c1, c2).banner.Some?
    ensures var b := FrameScene(t, cfg, canvasWidth, canvasHeight, measured, main, c1, c2).banner.value;
      1 <= b.unitWidth && 1 <= b.width && b.tiles != []
      && -b.unitWidth < b.tiles[0] <= 0
      && (forall i :: 0 <= i < |b.tiles| ==> b.tiles[i] == b.tiles[0] + i * b.unitWidth && b.tiles[i] < b.width)
      && (forall p :: 0 <= p < b.width ==> Covered(b.tiles, b.unitWidth, p))
  {
    var b := FrameScene(t, cfg, canvasWidth, canvasHeight, measured, main, c1, c2).banner.value;
    var unit := UnitWidth(measured);
    var start := ScrollStart(ScrollOffset(t, cfg), unit);
    assert b.width == BannerWidth(t, cfg, canvasWidth) && b.unitWidth == unit;
    assert b.tiles == Tiles(start, unit, b.width);
    TilesShape(start, unit, b.width);
    forall p | 0 <= p < b.width
      ensures Covered(b.tiles, b.unitWidth, p)
    {
      TilesCover(start, unit, b.width, p);
    }
  }

  /**
   * With the intro off the very first frame already shows the whole banner at
   * full width, the first background colour, and the opaque indicator.
   */
  lemma FirstFrameWithoutIntro(cfg: Config, canvasWidth: int, canvasHeight: int, measured: int, main: Rgb, c1: Rgb, c2: Rgb)
    requires !cfg.startFlicker && SideRoom < canvasWidth
    ensures var s := FrameScene(0.0, cfg, canvasWidth, canvasHeight, measured, main, c1, c2);
      s.bannerWidth == canvasWidth - SideRoom && s.banner.Some? && s.banner.value.width == canvasWidth - SideRoom
      && s.background == c1 && s.opacity == 255 && s.indicator.Some?
  {
    assert ExpandedAt(cfg) == 0.0;
    assert BannerWidth(0.0, cfg, canvasWidth) == canvasWidth - SideRoom;
    assert BackgroundColor(0.0, cfg, c1, c2) == c1;
    assert IndicatorOpacity(0.0, cfg) == 255;
  }

  /** The indicator sits `10` px right of the banner's current end, and both share the canvas's vertical centre. */
  lemma FrameLayout(t: real, cfg: Config, canvasWidth: int, canvasHeight: int, measured: int, main: Rgb, c1: Rgb, c2: Rgb)
    requires FrameScene(t, cfg, canvasWidth, canvasHeight, measured, main, c1, c2).banner.Some?
    requires FrameScene(t, cfg, canvasWidth, canvasHeight, measured, main, c1, c2).indicator.Some?
    ensures var s := FrameScene(t, cfg, canvasWidth, canvasHeight, measured, main, c1, c2);
      var b := s.banner.value;
      var box := s.indicator.value.box;
      b.x == 20 && box.left == b.x + b.width + 10
      && b.y + b.height / 2 == box.top + IndicatorSize / 2 == canvasHeight / 2
  {
  }
}
