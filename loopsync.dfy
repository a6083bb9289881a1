/**
 * `BannerRenderer.estimate_loop_duration` and `_find_lcm_duration`: the
 * export length after which the marquee scroll and the background pulse both
 * come back to where they started, found by trying 1..10 text cycles.
 */
module LoopSync {
  import opened Wrappers
  import opened Numeric
  import Colors
  import Renderer

  /** The defaults `_find_lcm_duration` is called with. */
  const MaxLoops: int := 10
  const Tolerance: real := 0.05

  /** `remainder < b * tolerance or remainder > b * (1 - tolerance)` where `remainder = d % b`. */
  predicate Aligned(d: real, b: real, tolerance: real)
    requires 0.0 < b
  {
    var remainder := FloorMod(d, b);
    remainder < b * tolerance || remainder > b * (1.0 - tolerance)
  }

  /** `cycle_a * n`. */
  function Cycles(a: real, n: int): real {
    a * n as real
  }

  lemma CyclesNonneg(a: real, n: int)
    requires 0.0 <= a && 0 <= n
    ensures 0.0 <= Cycles(a, n)
  {
    if 0.0 < a {
      MulLe(0.0, n as real, a);
      assert Cycles(a, n) == n as real * a;
    }
  }

  /** At least one cycle is at least one cycle long, and more cycles are never shorter. */
  lemma CyclesRange(a: real, n: int, k: int)
    ensures 0.0 <= a && 1 <= n ==> a <= Cycles(a, n)
    ensures 0.0 <= a && 1 <= n <= k ==> Cycles(a, n) <= Cycles(a, k)
  {
    if 0.0 < a && 1 <= n {
      MulLe(1.0, n as real, a);
      if n <= k {
        MulLe(n as real, k as real, a);
      }
    }
  }

  /** `n` cycles of length `a` land close to a whole number of cycles of length `b`. */
  predicate AlignedAt(a: real, b: real, n: int, tolerance: real)
    requires 0.0 < b
  {
    Aligned(Cycles(a, n), b, tolerance)
  }

  /** The first `n` from `from` up to `maxLoops` at which the cycles align. */
  function FirstAligned(a: real, b: real, from: int, maxLoops: int, tolerance: real): Option<int>
    requires 0.0 < b
    decreases maxLoops + 1 - from
  {
    if maxLoops < from then None
    else if AlignedAt(a, b, from, tolerance) then Some(from)
    else FirstAligned(a, b, from + 1, maxLoops, tolerance)
  }

  /** What `FirstAligned` finds is the least aligned `n` in range; when it finds nothing, no `n` in range aligns. */
  lemma {:induction false} FirstAlignedLeast(a: real, b: real, from: int, maxLoops: int, tolerance: real)
    requires 0.0 < b
    ensures var r := FirstAligned(a, b, from, maxLoops, tolerance);
      (r.Some? ==> from <= r.value <= maxLoops && AlignedAt(a, b, r.value, tolerance)
                   && forall m :: from <= m < r.value ==> !AlignedAt(a, b, m, tolerance))
      && (r.None? ==> forall m :: from <= m <= maxLoops ==> !AlignedAt(a, b, m, tolerance))
    decreases maxLoops + 1 - from
  {
    if from <= maxLoops && !AlignedAt(a, b, from, tolerance) {
      FirstAlignedLeast(a, b, from + 1, maxLoops, tolerance);
    }
  }

  /**
   * How many text cycles the loop lasts: the least `n` in 1..max_loops at
   * which the two cycles align, or 1 when none does.
   */
  function LoopCount(a: real, b: real, maxLoops: int, tolerance: real): (n: int)
    requires 0.0 < b
    ensures 1 <= n && LeastAligned(a, b, n, maxLoops, tolerance)
  {
    FirstAlignedLeast(a, b, 1, maxLoops, tolerance);
    match FirstAligned(a, b, 1, maxLoops, tolerance)
    case Some(n) => n
    case None => 1
  }

  /**
   * `_find_lcm_duration(cycle_a, cycle_b, max_loops, tolerance)`: `cycle_b`
   * when `cycle_a` is not positive, `cycle_a` when `cycle_b` is not, and
   * otherwise `LoopCount` text cycles.
   */
  function LcmDuration(a: real, b: real, maxLoops: int, tolerance: real): (r: real)
    ensures a <= 0.0 ==> r == b
    ensures 0.0 < a && b <= 0.0 ==> r == a
    ensures 0.0 < a && 0.0 < b ==> a <= r && (1 <= maxLoops ==> r <= Cycles(a, maxLoops))
    ensures 0.0 < a && 0.0 < b ==> exists n :: 1 <= n && r == Cycles(a, n) && LeastAligned(a, b, n, maxLoops, tolerance)
  {
    if a <= 0.0 then b
    else if b <= 0.0 then a
    else
      var n := LoopCount(a, b, maxLoops, tolerance);
      CyclesRange(a, n, maxLoops);
      Cycles(a, n)
  }

  /**
   * `n` is the count `_find_lcm_duration` settles on: the least aligned
   * count up to `maxLoops`, or 1 when no count in range aligns.
   */
  predicate LeastAligned(a: real, b: real, n: int, maxLoops: int, tolerance: real)
    requires 0.0 < b
  {
    (n <= maxLoops && AlignedAt(a, b, n, tolerance) && forall m :: 1 <= m < n ==> !AlignedAt(a, b, m, tolerance))
    || (n == 1 && forall m :: 1 <= m <= maxLoops ==> !AlignedAt(a, b, m, tolerance))
  }

  /** The search loop of `_find_lcm_duration`, returning as soon as a count aligns. */
  method FindLcmDuration(a: real, b: real, maxLoops: int, tolerance: real) returns (d: real)
    ensures d == LcmDuration(a, b, maxLoops, tolerance)
  {
    if a <= 0.0 {
      return b;
    }
    if b <= 0.0 {
      return a;
    }
    var n := 1;
    while n <= maxLoops
      invariant 1 <= n
      invariant FirstAligned(a, b, n, maxLoops, tolerance) == FirstAligned(a, b, 1, maxLoops, tolerance)
      decreases maxLoops + 1 - n
    {
      var duration := a * n as real;
      assert duration == Cycles(a, n);
      var remainder := FloorMod(duration, b);
      if remainder < b * tolerance || remainder > b * (1.0 - tolerance) {
        return duration;
      }
      n := n + 1;
    }
    return a;
  }

  /** One background cycle: `1 / bg_flicker_speed`, or 0 when the pulse is off. */
  function FlickerCycle(speed: real): (c: real)
    ensures 0.0 < speed <==> 0.0 < c
  {
    if speed > 0.0 then 1.0 / speed else 0.0
  }

  /**
   * `estimate_loop_duration` for a text unit measured at `measured` pixels:
   * the text cycle is `measured / 200`, with no fallback for a degenerate
   * measurement.
   */
  function LoopDuration(measured: int, speed: real): (r: real)
    ensures 0 <= measured ==> 0.0 <= r
    ensures 1 <= measured ==> Renderer.ScrollPeriod(measured) <= r <= Cycles(Renderer.ScrollPeriod(measured), MaxLoops)
  {
    var textCycle := Renderer.ScrollPeriod(measured);
    CyclesRange(textCycle, 1, MaxLoops);
    var flickerCycle := FlickerCycle(speed);
    if flickerCycle <= 0.0 then textCycle
    else LcmDuration(textCycle, flickerCycle, MaxLoops, Tolerance)
  }

  /** The estimate, computed with the search loop. */
  method EstimateLoopDuration(measured: int, speed: real) returns (d: real)
    ensures d == LoopDuration(measured, speed)
  {
    var textCycle := measured as real / Renderer.ScrollSpeed as real;
    var flickerCycle := if speed > 0.0 then 1.0 / speed else 0.0;
    if flickerCycle <= 0.0 {
      return textCycle;
    }
    d := FindLcmDuration(textCycle, flickerCycle, MaxLoops, Tolerance);
  }

  /** For a real measurement the estimate is a whole number (1 to 10) of text cycles. */
  lemma LoopDurationWholeCycles(measured: int, speed: real)
    requires 1 <= measured
    ensures exists n :: 1 <= n <= MaxLoops && LoopDuration(measured, speed) == Cycles(Renderer.ScrollPeriod(measured), n)
  {
    var p := Renderer.ScrollPeriod(measured);
    var fc := FlickerCycle(speed);
    assert 0.0 < p;
    if fc <= 0.0 {
      assert LoopDuration(measured, speed) == Cycles(p, 1);
    } else {
      var n := LoopCount(p, fc, MaxLoops, Tolerance);
      assert LoopDuration(measured, speed) == Cycles(p, n);
    }
  }

  /** With the background pulse off the loop is one text cycle. */
  lemma LoopDurationStatic(measured: int, speed: real)
    requires speed <= 0.0
    ensures LoopDuration(measured, speed) == measured as real / 200.0
  {
  }

  /** A 400 px unit scrolls in 2 s and a pulse speed of 0.5 also takes 2 s: the loop is 2 s. */
  lemma LoopDurationExample()
    ensures LoopDuration(400, 0.5) == 2.0
  {
    assert FlickerCycle(0.5) == 2.0;
    assert Cycles(2.0, 1) == 2.0;
    assert FloorMod(2.0, 2.0) == 0.0;
    assert AlignedAt(2.0, 2.0, 1, Tolerance);
    assert FirstAligned(2.0, 2.0, 1, MaxLoops, Tolerance) == Some(1);
  }

  /**
   * Played from a frame after the banner is out, a loop of the estimated
   * length returns the marquee to the same scroll position.
   */
  lemma LoopScrollSeamless(t: real, cfg: Renderer.Config, measured: int)
    requires 1 <= measured && Renderer.ExpandedAt(cfg) <= t
    ensures var d := LoopDuration(measured, cfg.bgFlickerSpeed);
      Renderer.ScrollStart(Renderer.ScrollOffset(t + d, cfg), measured)
      == Renderer.ScrollStart(Renderer.ScrollOffset(t, cfg), measured)
  {
    LoopDurationWholeCycles(measured, cfg.bgFlickerSpeed);
    var d := LoopDuration(measured, cfg.bgFlickerSpeed);
    var p := Renderer.ScrollPeriod(measured);
    var n :| 1 <= n <= MaxLoops && d == Cycles(p, n);
    CyclesLater(t, p, n);
    Renderer.ScrollPeriodic(t, cfg, measured, n);
  }

  lemma CyclesLater(t: real, a: real, n: int)
    ensures t + Cycles(a, n) == Later(t, n, a)
  {
    assert a * n as real == n as real * a;
  }

  /**
   * When the estimate is an exact multiple of the pulse's cycle, a loop of
   * that length also returns the background to the same colour.
   */
  lemma LoopPulseSeamless(t: real, cfg: Renderer.Config, measured: int, c1: Colors.Rgb, c2: Colors.Rgb)
    requires 0 <= measured && 0.0 < cfg.bgFlickerSpeed && Renderer.ExpandedAt(cfg) < t
    requires FloorMod(LoopDuration(measured, cfg.bgFlickerSpeed), FlickerCycle(cfg.bgFlickerSpeed)) == 0.0
    ensures var d := LoopDuration(measured, cfg.bgFlickerSpeed);
      Renderer.BackgroundColor(t + d, cfg, c1, c2) == Renderer.BackgroundColor(t, cfg, c1, c2)
  {
    var s := cfg.bgFlickerSpeed;
    var d := LoopDuration(measured, s);
    var j := WholeMultiple(d, FlickerCycle(s));
    assert t + d == Later(t, j, 1.0 / s);
    Renderer.BackgroundPeriodic(t, cfg, c1, c2, j);
  }

  /** A non-negative `d` that leaves nothing over `m` is a whole number of `m`s. */
  lemma WholeMultiple(d: real, m: real) returns (j: nat)
    requires 0.0 <= d && 0.0 < m && FloorMod(d, m) == 0.0
    ensures d == Later(0.0, j, m)
  {
    var q := (d / m).Floor;
    var x := q as real * m;
    assert d == x;
    if q < 0 {
      MulLt(q as real, 0.0, m);
      assert false;
    }
    j := q;
  }
}
