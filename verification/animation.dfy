/**
 * The panel animation of UIRenderer (DarkUI.MonoGame/Class1.cs): each
 * panel has a target rectangle (its bounds) and a current, drawn
 * rectangle that is moved towards the target once per call.  The float
 * arithmetic of the source is done on reals; the `(int)` casts truncate
 * toward zero and saturate outside the `int` range.
 */
module Animation {
  import opened Wrappers
  import opened Geometry
  import opened Controls

  /** UIRenderer.AnimationSpeed. */
  const AnimationSpeed: real := 8.0

  /**
   * The interpolation factor of one call: AnimationSpeed * deltaTime * 60,
   * where deltaTime is the elapsed game time in seconds, or 1/60 when no
   * game time is passed.
   */
  function Speed(elapsedSeconds: Option<real>): (speed: real)
    ensures elapsedSeconds == Option.None ==> speed == AnimationSpeed
    ensures elapsedSeconds.Some? ==> speed == 60.0 * AnimationSpeed * elapsedSeconds.value
  {
    AnimationSpeed * (if elapsedSeconds.Some? then elapsedSeconds.value else 1.0 / 60.0) * 60.0
  }

  /** MathHelper.Lerp. */
  function Lerp(a: int, b: int, t: real): (v: real)
    ensures t == 0.0 ==> v == a as real
    ensures t == 1.0 ==> v == b as real
    ensures 0.0 <= t <= 1.0 && a <= b ==> a as real <= v <= b as real
    ensures 0.0 <= t <= 1.0 && b <= a ==> b as real <= v <= a as real
  {
    var d := (b - a) as real;
    assert 0.0 <= t <= 1.0 && 0.0 <= d ==> 0.0 <= d * t <= d;
    assert 0.0 <= t <= 1.0 && d <= 0.0 ==> d <= d * t <= 0.0;
    a as real + d * t
  }

  /** UIRenderer.SafeAbs: Math.Abs, except that int.MinValue maps to int.MaxValue instead of throwing. */
  function SafeAbs(v: int): (r: int)
    requires IntMinValue <= v <= IntMaxValue
    ensures 0 <= r <= IntMaxValue
    ensures v == IntMinValue ==> r == IntMaxValue
    ensures v != IntMinValue ==> r == (if v < 0 then -v else v)
    ensures r <= 1 <==> -1 <= v <= 1
  {
    if v == IntMinValue then IntMaxValue else if v < 0 then -v else v
  }

  /** The snap test of one coordinate: the 32-bit difference is at most 1 in absolute value. */
  predicate Close(v: int, target: int) {
    SafeAbs(Wrap32(v - target)) <= 1
  }

  predicate AllClose(r: Rect, target: Rect) {
    Close(r.x, target.x) && Close(r.y, target.y) && Close(r.width, target.width) && Close(r.height, target.height)
  }

  /** The interpolated rectangle, each coordinate converted to an `int` by `(int)`. */
  function Stepped(current: Rect, target: Rect, speed: real): (r: Rect)
    ensures InIntRange(r)
  {
    Rect(Trunc32(Lerp(current.x, target.x, speed)), Trunc32(Lerp(current.y, target.y, speed)),
         Trunc32(Lerp(current.width, target.width, speed)), Trunc32(Lerp(current.height, target.height, speed)))
  }

  /** The animation step of UpdatePanelAnimation for a panel that is not being dragged. */
  function Advance(current: Rect, target: Rect, speed: real): (r: Rect)
    ensures current == target ==> r == current
    ensures r == target || r == Stepped(current, target, speed)
    // the drawn rectangle stays in the int range of Rectangle's fields
    ensures InIntRange(current) && InIntRange(target) ==> InIntRange(r)
    // the animation arrives exactly when every interpolated coordinate is within a pixel of the target
    ensures current != target ==> (r == target <==> AllClose(Stepped(current, target, speed), target))
  {
    if current == target then current
    else
      var next := Stepped(current, target, speed);
      if AllClose(next, target) then target else next
  }

  /** `v` lies between `a` and `b`, inclusive, whichever is larger. */
  predicate Between(a: int, v: int, b: int) {
    (a <= v <= b) || (b <= v <= a)
  }

  /** A factor in [0, 1] never overshoots: every coordinate stays between its current and target values. */
  lemma FractionalSpeedStaysBetween(current: Rect, target: Rect, speed: real)
    requires 0.0 <= speed <= 1.0 && InIntRange(current) && InIntRange(target)
    ensures var r := Advance(current, target, speed);
      Between(current.x, r.x, target.x) && Between(current.y, r.y, target.y)
      && Between(current.width, r.width, target.width) && Between(current.height, r.height, target.height)
  {
    CoordinateBetween(current.x, target.x, speed);
    CoordinateBetween(current.y, target.y, speed);
    CoordinateBetween(current.width, target.width, speed);
    CoordinateBetween(current.height, target.height, speed);
  }

  lemma CoordinateBetween(a: int, b: int, speed: real)
    requires 0.0 <= speed <= 1.0
    requires IntMinValue <= a <= IntMaxValue && IntMinValue <= b <= IntMaxValue
    ensures Between(a, Trunc32(Lerp(a, b, speed)), b)
  {
    if a <= b {
      Trunc32Between(Lerp(a, b, speed), a, b);
    } else {
      Trunc32Between(Lerp(a, b, speed), b, a);
    }
  }

  /** With a factor of exactly 1 the panel arrives in one step. */
  lemma FullSpeedArrives(current: Rect, target: Rect)
    requires InIntRange(target)
    ensures Advance(current, target, 1.0) == target
  {
    assert Stepped(current, target, 1.0) == target;
  }

  /**
   * At the rate used without a game time (factor 8) the step overshoots by
   * seven times the distance: 10 pixels away becomes 70 pixels on the
   * other side, then 490 pixels on the first side.
   */
  lemma DefaultRateOvershoots()
    ensures Speed(Option.None) == 8.0
    ensures Advance(Rect(0, 0, 100, 30), Rect(10, 0, 100, 30), 8.0) == Rect(80, 0, 100, 30)
    ensures Advance(Rect(80, 0, 100, 30), Rect(10, 0, 100, 30), 8.0) == Rect(-480, 0, 100, 30)
  {
    assert Stepped(Rect(0, 0, 100, 30), Rect(10, 0, 100, 30), 8.0) == Rect(80, 0, 100, 30);
    assert Stepped(Rect(80, 0, 100, 30), Rect(10, 0, 100, 30), 8.0) == Rect(-480, 0, 100, 30);
  }

  /**
   * Left running at factor 8 the overshoot grows sevenfold each step until
   * the conversion saturates; from then on the panel swings between the
   * two ends of the `int` range.
   */
  lemma RunawayOvershootSaturates()
    ensures Advance(Rect(403536080, 0, 100, 30), Rect(10, 0, 100, 30), 8.0) == Rect(IntMinValue, 0, 100, 30)
    ensures Advance(Rect(IntMinValue, 0, 100, 30), Rect(10, 0, 100, 30), 8.0) == Rect(IntMaxValue, 0, 100, 30)
    ensures Advance(Rect(IntMaxValue, 0, 100, 30), Rect(10, 0, 100, 30), 8.0) == Rect(IntMinValue, 0, 100, 30)
  {
    assert Stepped(Rect(403536080, 0, 100, 30), Rect(10, 0, 100, 30), 8.0) == Rect(IntMinValue, 0, 100, 30);
    assert Stepped(Rect(IntMinValue, 0, 100, 30), Rect(10, 0, 100, 30), 8.0) == Rect(IntMaxValue, 0, 100, 30);
    assert Stepped(Rect(IntMaxValue, 0, 100, 30), Rect(10, 0, 100, 30), 8.0) == Rect(IntMinValue, 0, 100, 30);
  }

  /** `n` successive steps towards a fixed target. */
  function Animate(current: Rect, target: Rect, speed: real, n: nat): Rect
    decreases n
  {
    if n == 0 then current
    else
      var next := Advance(current, target, speed);
      Animate(next, target, speed, n - 1)
  }

  /**
   * Truncation can freeze the animation: with a factor of 0.1 a panel 5
   * pixels from its target moves 0.5 pixels, truncated to 0, every step,
   * so it never arrives.
   */
  lemma {:induction false} TruncationStallsForever(n: nat)
    ensures Animate(Rect(0, 0, 100, 30), Rect(5, 0, 100, 30), 0.1, n) == Rect(0, 0, 100, 30)
  {
    var current, target := Rect(0, 0, 100, 30), Rect(5, 0, 100, 30);
    assert Stepped(current, target, 0.1) == current;
    assert !Close(current.x, target.x);
    assert Advance(current, target, 0.1) == current;
    if n > 0 {
      TruncationStallsForever(n - 1);
    }
  }

  /**
   * The snap test subtracts in 32 bits: a coordinate at int.MinValue
   * counts as within a pixel of a target at int.MaxValue, so the panel
   * jumps across the whole range in one step.
   */
  lemma WrappedDifferenceSnaps()
    ensures var current := Rect(IntMinValue, 0, 100, 30);
      var target := Rect(IntMaxValue, 0, 100, 30);
      Stepped(current, target, 0.0) == current && Advance(current, target, 0.0) == target
  {
    var current := Rect(IntMinValue, 0, 100, 30);
    var target := Rect(IntMaxValue, 0, 100, 30);
    assert Stepped(current, target, 0.0) == current;
    assert Wrap32(IntMinValue - IntMaxValue) == 1;
  }

  /**
   * Where one call of UpdatePanelAnimation leaves the drawn rectangle of
   * panel `p` with the given bounds, from the rectangles `current` held
   * before: the bounds while it is dragged, otherwise one step from its
   * drawn rectangle, which starts at the bounds for a panel seen first.
   */
  function AnimationStep(current: map<Control, Rect>, p: Control, bounds: Rect, dragging: bool, speed: real): (r: Rect)
    ensures dragging ==> r == bounds
    ensures !dragging && p !in current ==> r == bounds
    ensures !dragging && p in current ==> r == Advance(current[p], bounds, speed)
  {
    if dragging then bounds else Advance(if p in current then current[p] else bounds, bounds, speed)
  }

  /** The animation state UIRenderer keeps per panel. */
  class Animator {
    var targetBounds: map<Control, Rect>
    var currentBounds: map<Control, Rect>

    ghost predicate Valid()
      reads this
    {
      targetBounds.Keys == currentBounds.Keys
    }

    constructor ()
      ensures Valid() && targetBounds == map[] && currentBounds == map[]
    {
      targetBounds := map[];
      currentBounds := map[];
    }

    /**
     * UIRenderer.UpdatePanelAnimation: the target follows the panel's
     * bounds; the drawn rectangle is the bounds while the panel is being
     * dragged and otherwise takes one animation step.
     */
    method UpdatePanelAnimation(panel: Control, elapsedSeconds: Option<real>)
      requires Valid() && panel.kind == PanelKind
      modifies this
      ensures Valid()
      ensures targetBounds == old(targetBounds)[panel := panel.bounds]
      ensures currentBounds == old(currentBounds)[panel :=
        AnimationStep(old(currentBounds), panel, panel.bounds, panel.IsDragging(), Speed(elapsedSeconds))]
    {
      var speed := Speed(elapsedSeconds);
      if panel !in targetBounds {
        targetBounds := targetBounds[panel := panel.bounds];
        currentBounds := currentBounds[panel := targetBounds[panel]];
      }
      if targetBounds[panel] != panel.bounds {
        targetBounds := targetBounds[panel := panel.bounds];
      }
      ghost var start := if panel in old(currentBounds) then old(currentBounds)[panel] else panel.bounds;
      assert targetBounds == old(targetBounds)[panel := panel.bounds];
      assert currentBounds == old(currentBounds)[panel := start];
      if panel.IsDragging() {
        currentBounds := currentBounds[panel := panel.bounds];
        return;
      }
      var current := currentBounds[panel];
      var target := targetBounds[panel];
      assert current == start && target == panel.bounds;
      if current != target {
        var next := Stepped(current, target, speed);
        if AllClose(next, target) {
          currentBounds := currentBounds[panel := target];
        } else {
          currentBounds := currentBounds[panel := next];
        }
      }
      assert currentBounds == old(currentBounds)[panel := Advance(start, panel.bounds, speed)];
    }
  }
}
