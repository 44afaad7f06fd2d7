/**
 * The pointer state machine every control runs each frame
 * (UIControl.Update, DarkUI.Core/Controls/UIControl.cs) and the toggle
 * rule UIButton layers on top of it (DarkUI.Core/Controls/UIButton.cs),
 * as functions of the control's state, its bounds and the pointer.
 */
module Input {
  import opened Geometry

  /** The events UIControl raises; they are returned in the order the source raises them. */
  datatype PointerEvent = MouseEnter | MouseLeave | MouseDown | MouseUp | Click

  /** UIControl's two state fields, `_isMouseOver` and `_isMouseDown`. */
  datatype Hover = Hover(over: bool, down: bool)

  /**
   * UIControl.Update: the new state and the events raised, for a control
   * that is `active` (Enabled and Visible) with the given bounds.
   */
  function PointerStep(h: Hover, active: bool, bounds: Rect, p: Point, pressed: bool): (r: (Hover, seq<PointerEvent>))
    // a disabled or invisible control changes nothing and raises nothing
    ensures !active ==> r == (h, [])
    ensures active ==> r.0.over == bounds.Contains(p)
    // after an active update the control is pressed exactly when the button is held over it
    ensures active ==> r.0.down == (r.0.over && pressed)
  {
    if !active then (h, [])
    else
      var over := bounds.Contains(p);
      var crossing := if over && !h.over then [MouseEnter] else if !over && h.over then [MouseLeave] else [];
      if over then
        if pressed && !h.down then (Hover(true, true), crossing + [MouseDown])
        else if !pressed && h.down then (Hover(true, false), crossing + [MouseUp, Click])
        else (Hover(true, h.down), crossing)
      else if h.down then (Hover(false, false), crossing + [MouseUp])
      else (Hover(false, h.down), crossing)
  }

  /**
   * Which events an update raises: each one marks the matching change of
   * state, and a Click always comes right after a MouseUp.
   */
  lemma PointerStepEvents(h: Hover, active: bool, bounds: Rect, p: Point, pressed: bool)
    ensures var (h', events) := PointerStep(h, active, bounds, p, pressed);
      && (MouseEnter in events <==> active && !h.over && h'.over)
      && (MouseLeave in events <==> active && h.over && !h'.over)
      && (MouseDown in events <==> active && h'.over && pressed && !h.down)
      && (MouseUp in events <==> active && h.down && !h'.down)
      && (Click in events <==> active && h'.over && !pressed && h.down)
      && (Click in events ==> |events| >= 2 && events[|events| - 2..] == [MouseUp, Click])
      && |events| <= 3
  {
  }

  /** The state of a leaf widget: UIControl's state plus UIButton.Checked. */
  datatype LeafState = LeafState(hover: Hover, checked: bool)

  /**
   * UIButton.Update: the base update, then `Checked` flips when the button
   * is a toggle button, the (possibly stale) mouse-over flag is set and the
   * button is held.
   */
  function ButtonStep(s: LeafState, isToggle: bool, active: bool, bounds: Rect, p: Point, pressed: bool)
    : (r: (LeafState, seq<PointerEvent>))
    ensures (r.0.hover, r.1) == PointerStep(s.hover, active, bounds, p, pressed)
    ensures r.0.checked != s.checked <==> isToggle && r.0.hover.over && pressed
  {
    var (h, events) := PointerStep(s.hover, active, bounds, p, pressed);
    (LeafState(h, if isToggle && h.over && pressed then !s.checked else s.checked), events)
  }

  /** Update of a leaf widget: UIButton's override for a button, UIControl's for a label. */
  function LeafStep(isButton: bool, s: LeafState, isToggle: bool, active: bool, bounds: Rect, p: Point, pressed: bool)
    : (r: (LeafState, seq<PointerEvent>))
    ensures (r.0.hover, r.1) == PointerStep(s.hover, active, bounds, p, pressed)
    ensures !isButton ==> r.0.checked == s.checked
  {
    if isButton then ButtonStep(s, isToggle, active, bounds, p, pressed)
    else
      var (h, events) := PointerStep(s.hover, active, bounds, p, pressed);
      (LeafState(h, s.checked), events)
  }

  /** The flip happens on every held frame: two held updates over an enabled toggle button restore Checked. */
  lemma HeldTwiceRestoresChecked(s: LeafState, bounds: Rect, p: Point)
    requires bounds.Contains(p)
    ensures var once := ButtonStep(s, true, true, bounds, p, true).0;
      once.checked == !s.checked && ButtonStep(once, true, true, bounds, p, true).0.checked == s.checked
  {
  }

  /**
   * A disabled or invisible toggle button skips the base update, so the
   * held button flips on the stale mouse-over flag, wherever the pointer is.
   */
  lemma InactiveToggleUsesStaleHover(s: LeafState, bounds: Rect, p: Point)
    requires s.hover.over && !bounds.Contains(p)
    ensures ButtonStep(s, true, false, bounds, p, true).0 == LeafState(s.hover, !s.checked)
  {
  }

  /** A full click: press over the control, then release over it, raises MouseDown, then MouseUp and Click. */
  lemma PressReleaseClicks(bounds: Rect, p: Point)
    requires bounds.Contains(p)
    ensures var (h1, e1) := PointerStep(Hover(true, false), true, bounds, p, true);
      e1 == [MouseDown] && PointerStep(h1, true, bounds, p, false) == (Hover(true, false), [MouseUp, Click])
  {
    assert [] + [MouseDown] == [MouseDown];
    assert [] + [MouseUp, Click] == [MouseUp, Click];
  }
}
