/**
 * Dragging a panel by its title strip and dropping it on a dock zone
 * (UIPanel.SetDock and the title-strip part of UIPanel.Update,
 * DarkUI.Core/Controls/UIPanel.cs), as functions of the panel's state.
 */
module Dragging {
  import opened Wrappers
  import opened Geometry
  import opened Docking

  /** The fields of a panel that docking and dragging read and write. */
  datatype DragState = DragState(bounds: Rect, dock: DockStyle, dragging: bool, offset: Point, zone: Option<DockZone>)

  /**
   * UIPanel.SetDock: the new state and whether OnDockStateChanged is raised.
   * Docking (to anything but None) cancels a drag in progress.
   */
  function SetDockStep(s: DragState, d: DockStyle): (r: (DragState, bool))
    ensures r.0.dock == d && r.0.bounds == s.bounds && r.0.offset == s.offset
    // the event fires exactly when the style changes
    ensures r.1 <==> d != s.dock
    ensures !r.1 ==> r.0 == s
    ensures r.1 && d != DockStyle.None ==> !r.0.dragging && r.0.zone == Option.None
    ensures d == DockStyle.None ==> r.0.dragging == s.dragging && r.0.zone == s.zone
  {
    if s.dock == d then (s, false)
    else if d != DockStyle.None then (s.(dock := d, dragging := false, zone := Option.None), true)
    else (s.(dock := d), true)
  }

  /** Whether a pointer at `p` is on the part of the panel that starts and continues a drag. */
  predicate OnTitleStrip(s: DragState, draggable: bool, p: Point) {
    draggable && TitleStrip(s.bounds).Contains(p)
  }

  /**
   * The title-strip part of UIPanel.Update: the new state and whether
   * OnDockStateChanged is raised.  `zones` is the panel's list of
   * available dock zones at the time of the call.
   */
  function DragStep(s: DragState, draggable: bool, zones: seq<DockZone>, p: Point, pressed: bool): (r: (DragState, bool))
    // off the title strip (or when not draggable) nothing happens, not even a release
    ensures !OnTitleStrip(s, draggable, p) ==> r == (s, false)
    // a press on the strip starts a drag, remembering where in the panel it was grabbed
    ensures OnTitleStrip(s, draggable, p) && pressed && !s.dragging
      ==> r == (s.(dragging := true, offset := Point(p.x - s.bounds.x, p.y - s.bounds.y)), false)
    // while held, the grabbed point follows the pointer and the zone under the pointer becomes active
    ensures OnTitleStrip(s, draggable, p) && pressed && s.dragging
      ==> (!r.1 && r.0.dragging && r.0.offset == s.offset && r.0.dock == s.dock
           && r.0.bounds == Rect(p.x - s.offset.x, p.y - s.offset.y, s.bounds.width, s.bounds.height)
           && r.0.zone == FirstZoneContaining(zones, p))
    // a release ends the drag; it docks to the active zone's style if a drag was in progress over one
    ensures OnTitleStrip(s, draggable, p) && !pressed
      ==> (!r.0.dragging && r.0.zone == Option.None && r.0.bounds == s.bounds && r.0.offset == s.offset
           && r.0.dock == (if s.dragging && s.zone.Some? then s.zone.value.dockStyle else s.dock)
           && (r.1 <==> r.0.dock != s.dock))
  {
    if !OnTitleStrip(s, draggable, p) then (s, false)
    else if pressed && !s.dragging then
      (s.(dragging := true, offset := Point(p.x - s.bounds.x, p.y - s.bounds.y)), false)
    else if pressed && s.dragging then
      var moved := Rect(p.x - s.offset.x, p.y - s.offset.y, s.bounds.width, s.bounds.height);
      (s.(bounds := moved, zone := FirstZoneContaining(zones, p)), false)
    else if s.zone.Some? && s.dragging then
      var (docked, raised) := SetDockStep(s, s.zone.value.dockStyle);
      (docked.(zone := Option.None, dragging := false), raised)
    else
      (s.(dragging := false, zone := Option.None), false)
  }

  /** Only a release over an active zone, ending a drag, changes the dock style. */
  lemma DockChangesOnlyOnDrop(s: DragState, draggable: bool, zones: seq<DockZone>, p: Point, pressed: bool)
    ensures var r := DragStep(s, draggable, zones, p, pressed);
      r.0.dock != s.dock ==> !pressed && s.dragging && s.zone.Some? && r.0.dock == s.zone.value.dockStyle && r.1
  {
  }

  /**
   * Press on the strip at `p`, then keep the button held with the pointer
   * at `q` still on the strip: the panel moves by exactly `q - p`.
   */
  lemma PressThenHoldMovesByDelta(s: DragState, zones: seq<DockZone>, p: Point, q: Point)
    requires !s.dragging && OnTitleStrip(s, true, p) && OnTitleStrip(s, true, q)
    ensures var s1 := DragStep(s, true, zones, p, true).0;
      var s2 := DragStep(s1, true, zones, q, true).0;
      s2.bounds == Rect(s.bounds.x + (q.x - p.x), s.bounds.y + (q.y - p.y), s.bounds.width, s.bounds.height)
      && s2.dragging
  {
  }

  /**
   * A held drag keeps the grab point under the pointer: when the grab
   * offset lies on the strip, the pointer is still on the moved panel's strip.
   */
  lemma HeldDragKeepsPointerOnStrip(s: DragState, zones: seq<DockZone>, p: Point)
    requires s.dragging && OnTitleStrip(s, true, p)
    requires 0 <= s.offset.x < s.bounds.width && 0 <= s.offset.y < TitleHeight
    ensures OnTitleStrip(DragStep(s, true, zones, p, true).0, true, p)
  {
  }

  /**
   * The drag only advances while the pointer is on the strip as it was
   * before the frame: a pointer that jumps off the strip leaves the panel
   * where it is, still dragging.
   */
  lemma JumpOffStripStallsDrag(s: DragState, zones: seq<DockZone>, p: Point)
    requires s.dragging && !TitleStrip(s.bounds).Contains(p)
    ensures DragStep(s, true, zones, p, true) == (s, false)
  {
  }

  /**
   * Drag and drop onto the Left band of a 1280x720 screen: a 200x200 panel
   * at (20, 300) grabbed at (30, 310), held at (40, 310) and released there
   * ends up docked Left, with the event raised.
   */
  lemma DropOnLeftBandDocksLeft()
    ensures var zones := ComputeZones(1280, 720);
      var s0 := DragState(Rect(20, 300, 200, 200), DockStyle.None, false, Point(0, 0), Option.None);
      var s1 := DragStep(s0, true, zones, Point(30, 310), true).0;
      var s2 := DragStep(s1, true, zones, Point(40, 310), true).0;
      var (s3, raised) := DragStep(s2, true, zones, Point(40, 310), false);
      s2.bounds == Rect(30, 300, 200, 200) && s2.zone == Some(zones[0])
      && s3.dock == DockStyle.Left && raised && !s3.dragging
  {
    var zones := ComputeZones(1280, 720);
    assert FirstZoneIndex(zones, Point(40, 310)) == 0;
  }
}
