/**
 * The widgets of DarkUI.Core/Controls: UIControl and its subclasses
 * UIPanel, UIButton and UILabel.  They are one class here, tagged by
 * `kind`; the fields a subclass adds are present (and unused) on the
 * other kinds.  Events are not delivered to subscribers: the methods
 * return the events they raise, in order.
 */
module Controls {
  import opened Wrappers
  import opened Geometry
  import opened Lists
  import opened Docking
  import opened Input
  import opened Dragging

  datatype Kind = PanelKind | ButtonKind | LabelKind

  /** An event a control raises, with its sender. */
  datatype UIEvent = PointerRaised(sender: Control, event: PointerEvent) | DockStateChanged(sender: Control)

  /** The pointer events of one control, tagged with their sender. */
  function Tagged(sender: Control, events: seq<PointerEvent>): seq<UIEvent> {
    seq(|events|, k requires 0 <= k < |events| => PointerRaised(sender, events[k]))
  }

  /** What a leaf's update reads besides its state: button or label, toggle, enabled and visible, bounds. */
  datatype LeafSettings = LeafSettings(isButton: bool, isToggle: bool, active: bool, bounds: Rect)

  /**
   * The children loop of UIPanel.Update on values: in list order each
   * child takes one LeafStep from the state `st` holds for it at that
   * point (a child listed twice steps twice), giving the children's new
   * states and the events they raise, in order.
   */
  function ChildrenStep(cs: seq<Control>, conf: map<Control, LeafSettings>, st: map<Control, LeafState>,
                        pointer: Point, pressed: bool): (r: (map<Control, LeafState>, seq<UIEvent>))
    requires forall c <- cs :: c in conf && c in st
    ensures r.0.Keys == st.Keys
    ensures forall c <- st.Keys :: c !in cs ==> r.0[c] == st[c]
    ensures forall e <- r.1 :: e.PointerRaised? && e.sender in cs
    decreases |cs|
  {
    if |cs| == 0 then (st, [])
    else
      var c := cs[|cs| - 1];
      var (mid, events) := ChildrenStep(cs[..|cs| - 1], conf, st, pointer, pressed);
      var (s, raised) := ChildStep(conf[c], mid[c], pointer, pressed);
      (mid[c := s], events + Tagged(c, raised))
  }

  /** One LeafStep of a leaf with settings `k`. */
  function ChildStep(k: LeafSettings, s: LeafState, pointer: Point, pressed: bool): (LeafState, seq<PointerEvent>) {
    LeafStep(k.isButton, s, k.isToggle, k.active, k.bounds, pointer, pressed)
  }

  /** When no child is listed twice, each child takes exactly one step from its own state. */
  lemma {:induction false} DistinctChildrenStepOnce(cs: seq<Control>, conf: map<Control, LeafSettings>,
                                                    st: map<Control, LeafState>, pointer: Point, pressed: bool)
    requires forall c <- cs :: c in conf && c in st
    requires Distinct(cs)
    ensures forall c <- cs :: ChildrenStep(cs, conf, st, pointer, pressed).0[c] == ChildStep(conf[c], st[c], pointer, pressed).0
  {
    if |cs| > 0 {
      var n := |cs| - 1;
      var last := cs[n];
      assert Distinct(cs[..n]);
      assert last !in cs[..n];
      DistinctChildrenStepOnce(cs[..n], conf, st, pointer, pressed);
      forall c <- cs
        ensures ChildrenStep(cs, conf, st, pointer, pressed).0[c] == ChildStep(conf[c], st[c], pointer, pressed).0
      {
        if c != last {
          assert c in cs[..n];
        }
      }
    }
  }

  /** The loop after `i + 1` children, from the loop after `i`. */
  lemma ChildStepExtends(cs: seq<Control>, i: nat, conf: map<Control, LeafSettings>, st0: map<Control, LeafState>,
                         st: map<Control, LeafState>, events: seq<UIEvent>, pointer: Point, pressed: bool)
    requires i < |cs| && forall c <- cs :: c in conf && c in st0
    requires (st, events) == ChildrenStep(cs[..i], conf, st0, pointer, pressed)
    ensures var step := ChildStep(conf[cs[i]], st[cs[i]], pointer, pressed);
      ChildrenStep(cs[..i + 1], conf, st0, pointer, pressed) == (st[cs[i] := step.0], events + Tagged(cs[i], step.1))
  {
    assert cs[..i + 1][..i] == cs[..i];
  }

  /** The widget states of the given controls. */
  ghost function Widgets(cs: seq<Control>): (m: map<Control, LeafState>)
    reads cs
    ensures forall c <- cs :: c in m && m[c] == c.Widget()
    decreases |cs|
  {
    if |cs| == 0 then map[] else Widgets(cs[..|cs| - 1])[cs[|cs| - 1] := cs[|cs| - 1].Widget()]
  }

  /** The settings of the given controls. */
  function Settings(cs: seq<Control>): (m: map<Control, LeafSettings>)
    reads cs`isToggleButton, cs`enabled, cs`visible, cs`bounds
    ensures forall c <- cs :: c in m && m[c] == c.Setting()
    decreases |cs|
  {
    if |cs| == 0 then map[] else Settings(cs[..|cs| - 1])[cs[|cs| - 1] := cs[|cs| - 1].Setting()]
  }

  /** The children loop of UIPanel.Update: `Update` on each control of `cs`, in order. */
  method UpdateLeaves(cs: seq<Control>, pointer: Point, pressed: bool) returns (events: seq<UIEvent>)
    requires forall c <- cs :: c.kind != PanelKind
    modifies cs`isMouseOver, cs`isMouseDown, cs`checked
    ensures var r := ChildrenStep(cs, old(Settings(cs)), old(Widgets(cs)), pointer, pressed);
      events == r.1 && forall c <- cs :: c.Widget() == r.0[c]
  {
    ghost var conf, before := Settings(cs), Widgets(cs);
    ghost var st := before;
    events := [];
    var i := 0;
    while i < |cs|
      invariant i <= |cs|
      invariant forall c <- cs :: c in st && c.Widget() == st[c]
      invariant (st, events) == ChildrenStep(cs[..i], conf, before, pointer, pressed)
    {
      var child := cs[i];
      assert conf[child] == old(child.Setting()) == child.Setting();
      ChildStepExtends(cs, i, conf, before, st, events, pointer, pressed);
      var raised;
      raised, st := UpdateChild(cs, child, conf[child], st, pointer, pressed);
      events := events + Tagged(child, raised);
      i := i + 1;
    }
    assert cs[..i] == cs;
  }

  /**
   * One pass of the children loop: `child.Update`, with `st` following the
   * widget states of the controls in `cs`.
   */
  method UpdateChild(ghost cs: seq<Control>, child: Control, ghost k: LeafSettings, ghost st: map<Control, LeafState>,
                     pointer: Point, pressed: bool)
    returns (raised: seq<PointerEvent>, ghost st': map<Control, LeafState>)
    requires child in cs && child.kind != PanelKind && k == child.Setting()
    requires forall c <- cs :: c in st && c.Widget() == st[c]
    modifies child`isMouseOver, child`isMouseDown, child`checked
    ensures var step := ChildStep(k, st[child], pointer, pressed);
      raised == step.1 && st' == st[child := step.0]
    ensures forall c <- cs :: c in st' && c.Widget() == st'[c]
  {
    raised := child.Update(pointer, pressed);
    st' := st[child := child.Widget()];
    forall c <- cs
      ensures c in st' && c.Widget() == st'[c]
    {
      if c != child {
        assert c.Widget() == old(c.Widget());
      }
    }
  }

  class Control {
    const kind: Kind
    var bounds: Rect
    var visible: bool
    var enabled: bool
    var parent: Control?
    var tabIndex: int
    var isMouseOver: bool
    var isMouseDown: bool
    // UILabel and UIButton
    var text: string
    var isToggleButton: bool
    var checked: bool
    // UIPanel
    var title: string
    var showTitle: bool
    var dock: DockStyle
    var dockSize: real
    var isDockable: bool
    var isDraggable: bool
    var isModal: bool
    var children: seq<Control>
    var isDragging: bool
    var dragStartOffset: Point
    var activeDockZone: Option<DockZone>
    var availableDockZones: ZoneList
    /** The number of handlers subscribed to OnDockStateChanged: one per registration with the manager. */
    var dockHandlers: nat

    /**
     * The (x, y, width, height, text) constructors of UILabel, UIButton and
     * UIPanel; for a panel the text is its title.
     */
    constructor (kind: Kind, x: int, y: int, width: int, height: int, text: string)
      ensures this.kind == kind && bounds == Rect(x, y, width, height)
      ensures visible && enabled && parent == null && tabIndex == 0 && !isMouseOver && !isMouseDown
      ensures kind == PanelKind ==> title == text
      ensures kind != PanelKind ==> this.text == text
      ensures !isToggleButton && !checked
      ensures showTitle && dock == DockStyle.None && dockSize == 0.25 && isDockable && isDraggable && !isModal
      ensures children == [] && !isDragging && dragStartOffset == Point(0, 0) && activeDockZone == Option.None
      ensures fresh(availableDockZones) && availableDockZones.zones == [] && dockHandlers == 0
    {
      this.kind := kind;
      bounds := Rect(x, y, width, height);
      visible := true;
      enabled := true;
      parent := null;
      tabIndex := 0;
      isMouseOver := false;
      isMouseDown := false;
      this.text := if kind == PanelKind then "" else text;
      isToggleButton := false;
      checked := false;
      title := if kind == PanelKind then text else "";
      showTitle := true;
      dock := DockStyle.None;
      dockSize := 0.25;
      isDockable := true;
      isDraggable := true;
      isModal := false;
      children := [];
      isDragging := false;
      dragStartOffset := Point(0, 0);
      activeDockZone := Option.None;
      availableDockZones := new ZoneList();
      dockHandlers := 0;
    }

    ghost function Hovering(): Hover
      reads this
    {
      Hover(isMouseOver, isMouseDown)
    }

    ghost function Widget(): LeafState
      reads this
    {
      LeafState(Hover(isMouseOver, isMouseDown), checked)
    }

    ghost function Drag(): DragState
      reads this
    {
      DragState(bounds, dock, isDragging, dragStartOffset, activeDockZone)
    }

    /** What an update of this control reads besides its widget state. */
    function Setting(): LeafSettings
      reads this`isToggleButton, this`enabled, this`visible, this`bounds
    {
      LeafSettings(kind == ButtonKind, isToggleButton, enabled && visible, bounds)
    }

    /** Panels hold only buttons and labels. */
    ghost predicate LeafChildren()
      reads this`children
    {
      forall c <- children :: c.kind != PanelKind
    }

    /** UIControl.Update. */
    method BaseUpdate(pointer: Point, pressed: bool) returns (events: seq<PointerEvent>)
      modifies this`isMouseOver, this`isMouseDown
      ensures (Hovering(), events) == PointerStep(old(Hovering()), enabled && visible, bounds, pointer, pressed)
    {
      events := [];
      if !enabled || !visible {
        assert PointerStep(old(Hovering()), false, bounds, pointer, pressed) == (Hovering(), []);
        return;
      }
      var wasMouseOver := isMouseOver;
      var wasMouseDown := isMouseDown;
      isMouseOver := bounds.Contains(pointer);
      if isMouseOver && !wasMouseOver {
        events := events + [MouseEnter];
      } else if !isMouseOver && wasMouseOver {
        events := events + [MouseLeave];
      }
      if isMouseOver {
        if pressed && !isMouseDown {
          isMouseDown := true;
          events := events + [MouseDown];
        } else if !pressed && isMouseDown {
          isMouseDown := false;
          events := events + [MouseUp, Click];
        }
      } else if wasMouseDown {
        isMouseDown := false;
        events := events + [MouseUp];
      }
      assert Hovering() == PointerStep(old(Hovering()), true, bounds, pointer, pressed).0;
      assert events == PointerStep(old(Hovering()), true, bounds, pointer, pressed).1;
    }

    /** Update of a button or a label: UIButton.Update, or UIControl.Update for a label. */
    method Update(pointer: Point, pressed: bool) returns (events: seq<PointerEvent>)
      requires kind != PanelKind
      modifies this`isMouseOver, this`isMouseDown, this`checked
      ensures (Widget(), events) == ChildStep(Setting(), old(Widget()), pointer, pressed)
    {
      events := BaseUpdate(pointer, pressed);
      if kind == ButtonKind && isToggleButton && isMouseOver && pressed {
        checked := !checked;
      }
    }

    /** UIPanel.SetDockZones: the panel shares the given list; later changes to it are seen. */
    method SetDockZones(zoneList: ZoneList)
      requires kind == PanelKind
      modifies this`availableDockZones
      ensures availableDockZones == zoneList
    {
      availableDockZones := zoneList;
    }

    /** UIPanel.SetDock; `raised` tells whether OnDockStateChanged was raised. */
    method SetDock(d: DockStyle) returns (raised: bool)
      requires kind == PanelKind
      modifies this`dock, this`isDragging, this`activeDockZone
      ensures (Drag(), raised) == SetDockStep(old(Drag()), d)
    {
      var oldDock := dock;
      if oldDock == d {
        return false;
      }
      dock := d;
      if d != DockStyle.None {
        isDragging := false;
        activeDockZone := Option.None;
      }
      raised := true;
    }

    /**
     * UIPanel.Update up to the update of its children: the base update, the
     * modal early return and the title-strip drag.  `proceed` is false when
     * the source returns early; `raised` tells whether OnDockStateChanged
     * was raised (by a drop).
     */
    method UpdateSelf(pointer: Point, pressed: bool) returns (events: seq<PointerEvent>, proceed: bool, raised: bool)
      requires kind == PanelKind
      modifies this`isMouseOver, this`isMouseDown, this`bounds, this`dock, this`isDragging
      modifies this`dragStartOffset, this`activeDockZone
      ensures (Hovering(), events) == PointerStep(old(Hovering()), enabled && visible, old(bounds), pointer, pressed)
      ensures proceed <==> !(isModal && !old(bounds).Contains(pointer))
      ensures proceed ==> (Drag(), raised) == DragStep(old(Drag()), isDraggable, availableDockZones.zones, pointer, pressed)
      ensures !proceed ==> Drag() == old(Drag()) && !raised
    {
      events := BaseUpdate(pointer, pressed);
      raised := false;
      if isModal && !bounds.Contains(pointer) {
        return events, false, false;
      }
      proceed := true;
      if isDraggable && Rect(bounds.x, bounds.y, bounds.width, TitleHeight).Contains(pointer) {
        if pressed && !isDragging {
          isDragging := true;
          dragStartOffset := Point(pointer.x - bounds.x, pointer.y - bounds.y);
        } else if pressed && isDragging {
          bounds := Rect(pointer.x - dragStartOffset.x, pointer.y - dragStartOffset.y, bounds.width, bounds.height);
          activeDockZone := Option.None;
          var zones := availableDockZones.zones;
          var k := 0;
          while k < |zones|
            invariant k <= |zones|
            invariant forall j :: 0 <= j < k ==> !zones[j].zoneBounds.Contains(pointer)
            invariant activeDockZone == Option.None
          {
            if zones[k].zoneBounds.Contains(pointer) {
              activeDockZone := Some(zones[k]);
              break;
            }
            k := k + 1;
          }
          assert FirstZoneIndex(zones, pointer) == k;
        } else if !pressed {
          if activeDockZone.Some? && isDragging {
            raised := SetDock(activeDockZone.value.dockStyle);
            activeDockZone := Option.None;
            isDragging := false;
          } else {
            isDragging := false;
            activeDockZone := Option.None;
          }
        }
      }
    }

    /**
     * The rest of UIPanel.Update: every child is updated with the absolute
     * pointer when the pointer is inside the panel's (current) bounds or the
     * panel is modal.
     */
    method UpdateChildren(pointer: Point, pressed: bool) returns (events: seq<UIEvent>)
      requires kind == PanelKind && LeafChildren()
      modifies children`isMouseOver, children`isMouseDown, children`checked
      ensures !(bounds.Contains(pointer) || isModal)
        ==> events == [] && forall c <- children :: c.Widget() == old(c.Widget())
      // stated for the prefix of length |children|, that is the whole list, so
      // that only a caller naming that prefix draws the loop's result in
      ensures (bounds.Contains(pointer) || isModal) ==> forall n: nat
        {:trigger ChildrenStep(children[..n], old(Settings(children)), old(Widgets(children)), pointer, pressed)} | n == |children| ::
        var r := ChildrenStep(children[..n], old(Settings(children)), old(Widgets(children)), pointer, pressed);
        events == r.1 && forall c <- children :: c.Widget() == r.0[c]
      ensures forall e <- events :: e.PointerRaised? && e.sender in children
    {
      var isMouseInPanel := bounds.Contains(pointer);
      // the source tests this for each child; nothing in the loop changes it
      if isMouseInPanel || isModal {
        events := UpdateLeaves(children, pointer, pressed);
        assert children[..|children|] == children;
      } else {
        events := [];
      }
    }

    /**
     * UIPanel.UpdateDockedBounds: a docked panel takes its share of
     * `parentBounds`; the event is raised only when the bounds change.
     */
    method UpdateDockedBounds(parentBounds: Rect) returns (raised: bool)
      requires kind == PanelKind
      modifies this`bounds
      ensures dock == DockStyle.None ==> bounds == old(bounds)
      ensures dock != DockStyle.None ==> bounds == DockedBounds(dock, parentBounds, dockSize)
      ensures raised <==> bounds != old(bounds)
    {
      if dock == DockStyle.None {
        return false;
      }
      var originalBounds := bounds;
      match dock {
        case Left =>
          bounds := Rect(parentBounds.x, parentBounds.y, Trunc(parentBounds.width as real * dockSize), parentBounds.height);
        case Right =>
          bounds := Rect(parentBounds.x + parentBounds.width - Trunc(parentBounds.width as real * dockSize), parentBounds.y,
                         Trunc(parentBounds.width as real * dockSize), parentBounds.height);
        case Top =>
          bounds := Rect(parentBounds.x, parentBounds.y, parentBounds.width, Trunc(parentBounds.height as real * dockSize));
        case Bottom =>
          bounds := Rect(parentBounds.x, parentBounds.y + parentBounds.height - Trunc(parentBounds.height as real * dockSize),
                         parentBounds.width, Trunc(parentBounds.height as real * dockSize));
        case Fill =>
          bounds := Rect(parentBounds.x, parentBounds.y, parentBounds.width, parentBounds.height);
      }
      raised := originalBounds != bounds;
    }

    /** UIPanel.AddControl. */
    method AddControl(control: Control)
      requires kind == PanelKind && control.kind != PanelKind
      modifies this`children, control`parent
      ensures children == old(children) + [control] && control.parent == this
      ensures old(LeafChildren()) ==> LeafChildren()
    {
      control.parent := this;
      children := children + [control];
    }

    /** UIPanel.RemoveControl: the parent link is cleared even when `control` is not a child. */
    method RemoveControl(control: Control)
      requires kind == PanelKind
      modifies this`children, control`parent
      ensures children == RemoveFirst(old(children), control) && control.parent == null
      ensures multiset(children) == multiset(old(children)) - multiset{control}
      ensures old(LeafChildren()) ==> LeafChildren()
    {
      control.parent := null;
      ghost var before := children;
      children := RemoveFirst(children, control);
      RemoveFirstCount(before, control);
      forall c <- children
        ensures c in before
      {
        assert c in multiset(children);
      }
    }

    /** UIPanel.IsDragging. */
    function IsDragging(): (r: bool)
      reads this
      ensures r == Drag().dragging
    {
      isDragging
    }

    /** UIPanel.GetActiveDockZone. */
    function GetActiveDockZone(): (r: Option<DockZone>)
      reads this
      ensures r == Drag().zone
    {
      activeDockZone
    }
  }
}
