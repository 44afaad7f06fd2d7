/**
 * UIManager (DarkUI.MonoGame/Class1.cs): the list of top-level controls in
 * z-order, the shared list of dock zones, the per-style lists of docked
 * panels, the layout pass that carves the screen among the docked panels,
 * and the per-frame update with its promotion of the control under the
 * pointer.  The specification of the layout pass over values is in module
 * Layout; the methods here are proved to do what it describes to the
 * panel objects.
 */
module Manager {
  import opened Wrappers
  import opened Geometry
  import opened Lists
  import opened Docking
  import opened Input
  import opened Controls
  import opened Layout
  import opened Animation

  /** BringToFront on a list: the first occurrence of `p` moves to the end; nothing happens when `p` is absent. */
  function BroughtToFront<T(==)>(cs: seq<T>, p: T): (r: seq<T>)
    ensures p !in cs ==> r == cs
    ensures p in cs ==> r == MoveToEnd(cs, IndexOf(cs, p))
  {
    if p in cs then
      RemoveFirstAt(cs, p);
      RemoveFirst(cs, p) + [p]
    else cs
  }

  /**
   * BringToFront keeps the same controls, puts `p` on top and keeps every
   * other control in its relative order: what lies below the top is the
   * list with the first copy of `p` taken out.
   */
  lemma BroughtToFrontOrder<T>(cs: seq<T>, p: T)
    requires p in cs
    ensures var r := BroughtToFront(cs, p);
      && multiset(r) == multiset(cs) && |r| == |cs| && r[|r| - 1] == p
      && r[..|r| - 1] == RemoveFirst(cs, p)
  {
    var r := BroughtToFront(cs, p);
    MoveToEndPermutes(cs, IndexOf(cs, p));
    assert r[..|r| - 1] == RemoveFirst(cs, p);
  }

  /** Without repeats, bringing the top control to the front again changes nothing. */
  lemma BroughtToFrontIdempotent<T>(cs: seq<T>, p: T)
    requires Distinct(cs)
    ensures BroughtToFront(BroughtToFront(cs, p), p) == BroughtToFront(cs, p)
  {
    if p in cs {
      var i := IndexOf(cs, p);
      var r := BroughtToFront(cs, p);
      var below := cs[..i] + cs[i + 1..];
      assert r == below + [p];
      assert p !in cs[i + 1..] by {
        forall k | i + 1 <= k < |cs|
          ensures cs[k] != p
        {
        }
      }
      assert p !in below;
      assert IndexOf(r, p) == |r| - 1;
      MoveLastIsIdentity(r);
    }
  }

  /**
   * Bringing `p` to the front of a reordering of `cs` puts `p` on top when
   * it is in `cs`; without repeats, doing it again after a first time
   * changes nothing.
   */
  lemma BroughtToFrontAgain<T>(cs: seq<T>, before: seq<T>, p: T)
    requires multiset(before) == multiset(cs)
    ensures multiset(BroughtToFront(before, p)) == multiset(cs) && |BroughtToFront(before, p)| == |cs|
    ensures p in cs ==> BroughtToFront(before, p)[|cs| - 1] == p
    ensures Distinct(cs) && (before == cs || before == BroughtToFront(cs, p)) ==> BroughtToFront(before, p) == BroughtToFront(cs, p)
  {
    assert |before| == |multiset(before)| == |multiset(cs)| == |cs|;
    if p in before {
      BroughtToFrontOrder(before, p);
    }
    if p in cs {
      assert p in multiset(before);
    }
    if Distinct(cs) {
      BroughtToFrontIdempotent(cs, p);
    }
  }

  /**
   * A control added twice is in the list twice, and BringToFront moves
   * only its first copy: bringing it to the front twice does not leave the
   * list as the first call did.
   */
  lemma BroughtToFrontTwiceWithRepeat()
    ensures BroughtToFront([1, 1, 2], 1) == [1, 2, 1]
    ensures BroughtToFront(BroughtToFront([1, 1, 2], 1), 1) == [2, 1, 1]
  {
    assert RemoveFirst([1, 1, 2], 1) == [1, 2];
    assert RemoveFirst([1, 2, 1], 1) == [2, 1];
  }

  /** The TabIndex AddControl gives a panel: the list count when its own is not positive. */
  function InitialTab(tab: int, count: int): (r: int)
    ensures tab > 0 ==> r == tab
    ensures tab <= 0 ==> r == count
    ensures count > 0 ==> r > 0
  {
    if tab <= 0 then count else tab
  }

  /** The lists after a panel with style `d` is appended to the list of its style, unless that is None. */
  function Enlisted<T>(b: Buckets<T>, p: T, d: DockStyle): (r: Buckets<T>)
    requires Complete(b)
    ensures Complete(r) && r[DockStyle.None] == b[DockStyle.None]
    ensures forall s: DockStyle | s != d || d == DockStyle.None :: r[s] == b[s]
    ensures d != DockStyle.None ==> r[d] == b[d] + [p]
  {
    if d == DockStyle.None then b else b[d := b[d] + [p]]
  }

  /** A panel that AddControl subscribes to: a dockable panel. */
  predicate Subscribes(c: Control)
    reads c`isDockable
  {
    c.kind == PanelKind && c.isDockable
  }

  /** The panels among the controls `cs`. */
  function PanelsIn(cs: seq<Control>): (ps: set<Control>)
    ensures forall p <- ps :: p in cs && p.kind == PanelKind
    ensures forall p <- cs | p.kind == PanelKind :: p in ps
  {
    set p | p in cs && p.kind == PanelKind
  }

  /** The panels of a list with one more control. */
  lemma PanelsInSnoc(cs: seq<Control>, c: Control)
    ensures PanelsIn(cs + [c]) == PanelsIn(cs) + (if c.kind == PanelKind then {c} else {})
  {
  }

  /** A control the modal search stops at: a panel whose IsModal is set. */
  predicate IsModalPanel(c: Control)
    reads c`isModal
  {
    c.kind == PanelKind && c.isModal
  }

  /** A control the update walk promotes: a panel under the pointer or being dragged. */
  predicate Interacting(c: Control)
    reads c`isMouseOver, c`isDragging
  {
    c.kind == PanelKind && (c.isMouseOver || c.isDragging)
  }

  class UIManager {
    var controls: seq<Control>
    var screenBounds: Rect
    const dockZones: ZoneList
    var remainingSpace: Option<Rect>
    var dockedPanels: Buckets<Control>
    const renderer: Animator
    /** Every control the manager has been given, panels still in a docked list included. */
    ghost var Repr: set<Control>

    /** The manager's panels: the controls it was given that are panels. */
    ghost function Panels(): set<Control>
      reads this`Repr
    {
      set p | p in Repr && p.kind == PanelKind
    }

    /** Every style has a list, the None list is empty, and the lists hold only the manager's panels. */
    ghost predicate ListsValid()
      reads this`dockedPanels, this`Repr
    {
      && Complete(dockedPanels) && dockedPanels[DockStyle.None] == []
      && (forall s: DockStyle, p <- dockedPanels[s] :: p in Panels())
    }

    /** The lists are valid and every control in the control list is one the manager was given. */
    ghost predicate Valid()
      reads this`controls, this`dockedPanels, this`Repr
    {
      ListsValid() && forall c <- controls :: c in Repr
    }

    /** What the layout reads and writes of every panel. */
    ghost function Slots(): (slots: map<Control, Slot>)
      reads this`Repr, Repr`bounds, Repr`dock, Repr`tabIndex, Repr`dockSize
      ensures slots.Keys == Panels()
    {
      map p | p in Panels() :: Slot(p.bounds, p.dock, p.tabIndex, p.dockSize)
    }

    /** `slots` describes the panels as they are, except perhaps their bounds. */
    ghost predicate MirrorsBut(slots: map<Control, Slot>)
      reads this`Repr, Repr`dock, Repr`tabIndex, Repr`dockSize
    {
      forall p <- Panels() ::
        p in slots && slots[p].dock == p.dock && slots[p].tab == p.tabIndex && slots[p].size == p.dockSize
    }

    /** The children of the manager's panels, which a panel update also updates. */
    ghost function Leaves(): set<Control>
      reads this`Repr, Repr`children
    {
      set p, c | p in Repr && c in p.children :: c
    }

    /** UIManager(renderer): no controls, no zones, an empty list for every style. */
    constructor (renderer: Animator)
      requires renderer.Valid()
      ensures Valid() && Repr == {} && this.renderer == renderer
      ensures controls == [] && screenBounds == Rect(0, 0, 0, 0) && remainingSpace == Option.None
      ensures fresh(dockZones) && dockZones.zones == []
      ensures dockedPanels == Bucketed([], [], [], [], [])
    {
      this.renderer := renderer;
      controls := [];
      screenBounds := Rect(0, 0, 0, 0);
      dockZones := new ZoneList();
      remainingSpace := Option.None;
      dockedPanels := Bucketed([], [], [], [], []);
      Repr := {};
    }

    /** The `_dockedPanels[style].Remove(panel)` loop over every key. */
    method RemoveFromAllLists(panel: Control)
      requires Complete(dockedPanels)
      modifies this`dockedPanels
      ensures dockedPanels == RemoveEverywhere(old(dockedPanels), panel)
    {
      ghost var b0 := dockedPanels;
      var lists := dockedPanels;
      RemovedNone(b0, panel);
      for k := 0 to KeyCount
        invariant lists == RemovedUpTo(b0, panel, k)
      {
        RemovedStep(b0, panel, k, lists);
        var style := KeyAt(k);
        lists := lists[style := RemoveFirst(lists[style], panel)];
      }
      RemovedAll(b0, panel, lists);
      dockedPanels := lists;
    }

    /**
     * The bucket update shared by the re-sync loop and the dock-change
     * handler: remove the panel from every list, then append it to the list
     * of its style unless that is None.
     */
    method MoveToDockList(panel: Control)
      requires Complete(dockedPanels)
      modifies this`dockedPanels
      ensures dockedPanels == Rebucket(old(dockedPanels), panel, panel.dock)
    {
      RemoveFromAllLists(panel);
      if panel.dock != DockStyle.None {
        dockedPanels := dockedPanels[panel.dock := dockedPanels[panel.dock] + [panel]];
      }
    }

    /** One turn of the re-sync loop: a panel is moved to the list of its style, any other control is skipped. */
    method ResyncOne(control: Control, ghost b0: Buckets<Control>, ghost done: seq<Control>, ghost slots0: map<Control, Slot>)
      requires Complete(b0) && dockedPanels == Resync(b0, done, slots0)
      requires control in slots0 <==> control.kind == PanelKind
      requires control in slots0 ==> slots0[control].dock == control.dock
      modifies this`dockedPanels
      ensures dockedPanels == Resync(b0, done + [control], slots0)
    {
      ResyncSnoc(b0, done, slots0, control);
      if control.kind == PanelKind {
        MoveToDockList(control);
      }
    }

    /** The first loop of RecalculateDockedPanels: every panel of the control list is moved to the list of its style. */
    method ResyncBuckets()
      requires Valid()
      modifies this`dockedPanels
      ensures Valid()
      ensures dockedPanels == Resync(old(dockedPanels), controls, Slots())
    {
      ghost var b0, slots0 := dockedPanels, Slots();
      var cs := controls;
      var i := 0;
      while i < |cs|
        invariant 0 <= i <= |cs|
        invariant dockedPanels == Resync(b0, cs[..i], slots0)
      {
        assert cs[i] in Repr;
        ResyncOne(cs[i], b0, cs[..i], slots0);
        assert cs[..i + 1] == cs[..i] + [cs[i]];
        i := i + 1;
      }
      assert cs[..i] == cs;
      ResyncWithin(b0, controls, slots0, Panels());
    }

    /** The first loop of CheckForOverlappingPanels: the lists of every style but None, appended in key order. */
    method GatherDockedPanels() returns (all: seq<Control>)
      requires Complete(dockedPanels)
      ensures all == Flatten(dockedPanels)
    {
      all := [];
      var k := 0;
      while k < KeyCount
        invariant 0 <= k <= KeyCount
        invariant all == Gathered(dockedPanels, k)
      {
        var style := KeyAt(k);
        if style != DockStyle.None {
          all := all + dockedPanels[style];
        }
        k := k + 1;
      }
      GatheredIsFlatten(dockedPanels);
    }

    /** One comparison of CheckForOverlappingPanels, of `all[i]` with the later `all[j]`. */
    method ComparePair(all: seq<Control>, i: nat, j: nat)
      requires i < |all| && j < |all| && forall p <- all :: p in Panels()
      modifies {all[j]}`tabIndex
      ensures Slots() == Compare(all, old(Slots()), i, j)
    {
      ghost var before := Slots();
      var panel1 := all[i];
      var panel2 := all[j];
      var rect1 := panel1.bounds;
      var rect2 := panel2.bounds;
      if rect1.IntersectsWith(rect2) {
        if panel1.dock == panel2.dock && panel1.tabIndex == panel2.tabIndex {
          panel2.tabIndex := panel1.tabIndex + 1;
        }
      }
      var after := Compare(all, before, i, j);
      forall p | p in Panels()
        ensures Slots()[p] == after[p]
      {
      }
    }

    /** The inner loop of CheckForOverlappingPanels: `all[i]` against every later panel. */
    method CompareRow(all: seq<Control>, i: nat)
      requires i < |all| && forall p <- all :: p in Panels()
      modifies Repr`tabIndex
      ensures Slots() == Row(all, old(Slots()), i, i + 1)
    {
      ghost var slots0 := Slots();
      var j := i + 1;
      while j < |all|
        invariant i + 1 <= j <= |all|
        invariant forall p <- all :: p in Panels()
        invariant Row(all, Slots(), i, j) == Row(all, slots0, i, i + 1)
      {
        assert all[j] in Panels();
        ComparePair(all, i, j);
        j := j + 1;
      }
    }

    /** The nested loops of CheckForOverlappingPanels: every panel against every later one. */
    method CompareAll(all: seq<Control>)
      requires forall p <- all :: p in Panels()
      modifies Repr`tabIndex
      ensures Slots() == Pass(all, old(Slots()), 0)
    {
      ghost var slots0 := Slots();
      var i := 0;
      while i < |all|
        invariant forall p <- all :: p in Panels()
        invariant Pass(all, Slots(), i) == Pass(all, slots0, 0)
      {
        CompareRow(all, i);
        i := i + 1;
      }
    }

    /**
     * CheckForOverlappingPanels: gathers the docked lists in key order,
     * then compares every pair once; when two overlap, share a style and
     * share a TabIndex, the later one's TabIndex becomes the earlier one's
     * plus 1.  The TabIndex values it leaves are those of the overlap pass
     * over the flattened lists.
     */
    method CheckForOverlappingPanels()
      requires ListsValid()
      modifies Repr`tabIndex
      ensures Slots() == Pass(Flatten(dockedPanels), old(Slots()), 0)
    {
      var all := GatherDockedPanels();
      FlattenWithin(dockedPanels, Panels());
      CompareAll(all);
    }

    /**
     * One case of the layout switch: each panel of the bucket, in order,
     * claims `(int)(extent * DockSize)` pixels of the area's extent and gets
     * the strip after those claimed before it (the whole area for Fill);
     * the area left is returned.
     */
    method PlaceBucket(style: DockStyle, area: Rect, ps: seq<Control>, ghost sizes: map<Control, Slot>) returns (remaining: Rect)
      requires forall p <- ps :: p in Panels()
      requires forall p <- Panels() :: p in sizes && sizes[p].size == p.dockSize
      modifies Repr`bounds
      ensures remaining == Carve(style, area, Total(style, area, ps, sizes))
      ensures forall p <- Panels() :: p.bounds == LastWrite(Placements(style, area, ps, sizes), p, old(p.bounds))
    {
      ghost var written: seq<(Control, Rect)> := [];
      var offset := 0;
      var k := 0;
      while k < |ps|
        invariant 0 <= k <= |ps|
        invariant forall p <- ps :: p in Panels()
        invariant offset == Total(style, area, ps[..k], sizes)
        invariant written == Placements(style, area, ps[..k], sizes)
        invariant forall p <- Panels() :: p.bounds == LastWrite(written, p, old(p.bounds))
      {
        var panel := ps[k];
        assert panel in Panels();
        var w := Claim(Extent(style, area), panel.dockSize);
        PlacementsSnoc(style, area, ps, sizes, k);
        var strip := Strip(style, area, offset, w);
        panel.bounds := strip;
        forall p | p in Panels()
          ensures p.bounds == LastWrite(written + [(panel, strip)], p, old(p.bounds))
        {
          LastWriteSnoc(written, panel, strip, p, old(p.bounds));
        }
        written := written + [(panel, strip)];
        offset := offset + w;
        k := k + 1;
      }
      assert ps[..k] == ps;
      remaining := Carve(style, area, offset);
    }

    /** `_dockedPanels[style].Sort(...)`: the list of `style` sorted by TabIndex, in place. */
    method SortDockList(style: DockStyle, ghost tabs: map<Control, Slot>)
      requires ListsValid()
      requires forall p <- Panels() :: p in tabs && tabs[p].tab == p.tabIndex
      modifies this`dockedPanels
      ensures ListsValid()
      ensures dockedPanels == old(dockedPanels)[style := dockedPanels[style]]
      ensures multiset(dockedPanels[style]) == multiset(old(dockedPanels)[style])
      ensures Covers(tabs, dockedPanels[style]) && SortedByTab(dockedPanels[style], tabs)
    {
      var ps := dockedPanels[style];
      var sorted := SortByTabIndex(ps);
      forall p <- sorted
        ensures p in Panels() && p in tabs
      {
        assert p in multiset(ps);
      }
      assert SortedByTab(sorted, tabs);
      dockedPanels := dockedPanels[style := sorted];
    }

    /**
     * One turn of the layout loop of RecalculateDockedPanels: a non-empty
     * list is sorted by TabIndex in place and laid out in `area`; an empty
     * one leaves `area` as it is.
     */
    method LayoutStyle(style: DockStyle, area: Rect, ghost tabs: map<Control, Slot>) returns (remaining: Rect)
      requires ListsValid()
      requires forall p <- Panels() :: p in tabs && tabs[p].tab == p.tabIndex && tabs[p].size == p.dockSize
      modifies this`dockedPanels, Repr`bounds
      ensures ListsValid()
      ensures forall p <- Panels() :: p in tabs && tabs[p].tab == p.tabIndex && tabs[p].size == p.dockSize
      ensures dockedPanels == old(dockedPanels)[style := dockedPanels[style]]
      ensures multiset(dockedPanels[style]) == multiset(old(dockedPanels)[style])
      ensures Covers(tabs, dockedPanels[style]) && SortedByTab(dockedPanels[style], tabs)
      ensures remaining == Rest(style, area, dockedPanels[style], tabs)
      ensures forall p <- Panels() :: p.bounds == LastWrite(Placed(style, area, dockedPanels[style], tabs), p, old(p.bounds))
    {
      if |dockedPanels[style]| > 0 {
        SortDockList(style, tabs);
        remaining := PlaceBucket(style, area, dockedPanels[style], tabs);
      } else {
        remaining := area;
      }
    }

    /**
     * One turn of the layout loop, for the `k`-th style of the layout
     * order, in the area the styles before it left: that style's list is
     * sorted and laid out, and the bounds written so far are extended by
     * its writes.
     */
    method LayoutNext(k: nat, area: Rect, ghost tabs: map<Control, Slot>, ghost written: seq<(Control, Rect)>)
      returns (next: Rect, ghost written': seq<(Control, Rect)>)
      requires k < |LayoutOrder| && ListsValid()
      requires forall p <- Panels() :: p in tabs && tabs[p].tab == p.tabIndex && tabs[p].size == p.dockSize
      requires forall p <- Panels() :: p.bounds == LastWrite(written, p, tabs[p].bounds)
      modifies this`dockedPanels, Repr`bounds
      ensures ListsValid()
      ensures forall p <- Panels() :: p in tabs && tabs[p].tab == p.tabIndex && tabs[p].size == p.dockSize
      ensures var s := LayoutOrder[k];
        && dockedPanels == old(dockedPanels)[s := dockedPanels[s]]
        && multiset(dockedPanels[s]) == multiset(old(dockedPanels)[s])
        && Covers(tabs, dockedPanels[s]) && SortedByTab(dockedPanels[s], tabs)
        && next == Rest(s, area, dockedPanels[s], tabs)
        && written' == written + Placed(s, area, dockedPanels[s], tabs)
      ensures forall p <- Panels() :: p.bounds == LastWrite(written', p, tabs[p].bounds)
    {
      var style := LayoutOrder[k];
      next := LayoutStyle(style, area, tabs);
      ghost var placed := Placed(style, area, dockedPanels[style], tabs);
      forall p | p in Panels()
        ensures p.bounds == LastWrite(written + placed, p, tabs[p].bounds)
      {
        LastWriteAppend(written, placed, p, tabs[p].bounds);
      }
      written' := written + placed;
    }

    /**
     * The layout loop of RecalculateDockedPanels: for Left, Right, Top,
     * Bottom and Fill in turn, a non-empty list is sorted and laid out in
     * what the styles before it left of the screen; the area left at the
     * end is kept as the remaining space.  `tabs` holds the panels' fields
     * on entry and `writes` the bounds written, in order.
     */
    method LayoutBuckets(ghost tabs: map<Control, Slot>) returns (remaining: Rect, ghost writes: seq<(Control, Rect)>)
      requires ListsValid() && tabs == Slots()
      modifies this`dockedPanels, Repr`bounds
      ensures ListsValid()
      ensures LayoutState(|LayoutOrder|, old(dockedPanels), dockedPanels, tabs, writes, screenBounds, remaining)
      ensures forall p <- Panels() :: p.bounds == LastWrite(writes, p, tabs[p].bounds)
    {
      LayoutStart(dockedPanels, tabs, screenBounds);
      ghost var b0 := dockedPanels;
      writes := [];
      remaining := screenBounds;
      var k := 0;
      while k < |LayoutOrder|
        invariant ListsValid() && LayoutState(k, b0, dockedPanels, tabs, writes, screenBounds, remaining)
        invariant forall p <- Panels() :: p in tabs && tabs[p].tab == p.tabIndex && tabs[p].size == p.dockSize
        invariant forall p <- Panels() :: p.bounds == LastWrite(writes, p, tabs[p].bounds)
      {
        ghost var b1, written := dockedPanels, writes;
        var area := remaining;
        remaining, writes := LayoutNext(k, area, tabs, writes);
        LayoutStep(k, b0, b1, dockedPanels, tabs, written, screenBounds, area);
        k := k + 1;
      }
    }

    /**
     * The rest of RecalculateDockedPanels after the re-sync: the overlap
     * pass, then the layout loop, which keeps the area it leaves as the
     * remaining space.
     */
    method SettleDockedPanels()
      requires ListsValid()
      modifies this`dockedPanels, this`remainingSpace, Repr`bounds, Repr`tabIndex
      ensures ListsValid() && remainingSpace.Some?
      ensures Settled(old(dockedPanels), old(Slots()), screenBounds, dockedPanels, Slots(), remainingSpace.value)
    {
      var remaining := SettleLists();
      remainingSpace := Some(remaining);
    }

    /** SettleDockedPanels up to keeping the area the layout leaves, which it returns. */
    method SettleLists() returns (remaining: Rect)
      requires ListsValid()
      modifies this`dockedPanels, Repr`bounds, Repr`tabIndex
      ensures ListsValid()
      ensures Settled(old(dockedPanels), old(Slots()), screenBounds, dockedPanels, Slots(), remaining)
    {
      ghost var slots0 := Slots();
      ghost var synced := dockedPanels;
      FlattenWithin(synced, Panels());
      CheckForOverlappingPanels();
      ghost var tabs := Slots();
      ghost var writes;
      remaining, writes := LayoutBuckets(tabs);
      ghost var relaid := Relaid(tabs, writes);
      ghost var slots := Slots();
      forall p | p in Panels()
        ensures slots[p] == relaid[p]
      {
      }
      SameMaps(slots, relaid);
      SettledIntro(synced, slots0, screenBounds, tabs, dockedPanels, writes, remaining, slots);
    }

    /**
     * RecalculateDockedPanels: re-syncs the lists from each panel's Dock,
     * separates overlapping panels of a style by TabIndex, then sorts each
     * list by TabIndex and carves the screen among the docked panels,
     * keeping what is left as the remaining space.
     */
    method RecalculateDockedPanels()
      requires Valid()
      modifies this`dockedPanels, this`remainingSpace, Repr`bounds, Repr`tabIndex
      ensures Valid() && remainingSpace.Some?
      ensures Recalculated(old(dockedPanels), controls, old(Slots()), screenBounds, dockedPanels, Slots(), remainingSpace.value)
    {
      ghost var slots0 := Slots();
      ResyncBuckets();
      assert Slots() == slots0;
      SettleDockedPanels();
    }

    /**
     * The first part of SetScreenBounds: the screen rectangle, and the zone
     * list cleared and refilled in place with the five zones.
     */
    method ResetZones(width: int, height: int)
      modifies this`screenBounds, dockZones
      ensures screenBounds == Rect(0, 0, width, height) && dockZones.zones == ComputeZones(width, height)
    {
      screenBounds := Rect(0, 0, width, height);
      dockZones.zones := [];
      var screen := Rect(0, 0, width, height);
      dockZones.zones := dockZones.zones + [DockZone(Rect(0, 0, DockEdgeThreshold, height), screen, Left)];
      dockZones.zones := dockZones.zones + [DockZone(Rect(width - DockEdgeThreshold, 0, DockEdgeThreshold, height), screen, Right)];
      dockZones.zones := dockZones.zones + [DockZone(Rect(0, 0, width, DockEdgeThreshold), screen, Top)];
      dockZones.zones := dockZones.zones + [DockZone(Rect(0, height - DockEdgeThreshold, width, DockEdgeThreshold), screen, Bottom)];
      var centerSize := CenterDockZoneSize;
      dockZones.zones := dockZones.zones + [DockZone(Rect(HalfTowardZero(width - centerSize), HalfTowardZero(height - centerSize),
                                                          centerSize, centerSize), screen, Fill)];
    }

    /**
     * SetScreenBounds: the screen becomes (0, 0, width, height), the shared
     * zone list holds the five zones of that screen (so every panel that
     * holds the manager's list sees them), and the docked panels are laid
     * out again.
     */
    method SetScreenBounds(width: int, height: int)
      requires Valid()
      modifies this`screenBounds, dockZones, this`dockedPanels, this`remainingSpace, Repr`bounds, Repr`tabIndex
      ensures Valid() && screenBounds == Rect(0, 0, width, height) && dockZones.zones == ComputeZones(width, height)
      ensures forall p <- Panels() :: p.availableDockZones == dockZones ==> p.availableDockZones.zones == ComputeZones(width, height)
      ensures remainingSpace.Some?
      ensures Recalculated(old(dockedPanels), controls, old(Slots()), screenBounds, dockedPanels, Slots(), remainingSpace.value)
    {
      ghost var slots0 := Slots();
      ResetZones(width, height);
      assert Slots() == slots0;
      RecalculateDockedPanels();
    }

    /**
     * The first part of the OnDockStateChanged handler AddControl
     * subscribes: the panel leaves every list and joins the list of its
     * style; only when that style is not None are the panels laid out
     * again, so undocking leaves every bound and the remaining space as
     * they were.
     */
    method Redock(panel: Control)
      requires Valid() && panel in Panels()
      modifies this`dockedPanels, this`remainingSpace, Repr`bounds, Repr`tabIndex
      ensures Valid()
      ensures panel.dock == DockStyle.None ==>
        dockedPanels == Rebucket(old(dockedPanels), panel, DockStyle.None) && remainingSpace == old(remainingSpace) && Slots() == old(Slots())
      ensures panel.dock != DockStyle.None ==>
        remainingSpace.Some? && Recalculated(Rebucket(old(dockedPanels), panel, panel.dock), controls, old(Slots()),
                        screenBounds, dockedPanels, Slots(), remainingSpace.value)
    {
      ghost var slots0 := Slots();
      RebucketWithin(dockedPanels, panel, panel.dock, Panels());
      MoveToDockList(panel);
      if panel.dock != DockStyle.None {
        assert Slots() == slots0;
        RecalculateDockedPanels();
      }
    }

    /** The OnDockStateChanged handler: the panel is moved to the list of its style, then brought to the front. */
    method OnDockStateChanged(panel: Control)
      requires Valid() && panel in Panels()
      modifies this`dockedPanels, this`remainingSpace, this`controls, Repr`bounds, Repr`tabIndex
      ensures Valid() && controls == BroughtToFront(old(controls), panel)
      ensures panel.dock == DockStyle.None ==>
        dockedPanels == Rebucket(old(dockedPanels), panel, DockStyle.None) && remainingSpace == old(remainingSpace) && Slots() == old(Slots())
      ensures panel.dock != DockStyle.None ==>
        remainingSpace.Some? && Recalculated(Rebucket(old(dockedPanels), panel, panel.dock), old(controls), old(Slots()),
                        screenBounds, dockedPanels, Slots(), remainingSpace.value)
    {
      Redock(panel);
      ghost var slots1 := Slots();
      BringToFront(panel);
      assert Slots() == slots1;
    }

    /**
     * OnDockStateChanged raised on `panel`: the manager's handler runs once
     * per subscription, that is once per AddControl of the panel.  After at
     * least one run the panel is on top, and in the list of its style
     * unless that is None.
     */
    method RunDockHandlers(panel: Control)
      requires Valid() && panel in Panels()
      modifies this`dockedPanels, this`remainingSpace, this`controls, Repr`bounds, Repr`tabIndex
      ensures Valid() && multiset(controls) == multiset(old(controls))
      ensures panel.dockHandlers == 0 ==> controls == old(controls) && dockedPanels == old(dockedPanels)
      ensures panel.dockHandlers > 0 && panel in old(controls) ==> controls[|controls| - 1] == panel
      ensures panel.dockHandlers > 0 && Distinct(old(controls)) ==> controls == BroughtToFront(old(controls), panel)
      ensures panel.dockHandlers > 0 && panel.dock != DockStyle.None ==> panel in dockedPanels[panel.dock]
    {
      ghost var cs0 := controls;
      var k := 0;
      while k < panel.dockHandlers
        invariant k <= panel.dockHandlers
        invariant Valid() && multiset(controls) == multiset(cs0)
        invariant k == 0 ==> controls == cs0 && dockedPanels == old(dockedPanels)
        invariant k > 0 && panel in cs0 ==> controls[|controls| - 1] == panel
        invariant k > 0 && Distinct(cs0) ==> controls == BroughtToFront(cs0, panel)
        invariant k > 0 && panel.dock != DockStyle.None ==> panel in dockedPanels[panel.dock]
      {
        HandlerRun(panel, cs0);
        k := k + 1;
      }
    }

    /** One run of the handler inside RunDockHandlers. */
    method HandlerRun(panel: Control, ghost cs0: seq<Control>)
      requires Valid() && panel in Panels() && multiset(controls) == multiset(cs0)
      modifies this`dockedPanels, this`remainingSpace, this`controls, Repr`bounds, Repr`tabIndex
      ensures Valid() && multiset(controls) == multiset(cs0)
      ensures panel in cs0 ==> controls[|controls| - 1] == panel
      ensures Distinct(cs0) && (old(controls) == cs0 || old(controls) == BroughtToFront(cs0, panel))
        ==> controls == BroughtToFront(cs0, panel)
      ensures panel.dock != DockStyle.None ==> panel in dockedPanels[panel.dock]
    {
      ghost var b0, before, slots0 := dockedPanels, controls, Slots();
      BroughtToFrontAgain(cs0, before, panel);
      OnDockStateChanged(panel);
      if panel.dock != DockStyle.None {
        RebucketAppends(b0, panel, panel.dock);
        RecalculatedKeepsListed(Rebucket(b0, panel, panel.dock), before, slots0, screenBounds, dockedPanels, Slots(),
                                remainingSpace.value, panel, panel.dock);
      }
    }

    /**
     * AddControl up to the layout: the control joins the control list; a
     * dockable panel shares the manager's zone list, gets one more
     * OnDockStateChanged handler, joins the end of the list of its style
     * unless that is None, and takes the new list count as TabIndex when its
     * own is not positive.
     */
    method Register(control: Control)
      requires Valid()
      modifies this`controls, this`Repr, this`dockedPanels, control`availableDockZones, control`dockHandlers, control`tabIndex
      ensures Valid() && controls == old(controls) + [control] && Repr == old(Repr) + {control}
      ensures !Subscribes(control) ==> dockedPanels == old(dockedPanels) && control.tabIndex == old(control.tabIndex)
      ensures !Subscribes(control) ==>
        control.dockHandlers == old(control.dockHandlers) && control.availableDockZones == old(control.availableDockZones)
      ensures Subscribes(control) ==> && control.availableDockZones == dockZones
                                      && control.dockHandlers == old(control.dockHandlers) + 1
                                      && control.tabIndex == InitialTab(old(control.tabIndex), |controls|)
                                      && dockedPanels == Enlisted(old(dockedPanels), control, control.dock)
      ensures control.kind != PanelKind ==> Slots() == old(Slots())
      ensures control.kind == PanelKind ==> Slots() == Enrolled(old(Slots()), control, control.bounds, control.tabIndex)
    {
      ghost var slots0 := Slots();
      controls := controls + [control];
      Repr := Repr + {control};
      forall s: DockStyle, p | p in dockedPanels[s]
        ensures p in Panels()
      {
      }
      forall p | p in Panels() && p != control
        ensures p in slots0 && Slots()[p] == slots0[p]
      {
      }
      if control.kind == PanelKind && control.isDockable {
        Subscribe(control);
      }
    }

    /** The dockable-panel part of Register, for a panel already in the manager's set. */
    method Subscribe(control: Control)
      requires ListsValid() && control in Panels()
      modifies this`dockedPanels, control`availableDockZones, control`dockHandlers, control`tabIndex
      ensures ListsValid()
      ensures && control.availableDockZones == dockZones && control.dockHandlers == old(control.dockHandlers) + 1
              && control.tabIndex == InitialTab(old(control.tabIndex), |controls|)
              && dockedPanels == Enlisted(old(dockedPanels), control, control.dock)
      ensures forall p | p in Panels() && p != control :: Slots()[p] == old(Slots())[p]
    {
      control.SetDockZones(dockZones);
      control.dockHandlers := control.dockHandlers + 1;
      if control.dock != DockStyle.None {
        dockedPanels := dockedPanels[control.dock := dockedPanels[control.dock] + [control]];
      }
      if control.tabIndex <= 0 {
        control.tabIndex := |controls|;
      }
    }

    /**
     * AddControl: the control joins the control list; a dockable panel is
     * registered as Register says and the docked panels are laid out again
     * from the lists and fields Register leaves, after which a docked panel
     * is in the list of its style.
     */
    method AddControl(control: Control)
      requires Valid()
      modifies this`controls, this`Repr, this`dockedPanels, this`remainingSpace, control`availableDockZones, control`dockHandlers
      modifies control`tabIndex, control`bounds, Repr`tabIndex, Repr`bounds
      ensures Valid() && controls == old(controls) + [control] && Repr == old(Repr) + {control}
      ensures !old(Subscribes(control)) ==> dockedPanels == old(dockedPanels) && remainingSpace == old(remainingSpace)
      ensures old(Subscribes(control)) ==>
        control.availableDockZones == dockZones && control.dockHandlers == old(control.dockHandlers) + 1 && remainingSpace.Some?
      ensures old(Subscribes(control)) && control.dock != DockStyle.None ==> control in dockedPanels[control.dock]
      // anything but a dockable panel only joins the control list
      ensures !old(Subscribes(control)) && control.kind != PanelKind ==> Slots() == old(Slots())
      ensures !old(Subscribes(control)) && control.kind == PanelKind ==>
        Slots() == Enrolled(old(Slots()), control, old(control.bounds), old(control.tabIndex))
      ensures !old(Subscribes(control)) ==>
        && control.dockHandlers == old(control.dockHandlers) && control.availableDockZones == old(control.availableDockZones)
        && control.tabIndex == old(control.tabIndex)
      // the layout is recalculated from the lists and fields Register leaves
      ensures old(Subscribes(control)) ==>
        Recalculated(Enlisted(old(dockedPanels), control, control.dock), controls,
                     Enrolled(old(Slots()), control, old(control.bounds), InitialTab(old(control.tabIndex), |controls|)),
                     screenBounds, dockedPanels, Slots(), remainingSpace.value)
    {
      Register(control);
      if Subscribes(control) {
        ghost var b1 := Enlisted(old(dockedPanels), control, control.dock);
        ghost var slots1 := Enrolled(old(Slots()), control, old(control.bounds), InitialTab(old(control.tabIndex), |controls|));
        assert dockedPanels == b1 && Slots() == slots1;
        LayOutListed(control);
      }
    }

    /** The fields of the panels once `panel` is one of them, with the given bounds and TabIndex. */
    ghost function Enrolled(slots: map<Control, Slot>, panel: Control, bounds: Rect, tab: int): map<Control, Slot>
      reads panel`dock, panel`dockSize
    {
      slots[panel := Slot(bounds, panel.dock, tab, panel.dockSize)]
    }

    /**
     * A layout pass for a panel in the control list: the state is the one
     * RecalculateDockedPanels leaves, and the panel is in the list of its
     * style unless that is None.
     */
    method LayOutListed(panel: Control)
      requires Valid() && panel in Panels() && panel in controls
      modifies this`dockedPanels, this`remainingSpace, Repr`bounds, Repr`tabIndex
      ensures Valid() && remainingSpace.Some?
      // stated for the lists `b` equal to the old ones, so that only a caller
      // naming this Recalculated term draws the layout in
      ensures forall b: Buckets<Control>
        {:trigger Recalculated(b, controls, old(Slots()), screenBounds, dockedPanels, Slots(), remainingSpace.value)}
        | b == old(dockedPanels) :: Recalculated(b, controls, old(Slots()), screenBounds, dockedPanels, Slots(), remainingSpace.value)
      ensures panel.dock != DockStyle.None ==> panel in dockedPanels[panel.dock]
    {
      ghost var b0, slots0 := dockedPanels, Slots();
      RecalculateDockedPanels();
      if panel.dock != DockStyle.None {
        RecalculatedPlacesControl(b0, controls, slots0, screenBounds, dockedPanels, Slots(), remainingSpace.value, panel);
      }
    }

    /**
     * AddDockedPanel: the panel joins the control list unless it is
     * already there, shares the manager's zone list and is given the style;
     * a change of style raises OnDockStateChanged, which runs the handlers
     * of every earlier AddControl of the panel; then the panels are laid
     * out again.  The panel ends with the style, in the list of that style
     * unless it is None.
     */
    method AddDockedPanel(panel: Control, dockStyle: DockStyle)
      requires Valid() && panel.kind == PanelKind
      modifies this`controls, this`Repr, this`dockedPanels, this`remainingSpace
      modifies panel`availableDockZones, panel`dock, panel`isDragging, panel`activeDockZone, panel`bounds, panel`tabIndex
      modifies Repr`bounds, Repr`tabIndex
      ensures Valid() && Repr == old(Repr) + {panel} && panel in controls && remainingSpace.Some?
      ensures panel.dock == dockStyle && panel.availableDockZones == dockZones
      ensures multiset(controls) == multiset(old(controls)) + if panel in old(controls) then multiset{} else multiset{panel}
      ensures dockStyle != DockStyle.None ==> panel in dockedPanels[dockStyle]
      // without a change of style, or without a handler, the order of the controls is kept
      ensures old(panel.dock) == dockStyle || panel.dockHandlers == 0 ==>
        controls == if panel in old(controls) then old(controls) else old(controls) + [panel]
    {
      if panel !in controls {
        controls := controls + [panel];
      }
      Enroll(panel);
      panel.SetDockZones(dockZones);
      var raised := panel.SetDock(dockStyle);
      if raised {
        RunDockHandlers(panel);
      }
      assert panel in multiset(controls);
      LayOutListed(panel);
    }

    /** The panel joins the set of the manager's controls. */
    method Enroll(panel: Control)
      requires ListsValid() && forall c <- controls :: c in Repr || c == panel
      modifies this`Repr
      ensures Valid() && Repr == old(Repr) + {panel}
    {
      ghost var before := Panels();
      Repr := Repr + {panel};
      forall s: DockStyle, p | p in dockedPanels[s]
        ensures p in Panels()
      {
        assert p in before;
      }
    }

    /** The modal search of Update: the position of the topmost modal panel, if there is one. */
    method FindModal() returns (found: Option<nat>)
      ensures found.Some? ==> found.value < |controls| && IsModalPanel(controls[found.value])
      ensures found.Some? ==> forall j :: found.value < j < |controls| ==> !IsModalPanel(controls[j])
      ensures found.None? ==> forall j :: 0 <= j < |controls| ==> !IsModalPanel(controls[j])
    {
      var i := |controls|;
      while i > 0
        invariant 0 <= i <= |controls|
        invariant forall j :: i <= j < |controls| ==> !IsModalPanel(controls[j])
      {
        i := i - 1;
        if controls[i].kind == PanelKind && controls[i].isModal {
          return Some(i);
        }
      }
      return Option.None;
    }

    /**
     * UIPanel.Update of one of the manager's panels: the base update, the
     * drag step, the manager's handlers when a drop changed the style, then
     * the children.  `fired` tells whether the style changed; when it did
     * not, the control list and the docked lists are as they were.  Of the
     * manager's panels only this one changes its hover and drag state.
     */
    method UpdatePanel(panel: Control, pointer: Point, pressed: bool) returns (events: seq<UIEvent>, ghost fired: bool)
      requires Valid() && panel in Panels() && panel.LeafChildren()
      modifies panel`isMouseOver, panel`isMouseDown, panel`bounds, panel`dock, panel`isDragging, panel`dragStartOffset
      modifies panel`activeDockZone, panel.children`isMouseOver, panel.children`isMouseDown, panel.children`checked
      modifies this`dockedPanels, this`remainingSpace, this`controls, Repr`bounds, Repr`tabIndex
      ensures Valid() && multiset(controls) == multiset(old(controls))
      ensures panel.Hovering() == PointerStep(old(panel.Hovering()), panel.enabled && panel.visible, old(panel.bounds), pointer, pressed).0
      ensures !fired ==> controls == old(controls) && dockedPanels == old(dockedPanels)
      ensures forall q <- Panels() | q != panel :: q.isMouseOver == old(q.isMouseOver) && q.isDragging == old(q.isDragging)
    {
      var own, proceed, raised := panel.UpdateSelf(pointer, pressed);
      events := Tagged(panel, own);
      fired := raised;
      if raised {
        events := events + [DockStateChanged(panel)];
        RunDockHandlers(panel);
      }
      if proceed {
        var fromChildren := panel.UpdateChildren(pointer, pressed);
        events := events + fromChildren;
      }
    }

    /** `_controls[i].Update(...)`: a panel's update, or a button's or a label's. */
    method UpdateControl(c: Control, pointer: Point, pressed: bool) returns (events: seq<UIEvent>, ghost fired: bool)
      requires Valid() && c in Repr && (c.kind == PanelKind ==> c.LeafChildren())
      modifies c`isMouseOver, c`isMouseDown, c`checked, c`bounds, c`dock, c`isDragging, c`dragStartOffset, c`activeDockZone
      modifies c.children`isMouseOver, c.children`isMouseDown, c.children`checked
      modifies this`dockedPanels, this`remainingSpace, this`controls, Repr`bounds, Repr`tabIndex
      ensures Valid() && multiset(controls) == multiset(old(controls))
      ensures !fired ==> controls == old(controls)
      ensures forall q <- Panels() | q != c :: q.isMouseOver == old(q.isMouseOver) && q.isDragging == old(q.isDragging)
      // a panel takes the hover step of its base update
      ensures c.kind == PanelKind ==>
        c.Hovering() == PointerStep(old(c.Hovering()), c.enabled && c.visible, old(c.bounds), pointer, pressed).0
      // a button or a label takes its leaf step and raises its events, tagged with it
      ensures c.kind != PanelKind ==> !fired
      ensures c.kind != PanelKind ==>
        var step := ChildStep(c.Setting(), old(c.Widget()), pointer, pressed); c.Widget() == step.0 && events == Tagged(c, step.1)
    {
      if c.kind == PanelKind {
        events, fired := UpdatePanel(c, pointer, pressed);
      } else {
        var own := c.Update(pointer, pressed);
        events, fired := Tagged(c, own), false;
      }
    }

    /**
     * The walk of Update when no panel is modal: from the top down, each
     * control is updated; the first one below the top that is then a panel
     * under the pointer or being dragged is moved to the top and the walk
     * stops.  `quiet` tells that no handler ran during the walk; then the
     * controls above the promoted one (or all but the top one, when none
     * is promoted) were not interacting after their update, provided the
     * list has no repeats.
     */
    method UpdateWalk(pointer: Point, pressed: bool) returns (promoted: Option<nat>, events: seq<UIEvent>, ghost quiet: bool)
      requires Valid() && forall p <- Panels() :: p.LeafChildren()
      modifies this`controls, this`dockedPanels, this`remainingSpace, Repr`isMouseOver, Repr`isMouseDown, Repr`checked
      modifies Repr`bounds, Repr`dock, Repr`isDragging, Repr`dragStartOffset, Repr`activeDockZone, Repr`tabIndex
      modifies Leaves()`isMouseOver, Leaves()`isMouseDown, Leaves()`checked
      ensures Valid() && multiset(controls) == multiset(old(controls))
      ensures quiet && promoted.None? ==> controls == old(controls)
      ensures quiet && promoted.Some? ==> && promoted.value < |old(controls)| - 1
                                           && controls == MoveToEnd(old(controls), promoted.value)
                                           && Interacting(controls[|controls| - 1])
      ensures quiet && Distinct(old(controls)) ==>
        forall j :: (if promoted.Some? then promoted.value + 1 else 0) <= j < |old(controls)| - 1 ==> !Interacting(old(controls)[j])
      // the walk stops at the promoted control: the panels below it keep their hover and drag state
      ensures quiet && promoted.Some? ==> forall q <- Panels() | q !in old(controls)[promoted.value..] ::
        q.isMouseOver == old(q.isMouseOver) && q.isDragging == old(q.isDragging)
    {
      ghost var cs0 := controls;
      promoted, events, quiet := Option.None, [], true;
      var i := |controls|;
      while i > 0
        invariant 0 <= i <= |controls| == |cs0|
        invariant Valid() && multiset(controls) == multiset(cs0) && forall p <- Panels() :: p.LeafChildren()
        invariant Leaves() == old(Leaves())
        invariant quiet ==> controls == cs0
        invariant quiet && Distinct(cs0) ==> forall j :: i <= j < |cs0| - 1 ==> !Interacting(cs0[j])
        invariant quiet ==> forall q <- Panels() | q !in cs0[i..] :: q.isMouseOver == old(q.isMouseOver) && q.isDragging == old(q.isDragging)
      {
        i := i - 1;
        var fromControl, promote;
        fromControl, quiet, promote := VisitControl(i, pointer, pressed, cs0, quiet);
        events := events + fromControl;
        if promote {
          Promote(i, cs0);
          promoted := Some(i);
          return;
        }
      }
    }

    /** `_controls.RemoveAt(i)` then `_controls.Add(control)`: the control at `i` moves to the top. */
    method Promote(i: nat, ghost cs0: seq<Control>)
      requires Valid() && i < |controls| && multiset(controls) == multiset(cs0)
      modifies this`controls
      ensures Valid() && controls == MoveToEnd(old(controls), i) && multiset(controls) == multiset(cs0)
      ensures controls[|controls| - 1] == old(controls)[i]
    {
      MoveToEndPermutes(controls, i);
      var control := controls[i];
      controls := controls[..i] + controls[i + 1..];
      controls := controls + [control];
      forall c <- controls
        ensures c in Repr
      {
        assert c in multiset(old(controls));
      }
    }

    /**
     * One step of the walk of Update: `_controls[i]` is updated, then the
     * control now at position `i` is checked; `promote` tells that it is
     * interacting and not on top.
     */
    method VisitControl(i: nat, pointer: Point, pressed: bool, ghost cs0: seq<Control>, ghost quiet0: bool)
      returns (events: seq<UIEvent>, ghost quiet: bool, promote: bool)
      requires Valid() && forall p <- Panels() :: p.LeafChildren()
      requires i < |controls| == |cs0| && multiset(controls) == multiset(cs0) && (quiet0 ==> controls == cs0)
      requires quiet0 && Distinct(cs0) ==> forall j :: i < j < |cs0| - 1 ==> !Interacting(cs0[j])
      modifies this`dockedPanels, this`remainingSpace, this`controls, Repr`isMouseOver, Repr`isMouseDown, Repr`checked
      modifies Repr`bounds, Repr`dock, Repr`isDragging, Repr`dragStartOffset, Repr`activeDockZone, Repr`tabIndex
      modifies Leaves()`isMouseOver, Leaves()`isMouseDown, Leaves()`checked
      ensures Valid() && |controls| == |cs0| && multiset(controls) == multiset(cs0)
      ensures quiet ==> quiet0 && controls == cs0
      ensures promote <==> i < |controls| - 1 && Interacting(controls[i])
      ensures quiet && Distinct(cs0) ==> forall j :: i < j < |cs0| - 1 ==> !Interacting(cs0[j])
      ensures quiet && Distinct(cs0) && !promote ==> forall j :: i <= j < |cs0| - 1 ==> !Interacting(cs0[j])
      // only the control updated changes its hover and drag state
      ensures forall q <- Panels() | q != old(controls)[i] :: q.isMouseOver == old(q.isMouseOver) && q.isDragging == old(q.isDragging)
    {
      var c := controls[i];
      assert c in Repr;
      assert forall x <- c.children :: x in Leaves();
      ghost var fired;
      events, fired := UpdateControl(c, pointer, pressed);
      quiet := quiet0 && !fired;
      assert |controls| == |multiset(controls)| == |cs0|;
      var control := controls[i];
      promote := control.kind == PanelKind && (control.isMouseOver || control.IsDragging()) && i < |controls| - 1;
    }

    /**
     * The animation loop of Update: every panel of the control list takes
     * one animation step.  Its target becomes its bounds; a panel being
     * dragged is drawn at its bounds.  When the list has no repeats, every
     * panel takes exactly one step; a panel that is in the list twice takes
     * two.  Panels outside the list keep their rectangles.
     */
    method AnimatePanels(elapsedSeconds: Option<real>)
      requires renderer.Valid()
      modifies renderer
      ensures renderer.Valid()
      ensures renderer.targetBounds.Keys == old(renderer.targetBounds).Keys + PanelsIn(controls)
      ensures forall p <- PanelsIn(controls) :: renderer.targetBounds[p] == p.bounds
      ensures forall p <- PanelsIn(controls) | p.IsDragging() :: renderer.currentBounds[p] == p.bounds
      ensures forall q <- old(renderer.targetBounds).Keys | q !in controls ::
        renderer.targetBounds[q] == old(renderer.targetBounds)[q] && renderer.currentBounds[q] == old(renderer.currentBounds)[q]
      ensures Distinct(controls) ==> forall p <- PanelsIn(controls) ::
        renderer.currentBounds[p] == AnimationStep(old(renderer.currentBounds), p, p.bounds, p.IsDragging(), Speed(elapsedSeconds))
    {
      ghost var t0, c0, speed := renderer.targetBounds, renderer.currentBounds, Speed(elapsedSeconds);
      var k := 0;
      while k < |controls|
        invariant k <= |controls| && renderer.Valid()
        invariant renderer.targetBounds.Keys == t0.Keys + PanelsIn(controls[..k])
        invariant forall p <- PanelsIn(controls[..k]) :: renderer.targetBounds[p] == p.bounds
        invariant forall p <- PanelsIn(controls[..k]) | p.IsDragging() :: renderer.currentBounds[p] == p.bounds
        invariant forall q <- t0.Keys | q !in PanelsIn(controls[..k]) :: renderer.targetBounds[q] == t0[q] && renderer.currentBounds[q] == c0[q]
        invariant Distinct(controls) ==> forall p <- PanelsIn(controls[..k]) ::
          renderer.currentBounds[p] == AnimationStep(c0, p, p.bounds, p.IsDragging(), speed)
      {
        var control := controls[k];
        ghost var done := controls[..k];
        assert controls[..k + 1] == done + [control];
        PanelsInSnoc(done, control);
        if control.kind == PanelKind {
          assert Distinct(controls) ==> control !in done;
          renderer.UpdatePanelAnimation(control, elapsedSeconds);
        }
        k := k + 1;
      }
      assert controls[..k] == controls;
    }

    /**
     * Update: when a panel of the control list is modal, only the topmost
     * one is updated; otherwise the walk updates the controls from the top
     * down and promotes at most one.  Then every panel takes one animation
     * step.  The events raised are returned in order.
     */
    method Update(elapsedSeconds: Option<real>, pointer: Point, pressed: bool) returns (events: seq<UIEvent>)
      requires Valid() && renderer.Valid() && forall p <- Panels() :: p.LeafChildren()
      modifies this`controls, this`dockedPanels, this`remainingSpace, Repr`isMouseOver, Repr`isMouseDown, Repr`checked
      modifies Repr`bounds, Repr`dock, Repr`isDragging, Repr`dragStartOffset, Repr`activeDockZone, Repr`tabIndex
      modifies Leaves()`isMouseOver, Leaves()`isMouseDown, Leaves()`checked, renderer
      ensures Valid() && renderer.Valid() && multiset(controls) == multiset(old(controls))
      ensures forall p <- Panels() :: p.LeafChildren()
    {
      var found := FindModal();
      if found.Some? {
        ghost var fired;
        events, fired := UpdateModal(found.value, pointer, pressed);
      } else {
        var promoted;
        ghost var quiet;
        promoted, events, quiet := UpdateWalk(pointer, pressed);
      }
      AnimatePanels(elapsedSeconds);
    }

    /**
     * The modal branch of Update: only the modal panel at `i` is updated.
     * Unless a drop on it runs the dock handlers (`fired`), the control
     * list keeps its order; no other panel changes its hover or drag state.
     */
    method UpdateModal(i: nat, pointer: Point, pressed: bool) returns (events: seq<UIEvent>, ghost fired: bool)
      requires Valid() && i < |controls| && IsModalPanel(controls[i]) && forall p <- Panels() :: p.LeafChildren()
      modifies this`controls, this`dockedPanels, this`remainingSpace, Repr`isMouseOver, Repr`isMouseDown, Repr`checked
      modifies Repr`bounds, Repr`dock, Repr`isDragging, Repr`dragStartOffset, Repr`activeDockZone, Repr`tabIndex
      modifies Leaves()`isMouseOver, Leaves()`isMouseDown, Leaves()`checked
      ensures Valid() && multiset(controls) == multiset(old(controls))
      ensures !fired ==> controls == old(controls)
      ensures forall q <- Panels() | q != old(controls)[i] :: q.isMouseOver == old(q.isMouseOver) && q.isDragging == old(q.isDragging)
      // no other control, top-level or a child of another panel, changes its hover, press, check or drag state
      ensures forall q <- old(Repr + Leaves()) | q != old(controls)[i] && q !in old(controls)[i].children ::
        q.Widget() == old(q.Widget()) && q.isDragging == old(q.isDragging)
      // the modal panel takes the hover step of its base update
      ensures var m := old(controls)[i];
        m.Hovering() == PointerStep(old(m.Hovering()), m.enabled && m.visible, old(m.bounds), pointer, pressed).0
    {
      var modalPanel := controls[i];
      assert modalPanel in Panels();
      assert forall x <- modalPanel.children :: x in Leaves();
      events, fired := UpdatePanel(modalPanel, pointer, pressed);
    }

    /** BringToFront: a control in the list moves from its first position to the top; otherwise nothing happens. */
    method BringToFront(panel: Control)
      requires Valid()
      modifies this`controls
      ensures Valid() && controls == BroughtToFront(old(controls), panel)
    {
      if panel in controls {
        BroughtToFrontOrder(controls, panel);
        controls := RemoveFirst(controls, panel) + [panel];
        forall c <- controls
          ensures c in Repr
        {
          assert c in multiset(old(controls));
        }
      }
    }

    /** RemoveControl: the first copy of the control leaves the control list; the docked lists are not touched. */
    method RemoveControl(control: Control)
      requires Valid()
      modifies this`controls
      ensures Valid() && controls == RemoveFirst(old(controls), control)
      ensures multiset(controls) == multiset(old(controls)) - multiset{control}
    {
      RemoveFirstCount(controls, control);
      controls := RemoveFirst(controls, control);
      forall c <- controls
        ensures c in Repr
      {
        assert c in multiset(controls);
      }
    }
  }

  /** The panels are in non-decreasing TabIndex order. */
  ghost predicate TabOrdered(r: seq<Control>)
    reads set p | p in r
  {
    forall i, j :: 0 <= i < j < |r| ==> r[i].tabIndex <= r[j].tabIndex
  }

  /** Where the insertion sort puts `x`: after every panel with a TabIndex not above its own. */
  method InsertionPoint(r: seq<Control>, x: Control) returns (n: nat)
    requires TabOrdered(r)
    ensures n <= |r|
    ensures forall i :: 0 <= i < n ==> r[i].tabIndex <= x.tabIndex
    ensures forall i :: n <= i < |r| ==> x.tabIndex < r[i].tabIndex
  {
    n := 0;
    while n < |r| && r[n].tabIndex <= x.tabIndex
      invariant n <= |r|
      invariant forall i :: 0 <= i < n ==> r[i].tabIndex <= x.tabIndex
    {
      n := n + 1;
    }
  }

  /** One step of the insertion sort. */
  method InsertByTabIndex(r: seq<Control>, x: Control) returns (r': seq<Control>)
    requires TabOrdered(r)
    ensures multiset(r') == multiset(r) + multiset{x}
    ensures TabOrdered(r')
  {
    var n := InsertionPoint(r, x);
    r' := r[..n] + [x] + r[n..];
    assert r == r[..n] + r[n..];
    forall i, j | 0 <= i < j < |r'|
      ensures r'[i].tabIndex <= r'[j].tabIndex
    {
      if j < n {
        assert r'[i] == r[i] && r'[j] == r[j];
      } else if j == n {
        assert r'[i] == r[i];
      } else if i < n {
        assert r'[i] == r[i] && r'[j] == r[j - 1];
      } else if i == n {
        assert r'[j] == r[j - 1];
      } else {
        assert r'[i] == r[i - 1] && r'[j] == r[j - 1];
      }
    }
  }

  /**
   * List.Sort with the comparison of TabIndex values, here an insertion
   * sort.  The source's sort is not stable, so the model promises only what
   * any sort does: the same panels, in non-decreasing TabIndex order.
   */
  method SortByTabIndex(ps: seq<Control>) returns (r: seq<Control>)
    ensures multiset(r) == multiset(ps)
    ensures forall i, j :: 0 <= i < j < |r| ==> r[i].tabIndex <= r[j].tabIndex
  {
    r := [];
    var k := 0;
    while k < |ps|
      invariant 0 <= k <= |ps|
      invariant multiset(r) == multiset(ps[..k])
      invariant TabOrdered(r)
    {
      r := InsertByTabIndex(r, ps[k]);
      assert ps[..k + 1] == ps[..k] + [ps[k]];
      k := k + 1;
    }
    assert ps[..k] == ps;
  }
}
