# Docking layout engine of MonoGameDarkUI, in Dafny

MonoGameDarkUI is a small retained-mode UI toolkit for MonoGame. This
project models its docking layout engine:

- the UIManager's list of top-level controls, kept in z-order;
- the five drop-target zones it builds from the screen size;
- the per-style lists of docked panels;
- the layout pass that carves the screen among those panels, in the order
  Left, Right, Top, Bottom, Fill;
- the per-frame update, which promotes the control under the pointer;
- the renderer's per-panel bounds animation;
- the drag-and-drop state machine of a panel;
- the hover/press/click state machine of every control.

The model has these modules:

- `Geometry`: System.Drawing rectangles (half-open on the right and bottom) and
  the C# numeric conversions involved. The `(int)` cast of a float truncates
  toward zero (`Trunc`); where the animator stores its result in an `int`,
  values outside the `int` range saturate at int.MinValue or int.MaxValue
  (`Trunc32`). `/ 2` rounds toward zero, and `int` subtraction wraps at 32
  bits.
- `Lists`: the `List<T>` operations `Remove`, and `RemoveAt` followed by `Add`,
  on sequences.
- `Docking`: dock styles, the `DockZone` record, the zone list shared by
  reference, the zone geometry and the formulas of `UIPanel.UpdateDockedBounds`.
- `Input`: `UIControl.Update` and the toggle rule of `UIButton.Update`, as
  functions. Each returns the new state and the events raised, in order.
- `Dragging`: `UIPanel.SetDock` and the title-strip drag of `UIPanel.Update`,
  as functions of the panel's drag state.
- `Controls`: the controls as one class `Control`, tagged by kind (panel,
  button, label). Its methods update the fields in place and are proved to do
  what the `Input` and `Dragging` functions describe.
- `Animation`: `UIRenderer.UpdatePanelAnimation`, with the two dictionaries as
  map fields of class `Animator`, plus the lerp/truncate/snap step it takes.
- `Layout`: the specification of `RecalculateDockedPanels` over values:
  - the bucket re-sync;
  - the overlap pass of `CheckForOverlappingPanels`;
  - the carving of the screen into strips (`Plan`), with "last write wins"
    as the meaning of repeated writes to a panel's bounds.
- `Manager`: class `UIManager`. Its methods mutate the control list, the
  dictionary of docked lists and the panels' `Bounds` and `TabIndex` in
  loops. They are proved against the `Layout` functions, with
  `RecalculateDockedPanels` ending in the `Recalculated` state.

Notes on how the code was read:

- **Float arithmetic.** `DockSize` and the animation factor are exact reals.
  `(int)(…)` is truncation toward zero inside the `int` range. C# leaves an
  out-of-range conversion unspecified; the animator model saturates, which is
  what .NET 9 and later do (`RunawayOvershootSaturates`).
- **Events.** The events of a control are returned as values. The only
  subscriber modelled is the manager's `OnDockStateChanged` handler. A panel
  counts its subscriptions in `dockHandlers`, and when the event is raised the
  handler runs once per subscription.
- **When the handler runs.** On a drop, the model runs the manager's handler
  after the panel's drag step rather than inside `SetDock`. The statements in
  between only clear the drag flag and the active zone again; `SetDock` has
  already cleared them, and the handler reads neither.
- **The shared zone list.** A registered panel holds the manager's
  `ZoneList` object, so the refill in `SetScreenBounds` is visible through
  every panel that holds it.
- **Repeated entries.** The control list and the docked lists may hold a panel
  twice: `AddControl` of an already-registered docked panel appends it again.
  Contracts whose exact form needs no repeats say so in their premise.
  `DuplicateSurvivesResync` and `BroughtToFrontTwiceWithRepeat` show what
  happens otherwise.

Behaviour of the code that a reader may not expect, which the model keeps:

- **Right strip in the demo layout.** On a 1280x720 screen with a 0.15 Left
  panel and a 0.2 Right panel, the Right panel gets `(1063, 0, 217, 720)`,
  not a fifth of the screen. Within one style, every panel claims its share of
  what the earlier styles left (`DemoLayout`).
- **No clamping in the animator.** At the default rate of 8 it overshoots
  (`DefaultRateOvershoots`), sevenfold each step, until the conversion to
  `int` saturates and the panel swings between the ends of the `int` range
  (`RunawayOvershootSaturates`). With a factor in [0, 1] it can still stall
  on truncation (`TruncationStallsForever`).
- **Removal does not purge the docked lists.** `RemoveControl` leaves the
  docked lists alone, and the re-sync only touches panels of the control
  list.
- **Undocking does not lay out again.** Undocking re-buckets the panel but
  triggers no layout pass (`Redock`).

## Model

| member | source | states |
|---|---|---|
| Geometry.Trunc | DarkUI.Core/Controls/UIPanel.cs:193 | the `(int)` cast of a float: the result is within one of the value, toward zero on either sign |
| Geometry.Trunc32 | DarkUI.MonoGame/Class1.cs:237-240 | the `(int)` cast into an `int` field: always in the `int` range, equal to `Trunc` inside it, int.MinValue below it and int.MaxValue above it |
| Geometry.Trunc32Between | DarkUI.MonoGame/Class1.cs:237-240 | a value between two `int` values converts to an `int` between them |
| Geometry.HalfTowardZero | DarkUI.MonoGame/Class1.cs:648-649 | C#'s `/ 2` on `int`: twice the quotient is within one of the dividend and on the side of zero |
| Geometry.Wrap32 | DarkUI.MonoGame/Class1.cs:243-246 | an unchecked `int` subtraction: the result is in `int` range, congruent to the exact value modulo 2^32, and equal to it when that is in range |
| Lists.RemoveFirstCount | DarkUI.MonoGame/Class1.cs:923 | `List.Remove` takes away exactly one copy of the element, if there is one, and nothing else |
| Lists.RemoveFirstAt | DarkUI.MonoGame/Class1.cs:1147 | `List.Remove` leaves what came before and after the first occurrence, in order |
| Lists.MoveToEndPermutes | DarkUI.MonoGame/Class1.cs:968-969 | `RemoveAt(i)` then `Add` is a permutation that puts the element last and keeps the others in their order |
| Docking.ComputeZones | DarkUI.MonoGame/Class1.cs:613-653 | the five zones in order Left, Right, Top, Bottom, Fill: 100-pixel bands flush with each screen edge, a 150-pixel centred Fill square whose origin is `(size - 150) / 2` rounded toward zero on each axis, every parent the screen |
| Docking.FirstZoneIndex | DarkUI.Core/Controls/UIPanel.cs:128-135 | the first zone in list order that contains the pointer: no earlier zone contains it |
| Docking.FirstZoneContaining | DarkUI.Core/Controls/UIPanel.cs:127-135 | the active zone is null exactly when no zone contains the pointer, and otherwise the first zone in list order that contains it |
| Docking.CenterSquareSelectsFill | DarkUI.MonoGame/Class1.cs:621-653 | on a screen at least 350 pixels each way, a pointer in the Fill square selects Fill and no band |
| Docking.CornersPreferSideBands | DarkUI.MonoGame/Class1.cs:621-642 | where the bands overlap in the corners, Left and Right win over Top and Bottom because they are listed first |
| Docking.DockedBounds | DarkUI.Core/Controls/UIPanel.cs:186-224 | Fill takes the whole parent; Left and Right take `(int)(W * f)` of the width flush with that edge at full height; Top and Bottom likewise on the height |
| Docking.ClaimWithin | DarkUI.Core/Controls/UIPanel.cs:193 | a fraction in [0, 1] of a non-negative extent claims between 0 and the whole extent |
| Docking.DockedBoundsInsideParent | DarkUI.Core/Controls/UIPanel.cs:186-224 | with a fraction in [0, 1] a docked panel lies inside its parent |
| Docking.DockedBoundsTranspose | DarkUI.Core/Controls/UIPanel.cs:203-216 | Top and Bottom docking are Left and Right docking with the axes exchanged |
| Docking.DockedLeftRightDisjoint | DarkUI.Core/Controls/UIPanel.cs:189-201 | with a fraction of at most one half, the Left and Right strips of one parent do not overlap |
| Docking.HalfClaim | DarkUI.Core/Controls/UIPanel.cs:193 | the truncated half of an extent, taken twice, fits in the extent |
| Input.PointerStep | DarkUI.Core/Controls/UIControl.cs:45-85 | an inactive control changes nothing and raises nothing; otherwise the hover flag becomes "bounds contain the pointer" and the pressed flag "hovered and held" |
| Input.PointerStepEvents | DarkUI.Core/Controls/UIControl.cs:57-84 | each event marks exactly its change of state (enter, leave, press, release, click on release over the control), Click always follows MouseUp, and at most three events are raised |
| Input.PressReleaseClicks | DarkUI.Core/Controls/UIControl.cs:63-75 | a press and then a release over the control raise MouseDown, then MouseUp and Click |
| Input.ButtonStep | DarkUI.Core/Controls/UIButton.cs:28-36 | the base update is performed unchanged, and Checked flips exactly when the button is a toggle, the (possibly stale) hover flag is set and the button is held |
| Input.LeafStep | DarkUI.Core/Controls/UIButton.cs:28-36 | a leaf widget performs the base update; only a button can change Checked |
| Input.HeldTwiceRestoresChecked | DarkUI.Core/Controls/UIButton.cs:32-35 | the flip happens on every held frame: two held updates over a toggle button restore Checked |
| Input.InactiveToggleUsesStaleHover | DarkUI.Core/Controls/UIButton.cs:30-35 | a disabled or invisible toggle button flips on its stale hover flag wherever the pointer is |
| Dragging.SetDockStep | DarkUI.Core/Controls/UIPanel.cs:74-95 | the event fires exactly when the style changes, and then the style is the new one; docking to anything but None cancels a drag and clears the active zone |
| Dragging.DragStep | DarkUI.Core/Controls/UIPanel.cs:107-154 | off the title strip nothing changes; a press starts a drag with the grab offset; holding moves the panel under the pointer and selects the first zone under it; a release ends the drag and docks to the active zone's style if there was one |
| Dragging.DockChangesOnlyOnDrop | DarkUI.Core/Controls/UIPanel.cs:137-153 | only a release that ends a drag over an active zone changes the style, to that zone's style, and then the event is raised |
| Dragging.PressThenHoldMovesByDelta | DarkUI.Core/Controls/UIPanel.cs:112-124 | press at p, then hold at q on the strip: the panel moves by exactly q - p and keeps its size |
| Dragging.HeldDragKeepsPointerOnStrip | DarkUI.Core/Controls/UIPanel.cs:108-124 | while held, the pointer stays on the moved panel's strip when the grab point lies on the strip |
| Dragging.JumpOffStripStallsDrag | DarkUI.Core/Controls/UIPanel.cs:108-109 | a pointer that leaves the strip in one frame leaves the panel where it is, still dragging |
| Dragging.DropOnLeftBandDocksLeft | DarkUI.Core/Controls/UIPanel.cs:112-146 | a drag of a panel onto the Left band of a 1280x720 screen and a release there dock it Left and raise the event |
| Controls.Control.constructor | DarkUI.Core/Controls/UIPanel.cs:12-54 | the `(x, y, width, height, text)` constructors: the given bounds, visible and enabled, undocked with DockSize 0.25, dockable, draggable, not dragging, no children, no zones |
| Controls.Control.BaseUpdate | DarkUI.Core/Controls/UIControl.cs:45-85 | the hover state and the events raised are those of `PointerStep` |
| Controls.Control.Update | DarkUI.Core/Controls/UIButton.cs:28-36 | a button or label update leaves the state and events of `LeafStep` (through `ChildStep`, from the control's kind, toggle flag, enabled-and-visible flag and bounds); Text and IsToggleButton are not written |
| Controls.Control.SetDockZones | DarkUI.Core/Controls/UIPanel.cs:68-72 | the panel shares the given zone list object |
| Controls.Control.SetDock | DarkUI.Core/Controls/UIPanel.cs:74-95 | the new drag state and the event flag are those of `SetDockStep` |
| Controls.Control.UpdateSelf | DarkUI.Core/Controls/UIPanel.cs:97-154 | the base update always happens; a modal panel with the pointer outside returns early with its drag state untouched; otherwise the drag state and event are those of `DragStep` over the shared zone list |
| Controls.Control.UpdateChildren | DarkUI.Core/Controls/UIPanel.cs:156-169 | the children get the absolute pointer only when it is in the panel or the panel is modal; then the events and the children's new states are those of `ChildrenStep` from their states before, repeated children included; otherwise no child changes and nothing is raised |
| Controls.ChildrenStep | DarkUI.Core/Controls/UIPanel.cs:163-168 | the children loop on values: only listed children change state, and every event is a pointer event raised by a listed child |
| Controls.ChildStepExtends | DarkUI.Core/Controls/UIPanel.cs:163-168 | one more iteration of the children loop steps the next child from the state the earlier ones left and appends its events tagged with it |
| Controls.UpdateLeaves | DarkUI.Core/Controls/UIPanel.cs:163-168 | the loop over the children: its events and the children's new states are those of `ChildrenStep` from the settings and states before the loop |
| Controls.UpdateChild | DarkUI.Core/Controls/UIPanel.cs:165-167 | one child's `Update`: that child takes one `ChildStep` and no other control changes |
| Controls.DistinctChildrenStepOnce | DarkUI.Core/Controls/UIPanel.cs:163-168 | when no child is listed twice, each child ends in the state of one `LeafStep` from its own state |
| Controls.Control.UpdateDockedBounds | DarkUI.Core/Controls/UIPanel.cs:178-231 | no change for None, otherwise the bounds of `DockedBounds`; the event is raised exactly when the bounds changed |
| Controls.Control.AddControl | DarkUI.Core/Controls/UIPanel.cs:56-60 | the child is appended and its parent becomes the panel |
| Controls.Control.RemoveControl | DarkUI.Core/Controls/UIPanel.cs:62-66 | the first copy of the child leaves the list and its parent is cleared, even when it was not a child |
| Controls.Control.IsDragging | DarkUI.Core/Controls/UIPanel.cs:234-237 | the drag flag of the panel's drag state |
| Controls.Control.GetActiveDockZone | DarkUI.Core/Controls/UIPanel.cs:239-242 | the active zone of the panel's drag state |
| Animation.Speed | DarkUI.MonoGame/Class1.cs:192-193 | the factor is 60 x 8 x elapsed seconds, and 8 without a game time |
| Animation.Lerp | DarkUI.MonoGame/Class1.cs:237-240 | factor 0 gives the start, 1 the end, and a factor in [0, 1] a value between them |
| Animation.SafeAbs | DarkUI.MonoGame/Class1.cs:260-265 | a non-negative `int`: int.MinValue gives int.MaxValue, any other argument its absolute value; at most 1 exactly when the argument is -1, 0 or 1 |
| Animation.Advance | DarkUI.MonoGame/Class1.cs:230-256 | at the target nothing changes; otherwise the rectangle is the lerp converted to `int`, or the target exactly when every converted coordinate is within a pixel of it; the result stays in the `int` range when both rectangles are |
| Animation.FractionalSpeedStaysBetween | DarkUI.MonoGame/Class1.cs:237-240 | with a factor in [0, 1] and both rectangles in the `int` range, no coordinate overshoots its target |
| Animation.FullSpeedArrives | DarkUI.MonoGame/Class1.cs:234-256 | with a factor of 1 the panel arrives in one step at any target in the `int` range |
| Animation.RunawayOvershootSaturates | DarkUI.MonoGame/Class1.cs:237-255 | at factor 8 a coordinate overshoots past int.MinValue, saturates there, and then alternates between int.MaxValue and int.MinValue |
| Animation.DefaultRateOvershoots | DarkUI.MonoGame/Class1.cs:192-193 | the default factor is 8, and it overshoots by seven times the distance, alternately on each side |
| Animation.TruncationStallsForever | DarkUI.MonoGame/Class1.cs:237-255 | with factor 0.1 a panel 5 pixels away never moves, however many steps |
| Animation.WrappedDifferenceSnaps | DarkUI.MonoGame/Class1.cs:243-250 | the 32-bit difference makes int.MinValue count as within a pixel of int.MaxValue, so the panel jumps across the range |
| Animation.AnimationStep | DarkUI.MonoGame/Class1.cs:195-256 | a dragged panel is drawn at its bounds, a panel seen first starts at its bounds, and any other panel takes one `Advance` step toward its bounds |
| Animation.Animator.constructor | DarkUI.MonoGame/Class1.cs:33-34 | both dictionaries start empty |
| Animation.Animator.UpdatePanelAnimation | DarkUI.MonoGame/Class1.cs:189-257 | the target of the panel becomes its bounds, its drawn rectangle becomes `AnimationStep` of the old one, and no other panel's entries change |
| Layout.Bucketed | DarkUI.MonoGame/Class1.cs:602-611 | the dictionary with a list for every style, holding the given lists |
| Layout.RemoveEverywhere | DarkUI.MonoGame/Class1.cs:669-672 | `Remove` on every list, leaving the keys unchanged |
| Layout.RebucketContents | DarkUI.MonoGame/Class1.cs:669-678 | one copy of the panel leaves every list, and one joins the list of its style unless that is None |
| Layout.RebucketAppends | DarkUI.MonoGame/Class1.cs:675-677 | after the move the panel is last in the list of its style |
| Layout.RebucketCount | DarkUI.MonoGame/Class1.cs:669-678 | the move changes no other element's count, and leaves a panel that was at most once in a list once in its style's list and nowhere else |
| Layout.ResyncWithin | DarkUI.MonoGame/Class1.cs:664-682 | the re-sync only moves the manager's panels among the lists, and the None list stays empty |
| Layout.ResyncPlacesControl | DarkUI.MonoGame/Class1.cs:664-682 | a panel of the control list with a style other than None ends up in that style's list, whatever the lists held |
| Layout.ResyncKeepsListed | DarkUI.MonoGame/Class1.cs:664-682 | a panel already in its own style's list stays there through the re-sync |
| Layout.ResyncKeepsOthers | DarkUI.MonoGame/Class1.cs:664-682 | anything that is not a panel of the control list, a removed panel included, keeps its count in every list |
| Layout.ResyncPlacesEachPanel | DarkUI.MonoGame/Class1.cs:664-682 | without repeats, every panel of the control list is in exactly the list of its style, once, and in none for None |
| Layout.ResyncKeepsAtMostOnce | DarkUI.MonoGame/Class1.cs:664-682 | a re-sync of a repeat-free control list keeps every list free of repeats |
| Layout.DuplicateSurvivesResync | DarkUI.MonoGame/Class1.cs:669-677 | a panel listed twice in its bucket is still listed twice after the re-sync |
| Layout.GatheredIsFlatten | DarkUI.MonoGame/Class1.cs:829-835 | the gathering loop collects the lists of every style but None, in key order |
| Layout.RowOnlyRaisesTabs | DarkUI.MonoGame/Class1.cs:840-859 | one row of comparisons changes only TabIndex values, only upward, and only of listed panels |
| Layout.PassOnlyRaisesTabs | DarkUI.MonoGame/Class1.cs:838-860 | the overlap pass changes nothing but TabIndex, only raises it, and only for panels in the lists |
| Layout.PassWithoutConflictIsIdentity | DarkUI.MonoGame/Class1.cs:838-860 | when no two listed panels overlap with the same style and TabIndex, the pass changes nothing |
| Layout.PassSeparatesPair | DarkUI.MonoGame/Class1.cs:849-857 | of two conflicting panels the later one gets the earlier one's TabIndex plus 1, and they no longer conflict |
| Layout.PassCanLeaveTie | DarkUI.MonoGame/Class1.cs:838-860 | the pass does not guarantee distinct TabIndex values: with TabIndex 2, 1, 1 the first and the last end up tied |
| Layout.PlacementsTargets | DarkUI.MonoGame/Class1.cs:733-816 | the loop of a bucket writes to its panels, in list order |
| Layout.PlacementAt | DarkUI.MonoGame/Class1.cs:733-742 | the k-th panel claims `(int)(E * DockSize)` of the extent E the bucket started with, after the claims of the panels before it |
| Layout.LeftStripsTile | DarkUI.MonoGame/Class1.cs:731-749 | Left strips sit side by side from the left edge of the remaining area at its full height, each `(int)(W0 * DockSize)` wide; the remaining area starts where the last one ends |
| Layout.RightStripsTile | DarkUI.MonoGame/Class1.cs:751-769 | Right strips mirror the Left ones from the right edge of the remaining area |
| Layout.TopBottomAreTransposed | DarkUI.MonoGame/Class1.cs:771-809 | the Top and Bottom strips and the area they leave are the Left and Right ones with the axes exchanged |
| Layout.TotalAtMostFractions | DarkUI.MonoGame/Class1.cs:735-741 | the claims of a bucket add up to at most the extent times the sum of its fractions |
| Layout.ClaimsFit | DarkUI.MonoGame/Class1.cs:731-809 | when a bucket's fractions add up to at most 1, its claims fit and the remaining area keeps a non-negative size |
| Layout.PlanTargetsConcat | DarkUI.MonoGame/Class1.cs:721-819 | the layout over some styles writes to the panels of their lists, concatenated in that order |
| Layout.PlanWritesFlattenedBuckets | DarkUI.MonoGame/Class1.cs:721-819 | the whole layout writes to exactly the panels the overlap pass compares, in the same order |
| Layout.PlanStep | DarkUI.MonoGame/Class1.cs:721-819 | one turn of the layout loop extends the writes and the remaining area by the next non-empty list alone |
| Layout.LayoutDone | DarkUI.MonoGame/Class1.cs:721-820 | after the loop every list is sorted by TabIndex, holds what it held, and the writes are those of the whole layout |
| Layout.FillTakesRemainder | DarkUI.MonoGame/Class1.cs:811-821 | the last writes of the layout, one per Fill panel, all give the final remaining area |
| Layout.FillPanelsTakeRemainder | DarkUI.MonoGame/Class1.cs:811-816 | the last write to any Fill panel is the final remaining area |
| Layout.SettledFillTakesRemainder | DarkUI.MonoGame/Class1.cs:811-821 | after the layout every panel of the Fill list has the remaining space as its bounds |
| Layout.LastWriteOfUnique | DarkUI.MonoGame/Class1.cs:733-816 | a panel written once ends with that write, and a panel never written keeps its bounds |
| Layout.ResyncedPlacesEachPanel | DarkUI.MonoGame/Class1.cs:664-682 | after the recalculation, without repeats, each panel of the control list is once in the list of its Dock and in no other; anything else keeps its counts |
| Layout.RecalculatedPlacesControl | DarkUI.MonoGame/Class1.cs:664-682 | after the recalculation a panel of the control list with a style other than None is in the list of its style, repeats or not |
| Layout.RecalculatedKeepsListed | DarkUI.MonoGame/Class1.cs:664-682 | after the recalculation a panel that was in its own style's list is still there |
| Layout.DemoLayout | DarkUI.MonoGame/Class1.cs:731-770 | on 1280x720 a 0.15 Left panel gets (0, 0, 192, 720) and a 0.2 Right panel (1063, 0, 217, 720), leaving (192, 0, 871, 720) |
| Manager.BroughtToFront | DarkUI.MonoGame/Class1.cs:1143-1150 | an absent control leaves the list unchanged; otherwise its first copy moves to the end |
| Manager.BroughtToFrontOrder | DarkUI.MonoGame/Class1.cs:1145-1148 | the same controls, the panel on top, and below it the list with its first copy removed, in order |
| Manager.BroughtToFrontIdempotent | DarkUI.MonoGame/Class1.cs:1143-1150 | without repeats, a second call changes nothing |
| Manager.BroughtToFrontAgain | DarkUI.MonoGame/Class1.cs:900-901 | after any reordering the panel ends on top, and without repeats a repeated handler run leaves the order of one run |
| Manager.BroughtToFrontTwiceWithRepeat | DarkUI.MonoGame/Class1.cs:1147-1148 | with the panel listed twice, a second call moves the other copy, so the list changes again |
| Manager.InitialTab | DarkUI.MonoGame/Class1.cs:911-914 | a non-positive TabIndex is replaced by the control count, a positive one kept |
| Manager.Enlisted | DarkUI.MonoGame/Class1.cs:905-908 | the panel is appended to the list of its style unless that is None; the other lists are unchanged |
| Manager.UIManager.constructor | DarkUI.MonoGame/Class1.cs:602-611 | no controls, an empty zone list, and an empty list for every style |
| Manager.UIManager.RemoveFromAllLists | DarkUI.MonoGame/Class1.cs:669-672 | the loop over the keys leaves the lists of `RemoveEverywhere` |
| Manager.UIManager.MoveToDockList | DarkUI.MonoGame/Class1.cs:668-678 | the lists become those of `Rebucket` for the panel's current style |
| Manager.UIManager.ResyncOne | DarkUI.MonoGame/Class1.cs:666-680 | one more control of the re-sync loop: a panel is moved, anything else skipped |
| Manager.UIManager.ResyncBuckets | DarkUI.MonoGame/Class1.cs:664-682 | the re-sync loop leaves the lists of `Resync` over the control list |
| Manager.UIManager.GatherDockedPanels | DarkUI.MonoGame/Class1.cs:826-835 | the lists of every style but None, appended in key order |
| Manager.UIManager.ComparePair | DarkUI.MonoGame/Class1.cs:842-858 | one comparison changes the panels' fields as `Compare` says |
| Manager.UIManager.CompareRow | DarkUI.MonoGame/Class1.cs:840-859 | the inner loop changes the fields as `Row` says |
| Manager.UIManager.CompareAll | DarkUI.MonoGame/Class1.cs:838-860 | the nested loops change the fields as `Pass` says |
| Manager.UIManager.CheckForOverlappingPanels | DarkUI.MonoGame/Class1.cs:824-868 | the panels' fields after the overlap pass over the flattened lists; see `PassOnlyRaisesTabs` for what that changes |
| Manager.UIManager.PlaceBucket | DarkUI.MonoGame/Class1.cs:731-816 | each panel's bounds are the last strip written to it, and the area returned is what the bucket leaves |
| Manager.SortByTabIndex | DarkUI.MonoGame/Class1.cs:726 | a permutation of the list in non-decreasing TabIndex order |
| Manager.UIManager.SortDockList | DarkUI.MonoGame/Class1.cs:726 | the list of the style is replaced by a permutation of itself sorted by TabIndex; the other lists are untouched |
| Manager.UIManager.LayoutStyle | DarkUI.MonoGame/Class1.cs:723-819 | a non-empty list is sorted and laid out in the area; an empty list leaves the area and every bound unchanged |
| Manager.UIManager.LayoutNext | DarkUI.MonoGame/Class1.cs:721-819 | one turn of the loop: the style's list sorted and its writes added to those so far |
| Manager.UIManager.LayoutBuckets | DarkUI.MonoGame/Class1.cs:703-821 | the loop ends in the layout state of all five styles: lists sorted permutations of the old ones, bounds the last writes, remaining area that of `Plan` |
| Manager.UIManager.SettleLists | DarkUI.MonoGame/Class1.cs:700-820 | the overlap pass then the layout loop leave the `Settled` state |
| Manager.UIManager.SettleDockedPanels | DarkUI.MonoGame/Class1.cs:700-821 | as `SettleLists`, and the remaining space is kept |
| Manager.UIManager.RecalculateDockedPanels | DarkUI.MonoGame/Class1.cs:659-822 | the lists, fields and remaining space of `Recalculated`: re-synced, separated by TabIndex, sorted and laid out |
| Manager.UIManager.ResetZones | DarkUI.MonoGame/Class1.cs:615-653 | the screen rectangle is set and the shared zone list is refilled in place with `ComputeZones` |
| Manager.UIManager.SetScreenBounds | DarkUI.MonoGame/Class1.cs:613-657 | the screen and the zones are set, every panel that shares the list sees the new zones, and the panels are recalculated |
| Manager.UIManager.Redock | DarkUI.MonoGame/Class1.cs:883-898 | undocking only re-buckets, leaving every bound and the remaining space; docking re-buckets and recalculates |
| Manager.UIManager.OnDockStateChanged | DarkUI.MonoGame/Class1.cs:881-902 | `Redock`, then the panel is brought to the front |
| Manager.UIManager.HandlerRun | DarkUI.MonoGame/Class1.cs:881-902 | a handler run keeps the controls a permutation and the panel on top, and puts a docked panel in its style's list |
| Manager.UIManager.RunDockHandlers | DarkUI.MonoGame/Class1.cs:881-902 | no handler changes nothing; otherwise the panel is on top, in its style's list when docked, and without repeats the order is that of one `BroughtToFront` |
| Manager.UIManager.Subscribe | DarkUI.MonoGame/Class1.cs:874-914 | a dockable panel shares the zone list, gains a handler, joins its style's list and gets its initial TabIndex |
| Manager.UIManager.Register | DarkUI.MonoGame/Class1.cs:870-914 | the control is appended; only a dockable panel shares the zones, gains a handler, is listed and gets a TabIndex; any other control keeps its handler count, zone list and TabIndex |
| Manager.UIManager.LayOutListed | DarkUI.MonoGame/Class1.cs:916-917 | the state is the one `RecalculateDockedPanels` leaves (`Recalculated` from the lists and fields before the pass), and the panel is in the list of its style unless that is None |
| Manager.UIManager.AddControl | DarkUI.MonoGame/Class1.cs:870-919 | the control is appended; anything but a dockable panel leaves the lists, the remaining space, every panel's Bounds and TabIndex, and its own handler count and zone list alone; a dockable panel is subscribed and, when docked, ends in its style's list, and the layout is `Recalculated` from the lists and fields that registering it leaves |
| Manager.UIManager.AddDockedPanel | DarkUI.MonoGame/Class1.cs:1152-1172 | the panel is in the control list once more at most, shares the zones, has the style, and is in that style's list unless it is None |
| Manager.UIManager.FindModal | DarkUI.MonoGame/Class1.cs:935-944 | the topmost modal panel, or none when no panel is modal |
| Manager.UIManager.UpdateModal | DarkUI.MonoGame/Class1.cs:946-950 | only the modal panel is updated: it takes the hover step of its base update, without a dock change the order is kept, and no other control (top-level, or a child of another panel) changes hover, press, check or drag state |
| Manager.UIManager.UpdatePanel | DarkUI.Core/Controls/UIPanel.cs:97-170 | a panel's update with the manager's handlers run on a drop; without a dock change the controls and lists are as before |
| Manager.UIManager.UpdateControl | DarkUI.MonoGame/Class1.cs:958 | `_controls[i].Update`: a panel takes its hover step, a button or label its leaf step with its events tagged; only that control changes hover or drag state among the panels |
| Manager.UIManager.Promote | DarkUI.MonoGame/Class1.cs:966-969 | the control at i moves to the top and the others keep their order |
| Manager.UIManager.VisitControl | DarkUI.MonoGame/Class1.cs:954-972 | one step of the walk: promote exactly when the control now at i is an interacting panel below the top; no other panel changes hover or drag state |
| Manager.UIManager.UpdateWalk | DarkUI.MonoGame/Class1.cs:951-973 | at most one control moves, to the top, and it is interacting; the controls walked before it were not interacting; the walk stops there, so the panels below it keep their hover and drag state |
| Manager.UIManager.AnimatePanels | DarkUI.MonoGame/Class1.cs:975-983 | every panel of the list gets its bounds as target and takes one `AnimationStep`; other panels keep their entries |
| Manager.UIManager.Update | DarkUI.MonoGame/Class1.cs:926-984 | the modal branch or the walk, then the animation; the controls stay a permutation |
| Manager.UIManager.BringToFront | DarkUI.MonoGame/Class1.cs:1143-1150 | the control list becomes `BroughtToFront` of the old one |
| Manager.UIManager.RemoveControl | DarkUI.MonoGame/Class1.cs:921-924 | the first copy leaves the control list; the docked lists are not touched |

## Left out

- Drawing is not modelled: the renderer's drawing methods, the dock-preview rectangle, `UIManager.Draw` and `DrawDebugInfo` (DarkUI.MonoGame/Class1.cs:68-187, 267-527, 986-1141).
- Console and debug output, `ShowDebugInfo` and `LogPanelState` (DarkUI.MonoGame/Class1.cs:1174-1206) are I/O.
- The `Visible = true` writes are not modelled: during the re-sync and in `AddDockedPanel` (DarkUI.MonoGame/Class1.cs:678, 691-698, 1166), and on the draw paths (DarkUI.MonoGame/Class1.cs:85, 173, 276, 335, 999, 1024). The model leaves `Visible` as it was. Because a control's update does nothing while it is hidden (DarkUI.Core/Controls/UIControl.cs:47), these writes also make a hidden panel, or a hidden child, respond to the pointer again. After a layout pass or a draw, the source would let such a panel hover, raise its pointer events and be promoted by the update walk, while in the model it stays inert until its `Visible` is set.
- The color cache, colour conversions, `RectangleExtensions` and the theme constants are rendering support.
- IEEE single-precision rounding is not modelled. Fractions and the animation factor are exact reals; only the truncation of `(int)` is kept.
- Event subscribers other than the manager's dock handler are not modelled. Events are returned as values, and a Click handler that changes the manager in the middle of the walk is outside the model.
- Without such handlers the control list keeps its length during the walk, so the guard `i < _controls.Count` (DarkUI.MonoGame/Class1.cs:956) always holds and is not modelled.
- Nested panels are not modelled. A panel's children are buttons and labels (`LeafChildren`), as in every layout the repository builds.
- The relative pointer computed in `UIPanel.Update` (DarkUI.Core/Controls/UIPanel.cs:157-159) is never used, so it is not modelled.
- The fields `_dragStartPosition`, `_isSnapped`, `ShowDockingPreview` and `Tag` are never read by the engine and are not modelled.
- The parameterless constructors of the controls are not modelled. GameProject/Game1.cs is application bootstrapping and is not part of this model.
- The game time is a parameter: the elapsed seconds, or none.
- Animation.Advance: a float-to-int conversion outside the `int` range saturates, as on .NET 9 and later. Older runtimes give an unspecified value there, which is not modelled.
- Controls.Control.UpdateChildren: the test "pointer in the panel or modal" is made once before the loop instead of once per child. Nothing in the loop changes either operand, so the behaviour is the same.
- Controls.Control.UpdateDockedBounds: returns whether `OnDockStateChanged` was raised, but does not run the manager's handler. The manager itself never calls this method.
- Manager.SortByTabIndex: the source's `List.Sort` is unstable. The model is an insertion sort, and its contract promises only what every sort does: a permutation in non-decreasing TabIndex order.
- `int` overflow in the layout is not modelled: the sums, claims and halvings of the docked layout (`Layout.Plan`, `Docking.DockedBounds`, `Controls.Control.UpdateDockedBounds`) are on unbounded integers.
- Manager.UIManager.UpdateWalk: its claims about the order hold only when no dock handler ran during the walk (`quiet`). The claim that the controls walked were not interacting also needs a repeat-free list.
- Manager.UIManager.Update: states only that the controls stay a permutation and the state stays valid. The per-branch claims are on `UpdateModal`, `UpdateWalk` and `AnimatePanels`.
- Manager.UIManager.UpdatePanel: does not restate the children's update, which `UpdateChildren` states. It also does not restate the drag step, which `UpdateSelf` states.
- Manager.UIManager.UpdatePanel: does not state the events it returns. The children's events are stated by `UpdateChildren` and the panel's own by `BaseUpdate`.
- Manager.UIManager.UpdateModal: does not state the events it returns, which are those of `UpdatePanel` on the modal panel.
- Manager.UIManager.Update: does not state the events it returns, which are those of the panels and leaves it updates, in walk order.
- Manager.UIManager.AnimatePanels: gives the exact step only for a repeat-free control list. A panel listed twice takes two steps.
- Manager.UIManager.AddDockedPanel: does not restate the layout. It keeps the order of the controls only when no handler ran.
- Manager.UIManager.RunDockHandlers: does not describe the layout left by several handler runs. It states the order exactly only for a repeat-free control list.
