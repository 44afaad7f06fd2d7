/**
 * Dock styles, drop-target zones and the single-panel docking formulas
 * (DarkUI.Core/Controls/UIPanel.cs and the zone calculation in
 * UIManager.SetScreenBounds, DarkUI.MonoGame/Class1.cs).
 */
module Docking {
  import opened Wrappers
  import opened Geometry

  /** UIPanel.DockStyle. */
  datatype DockStyle = None | Left | Right | Top | Bottom | Fill

  /** UIPanel.TITLE_HEIGHT: the height of the strip a panel is dragged by. */
  const TitleHeight: int := 25

  /** UIManager.DockEdgeThreshold: the thickness of the four edge zones. */
  const DockEdgeThreshold: int := 100

  /** UIManager.CenterDockZoneSize: the side of the square Fill zone. */
  const CenterDockZoneSize: int := 150

  /**
   * A drop target.  In the source it is a class whose properties are never
   * written after construction, so it is a value here.
   */
  datatype DockZone = DockZone(zoneBounds: Rect, parentBounds: Rect, dockStyle: DockStyle)

  /**
   * The List<DockZone> that the manager owns and that every registered panel
   * holds a reference to: the manager's Clear/Add calls are seen by the panels.
   */
  class ZoneList {
    var zones: seq<DockZone>

    constructor ()
      ensures zones == []
    {
      zones := [];
    }
  }

  /** The five drop targets UIManager.SetScreenBounds builds for a screen of the given size, in list order. */
  function ComputeZones(width: int, height: int): (zones: seq<DockZone>)
    ensures |zones| == 5
    ensures forall z <- zones :: z.parentBounds == Rect(0, 0, width, height)
    ensures zones[0].dockStyle == Left && zones[1].dockStyle == Right && zones[2].dockStyle == Top
    ensures zones[3].dockStyle == Bottom && zones[4].dockStyle == Fill
    // the four bands lie flush against the matching screen edge and are DockEdgeThreshold thick
    ensures zones[0].zoneBounds.x == 0 && zones[0].zoneBounds.width == DockEdgeThreshold
    ensures zones[1].zoneBounds.Right() == width && zones[1].zoneBounds.width == DockEdgeThreshold
    ensures zones[2].zoneBounds.y == 0 && zones[2].zoneBounds.height == DockEdgeThreshold
    ensures zones[3].zoneBounds.Bottom() == height && zones[3].zoneBounds.height == DockEdgeThreshold
    ensures forall i :: 0 <= i < 2 ==> zones[i].zoneBounds.y == 0 && zones[i].zoneBounds.height == height
    ensures forall i :: 2 <= i < 4 ==> zones[i].zoneBounds.x == 0 && zones[i].zoneBounds.width == width
    // the Fill square is centred: its two margins on each axis differ by at most one pixel
    ensures var c := zones[4].zoneBounds;
      c.width == CenterDockZoneSize && c.height == CenterDockZoneSize
      && -1 <= (width - c.Right()) - c.x <= 1 && -1 <= (height - c.Bottom()) - c.y <= 1
    // its origin is C#'s `(size - 150) / 2`, rounded toward zero
    ensures zones[4].zoneBounds.x == HalfTowardZero(width - CenterDockZoneSize)
    ensures zones[4].zoneBounds.y == HalfTowardZero(height - CenterDockZoneSize)
  {
    var screen := Rect(0, 0, width, height);
    [ DockZone(Rect(0, 0, DockEdgeThreshold, height), screen, Left),
      DockZone(Rect(width - DockEdgeThreshold, 0, DockEdgeThreshold, height), screen, Right),
      DockZone(Rect(0, 0, width, DockEdgeThreshold), screen, Top),
      DockZone(Rect(0, height - DockEdgeThreshold, width, DockEdgeThreshold), screen, Bottom),
      DockZone(Rect(HalfTowardZero(width - CenterDockZoneSize), HalfTowardZero(height - CenterDockZoneSize),
                    CenterDockZoneSize, CenterDockZoneSize), screen, Fill) ]
  }

  /** The index of the first zone, in list order, whose ZoneBounds contain `p`; |zones| when there is none. */
  function FirstZoneIndex(zones: seq<DockZone>, p: Point): (i: nat)
    ensures i <= |zones|
    ensures i < |zones| ==> zones[i].zoneBounds.Contains(p)
    ensures forall j :: 0 <= j < i ==> !zones[j].zoneBounds.Contains(p)
  {
    if |zones| == 0 then 0
    else if zones[0].zoneBounds.Contains(p) then 0
    else 1 + FirstZoneIndex(zones[1..], p)
  }

  /** The zone a drag over `p` makes active: the first match, or null. */
  function FirstZoneContaining(zones: seq<DockZone>, p: Point): (r: Option<DockZone>)
    ensures r.None? <==> forall z <- zones :: !z.zoneBounds.Contains(p)
    ensures r.Some? ==> r.value in zones && r.value.zoneBounds.Contains(p)
    // the match is the first in list order
    ensures r.Some? ==> exists i :: (0 <= i < |zones| && r.value == zones[i]
                                     && forall j :: 0 <= j < i ==> !zones[j].zoneBounds.Contains(p))
  {
    var i := FirstZoneIndex(zones, p);
    if i < |zones| then Some(zones[i]) else Option.None
  }

  /**
   * On a screen at least 350 pixels on each side the Fill square does not
   * meet any edge band, so a pointer inside it always selects Fill.
   */
  lemma CenterSquareSelectsFill(width: int, height: int, p: Point)
    requires width >= 350 && height >= 350
    requires ComputeZones(width, height)[4].zoneBounds.Contains(p)
    ensures FirstZoneContaining(ComputeZones(width, height), p) == Some(ComputeZones(width, height)[4])
  {
    var zones := ComputeZones(width, height);
    forall j | 0 <= j < 4 ensures !zones[j].zoneBounds.Contains(p) {
    }
    var i := FirstZoneIndex(zones, p);
    assert i == 4;
  }

  /** Where the corner bands overlap, Left wins over Top and Bottom, and Right wins over Top and Bottom. */
  lemma CornersPreferSideBands(width: int, height: int, p: Point)
    requires width >= DockEdgeThreshold && height >= DockEdgeThreshold
    requires 0 <= p.x < width && 0 <= p.y < height
    requires p.y < DockEdgeThreshold || p.y >= height - DockEdgeThreshold
    ensures p.x < DockEdgeThreshold ==> FirstZoneContaining(ComputeZones(width, height), p) == Some(ComputeZones(width, height)[0])
    ensures width - DockEdgeThreshold <= p.x && DockEdgeThreshold <= p.x
      ==> FirstZoneContaining(ComputeZones(width, height), p) == Some(ComputeZones(width, height)[1])
  {
    var zones := ComputeZones(width, height);
    var i := FirstZoneIndex(zones, p);
    if p.x < DockEdgeThreshold {
      assert zones[0].zoneBounds.Contains(p);
      assert i == 0;
    }
    if width - DockEdgeThreshold <= p.x && DockEdgeThreshold <= p.x {
      assert zones[1].zoneBounds.Contains(p);
      assert i == 1;
    }
  }

  /** The title strip a panel is dragged by: its top 25 pixels, whether or not the title is shown. */
  function TitleStrip(bounds: Rect): Rect {
    Rect(bounds.x, bounds.y, bounds.width, TitleHeight)
  }

  /** The extent a docked panel of fraction `f` claims out of `extent`: `(int)(extent * f)`. */
  function Claim(extent: int, f: real): int {
    Trunc(extent as real * f)
  }

  /** A claim with a fraction in [0, 1] of a non-negative extent lies between 0 and the extent. */
  lemma ClaimWithin(extent: int, f: real)
    requires 0 <= extent && 0.0 <= f <= 1.0
    ensures 0 <= Claim(extent, f) <= extent
  {
    assert 0.0 <= extent as real * f <= extent as real;
    TruncBetween(extent as real * f, 0, extent);
  }

  /** UIPanel.UpdateDockedBounds: the bounds a panel docked by style `dock` takes inside `parent`. */
  function DockedBounds(dock: DockStyle, parent: Rect, f: real): (r: Rect)
    requires dock != DockStyle.None
    ensures dock == Fill ==> r == parent
    ensures dock in {Left, Top, Fill} ==> r.x == parent.x && r.y == parent.y
    ensures dock == Right ==> r.Right() == parent.Right() && r.y == parent.y
    ensures dock == Bottom ==> r.Bottom() == parent.Bottom() && r.x == parent.x
    ensures dock in {Left, Right} ==> r.height == parent.height && r.width == Claim(parent.width, f)
    ensures dock in {Top, Bottom} ==> r.width == parent.width && r.height == Claim(parent.height, f)
  {
    match dock
    case Left => Rect(parent.x, parent.y, Claim(parent.width, f), parent.height)
    case Right =>
      Rect(parent.x + parent.width - Claim(parent.width, f), parent.y, Claim(parent.width, f), parent.height)
    case Top => Rect(parent.x, parent.y, parent.width, Claim(parent.height, f))
    case Bottom =>
      Rect(parent.x, parent.y + parent.height - Claim(parent.height, f), parent.width, Claim(parent.height, f))
    case Fill => parent
  }

  /** With a fraction in [0, 1] a docked panel stays inside its parent. */
  lemma DockedBoundsInsideParent(dock: DockStyle, parent: Rect, f: real)
    requires dock != DockStyle.None
    requires 0.0 <= f <= 1.0 && 0 <= parent.width && 0 <= parent.height
    ensures var r := DockedBounds(dock, parent, f);
      0 <= r.width && 0 <= r.height
      && parent.x <= r.x && r.Right() <= parent.Right() && parent.y <= r.y && r.Bottom() <= parent.Bottom()
  {
    ClaimWithin(parent.width, f);
    ClaimWithin(parent.height, f);
  }

  /** Top and Bottom docking are Left and Right docking with the axes exchanged. */
  lemma DockedBoundsTranspose(parent: Rect, f: real)
    ensures DockedBounds(Top, parent, f) == Transpose(DockedBounds(Left, Transpose(parent), f))
    ensures DockedBounds(Bottom, parent, f) == Transpose(DockedBounds(Right, Transpose(parent), f))
  {
  }

  /** Docking Left and docking Right with the same fraction claim the same strip width from opposite edges. */
  lemma DockedLeftRightDisjoint(parent: Rect, f: real)
    requires 0.0 <= f <= 0.5 && 0 <= parent.width
    ensures DockedBounds(Left, parent, f).Right() <= DockedBounds(Right, parent, f).x
  {
    var w := parent.width as real;
    assert w * f <= w * 0.5;
    TruncMonotonic(w * f, w * 0.5);
    HalfClaim(parent.width);
  }

  /** Half of a non-negative extent, truncated, is at most half of it. */
  lemma HalfClaim(e: int)
    requires 0 <= e
    ensures 2 * Claim(e, 0.5) <= e
  {
    assert Claim(e, 0.5) as real <= e as real * 0.5;
  }
}
