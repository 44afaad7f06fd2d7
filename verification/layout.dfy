/**
 * The specification of UIManager.RecalculateDockedPanels
 * (DarkUI.MonoGame/Class1.cs) over values: the per-style buckets, the
 * re-sync of the buckets from each panel's Dock, the overlap pass that
 * bumps TabIndex, and the carving of the screen into docked strips.
 * Panels are of any type T with equality; what the manager reads and
 * writes of a panel is its Slot.
 */
module Layout {
  import opened Geometry
  import opened Lists
  import opened Docking

  /** The manager's `_dockedPanels`: a list of panels per dock style. */
  type Buckets<T> = map<DockStyle, seq<T>>

  /** The fields of a panel the layout reads and writes. */
  datatype Slot = Slot(bounds: Rect, dock: DockStyle, tab: int, size: real)

  /** Every style has a list, as the manager's constructor sets up. */
  predicate Complete<T>(b: Buckets<T>) {
    forall s: DockStyle :: s in b
  }

  /** The buckets with the given lists for Left, Right, Top, Bottom and Fill, and an empty None list. */
  function Bucketed<T>(left: seq<T>, right: seq<T>, top: seq<T>, bottom: seq<T>, fill: seq<T>): (b: Buckets<T>)
    ensures Complete(b) && b[DockStyle.None] == []
    ensures b[Left] == left && b[Right] == right && b[Top] == top && b[Bottom] == bottom && b[Fill] == fill
  {
    map s: DockStyle :: Pick(s, left, right, top, bottom, fill)
  }

  function Pick<T>(s: DockStyle, left: seq<T>, right: seq<T>, top: seq<T>, bottom: seq<T>, fill: seq<T>): seq<T> {
    match s
    case None => []
    case Left => left
    case Right => right
    case Top => top
    case Bottom => bottom
    case Fill => fill
  }

  /** Every element of `ps` has a slot. */
  predicate Covers<T>(slots: map<T, Slot>, ps: seq<T>) {
    forall p <- ps :: p in slots
  }

  /** Every element of every bucket has a slot. */
  predicate CoversAll<T>(slots: map<T, Slot>, b: Buckets<T>)
    requires Complete(b)
  {
    forall s: DockStyle :: Covers(slots, b[s])
  }

  /** The order in which RecalculateDockedPanels lays out the styles. */
  const LayoutOrder: seq<DockStyle> := [Left, Right, Top, Bottom, Fill]

  /** The order in which the manager's dictionary enumerates its keys: the order they were inserted in. */
  const KeyOrder: seq<DockStyle> := [DockStyle.None, Left, Right, Top, Bottom, Fill]

  /** The position of a style in KeyOrder. */
  function KeyPosition(s: DockStyle): (k: nat)
    ensures k < |KeyOrder| && KeyOrder[k] == s
  {
    match s
    case None => 0
    case Left => 1
    case Right => 2
    case Top => 3
    case Bottom => 4
    case Fill => 5
  }

  /** The number of keys of the dictionary of docked lists. */
  const KeyCount := 6

  /** The `k`th key of the dictionary, in the order the constructor inserts them. */
  function KeyAt(k: nat): (s: DockStyle)
    requires k < KeyCount
    ensures s == KeyOrder[k]
  {
    if k == 0 then DockStyle.None else if k == 1 then Left else if k == 2 then Right
    else if k == 3 then Top else if k == 4 then Bottom else Fill
  }

  lemma KeyPositionOf(k: nat)
    requires k < KeyCount
    ensures KeyPosition(KeyAt(k)) == k
  {
  }

  lemma StyleListed(s: DockStyle)
    ensures s in KeyOrder && (s != DockStyle.None ==> s in LayoutOrder)
  {
    match s
    case None =>
    case Left =>
    case Right =>
    case Top =>
    case Bottom =>
    case Fill =>
  }

  // ---------------------------------------------------------------------------
  // Re-sync of the buckets

  /** `List.Remove(p)` on every bucket. */
  function RemoveEverywhere<T(==)>(b: Buckets<T>, p: T): (r: Buckets<T>)
    ensures r.Keys == b.Keys
    ensures forall s <- b.Keys :: r[s] == RemoveFirst(b[s], p)
  {
    map s | s in b :: RemoveFirst(b[s], p)
  }

  /** The removal loop over the dictionary's keys after its first `k` keys, in KeyOrder. */
  function RemovedUpTo<T(==)>(b: Buckets<T>, p: T, k: nat): (r: Buckets<T>)
    ensures r.Keys == b.Keys
  {
    map s | s in b :: if KeyPosition(s) < k then RemoveFirst(b[s], p) else b[s]
  }

  /** One more turn of the removal loop. */
  lemma RemovedStep<T>(b: Buckets<T>, p: T, k: nat, done: Buckets<T>)
    requires Complete(b) && k < KeyCount && done == RemovedUpTo(b, p, k)
    ensures RemovedUpTo(b, p, k + 1) == done[KeyAt(k) := RemoveFirst(done[KeyAt(k)], p)]
  {
    KeyPositionOf(k);
  }

  /** Before the loop nothing is removed. */
  lemma RemovedNone<T>(b: Buckets<T>, p: T)
    ensures RemovedUpTo(b, p, 0) == b
  {
  }

  /** After the loop the panel is removed from every list. */
  lemma RemovedAll<T>(b: Buckets<T>, p: T, done: Buckets<T>)
    requires done == RemovedUpTo(b, p, KeyCount)
    ensures done == RemoveEverywhere(b, p)
  {
  }

  /**
   * The bucket update for one panel, done by the re-sync and by the
   * dock-change handler: remove it from every list, then append it to the
   * list of its style unless that is None.
   */
  function Rebucket<T(==)>(b: Buckets<T>, p: T, d: DockStyle): (r: Buckets<T>)
    requires Complete(b)
    ensures Complete(r)
  {
    var removed := RemoveEverywhere(b, p);
    if d == DockStyle.None then removed else removed[d := removed[d] + [p]]
  }

  /** Rebucket takes one copy of the panel out of every list and adds one to the list of its style, unless that is None. */
  lemma RebucketContents<T>(b: Buckets<T>, p: T, d: DockStyle)
    requires Complete(b)
    ensures forall s: DockStyle ::
      multiset(Rebucket(b, p, d)[s]) == multiset(b[s]) - multiset{p} + (if s == d && d != DockStyle.None then multiset{p} else multiset{})
  {
    forall s: DockStyle
      ensures multiset(Rebucket(b, p, d)[s]) == multiset(b[s]) - multiset{p} + (if s == d && d != DockStyle.None then multiset{p} else multiset{})
    {
      RemoveFirstCount(b[s], p);
    }
  }

  /** After Rebucket to a style other than None the panel is last in the list of that style. */
  lemma RebucketAppends<T>(b: Buckets<T>, p: T, d: DockStyle)
    requires Complete(b) && d != DockStyle.None
    ensures |Rebucket(b, p, d)[d]| > 0 && Rebucket(b, p, d)[d][|Rebucket(b, p, d)[d]| - 1] == p
  {
  }

  /** The re-sync loop of RecalculateDockedPanels over the controls `cs`; the panels are the controls with a slot. */
  function Resync<T(==)>(b: Buckets<T>, cs: seq<T>, slots: map<T, Slot>): (r: Buckets<T>)
    requires Complete(b)
    ensures Complete(r)
    decreases |cs|
  {
    if |cs| == 0 then b
    else
      var prev := Resync(b, cs[..|cs| - 1], slots);
      var c := cs[|cs| - 1];
      if c in slots then Rebucket(prev, c, slots[c].dock) else prev
  }

  /** One more control of the re-sync loop. */
  lemma ResyncSnoc<T>(b: Buckets<T>, cs: seq<T>, slots: map<T, Slot>, c: T)
    requires Complete(b)
    ensures Resync(b, cs + [c], slots)
      == if c in slots then Rebucket(Resync(b, cs, slots), c, slots[c].dock) else Resync(b, cs, slots)
  {
    assert (cs + [c])[..|cs|] == cs;
  }

  /** No panel occurs twice in one bucket. */
  predicate AtMostOnce<T(==)>(b: Buckets<T>)
    requires Complete(b)
  {
    forall s: DockStyle, x <- b[s] :: multiset(b[s])[x] <= 1
  }

  /** How many copies of `x` a bucket holds after Rebucket of `p`. */
  lemma RebucketCount<T>(b: Buckets<T>, p: T, d: DockStyle, s: DockStyle, x: T)
    requires Complete(b)
    ensures x != p ==> multiset(Rebucket(b, p, d)[s])[x] == multiset(b[s])[x]
    ensures x == p && multiset(b[s])[x] <= 1
      ==> multiset(Rebucket(b, p, d)[s])[x] == if s == d && d != DockStyle.None then 1 else 0
  {
    RebucketContents(b, p, d);
  }

  /** Rebucket only moves a member among the lists and keeps None empty. */
  lemma RebucketWithin<T>(b: Buckets<T>, p: T, d: DockStyle, members: set<T>)
    requires Complete(b) && b[DockStyle.None] == [] && p in members
    requires forall s: DockStyle, x <- b[s] :: x in members
    ensures Rebucket(b, p, d)[DockStyle.None] == []
    ensures forall s: DockStyle, x <- Rebucket(b, p, d)[s] :: x in members
  {
    var r := Rebucket(b, p, d);
    assert RemoveFirst(b[DockStyle.None], p) == [];
    forall s: DockStyle, x | x in r[s]
      ensures x in members
    {
      if x != p {
        RebucketCount(b, p, d, s, x);
        assert multiset(b[s])[x] > 0;
      }
    }
  }

  /** The re-sync only moves panels among the lists: everything in a list was in one before or has a slot, and None stays empty. */
  lemma {:induction false} ResyncWithin<T>(b: Buckets<T>, cs: seq<T>, slots: map<T, Slot>, members: set<T>)
    requires Complete(b) && b[DockStyle.None] == []
    requires (forall s: DockStyle, x <- b[s] :: x in members) && slots.Keys <= members
    ensures Resync(b, cs, slots)[DockStyle.None] == []
    ensures forall s: DockStyle, x <- Resync(b, cs, slots)[s] :: x in members
    decreases |cs|
  {
    if |cs| > 0 {
      var init := cs[..|cs| - 1];
      var c := cs[|cs| - 1];
      ResyncWithin(b, init, slots, members);
      if c in slots {
        RebucketWithin(Resync(b, init, slots), c, slots[c].dock, members);
      }
    }
  }

  /** A panel of the control list whose style is not None ends up in the list of its style, whatever the lists held. */
  lemma {:induction false} ResyncPlacesControl<T>(b: Buckets<T>, cs: seq<T>, slots: map<T, Slot>, c: T)
    requires Complete(b) && c in cs && c in slots && slots[c].dock != DockStyle.None
    ensures c in Resync(b, cs, slots)[slots[c].dock]
    decreases |cs|
  {
    var init := cs[..|cs| - 1];
    var last := cs[|cs| - 1];
    var prev := Resync(b, init, slots);
    if last == c {
      assert Rebucket(prev, c, slots[c].dock)[slots[c].dock] == RemoveFirst(prev[slots[c].dock], c) + [c];
    } else {
      assert c in init;
      ResyncPlacesControl(b, init, slots, c);
      if last in slots {
        RebucketCount(prev, last, slots[last].dock, slots[c].dock, c);
        assert multiset(prev[slots[c].dock])[c] > 0;
      }
    }
  }

  /** A panel in the list of its own style stays there through the re-sync. */
  lemma {:induction false} ResyncKeepsListed<T>(b: Buckets<T>, cs: seq<T>, slots: map<T, Slot>, x: T, s: DockStyle)
    requires Complete(b) && s != DockStyle.None && x in b[s] && (x in slots ==> slots[x].dock == s)
    ensures x in Resync(b, cs, slots)[s]
    decreases |cs|
  {
    if |cs| > 0 {
      var init := cs[..|cs| - 1];
      var last := cs[|cs| - 1];
      var prev := Resync(b, init, slots);
      ResyncKeepsListed(b, init, slots, x, s);
      if last in slots {
        if last == x {
          assert Rebucket(prev, x, s)[s] == RemoveFirst(prev[s], x) + [x];
        } else {
          RebucketCount(prev, last, slots[last].dock, s, x);
          assert multiset(prev[s])[x] > 0;
        }
      }
    }
  }

  /** The re-sync leaves the count of anything that is not a panel of `cs` alone. */
  lemma {:induction false} ResyncKeepsOthers<T>(b: Buckets<T>, cs: seq<T>, slots: map<T, Slot>, s: DockStyle, x: T)
    requires Complete(b) && !(x in cs && x in slots)
    ensures multiset(Resync(b, cs, slots)[s])[x] == multiset(b[s])[x]
    decreases |cs|
  {
    if |cs| > 0 {
      var init := cs[..|cs| - 1];
      var c := cs[|cs| - 1];
      assert x in init ==> x in cs;
      ResyncKeepsOthers(b, init, slots, s, x);
      if c in slots {
        RebucketCount(Resync(b, init, slots), c, slots[c].dock, s, x);
      }
    }
  }

  /** The re-sync leaves each panel of a repeat-free `cs` once in the bucket of its style, if it was there at most once. */
  lemma {:induction false} ResyncCountsPanel<T>(b: Buckets<T>, cs: seq<T>, slots: map<T, Slot>, s: DockStyle, y: T)
    requires Complete(b) && Distinct(cs) && y in cs && y in slots && multiset(b[s])[y] <= 1
    ensures multiset(Resync(b, cs, slots)[s])[y] == if s == slots[y].dock && s != DockStyle.None then 1 else 0
    decreases |cs|
  {
    var init := cs[..|cs| - 1];
    var c := cs[|cs| - 1];
    var prev := Resync(b, init, slots);
    if y == c {
      assert c !in init;
      ResyncKeepsOthers(b, init, slots, s, c);
      RebucketCount(prev, c, slots[c].dock, s, c);
    } else {
      assert y in init;
      assert Distinct(init);
      ResyncCountsPanel(b, init, slots, s, y);
      if c in slots {
        RebucketCount(prev, c, slots[c].dock, s, y);
      }
    }
  }

  /**
   * The re-sync settles every panel of the control list: when the control
   * list has no repeats and no bucket holds a panel twice, afterwards each
   * of those panels is in exactly the bucket of its style, in none for None.
   */
  lemma ResyncPlacesEachPanel<T>(b: Buckets<T>, cs: seq<T>, slots: map<T, Slot>)
    requires Complete(b) && AtMostOnce(b) && Distinct(cs)
    ensures forall s: DockStyle, c | c in cs && c in slots ::
      multiset(Resync(b, cs, slots)[s])[c] == if s == slots[c].dock && s != DockStyle.None then 1 else 0
  {
    forall s: DockStyle, c | c in cs && c in slots
      ensures multiset(Resync(b, cs, slots)[s])[c] == if s == slots[c].dock && s != DockStyle.None then 1 else 0
    {
      if c in b[s] {
        assert multiset(b[s])[c] <= 1;
      }
      ResyncCountsPanel(b, cs, slots, s, c);
    }
  }

  /** Every element that is not a panel of the control list keeps its count in every bucket. */
  lemma ResyncKeepsOthersEverywhere<T>(b: Buckets<T>, cs: seq<T>, slots: map<T, Slot>)
    requires Complete(b)
    ensures forall s: DockStyle, x | !(x in cs && x in slots) ::
      multiset(Resync(b, cs, slots)[s])[x] == multiset(b[s])[x]
  {
    forall s: DockStyle, x | !(x in cs && x in slots)
      ensures multiset(Resync(b, cs, slots)[s])[x] == multiset(b[s])[x]
    {
      ResyncKeepsOthers(b, cs, slots, s, x);
    }
  }

  /** The re-sync of a repeat-free control list keeps every bucket free of repeats. */
  lemma ResyncKeepsAtMostOnce<T>(b: Buckets<T>, cs: seq<T>, slots: map<T, Slot>)
    requires Complete(b) && AtMostOnce(b) && Distinct(cs)
    ensures AtMostOnce(Resync(b, cs, slots))
  {
    var r := Resync(b, cs, slots);
    forall s: DockStyle, x | x in r[s]
      ensures multiset(r[s])[x] <= 1
    {
      if x in cs && x in slots {
        if x in b[s] {
          assert multiset(b[s])[x] <= 1;
        }
        ResyncCountsPanel(b, cs, slots, s, x);
      } else {
        ResyncKeepsOthers(b, cs, slots, s, x);
        assert x in b[s];
      }
    }
  }

  /**
   * A panel registered twice while docked sits twice in its bucket, and
   * the re-sync does not repair it: it removes one copy and appends one.
   */
  lemma DuplicateSurvivesResync()
    ensures var b: Buckets<int> := Bucketed([7, 7], [], [], [], []);
      var slots := map[7 := Slot(Rect(0, 0, 10, 10), Left, 1, 0.25)];
      Resync(b, [7], slots)[Left] == [7, 7]
  {
    var b: Buckets<int> := Bucketed([7, 7], [], [], [], []);
    var slots := map[7 := Slot(Rect(0, 0, 10, 10), Left, 1, 0.25)];
    assert [7][..0] == [];
    assert Resync(b, [], slots) == b;
    assert RemoveFirst([7, 7], 7) == [7];
    var removed := RemoveEverywhere(b, 7);
    assert Left in b.Keys && b[Left] == [7, 7];
    assert removed[Left] == RemoveFirst(b[Left], 7) == [7];
    assert Resync(b, [7], slots) == Rebucket(b, 7, Left) == removed[Left := [7] + [7]];
  }

  // ---------------------------------------------------------------------------
  // CheckForOverlappingPanels

  /** The buckets concatenated in the dictionary's key order, skipping None. */
  function Flatten<T>(b: Buckets<T>): seq<T>
    requires Complete(b)
  {
    b[Left] + b[Right] + b[Top] + b[Bottom] + b[Fill]
  }

  /** Whatever holds of every element of every list holds of the flattened lists. */
  lemma FlattenWithin<T>(b: Buckets<T>, members: set<T>)
    requires Complete(b) && forall s: DockStyle, x <- b[s] :: x in members
    ensures forall x <- Flatten(b) :: x in members
  {
    forall x | x in Flatten(b)
      ensures x in members
    {
      assert x in b[Left] || x in b[Right] || x in b[Top] || x in b[Bottom] || x in b[Fill];
    }
  }

  /** The test of the overlap pass: intersecting bounds, the same style and the same TabIndex. */
  predicate Conflict(a: Slot, b: Slot) {
    a.bounds.IntersectsWith(b.bounds) && a.dock == b.dock && a.tab == b.tab
  }

  /** One comparison of the pass: on a conflict the later panel's TabIndex becomes the earlier one's plus 1. */
  function Compare<T(==)>(flat: seq<T>, slots: map<T, Slot>, i: nat, j: nat): (r: map<T, Slot>)
    requires i < |flat| && j < |flat| && Covers(slots, flat)
    ensures r.Keys == slots.Keys
  {
    var a, b := slots[flat[i]], slots[flat[j]];
    if Conflict(a, b) then slots[flat[j] := b.(tab := a.tab + 1)] else slots
  }

  /** The inner loop of the pass: compares `flat[i]` with `flat[j]`, `flat[j + 1]`, ... */
  function Row<T(==)>(flat: seq<T>, slots: map<T, Slot>, i: nat, j: nat): (r: map<T, Slot>)
    requires i < |flat| && Covers(slots, flat)
    ensures r.Keys == slots.Keys
    decreases |flat| - j
  {
    if j >= |flat| then slots else Row(flat, Compare(flat, slots, i, j), i, j + 1)
  }

  /** The outer loop of the pass, from row `i` on. */
  function Pass<T(==)>(flat: seq<T>, slots: map<T, Slot>, i: nat): (r: map<T, Slot>)
    requires Covers(slots, flat)
    ensures r.Keys == slots.Keys
    decreases |flat| - i
  {
    if i >= |flat| then slots else Pass(flat, Row(flat, slots, i, i + 1), i + 1)
  }

  /** The pass changes nothing but TabIndex, only of panels in the list, and only upward. */
  predicate OnlyRaisesTabs<T(==)>(flat: seq<T>, before: map<T, Slot>, after: map<T, Slot>) {
    after.Keys == before.Keys
    && forall x <- before ::
      (after[x].bounds == before[x].bounds && after[x].dock == before[x].dock
       && after[x].size == before[x].size && after[x].tab >= before[x].tab && (x !in flat ==> after[x] == before[x]))
  }

  lemma {:induction false} RowOnlyRaisesTabs<T>(flat: seq<T>, slots: map<T, Slot>, i: nat, j: nat)
    requires i < |flat| && Covers(slots, flat)
    ensures OnlyRaisesTabs(flat, slots, Row(flat, slots, i, j))
    decreases |flat| - j
  {
    if j < |flat| {
      var next := Compare(flat, slots, i, j);
      RowOnlyRaisesTabs(flat, next, i, j + 1);
    }
  }

  /** CheckForOverlappingPanels changes nothing but TabIndex, and only raises it, only for panels in the buckets. */
  lemma {:induction false} PassOnlyRaisesTabs<T>(flat: seq<T>, slots: map<T, Slot>, i: nat)
    requires Covers(slots, flat)
    ensures OnlyRaisesTabs(flat, slots, Pass(flat, slots, i))
    decreases |flat| - i
  {
    if i < |flat| {
      var next := Row(flat, slots, i, i + 1);
      RowOnlyRaisesTabs(flat, slots, i, i + 1);
      PassOnlyRaisesTabs(flat, next, i + 1);
    }
  }

  /** No two positions of the list conflict. */
  predicate ConflictFree<T(==)>(flat: seq<T>, slots: map<T, Slot>)
    requires Covers(slots, flat)
  {
    forall i, j :: 0 <= i < j < |flat| ==> !Conflict(slots[flat[i]], slots[flat[j]])
  }

  lemma {:induction false} RowWithoutConflictIsIdentity<T>(flat: seq<T>, slots: map<T, Slot>, i: nat, j: nat)
    requires i < j && i < |flat| && Covers(slots, flat) && ConflictFree(flat, slots)
    ensures Row(flat, slots, i, j) == slots
    decreases |flat| - j
  {
    if j < |flat| {
      RowWithoutConflictIsIdentity(flat, slots, i, j + 1);
    }
  }

  /** When no pair conflicts the pass changes nothing: a second pass over its own result is not implied, only this. */
  lemma {:induction false} PassWithoutConflictIsIdentity<T>(flat: seq<T>, slots: map<T, Slot>, i: nat)
    requires Covers(slots, flat) && ConflictFree(flat, slots)
    ensures Pass(flat, slots, i) == slots
    decreases |flat| - i
  {
    if i < |flat| {
      RowWithoutConflictIsIdentity(flat, slots, i, i + 1);
      PassWithoutConflictIsIdentity(flat, slots, i + 1);
    }
  }

  /** Two distinct panels that conflict are separated: the second one's TabIndex becomes the first one's plus 1. */
  lemma PassSeparatesPair<T>(a: T, b: T, slots: map<T, Slot>)
    requires a != b && a in slots && b in slots && Conflict(slots[a], slots[b])
    ensures var r := Pass([a, b], slots, 0);
      r[b].tab == slots[a].tab + 1 && r[a] == slots[a] && !Conflict(r[a], r[b])
  {
    var flat := [a, b];
    var bumped := slots[b := slots[b].(tab := slots[a].tab + 1)];
    assert Compare(flat, slots, 0, 1) == bumped;
    assert Row(flat, bumped, 0, 2) == bumped;
    assert Row(flat, slots, 0, 1) == bumped;
    assert Row(flat, bumped, 1, 2) == bumped;
    assert Pass(flat, bumped, 2) == bumped;
    assert Pass(flat, bumped, 1) == bumped;
  }

  /**
   * The pass does not guarantee distinct TabIndex values among
   * overlapping panels of one style: with TabIndex 2, 1, 1 the last panel
   * is bumped to 2 and then ties with the first.
   */
  lemma PassCanLeaveTie()
    ensures var r := Rect(0, 0, 100, 100);
      var slots := map[1 := Slot(r, Left, 2, 0.25), 2 := Slot(r, Left, 1, 0.25), 3 := Slot(r, Left, 1, 0.25)];
      var after := Pass([1, 2, 3], slots, 0);
      after[1].tab == 2 && after[2].tab == 1 && after[3].tab == 2 && Conflict(after[1], after[3])
  {
    var r := Rect(0, 0, 100, 100);
    var slots := map[1 := Slot(r, Left, 2, 0.25), 2 := Slot(r, Left, 1, 0.25), 3 := Slot(r, Left, 1, 0.25)];
    var flat := [1, 2, 3];
    var row0 := Row(flat, slots, 0, 1);
    assert row0 == slots;
    var row1 := Row(flat, row0, 1, 2);
    assert row1 == slots[3 := Slot(r, Left, 2, 0.25)];
  }

  // ---------------------------------------------------------------------------
  // Carving the screen

  /** The panels of a bucket sorted by TabIndex. */
  predicate SortedByTab<T>(ps: seq<T>, slots: map<T, Slot>)
    requires Covers(slots, ps)
  {
    forall i, j :: 0 <= i < j < |ps| ==> slots[ps[i]].tab <= slots[ps[j]].tab
  }

  /** The extent a style's panels claim a share of: the width for Left and Right, the height otherwise. */
  function Extent(style: DockStyle, area: Rect): int {
    if style == Left || style == Right then area.width else area.height
  }

  /**
   * The rectangle of a panel of the given style that claims `w` pixels,
   * after `offset` pixels were claimed by the panels before it in the bucket.
   */
  function Strip(style: DockStyle, area: Rect, offset: int, w: int): Rect {
    match style
    case Left => Rect(area.x + offset, area.y, w, area.height)
    case Right => Rect(area.Right() - w - offset, area.y, w, area.height)
    case Top => Rect(area.x, area.y + offset, area.width, w)
    case Bottom => Rect(area.x, area.Bottom() - w - offset, area.width, w)
    case _ => area
  }

  /** What is left of `area` after a bucket of the given style claimed `total` pixels. */
  function Carve(style: DockStyle, area: Rect, total: int): Rect {
    match style
    case Left => Rect(area.x + total, area.y, area.width - total, area.height)
    case Right => Rect(area.x, area.y, area.width - total, area.height)
    case Top => Rect(area.x, area.y + total, area.width, area.height - total)
    case Bottom => Rect(area.x, area.y, area.width, area.height - total)
    case _ => area
  }

  /** The pixels claimed by the panels `ps`, each `(int)(extent * DockSize)` of the extent at the start of the bucket. */
  function Total<T>(style: DockStyle, area: Rect, ps: seq<T>, slots: map<T, Slot>): int
    requires Covers(slots, ps)
    decreases |ps|
  {
    if |ps| == 0 then 0
    else Total(style, area, ps[..|ps| - 1], slots) + Claim(Extent(style, area), slots[ps[|ps| - 1]].size)
  }

  /** The bounds written by the loop of one bucket, in order. */
  function Placements<T>(style: DockStyle, area: Rect, ps: seq<T>, slots: map<T, Slot>): (r: seq<(T, Rect)>)
    requires Covers(slots, ps)
    ensures |r| == |ps|
    decreases |ps|
  {
    if |ps| == 0 then []
    else
      var n := |ps| - 1;
      Placements(style, area, ps[..n], slots)
        + [(ps[n], Strip(style, area, Total(style, area, ps[..n], slots), Claim(Extent(style, area), slots[ps[n]].size)))]
  }

  /** The loop of a bucket writes to its panels, in order. */
  lemma {:induction false} PlacementsTargets<T>(style: DockStyle, area: Rect, ps: seq<T>, slots: map<T, Slot>)
    requires Covers(slots, ps)
    ensures Targets(Placements(style, area, ps, slots)) == ps
    decreases |ps|
  {
    if |ps| > 0 {
      var n := |ps| - 1;
      PlacementsTargets(style, area, ps[..n], slots);
      var r := Placements(style, area, ps, slots);
      assert forall k :: 0 <= k < n ==> r[k] == Placements(style, area, ps[..n], slots)[k];
    }
  }

  /** One more panel of a bucket's loop: it claims its share after those before it, and its strip is written last. */
  lemma PlacementsSnoc<T>(style: DockStyle, area: Rect, ps: seq<T>, slots: map<T, Slot>, k: nat)
    requires Covers(slots, ps) && k < |ps|
    ensures Total(style, area, ps[..k + 1], slots) == Total(style, area, ps[..k], slots) + Claim(Extent(style, area), slots[ps[k]].size)
    ensures Placements(style, area, ps[..k + 1], slots)
      == Placements(style, area, ps[..k], slots)
         + [(ps[k], Strip(style, area, Total(style, area, ps[..k], slots), Claim(Extent(style, area), slots[ps[k]].size)))]
  {
    assert ps[..k + 1][..k] == ps[..k];
  }

  /**
   * The k-th panel of a bucket claims `(int)(E * DockSize)` of the extent E
   * the bucket started with, after the claims of the panels before it.
   */
  lemma {:induction false} PlacementAt<T>(style: DockStyle, area: Rect, ps: seq<T>, slots: map<T, Slot>, k: nat)
    requires Covers(slots, ps) && k < |ps|
    ensures Placements(style, area, ps, slots)[k]
      == (ps[k], Strip(style, area, Total(style, area, ps[..k], slots), Claim(Extent(style, area), slots[ps[k]].size)))
  {
    var n := |ps| - 1;
    if k < n {
      PlacementAt(style, area, ps[..n], slots, k);
      assert ps[..n][..k] == ps[..k];
    }
  }

  /**
   * A Left bucket is laid out side by side from the left edge of the
   * remaining area, each strip as high as the area, and the remaining
   * area starts where the last strip ends.
   */
  lemma LeftStripsTile<T>(area: Rect, ps: seq<T>, slots: map<T, Slot>, k: nat)
    requires Covers(slots, ps) && k < |ps|
    ensures var strips := Placements(Left, area, ps, slots);
      strips[k].1.y == area.y && strips[k].1.height == area.height
      && strips[k].1.width == Claim(area.width, slots[ps[k]].size)
      && (k == 0 ==> strips[k].1.x == area.x)
      && (k + 1 < |ps| ==> strips[k].1.Right() == strips[k + 1].1.x)
      && (k + 1 == |ps| ==> strips[k].1.Right() == Carve(Left, area, Total(Left, area, ps, slots)).x)
  {
    PlacementAt(Left, area, ps, slots, k);
    assert ps[..k + 1][..k] == ps[..k];
    if k + 1 < |ps| {
      PlacementAt(Left, area, ps, slots, k + 1);
    } else {
      assert ps[..k + 1] == ps;
    }
  }

  /** A Right bucket mirrors a Left one from the right edge of the remaining area. */
  lemma RightStripsTile<T>(area: Rect, ps: seq<T>, slots: map<T, Slot>, k: nat)
    requires Covers(slots, ps) && k < |ps|
    ensures var strips := Placements(Right, area, ps, slots);
      strips[k].1.y == area.y && strips[k].1.height == area.height
      && strips[k].1.width == Claim(area.width, slots[ps[k]].size)
      && (k == 0 ==> strips[k].1.Right() == area.Right())
      && (k + 1 < |ps| ==> strips[k + 1].1.Right() == strips[k].1.x)
      && (k + 1 == |ps| ==> Carve(Right, area, Total(Right, area, ps, slots)).Right() == strips[k].1.x)
  {
    PlacementAt(Right, area, ps, slots, k);
    assert ps[..k + 1][..k] == ps[..k];
    if k + 1 < |ps| {
      PlacementAt(Right, area, ps, slots, k + 1);
    } else {
      assert ps[..k + 1] == ps;
    }
  }

  /** Top and Bottom are Left and Right on the other axis. */
  lemma TopBottomAreTransposed(area: Rect, offset: int, w: int, total: int)
    ensures Strip(Top, area, offset, w) == Transpose(Strip(Left, Transpose(area), offset, w))
    ensures Strip(Bottom, area, offset, w) == Transpose(Strip(Right, Transpose(area), offset, w))
    ensures Carve(Top, area, total) == Transpose(Carve(Left, Transpose(area), total))
    ensures Carve(Bottom, area, total) == Transpose(Carve(Right, Transpose(area), total))
    ensures Extent(Top, area) == Extent(Left, Transpose(area))
  {
  }

  /** The sum of the DockSize fractions of `ps`. */
  function SizeSum<T>(ps: seq<T>, slots: map<T, Slot>): real
    requires Covers(slots, ps)
    decreases |ps|
  {
    if |ps| == 0 then 0.0 else SizeSum(ps[..|ps| - 1], slots) + slots[ps[|ps| - 1]].size
  }

  /** The claims of a bucket add up to at most the extent times the sum of the fractions. */
  lemma {:induction false} TotalAtMostFractions<T>(style: DockStyle, area: Rect, ps: seq<T>, slots: map<T, Slot>)
    requires Covers(slots, ps) && 0 <= Extent(style, area)
    requires forall p <- ps :: 0.0 <= slots[p].size
    ensures 0 <= Total(style, area, ps, slots)
    ensures 0.0 <= SizeSum(ps, slots)
    ensures Total(style, area, ps, slots) as real <= Budget(Extent(style, area), SizeSum(ps, slots))
    decreases |ps|
  {
    if |ps| > 0 {
      var n := |ps| - 1;
      var extent := Extent(style, area);
      var f := slots[ps[n]].size;
      TotalAtMostFractions(style, area, ps[..n], slots);
      ClaimAtMostProduct(extent, f);
      AddBounds(Total(style, area, ps[..n], slots), Claim(extent, f), extent, SizeSum(ps[..n], slots), f);
    }
  }

  /** The exact share `extent * sum` of an extent. */
  function Budget(extent: int, sum: real): real {
    extent as real * sum
  }

  /** Adding one more claim and its fraction keeps the bound. */
  lemma AddBounds(t: int, c: int, e: int, sum: real, f: real)
    requires 0 <= t && t as real <= Budget(e, sum) && 0 <= c && c as real <= e as real * f
    ensures 0 <= t + c && (t + c) as real <= Budget(e, sum + f)
  {
    assert e as real * (sum + f) == e as real * sum + e as real * f;
  }

  /** A non-negative claim is at most the exact product. */
  lemma ClaimAtMostProduct(extent: int, f: real)
    requires 0 <= extent && 0.0 <= f
    ensures 0 <= Claim(extent, f) && Claim(extent, f) as real <= extent as real * f
  {
    assert 0.0 <= extent as real * f;
  }

  /**
   * When the fractions of a bucket add up to at most 1 its claims fit:
   * what remains of a non-negative area is still non-negative.
   */
  lemma ClaimsFit<T>(style: DockStyle, area: Rect, ps: seq<T>, slots: map<T, Slot>)
    requires Covers(slots, ps) && 0 <= area.width && 0 <= area.height
    requires forall p <- ps :: 0.0 <= slots[p].size
    requires SizeSum(ps, slots) <= 1.0
    ensures 0 <= Total(style, area, ps, slots) <= Extent(style, area)
    ensures 0 <= Carve(style, area, Total(style, area, ps, slots)).width
    ensures 0 <= Carve(style, area, Total(style, area, ps, slots)).height
  {
    TotalAtMostExtent(style, area, ps, slots);
  }

  lemma TotalAtMostExtent<T>(style: DockStyle, area: Rect, ps: seq<T>, slots: map<T, Slot>)
    requires Covers(slots, ps) && 0 <= Extent(style, area)
    requires forall p <- ps :: 0.0 <= slots[p].size
    requires SizeSum(ps, slots) <= 1.0
    ensures 0 <= Total(style, area, ps, slots) <= Extent(style, area)
  {
    TotalAtMostFractions(style, area, ps, slots);
    AtMostWhole(Total(style, area, ps, slots), Extent(style, area), SizeSum(ps, slots));
  }

  lemma AtMostWhole(t: int, e: int, sum: real)
    requires 0 <= e && 0.0 <= sum <= 1.0 && t as real <= Budget(e, sum)
    ensures t <= e
  {
    assert e as real * (1.0 - sum) >= 0.0;
  }

  /**
   * The layout pass over the styles `styles`, starting from `screen`: the
   * bounds written, in order, and the remaining area.  Empty buckets are
   * skipped, as in the source.
   */
  function Plan<T>(b: Buckets<T>, slots: map<T, Slot>, screen: Rect, styles: seq<DockStyle>): (r: (seq<(T, Rect)>, Rect))
    requires Complete(b) && CoversAll(slots, b)
    decreases |styles|
  {
    if |styles| == 0 then ([], screen)
    else
      var (writes, area) := Plan(b, slots, screen, styles[..|styles| - 1]);
      var s := styles[|styles| - 1];
      if |b[s]| == 0 then (writes, area)
      else (writes + Placements(s, area, b[s], slots), Carve(s, area, Total(s, area, b[s], slots)))
  }

  /** The panels written to, in order. */
  function Targets<T>(writes: seq<(T, Rect)>): seq<T> {
    seq(|writes|, k requires 0 <= k < |writes| => writes[k].0)
  }

  /** The buckets of `styles` concatenated. */
  function Concat<T>(b: Buckets<T>, styles: seq<DockStyle>): seq<T>
    requires Complete(b)
    decreases |styles|
  {
    if |styles| == 0 then [] else Concat(b, styles[..|styles| - 1]) + b[styles[|styles| - 1]]
  }

  lemma {:induction false} PlanTargetsConcat<T>(b: Buckets<T>, slots: map<T, Slot>, screen: Rect, styles: seq<DockStyle>)
    requires Complete(b) && CoversAll(slots, b)
    ensures Targets(Plan(b, slots, screen, styles).0) == Concat(b, styles)
    decreases |styles|
  {
    if |styles| > 0 {
      var init := styles[..|styles| - 1];
      PlanTargetsConcat(b, slots, screen, init);
      var (writes, area) := Plan(b, slots, screen, init);
      var s := styles[|styles| - 1];
      if |b[s]| > 0 {
        var placed := Placements(s, area, b[s], slots);
        PlacementsTargets(s, area, b[s], slots);
        assert Targets(writes + placed) == Targets(writes) + Targets(placed);
      }
    }
  }

  /** The layout writes the bounds of exactly the panels of the buckets, in the order they are concatenated by the overlap pass. */
  lemma PlanWritesFlattenedBuckets<T>(b: Buckets<T>, slots: map<T, Slot>, screen: Rect)
    requires Complete(b) && CoversAll(slots, b)
    ensures Targets(Plan(b, slots, screen, LayoutOrder).0) == Flatten(b)
  {
    PlanTargetsConcat(b, slots, screen, LayoutOrder);
    ConcatInOrder(b);
  }

  lemma ConcatInOrder<T>(b: Buckets<T>)
    requires Complete(b)
    ensures Concat(b, LayoutOrder) == Flatten(b)
  {
    assert LayoutOrder[..1][..0] == [];
    assert Concat(b, LayoutOrder[..1]) == b[Left];
    assert LayoutOrder[..2][..1] == LayoutOrder[..1];
    assert Concat(b, LayoutOrder[..2]) == b[Left] + b[Right];
    assert LayoutOrder[..3][..2] == LayoutOrder[..2];
    assert Concat(b, LayoutOrder[..3]) == b[Left] + b[Right] + b[Top];
    assert LayoutOrder[..4][..3] == LayoutOrder[..3];
    assert Concat(b, LayoutOrder[..4]) == b[Left] + b[Right] + b[Top] + b[Bottom];
    assert LayoutOrder[..5] == LayoutOrder;
  }

  /** The gathering loop of CheckForOverlappingPanels after its first `k` keys: the lists appended, skipping None. */
  function Gathered<T>(b: Buckets<T>, k: nat): seq<T>
    requires Complete(b) && k <= KeyCount
  {
    if k == 0 then []
    else
      var s := KeyAt(k - 1);
      Gathered(b, k - 1) + if s == DockStyle.None then [] else b[s]
  }

  /** The gathering loop over every key collects the flattened buckets. */
  lemma GatheredIsFlatten<T>(b: Buckets<T>)
    requires Complete(b)
    ensures Gathered(b, KeyCount) == Flatten(b)
  {
    assert Gathered(b, 1) == [];
    assert Gathered(b, 2) == b[Left];
    assert Gathered(b, 3) == b[Left] + b[Right];
    assert Gathered(b, 4) == b[Left] + b[Right] + b[Top];
    assert Gathered(b, 5) == b[Left] + b[Right] + b[Top] + b[Bottom];
  }

  /** The layout over `styles` reads only the buckets of those styles. */
  lemma {:induction false} PlanFrame<T>(b1: Buckets<T>, b2: Buckets<T>, slots: map<T, Slot>, screen: Rect, styles: seq<DockStyle>)
    requires Complete(b1) && CoversAll(slots, b1) && Complete(b2) && CoversAll(slots, b2)
    requires forall s <- styles :: b1[s] == b2[s]
    ensures Plan(b1, slots, screen, styles) == Plan(b2, slots, screen, styles)
    decreases |styles|
  {
    if |styles| > 0 {
      PlanFrame(b1, b2, slots, screen, styles[..|styles| - 1]);
    }
  }

  /** The layout order is the key order without None. */
  lemma LayoutOrderFollowsKeys(k: nat)
    requires k < |LayoutOrder|
    ensures k + 1 < KeyCount && LayoutOrder[k] == KeyAt(k + 1) && KeyPosition(LayoutOrder[k]) == k + 1
  {
  }

  /** No style comes twice in the layout order. */
  lemma LayoutOrderDistinct(k: nat)
    requires k < |LayoutOrder|
    ensures LayoutOrder[k] !in LayoutOrder[..k]
  {
    if k == 0 {
    } else if k == 1 {
      assert LayoutOrder[..1] == [Left];
    } else if k == 2 {
      assert LayoutOrder[..2] == [Left, Right];
    } else if k == 3 {
      assert LayoutOrder[..3] == [Left, Right, Top];
    } else {
      assert LayoutOrder[..4] == [Left, Right, Top, Bottom];
    }
  }

  /**
   * One turn of the layout loop: when only the bucket of the next style
   * changed (it was sorted), the layout so far is unchanged and the next
   * bucket is laid out in what remains, unless it is empty.
   */
  lemma PlanStep<T>(b1: Buckets<T>, b2: Buckets<T>, slots: map<T, Slot>, screen: Rect, k: nat)
    requires Complete(b1) && CoversAll(slots, b1) && Complete(b2) && CoversAll(slots, b2)
    requires k < |LayoutOrder| && forall s: DockStyle :: s != LayoutOrder[k] ==> b1[s] == b2[s]
    ensures Plan(b2, slots, screen, LayoutOrder[..k + 1])
      == var (writes, area) := Plan(b1, slots, screen, LayoutOrder[..k]);
         var s := LayoutOrder[k];
         if |b2[s]| == 0 then (writes, area)
         else (writes + Placements(s, area, b2[s], slots), Carve(s, area, Total(s, area, b2[s], slots)))
  {
    var done, next := LayoutOrder[..k], LayoutOrder[..k + 1];
    assert next[..k] == done && next[k] == LayoutOrder[k];
    LayoutOrderDistinct(k);
    PlanFrame(b1, b2, slots, screen, done);
  }

  /** The lists of the first `k` styles of the layout order are sorted by TabIndex. */
  predicate SortedUpTo<T>(b: Buckets<T>, slots: map<T, Slot>, k: nat)
    requires Complete(b) && CoversAll(slots, b)
  {
    forall s: DockStyle :: 0 < KeyPosition(s) <= k ==> SortedByTab(b[s], slots)
  }

  /** Each list holds the same panels in `b1` as in `b2`. */
  predicate SameLists<T(==)>(b1: Buckets<T>, b2: Buckets<T>)
    requires Complete(b1) && Complete(b2)
  {
    forall s: DockStyle :: multiset(b1[s]) == multiset(b2[s])
  }

  /** The bounds a bucket's loop writes: none for an empty bucket, which the layout skips. */
  function Placed<T>(style: DockStyle, area: Rect, ps: seq<T>, slots: map<T, Slot>): seq<(T, Rect)>
    requires Covers(slots, ps)
  {
    if |ps| == 0 then [] else Placements(style, area, ps, slots)
  }

  /** The area a bucket leaves: all of it for an empty bucket. */
  function Rest<T>(style: DockStyle, area: Rect, ps: seq<T>, slots: map<T, Slot>): Rect
    requires Covers(slots, ps)
  {
    if |ps| == 0 then area else Carve(style, area, Total(style, area, ps, slots))
  }

  /**
   * The state of the layout loop after the first `k` styles of the layout
   * order, from the lists `b0` it started with: `b` holds what `b0` held,
   * the lists of those styles are sorted, and `written` and `area` are the
   * writes and the remaining area of the layout of those styles.
   */
  predicate LayoutState<T(==)>(k: nat, b0: Buckets<T>, b: Buckets<T>, slots: map<T, Slot>,
                               written: seq<(T, Rect)>, screen: Rect, area: Rect)
  {
    && k <= |LayoutOrder| && Complete(b) && CoversAll(slots, b)
    && Complete(b0) && SameLists(b, b0) && SortedUpTo(b, slots, k)
    && (written, area) == Plan(b, slots, screen, LayoutOrder[..k])
  }

  /** Before the loop nothing is sorted or written and the whole screen remains. */
  lemma LayoutStart<T>(b: Buckets<T>, slots: map<T, Slot>, screen: Rect)
    requires Complete(b) && CoversAll(slots, b)
    ensures LayoutState(0, b, b, slots, [], screen, screen)
  {
  }

  /**
   * One turn of the loop: the list of the `k`-th style is replaced by a
   * sorted permutation of itself and laid out in the area left so far.
   */
  lemma LayoutStep<T>(k: nat, b0: Buckets<T>, b1: Buckets<T>, b2: Buckets<T>, slots: map<T, Slot>,
                      written: seq<(T, Rect)>, screen: Rect, area: Rect)
    requires k < |LayoutOrder| && LayoutState(k, b0, b1, slots, written, screen, area)
    requires Complete(b2) && CoversAll(slots, b2) && b2 == b1[LayoutOrder[k] := b2[LayoutOrder[k]]]
    requires multiset(b2[LayoutOrder[k]]) == multiset(b1[LayoutOrder[k]]) && SortedByTab(b2[LayoutOrder[k]], slots)
    ensures var s := LayoutOrder[k];
      LayoutState(k + 1, b0, b2, slots, written + Placed(s, area, b2[s], slots), screen, Rest(s, area, b2[s], slots))
  {
    ListsStep(k, b0, b1, b2, slots);
    PlanNext(k, b1, b2, slots, written, screen, area);
  }

  /** The list part of one turn: the lists keep their contents and one more style is sorted. */
  lemma ListsStep<T>(k: nat, b0: Buckets<T>, b1: Buckets<T>, b2: Buckets<T>, slots: map<T, Slot>)
    requires k < |LayoutOrder| && Complete(b0) && Complete(b1) && CoversAll(slots, b1)
    requires SameLists(b1, b0) && SortedUpTo(b1, slots, k)
    requires Complete(b2) && CoversAll(slots, b2) && b2 == b1[LayoutOrder[k] := b2[LayoutOrder[k]]]
    requires multiset(b2[LayoutOrder[k]]) == multiset(b1[LayoutOrder[k]]) && SortedByTab(b2[LayoutOrder[k]], slots)
    ensures SameLists(b2, b0) && SortedUpTo(b2, slots, k + 1)
  {
    SortedStep(k, b1, b2, slots);
    SameListsStep(b0, b1, b2, LayoutOrder[k]);
  }

  /** The layout part of one turn: the writes and the area left after one more style. */
  lemma PlanNext<T>(k: nat, b1: Buckets<T>, b2: Buckets<T>, slots: map<T, Slot>,
                    written: seq<(T, Rect)>, screen: Rect, area: Rect)
    requires k < |LayoutOrder| && Complete(b1) && CoversAll(slots, b1) && Complete(b2) && CoversAll(slots, b2)
    requires b2 == b1[LayoutOrder[k] := b2[LayoutOrder[k]]]
    requires (written, area) == Plan(b1, slots, screen, LayoutOrder[..k])
    ensures var s := LayoutOrder[k];
      (written + Placed(s, area, b2[s], slots), Rest(s, area, b2[s], slots)) == Plan(b2, slots, screen, LayoutOrder[..k + 1])
  {
    var s := LayoutOrder[k];
    PlanStep(b1, b2, slots, screen, k);
    if |b2[s]| == 0 {
      assert written + [] == written;
    }
  }

  /** Sorting the list of the `k`-th style extends the sorted prefix by one style. */
  lemma SortedStep<T>(k: nat, b1: Buckets<T>, b2: Buckets<T>, slots: map<T, Slot>)
    requires k < |LayoutOrder| && Complete(b1) && CoversAll(slots, b1) && Complete(b2) && CoversAll(slots, b2)
    requires SortedUpTo(b1, slots, k) && b2 == b1[LayoutOrder[k] := b2[LayoutOrder[k]]]
    requires SortedByTab(b2[LayoutOrder[k]], slots)
    ensures SortedUpTo(b2, slots, k + 1)
  {
    LayoutOrderFollowsKeys(k);
    forall s: DockStyle | 0 < KeyPosition(s) <= k + 1
      ensures SortedByTab(b2[s], slots)
    {
      if s != LayoutOrder[k] {
        assert b2[s] == b1[s];
      }
    }
  }

  /** Replacing one list by a permutation of itself keeps every list's contents. */
  lemma SameListsStep<T>(b0: Buckets<T>, b1: Buckets<T>, b2: Buckets<T>, s: DockStyle)
    requires Complete(b0) && Complete(b1) && Complete(b2) && SameLists(b1, b0)
    requires b2 == b1[s := b2[s]] && multiset(b2[s]) == multiset(b1[s])
    ensures SameLists(b2, b0)
  {
    forall t: DockStyle
      ensures multiset(b2[t]) == multiset(b0[t])
    {
      if t != s {
        assert b2[t] == b1[t];
      }
    }
  }

  /** After the loop every list is sorted, holds what it held, and the writes are those of the whole layout. */
  lemma LayoutDone<T>(b0: Buckets<T>, b: Buckets<T>, slots: map<T, Slot>, written: seq<(T, Rect)>, screen: Rect, area: Rect)
    requires LayoutState(|LayoutOrder|, b0, b, slots, written, screen, area) && b[DockStyle.None] == []
    ensures SameLists(b, b0) && (forall s: DockStyle :: SortedByTab(b[s], slots))
    ensures (written, area) == Plan(b, slots, screen, LayoutOrder)
  {
    assert LayoutOrder[..|LayoutOrder|] == LayoutOrder;
    forall s: DockStyle
      ensures SortedByTab(b[s], slots)
    {
      if s != DockStyle.None {
        assert 0 < KeyPosition(s) <= |LayoutOrder|;
      }
    }
  }

  /** The panels' fields after the layout: each panel's bounds are the last written to it, or what they were. */
  function Relaid<T(==)>(slots: map<T, Slot>, writes: seq<(T, Rect)>): (r: map<T, Slot>)
    ensures r.Keys == slots.Keys
  {
    map p | p in slots :: slots[p].(bounds := LastWrite(writes, p, slots[p].bounds))
  }

  /**
   * The last two phases of RecalculateDockedPanels, from the re-synced
   * lists `synced` and the panels' fields `slots0`, to the lists `b`, the
   * fields `slots` and the remaining area: the lists are `synced`, each
   * sorted by the TabIndex values the overlap pass leaves; the panels have
   * those TabIndex values and the bounds the layout of the sorted lists
   * wrote to them last; and the remaining area is what that layout leaves
   * of the screen.
   */
  predicate Settled<T(==)>(synced: Buckets<T>, slots0: map<T, Slot>, screen: Rect,
                           b: Buckets<T>, slots: map<T, Slot>, remaining: Rect)
  {
    && Complete(synced) && Covers(slots0, Flatten(synced))
    && var tabs := Pass(Flatten(synced), slots0, 0);
    && Complete(b) && CoversAll(tabs, b) && SameLists(b, synced)
    && (forall s: DockStyle :: SortedByTab(b[s], tabs))
    && Plan(b, tabs, screen, LayoutOrder).1 == remaining
    && slots == Relaid(tabs, Plan(b, tabs, screen, LayoutOrder).0)
  }

  /**
   * RecalculateDockedPanels, from the lists `b0`, the control list `cs`
   * and the panels' fields `slots0` it starts with: the lists re-synced
   * from the controls, then settled.
   */
  predicate Recalculated<T(==)>(b0: Buckets<T>, cs: seq<T>, slots0: map<T, Slot>, screen: Rect,
                                b: Buckets<T>, slots: map<T, Slot>, remaining: Rect)
  {
    Complete(b0) && Settled(Resync(b0, cs, slots0), slots0, screen, b, slots, remaining)
  }

  /** The overlap pass followed by the layout loop settles the lists. */
  lemma SettledIntro<T>(synced: Buckets<T>, slots0: map<T, Slot>, screen: Rect,
                        tabs: map<T, Slot>, b: Buckets<T>, writes: seq<(T, Rect)>, remaining: Rect, slots: map<T, Slot>)
    requires Complete(synced) && Covers(slots0, Flatten(synced)) && tabs == Pass(Flatten(synced), slots0, 0)
    requires LayoutState(|LayoutOrder|, synced, b, tabs, writes, screen, remaining) && b[DockStyle.None] == []
    requires slots == Relaid(tabs, writes)
    ensures Settled(synced, slots0, screen, b, slots, remaining)
  {
    LayoutDone(synced, b, tabs, writes, screen, remaining);
  }

  /** A list of the settled state holds the same panels as the re-synced one. */
  lemma SettledKeepsMembers<T>(synced: Buckets<T>, slots0: map<T, Slot>, screen: Rect,
                               b: Buckets<T>, slots: map<T, Slot>, remaining: Rect, s: DockStyle, x: T)
    requires Settled(synced, slots0, screen, b, slots, remaining)
    ensures multiset(b[s])[x] == multiset(synced[s])[x]
  {
  }

  /**
   * The re-sync, up to the order within each list: when the control list
   * has no repeats and no list holds a panel twice, every panel of the
   * control list ends up once in the list of its Dock and in no other
   * list (in none for None); anything else, a panel removed from the
   * control list included, keeps its count in every list.
   */
  lemma ResyncedPlacesEachPanel<T>(b0: Buckets<T>, cs: seq<T>, slots0: map<T, Slot>, b: Buckets<T>)
    requires Complete(b0) && Complete(b) && SameLists(b, Resync(b0, cs, slots0))
    requires AtMostOnce(b0) && Distinct(cs)
    ensures forall s: DockStyle, c | c in cs && c in slots0 ::
      multiset(b[s])[c] == if s == slots0[c].dock && s != DockStyle.None then 1 else 0
    ensures forall s: DockStyle, x | !(x in cs && x in slots0) :: multiset(b[s])[x] == multiset(b0[s])[x]
  {
    var synced := Resync(b0, cs, slots0);
    forall s: DockStyle, c | c in cs && c in slots0
      ensures multiset(b[s])[c] == if s == slots0[c].dock && s != DockStyle.None then 1 else 0
    {
      if c in b0[s] {
        assert multiset(b0[s])[c] <= 1;
      }
      ResyncCountsPanel(b0, cs, slots0, s, c);
      assert multiset(b[s]) == multiset(synced[s]);
    }
    forall s: DockStyle, x | !(x in cs && x in slots0)
      ensures multiset(b[s])[x] == multiset(b0[s])[x]
    {
      ResyncKeepsOthers(b0, cs, slots0, s, x);
      assert multiset(b[s]) == multiset(synced[s]);
    }
  }

  /** Without any assumption on repeats, a panel of the control list whose style is not None is in the list of its style afterwards. */
  lemma RecalculatedPlacesControl<T>(b0: Buckets<T>, cs: seq<T>, slots0: map<T, Slot>, screen: Rect,
                                     b: Buckets<T>, slots: map<T, Slot>, remaining: Rect, c: T)
    requires Recalculated(b0, cs, slots0, screen, b, slots, remaining)
    requires c in cs && c in slots0 && slots0[c].dock != DockStyle.None
    ensures c in b[slots0[c].dock]
  {
    var synced := Resync(b0, cs, slots0);
    ResyncPlacesControl(b0, cs, slots0, c);
    SettledKeepsMembers(synced, slots0, screen, b, slots, remaining, slots0[c].dock, c);
  }

  /** A panel already in the list of its style stays there. */
  lemma RecalculatedKeepsListed<T>(b0: Buckets<T>, cs: seq<T>, slots0: map<T, Slot>, screen: Rect,
                                   b: Buckets<T>, slots: map<T, Slot>, remaining: Rect, x: T, s: DockStyle)
    requires Recalculated(b0, cs, slots0, screen, b, slots, remaining)
    requires s != DockStyle.None && x in b0[s] && (x in slots0 ==> slots0[x].dock == s)
    ensures x in b[s]
  {
    var synced := Resync(b0, cs, slots0);
    ResyncKeepsListed(b0, cs, slots0, x, s);
    SettledKeepsMembers(synced, slots0, screen, b, slots, remaining, s, x);
  }

  /** When every write of `writes` carries `r` and one of them targets `x`, the last write to `x` is `r`. */
  lemma {:induction false} LastWriteOfUniform<T>(writes: seq<(T, Rect)>, x: T, default: Rect, r: Rect, k: nat)
    requires k < |writes| && writes[k].0 == x && forall j :: 0 <= j < |writes| ==> writes[j].1 == r
    ensures LastWrite(writes, x, default) == r
    decreases |writes|
  {
    var n := |writes| - 1;
    if writes[n].0 != x {
      LastWriteOfUniform(writes[..n], x, default, r, k);
    }
  }

  /** Every Fill panel ends with exactly the area the layout leaves, whatever else was written to it before. */
  lemma FillPanelsTakeRemainder<T>(b: Buckets<T>, slots: map<T, Slot>, screen: Rect, p: T, default: Rect)
    requires Complete(b) && CoversAll(slots, b) && p in b[Fill]
    ensures var (writes, remaining) := Plan(b, slots, screen, LayoutOrder);
      LastWrite(writes, p, default) == remaining
  {
    var (before, area) := Plan(b, slots, screen, LayoutOrder[..4]);
    var placed := Placements(Fill, area, b[Fill], slots);
    assert LayoutOrder[..4] == LayoutOrder[..|LayoutOrder| - 1];
    assert Plan(b, slots, screen, LayoutOrder) == (before + placed, area);
    PlacementsTargets(Fill, area, b[Fill], slots);
    var k :| 0 <= k < |b[Fill]| && b[Fill][k] == p;
    assert Targets(placed)[k] == p;
    forall j | 0 <= j < |placed|
      ensures placed[j].1 == area
    {
      PlacementAt(Fill, area, b[Fill], slots, j);
    }
    LastWriteOfUniform(placed, p, LastWrite(before, p, default), area, k);
    LastWriteAppend(before, placed, p, default);
  }

  /** After RecalculateDockedPanels every panel in the Fill list has exactly the remaining space as its bounds. */
  lemma SettledFillTakesRemainder<T>(synced: Buckets<T>, slots0: map<T, Slot>, screen: Rect,
                                     b: Buckets<T>, slots: map<T, Slot>, remaining: Rect, p: T)
    requires Settled(synced, slots0, screen, b, slots, remaining) && p in b[Fill]
    ensures p in slots && slots[p].bounds == remaining
  {
    var tabs := Pass(Flatten(synced), slots0, 0);
    FillPanelsTakeRemainder(b, tabs, screen, p, tabs[p].bounds);
  }

  /** Every Fill panel gets exactly the final remaining area. */
  lemma FillTakesRemainder<T>(b: Buckets<T>, slots: map<T, Slot>, screen: Rect)
    requires Complete(b) && CoversAll(slots, b)
    ensures var (writes, remaining) := Plan(b, slots, screen, LayoutOrder);
      |b[Fill]| <= |writes|
      && forall k :: |writes| - |b[Fill]| <= k < |writes| ==> writes[k].1 == remaining
  {
    var (before, area) := Plan(b, slots, screen, LayoutOrder[..4]);
    if |b[Fill]| > 0 {
      var placed := Placements(Fill, area, b[Fill], slots);
      forall k | 0 <= k < |placed|
        ensures placed[k].1 == area
      {
        PlacementAt(Fill, area, b[Fill], slots, k);
      }
      assert LayoutOrder[..4] + [Fill] == LayoutOrder;
    }
  }

  /** The bounds a panel ends with: the last write to it, or `default` when there is none. */
  function LastWrite<T(==)>(writes: seq<(T, Rect)>, x: T, default: Rect): Rect
    decreases |writes|
  {
    if |writes| == 0 then default
    else if writes[|writes| - 1].0 == x then writes[|writes| - 1].1
    else LastWrite(writes[..|writes| - 1], x, default)
  }

  /** A write appended is the last write to its target and leaves the others alone. */
  lemma LastWriteSnoc<T>(writes: seq<(T, Rect)>, y: T, r: Rect, x: T, default: Rect)
    ensures LastWrite(writes + [(y, r)], x, default) == if x == y then r else LastWrite(writes, x, default)
  {
    assert (writes + [(y, r)])[..|writes|] == writes;
  }

  /** Writing `a` and then `b` leaves what `b` writes last, or else what `a` left. */
  lemma {:induction false} LastWriteAppend<T>(a: seq<(T, Rect)>, b: seq<(T, Rect)>, x: T, default: Rect)
    ensures LastWrite(a + b, x, default) == LastWrite(b, x, LastWrite(a, x, default))
    decreases |b|
  {
    if |b| > 0 {
      var n := |b| - 1;
      assert (a + b)[..|a + b| - 1] == a + b[..n];
      LastWriteAppend(a, b[..n], x, default);
    } else {
      assert a + b == a;
    }
  }

  /** A panel written exactly once ends with that write; one never written keeps its bounds. */
  lemma {:induction false} LastWriteOfUnique<T>(writes: seq<(T, Rect)>, x: T, default: Rect)
    requires Distinct(Targets(writes))
    ensures x !in Targets(writes) ==> LastWrite(writes, x, default) == default
    ensures forall k :: 0 <= k < |writes| && writes[k].0 == x ==> LastWrite(writes, x, default) == writes[k].1
    decreases |writes|
  {
    if |writes| > 0 {
      var n := |writes| - 1;
      var init := writes[..n];
      assert Targets(init) == Targets(writes)[..n];
      assert Distinct(Targets(init));
      LastWriteOfUnique(init, x, default);
      if writes[n].0 != x {
        forall k | 0 <= k < n && writes[k].0 == x
          ensures LastWrite(writes, x, default) == writes[k].1
        {
          assert init[k] == writes[k];
        }
        assert x !in Targets(writes) ==> x !in Targets(init);
      } else {
        assert Targets(writes)[n] == x;
        forall k | 0 <= k < n
          ensures writes[k].0 != x
        {
          assert Targets(writes)[k] == writes[k].0 && Targets(writes)[n] == x;
        }
      }
    }
  }

  /**
   * The demo layout: a 1280x720 screen with a Left panel of fraction 0.15
   * and a Right panel of fraction 0.2.  The Right panel claims a fifth of
   * the 1088 pixels left over by the Left panel, not of the screen.
   */
  lemma DemoLayout()
    ensures var b: Buckets<int> := Bucketed([1], [2], [], [], []);
      var slots := map[1 := Slot(Rect(0, 0, 300, 400), Left, 1, 0.15), 2 := Slot(Rect(0, 0, 250, 400), Right, 2, 0.2)];
      Plan(b, slots, Rect(0, 0, 1280, 720), LayoutOrder)
        == ([(1, Rect(0, 0, 192, 720)), (2, Rect(1063, 0, 217, 720))], Rect(192, 0, 871, 720))
  {
    var b: Buckets<int> := Bucketed([1], [2], [], [], []);
    var slots := map[1 := Slot(Rect(0, 0, 300, 400), Left, 1, 0.15), 2 := Slot(Rect(0, 0, 250, 400), Right, 2, 0.2)];
    DemoRight(b, slots, Rect(0, 0, 1280, 720));
    assert LayoutOrder[..3][..2] == LayoutOrder[..2];
    assert LayoutOrder[..4][..3] == LayoutOrder[..3];
    assert LayoutOrder[..4] + [Fill] == LayoutOrder;
  }

  /** The first step of the demo layout: the Left panel takes 15% of 1280 pixels. */
  lemma DemoLeft(b: Buckets<int>, slots: map<int, Slot>, screen: Rect)
    requires b == Bucketed([1], [2], [], [], []) && screen == Rect(0, 0, 1280, 720)
    requires slots == map[1 := Slot(Rect(0, 0, 300, 400), Left, 1, 0.15), 2 := Slot(Rect(0, 0, 250, 400), Right, 2, 0.2)]
    ensures Plan(b, slots, screen, LayoutOrder[..1]) == ([(1, Rect(0, 0, 192, 720))], Rect(192, 0, 1088, 720))
  {
    assert Claim(1280, 0.15) == 192;
    assert [1][..0] == [];
    assert Placements(Left, screen, [1], slots) == [(1, Rect(0, 0, 192, 720))];
    assert Total(Left, screen, [1], slots) == 192;
    assert LayoutOrder[..1][..0] == [] && LayoutOrder[..1][0] == Left;
    assert Plan(b, slots, screen, []) == ([], screen);
    assert Carve(Left, screen, 192) == Rect(192, 0, 1088, 720);
  }

  /** The second step of the demo layout: the Right panel takes 20% of the 1088 pixels left. */
  lemma DemoRight(b: Buckets<int>, slots: map<int, Slot>, screen: Rect)
    requires b == Bucketed([1], [2], [], [], []) && screen == Rect(0, 0, 1280, 720)
    requires slots == map[1 := Slot(Rect(0, 0, 300, 400), Left, 1, 0.15), 2 := Slot(Rect(0, 0, 250, 400), Right, 2, 0.2)]
    ensures Plan(b, slots, screen, LayoutOrder[..2])
      == ([(1, Rect(0, 0, 192, 720)), (2, Rect(1063, 0, 217, 720))], Rect(192, 0, 871, 720))
  {
    DemoLeft(b, slots, screen);
    var rest := Rect(192, 0, 1088, 720);
    assert Claim(1088, 0.2) == 217;
    assert [2][..0] == [];
    assert Placements(Right, rest, [2], slots) == [(2, Rect(1063, 0, 217, 720))];
    assert Total(Right, rest, [2], slots) == 217;
    assert LayoutOrder[..2][..1] == LayoutOrder[..1] && LayoutOrder[..2][1] == Right;
    assert Carve(Right, rest, 217) == Rect(192, 0, 871, 720);
    assert [(1, Rect(0, 0, 192, 720))] + [(2, Rect(1063, 0, 217, 720))] == [(1, Rect(0, 0, 192, 720)), (2, Rect(1063, 0, 217, 720))];
  }
}
