/** Optional values: the model's stand-in for a C# null reference or a `Rectangle?`. */
module Wrappers {
  datatype Option<T> = None | Some(value: T)
}

/**
 * Integer points and rectangles with the semantics of System.Drawing:
 * a rectangle is half-open on its right and bottom edges.  Also the
 * numeric conversions of C# that the engine relies on: the `(int)` cast
 * of a floating-point value (truncation toward zero, saturating outside
 * the `int` range where the result is stored in an `int`), integer division
 * (also toward zero) and 32-bit wrap-around of `int` subtraction.
 */
module Geometry {

  datatype Point = Point(x: int, y: int)

  datatype Rect = Rect(x: int, y: int, width: int, height: int) {

    function Right(): int { x + width }

    function Bottom(): int { y + height }

    /** System.Drawing.Rectangle.Contains(Point). */
    predicate Contains(p: Point) {
      x <= p.x < x + width && y <= p.y < y + height
    }

    /** System.Drawing.Rectangle.IntersectsWith: strict overlap on both axes. */
    predicate IntersectsWith(r: Rect) {
      r.x < x + width && x < r.x + r.width && r.y < y + height && y < r.y + r.height
    }
  }

  /** The same rectangle with the two axes exchanged. */
  function Transpose(r: Rect): Rect {
    Rect(r.y, r.x, r.height, r.width)
  }

  /** A rectangle that contains a point has a positive width and height. */
  lemma ContainsImpliesNonEmpty(r: Rect, p: Point)
    requires r.Contains(p)
    ensures r.width > 0 && r.height > 0
  {
  }

  /** C#'s `(int)` conversion of a floating-point value: truncation toward zero. */
  function Trunc(v: real): (r: int)
    ensures 0.0 <= v ==> 0 <= r && r as real <= v < r as real + 1.0
    ensures v <= 0.0 ==> r <= 0 && r as real - 1.0 < v <= r as real
  {
    if v >= 0.0 then v.Floor else -((-v).Floor)
  }

  /** Truncation is monotonic. */
  lemma TruncMonotonic(a: real, b: real)
    requires a <= b
    ensures Trunc(a) <= Trunc(b)
  {
    if a >= 0.0 {
      assert b >= 0.0;
      assert Trunc(a) as real <= a <= b < Trunc(b) as real + 1.0;
    } else if b <= 0.0 {
      assert Trunc(a) as real - 1.0 < a <= b <= Trunc(b) as real;
    }
  }

  /** A value that lies between two integers truncates to a value between them. */
  lemma TruncBetween(v: real, lo: int, hi: int)
    requires lo as real <= v <= hi as real
    ensures lo <= Trunc(v) <= hi
  {
    TruncMonotonic(lo as real, v);
    TruncMonotonic(v, hi as real);
  }

  /** C#'s `a / 2` on `int`: the quotient is rounded toward zero. */
  function HalfTowardZero(a: int): (q: int)
    ensures 0 <= a - 2 * q <= 1 || 0 <= 2 * q - a <= 1
    ensures a >= 0 ==> 0 <= q && 2 * q <= a
    ensures a <= 0 ==> q <= 0 && a <= 2 * q
  {
    if a >= 0 then a / 2 else -((-a) / 2)
  }

  const IntMinValue: int := -0x8000_0000
  const IntMaxValue: int := 0x7FFF_FFFF

  /** The result of an unchecked 32-bit `int` operation whose exact value is `v`. */
  function Wrap32(v: int): (r: int)
    ensures IntMinValue <= r <= IntMaxValue
    ensures IntMinValue <= v <= IntMaxValue ==> r == v
    ensures (v - r) % 0x1_0000_0000 == 0
  {
    (v - IntMinValue) % 0x1_0000_0000 + IntMinValue
  }

  /** Every coordinate of the rectangle fits in an `int`. */
  predicate InIntRange(r: Rect) {
    && IntMinValue <= r.x <= IntMaxValue && IntMinValue <= r.y <= IntMaxValue
    && IntMinValue <= r.width <= IntMaxValue && IntMinValue <= r.height <= IntMaxValue
  }

  /**
   * C#'s `(int)` conversion of a floating-point value into an `int`
   * variable: truncation toward zero inside the `int` range, and
   * saturation at int.MinValue or int.MaxValue outside it (the rule of
   * .NET 9 and later; earlier runtimes leave the out-of-range result
   * unspecified).
   */
  function Trunc32(v: real): (r: int)
    ensures IntMinValue <= r <= IntMaxValue
    ensures IntMinValue as real <= v <= IntMaxValue as real ==> r == Trunc(v)
    ensures v < IntMinValue as real ==> r == IntMinValue
    ensures v > IntMaxValue as real ==> r == IntMaxValue
  {
    if v < IntMinValue as real then IntMinValue
    else if v > IntMaxValue as real then IntMaxValue
    else Trunc(v)
  }

  /** A value that lies between two `int` values converts to a value between them. */
  lemma Trunc32Between(v: real, lo: int, hi: int)
    requires IntMinValue <= lo && hi <= IntMaxValue && lo as real <= v <= hi as real
    ensures lo <= Trunc32(v) <= hi
  {
    TruncBetween(v, lo, hi);
  }
}

/** Operations of System.Collections.Generic.List that the engine uses, on sequences. */
module Lists {

  /** No element occurs twice. */
  predicate Distinct<T(==)>(s: seq<T>) {
    forall i, j :: 0 <= i < j < |s| ==> s[i] != s[j]
  }

  /** The position of the first occurrence of `x`. */
  function IndexOf<T(==)>(s: seq<T>, x: T): (i: nat)
    requires x in s
    ensures i < |s| && s[i] == x && x !in s[..i]
  {
    if s[0] == x then 0 else 1 + IndexOf(s[1..], x)
  }

  /** List.Remove: removes the first occurrence of `x`, if any. */
  function RemoveFirst<T(==)>(s: seq<T>, x: T): (r: seq<T>)
    ensures x !in s ==> r == s
  {
    if |s| == 0 then s
    else if s[0] == x then
      assert s == [s[0]] + s[1..];
      s[1..]
    else
      assert s == [s[0]] + s[1..];
      [s[0]] + RemoveFirst(s[1..], x)
  }

  /** List.Remove takes away exactly one copy of `x`, if there is one, and nothing else. */
  lemma {:induction false} RemoveFirstCount<T>(s: seq<T>, x: T)
    ensures multiset(RemoveFirst(s, x)) == multiset(s) - multiset{x}
  {
    if |s| > 0 {
      assert s == [s[0]] + s[1..];
      if s[0] != x {
        RemoveFirstCount(s[1..], x);
      }
    }
  }

  /** What List.Remove leaves: everything before and after the first occurrence, in order. */
  lemma {:induction false} RemoveFirstAt<T>(s: seq<T>, x: T)
    requires x in s
    ensures RemoveFirst(s, x) == s[..IndexOf(s, x)] + s[IndexOf(s, x) + 1..]
  {
    if s[0] != x {
      var t := s[1..];
      RemoveFirstAt(t, x);
      var i := IndexOf(t, x);
      assert IndexOf(s, x) == i + 1;
      assert s[..i + 1] == [s[0]] + t[..i];
      assert s[i + 2..] == t[i + 1..];
      assert RemoveFirst(s, x) == [s[0]] + RemoveFirst(t, x);
    }
  }

  /** `RemoveAt(i)` followed by `Add` of the removed element. */
  function MoveToEnd<T>(s: seq<T>, i: nat): seq<T>
    requires i < |s|
  {
    s[..i] + s[i + 1..] + [s[i]]
  }

  /** Moving an element to the end permutes the list, keeps the others in order and puts it last. */
  lemma MoveToEndPermutes<T>(s: seq<T>, i: nat)
    requires i < |s|
    ensures |MoveToEnd(s, i)| == |s|
    ensures multiset(MoveToEnd(s, i)) == multiset(s)
    ensures MoveToEnd(s, i)[|s| - 1] == s[i]
    ensures forall k :: 0 <= k < i ==> MoveToEnd(s, i)[k] == s[k]
    ensures forall k :: i <= k < |s| - 1 ==> MoveToEnd(s, i)[k] == s[k + 1]
  {
    assert s == s[..i] + [s[i]] + s[i + 1..];
  }

  /** Moving the last element to the end changes nothing. */
  lemma MoveLastIsIdentity<T>(s: seq<T>)
    requires |s| > 0
    ensures MoveToEnd(s, |s| - 1) == s
  {
  }

  /** Two maps with the same keys and the same value at every key are equal. */
  lemma SameMaps<K, V>(m1: map<K, V>, m2: map<K, V>)
    requires m1.Keys == m2.Keys && forall k <- m1.Keys :: m1[k] == m2[k]
    ensures m1 == m2
  {
  }
}
