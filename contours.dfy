/**
 * Contour post-processing: selecting the target contour (`getMaxContour`)
 * and fitting a circle to every background contour (`getAllContours`).
 * The library's `contourArea` and `minEnclosingCircle` are not modelled;
 * they are passed in as functions the model knows nothing about.
 */
module Contours {
  import opened Wrappers
  import opened Vectors

  /** An integer pixel position (`Point`). */
  datatype Point = Point(x: int, y: int)

  /** A sub-pixel position (`Point2f`). */
  datatype Point2f = Point2f(x: real, y: real)

  /** A contour: its boundary points in order. */
  type Contour = seq<Point>

  /** What `minEnclosingCircle` reports: a sub-pixel centre and a radius. */
  datatype Enclosing = Enclosing(center: Point2f, radius: real)

  /** A fitted circle as the callers keep it: integer centre and radius. */
  datatype Circle = Circle(center: Point, radius: real)

  /** The diagnostic report of the target search: index and size printed. */
  datatype Selection = Selection(which: Option<nat>, maxSize: real)

  /**
   * Rounding to the nearest integer, ties to the even one, as `cvRound`
   * does when a `Point2f` is converted to a `Point`.
   */
  function RoundHalfEven(v: real): (r: int)
    ensures -(1.0 / 2.0) <= r as real - v <= 1.0 / 2.0
    ensures (r as real - v == 1.0 / 2.0 || v - r as real == 1.0 / 2.0) ==> r % 2 == 0
  {
    var f := v.Floor;
    var d := v - f as real;
    if d < 1.0 / 2.0 then f
    else if d > 1.0 / 2.0 then f + 1
    else if f % 2 == 0 then f
    else f + 1
  }

  /** The `Point(Point2f)` conversion. */
  function ToPoint(p: Point2f): Point {
    Point(RoundHalfEven(p.x), RoundHalfEven(p.y))
  }

  /** The circle a caller keeps for one contour. */
  function CircleOf(enclose: Contour -> Enclosing, c: Contour): Circle {
    var e := enclose(c);
    Circle(ToPoint(e.center), e.radius)
  }

  /** The area of every contour, in order. */
  function AreasOf(contours: seq<Contour>, contourArea: Contour -> real): (areas: seq<real>)
    ensures |areas| == |contours|
    ensures forall i | 0 <= i < |contours| :: areas[i] == contourArea(contours[i])
  {
    seq(|contours|, i requires 0 <= i < |contours| => contourArea(contours[i]))
  }

  /**
   * Among the first `n` areas, index `k` is the first one of strictly
   * positive, maximal area: it beats every earlier area strictly and every
   * later one at least weakly.
   */
  predicate IsFirstMaxIn(areas: seq<real>, n: nat, k: nat)
    requires n <= |areas|
  {
    && k < n
    && areas[k] > 0.0
    && (forall j | 0 <= j < k :: areas[j] < areas[k])
    && (forall j | k < j < n :: areas[j] <= areas[k])
  }

  /** Index `k` is the first maximum of all of `areas`. */
  predicate IsFirstMax(areas: seq<real>, k: nat) {
    IsFirstMaxIn(areas, |areas|, k)
  }

  /** No area is strictly positive (this includes no contour at all). */
  predicate NonePositive(areas: seq<real>) {
    forall j | 0 <= j < |areas| :: areas[j] <= 0.0
  }

  /**
   * `getMaxContour`: scans the contours once, keeping the largest area seen
   * so far (starting from 0) and replacing it only on a strictly larger
   * area, then fits a circle to the contour kept.
   *
   * The source reads the kept iterator even when nothing was kept (no
   * contour, or no contour of positive area). Here that case yields no
   * index and no circle, with a reported size of 0.
   */
  method GetMaxContour(contours: seq<Contour>, contourArea: Contour -> real,
                       enclose: Contour -> Enclosing)
    returns (sel: Selection, circle: Option<Circle>)
    ensures sel.which.None? <==> NonePositive(AreasOf(contours, contourArea))
    ensures sel.which.Some? ==>
      && IsFirstMax(AreasOf(contours, contourArea), sel.which.value)
      && sel.maxSize == contourArea(contours[sel.which.value])
      && circle == Some(CircleOf(enclose, contours[sel.which.value]))
    ensures sel.which.None? ==> sel.maxSize == 0.0 && circle == None
  {
    ghost var areas := AreasOf(contours, contourArea);
    var maxSize := 0.0;
    var which: Option<nat> := None;
    var i := 0;
    while i < |contours|
      invariant 0 <= i <= |contours|
      invariant which.None? ==> maxSize == 0.0 && forall j | 0 <= j < i :: areas[j] <= 0.0
      invariant which.Some? ==> IsFirstMaxIn(areas, i, which.value) && maxSize == areas[which.value]
    {
      var area := contourArea(contours[i]);
      if area > maxSize {
        maxSize := area;
        which := Some(i);
      }
      i := i + 1;
    }
    sel := Selection(which, maxSize);
    if which.Some? {
      circle := Some(CircleOf(enclose, contours[which.value]));
    } else {
      circle := None;
    }
  }

  /**
   * The loop of `getMaxContour` exactly as written, from position `i` on,
   * with the running size `maxSize` and the kept index `which`. The source
   * never initialises `which`; the caller passes its indeterminate value.
   */
  function ScanAsWritten(areas: seq<real>, i: nat, maxSize: real, which: int): (w: int)
    requires i <= |areas|
    ensures w == which || i <= w < |areas|
    decreases |areas| - i
  {
    if i == |areas| then which
    else if areas[i] > maxSize then ScanAsWritten(areas, i + 1, areas[i], i)
    else ScanAsWritten(areas, i + 1, maxSize, which)
  }

  /**
   * As written, when no area from position `i` on beats a running size of
   * 0, the loop ends with `which` still holding its uninitialised value,
   * which the source then prints and dereferences.
   */
  lemma {:induction false} AsWrittenLeavesWhichUnset(areas: seq<real>, i: nat, unset: int)
    requires i <= |areas|
    requires forall j | i <= j < |areas| :: areas[j] <= 0.0
    ensures ScanAsWritten(areas, i, 0.0, unset) == unset
    decreases |areas| - i
  {
    if i < |areas| {
      AsWrittenLeavesWhichUnset(areas, i + 1, unset);
    }
  }

  /**
   * Whenever some area is positive, the loop as written keeps the first
   * maximum, whatever `which` held initially: the corrected search differs
   * from the source only on the inputs where the source reads `which` unset.
   */
  lemma AsWrittenAgreesWhenPositive(areas: seq<real>, k: nat, unset: int)
    requires IsFirstMax(areas, k)
    ensures ScanAsWritten(areas, 0, 0.0, unset) == k
  {
    AsWrittenKeepsFirstMax(areas, 0, 0.0, unset, k);
  }

  /**
   * From any position `i` whose running state is the one the loop has
   * there (the first maximum of the prefix and its area, or nothing kept
   * and size 0), the loop as written ends on the first maximum `k`.
   */
  lemma {:induction false} AsWrittenKeepsFirstMax(areas: seq<real>, i: nat, maxSize: real,
                                                  which: int, k: nat)
    requires i <= |areas|
    requires IsFirstMax(areas, k)
    requires || (0 <= which && IsFirstMaxIn(areas, i, which) && maxSize == areas[which])
             || (maxSize == 0.0 && forall j | 0 <= j < i :: areas[j] <= 0.0)
    ensures ScanAsWritten(areas, i, maxSize, which) == k
    decreases |areas| - i
  {
    if i == |areas| {
      if 0 <= which && IsFirstMaxIn(areas, i, which) && maxSize == areas[which] {
        FirstMaxUnique(areas, which, k);
      }
    } else if areas[i] > maxSize {
      assert IsFirstMaxIn(areas, i + 1, i);
      AsWrittenKeepsFirstMax(areas, i + 1, areas[i], i, k);
    } else {
      AsWrittenKeepsFirstMax(areas, i + 1, maxSize, which, k);
    }
  }

  /**
   * Concretely: for no contour at all, or for one contour of area 0, the
   * source dereferences an iterator it never set, while the corrected
   * search reports that there is no target.
   */
  lemma NoContourCounterexample(unset: int)
    ensures ScanAsWritten([], 0, 0.0, unset) == unset
    ensures ScanAsWritten([0.0], 0, 0.0, unset) == unset
    ensures NonePositive([]) && NonePositive([0.0])
  {
    AsWrittenLeavesWhichUnset([0.0], 0, unset);
  }

  /** The first maximum, when there is one, is unique: the selection is deterministic. */
  lemma FirstMaxUnique(areas: seq<real>, k1: nat, k2: nat)
    requires IsFirstMax(areas, k1) && IsFirstMax(areas, k2)
    ensures k1 == k2
  {
  }

  /**
   * The first maximum is the least index of the largest area, and that area
   * is positive.
   */
  lemma FirstMaxIsLeastArgMax(areas: seq<real>, k: nat)
    requires k < |areas|
    ensures IsFirstMax(areas, k) <==>
      && areas[k] > 0.0
      && (forall j | 0 <= j < |areas| :: areas[j] <= areas[k])
      && (forall j | 0 <= j < k :: areas[j] != areas[k])
  {
  }

  /** Some area is positive exactly when a first maximum exists. */
  lemma {:induction false} FirstMaxExists(areas: seq<real>)
    ensures !NonePositive(areas) <==> exists k :: IsFirstMax(areas, k)
  {
    if !NonePositive(areas) {
      var k := FirstMaxOfPrefix(areas, |areas|);
      assert IsFirstMax(areas, k);
    }
  }

  /** Constructs the first maximum of the first `n` areas, given a positive one among them. */
  lemma {:induction false} FirstMaxOfPrefix(areas: seq<real>, n: nat) returns (k: nat)
    requires n <= |areas|
    requires exists j | 0 <= j < n :: areas[j] > 0.0
    ensures IsFirstMaxIn(areas, n, k)
  {
    var last := n - 1;
    if exists j | 0 <= j < last :: areas[j] > 0.0 {
      var k0 := FirstMaxOfPrefix(areas, last);
      if areas[last] > areas[k0] {
        k := last;
      } else {
        k := k0;
      }
    } else {
      k := last;
    }
  }

  /**
   * `getAllContours`: for each contour, in order, appends the centre of its
   * enclosing circle to `centers` and the radius to `radius`. What the two
   * vectors held before stays as their prefix, each grows by exactly one
   * entry per contour, and entry k of each new suffix comes from contour k.
   */
  method GetAllContours(contours: seq<Contour>, enclose: Contour -> Enclosing,
                        centers: Vector<Point>, radius: Vector<real>)
    modifies centers, radius
    ensures |centers.items| == |old(centers.items)| + |contours|
    ensures |radius.items| == |old(radius.items)| + |contours|
    ensures centers.items[..|old(centers.items)|] == old(centers.items)
    ensures radius.items[..|old(radius.items)|] == old(radius.items)
    ensures forall k | 0 <= k < |contours| ::
      && centers.items[|old(centers.items)| + k] == CircleOf(enclose, contours[k]).center
      && radius.items[|old(radius.items)| + k] == CircleOf(enclose, contours[k]).radius
    ensures |old(centers.items)| == |old(radius.items)| ==> |centers.items| == |radius.items|
  {
    var i := 0;
    while i < |contours|
      invariant 0 <= i <= |contours|
      invariant |centers.items| == |old(centers.items)| + i
      invariant |radius.items| == |old(radius.items)| + i
      invariant centers.items[..|old(centers.items)|] == old(centers.items)
      invariant radius.items[..|old(radius.items)|] == old(radius.items)
      invariant forall k | 0 <= k < i ::
        && centers.items[|old(centers.items)| + k] == CircleOf(enclose, contours[k]).center
        && radius.items[|old(radius.items)| + k] == CircleOf(enclose, contours[k]).radius
    {
      var e := enclose(contours[i]);
      centers.PushBack(ToPoint(e.center));
      radius.PushBack(e.radius);
      i := i + 1;
    }
  }
}
