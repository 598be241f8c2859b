/**
 * Geometry helpers of the text detection demo: integer clamping of reported
 * coordinates, the float-to-int cast, the choice of a rotated rectangle's
 * anchor ("top-left") corner, the corner pairing used to rectify a region,
 * and the fixed centre-crop window used when no detector output is available.
 *
 * Single-precision coordinates are modelled as reals.
 */
module Geometry {

  /** A point with floating-point coordinates (cv::Point2f). */
  datatype Point = Point(x: real, y: real)

  /** std::numeric_limits<float>::max(), the "no point yet" marker of topLeftPoint. */
  const FltMax: real := 340282346638528859811704183484516925440.0

  /** The initial value of both running candidates in topLeftPoint. */
  const Unset: Point := Point(FltMax, FltMax)

  function Abs(v: int): int { if v < 0 then -v else v }

  /** clip: std::min(std::max(x, 0), maxVal). */
  function Clip(x: int, maxVal: int): (r: int)
    ensures maxVal >= 0 ==> 0 <= r <= maxVal
    ensures 0 <= x <= maxVal ==> r == x
    ensures x < 0 && maxVal >= 0 ==> r == 0
    ensures x > maxVal ==> r == maxVal
    ensures maxVal < 0 ==> r == maxVal
  {
    var lower := if x < 0 then 0 else x;
    if maxVal < lower then maxVal else lower
  }

  /** Clipping twice is clipping once. */
  lemma ClipIdempotent(x: int, maxVal: int)
    requires maxVal >= 0
    ensures Clip(Clip(x, maxVal), maxVal) == Clip(x, maxVal)
  {
  }

  /** The clipped value is the point of [0, maxVal] nearest to x. */
  lemma ClipIsNearest(x: int, maxVal: int, y: int)
    requires 0 <= y <= maxVal
    ensures Abs(Clip(x, maxVal) - x) <= Abs(y - x)
  {
  }

  /** static_cast<int> of a floating-point value: truncation toward zero. */
  function Trunc(v: real): (r: int)
    ensures v >= 0.0 ==> r >= 0 && r as real <= v < r as real + 1.0
    ensures v < 0.0 ==> r <= 0 && r as real - 1.0 < v <= r as real
  {
    if v >= 0.0 then v.Floor else -((-v).Floor)
  }

  // ---------------------------------------------------------------------------
  // topLeftPoint
  // ---------------------------------------------------------------------------

  /** Every coordinate is a finite float and no x collides with the FLT_MAX marker. */
  predicate BelowMarker(ps: seq<Point>)
  {
    forall i :: 0 <= i < |ps| ==> ps[i].x < FltMax && ps[i].y <= FltMax
  }

  /** Index of the first point of minimal x, or -1 for an empty list. */
  function FirstLeftmost(ps: seq<Point>): (i: int)
    ensures i == -1 <==> |ps| == 0
    ensures |ps| > 0 ==> 0 <= i < |ps|
    ensures |ps| > 0 ==> forall j :: 0 <= j < |ps| ==> ps[i].x <= ps[j].x
    ensures |ps| > 0 ==> forall j :: 0 <= j < i ==> ps[i].x < ps[j].x
    decreases |ps|
  {
    if |ps| == 0 then -1
    else
      var k := FirstLeftmost(ps[..|ps| - 1]);
      if k < 0 || ps[|ps| - 1].x < ps[k].x then |ps| - 1 else k
  }

  /**
   * Index of the first point of minimal x among the points whose value differs
   * from m, or -1 when every point equals m.
   */
  function FirstLeftmostOther(ps: seq<Point>, m: Point): (i: int)
    ensures i == -1 <==> forall j :: 0 <= j < |ps| ==> ps[j] == m
    ensures -1 <= i < |ps|
    ensures i >= 0 ==> ps[i] != m
    ensures i >= 0 ==> forall j :: 0 <= j < |ps| && ps[j] != m ==> ps[i].x <= ps[j].x
    ensures i >= 0 ==> forall j :: 0 <= j < i && ps[j] != m ==> ps[i].x < ps[j].x
    decreases |ps|
  {
    if |ps| == 0 then -1
    else
      var init := ps[..|ps| - 1];
      assert forall j :: 0 <= j < |init| ==> init[j] == ps[j];
      var k := FirstLeftmostOther(init, m);
      var last := ps[|ps| - 1];
      if last != m && (k < 0 || last.x < ps[k].x) then |ps| - 1 else k
  }

  /**
   * The anchor corner: the first leftmost point, unless the leftmost point
   * among the others is strictly higher (smaller y); -1 for an empty list.
   */
  function TopLeftIndex(ps: seq<Point>): (t: int)
    ensures t == -1 <==> |ps| == 0
    ensures |ps| > 0 ==> 0 <= t < |ps|
  {
    var m := FirstLeftmost(ps);
    if m < 0 then -1
    else
      var k := FirstLeftmostOther(ps, ps[m]);
      if k >= 0 && ps[k].y < ps[m].y then k else m
  }

  /** topLeftPoint: the one-pass selection loop of the demo; returns the point and *idx. */
  method TopLeftPoint(points: seq<Point>) returns (p: Point, idx: int)
    requires BelowMarker(points)
    ensures idx == TopLeftIndex(points)
    ensures idx == -1 ==> p == Unset
    ensures idx >= 0 ==> p == points[idx]
  {
    var mostLeft, almostMostLeft := Unset, Unset;
    var mostLeftIdx, almostMostLeftIdx := -1, -1;
    for i := 0 to |points|
      invariant mostLeftIdx == FirstLeftmost(points[..i])
      invariant mostLeft == if mostLeftIdx < 0 then Unset else points[mostLeftIdx]
      invariant almostMostLeftIdx == FirstLeftmostOther(points[..i], mostLeft)
      invariant almostMostLeft == if almostMostLeftIdx < 0 then Unset else points[almostMostLeftIdx]
    {
      assert points[..i + 1][..i] == points[..i];
      if mostLeft.x > points[i].x {
        if mostLeft.x != FltMax {
          FirstLeftmostOtherOfAbsent(points[..i], points[i]);
          almostMostLeft := mostLeft;
          almostMostLeftIdx := mostLeftIdx;
        }
        mostLeft := points[i];
        mostLeftIdx := i;
      }
      if almostMostLeft.x > points[i].x && points[i] != mostLeft {
        almostMostLeft := points[i];
        almostMostLeftIdx := i;
      }
    }
    assert points[..|points|] == points;
    if almostMostLeft.y < mostLeft.y {
      mostLeft := almostMostLeft;
      mostLeftIdx := almostMostLeftIdx;
    }
    idx := mostLeftIdx;
    p := mostLeft;
  }

  /** When no point equals m, excluding m changes nothing. */
  lemma {:induction false} FirstLeftmostOtherOfAbsent(ps: seq<Point>, m: Point)
    requires forall j :: 0 <= j < |ps| ==> ps[j] != m
    ensures FirstLeftmostOther(ps, m) == FirstLeftmost(ps)
    decreases |ps|
  {
    if |ps| > 0 {
      FirstLeftmostOtherOfAbsent(ps[..|ps| - 1], m);
    }
  }

  /**
   * The anchor is the leftmost point or the second leftmost: only copies of
   * the first leftmost point may lie strictly to its left, and it is the
   * second leftmost only when it is strictly higher than the leftmost.
   */
  lemma TopLeftIsLeftmostOrHigher(ps: seq<Point>)
    requires |ps| > 0
    ensures var t, m := TopLeftIndex(ps), FirstLeftmost(ps);
      && (forall j :: 0 <= j < |ps| && ps[j].x < ps[t].x ==> ps[j] == ps[m])
      && (ps[t] != ps[m] ==> ps[t].y < ps[m].y)
  {
  }

  /** Point i has the minimal x-coordinate of the list. */
  ghost predicate IsLeftmost(ps: seq<Point>, i: int)
  {
    0 <= i < |ps| && forall l :: 0 <= l < |ps| ==> ps[i].x <= ps[l].x
  }

  /**
   * Points i, j and k do not form an ambiguous tie: if j and k are distinct
   * from each other and from i and share an x-coordinate, some point other
   * than i lies strictly to their left.
   */
  ghost predicate TieBroken(ps: seq<Point>, i: int, j: int, k: int)
  {
    (0 <= i < |ps| && 0 <= j < |ps| && 0 <= k < |ps|
     && ps[j] != ps[i] && ps[k] != ps[i] && ps[j] != ps[k] && ps[j].x == ps[k].x)
    ==> exists l :: 0 <= l < |ps| && ps[l] != ps[i] && ps[l].x < ps[j].x
  }

  /**
   * The anchor is determined by the point values alone unless two distinct
   * points tie for leftmost among the points other than a leftmost point.
   */
  ghost predicate Unambiguous(ps: seq<Point>)
  {
    forall i, j, k :: IsLeftmost(ps, i) ==> TieBroken(ps, i, j, k)
  }

  /** In an unambiguous list, the leftmost point among those other than a leftmost ps[i] is unique by value. */
  lemma LeftmostOtherUnique(ps: seq<Point>, i: int, j: int, k: int)
    requires Unambiguous(ps) && IsLeftmost(ps, i)
    requires 0 <= i < |ps| && 0 <= j < |ps| && 0 <= k < |ps|
    requires ps[j] != ps[i] && ps[k] != ps[i] && ps[j].x == ps[k].x
    requires forall l :: 0 <= l < |ps| && ps[l] != ps[i] ==> ps[j].x <= ps[l].x
    ensures ps[j] == ps[k]
  {
    assert TieBroken(ps, i, j, k);
  }

  /** Two lists holding the same point values and free of ambiguous ties select the same anchor point. */
  lemma TopLeftDependsOnlyOnValues(ps: seq<Point>, qs: seq<Point>)
    requires |ps| > 0
    requires forall p :: p in ps <==> p in qs
    requires Unambiguous(ps)
    ensures |qs| > 0 && ps[TopLeftIndex(ps)] == qs[TopLeftIndex(qs)]
  {
    assert ps[0] in qs;
    var m1, m2 := FirstLeftmost(ps), FirstLeftmost(qs);
    var a, b := ps[m1], qs[m2];
    assert b in ps && a in qs;
    var jb :| 0 <= jb < |ps| && ps[jb] == b;
    var ja :| 0 <= ja < |qs| && qs[ja] == a;
    assert a.x == b.x;
    var k1, k2 := FirstLeftmostOther(ps, a), FirstLeftmostOther(qs, b);
    if a == b {
      if k1 < 0 {
        forall j | 0 <= j < |qs| ensures qs[j] == b {
          assert qs[j] in ps;
        }
      } else {
        assert ps[k1] in qs;
        var ik :| 0 <= ik < |qs| && qs[ik] == ps[k1];
        assert k2 >= 0;
        var d := qs[k2];
        assert d in ps;
        var jd :| 0 <= jd < |ps| && ps[jd] == d;
        forall l | 0 <= l < |ps| && ps[l] != ps[m1] ensures ps[jd].x <= ps[l].x {
          assert ps[l] in qs;
        }
        LeftmostOtherUnique(ps, m1, jd, k1);
      }
    } else {
      assert k1 >= 0 && k2 >= 0;
      var d := qs[k2];
      assert d in ps;
      var jd :| 0 <= jd < |ps| && ps[jd] == d;
      LeftmostOtherUnique(ps, m1, k1, jb);
      forall l | 0 <= l < |ps| ensures ps[jb].x <= ps[l].x {
        assert ps[l] in qs;
      }
      forall l | 0 <= l < |ps| && ps[l] != ps[jb] ensures ps[jd].x <= ps[l].x {
        assert ps[l] in qs;
      }
      assert ps[m1].x == ps[jd].x;
      LeftmostOtherUnique(ps, jb, jd, m1);
    }
  }

  /** The corner list read from corner n onwards (a cyclic rotation). */
  function Rotate(ps: seq<Point>, n: nat): (r: seq<Point>)
    requires n <= |ps|
    ensures |r| == |ps|
    ensures forall p :: p in r <==> p in ps
  {
    ps[n..] + ps[..n]
  }

  /** Starting the traversal at another corner keeps the anchor point, when no ambiguous tie exists. */
  lemma TopLeftRotationInvariant(ps: seq<Point>, n: nat)
    requires 0 < |ps| && n <= |ps|
    requires Unambiguous(ps)
    ensures ps[TopLeftIndex(ps)] == Rotate(ps, n)[TopLeftIndex(Rotate(ps, n))]
  {
    TopLeftDependsOnlyOnValues(ps, Rotate(ps, n));
  }

  /** A square rotated by 45 degrees: two corners tie for second leftmost. */
  function Diamond(): seq<Point>
  {
    [Point(0.0, 1.0), Point(1.0, 0.0), Point(2.0, 1.0), Point(1.0, 2.0)]
  }

  lemma DiamondAnchor()
    ensures TopLeftIndex(Diamond()) == 1
  {
    var d := Diamond();
    assert FirstLeftmost(d[..1]) == 0;
    assert FirstLeftmost(d[..2]) == 0;
    assert FirstLeftmost(d[..3]) == 0;
    assert FirstLeftmost(d) == 0;
    assert FirstLeftmostOther(d[..1], d[0]) == -1;
    assert FirstLeftmostOther(d[..2], d[0]) == 1;
    assert FirstLeftmostOther(d[..3], d[0]) == 1;
    assert FirstLeftmostOther(d, d[0]) == 1;
  }

  lemma RotatedDiamondAnchor()
    ensures Rotate(Diamond(), 3) == [Point(1.0, 2.0), Point(0.0, 1.0), Point(1.0, 0.0), Point(2.0, 1.0)]
    ensures TopLeftIndex(Rotate(Diamond(), 3)) == 1
  {
    var r := Rotate(Diamond(), 3);
    assert r == [Point(1.0, 2.0), Point(0.0, 1.0), Point(1.0, 0.0), Point(2.0, 1.0)];
    assert FirstLeftmost(r[..1]) == 0;
    assert FirstLeftmost(r[..2]) == 1;
    assert FirstLeftmost(r[..3]) == 1;
    assert FirstLeftmost(r) == 1;
    assert FirstLeftmostOther(r[..1], r[1]) == 0;
    assert FirstLeftmostOther(r[..2], r[1]) == 0;
    assert FirstLeftmostOther(r[..3], r[1]) == 0;
    assert FirstLeftmostOther(r, r[1]) == 0;
  }

  /**
   * Without that condition the anchor depends on where the traversal starts:
   * for the 45-degree square, starting at the left corner selects the top
   * corner, and starting at the bottom corner selects the left corner.
   */
  lemma DiamondAnchorDependsOnStart()
    ensures Diamond()[TopLeftIndex(Diamond())] == Point(1.0, 0.0)
    ensures Rotate(Diamond(), 3)[TopLeftIndex(Rotate(Diamond(), 3))] == Point(0.0, 1.0)
  {
    DiamondAnchor();
    RotatedDiamondAnchor();
  }

  /**
   * An axis-aligned rectangle of positive size with top-left corner (x0, y0),
   * as a horizontal text line yields, listed clockwise from that corner: the
   * two left corners share the leftmost x.
   */
  function AxisRectAt(x0: real, y0: real, w: real, h: real): seq<Point>
  {
    [Point(x0, y0), Point(x0 + w, y0), Point(x0 + w, y0 + h), Point(x0, y0 + h)]
  }

  /** A vertical left side is not an ambiguous tie. */
  lemma AxisRectUnambiguous(x0: real, y0: real, w: real, h: real)
    requires w > 0.0 && h > 0.0
    ensures Unambiguous(AxisRectAt(x0, y0, w, h))
  {
    var ps := AxisRectAt(x0, y0, w, h);
    forall i, j, k | IsLeftmost(ps, i) ensures TieBroken(ps, i, j, k) {
      if 0 <= j < |ps| && 0 <= k < |ps| && ps[j] != ps[i] && ps[k] != ps[i] && ps[j] != ps[k] && ps[j].x == ps[k].x {
        assert ps[i].x <= ps[0].x;
        var l := if i == 0 then 3 else 0;
        assert ps[l] != ps[i] && ps[l].x < ps[j].x;
      }
    }
  }

  /** From every starting corner an axis-aligned rectangle is anchored at its top-left corner. */
  lemma AxisRectAnchorFromEveryStart(x0: real, y0: real, w: real, h: real, n: nat)
    requires w > 0.0 && h > 0.0 && n <= 4
    ensures var ps := Rotate(AxisRectAt(x0, y0, w, h), n);
      ps[TopLeftIndex(ps)] == Point(x0, y0)
  {
    var ps := AxisRectAt(x0, y0, w, h);
    assert FirstLeftmost(ps[..1]) == 0;
    assert FirstLeftmost(ps[..2]) == 0;
    assert FirstLeftmost(ps[..3]) == 0;
    assert FirstLeftmost(ps) == 0;
    assert FirstLeftmostOther(ps[..1], ps[0]) == -1;
    assert FirstLeftmostOther(ps[..2], ps[0]) == 1;
    assert FirstLeftmostOther(ps[..3], ps[0]) == 1;
    assert FirstLeftmostOther(ps, ps[0]) == 3;
    AxisRectUnambiguous(x0, y0, w, h);
    TopLeftRotationInvariant(ps, n);
  }

  // ---------------------------------------------------------------------------
  // cropImage: which corners feed the affine map
  // ---------------------------------------------------------------------------

  /** The corners cropImage reads: the anchor and the next two, cyclically. */
  function CropSourceIndices(anchor: int): (r: seq<int>)
    requires 0 <= anchor < 4
    ensures |r| == 3 && r[0] == anchor
    ensures forall k :: 0 <= k < 3 ==> 0 <= r[k] < 4
    ensures r[0] != r[1] && r[1] != r[2] && r[0] != r[2]
    ensures forall j :: 0 <= j < 4 ==> (j in r <==> j != (anchor + 3) % 4)
    ensures forall k :: 0 <= k < 2 ==> r[k + 1] == (r[k] + 1) % 4
  {
    [anchor, (anchor + 1) % 4, (anchor + 2) % 4]
  }

  /** The destination corners: top-left, top-right and bottom-right of the target crop. */
  function CropDestinations(targetWidth: int, targetHeight: int): (r: seq<Point>)
    ensures |r| == 3
    ensures r[0] == Point(0.0, 0.0)
    ensures r[2] == Point((targetWidth - 1) as real, (targetHeight - 1) as real)
    ensures r[1] == Point(r[2].x, r[0].y)
    ensures targetWidth >= 1 && targetHeight >= 1 ==>
      forall k :: 0 <= k < 3 ==> 0.0 <= r[k].x <= (targetWidth - 1) as real && 0.0 <= r[k].y <= (targetHeight - 1) as real
  {
    [Point(0.0, 0.0), Point((targetWidth - 1) as real, 0.0), Point((targetWidth - 1) as real, (targetHeight - 1) as real)]
  }

  /** The (source, destination) pairs handed to cv::getAffineTransform. */
  function CropCorrespondence(points: seq<Point>, anchor: int, targetWidth: int, targetHeight: int): (pairs: seq<(Point, Point)>)
    requires |points| == 4 && 0 <= anchor < 4
    ensures |pairs| == 3
    ensures pairs[0] == (points[anchor], Point(0.0, 0.0))
    ensures forall k :: 0 <= k < 3 ==>
      pairs[k].0 == points[CropSourceIndices(anchor)[k]] && pairs[k].1 == CropDestinations(targetWidth, targetHeight)[k]
  {
    var src, dst := CropSourceIndices(anchor), CropDestinations(targetWidth, targetHeight);
    seq(3, k requires 0 <= k < 3 => (points[src[k]], dst[k]))
  }

  /** The four corners form a parallelogram (a rotated rectangle in particular). */
  predicate IsParallelogram(ps: seq<Point>)
  {
    |ps| == 4 && ps[0].x + ps[2].x == ps[1].x + ps[3].x && ps[0].y + ps[2].y == ps[1].y + ps[3].y
  }

  /**
   * The corner cropImage ignores is fixed by the three it uses when the corners
   * form a parallelogram, so the 3-point map loses nothing for a rectangle.
   */
  lemma OmittedCornerDetermined(ps: seq<Point>, anchor: int)
    requires IsParallelogram(ps) && 0 <= anchor < 4
    ensures var s := CropSourceIndices(anchor); var o := ps[(anchor + 3) % 4];
      o.x == ps[s[0]].x - ps[s[1]].x + ps[s[2]].x && o.y == ps[s[0]].y - ps[s[1]].y + ps[s[2]].y
  {
  }

  // ---------------------------------------------------------------------------
  // Fixed centre crop
  // ---------------------------------------------------------------------------

  /** An integer rectangle (cv::Rect): top-left corner and size. */
  datatype IntRect = IntRect(x: int, y: int, width: int, height: int)

  /** The rectangle lies inside a cols x rows image, as cv::Mat's region-of-interest constructor demands. */
  predicate InsideFrame(r: IntRect, cols: int, rows: int)
  {
    0 <= r.x && 0 <= r.width && r.x + r.width <= cols && 0 <= r.y && 0 <= r.height && r.y + r.height <= rows
  }

  /**
   * The centre-crop window used when a region is not rectified: 5% of the
   * frame width, half as tall, centred. The products by 0.05 and 0.5 are
   * computed exactly here rather than in double precision.
   */
  function CentreCropRect(cols: nat, rows: nat): (r: IntRect)
    ensures r.width >= 0 && r.height >= 0
    ensures 20 * r.width <= cols < 20 * (r.width + 1)
    ensures 2 * r.height <= r.width < 2 * (r.height + 1)
    ensures 0 <= r.x && r.x + r.width <= cols
    ensures 0 <= (cols - r.x - r.width) - r.x <= 1
    ensures r.height <= rows ==> 0 <= (rows - r.y - r.height) - r.y <= 1
    ensures r.height > rows ==> -1 <= (rows - r.y - r.height) - r.y <= 0
    ensures InsideFrame(r, cols, rows) <==> r.height <= rows
  {
    var w := Trunc(cols as real * 0.05);
    var h := Trunc(w as real * 0.5);
    var tlX := Trunc(cols as real * 0.5 - w as real * 0.5);
    var tlY := Trunc(rows as real * 0.5 - h as real * 0.5);
    IntRect(tlX, tlY, w, h)
  }

  /** A frame more than about 40 times wider than tall puts the window above the frame. */
  lemma CentreCropAboveWideFrame()
    ensures CentreCropRect(400, 1).y < 0
  {
  }

  /** The window can leave the frame without a negative y: for 400 x 9 it starts at y = 0 and is 10 rows tall. */
  lemma CentreCropBelowShortFrame()
    ensures var r := CentreCropRect(400, 9);
      r.y == 0 && r.height == 10 && !InsideFrame(r, 400, 9)
  {
  }
}
