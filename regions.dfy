/**
 * Detected text regions and the optional cap on their number: when the cap
 * is non-negative and exceeded, the regions are sorted in place by area,
 * largest first, and the list is cut to the cap.
 */
module Regions {
  import opened Geometry

  /** An oriented rectangle (cv::RotatedRect): centre, size and rotation angle. */
  datatype RotatedRect = RotatedRect(center: Point, width: real, height: real, angle: real)

  /** cv::Size2f::area. */
  function Area(r: RotatedRect): real
  {
    r.width * r.height
  }

  /** The single whole-frame region substituted when no detector is configured. */
  const NoDetectorRegion: RotatedRect := RotatedRect(Point(0.0, 0.0), 0.0, 0.0, 0.0)

  /** rect.size == cv::Size2f(0, 0). */
  predicate HasZeroSize(r: RotatedRect)
  {
    r.width == 0.0 && r.height == 0.0
  }

  ghost predicate SortedByAreaDesc(s: seq<RotatedRect>)
  {
    forall i, j :: 0 <= i < j < |s| ==> Area(s[i]) >= Area(s[j])
  }

  /** Whether the cap applies: it is non-negative and the list is longer. */
  predicate CapApplies(count: nat, maxRectNum: int)
  {
    maxRectNum >= 0 && count > maxRectNum
  }

  /**
   * output is what the demo's region list becomes under the cap: unchanged if
   * the cap does not apply; otherwise exactly maxRectNum regions, largest first,
   * drawn from the input, none smaller than any region dropped.
   */
  ghost predicate IsCapOf(input: seq<RotatedRect>, maxRectNum: int, output: seq<RotatedRect>)
  {
    if CapApplies(|input|, maxRectNum) then
      && |output| == maxRectNum
      && SortedByAreaDesc(output)
      && multiset(output) <= multiset(input)
      && forall r, d :: r in output && d in multiset(input) - multiset(output) ==> Area(r) >= Area(d)
    else
      output == input
  }

  /**
   * The in-place sort of the demo (std::sort with "larger area first"): the
   * array ends up a permutation of its old contents, ordered by non-increasing
   * area. The order among equal areas is left open, as std::sort leaves it.
   */
  method SortByAreaDesc(a: array<RotatedRect>)
    modifies a
    ensures SortedByAreaDesc(a[..])
    ensures multiset(a[..]) == multiset(old(a[..]))
  {
    var i := 0;
    while i < a.Length
      invariant 0 <= i <= a.Length
      invariant forall p, q :: 0 <= p < i && p < q < a.Length ==> Area(a[p]) >= Area(a[q])
      invariant multiset(a[..]) == multiset(old(a[..]))
    {
      var best := IndexOfLargest(a, i);
      Swap(a, i, best);
      i := i + 1;
    }
  }

  /** Exchanges a[i] and a[j]. */
  method Swap(a: array<RotatedRect>, i: nat, j: nat)
    requires i < a.Length && j < a.Length
    modifies a
    ensures a[i] == old(a[j]) && a[j] == old(a[i])
    ensures forall k :: 0 <= k < a.Length && k != i && k != j ==> a[k] == old(a[k])
    ensures multiset(a[..]) == multiset(old(a[..]))
  {
    a[i], a[j] := a[j], a[i];
  }

  /** The position of a region of largest area in a[lo..]. */
  method IndexOfLargest(a: array<RotatedRect>, lo: nat) returns (best: nat)
    requires lo < a.Length
    ensures lo <= best < a.Length
    ensures forall q :: lo <= q < a.Length ==> Area(a[best]) >= Area(a[q])
  {
    best := lo;
    for j := lo + 1 to a.Length
      invariant lo <= best < a.Length
      invariant forall q :: lo <= q < j ==> Area(a[best]) >= Area(a[q])
    {
      if Area(a[j]) > Area(a[best]) {
        best := j;
      }
    }
  }

  /**
   * The cap: sort and cut when it applies. Returns the new length of the
   * list; the kept regions are a[..n].
   */
  method CapRegions(a: array<RotatedRect>, maxRectNum: int) returns (n: nat)
    modifies a
    ensures CapApplies(a.Length, maxRectNum) ==> n == maxRectNum
    ensures CapApplies(a.Length, maxRectNum) ==> SortedByAreaDesc(a[..]) && multiset(a[..]) == multiset(old(a[..]))
    ensures !CapApplies(a.Length, maxRectNum) ==> n == a.Length && a[..] == old(a[..])
    ensures IsCapOf(old(a[..]), maxRectNum, a[..n])
  {
    n := a.Length;
    if CapApplies(a.Length, maxRectNum) {
      SortByAreaDesc(a);
      n := maxRectNum;
      SortedPrefixIsCap(old(a[..]), a[..], maxRectNum);
    } else {
      assert a[..n] == a[..];
    }
  }

  /** In a list sorted by area, every region before position n is at least as large as every region from n on. */
  lemma SortedSplitDominates(sorted: seq<RotatedRect>, n: nat, r: RotatedRect, d: RotatedRect)
    requires SortedByAreaDesc(sorted) && n <= |sorted|
    requires r in sorted[..n] && d in sorted[n..]
    ensures Area(r) >= Area(d)
  {
    var i :| 0 <= i < n && sorted[..n][i] == r;
    var j :| 0 <= j < |sorted| - n && sorted[n..][j] == d;
    assert sorted[i] == r && sorted[n + j] == d;
  }

  /** Cutting a sorted permutation of the input to the cap gives a list the cap describes. */
  lemma SortedPrefixIsCap(input: seq<RotatedRect>, sorted: seq<RotatedRect>, maxRectNum: int)
    requires SortedByAreaDesc(sorted) && multiset(sorted) == multiset(input)
    requires CapApplies(|input|, maxRectNum)
    ensures |sorted| == |input| && IsCapOf(input, maxRectNum, sorted[..maxRectNum])
  {
    assert |sorted| == |multiset(sorted)| == |multiset(input)| == |input|;
    var kept, dropped := sorted[..maxRectNum], sorted[maxRectNum..];
    assert sorted == kept + dropped;
    assert multiset(input) - multiset(kept) == multiset(dropped);
    forall r, d | r in kept && d in multiset(input) - multiset(kept) ensures Area(r) >= Area(d) {
      SortedSplitDominates(sorted, maxRectNum, r, d);
    }
  }
}
