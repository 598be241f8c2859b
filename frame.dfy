/**
 * One frame of the demo: the region list (detector output, or the whole-frame
 * placeholder when no detector is configured), the region cap, and the
 * per-region loop that prepares the recognizer input, gates the decoded
 * string, counts the regions found and writes the report lines.
 *
 * The detector's post-processing, the rotated rectangle's corner computation
 * and the recognizer with its CTC decoder are foreign code; they enter as the
 * inputs detected, cornersOf and recognize.
 */
module Frame {
  import opened Wrappers
  import opened Geometry
  import opened Regions
  import opened Recognition
  import opened Report

  /** The run configuration the frame loop depends on. */
  datatype Settings = Settings(
    detectorActive: bool,
    recognizerActive: bool,
    maxRectNum: int,
    centreCrop: bool,
    reportMode: bool,
    minConfidence: real,
    targetWidth: int,
    targetHeight: int)

  /** What the recognizer is given for a region. */
  datatype Crop =
    | Rectified(pairs: seq<(Point, Point)>)
    | CentreCrop(window: IntRect)
    | WholeFrame

  /** The recognizer's output width and the decoder's string and confidence. */
  datatype RecognizerOutput = RecognizerOutput(width: int, decoded: Decoded)

  /** Per-region geometry: the points reported, the anchor corner index and the crop. */
  datatype RegionPlan = RegionPlan(points: seq<Point>, anchor: int, crop: Crop)

  /**
   * Why a frame ends the run: the recognizer does not fit the alphabet, or the
   * centre-crop window leaves the image and cv::Mat's region-of-interest check
   * throws.
   */
  datatype Fault =
    | Config(error: ConfigError)
    | WindowOutsideFrame(window: IntRect)

  /** What every frame outcome ends with. */
  datatype FrameOutcome =
    | Completed(lines: seq<string>, texts: seq<string>, numFound: int)
    | Aborted(fault: Fault, lines: seq<string>)

  /** cv::RotatedRect::points yields four corners, finite and below the FLT_MAX marker. */
  ghost predicate CornersWellFormed(cornersOf: RotatedRect -> seq<Point>)
  {
    forall r :: |cornersOf(r)| == 4 && BelowMarker(cornersOf(r))
  }

  /** The regions of a frame before the cap. */
  function FrameInput(detected: seq<RotatedRect>, s: Settings): (input: seq<RotatedRect>)
    ensures s.detectorActive ==> input == detected
    ensures !s.detectorActive ==> |input| == 1 && HasZeroSize(input[0])
  {
    if s.detectorActive then detected else [NoDetectorRegion]
  }

  /**
   * The per-region branch: a region of non-zero size is rectified from its
   * anchor corner when a detector is configured; otherwise the recognizer sees
   * the centre-crop window (reported by its top-left corner) or the whole frame.
   */
  function PlanRegion(rect: RotatedRect, s: Settings, cols: nat, rows: nat, cornersOf: RotatedRect -> seq<Point>): (plan: RegionPlan)
    requires CornersWellFormed(cornersOf)
    ensures plan.crop.Rectified? <==> !HasZeroSize(rect) && s.detectorActive
    ensures plan.crop.Rectified? ==>
      && plan.points == cornersOf(rect)
      && 0 <= plan.anchor < 4 && plan.anchor == TopLeftIndex(plan.points)
      && plan.crop.pairs == CropCorrespondence(plan.points, plan.anchor, s.targetWidth, s.targetHeight)
      && plan.crop.pairs[0] == (plan.points[plan.anchor], Point(0.0, 0.0))
    ensures plan.crop.CentreCrop? <==> (HasZeroSize(rect) || !s.detectorActive) && s.centreCrop
    ensures plan.crop.CentreCrop? ==> plan.crop.window == CentreCropRect(cols, rows)
    ensures plan.crop.CentreCrop? ==> plan.points == [Point(plan.crop.window.x as real, plan.crop.window.y as real)]
    ensures plan.crop.WholeFrame? ==> plan.points == []
    ensures !plan.crop.Rectified? ==> plan.anchor == 0
  {
    if !HasZeroSize(rect) && s.detectorActive then
      var points := cornersOf(rect);
      var anchor := TopLeftIndex(points);
      RegionPlan(points, anchor, Rectified(CropCorrespondence(points, anchor, s.targetWidth, s.targetHeight)))
    else if s.centreCrop then
      var window := CentreCropRect(cols, rows);
      RegionPlan([Point(window.x as real, window.y as real)], 0, CentreCrop(window))
    else
      RegionPlan([], 0, WholeFrame)
  }

  /** The gated string of a region, or the fatal error when the recognizer does not fit the alphabet. */
  function RegionText(plan: RegionPlan, s: Settings, alphabet: string, recognize: Crop -> RecognizerOutput): (r: Result<string, ConfigError>)
    ensures !s.recognizerActive ==> r == Success("")
    ensures s.recognizerActive ==> (r.Failure? <==> recognize(plan.crop).width != |alphabet|)
    ensures s.recognizerActive && r.Success? ==>
      var d := recognize(plan.crop).decoded;
      r.value == Gate(d.text, d.conf, s.minConfidence)
    ensures r.Success? && r.value != "" ==>
      s.recognizerActive && r.value == recognize(plan.crop).decoded.text && recognize(plan.crop).decoded.conf >= s.minConfidence
  {
    if !s.recognizerActive then Success("")
    else
      var out := recognize(plan.crop);
      match CheckOutputWidth(out.width, alphabet)
      case Failure(e) => Failure(e)
      case Success(_) => Success(Gate(out.decoded.text, out.decoded.conf, s.minConfidence))
  }

  /** The centre-crop window of the plan leaves the image, so cutting it out throws. */
  predicate CropFails(plan: RegionPlan, cols: nat, rows: nat)
  {
    plan.crop.CentreCrop? && !InsideFrame(plan.crop.window, cols, rows)
  }

  /** The region ends the run: its crop fails, or the recognizer does not fit the alphabet. */
  predicate RegionFails(plan: RegionPlan, s: Settings, alphabet: string, cols: nat, rows: nat, recognize: Crop -> RecognizerOutput)
  {
    CropFails(plan, cols, rows) || (s.recognizerActive && recognize(plan.crop).width != |alphabet|)
  }

  /** The report line of a region. */
  function RegionLine(plan: RegionPlan, text: string, s: Settings, cols: nat, rows: nat): string
  {
    ReportLine(plan.points, cols, rows, if s.recognizerActive then Some(text) else None)
  }

  /** The plans of the given regions, in order. */
  function Plans(regions: seq<RotatedRect>, s: Settings, cols: nat, rows: nat, cornersOf: RotatedRect -> seq<Point>): (plans: seq<RegionPlan>)
    requires CornersWellFormed(cornersOf)
    ensures |plans| == |regions|
  {
    seq(|regions|, j requires 0 <= j < |regions| => PlanRegion(regions[j], s, cols, rows, cornersOf))
  }

  /** The decoder outputs for the crops of the given plans. */
  function DecoderOutputs(plans: seq<RegionPlan>, recognize: Crop -> RecognizerOutput): (ds: seq<Decoded>)
    ensures |ds| == |plans|
  {
    seq(|plans|, j requires 0 <= j < |plans| => recognize(plans[j].crop).decoded)
  }

  /**
   * One turn of the region loop: after an abort nothing changes; a centre-crop
   * window outside the image, or a recognizer that does not fit the alphabet,
   * aborts, keeping the lines already written;
   * otherwise the region's line (in report mode) and gated string are added
   * and the found count grows when that string is non-empty.
   */
  function Step(o: FrameOutcome, plan: RegionPlan, s: Settings, alphabet: string, cols: nat, rows: nat,
                recognize: Crop -> RecognizerOutput): FrameOutcome
  {
    if o.Aborted? then o
    else if CropFails(plan, cols, rows) then Aborted(WindowOutsideFrame(plan.crop.window), o.lines)
    else
      match RegionText(plan, s, alphabet, recognize)
      case Failure(e) => Aborted(Config(e), o.lines)
      case Success(res) =>
        Completed(o.lines + (if s.reportMode then [RegionLine(plan, res, s, cols, rows)] else []),
                  o.texts + [res],
                  o.numFound + (if res != "" then 1 else 0))
  }

  /** The state of the region loop after the given plans, from a found count of start. */
  function Run(plans: seq<RegionPlan>, start: int, s: Settings, alphabet: string, cols: nat, rows: nat,
               recognize: Crop -> RecognizerOutput): (o: FrameOutcome)
    decreases |plans|
  {
    if |plans| == 0 then Completed([], [], start)
    else Step(Run(plans[..|plans| - 1], start, s, alphabet, cols, rows, recognize), plans[|plans| - 1], s, alphabet, cols, rows, recognize)
  }

  /** The found count starts at zero with a recognizer, and at the number of regions without one. */
  function FoundStart(regions: seq<RotatedRect>, s: Settings): (n: nat)
    ensures s.recognizerActive ==> n == 0
    ensures !s.recognizerActive ==> n == |regions|
  {
    if s.recognizerActive then 0 else |regions|
  }

  /** The frame's outcome. */
  function FrameReport(regions: seq<RotatedRect>, s: Settings, alphabet: string, cols: nat, rows: nat,
                       cornersOf: RotatedRect -> seq<Point>, recognize: Crop -> RecognizerOutput): FrameOutcome
    requires CornersWellFormed(cornersOf)
  {
    Run(Plans(regions, s, cols, rows, cornersOf), FoundStart(regions, s), s, alphabet, cols, rows, recognize)
  }

  /** The region list of a frame after the cap, built as the demo builds it: in place, then cut. */
  method CapFrameRegions(input: seq<RotatedRect>, maxRectNum: int) returns (regions: seq<RotatedRect>)
    ensures IsCapOf(input, maxRectNum, regions)
  {
    var a := new RotatedRect[|input|](i requires 0 <= i < |input| => input[i]);
    assert a[..] == input;
    var n := CapRegions(a, maxRectNum);
    regions := a[..n];
  }

  /** The branch at the top of the region loop: corners, anchor and crop of one region. */
  method PrepareRegion(rect: RotatedRect, s: Settings, cols: nat, rows: nat, cornersOf: RotatedRect -> seq<Point>)
    returns (plan: RegionPlan)
    requires CornersWellFormed(cornersOf)
    ensures plan == PlanRegion(rect, s, cols, rows, cornersOf)
  {
    var points: seq<Point> := [];
    var anchor := 0;
    var crop := WholeFrame;
    if !HasZeroSize(rect) && s.detectorActive {
      points := cornersOf(rect);
      var _, idx := TopLeftPoint(points);
      anchor := idx;
      crop := Rectified(CropCorrespondence(points, anchor, s.targetWidth, s.targetHeight));
    } else if s.centreCrop {
      var window := CentreCropRect(cols, rows);
      crop := CentreCrop(window);
      points := [Point(window.x as real, window.y as real)];
    }
    plan := RegionPlan(points, anchor, crop);
  }

  /** One turn of the region loop of the demo: cut the crop, recognize, check the width, gate, count and write the line. */
  method HandleRegion(plan: RegionPlan, s: Settings, alphabet: string, cols: nat, rows: nat,
                      recognize: Crop -> RecognizerOutput, lines: seq<string>, texts: seq<string>, numFound: int)
    returns (o: FrameOutcome)
    ensures o == Step(Completed(lines, texts, numFound), plan, s, alphabet, cols, rows, recognize)
  {
    if plan.crop.CentreCrop? && !InsideFrame(plan.crop.window, cols, rows) {
      return Aborted(WindowOutsideFrame(plan.crop.window), lines);
    }
    var res := "";
    var found := numFound;
    if s.recognizerActive {
      var out := recognize(plan.crop);
      if out.width != |alphabet| {
        return Aborted(Config(AlphabetMismatch(out.width, |alphabet|)), lines);
      }
      res := if out.decoded.conf >= s.minConfidence then out.decoded.text else "";
      if res != "" {
        found := found + 1;
      }
    }
    var written := lines;
    if s.reportMode {
      var line := WriteReportLine(plan.points, cols, rows, if s.recognizerActive then Some(res) else None);
      written := lines + [line];
    }
    o := Completed(written, texts + [res], found);
  }

  /** The region loop of the demo over the capped regions: the report lines, the kept strings and the found count. */
  method RunRegions(regions: seq<RotatedRect>, s: Settings, alphabet: string, cols: nat, rows: nat,
                    cornersOf: RotatedRect -> seq<Point>, recognize: Crop -> RecognizerOutput)
    returns (outcome: FrameOutcome)
    requires CornersWellFormed(cornersOf)
    ensures outcome == FrameReport(regions, s, alphabet, cols, rows, cornersOf, recognize)
  {
    ghost var plans := Plans(regions, s, cols, rows, cornersOf);
    ghost var start := FoundStart(regions, s);
    var numFound := if s.recognizerActive then 0 else |regions|;
    var lines: seq<string> := [];
    var texts: seq<string> := [];
    for i := 0 to |regions|
      invariant Run(plans[..i], start, s, alphabet, cols, rows, recognize) == Completed(lines, texts, numFound)
    {
      var plan := PrepareRegion(regions[i], s, cols, rows, cornersOf);
      assert plan == plans[i];
      RunStep(plans, i, start, s, alphabet, cols, rows, recognize);
      var o := HandleRegion(plan, s, alphabet, cols, rows, recognize, lines, texts, numFound);
      assert Run(plans[..i + 1], start, s, alphabet, cols, rows, recognize) == o;
      if o.Aborted? {
        outcome := o;
        AbortIsFinal(plans, i + 1, start, s, alphabet, cols, rows, recognize);
        return;
      }
      lines, texts, numFound := o.lines, o.texts, o.numFound;
    }
    assert plans[..|plans|] == plans;
    outcome := Completed(lines, texts, numFound);
  }

  /** The frame loop of the demo, from the detector's regions to the report lines and the found count. */
  method ProcessFrame(detected: seq<RotatedRect>, s: Settings, alphabet: string, cols: nat, rows: nat,
                      cornersOf: RotatedRect -> seq<Point>, recognize: Crop -> RecognizerOutput)
    returns (regions: seq<RotatedRect>, outcome: FrameOutcome)
    requires CornersWellFormed(cornersOf)
    ensures IsCapOf(FrameInput(detected, s), s.maxRectNum, regions)
    ensures outcome == FrameReport(regions, s, alphabet, cols, rows, cornersOf, recognize)
  {
    regions := CapFrameRegions(if s.detectorActive then detected else [NoDetectorRegion], s.maxRectNum);
    outcome := RunRegions(regions, s, alphabet, cols, rows, cornersOf, recognize);
  }

  /** One turn of the region loop, as Run describes it. */
  lemma RunStep(plans: seq<RegionPlan>, i: nat, start: int, s: Settings, alphabet: string, cols: nat, rows: nat,
                recognize: Crop -> RecognizerOutput)
    requires i < |plans|
    ensures Run(plans[..i + 1], start, s, alphabet, cols, rows, recognize)
      == Step(Run(plans[..i], start, s, alphabet, cols, rows, recognize), plans[i], s, alphabet, cols, rows, recognize)
  {
    assert plans[..i + 1][..i] == plans[..i];
  }

  /** A turn that completes appends the region's gated string and, in report mode, its line. */
  lemma StepCompleted(o: FrameOutcome, plan: RegionPlan, s: Settings, alphabet: string, cols: nat, rows: nat,
                      recognize: Crop -> RecognizerOutput)
    requires o.Completed? && Step(o, plan, s, alphabet, cols, rows, recognize).Completed?
    ensures RegionText(plan, s, alphabet, recognize).Success?
    ensures var res := RegionText(plan, s, alphabet, recognize).value;
      var next := Step(o, plan, s, alphabet, cols, rows, recognize);
      && next.texts == o.texts + [res]
      && next.lines == o.lines + (if s.reportMode then [RegionLine(plan, res, s, cols, rows)] else [])
      && next.numFound == o.numFound + (if res != "" then 1 else 0)
  {
  }

  /** Once the loop has aborted, later regions change nothing. */
  lemma {:induction false} AbortIsFinal(plans: seq<RegionPlan>, n: nat, start: int, s: Settings, alphabet: string, cols: nat, rows: nat,
                                        recognize: Crop -> RecognizerOutput)
    requires n <= |plans|
    requires Run(plans[..n], start, s, alphabet, cols, rows, recognize).Aborted?
    ensures Run(plans, start, s, alphabet, cols, rows, recognize) == Run(plans[..n], start, s, alphabet, cols, rows, recognize)
    decreases |plans| - n
  {
    if n < |plans| {
      RunStep(plans, n, start, s, alphabet, cols, rows, recognize);
      AbortIsFinal(plans, n + 1, start, s, alphabet, cols, rows, recognize);
    } else {
      assert plans[..n] == plans;
    }
  }

  /** A completed loop kept one string per region: the region's gated decoder output. */
  lemma {:induction false} RunCompletedTexts(plans: seq<RegionPlan>, start: int, s: Settings, alphabet: string, cols: nat, rows: nat,
                                             recognize: Crop -> RecognizerOutput)
    requires Run(plans, start, s, alphabet, cols, rows, recognize).Completed?
    ensures var o := Run(plans, start, s, alphabet, cols, rows, recognize);
      && |o.texts| == |plans|
      && forall j :: 0 <= j < |plans| ==> RegionText(plans[j], s, alphabet, recognize) == Success(o.texts[j])
    decreases |plans|
  {
    if |plans| > 0 {
      var n := |plans| - 1;
      var before := Run(plans[..n], start, s, alphabet, cols, rows, recognize);
      assert before.Completed?;
      RunCompletedTexts(plans[..n], start, s, alphabet, cols, rows, recognize);
      var o := Run(plans, start, s, alphabet, cols, rows, recognize);
      var res := RegionText(plans[n], s, alphabet, recognize).value;
      assert o.texts == before.texts + [res];
      forall j | 0 <= j < |plans| ensures RegionText(plans[j], s, alphabet, recognize) == Success(o.texts[j]) {
        if j < n {
          assert o.texts[j] == before.texts[j] && plans[..n][j] == plans[j];
        }
      }
    }
  }

  /** In report mode the lines are the plans' report lines with their kept strings, one per plan; otherwise there are none. */
  ghost predicate LinesMatch(lines: seq<string>, texts: seq<string>, plans: seq<RegionPlan>, s: Settings, cols: nat, rows: nat)
  {
    && |texts| == |plans|
    && |lines| == (if s.reportMode then |plans| else 0)
    && forall j :: 0 <= j < |lines| ==> lines[j] == RegionLine(plans[j], texts[j], s, cols, rows)
  }

  lemma LinesMatchSnoc(lines: seq<string>, texts: seq<string>, plans: seq<RegionPlan>, plan: RegionPlan, res: string,
                       s: Settings, cols: nat, rows: nat)
    requires LinesMatch(lines, texts, plans, s, cols, rows)
    ensures LinesMatch(lines + (if s.reportMode then [RegionLine(plan, res, s, cols, rows)] else []), texts + [res], plans + [plan], s, cols, rows)
  {
    var lines' := lines + (if s.reportMode then [RegionLine(plan, res, s, cols, rows)] else []);
    var texts', plans' := texts + [res], plans + [plan];
    forall j | 0 <= j < |lines'| ensures lines'[j] == RegionLine(plans'[j], texts'[j], s, cols, rows) {
      if j < |lines| {
        assert lines'[j] == lines[j] && texts'[j] == texts[j] && plans'[j] == plans[j];
      }
    }
  }

  /** In report mode a completed loop wrote one line per region, that region's report line; otherwise none. */
  lemma {:induction false} RunCompletedLines(plans: seq<RegionPlan>, start: int, s: Settings, alphabet: string, cols: nat, rows: nat,
                                             recognize: Crop -> RecognizerOutput)
    requires Run(plans, start, s, alphabet, cols, rows, recognize).Completed?
    ensures var o := Run(plans, start, s, alphabet, cols, rows, recognize);
      LinesMatch(o.lines, o.texts, plans, s, cols, rows)
    decreases |plans|
  {
    if |plans| > 0 {
      var n := |plans| - 1;
      var init := plans[..n];
      var before := Run(init, start, s, alphabet, cols, rows, recognize);
      RunStep(plans, n, start, s, alphabet, cols, rows, recognize);
      assert plans[..n + 1] == plans;
      assert before.Completed?;
      StepCompleted(before, plans[n], s, alphabet, cols, rows, recognize);
      RunCompletedLines(init, start, s, alphabet, cols, rows, recognize);
      LinesMatchSnoc(before.lines, before.texts, init, plans[n], RegionText(plans[n], s, alphabet, recognize).value, s, cols, rows);
      assert init + [plans[n]] == plans;
    }
  }

  /** The found count of a completed loop grows from start by the decoder outputs that pass the gate non-empty (with a recognizer). */
  lemma {:induction false} RunCountsFound(plans: seq<RegionPlan>, start: int, s: Settings, alphabet: string, cols: nat, rows: nat,
                                          recognize: Crop -> RecognizerOutput)
    requires Run(plans, start, s, alphabet, cols, rows, recognize).Completed?
    ensures Run(plans, start, s, alphabet, cols, rows, recognize).numFound
      == start + (if s.recognizerActive then CountFound(DecoderOutputs(plans, recognize), s.minConfidence) else 0)
    decreases |plans|
  {
    if |plans| > 0 {
      var n := |plans| - 1;
      var init := plans[..n];
      var before := Run(init, start, s, alphabet, cols, rows, recognize);
      RunStep(plans, n, start, s, alphabet, cols, rows, recognize);
      assert plans[..n + 1] == plans;
      assert before.Completed?;
      StepCompleted(before, plans[n], s, alphabet, cols, rows, recognize);
      RunCountsFound(init, start, s, alphabet, cols, rows, recognize);
      var ds := DecoderOutputs(plans, recognize);
      assert ds[..n] == DecoderOutputs(init, recognize);
      var res := RegionText(plans[n], s, alphabet, recognize).value;
      assert res == if s.recognizerActive then Gate(ds[n].text, ds[n].conf, s.minConfidence) else "";
      assert CountFound(ds, s.minConfidence)
        == CountFound(ds[..n], s.minConfidence) + (if Gate(ds[n].text, ds[n].conf, s.minConfidence) != "" then 1 else 0);
    }
  }

  /** The loop aborts exactly when some region's crop fails or its recognizer output does not fit the alphabet. */
  lemma {:induction false} RunAbortsIffRegionFails(plans: seq<RegionPlan>, start: int, s: Settings, alphabet: string, cols: nat, rows: nat,
                                                   recognize: Crop -> RecognizerOutput)
    ensures Run(plans, start, s, alphabet, cols, rows, recognize).Aborted? <==>
      exists j :: 0 <= j < |plans| && RegionFails(plans[j], s, alphabet, cols, rows, recognize)
    decreases |plans|
  {
    if |plans| > 0 {
      var init := plans[..|plans| - 1];
      RunAbortsIffRegionFails(init, start, s, alphabet, cols, rows, recognize);
      assert forall j :: 0 <= j < |init| ==> init[j] == plans[j];
    }
  }

  /** The fault a failing region raises: the crop is cut out before the recognizer runs. */
  function RegionFault(plan: RegionPlan, alphabet: string, cols: nat, rows: nat, recognize: Crop -> RecognizerOutput): Fault
  {
    if CropFails(plan, cols, rows) then WindowOutsideFrame(plan.crop.window)
    else Config(AlphabetMismatch(recognize(plan.crop).width, |alphabet|))
  }

  /**
   * The loop ran through the first n plans, none of which fails, then plan n
   * failed: the outcome
   * carries that plan's fault and the lines written for the plans before it.
   */
  ghost predicate AbortedAt(plans: seq<RegionPlan>, n: int, start: int, s: Settings, alphabet: string, cols: nat, rows: nat,
                            recognize: Crop -> RecognizerOutput)
  {
    && 0 <= n < |plans|
    && Run(plans[..n], start, s, alphabet, cols, rows, recognize).Completed?
    && (forall j :: 0 <= j < n ==> !RegionFails(plans[j], s, alphabet, cols, rows, recognize))
    && RegionFails(plans[n], s, alphabet, cols, rows, recognize)
    && Run(plans, start, s, alphabet, cols, rows, recognize)
       == Aborted(RegionFault(plans[n], alphabet, cols, rows, recognize), Run(plans[..n], start, s, alphabet, cols, rows, recognize).lines)
  }

  /**
   * An aborted loop stopped at its first failing region: every region before
   * it completed, the fault is that region's, and the lines are exactly those
   * written for the regions before it.
   */
  lemma {:induction false} RunAbortKeepsEarlierLines(plans: seq<RegionPlan>, start: int, s: Settings, alphabet: string, cols: nat, rows: nat,
                                                     recognize: Crop -> RecognizerOutput)
    requires Run(plans, start, s, alphabet, cols, rows, recognize).Aborted?
    ensures exists n :: AbortedAt(plans, n, start, s, alphabet, cols, rows, recognize)
    decreases |plans|
  {
    var m := |plans| - 1;
    var init := plans[..m];
    RunStep(plans, m, start, s, alphabet, cols, rows, recognize);
    assert plans[..m + 1] == plans;
    if Run(init, start, s, alphabet, cols, rows, recognize).Aborted? {
      RunAbortKeepsEarlierLines(init, start, s, alphabet, cols, rows, recognize);
      var n :| AbortedAt(init, n, start, s, alphabet, cols, rows, recognize);
      assert init[..n] == plans[..n] && init[n] == plans[n];
      assert forall j :: 0 <= j < n ==> init[j] == plans[j];
      assert AbortedAt(plans, n, start, s, alphabet, cols, rows, recognize);
    } else {
      RunAbortsIffRegionFails(init, start, s, alphabet, cols, rows, recognize);
      assert forall j :: 0 <= j < m ==> init[j] == plans[j];
      assert AbortedAt(plans, m, start, s, alphabet, cols, rows, recognize);
    }
  }

  /**
   * Raising the confidence threshold never increases the frame's found count
   * and does not change whether the frame aborts.
   */
  lemma FrameFoundAntitone(regions: seq<RotatedRect>, s: Settings, alphabet: string, cols: nat, rows: nat,
                           cornersOf: RotatedRect -> seq<Point>, recognize: Crop -> RecognizerOutput, higher: real)
    requires CornersWellFormed(cornersOf)
    requires s.minConfidence <= higher
    ensures var lo := FrameReport(regions, s, alphabet, cols, rows, cornersOf, recognize);
      var hi := FrameReport(regions, s.(minConfidence := higher), alphabet, cols, rows, cornersOf, recognize);
      lo.Aborted? == hi.Aborted? && (lo.Completed? ==> hi.numFound <= lo.numFound)
  {
    var s' := s.(minConfidence := higher);
    var plans := Plans(regions, s, cols, rows, cornersOf);
    var start := FoundStart(regions, s);
    assert Plans(regions, s', cols, rows, cornersOf) == plans && FoundStart(regions, s') == start;
    RunAbortsIffRegionFails(plans, start, s, alphabet, cols, rows, recognize);
    RunAbortsIffRegionFails(plans, start, s', alphabet, cols, rows, recognize);
    if Run(plans, start, s, alphabet, cols, rows, recognize).Completed? {
      RunCountsFound(plans, start, s, alphabet, cols, rows, recognize);
      RunCountsFound(plans, start, s', alphabet, cols, rows, recognize);
      CountFoundAntitone(DecoderOutputs(plans, recognize), s.minConfidence, higher);
    }
  }

  /**
   * Without a detector the frame holds the zero-size placeholder region alone
   * (or nothing under a cap of zero), and it is never rectified.
   */
  lemma NoDetectorNeverRectifies(detected: seq<RotatedRect>, s: Settings, regions: seq<RotatedRect>, cols: nat, rows: nat,
                                 cornersOf: RotatedRect -> seq<Point>)
    requires CornersWellFormed(cornersOf)
    requires !s.detectorActive
    requires IsCapOf(FrameInput(detected, s), s.maxRectNum, regions)
    ensures regions == [NoDetectorRegion] || (regions == [] && s.maxRectNum == 0)
    ensures forall j :: 0 <= j < |regions| ==> !PlanRegion(regions[j], s, cols, rows, cornersOf).crop.Rectified?
  {
  }

  /**
   * What a completed frame reports: one kept string per region, non-empty only
   * when the decoder's confidence reached the threshold; the found count (all
   * regions without a recognizer, else the regions with a non-empty string);
   * and in report mode one report line per region, in region order.
   */
  lemma FrameCompleted(regions: seq<RotatedRect>, s: Settings, alphabet: string, cols: nat, rows: nat,
                       cornersOf: RotatedRect -> seq<Point>, recognize: Crop -> RecognizerOutput)
    requires CornersWellFormed(cornersOf)
    requires FrameReport(regions, s, alphabet, cols, rows, cornersOf, recognize).Completed?
    ensures var o := FrameReport(regions, s, alphabet, cols, rows, cornersOf, recognize);
      var plans := Plans(regions, s, cols, rows, cornersOf);
      && |o.texts| == |regions|
      && (forall j :: 0 <= j < |regions| ==>
            var d := recognize(plans[j].crop).decoded;
            o.texts[j] == (if s.recognizerActive && d.conf >= s.minConfidence then d.text else ""))
      && 0 <= o.numFound <= |regions|
      && o.numFound == (if s.recognizerActive then CountFound(DecoderOutputs(plans, recognize), s.minConfidence) else |regions|)
      && |o.lines| == (if s.reportMode then |regions| else 0)
      && (forall j :: 0 <= j < |o.lines| ==>
            o.lines[j] == ReportLine(plans[j].points, cols, rows, if s.recognizerActive then Some(o.texts[j]) else None))
  {
    var plans := Plans(regions, s, cols, rows, cornersOf);
    var start := FoundStart(regions, s);
    RunCompletedTexts(plans, start, s, alphabet, cols, rows, recognize);
    RunCompletedLines(plans, start, s, alphabet, cols, rows, recognize);
    RunCountsFound(plans, start, s, alphabet, cols, rows, recognize);
  }

  /**
   * A frame aborts exactly when some region is given the centre-crop window and
   * that window is taller than the image, or a recognizer is configured and
   * some region's output width differs from the alphabet length.
   */
  lemma FrameAbortsIffFault(regions: seq<RotatedRect>, s: Settings, alphabet: string, cols: nat, rows: nat,
                            cornersOf: RotatedRect -> seq<Point>, recognize: Crop -> RecognizerOutput)
    requires CornersWellFormed(cornersOf)
    ensures var o := FrameReport(regions, s, alphabet, cols, rows, cornersOf, recognize);
      var plans := Plans(regions, s, cols, rows, cornersOf);
      o.Aborted? <==>
        (exists j :: 0 <= j < |regions| &&
          ((plans[j].crop.CentreCrop? && CentreCropRect(cols, rows).height > rows)
           || (s.recognizerActive && recognize(plans[j].crop).width != |alphabet|)))
  {
    var plans := Plans(regions, s, cols, rows, cornersOf);
    RunAbortsIffRegionFails(plans, FoundStart(regions, s), s, alphabet, cols, rows, recognize);
    assert forall j :: 0 <= j < |plans| ==> plans[j] == PlanRegion(regions[j], s, cols, rows, cornersOf);
  }
}
