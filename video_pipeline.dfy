/**
 * `WatermarkRemover.process_video`: open the video, sample frames for detection when no region
 * is given, build the mask, restore and write every decoded frame, and report progress.
 *
 * OpenCV's `VideoCapture` is the class `Capture`: its header metadata (`CAP_PROP_FRAME_COUNT`,
 * width, height) and the frames it can actually decode are independent inputs, and
 * `set(CAP_PROP_POS_FRAMES, i)` / `read()` move a cursor over the decodable frames.
 * `VideoWriter` is the class `Writer`, which records the frames written to it.
 */
module VideoPipeline {
  import opened Wrappers
  import opened Arith
  import opened Imaging
  import opened MaskBuilder
  import opened RegionDetector
  import opened Restoration

  /** An opened (or unopenable) video file with a read cursor. */
  class Capture {
    const isOpen: bool
    const width: nat
    const height: nat
    /** The frame count the container header reports; it may disagree with `frames`. */
    const frameCount: int
    /** The frames `read()` can decode, in order. */
    const frames: seq<Frame>
    var pos: nat

    /** Every decodable frame has the dimensions the header reports. */
    predicate Valid()
    {
      forall k :: 0 <= k < |frames| ==> IsFrame(frames[k], height, width)
    }

    constructor(isOpen: bool, width: nat, height: nat, frameCount: int, frames: seq<Frame>)
      ensures this.isOpen == isOpen && this.width == width && this.height == height
      ensures this.frameCount == frameCount && this.frames == frames
      ensures pos == 0
    {
      this.isOpen := isOpen;
      this.width := width;
      this.height := height;
      this.frameCount := frameCount;
      this.frames := frames;
      pos := 0;
    }

    /** `set(cv2.CAP_PROP_POS_FRAMES, p)`. */
    method Seek(p: nat)
      modifies this
      ensures pos == p
    {
      pos := p;
    }

    /** `read()`: the frame under the cursor and advance, or `(False, None)` past the end. */
    method Read() returns (ok: bool, frame: Frame)
      modifies this
      ensures ok <==> old(pos) < |frames|
      ensures ok ==> frame == frames[old(pos)] && pos == old(pos) + 1
      ensures !ok ==> pos == old(pos)
    {
      if pos < |frames| {
        ok, frame := true, frames[pos];
        pos := pos + 1;
      } else {
        ok, frame := false, [];
      }
    }
  }

  /** An output video: the frames written so far. */
  class Writer {
    const width: nat
    const height: nat
    var written: seq<Frame>

    constructor(width: nat, height: nat)
      ensures this.width == width && this.height == height && written == []
    {
      this.width := width;
      this.height := height;
      written := [];
    }

    /** `write(frame)`. */
    method Write(frame: Frame)
      modifies this
      ensures written == old(written) + [frame]
    {
      written := written + [frame];
    }
  }

  // ---------------------------------------------------------------- detection samples

  /** `max(1, frame_count // min(30, frame_count))`, the stride of the detection samples. */
  function SampleStep(frameCount: int): (step: nat)
    requires frameCount != 0
    ensures step >= 1
  {
    var maxSamples := Min(30, frameCount);
    var q := FloorDiv(frameCount, maxSamples);
    if q < 1 then 1 else q
  }

  /**
   * How many frames the sampling loop collects: the reads at `0, step, 2*step, ...` below the
   * header's frame count that succeed, stopping once `min(30, frame_count)` frames are in hand.
   */
  function SampleCount(frameCount: int, available: nat): (c: nat)
    requires frameCount != 0
    ensures c <= 30 && c <= available
    ensures frameCount < 0 ==> c == 0
    ensures frameCount > 0 ==> c <= frameCount
  {
    if frameCount < 0 then 0
    else
      var reachable := Min(frameCount, available);
      CeilDivIff(reachable, SampleStep(frameCount), reachable);
      MulMonotone(reachable, 1, SampleStep(frameCount));
      Min(Min(30, frameCount), CeilDiv(reachable, SampleStep(frameCount)))
  }

  /** The frame position of the `k`-th sampling read. */
  function SampleIndex(frameCount: int, k: nat): nat
    requires frameCount != 0
  {
    k * SampleStep(frameCount)
  }

  /** Every read that contributes a sample is inside the decodable frames. */
  lemma SamplesInRange(frameCount: int, available: nat)
    requires frameCount != 0
    ensures forall k :: 0 <= k < SampleCount(frameCount, available) ==> SampleIndex(frameCount, k) < available
  {
    forall k | 0 <= k < SampleCount(frameCount, available)
      ensures SampleIndex(frameCount, k) < available
    {
      CeilDivIff(Min(frameCount, available), SampleStep(frameCount), k);
    }
  }

  /** The `sample_frames` list `process_video` hands to `detect_watermark`. */
  function SampledFrames(frames: seq<Frame>, frameCount: int): (s: seq<Frame>)
    requires frameCount != 0
    ensures |s| == SampleCount(frameCount, |frames|)
    ensures forall k :: 0 <= k < |s| ==>
              SampleIndex(frameCount, k) < |frames| && s[k] == frames[SampleIndex(frameCount, k)]
  {
    SamplesInRange(frameCount, |frames|);
    var count := SampleCount(frameCount, |frames|);
    seq(count, k requires 0 <= k < count => frames[SampleIndex(frameCount, k)])
  }

  /**
   * The sampling takes at most 30 frames, always starts with the first frame, takes none for a
   * negative frame count, and takes exactly `min(30, frame_count)` frames when the header does
   * not over-report the number of decodable frames.
   */
  lemma SamplingBounds(frames: seq<Frame>, frameCount: int)
    requires frameCount != 0
    ensures |SampledFrames(frames, frameCount)| <= 30
    ensures frameCount < 0 || |frames| == 0 ==> SampledFrames(frames, frameCount) == []
    ensures frameCount > 0 && |frames| > 0 ==> SampledFrames(frames, frameCount)[0] == frames[0]
    ensures frameCount > 0 && |frames| >= frameCount ==>
              |SampledFrames(frames, frameCount)| == Min(30, frameCount)
  {
    if frameCount > 0 {
      var step := SampleStep(frameCount);
      var maxSamples := Min(30, frameCount);
      CeilDivIff(Min(frameCount, |frames|), step, 0);
      if |frames| >= frameCount {
        MulMonotone(step, maxSamples - 1, maxSamples);
        assert (maxSamples - 1) * step < frameCount;
        CeilDivIff(frameCount, step, maxSamples - 1);
      }
    }
  }

  /** The read at position `SampleIndex(frameCount, j)` below the header count succeeds exactly for the first samples. */
  lemma SampleReadSucceeds(frameCount: int, available: nat, j: nat)
    requires frameCount > 0 && SampleIndex(frameCount, j) < frameCount
    ensures SampleIndex(frameCount, j) < available <==>
              j < CeilDiv(Min(frameCount, available), SampleStep(frameCount))
    ensures SampleIndex(frameCount, j + 1) == SampleIndex(frameCount, j) + SampleStep(frameCount)
  {
    CeilDivIff(Min(frameCount, available), SampleStep(frameCount), j);
  }

  /** Once the stride passes the header count, every successful read has been counted. */
  lemma SamplingExhausted(frameCount: int, available: nat, j: nat)
    requires frameCount > 0 && SampleIndex(frameCount, j) >= frameCount
    ensures CeilDiv(Min(frameCount, available), SampleStep(frameCount)) <= j
  {
    CeilDivIff(frameCount, SampleStep(frameCount), j);
    CeilDivMin(frameCount, available, SampleStep(frameCount));
  }

  /** The sampling loop of `process_video`, for a non-zero header frame count. */
  method CollectSamples(cap: Capture) returns (samples: seq<Frame>)
    requires cap.frameCount != 0
    modifies cap
    ensures samples == SampledFrames(cap.frames, cap.frameCount)
  {
    var frameCount := cap.frameCount;
    var maxSamples := Min(30, frameCount);
    var step := SampleStep(frameCount);
    ghost var reachable := if frameCount > 0 then CeilDiv(Min(frameCount, |cap.frames|), step) else 0;
    samples := [];
    var i := 0;
    ghost var j := 0;
    while i < frameCount
      invariant i == SampleIndex(frameCount, j)
      invariant |samples| == Min(j, reachable)
      invariant frameCount > 0 ==> |samples| < maxSamples
      invariant forall k :: 0 <= k < |samples| ==>
                  SampleIndex(frameCount, k) < |cap.frames| && samples[k] == cap.frames[SampleIndex(frameCount, k)]
      decreases frameCount - i
    {
      SampleReadSucceeds(frameCount, |cap.frames|, j);
      cap.Seek(i);
      var ok, frame := cap.Read();
      if ok {
        samples := samples + [frame];
      }
      if |samples| >= maxSamples {
        break;
      }
      i, j := i + step, j + 1;
    }
    if frameCount > 0 && |samples| < maxSamples {
      SamplingExhausted(frameCount, |cap.frames|, j);
    }
    ghost var spec := SampledFrames(cap.frames, frameCount);
    assert |samples| == |spec|;
    assert forall k :: 0 <= k < |samples| ==> samples[k] == spec[k];
  }

  /**
   * The region `process_video` masks: the given coordinates, otherwise the detected box, and
   * the bottom-right default when detection finds none. Detection raises `ZeroDivisionError`
   * when the header frame count is zero (`frame_count // max_samples`) or when no frame was sampled.
   */
  function ResolveRegion(frames: seq<Frame>, frameCount: int, width: nat, height: nat,
                         coords: Option<Region>, analyse: seq<Frame> -> Option<Region>)
    : (r: Result<Region, PyError>)
    ensures coords.Some? ==> r == Ok(coords.value)
    ensures coords.None? && frameCount == 0 ==> r == Err(ZeroDivisionError)
    ensures r.Err? ==> coords.None?
  {
    match coords
    case Some(c) => Ok(c)
    case None =>
      if frameCount == 0 then Err(ZeroDivisionError)
      else
        match DetectWatermark(SampledFrames(frames, frameCount), 10, analyse)
        case Err(e) => Err(e)
        case Ok(None) => Ok(DefaultRegion(width, height))
        case Ok(Some(box)) => Ok(box)
  }

  /**
   * Without coordinates, processing fails before the first frame exactly when the header
   * reports no frames (or a negative count) or no frame can be decoded, and the failure is
   * always a `ZeroDivisionError`; otherwise the region is a detected box inside the size gate
   * or the default corner.
   */
  lemma ResolveRegionOutcome(frames: seq<Frame>, frameCount: int, width: nat, height: nat,
                             analyse: seq<Frame> -> Option<Region>)
    ensures var r := ResolveRegion(frames, frameCount, width, height, None, analyse);
            (r.Err? <==> frameCount <= 0 || |frames| == 0) &&
            (r.Err? ==> r.error == ZeroDivisionError) &&
            (r.Ok? ==> (r.value == DefaultRegion(width, height) ||
                        SizeAccepted(r.value, ShorterSide(frames[0]))))
  {
    if frameCount != 0 {
      SamplingBounds(frames, frameCount);
      var samples := SampledFrames(frames, frameCount);
      if frameCount > 0 && |frames| > 0 {
        assert |samples| > 0;
        assert samples[0] == frames[0];
      }
    }
  }

  // ---------------------------------------------------------------- progress

  /** `max(1, int(frame_count / 100))`: the progress callback fires every this many frames. */
  function ProgressInterval(frameCount: int): (i: nat)
    ensures i >= 1
    ensures frameCount >= 100 ==> 100 * i <= frameCount < 100 * i + 100
    ensures frameCount < 200 ==> i == 1
  {
    var t := TruncDiv(frameCount, 100);
    if t < 1 then 1 else t
  }

  /** `int((frame_number / frame_count) * 100)`: the percentage, truncated towards zero. */
  function Percent(frameNumber: nat, frameCount: int): (p: int)
    requires frameCount != 0
    ensures frameCount > 0 ==> 0 <= p * frameCount <= 100 * frameNumber < p * frameCount + frameCount
    ensures frameCount < 0 ==> p <= 0
  {
    if frameCount > 0 then TruncDiv(100 * frameNumber, frameCount)
    else -TruncDiv(100 * frameNumber, -frameCount)
  }

  /** One `callback(progress, remaining)` call, made after frame `afterFrame` was written. */
  datatype Report = Report(afterFrame: nat, percent: int)

  /** The callback calls made while writing the first `n` frames. */
  function ProgressReports(n: nat, frameCount: int): (r: seq<Report>)
    requires frameCount != 0
    ensures |r| <= n
    ensures forall i :: 0 <= i < |r| ==>
              0 < r[i].afterFrame <= n && r[i].afterFrame % ProgressInterval(frameCount) == 0 &&
              r[i].percent == Percent(r[i].afterFrame, frameCount)
    ensures forall i, j :: 0 <= i < j < |r| ==> r[i].afterFrame < r[j].afterFrame
  {
    if n == 0 then []
    else ProgressReports(n - 1, frameCount) +
         (if n % ProgressInterval(frameCount) == 0 then [Report(n, Percent(n, frameCount))] else [])
  }

  /**
   * The callback fires once per `ProgressInterval` frames: the `i`-th call comes after frame
   * `(i + 1) * interval`, with that frame's percentage.
   */
  lemma {:induction false} ProgressSchedule(n: nat, frameCount: int)
    requires frameCount != 0
    ensures |ProgressReports(n, frameCount)| == n / ProgressInterval(frameCount)
    ensures forall i :: 0 <= i < |ProgressReports(n, frameCount)| ==>
              var at := (i + 1) * ProgressInterval(frameCount);
              ProgressReports(n, frameCount)[i] == Report(at, Percent(at, frameCount))
  {
    if n > 0 {
      var d := ProgressInterval(frameCount);
      ProgressSchedule(n - 1, frameCount);
      DivStep(n, d);
      if n % d == 0 {
        assert ((n - 1) / d + 1) * d == n;
      }
    }
  }

  /** For a positive frame count the percentage never decreases as frames are written. */
  lemma PercentMonotone(a: nat, b: nat, frameCount: int)
    requires frameCount > 0 && a <= b
    ensures Percent(a, frameCount) <= Percent(b, frameCount)
  {
    DivMonotone(100 * a, 100 * b, frameCount);
  }

  /** While the header count is not exceeded the percentage lies in [0, 100]; the last frame gives 100. */
  lemma PercentBounded(n: nat, frameCount: int)
    requires frameCount > 0 && n <= frameCount
    ensures 0 <= Percent(n, frameCount) <= 100
    ensures n == frameCount ==> Percent(n, frameCount) == 100
  {
    PercentMonotone(n, frameCount, frameCount);
    DivUnique(100 * frameCount, frameCount, 100, 0);
  }

  /**
   * When the header count is accurate, a 100% report is made exactly when the interval divides
   * the frame count.
   */
  lemma FinalReport(frameCount: int)
    requires frameCount > 0
    ensures var reports := ProgressReports(frameCount, frameCount);
            |reports| > 0 &&
            (reports[|reports| - 1].percent == 100 <==> frameCount % ProgressInterval(frameCount) == 0)
  {
    var d := ProgressInterval(frameCount);
    ProgressSchedule(frameCount, frameCount);
    var reports := ProgressReports(frameCount, frameCount);
    DivBounds(frameCount, d);
    var m := frameCount / d;
    assert m >= 1;
    var last := m * d;
    assert reports[m - 1] == Report(last, Percent(last, frameCount));
    PercentBounded(last, frameCount);
    if frameCount % d == 0 {
      DivUnique(frameCount, d, m, 0);
    } else {
      assert last < frameCount;
      assert Percent(last, frameCount) < 100;
    }
  }

  /** With 201 frames the callback fires every 2 frames and the hundredth, last call reports 99%. */
  lemma FinalReportMissed()
    ensures ProgressInterval(201) == 2
    ensures |ProgressReports(201, 201)| == 100 && ProgressReports(201, 201)[99] == Report(200, 99)
  {
    assert ProgressInterval(201) == 2;
    ProgressSchedule(201, 201);
    var reports := ProgressReports(201, 201);
    assert |reports| == 100;
    DivUnique(20000, 201, 99, 101);
    assert reports[99] == Report(200, Percent(200, 201));
  }

  /**
   * A header that under-reports the frame count drives the percentage past 100: one frame
   * announced, two decoded.
   */
  lemma ProgressOvershoot()
    ensures ProgressReports(2, 1) == [Report(1, 100), Report(2, 200)]
  {
    assert ProgressInterval(1) == 1;
    assert ProgressReports(1, 1) == [Report(1, 100)];
  }

  // ---------------------------------------------------------------- the frame loop

  /**
   * Every frame of a video, restored under strategy `s` with the mask `mask`. A frame whose shape
   * does not match the mask is passed through; the frames of a valid capture always match.
   */
  ghost function ProcessedFrames(s: Strategy, frames: seq<Frame>, mask: Plane, lib: Library): (out: seq<Frame>)
    requires PreservesShape(lib)
    ensures |out| == |frames|
    ensures forall k :: 0 <= k < |frames| && Fits(frames[k], mask) ==> out[k] == Restore(s, frames[k], mask, lib)
    ensures forall k, h, w :: 0 <= k < |frames| && IsFrame(frames[k], h, w) ==> IsFrame(out[k], h, w)
  {
    seq(|frames|, k requires 0 <= k < |frames| =>
      if Fits(frames[k], mask) then Restore(s, frames[k], mask, lib) else frames[k])
  }

  /** Processing one more frame appends its restoration. */
  lemma ProcessedFramesStep(s: Strategy, frames: seq<Frame>, n: nat, mask: Plane, lib: Library)
    requires n < |frames| && Fits(frames[n], mask) && PreservesShape(lib)
    ensures ProcessedFrames(s, frames[..n + 1], mask, lib) ==
              ProcessedFrames(s, frames[..n], mask, lib) + [Restore(s, frames[n], mask, lib)]
  {
    var next := ProcessedFrames(s, frames[..n + 1], mask, lib);
    var prev := ProcessedFrames(s, frames[..n], mask, lib);
    assert forall i :: 0 <= i < n ==> next[i] == prev[i];
    Snoc(next, prev, Restore(s, frames[n], mask, lib));
  }

  /** A sequence that agrees with `b` and then ends in `x` is `b + [x]`. */
  lemma Snoc<T>(a: seq<T>, b: seq<T>, x: T)
    requires |a| == |b| + 1 && a[|b|] == x
    requires forall i :: 0 <= i < |b| ==> a[i] == b[i]
    ensures a == b + [x]
  {
  }

  lemma PrefixFull<T>(s: seq<T>)
    ensures s[..|s|] == s
  {
  }

  /** The frame and the mask have the shapes the restoration strategies expect. */
  predicate Fits(f: Frame, mask: Plane)
  {
    Rectangular(f) && IsPlane(mask, |f|, Width(f))
  }

  lemma FitsFromDims(f: Frame, mask: Plane, height: nat, width: nat)
    requires IsFrame(f, height, width) && IsPlane(mask, height, width)
    ensures Fits(f, mask)
    ensures height > 0 ==> Width(f) == width
  {
  }

  lemma AllFit(frames: seq<Frame>, mask: Plane, height: nat, width: nat)
    requires forall k :: 0 <= k < |frames| ==> IsFrame(frames[k], height, width)
    requires IsPlane(mask, height, width)
    ensures forall k :: 0 <= k < |frames| ==> Fits(frames[k], mask) && (height > 0 ==> Width(frames[k]) == width)
  {
    forall k | 0 <= k < |frames|
      ensures Fits(frames[k], mask) && (height > 0 ==> Width(frames[k]) == width)
    {
      FitsFromDims(frames[k], mask, height, width);
    }
  }

  /**
   * With blend or exemplar and the default region, each output frame equals its input frame at
   * every pixel outside the bottom-right `width/5` x `height/10` block.
   */
  lemma DefaultRegionKeepsOutside(s: Strategy, frames: seq<Frame>, lib: Library, height: nat, width: nat,
                                  k: nat, r: nat, c: nat)
    requires s == Blend || s == Exemplar
    requires forall i :: 0 <= i < |frames| ==> IsFrame(frames[i], height, width)
    requires PreservesShape(lib)
    requires k < |frames| && r < height && c < width
    requires r < height - height / 10 || c < width - width / 5
    ensures ProcessedFrames(s, frames, MaskPlane(height, width, DefaultRegion(width, height)), lib)[k][r][c]
            == frames[k][r][c]
  {
    var mask := MaskPlane(height, width, DefaultRegion(width, height));
    DefaultMaskCorner(width, height, r, c);
    MaskCellIff(height, width, DefaultRegion(width, height), r, c);
    FitsFromDims(frames[k], mask, height, width);
    assert mask[r][c] == 0;
  }

  /** What `process_video` ends with: a returned `(success, message)` pair or a raised exception. */
  datatype Outcome = Returned(success: bool, message: string) | Raised(error: PyError)

  const OpenFailed := "Error: Could not open video file"
  const Completed := "Watermark removal completed successfully"

  /**
   * `process_video(input_path, output_path, method, watermark_coords, callback)`.
   * `hasCallback` says whether a callback was passed; `reports` are the calls made to it.
   */
  method ProcessVideo(cap: Capture, methodName: string, coords: Option<Region>, hasCallback: bool, lib: Library)
    returns (outcome: Outcome, out: Writer?, reports: seq<Report>)
    requires cap.Valid() && cap.pos == 0 && PreservesShape(lib)
    modifies cap
    ensures !cap.isOpen ==> outcome == Returned(false, OpenFailed) && out == null && reports == []
    ensures cap.isOpen ==> out != null && fresh(out) && out.width == cap.width && out.height == cap.height
    ensures cap.isOpen ==>
              var region := ResolveRegion(cap.frames, cap.frameCount, cap.width, cap.height, coords, lib.analyse);
              region.Err? ==> outcome == Raised(region.error) && out.written == [] && reports == []
    ensures cap.isOpen ==>
              var region := ResolveRegion(cap.frames, cap.frameCount, cap.width, cap.height, coords, lib.analyse);
              region.Ok? ==>
                var all := ProcessedFrames(SelectStrategy(EffectiveMethod(methodName)), cap.frames,
                                           MaskPlane(cap.height, cap.width, region.value), lib);
                if hasCallback && cap.frameCount == 0 && |cap.frames| > 0 then
                  outcome == Raised(ZeroDivisionError) && out.written == all[..1] && reports == []
                else
                  outcome == Returned(true, Completed) && out.written == all &&
                  reports == if hasCallback && cap.frameCount != 0 then ProgressReports(|cap.frames|, cap.frameCount) else []
  {
    if !cap.isOpen {
      return Returned(false, OpenFailed), null, [];
    }
    var width, height, frameCount := cap.width, cap.height, cap.frameCount;
    out := new Writer(width, height);
    reports := [];
    var name := methodName;
    if name == "auto" {
      name := "inpaint";
    }
    var region: Region;
    match coords {
      case Some(c) =>
        region := c;
      case None =>
        if frameCount == 0 {
          // `frame_count // max_samples` with `max_samples == 0`
          return Raised(ZeroDivisionError), out, reports;
        }
        var samples := CollectSamples(cap);
        var detected := DetectWatermark(samples, 10, lib.analyse);
        cap.Seek(0);
        match detected {
          case Err(e) =>
            return Raised(e), out, reports;
          case Ok(None) =>
            region := DefaultRegion(width, height);
          case Ok(Some(box)) =>
            region := box;
        }
    }
    assert ResolveRegion(cap.frames, frameCount, width, height, coords, lib.analyse) == Ok(region);
    var maskArray := BuildMask(height, width, region);
    var mask := PlaneOf(maskArray);
    var raised;
    raised, reports := WriteFrames(cap, out, name, mask, lib, hasCallback);
    if raised {
      // `frame_number / frame_count` with a zero frame count
      return Raised(ZeroDivisionError), out, reports;
    }
    outcome := Returned(true, Completed);
  }

  /**
   * One pass of the frame loop: read the next frame, restore it with the chosen strategy and
   * write it, or report that the input is exhausted.
   */
  method ProcessNextFrame(cap: Capture, out: Writer, name: string, mask: Plane, lib: Library) returns (ok: bool)
    requires cap.Valid() && cap.pos <= |cap.frames|
    requires IsPlane(mask, cap.height, cap.width) && PreservesShape(lib)
    requires out.written == ProcessedFrames(SelectStrategy(name), cap.frames[..cap.pos], mask, lib)
    modifies cap, out
    ensures ok <==> old(cap.pos) < |cap.frames|
    ensures cap.pos == if ok then old(cap.pos) + 1 else old(cap.pos)
    ensures out.written == ProcessedFrames(SelectStrategy(name), cap.frames[..cap.pos], mask, lib)
  {
    var frameNumber := cap.pos;
    var frame;
    ok, frame := cap.Read();
    if ok {
      FitsFromDims(frame, mask, cap.height, cap.width);
      var processed := RestoreFrame(name, frame, mask, lib);
      ProcessedFramesStep(SelectStrategy(name), cap.frames, frameNumber, mask, lib);
      out.Write(processed);
    }
  }

  /**
   * The frame loop of `process_video`: read until `read()` fails, restore and write each frame,
   * and call back every `ProgressInterval` frames. `raised` is the `ZeroDivisionError` of the
   * percentage when the header reports no frames.
   */
  method WriteFrames(cap: Capture, out: Writer, name: string, mask: Plane, lib: Library, hasCallback: bool)
    returns (raised: bool, reports: seq<Report>)
    requires cap.Valid() && cap.pos == 0 && out.written == []
    requires IsPlane(mask, cap.height, cap.width) && PreservesShape(lib)
    modifies cap, out
    ensures (raised <==> hasCallback && cap.frameCount == 0 && |cap.frames| > 0)
    ensures raised ==>
              reports == [] &&
              out.written == ProcessedFrames(SelectStrategy(name), cap.frames[..1], mask, lib)
    ensures !raised ==>
              out.written == ProcessedFrames(SelectStrategy(name), cap.frames, mask, lib) &&
              reports == if hasCallback && cap.frameCount != 0 then ProgressReports(|cap.frames|, cap.frameCount) else []
  {
    var frameCount := cap.frameCount;
    ghost var s := SelectStrategy(name);
    reports := [];
    var frameNumber := 0;
    while true
      invariant frameNumber == cap.pos <= |cap.frames|
      invariant out.written == ProcessedFrames(s, cap.frames[..frameNumber], mask, lib)
      invariant reports == if hasCallback && frameCount != 0 then ProgressReports(frameNumber, frameCount) else []
      invariant hasCallback && frameCount == 0 ==> frameNumber == 0
      decreases |cap.frames| - cap.pos
    {
      var ok := ProcessNextFrame(cap, out, name, mask, lib);
      if !ok {
        break;
      }
      frameNumber := frameNumber + 1;
      if hasCallback && frameNumber % ProgressInterval(frameCount) == 0 {
        if frameCount == 0 {
          return true, reports;
        }
        reports := reports + [Report(frameNumber, Percent(frameNumber, frameCount))];
      }
    }
    PrefixFull(cap.frames);
    raised := false;
  }
}
