/**
 * `WatermarkRemover.detect_watermark`: pick `num_frames` evenly spaced frames, hand them to the
 * (foreign) temporal-variance and contour analysis, and keep the resulting bounding box only if
 * each side lies between 1% and 30% of the shorter frame dimension.
 */
module RegionDetector {
  import opened Wrappers
  import opened Imaging
  import opened Arith

  /** `num_frames` after it is lowered to the number of frames available. */
  function AnalysedCount(available: nat, numFrames: int): int
  {
    if available < numFrames then available else numFrames
  }

  /** Frame `i` of `n` sampled at stride `len / n` lies inside a list of length `len`. */
  lemma {:induction false} StrideInRange(len: nat, n: nat, i: nat)
    requires 0 < n <= len && i < n
    ensures i * (len / n) < len
  {
    var q := len / n;
    DivBounds(len, n);
    MulMonotone(q, i, n - 1);
    assert q * (n - 1) + q == q * n;
    assert q * n == n * q;
  }

  /** `[frames[i * step] for i in range(n)]` with `step = len(frames) // n`. */
  function StrideSamples(frames: seq<Frame>, n: nat): (s: seq<Frame>)
    requires 0 < n <= |frames|
    ensures |s| == n
    ensures forall i :: 0 <= i < n ==> i * (|frames| / n) < |frames| && s[i] == frames[i * (|frames| / n)]
    ensures s[0] == frames[0]
  {
    StrideAllInRange(|frames|, n);
    assert 0 * (|frames| / n) == 0;
    seq(n, i requires 0 <= i < n => frames[i * (|frames| / n)])
  }

  /** Every one of the `n` stride positions lies inside a list of length `len`. */
  lemma StrideAllInRange(len: nat, n: nat)
    requires 0 < n <= len
    ensures forall i :: 0 <= i < n ==> i * (len / n) < len
  {
    forall i | 0 <= i < n
      ensures i * (len / n) < len
    {
      StrideInRange(len, n, i);
    }
  }

  /** `w < min_size` with `min_size = m * 0.01`. */
  predicate BelowOnePercent(v: int, m: nat)
  {
    100 * v < m
  }

  /** `w > max_size` with `max_size = m * 0.3`. */
  predicate AboveThirtyPercent(v: int, m: nat)
  {
    10 * v > 3 * m
  }

  /**
   * The size gate: both sides of the box within [1%, 30%] of `m`, the shorter side of the frame;
   * a side exactly at either bound passes.
   */
  predicate SizeAccepted(box: Region, m: nat)
    ensures SizeAccepted(box, m) <==>
              m as real * 0.01 <= box.w as real <= m as real * 0.3 &&
              m as real * 0.01 <= box.h as real <= m as real * 0.3
  {
    !(BelowOnePercent(box.w, m) || BelowOnePercent(box.h, m) ||
      AboveThirtyPercent(box.w, m) || AboveThirtyPercent(box.h, m))
  }

  /** `min(frame_width, frame_height)` of a frame. */
  function ShorterSide(f: Frame): nat
  {
    if |f| < Width(f) then |f| else Width(f)
  }

  /**
   * `detect_watermark(frames, num_frames)`. Raises ZeroDivisionError when no frame can be
   * analysed (`len(frames) // 0`) and ValueError (`np.stack([])`) for a negative count.
   */
  function DetectWatermark(frames: seq<Frame>, numFrames: int, analyse: seq<Frame> -> Option<Region>)
    : (r: Result<Option<Region>, PyError>)
    ensures r == Err(ZeroDivisionError) <==> AnalysedCount(|frames|, numFrames) == 0
    ensures r == Err(ValueError) <==> AnalysedCount(|frames|, numFrames) < 0
    ensures r.Ok? ==> 0 < AnalysedCount(|frames|, numFrames) <= |frames|
    ensures r.Ok? ==>
              var samples := StrideSamples(frames, AnalysedCount(|frames|, numFrames));
              (r.value.Some? <==>
                 analyse(samples).Some? && SizeAccepted(analyse(samples).value, ShorterSide(frames[0])))
              && (r.value.Some? ==> r.value == analyse(samples))
    ensures r.Ok? && r.value.Some? ==>
              var m := ShorterSide(frames[0]);
              m <= 100 * r.value.value.w && 10 * r.value.value.w <= 3 * m &&
              m <= 100 * r.value.value.h && 10 * r.value.value.h <= 3 * m
  {
    var n := AnalysedCount(|frames|, numFrames);
    if n == 0 then Err(ZeroDivisionError)
    else if n < 0 then Err(ValueError)
    else
      var samples := StrideSamples(frames, n);
      match analyse(samples)
      case None => Ok(None)
      case Some(box) =>
        // `gray_frames[0].shape` is the shape of the first sample, which is `frames[0]`
        if SizeAccepted(box, ShorterSide(samples[0])) then Ok(Some(box)) else Ok(None)
  }

  /**
   * With the default of ten, the analysis sees `min(10, len(frames))` frames, each at an index
   * inside the list, and the detector raises only when there are no frames at all.
   */
  lemma DefaultSampling(frames: seq<Frame>, i: nat)
    requires |frames| > 0 && i < AnalysedCount(|frames|, 10)
    ensures AnalysedCount(|frames|, 10) == if |frames| < 10 then |frames| else 10
    ensures forall analyse :: DetectWatermark(frames, 10, analyse).Ok?
    ensures i * (|frames| / AnalysedCount(|frames|, 10)) < |frames|
  {
    StrideInRange(|frames|, AnalysedCount(|frames|, 10), i);
  }

  /**
   * A box spanning a whole non-empty frame (what a static scene yields) fails the 30% gate,
   * so detection reports nothing and the caller falls back to the default region.
   */
  lemma WholeFrameRejected(frames: seq<Frame>, analyse: seq<Frame> -> Option<Region>)
    requires |frames| > 0 && Rectangular(frames[0]) && |frames[0]| > 0 && Width(frames[0]) > 0
    requires forall s :: analyse(s) == Some(Region(0, 0, Width(frames[0]), |frames[0]|))
    ensures DetectWatermark(frames, 10, analyse) == Ok(None)
  {
    var box := Region(0, 0, Width(frames[0]), |frames[0]|);
    var m := ShorterSide(frames[0]);
    assert AboveThirtyPercent(box.w, m) || AboveThirtyPercent(box.h, m);
  }
}
