/**
 * Frames, masks and the image-library operations the watermark engine delegates to.
 * A frame is a height x width grid of 3-channel 8-bit pixels (OpenCV's BGR order); a plane is
 * a single-channel 8-bit grid (a mask, or one colour channel of a frame).
 */
module Imaging {
  import opened Wrappers

  type Byte = x: int | 0 <= x < 256

  /** One pixel: exactly three 8-bit channels. */
  type Pixel = p: seq<Byte> | |p| == 3 witness [0, 0, 0]

  type Frame = seq<seq<Pixel>>

  type Plane = seq<seq<Byte>>

  /** A rectangle `(x, y, w, h)` as the engine passes it around; the source checks no bounds. */
  datatype Region = Region(x: int, y: int, w: int, h: int)

  /** The Python exceptions the modelled code can raise. */
  datatype PyError =
    | ZeroDivisionError   // integer or float division by zero
    | ValueError          // numpy.stack of an empty list

  /** `f` has `h` rows of `w` pixels each. */
  predicate IsFrame(f: Frame, h: nat, w: nat)
  {
    |f| == h && forall r :: 0 <= r < h ==> |f[r]| == w
  }

  /** `p` has `h` rows of `w` cells each. */
  predicate IsPlane(p: Plane, h: nat, w: nat)
  {
    |p| == h && forall r :: 0 <= r < h ==> |p[r]| == w
  }

  /** The number of columns of a frame (that of its first row). */
  function Width(f: Frame): nat
  {
    if |f| == 0 then 0 else |f[0]|
  }

  /** Every row of `f` has the same length. */
  predicate Rectangular(f: Frame)
  {
    IsFrame(f, |f|, Width(f))
  }

  /** Colour channel `k` of a rectangular frame (numpy `frame[:, :, k]`). */
  function Channel(f: Frame, k: nat): (p: Plane)
    requires Rectangular(f) && k < 3
    ensures IsPlane(p, |f|, Width(f))
    ensures forall r, c :: 0 <= r < |f| && 0 <= c < Width(f) ==> p[r][c] == f[r][c][k]
  {
    seq(|f|, r requires 0 <= r < |f| => seq(Width(f), c requires 0 <= c < Width(f) => f[r][c][k]))
  }

  /** The cells of a two-dimensional array as a plane value. */
  function PlaneOf(m: array2<Byte>): (p: Plane)
    reads m
    ensures IsPlane(p, m.Length0, m.Length1)
    ensures forall r, c :: 0 <= r < m.Length0 && 0 <= c < m.Length1 ==> p[r][c] == m[r, c]
  {
    seq(m.Length0, r reads m requires 0 <= r < m.Length0 =>
      seq(m.Length1, c reads m requires 0 <= c < m.Length1 => m[r, c]))
  }

  /**
   * The foreign operations of OpenCV and SciPy, left uninterpreted:
   *  - inpaint: `cv2.inpaint(frame, mask, 3, cv2.INPAINT_TELEA)`
   *  - gaussianBlur: `cv2.GaussianBlur(frame, (25, 25), 0)`
   *  - frequency: the whole FFT-based `remove_watermark_frequency`
   *  - medianFilter: `ndimage.median_filter(channel, size=9)`
   *  - analyse: grayscale conversion, per-pixel standard deviation, the inverse binary threshold
   *    at 5, `findContours`, the largest contour by area and its `boundingRect`; `None` when
   *    there is no contour.
   */
  datatype Library = Library(
    inpaint: (Frame, Plane) -> Frame,
    gaussianBlur: Frame -> Frame,
    frequency: (Frame, Plane) -> Frame,
    medianFilter: Plane -> Plane,
    analyse: seq<Frame> -> Option<Region>)

  /** The library's filters return images of the dimensions they are given. */
  ghost predicate PreservesShape(lib: Library)
  {
    && (forall f, m {:trigger lib.inpaint(f, m)} :: Rectangular(f) ==> IsFrame(lib.inpaint(f, m), |f|, Width(f)))
    && (forall f {:trigger lib.gaussianBlur(f)} :: Rectangular(f) ==> IsFrame(lib.gaussianBlur(f), |f|, Width(f)))
    && (forall f, m {:trigger lib.frequency(f, m)} :: Rectangular(f) ==> IsFrame(lib.frequency(f, m), |f|, Width(f)))
    && (forall p: Plane, h: nat, w: nat {:trigger lib.medianFilter(p), IsPlane(p, h, w)} ::
          IsPlane(p, h, w) ==> IsPlane(lib.medianFilter(p), h, w))
  }
}
