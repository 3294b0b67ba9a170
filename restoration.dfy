/**
 * The restoration strategies of `WatermarkRemover` and the dispatch that picks one of them.
 * Inpaint and the frequency filter are foreign and left uninterpreted; Blend and Exemplar are
 * per-pixel selections between the original frame and a filtered copy.
 */
module Restoration {
  import opened Imaging
  import opened Arith

  datatype Strategy = Inpaint | Blend | Frequency | Exemplar

  /** `process_video` rewrites the method name `'auto'` to `'inpaint'` before the loop. */
  function EffectiveMethod(name: string): (m: string)
    ensures m != "auto"
    ensures name != "auto" ==> m == name
  {
    if name == "auto" then "inpaint" else name
  }

  /** The per-frame `if/elif` chain on the method name; anything unrecognised runs inpaint. */
  function SelectStrategy(name: string): (s: Strategy)
    ensures s == Blend <==> name == "blend"
    ensures s == Frequency <==> name == "frequency"
    ensures s == Exemplar <==> name == "exemplar"
  {
    if name == "inpaint" then Inpaint
    else if name == "blend" then Blend
    else if name == "frequency" then Frequency
    else if name == "exemplar" then Exemplar
    else Inpaint
  }

  /** `'auto'` and every name outside the four known ones end up as inpaint. */
  lemma AutoAndUnknownRunInpaint(name: string)
    ensures SelectStrategy(EffectiveMethod(name)) == Inpaint <==>
              name !in {"blend", "frequency", "exemplar"}
    ensures SelectStrategy(EffectiveMethod("auto")) == Inpaint
  {
  }

  // ---------------------------------------------------------------- Blend

  /**
   * One channel of `(1 - m/255) * frame + (m/255) * blur`, cast back to 8 bits; exact for the
   * 0/255 masks the engine builds.
   */
  function BlendChannel(m: Byte, f: Byte, b: Byte): (v: Byte)
    ensures m == 0 ==> v == f
    ensures m == 255 ==> v == b
    ensures v <= if f < b then b else f
    ensures (if f < b then f else b) <= v
  {
    var lo := if f < b then f else b;
    var hi := if f < b then b else f;
    var sum := (255 - m) * f + m * b;
    MulMonotone(255 - m, f, hi);
    MulMonotone(m, b, hi);
    MulMonotone(255 - m, lo, f);
    MulMonotone(m, lo, b);
    assert 255 * lo <= sum <= 255 * hi;
    DivMonotone(255 * lo, sum, 255);
    DivMonotone(sum, 255 * hi, 255);
    sum / 255
  }

  /** `remove_watermark_blend`: blur the whole frame, then blend it in under the mask. */
  function RemoveWatermarkBlend(frame: Frame, mask: Plane, gaussianBlur: Frame -> Frame): (out: Frame)
    requires Rectangular(frame) && IsPlane(mask, |frame|, Width(frame))
    requires IsFrame(gaussianBlur(frame), |frame|, Width(frame))
    ensures IsFrame(out, |frame|, Width(frame))
    ensures forall r, c :: 0 <= r < |frame| && 0 <= c < Width(frame) && mask[r][c] == 0 ==>
              out[r][c] == frame[r][c]
    ensures forall r, c :: 0 <= r < |frame| && 0 <= c < Width(frame) && mask[r][c] == 255 ==>
              out[r][c] == gaussianBlur(frame)[r][c]
  {
    var blur := gaussianBlur(frame);
    seq(|frame|, r requires 0 <= r < |frame| =>
      seq(Width(frame), c requires 0 <= c < Width(frame) =>
        BlendPixel(mask[r][c], frame[r][c], blur[r][c])))
  }

  /** Blend applied to the three channels of one pixel. */
  function BlendPixel(m: Byte, f: Pixel, b: Pixel): (p: Pixel)
    ensures m == 0 ==> p == f
    ensures m == 255 ==> p == b
  {
    [BlendChannel(m, f[0], b[0]), BlendChannel(m, f[1], b[1]), BlendChannel(m, f[2], b[2])]
  }

  // ---------------------------------------------------------------- Exemplar

  /** `cv2.bitwise_not(mask) // 255`: 1 where the mask is 0, else 0. */
  function KeepPlane(mask: Plane): (keep: Plane)
    ensures |keep| == |mask|
    ensures forall r :: 0 <= r < |mask| ==> |keep[r]| == |mask[r]|
    ensures forall r, c :: 0 <= r < |mask| && 0 <= c < |mask[r]| ==>
              keep[r][c] == if mask[r][c] == 0 then 1 else 0
  {
    seq(|mask|, r requires 0 <= r < |mask| =>
      seq(|mask[r]|, c requires 0 <= c < |mask[r]| => (255 - mask[r][c]) / 255))
  }

  /** `channel * mask_inv + filled * (1 - mask_inv)` for one cell, with `keep` in {0, 1}. */
  function ExemplarCell(keep: Byte, orig: Byte, filled: Byte): (v: Byte)
    requires keep <= 1
    ensures keep == 1 ==> v == orig
    ensures keep == 0 ==> v == filled
  {
    orig * keep + filled * (1 - keep)
  }

  /** One channel of the exemplar result. */
  function CombineChannel(channel: Plane, filled: Plane, keep: Plane, h: nat, w: nat): (p: Plane)
    requires IsPlane(channel, h, w) && IsPlane(filled, h, w) && IsPlane(keep, h, w)
    requires forall r, c :: 0 <= r < h && 0 <= c < w ==> keep[r][c] <= 1
    ensures IsPlane(p, h, w)
    ensures forall r, c :: 0 <= r < h && 0 <= c < w ==>
              p[r][c] == ExemplarCell(keep[r][c], channel[r][c], filled[r][c])
  {
    seq(h, r requires 0 <= r < h =>
      seq(w, c requires 0 <= c < w => ExemplarCell(keep[r][c], channel[r][c], filled[r][c])))
  }

  /** The median filter keeps the shape of every colour channel of `frame`. */
  predicate MedianKeepsShape(frame: Frame, medianFilter: Plane -> Plane)
    requires Rectangular(frame)
  {
    forall k :: 0 <= k < 3 ==> IsPlane(medianFilter(Channel(frame, k)), |frame|, Width(frame))
  }

  /**
   * What `remove_watermark_exemplar` returns: outside the mask the original pixel, inside it
   * the median-filtered value of each channel.
   */
  function ExemplarFrame(frame: Frame, mask: Plane, medianFilter: Plane -> Plane): (out: Frame)
    requires Rectangular(frame) && IsPlane(mask, |frame|, Width(frame))
    requires MedianKeepsShape(frame, medianFilter)
    ensures IsFrame(out, |frame|, Width(frame))
    ensures forall r, c :: 0 <= r < |frame| && 0 <= c < Width(frame) && mask[r][c] == 0 ==>
              out[r][c] == frame[r][c]
    ensures forall r, c, k :: 0 <= r < |frame| && 0 <= c < Width(frame) && 0 <= k < 3 && mask[r][c] != 0 ==>
              out[r][c][k] == medianFilter(Channel(frame, k))[r][c]
  {
    var h, w := |frame|, Width(frame);
    var f0, f1, f2 := medianFilter(Channel(frame, 0)), medianFilter(Channel(frame, 1)),
                      medianFilter(Channel(frame, 2));
    assert IsPlane(f0, h, w) && IsPlane(f1, h, w) && IsPlane(f2, h, w);
    seq(h, r requires 0 <= r < h => ExemplarRow(mask[r], frame[r], f0[r], f1[r], f2[r]))
  }

  /** One row of the exemplar result. */
  function ExemplarRow(mask: seq<Byte>, row: seq<Pixel>, f0: seq<Byte>, f1: seq<Byte>, f2: seq<Byte>): (out: seq<Pixel>)
    requires |mask| == |row| == |f0| == |f1| == |f2|
    ensures |out| == |row|
    ensures forall c :: 0 <= c < |row| ==> |out[c]| == 3
    ensures forall c :: 0 <= c < |row| && mask[c] == 0 ==> out[c] == row[c]
    ensures forall c :: 0 <= c < |row| && mask[c] != 0 ==> out[c] == [f0[c], f1[c], f2[c]]
  {
    seq(|row|, c requires 0 <= c < |row| =>
      ExemplarPixel((255 - mask[c]) / 255, row[c], f0[c], f1[c], f2[c]))
  }

  /** The exemplar combination of one pixel from its three filtered channel values. */
  function ExemplarPixel(keep: Byte, orig: Pixel, f0: Byte, f1: Byte, f2: Byte): (p: Pixel)
    requires keep <= 1
    ensures keep == 1 ==> p == orig
    ensures keep == 0 ==> p == [f0, f1, f2]
  {
    [ExemplarCell(keep, orig[0], f0), ExemplarCell(keep, orig[1], f1), ExemplarCell(keep, orig[2], f2)]
  }

  /** `result[:, :, k] = plane` on a frame value. */
  function SetChannel(f: Frame, k: nat, plane: Plane, h: nat, w: nat): (g: Frame)
    requires IsFrame(f, h, w) && IsPlane(plane, h, w) && k < 3
    ensures IsFrame(g, h, w)
    ensures forall r, c, j :: 0 <= r < h && 0 <= c < w && 0 <= j < 3 ==>
              g[r][c][j] == if j == k then plane[r][c] else f[r][c][j]
  {
    seq(h, r requires 0 <= r < h => seq(w, c requires 0 <= c < w => f[r][c][k := plane[r][c]]))
  }

  /** `np.zeros_like(frame)`. */
  function ZerosLike(h: nat, w: nat): (z: Frame)
    ensures IsFrame(z, h, w)
    ensures forall r, c, j :: 0 <= r < h && 0 <= c < w && 0 <= j < 3 ==> z[r][c][j] == 0
  {
    seq(h, r => seq(w, c => [0, 0, 0]))
  }

  /** `remove_watermark_exemplar`: fill the result channel by channel. */
  method RemoveWatermarkExemplar(frame: Frame, mask: Plane, medianFilter: Plane -> Plane) returns (result: Frame)
    requires Rectangular(frame) && IsPlane(mask, |frame|, Width(frame))
    requires MedianKeepsShape(frame, medianFilter)
    ensures result == ExemplarFrame(frame, mask, medianFilter)
  {
    var h, w := |frame|, Width(frame);
    var keep := KeepPlane(mask);
    result := ZerosLike(h, w);
    ghost var spec := ExemplarFrame(frame, mask, medianFilter);
    for k := 0 to 3
      invariant IsFrame(result, h, w)
      invariant forall r, c, j :: 0 <= r < h && 0 <= c < w && 0 <= j < 3 ==>
                  result[r][c][j] == if j < k then spec[r][c][j] else 0
    {
      var channel := Channel(frame, k);
      var filled := medianFilter(channel);
      var combined := CombineChannel(channel, filled, keep, h, w);
      forall r, c | 0 <= r < h && 0 <= c < w
        ensures combined[r][c] == spec[r][c][k]
      {
        if mask[r][c] == 0 {
          assert spec[r][c] == frame[r][c];
        } else {
          assert spec[r][c][k] == filled[r][c];
        }
      }
      result := SetChannel(result, k, combined, h, w);
    }
    forall r | 0 <= r < h
      ensures result[r] == spec[r]
    {
      forall c | 0 <= c < w
        ensures result[r][c] == spec[r][c]
      {
        assert result[r][c][0] == spec[r][c][0];
        assert result[r][c][1] == spec[r][c][1];
        assert result[r][c][2] == spec[r][c][2];
      }
    }
  }

  // ---------------------------------------------------------------- dispatch

  /** The frame `process_video` writes for one decoded frame under strategy `s`. */
  function Restore(s: Strategy, frame: Frame, mask: Plane, lib: Library): (out: Frame)
    requires Rectangular(frame) && IsPlane(mask, |frame|, Width(frame)) && PreservesShape(lib)
    ensures IsFrame(out, |frame|, Width(frame))
    ensures s == Blend || s == Exemplar ==>
              forall r, c :: 0 <= r < |frame| && 0 <= c < Width(frame) && mask[r][c] == 0 ==>
                out[r][c] == frame[r][c]
  {
    match s
    case Inpaint => lib.inpaint(frame, mask)
    case Blend => RemoveWatermarkBlend(frame, mask, lib.gaussianBlur)
    case Frequency => lib.frequency(frame, mask)
    case Exemplar =>
      MedianShape(frame, lib);
      ExemplarFrame(frame, mask, lib.medianFilter)
  }

  /** A shape-preserving median filter keeps the shape of each channel of a rectangular frame. */
  lemma MedianShape(frame: Frame, lib: Library)
    requires Rectangular(frame) && PreservesShape(lib)
    ensures MedianKeepsShape(frame, lib.medianFilter)
  {
    forall k | 0 <= k < 3
      ensures IsPlane(lib.medianFilter(Channel(frame, k)), |frame|, Width(frame))
    {
      assert IsPlane(Channel(frame, k), |frame|, Width(frame));
    }
  }

  /** The per-frame `if/elif` chain of `process_video` on the (already `auto`-rewritten) method name. */
  method RestoreFrame(name: string, frame: Frame, mask: Plane, lib: Library) returns (processed: Frame)
    requires Rectangular(frame) && IsPlane(mask, |frame|, Width(frame)) && PreservesShape(lib)
    ensures processed == Restore(SelectStrategy(name), frame, mask, lib)
    ensures IsFrame(processed, |frame|, Width(frame))
  {
    if name == "inpaint" {
      processed := lib.inpaint(frame, mask);
    } else if name == "blend" {
      processed := RemoveWatermarkBlend(frame, mask, lib.gaussianBlur);
    } else if name == "frequency" {
      processed := lib.frequency(frame, mask);
    } else if name == "exemplar" {
      MedianShape(frame, lib);
      processed := RemoveWatermarkExemplar(frame, mask, lib.medianFilter);
    } else {
      processed := lib.inpaint(frame, mask);
    }
  }
}
