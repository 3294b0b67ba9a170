/**
 * The watermark mask: a zero grid of the frame's size whose rectangle `mask[y:y+h, x:x+w]` is set
 * to 255 by slice assignment, with Python's slice clipping, and the default bottom-right region
 * used when detection finds nothing.
 */
module MaskBuilder {
  import opened Imaging
  import opened Arith

  const Inside: Byte := 255

  /** One bound of a Python slice on a sequence of length `n`: negative bounds count from the end, then clamp. */
  function SliceBound(i: int, n: nat): (r: nat)
    ensures r <= n
    ensures 0 <= i <= n ==> r == i
  {
    if i < 0 then (if i + n < 0 then 0 else i + n)
    else if i > n then n
    else i
  }

  /** Index `k` is selected by the slice `start:stop` of a length-`n` sequence. */
  predicate InSlice(k: int, start: int, stop: int, n: nat)
  {
    SliceBound(start, n) <= k < SliceBound(stop, n)
  }

  /** With a non-negative start the slice selects exactly the in-range indices between start and stop. */
  lemma SliceNonNegative(k: int, start: int, stop: int, n: nat)
    requires 0 <= start && 0 <= stop && 0 <= k < n
    ensures InSlice(k, start, stop, n) <==> start <= k < stop
  {
  }

  /** Cell `(r, c)` lies in both slices of `mask[y:y+h, x:x+w]`. */
  predicate Covered(height: nat, width: nat, reg: Region, r: int, c: int)
  {
    InSlice(r, reg.y, reg.y + reg.h, height) && InSlice(c, reg.x, reg.x + reg.w, width)
  }

  /** The mask `process_video` builds for region `reg` on a `height` x `width` frame. */
  function MaskPlane(height: nat, width: nat, reg: Region): (m: Plane)
    ensures IsPlane(m, height, width)
    ensures forall r, c :: 0 <= r < height && 0 <= c < width ==>
              m[r][c] == if Covered(height, width, reg, r, c) then Inside else 0
  {
    seq(height, r requires 0 <= r < height =>
      seq(width, c requires 0 <= c < width =>
        if Covered(height, width, reg, r, c) then Inside else 0))
  }

  /** For a region with a non-negative corner a cell is set exactly when it lies in the clipped rectangle. */
  lemma MaskCellIff(height: nat, width: nat, reg: Region, r: nat, c: nat)
    requires 0 <= reg.x && 0 <= reg.y && 0 <= reg.x + reg.w && 0 <= reg.y + reg.h
    requires r < height && c < width
    ensures MaskPlane(height, width, reg)[r][c] == Inside <==>
              reg.y <= r < reg.y + reg.h && reg.x <= c < reg.x + reg.w
    ensures MaskPlane(height, width, reg)[r][c] != Inside ==> MaskPlane(height, width, reg)[r][c] == 0
  {
    SliceNonNegative(r, reg.y, reg.y + reg.h, height);
    SliceNonNegative(c, reg.x, reg.x + reg.w, width);
  }

  /** `np.zeros((height, width))` followed by `mask[y:y+h, x:x+w] = 255`. */
  method BuildMask(height: nat, width: nat, reg: Region) returns (mask: array2<Byte>)
    ensures fresh(mask)
    ensures mask.Length0 == height && mask.Length1 == width
    ensures PlaneOf(mask) == MaskPlane(height, width, reg)
  {
    mask := new Byte[height, width]((_, _) => 0);
    var r0, r1 := SliceBound(reg.y, height), SliceBound(reg.y + reg.h, height);
    var c0, c1 := SliceBound(reg.x, width), SliceBound(reg.x + reg.w, width);
    var r := r0;
    while r < r1
      invariant r0 <= r <= height && r <= if r0 <= r1 then r1 else r0
      invariant forall i, j :: 0 <= i < height && 0 <= j < width ==>
                  mask[i, j] == if r0 <= i < r && c0 <= j < c1 then Inside else 0
    {
      var c := c0;
      while c < c1
        invariant c0 <= c <= width && c <= if c0 <= c1 then c1 else c0
        invariant forall i, j :: 0 <= i < height && 0 <= j < width ==>
                    mask[i, j] == if (r0 <= i < r && c0 <= j < c1) || (i == r && c0 <= j < c) then Inside else 0
      {
        mask[r, c] := Inside;
        c := c + 1;
      }
      r := r + 1;
    }
    ghost var spec := MaskPlane(height, width, reg);
    ghost var got := PlaneOf(mask);
    assert forall i, j :: 0 <= i < height && 0 <= j < width ==> got[i][j] == spec[i][j];
    assert forall i :: 0 <= i < height ==> got[i] == spec[i];
  }

  /** Number of cells equal to 255 in a row. */
  function RowCount(row: seq<Byte>): nat
  {
    if |row| == 0 then 0 else RowCount(row[..|row| - 1]) + (if row[|row| - 1] == Inside then 1 else 0)
  }

  /** Number of cells equal to 255 in a plane. */
  function CountSet(p: Plane): nat
  {
    if |p| == 0 then 0 else CountSet(p[..|p| - 1]) + RowCount(p[|p| - 1])
  }

  /** The number of indices of `[lo, hi)` below `k`, for `0 <= lo`. */
  function Overlap(k: nat, lo: nat, hi: nat): nat
  {
    if hi <= lo || k <= lo then 0 else if k >= hi then hi - lo else k - lo
  }

  /** A row of width `w` whose columns `[c0, c1)` are 255 when `on`, all 0 otherwise. */
  function BandRow(w: nat, c0: nat, c1: nat, on: bool): (row: seq<Byte>)
    ensures |row| == w
    ensures forall c :: 0 <= c < w ==> row[c] == if on && c0 <= c < c1 then Inside else 0
  {
    seq(w, c requires 0 <= c < w => if on && c0 <= c < c1 then Inside else 0)
  }

  /** A `k`-row plane whose band `[r0, r1) x [c0, c1)` is 255. */
  function Band(k: nat, w: nat, r0: nat, r1: nat, c0: nat, c1: nat): (b: Plane)
    ensures |b| == k
    ensures forall r :: 0 <= r < k ==> b[r] == BandRow(w, c0, c1, r0 <= r < r1)
  {
    seq(k, r requires 0 <= r < k => BandRow(w, c0, c1, r0 <= r < r1))
  }

  lemma {:induction false} BandRowCount(w: nat, c0: nat, c1: nat, on: bool)
    ensures RowCount(BandRow(w, c0, c1, on)) == if on then Overlap(w, c0, c1) else 0
  {
    if w > 0 {
      var row := BandRow(w, c0, c1, on);
      assert row[..w - 1] == BandRow(w - 1, c0, c1, on);
      BandRowCount(w - 1, c0, c1, on);
    }
  }

  lemma {:induction false} BandCount(k: nat, w: nat, r0: nat, r1: nat, c0: nat, c1: nat)
    ensures CountSet(Band(k, w, r0, r1, c0, c1)) == Overlap(k, r0, r1) * Overlap(w, c0, c1)
  {
    if k > 0 {
      var b := Band(k, w, r0, r1, c0, c1);
      var prev := Band(k - 1, w, r0, r1, c0, c1);
      assert forall i :: 0 <= i < k - 1 ==> b[..k - 1][i] == prev[i];
      assert b[..k - 1] == prev;
      BandCount(k - 1, w, r0, r1, c0, c1);
      var on := r0 <= k - 1 < r1;
      BandRowCount(w, c0, c1, on);
      var a := Overlap(k - 1, r0, r1);
      var cols := Overlap(w, c0, c1);
      assert CountSet(b) == a * cols + (if on then cols else 0);
      if on {
        assert Overlap(k, r0, r1) == a + 1;
        MulSucc(a, cols);
      } else {
        assert Overlap(k, r0, r1) == a;
      }
    }
  }

  /** The mask is the band between the normalised slice bounds. */
  lemma MaskIsBand(height: nat, width: nat, reg: Region)
    ensures MaskPlane(height, width, reg) ==
              Band(height, width, SliceBound(reg.y, height), SliceBound(reg.y + reg.h, height),
                   SliceBound(reg.x, width), SliceBound(reg.x + reg.w, width))
  {
    var m := MaskPlane(height, width, reg);
    var b := Band(height, width, SliceBound(reg.y, height), SliceBound(reg.y + reg.h, height),
                  SliceBound(reg.x, width), SliceBound(reg.x + reg.w, width));
    forall r | 0 <= r < height
      ensures m[r] == b[r]
    {
      assert forall c :: 0 <= c < width ==> m[r][c] == b[r][c];
    }
  }

  /**
   * The mask has as many set cells as the clipped row slice times the clipped column slice;
   * a rectangle inside the frame sets exactly `w * h` cells.
   */
  lemma MaskCount(height: nat, width: nat, reg: Region)
    ensures CountSet(MaskPlane(height, width, reg)) ==
              Overlap(height, SliceBound(reg.y, height), SliceBound(reg.y + reg.h, height)) *
              Overlap(width, SliceBound(reg.x, width), SliceBound(reg.x + reg.w, width))
    ensures 0 <= reg.x && 0 <= reg.y && 0 <= reg.w && 0 <= reg.h &&
            reg.x + reg.w <= width && reg.y + reg.h <= height ==>
              CountSet(MaskPlane(height, width, reg)) == reg.w * reg.h
  {
    var r0, r1 := SliceBound(reg.y, height), SliceBound(reg.y + reg.h, height);
    var c0, c1 := SliceBound(reg.x, width), SliceBound(reg.x + reg.w, width);
    MaskIsBand(height, width, reg);
    BandCount(height, width, r0, r1, c0, c1);
    if 0 <= reg.x && 0 <= reg.y && 0 <= reg.w && 0 <= reg.h &&
       reg.x + reg.w <= width && reg.y + reg.h <= height {
      assert Overlap(height, r0, r1) == reg.h;
      assert Overlap(width, c0, c1) == reg.w;
      assert reg.h * reg.w == reg.w * reg.h;
    }
  }

  /**
   * `process_video`'s fallback region: 20% of the width and 10% of the height (floored),
   * placed in the bottom-right corner.
   */
  function DefaultRegion(width: nat, height: nat): (reg: Region)
    ensures 0 <= reg.x && 0 <= reg.y && 0 <= reg.w && 0 <= reg.h
    ensures reg.x + reg.w == width && reg.y + reg.h == height
    ensures 5 * reg.w <= width < 5 * (reg.w + 1)
    ensures 10 * reg.h <= height < 10 * (reg.h + 1)
  {
    var w := width / 5;
    var h := height / 10;
    Region(width - w, height - h, w, h)
  }

  /** The default mask covers exactly the bottom-right `width/5` x `height/10` block. */
  lemma DefaultMaskCorner(width: nat, height: nat, r: nat, c: nat)
    requires r < height && c < width
    ensures MaskPlane(height, width, DefaultRegion(width, height))[r][c] == Inside <==>
              height - height / 10 <= r && width - width / 5 <= c
    ensures CountSet(MaskPlane(height, width, DefaultRegion(width, height))) == (width / 5) * (height / 10)
  {
    MaskCellIff(height, width, DefaultRegion(width, height), r, c);
    MaskCount(height, width, DefaultRegion(width, height));
  }
}
