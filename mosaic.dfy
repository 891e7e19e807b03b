/** The integer side of the raw-image helpers: the Bayer colour lookup `FC`,
    the search for the red-green-green-blue phase of the mosaic, the integer
    accumulation of `dt_iop_clip_and_zoom_demosaic_half_size` for one output
    pixel, and the orientation set-up of `dt_iop_flip_and_zoom_8`. */
module Mosaic {

  /** A raw sample, `uint16_t`. */
  type u16 = x: int | 0 <= x < 0x1_0000

  // ---------------------------------------------------------------------
  // FC: the colour of a sensor site
  // ---------------------------------------------------------------------

  /** `FC(row, col, filters)`: the colour (0 red, 1 green, 2 blue, 3 second
      green) of a sensor site, read from the 32-bit pattern word. The C
      operands are 32-bit two's complement `int`s, so the row and column are
      `bv32` here and every operator is the C one. */
  function FC(row: bv32, col: bv32, filters: bv32): (r: bv32)
    ensures r < 4
  {
    (filters >> ((((row << 1) & 14) + (col & 1)) << 1)) & 3
  }

  /** The pattern repeats every eight rows and every two columns. */
  lemma FCPeriodic(row: bv32, col: bv32, filters: bv32)
    ensures FC(row + 8, col, filters) == FC(row, col, filters)
    ensures FC(row, col + 2, filters) == FC(row, col, filters)
  {
  }

  /** Offset of a 2x2 block that starts on a red site. */
  datatype Phase = Phase(x: bv32, y: bv32)

  /** The alignment at the top of the half-size demosaic: step one column
      when the site right of the origin is not green, then, when the site
      reached is not red, step to the other column and one row down. */
  function RggbPhase(filters: bv32): (p: Phase)
    ensures p.x < 2 && p.y < 2
  {
    var x0: bv32 := if FC(0, 1, filters) != 1 then 1 else 0;
    if FC(0, x0, filters) != 0 then Phase((x0 + 1) & 1, 1) else Phase(x0, 0)
  }

  /** The four Bayer layouts (RGGB, BGGR, GRBG, GBRG) as pattern words. */
  predicate Bayer(filters: bv32)
  {
    filters == 0x9494_9494 || filters == 0x1616_1616 || filters == 0x6161_6161 || filters == 0x4949_4949
  }

  /** The block at `p` reads red, green / green, blue. */
  predicate RggbAt(filters: bv32, p: Phase)
  {
    FC(p.y, p.x, filters) == 0 && FC(p.y, p.x + 1, filters) == 1 &&
    FC(p.y + 1, p.x, filters) == 1 && FC(p.y + 1, p.x + 1, filters) == 2
  }

  /** The phase found starts an RGGB block: every Bayer layout is brought to
      RGGB. */
  lemma RggbPhaseAligns(filters: bv32)
    requires Bayer(filters)
    ensures RggbAt(filters, RggbPhase(filters))
  {
  }

  // ---------------------------------------------------------------------
  // Sampling footprint
  // ---------------------------------------------------------------------

  /** `x & ~1` on a two's complement integer: the even number at or below x. */
  function AlignDown(x: int): (r: int)
    ensures r % 2 == 0 && r <= x < r + 2
  {
    x - x % 2
  }

  /** First sample of the footprint along one axis:
      `MIN((extent - 4) & ~1u, c & ~1) + phase`. The comparison is done on
      unsigned values, so a negative position compares as huge and the upper
      bound wins. */
  function FootStart(c: int, extent: int, phase: nat): int
    requires extent >= 4
  {
    var bound := AlignDown(extent - 4);
    var a := AlignDown(c);
    (if a < 0 || bound < a then bound else a) + phase
  }

  /** Last block start along one axis:
      `MIN(((extent - 3) & ~1u) + phase, p + 2 * samples)`, again compared
      as unsigned. */
  function FootEnd(p: int, extent: int, phase: nat, samples: nat): int
    requires extent >= 3
  {
    var bound := AlignDown(extent - 3) + phase;
    var e := p + 2 * samples;
    if e < 0 || bound < e then bound else e
  }

  /** The footprint along an axis is non-empty, starts on the red phase and
      every 2x2 block it names lies inside the extent, whatever the position
      asked for. */
  lemma FootprintInside(c: int, extent: int, phase: nat, samples: nat)
    requires extent >= 4 && phase < 2
    ensures var p := FootStart(c, extent, phase);
            0 <= p <= FootEnd(p, extent, phase, samples) && FootEnd(p, extent, phase, samples) + 1 < extent &&
            p % 2 == phase
  {
  }

  // ---------------------------------------------------------------------
  // The input mosaic
  // ---------------------------------------------------------------------

  /** A mosaiced input buffer: `height` rows of `width` samples, rows
      `stride` samples apart. */
  datatype Raw = Raw(data: seq<u16>, stride: nat, width: nat, height: nat)

  ghost predicate WellFormed(r: Raw)
  {
    r.width <= r.stride && r.stride * r.height <= |r.data|
  }

  lemma IndexInBounds(stride: nat, width: nat, height: nat, i: int, j: int)
    requires 0 <= i < width <= stride && 0 <= j < height
    ensures 0 <= i + stride * j < stride * height
  {
    assert stride * j <= stride * (height - 1) by {
      MulMonotone(stride, j, height - 1);
    }
  }

  lemma MulMonotone(a: nat, b: nat, c: nat)
    requires b <= c
    ensures a * b <= a * c
  {
  }

  /** The sample at column `i`, row `j`: `in[i + stride * j]`. */
  function At(r: Raw, i: int, j: int): u16
    requires WellFormed(r) && 0 <= i < r.width && 0 <= j < r.height
  {
    IndexInBounds(r.stride, r.width, r.height, i, j);
    r.data[i + r.stride * j]
  }

  function Max(a: int, b: int): int
  {
    if a < b then b else a
  }

  /** The brightest of the four samples of the block at (`i`, `j`). */
  function BlockMax(r: Raw, i: int, j: int): (m: u16)
    requires WellFormed(r) && 0 <= i && i + 1 < r.width && 0 <= j && j + 1 < r.height
    ensures m == At(r, i, j) || m == At(r, i + 1, j) || m == At(r, i, j + 1) || m == At(r, i + 1, j + 1)
    ensures At(r, i, j) <= m && At(r, i + 1, j) <= m && At(r, i, j + 1) <= m && At(r, i + 1, j + 1) <= m
  {
    Max(Max(At(r, i, j), At(r, i + 1, j)), Max(At(r, i, j + 1), At(r, i + 1, j + 1)))
  }

  /** Highlight consistency: a block is used when it is clipped (some sample
      at or above 60000) exactly when the centre block is. */
  predicate Consistent(pc: int, m: int)
  {
    (pc >= 60000) == (m >= 60000)
  }

  /** Integer sums of the red, green and blue samples and the number of
      blocks that went into them. */
  datatype Acc = Acc(red: int, green: int, blue: int, num: nat)

  const Empty: Acc := Acc(0, 0, 0, 0)

  function Plus(a: Acc, b: Acc): Acc
  {
    Acc(a.red + b.red, a.green + b.green, a.blue + b.blue, a.num + b.num)
  }

  lemma PlusAssociative(a: Acc, b: Acc, c: Acc)
    ensures Plus(Plus(a, b), c) == Plus(a, Plus(b, c))
  {
  }

  /** The sums are those of `num` blocks of 16-bit samples: red and blue at
      most 65535 per block, green (two sites) at most twice that. After the
      normalisation by `num` every channel lies in [0, 1]. */
  ghost predicate Bounded(a: Acc)
  {
    0 <= a.red <= 65535 * a.num && 0 <= a.green <= 2 * 65535 * a.num && 0 <= a.blue <= 65535 * a.num
  }

  /** What one block adds: its red, the two greens, its blue and one to the
      count, or nothing when it fails the highlight test. */
  function Block(r: Raw, pc: int, i: int, j: int): (a: Acc)
    requires WellFormed(r) && 0 <= i && i + 1 < r.width && 0 <= j && j + 1 < r.height
    ensures Bounded(a)
    ensures a.num == 1 <==> Consistent(pc, BlockMax(r, i, j))
    ensures a.num == 1 ==> a == Acc(At(r, i, j), At(r, i + 1, j) + At(r, i, j + 1), At(r, i + 1, j + 1), 1)
    ensures a.num != 1 ==> a == Empty
  {
    if Consistent(pc, BlockMax(r, i, j)) then
      Acc(At(r, i, j), At(r, i + 1, j) + At(r, i, j + 1), At(r, i + 1, j + 1), 1)
    else Empty
  }

  /** The blocks of row `j` from column `i` to `maxi`, in steps of two. */
  function RowSum(r: Raw, pc: int, i: int, maxi: int, j: int): (a: Acc)
    requires WellFormed(r) && 0 <= i && maxi + 1 < r.width && 0 <= j && j + 1 < r.height
    ensures Bounded(a)
    decreases maxi - i
  {
    if i > maxi then Empty else Plus(Block(r, pc, i, j), RowSum(r, pc, i + 2, maxi, j))
  }

  /** The block rows from `j` to `maxj`, in steps of two. */
  function GridSum(r: Raw, pc: int, px: int, maxi: int, j: int, maxj: int): (a: Acc)
    requires WellFormed(r) && 0 <= px && maxi + 1 < r.width && 0 <= j && maxj + 1 < r.height
    ensures Bounded(a)
    decreases maxj - j
  {
    if j > maxj then Empty else Plus(RowSum(r, pc, px, maxi, j), GridSum(r, pc, px, maxi, j + 2, maxj))
  }

  /** The centre block always passes its own highlight test, so an output
      pixel never divides by zero. */
  lemma {:induction false} CentreBlockCounts(r: Raw, px: int, maxi: int, py: int, maxj: int)
    requires WellFormed(r) && 0 <= px <= maxi && maxi + 1 < r.width && 0 <= py <= maxj && maxj + 1 < r.height
    ensures GridSum(r, BlockMax(r, px, py), px, maxi, py, maxj).num >= 1
  {
    var pc := BlockMax(r, px, py);
    assert Block(r, pc, px, py).num == 1;
    assert RowSum(r, pc, px, maxi, py).num >= 1;
  }

  /** The number of block starts from `lo` to `hi` in steps of two. */
  function Blocks(lo: int, hi: int): nat
  {
    if lo > hi then 0 else (hi - lo) / 2 + 1
  }

  /** A row counts at most one block per block start. */
  lemma {:induction false} RowSumCount(r: Raw, pc: int, i: int, maxi: int, j: int)
    requires WellFormed(r) && 0 <= i && maxi + 1 < r.width && 0 <= j && j + 1 < r.height
    ensures RowSum(r, pc, i, maxi, j).num <= Blocks(i, maxi)
    decreases maxi - i
  {
    if i <= maxi {
      RowSumCount(r, pc, i + 2, maxi, j);
    }
  }

  /** The footprint counts at most one block per block start. */
  lemma {:induction false} GridSumCount(r: Raw, pc: int, px: int, maxi: int, j: int, maxj: int)
    requires WellFormed(r) && 0 <= px && maxi + 1 < r.width && 0 <= j && maxj + 1 < r.height
    ensures GridSum(r, pc, px, maxi, j, maxj).num <= Blocks(px, maxi) * Blocks(j, maxj)
    decreases maxj - j
  {
    if j <= maxj {
      var row, rest := RowSum(r, pc, px, maxi, j), GridSum(r, pc, px, maxi, j + 2, maxj);
      assert GridSum(r, pc, px, maxi, j, maxj).num == row.num + rest.num;
      RowSumCount(r, pc, px, maxi, j);
      GridSumCount(r, pc, px, maxi, j + 2, maxj);
      var a, b := Blocks(px, maxi), Blocks(j + 2, maxj);
      assert Blocks(j, maxj) == b + 1;
      MulSucc(a, b);
    }
  }

  lemma MulSucc(a: nat, b: nat)
    ensures a * (b + 1) == a * b + a
  {
  }

  /** The C code sums the samples in signed 32-bit lanes. With at most 127
      blocks per radius the footprint has at most 128 x 128 blocks, and even
      the green lane, which takes two samples per block, stays below 2^31:
      the lanes never wrap and equal the unbounded sums of `GridSum`. */
  lemma HalfSizeLanesFit(r: Raw, filters: bv32, fx: int, fy: int, samples: nat)
    requires WellFormed(r) && r.width >= 4 && r.height >= 4 && samples <= 127
    ensures var f := FootprintOf(r, filters, fx, fy, samples);
            var a := GridSum(r, BlockMax(r, f.px, f.py), f.px, f.maxi, f.py, f.maxj);
            a.num <= 16384 && a.red < 0x8000_0000 && a.green < 0x8000_0000 && a.blue < 0x8000_0000
  {
    var f := FootprintOf(r, filters, fx, fy, samples);
    var a := GridSum(r, BlockMax(r, f.px, f.py), f.px, f.maxi, f.py, f.maxj);
    GridSumCount(r, BlockMax(r, f.px, f.py), f.px, f.maxi, f.py, f.maxj);
    var bx, bz := Blocks(f.px, f.maxi), Blocks(f.py, f.maxj);
    assert bx <= 128 && bz <= 128;
    MulMonotone(bx, bz, 128);
    MulMonotone(128, bx, 128);
    assert a.num <= 16384;
    MulMonotone(2 * 65535, a.num, 16384);
  }

  /** Everything a footprint computes for one output pixel. */
  datatype Footprint = Footprint(px: int, maxi: int, py: int, maxj: int)

  function FootprintOf(r: Raw, filters: bv32, fx: int, fy: int, samples: nat): (f: Footprint)
    requires r.width >= 4 && r.height >= 4
    ensures 0 <= f.px <= f.maxi && f.maxi + 1 < r.width
    ensures 0 <= f.py <= f.maxj && f.maxj + 1 < r.height
  {
    var phase := RggbPhase(filters);
    var ox, oy := phase.x as nat, phase.y as nat;
    FootprintInside(fx, r.width, ox, samples);
    FootprintInside(fy, r.height, oy, samples);
    var px := FootStart(fx, r.width, ox);
    var py := FootStart(fy, r.height, oy);
    Footprint(px, FootEnd(px, r.width, ox, samples), py, FootEnd(py, r.height, oy, samples))
  }

  /** The integer part of one output pixel of
      `dt_iop_clip_and_zoom_demosaic_half_size`: `fx` and `fy` are the
      truncated footprint origin, `samples` the number of blocks per radius.
      The method walks the footprint's blocks row by row. */
  method HalfSizePixel(r: Raw, filters: bv32, fx: int, fy: int, samples: nat) returns (acc: Acc)
    requires WellFormed(r) && r.width >= 4 && r.height >= 4
    ensures var f := FootprintOf(r, filters, fx, fy, samples);
            acc == GridSum(r, BlockMax(r, f.px, f.py), f.px, f.maxi, f.py, f.maxj)
    ensures acc.num >= 1 && Bounded(acc)
  {
    var f := FootprintOf(r, filters, fx, fy, samples);
    var pc := BlockMax(r, f.px, f.py);
    acc := Empty;
    var j := f.py;
    while j <= f.maxj
      invariant f.py <= j
      invariant Plus(acc, GridSum(r, pc, f.px, f.maxi, j, f.maxj)) == GridSum(r, pc, f.px, f.maxi, f.py, f.maxj)
      decreases f.maxj - j
    {
      ghost var before := acc;
      acc := AccumulateRow(r, pc, f.px, f.maxi, j, acc);
      assert GridSum(r, pc, f.px, f.maxi, j, f.maxj) ==
             Plus(RowSum(r, pc, f.px, f.maxi, j), GridSum(r, pc, f.px, f.maxi, j + 2, f.maxj));
      PlusAssociative(before, RowSum(r, pc, f.px, f.maxi, j), GridSum(r, pc, f.px, f.maxi, j + 2, f.maxj));
      j := j + 2;
    }
    CentreBlockCounts(r, f.px, f.maxi, f.py, f.maxj);
  }

  /** The inner loop over the blocks of row `j`: each block that passes the
      highlight test adds (p1, p2 + p3, p4) and one to the count. */
  method AccumulateRow(r: Raw, pc: int, px: int, maxi: int, j: int, start: Acc) returns (acc: Acc)
    requires WellFormed(r) && 0 <= px && maxi + 1 < r.width && 0 <= j && j + 1 < r.height
    ensures acc == Plus(start, RowSum(r, pc, px, maxi, j))
  {
    acc := start;
    var i := px;
    while i <= maxi
      invariant px <= i
      invariant Plus(acc, RowSum(r, pc, i, maxi, j)) == Plus(start, RowSum(r, pc, px, maxi, j))
      decreases maxi - i
    {
      ghost var before := acc;
      var p1 := At(r, i, j);
      var p2 := At(r, i + 1, j);
      var p3 := At(r, i, j + 1);
      var p4 := At(r, i + 1, j + 1);
      if Consistent(pc, Max(Max(p1, p2), Max(p3, p4))) {
        acc := Acc(acc.red + p1, acc.green + p3 + p2, acc.blue + p4, acc.num + 1);
      }
      RowStep(r, pc, i, maxi, j, before, acc);
      i := i + 2;
    }
  }

  /** One iteration of the inner loop adds exactly the block's contribution. */
  lemma RowStep(r: Raw, pc: int, i: int, maxi: int, j: int, before: Acc, after: Acc)
    requires WellFormed(r) && 0 <= i <= maxi && maxi + 1 < r.width && 0 <= j && j + 1 < r.height
    requires var p1, p2, p3, p4 := At(r, i, j), At(r, i + 1, j), At(r, i, j + 1), At(r, i + 1, j + 1);
             after == if Consistent(pc, Max(Max(p1, p2), Max(p3, p4)))
                      then Acc(before.red + p1, before.green + p3 + p2, before.blue + p4, before.num + 1)
                      else before
    ensures Plus(after, RowSum(r, pc, i + 2, maxi, j)) == Plus(before, RowSum(r, pc, i, maxi, j))
  {
    assert after == Plus(before, Block(r, pc, i, j));
    PlusAssociative(before, Block(r, pc, i, j), RowSum(r, pc, i + 2, maxi, j));
  }

  // ---------------------------------------------------------------------
  // Orientation of dt_iop_flip_and_zoom_8
  // ---------------------------------------------------------------------

  /** Bit `k` (1, 2 or 4) of the orientation flags, as `orientation & k`. */
  predicate Flag(orientation: int, k: nat)
    requires k > 0
  {
    (orientation / k) % 2 == 1
  }

  /** The input pixel shown at output column `i`, row `j` (before scaling):
      bit 4 transposes, bit 1 mirrors the columns, bit 2 the rows. */
  function SourcePixel(iw: int, ih: int, orientation: int, i: int, j: int): (int, int)
  {
    var u := if Flag(orientation, 4) then j else i;
    var v := if Flag(orientation, 4) then i else j;
    (if Flag(orientation, 1) then iw - 1 - u else u, if Flag(orientation, 2) then ih - 1 - v else v)
  }

  /** The stride set-up of `dt_iop_flip_and_zoom_8`: start pixel
      (`ii`, `jj`), steps `si` along an output row and `sj` between output
      rows, and the oriented width and height. */
  method FlipStrides(iw: int, ih: int, orientation: int)
    returns (ii: int, jj: int, si: int, sj: int, iwd: int, iht: int)
    ensures iwd == (if Flag(orientation, 4) then ih else iw)
    ensures iht == (if Flag(orientation, 4) then iw else ih)
    ensures forall i, j :: iw * jj + ii + sj * j + si * i ==
              iw * SourcePixel(iw, ih, orientation, i, j).1 + SourcePixel(iw, ih, orientation, i, j).0
  {
    iwd := if Flag(orientation, 4) then ih else iw;
    iht := if Flag(orientation, 4) then iw else ih;
    ii, jj := 0, 0;
    si, sj := 1, iw;
    if Flag(orientation, 2) {
      jj := ih - jj - 1;
      sj := -sj;
    }
    if Flag(orientation, 1) {
      ii := iw - ii - 1;
      si := -si;
    }
    if Flag(orientation, 4) {
      var t := sj;
      sj := si;
      si := t;
    }
    forall i, j
      ensures iw * jj + ii + sj * j + si * i ==
              iw * SourcePixel(iw, ih, orientation, i, j).1 + SourcePixel(iw, ih, orientation, i, j).0
    {
      OffsetIdentity(iw, ih, orientation, i, j, ii, jj, si, sj);
    }
  }

  lemma OffsetIdentity(iw: int, ih: int, orientation: int, i: int, j: int, ii: int, jj: int, si: int, sj: int)
    requires ii == (if Flag(orientation, 1) then iw - 1 else 0)
    requires jj == (if Flag(orientation, 2) then ih - 1 else 0)
    requires var sx := if Flag(orientation, 1) then -1 else 1;
             var sy := if Flag(orientation, 2) then -iw else iw;
             (si, sj) == (if Flag(orientation, 4) then (sy, sx) else (sx, sy))
    ensures iw * jj + ii + sj * j + si * i ==
            iw * SourcePixel(iw, ih, orientation, i, j).1 + SourcePixel(iw, ih, orientation, i, j).0
  {
    var v := if Flag(orientation, 4) then i else j;
    var y := SourcePixel(iw, ih, orientation, i, j).1;
    if Flag(orientation, 2) {
      assert iw * y == iw * (ih - 1) - iw * v;
    }
  }

  /** Every output position of the oriented image maps to an input pixel, and
      different output positions to different input pixels: the orientation
      is a bijection of the `iwd` x `iht` grid onto the `iw` x `ih` image. */
  lemma SourcePixelBijective(iw: int, ih: int, orientation: int, i1: int, j1: int, i2: int, j2: int)
    requires var iwd := if Flag(orientation, 4) then ih else iw;
             var iht := if Flag(orientation, 4) then iw else ih;
             0 <= i1 < iwd && 0 <= j1 < iht && 0 <= i2 < iwd && 0 <= j2 < iht
    ensures var (x, y) := SourcePixel(iw, ih, orientation, i1, j1);
            0 <= x < iw && 0 <= y < ih
    ensures SourcePixel(iw, ih, orientation, i1, j1) == SourcePixel(iw, ih, orientation, i2, j2) ==>
              i1 == i2 && j1 == j2
  {
  }

  /** Hence the byte offset `iw * y + x` of the source pixel stays inside the
      input and distinct output positions read distinct input pixels. */
  lemma OffsetInsideAndDistinct(iw: int, x1: int, y1: int, x2: int, y2: int, ih: int)
    requires 0 <= x1 < iw && 0 <= y1 < ih && 0 <= x2 < iw && 0 <= y2 < ih
    ensures 0 <= iw * y1 + x1 < iw * ih
    ensures iw * y1 + x1 == iw * y2 + x2 ==> x1 == x2 && y1 == y2
  {
    MulMonotone(iw, y1, ih - 1);
    if iw * y1 + x1 == iw * y2 + x2 && y1 != y2 {
      if y1 < y2 {
        MulMonotone(iw, y1 + 1, y2);
      } else {
        MulMonotone(iw, y2 + 1, y1);
      }
    }
  }
}
