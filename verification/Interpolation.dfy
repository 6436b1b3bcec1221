/**
 Linear interpolation of Q15 and Q7 tables, and bilinear interpolation of Q7 grids. Inputs
 are in 12.20 format: the index above bit 20 and the fraction below. The weights of the two
 neighbours are 0xFFFFF - fract and fract, so they add up to one less than 0x100000.
 */
module Interpolation {
  import opened Words

  function Index(x: int): int { x / 0x10_0000 }

  function Fract(x: int): (f: int)
    ensures 0 <= f <= 0xF_FFFF
  {
    x % 0x10_0000
  }

  // ---------------------------------------------------------------- one segment

  /** The weighted sum of two neighbours, in units of 2^-20. */
  function Blend(y0: int, y1: int, fract: int): int
  {
    y0 * (0xF_FFFF - fract) + y1 * fract
  }

  lemma BlendMonotone(y0: int, y1: int, f: int, g: int)
    requires y0 <= y1 && 0 <= f <= g <= 0xF_FFFF
    ensures y0 * 0xF_FFFF <= Blend(y0, y1, f) <= Blend(y0, y1, g) <= y1 * 0xF_FFFF
  {
  }

  /** For any two neighbours, the blend lies between the two unblended ends. */
  lemma BlendRange(y0: int, y1: int, f: int)
    requires 0 <= f <= 0xF_FFFF
    ensures Min(y0, y1) * 0xF_FFFF <= Blend(y0, y1, f) <= Max(y0, y1) * 0xF_FFFF
  {
  }

  // ---------------------------------------------------------------- linear interpolation

  /** arm_linear_interp_q15; the table length is nValues. */
  function LinearQ15(table: seq<Q15>, x: Q31): Q15
    requires 1 <= |table| <= 0x8000_0000
  {
    var index := Index(x);
    if index >= |table| - 1 then table[|table| - 1]
    else if index < 0 then table[0]
    else
      SegmentQ15(table[index], table[index + 1], Fract(x))
  }

  function SegmentQ15(y0: Q15, y1: Q15, fract: Q31): Q15
    requires 0 <= fract <= 0xF_FFFF
  {
    BlendRange(y0, y1, fract);
    BlendRange(y0, 0, fract);
    BlendWithZero(y0, fract);
    var y: Q63 := y0 * (0xF_FFFF - fract);
    var y': Q63 := y + y1 * fract;
    ToQ15(y' / 0x10_0000)
  }

  /** arm_linear_interp_q7, which tests the sign of x first and accumulates in 32 bits. */
  function LinearQ7(table: seq<Q7>, x: Q31): Q7
    requires 1 <= |table| < 0x1_0000_0000
  {
    if x < 0 then table[0]
    else
      var index: U32 := Index(x) % 0x1000;
      if index >= |table| - 1 then table[|table| - 1]
      else SegmentQ7(table[index], table[index + 1], Fract(x))
  }

  function SegmentQ7(y0: Q7, y1: Q7, fract: Q31): Q7
    requires 0 <= fract <= 0xF_FFFF
  {
    BlendRange(y0, y1, fract);
    BlendRange(y0, 0, fract);
    BlendWithZero(y0, fract);
    var y: Q31 := y0 * (0xF_FFFF - fract);
    var y': Q31 := y + y1 * fract;
    ToQ7(y' / 0x10_0000)
  }

  lemma BlendWithZero(y0: int, fract: int)
    ensures Blend(y0, 0, fract) == y0 * (0xF_FFFF - fract)
  {
  }

  /** The piecewise linear function both routines compute, before any narrowing. */
  function Interpolate(table: seq<Q15>, x: int): int
    requires |table| >= 1
  {
    if Index(x) >= |table| - 1 then table[|table| - 1]
    else if x < 0 then table[0]
    else Blend(table[Index(x)], table[Index(x) + 1], Fract(x)) / 0x10_0000
  }

  /** Table values, scaled by 0xFFFFF / 0x100000 and floored: one less when positive. */
  lemma Shortened(y: Q15)
    ensures (y as int) * 0xF_FFFF / 0x10_0000 == if y > 0 then y - 1 else y
  {
  }

  /** For any table and input, the value lies between the neighbours, or one below when both
      are positive. */
  lemma SegmentRange(y0: Q15, y1: Q15, f: int)
    requires 0 <= f <= 0xF_FFFF
    ensures Min(y0, y1) - 1 <= Blend(y0, y1, f) / 0x10_0000 <= Max(y0, y1)
    ensures Min(y0, y1) <= 0 ==> Min(y0, y1) <= Blend(y0, y1, f) / 0x10_0000
  {
    BlendRange(y0, y1, f);
    Shortened(Min(y0, y1));
    Shortened(Max(y0, y1));
  }

  lemma SegmentsAreExact(y0: Q15, y1: Q15, f: Q31)
    requires 0 <= f <= 0xF_FFFF
    ensures SegmentQ15(y0, y1, f) == Blend(y0, y1, f) / 0x10_0000
  {
    SegmentRange(y0, y1, f);
    var value := Blend(y0, y1, f) / 0x10_0000;
    assert -0x8000 <= value < 0x8000;
    assert SegmentQ15(y0, y1, f) == ToQ15(value);
  }

  lemma SegmentsAreExactQ7(y0: Q7, y1: Q7, f: Q31)
    requires 0 <= f <= 0xF_FFFF
    ensures SegmentQ7(y0, y1, f) == Blend(y0, y1, f) / 0x10_0000
  {
    SegmentRange(y0, y1, f);
    var value := Blend(y0, y1, f) / 0x10_0000;
    assert -0x80 <= value < 0x80;
    assert SegmentQ7(y0, y1, f) == ToQ7(value);
  }

  /** No narrowing in the Q15 routine loses anything. */
  lemma LinearQ15IsInterpolation(table: seq<Q15>, x: Q31)
    requires 1 <= |table| <= 0x8000_0000
    ensures LinearQ15(table, x) == Interpolate(table, x)
  {
    var i := Index(x);
    if 0 <= i < |table| - 1 {
      SegmentsAreExact(table[i], table[i + 1], Fract(x));
    }
  }

  /** The Q7 routine, with its other order of tests and narrower accumulator, computes the
      same function. */
  lemma LinearQ7IsInterpolation(table: seq<Q7>, x: Q31)
    requires 1 <= |table| < 0x1_0000_0000
    ensures LinearQ7(table, x) == Interpolate(table, x)
  {
    var i := Index(x);
    if 0 <= i < |table| - 1 {
      SegmentsAreExactQ7(table[i], table[i + 1], Fract(x));
    }
  }

  /** The Q15 routine on the input with index i and fraction f: the first entry below the table,
      the last one above it, and between them the rounded-down sum of the weighted neighbours. */
  lemma LinearQ15Exactly(table: seq<Q15>, i: int, f: int)
    requires 1 <= |table| <= 0x8000_0000 && -0x800 <= i < 0x800 && 0 <= f < 0x10_0000
    ensures LinearQ15(table, i * 0x10_0000 + f) ==
            if i >= |table| - 1 then table[|table| - 1]
            else if i < 0 then table[0]
            else (table[i] * (0xF_FFFF - f) + table[i + 1] * f) / 0x10_0000
  {
    DivUnique(i * 0x10_0000 + f, 0x10_0000, i, f);
    LinearQ15IsInterpolation(table, i * 0x10_0000 + f);
  }

  lemma LinearQ7Exactly(table: seq<Q7>, i: int, f: int)
    requires 1 <= |table| < 0x1_0000_0000 && -0x800 <= i < 0x800 && 0 <= f < 0x10_0000
    ensures LinearQ7(table, i * 0x10_0000 + f) ==
            if i >= |table| - 1 then table[|table| - 1]
            else if i < 0 then table[0]
            else (table[i] * (0xF_FFFF - f) + table[i + 1] * f) / 0x10_0000
  {
    DivUnique(i * 0x10_0000 + f, 0x10_0000, i, f);
    LinearQ7IsInterpolation(table, i * 0x10_0000 + f);
  }

  /** An input can name only the entries below 0x800: of a longer table, the entries from 0x801
      on are never read. */
  lemma LongTableIsCutOff(table: seq<Q15>, x: Q31)
    requires 0x801 <= |table| <= 0x8000_0000
    ensures LinearQ15(table, x) == LinearQ15(table[..0x801], x)
  {
    assert Index(x) < 0x800;
  }

  lemma LongTableIsCutOffQ7(table: seq<Q7>, x: Q31)
    requires 0x801 <= |table| < 0x1_0000_0000
    ensures LinearQ7(table, x) == LinearQ7(table[..0x801], x)
  {
    assert Index(x) < 0x800;
  }

  ghost predicate Sorted(table: seq<Q15>)
  {
    forall i, j :: 0 <= i <= j < |table| ==> table[i] <= table[j]
  }

  /** For a non-decreasing table of any length the value is non-decreasing for x >= 0: inside
      a segment, across the seams and into the constant tail. */
  lemma InterpolationMonotone(table: seq<Q15>, x: int, y: int)
    requires |table| >= 1 && Sorted(table) && 0 <= x <= y
    ensures Interpolate(table, x) <= Interpolate(table, y)
  {
    var n := |table| - 1;
    var i, j := Index(x), Index(y);
    if i < n {
      if i == j {
        SameSegment(table[i], table[i + 1], Fract(x), Fract(y));
      } else {
        SegmentEnds(table[i], table[i + 1], Fract(x));
        if j < n {
          SegmentEnds(table[j], table[j + 1], Fract(y));
          Shortened(table[j]);
        }
        Shortened(table[i + 1]);
      }
    }
  }

  lemma SameSegment(y0: Q15, y1: Q15, f: int, g: int)
    requires y0 <= y1 && 0 <= f <= g <= 0xF_FFFF
    ensures Blend(y0, y1, f) / 0x10_0000 <= Blend(y0, y1, g) / 0x10_0000
  {
    BlendMonotone(y0, y1, f, g);
    DivMonotone(Blend(y0, y1, f), Blend(y0, y1, g), 0x10_0000);
  }

  lemma SegmentEnds(y0: Q15, y1: Q15, f: int)
    requires y0 <= y1 && 0 <= f <= 0xF_FFFF
    ensures (y0 as int) * 0xF_FFFF / 0x10_0000 <= Blend(y0, y1, f) / 0x10_0000
    ensures Blend(y0, y1, f) / 0x10_0000 <= (y1 as int) * 0xF_FFFF / 0x10_0000
  {
    BlendMonotone(y0, y1, f, f);
  }

  /** Below the table the first entry is returned unshortened. So, over all inputs, a
      non-decreasing table gives a non-decreasing function exactly when it has one entry or
      does not start with a positive one. */
  lemma MonotoneBelowZero(table: seq<Q15>)
    requires |table| >= 1 && Sorted(table)
    ensures (|table| == 1 || table[0] <= 0) <==>
            (forall x: int, y: int :: x <= y ==> Interpolate(table, x) <= Interpolate(table, y))
  {
    if |table| > 1 {
      assert Interpolate(table, 0) == (table[0] as int) * 0xF_FFFF / 0x10_0000;
      Shortened(table[0]);
    }
    if |table| == 1 || table[0] <= 0 {
      forall x: int, y: int | x <= y
        ensures Interpolate(table, x) <= Interpolate(table, y)
      {
        if x >= 0 {
          InterpolationMonotone(table, x, y);
        } else if y >= 0 {
          InterpolationMonotone(table, 0, y);
        }
      }
    } else {
      assert Interpolate(table, -1) == table[0];
      assert !(Interpolate(table, -1) <= Interpolate(table, 0));
    }
  }

  lemma AtEntry(table: seq<Q15>, i: nat)
    requires i < |table|
    ensures Interpolate(table, i * 0x10_0000) == if i < |table| - 1 && table[i] > 0 then table[i] - 1 else table[i]
  {
    assert Index(i * 0x10_0000) == i && Fract(i * 0x10_0000) == 0;
    if i < |table| - 1 {
      assert Blend(table[i], table[i + 1], 0) == (table[i] as int) * 0xF_FFFF;
      Shortened(table[i]);
    }
  }

  /** At a table entry the Q15 routine returns it, less one if it is positive and not the last.
      An input can name the entries below 0x800. */
  lemma LinearQ15AtEntry(table: seq<Q15>, i: nat)
    requires i < |table| <= 0x8000_0000 && i < 0x800
    ensures LinearQ15(table, i * 0x10_0000) ==
            if i < |table| - 1 && table[i] > 0 then table[i] - 1 else table[i]
  {
    LinearQ15IsInterpolation(table, i * 0x10_0000);
    AtEntry(table, i);
  }

  lemma LinearQ7AtEntry(table: seq<Q7>, i: nat)
    requires i < |table| < 0x1_0000_0000 && i < 0x800
    ensures LinearQ7(table, i * 0x10_0000) ==
            if i < |table| - 1 && table[i] > 0 then table[i] - 1 else table[i]
  {
    LinearQ7IsInterpolation(table, i * 0x10_0000);
    AtEntry(table, i);
  }

  /** So the interpolation passes through its whole table if and only if no entry before the
      last is positive. */
  lemma PassesThroughTable(table: seq<Q15>)
    requires 1 <= |table| <= 0x800
    ensures (forall i: nat :: i < |table| ==> LinearQ15(table, i * 0x10_0000) == table[i]) <==>
            (forall i: nat :: i < |table| - 1 ==> table[i] <= 0)
  {
    forall i: nat | i < |table|
      ensures LinearQ15(table, i * 0x10_0000) == table[i] <==> i == |table| - 1 || table[i] <= 0
    {
      LinearQ15AtEntry(table, i);
    }
  }

  /** The exact line through the neighbours, in units of 2^-20. */
  function ExactLine(y0: int, y1: int, fract: int): int
  {
    y0 * (0x10_0000 - fract) + y1 * fract
  }

  /** The value is at most 1 + 2^-5 below the exact line and at most 2^-5 above it. */
  lemma InterpolationError(table: seq<Q15>, x: int)
    requires 0 <= x && Index(x) < |table| - 1
    ensures var i, f := x / 0x10_0000, x % 0x10_0000;
            var line := table[i] * (0x10_0000 - f) + table[i + 1] * f;
            line - 0x10_8000 < Interpolate(table, x) * 0x10_0000 <= line + 0x8000
  {
  }

  // ---------------------------------------------------------------- bilinear interpolation

  datatype Grid = Grid(numRows: U16, numCols: U16, data: seq<Q7>)

  ghost predicate ValidGrid(g: Grid)
  {
    |g.data| == g.numRows * g.numCols
  }

  /** Table element (x, y), as the documentation places it. */
  function At(g: Grid, x: int, y: int): Q7
    requires ValidGrid(g) && 0 <= x < g.numCols && 0 <= y < g.numRows
  {
    InBounds(g, x, y);
    g.data[x + g.numCols * y]
  }

  lemma InBounds(g: Grid, x: int, y: int)
    requires ValidGrid(g) && 0 <= x < g.numCols && 0 <= y < g.numRows
    ensures 0 <= x + g.numCols * y < |g.data|
  {
    MulLe(g.numCols, 0, y);
    MulLe(g.numCols, y + 1, g.numRows);
    assert g.numCols * (y + 1) == g.numCols * y + g.numCols;
  }

  /** The point has all four neighbours in the grid. */
  predicate Inside(g: Grid, x: Q31, y: Q31)
  {
    0 <= Index(x) && Index(x) + 1 < g.numCols && 0 <= Index(y) && Index(y) + 1 < g.numRows
  }

  /** The boundary test of the code, which compares the column with the number of rows and
      the row with the number of columns. */
  predicate Rejected(g: Grid, x: Q31, y: Q31)
  {
    var rI, cI := Index(x), Index(y);
    rI < 0 || rI > g.numRows - 1 || cI < 0 || cI > g.numCols - 1
  }

  /** All four reads of the code stay in the data, of which this is the last one. */
  predicate Readable(g: Grid, x: Q31, y: Q31)
  {
    Index(x) + g.numCols * (Index(y) + 1) + 1 < |g.data|
  }

  lemma InsideIsReadable(g: Grid, x: Q31, y: Q31)
    requires ValidGrid(g) && Inside(g, x, y)
    ensures Readable(g, x, y)
  {
    InBounds(g, Index(x) + 1, Index(y) + 1);
  }

  lemma CanRead(g: Grid, x: Q31, y: Q31)
    requires ValidGrid(g) && (Inside(g, x, y) || Readable(g, x, y))
    ensures Readable(g, x, y)
  {
    if Inside(g, x, y) {
      InsideIsReadable(g, x, y);
    }
  }

  /** arm_bilinear_interp_q7 wherever it does not read outside the data. */
  function BilinearQ7(g: Grid, x: Q31, y: Q31): Q7
    requires ValidGrid(g) && (Inside(g, x, y) || Rejected(g, x, y) || Readable(g, x, y))
  {
    var rI, cI := Index(x), Index(y);
    if rI < 0 || rI > g.numRows - 1 || cI < 0 || cI > g.numCols - 1 then 0
    else
      CanRead(g, x, y);
      RowStep(g.numCols, cI);
      MulLe(g.numCols, 0, cI);
      var k := rI + g.numCols * cI;
      CellQ7(g.data[k], g.data[k + 1], g.data[k + g.numCols], g.data[k + g.numCols + 1], Fract(x), Fract(y))
  }

  /** The accumulation over the four values read. */
  function CellQ7(x1: Q7, x2: Q7, y1: Q7, y2: Q7, xfract: Q31, yfract: Q31): Q7
    requires 0 <= xfract <= 0xF_FFFF && 0 <= yfract <= 0xF_FFFF
  {
    PartialProduct(x1, 0xF_FFFF - xfract);
    PartialProduct(x2, 0xF_FFFF - yfract);
    PartialProduct(y1, 0xF_FFFF - xfract);
    PartialProduct(y2, yfract);
    var out1: Q31 := x1 * (0xF_FFFF - xfract);
    var out2: Q31 := x2 * (0xF_FFFF - yfract);
    var out3: Q31 := y1 * (0xF_FFFF - xfract);
    var out4: Q31 := y2 * yfract;
    FourthProduct(out1, 0xF_FFFF - yfract);
    FourthProduct(out2, xfract);
    FourthProduct(out3, yfract);
    FourthProduct(out4, xfract);
    var acc1: Q63 := out1 * (0xF_FFFF - yfract);
    var acc2: Q63 := acc1 + out2 * xfract;
    var acc3: Q63 := acc2 + out3 * yfract;
    var acc4: Q63 := acc3 + out4 * xfract;
    ToQ7(acc4 / 0x100_0000_0000)
  }

  lemma RowStep(cols: int, row: int)
    ensures cols * (row + 1) == cols * row + cols
  {
  }

  lemma PartialProduct(v: Q7, w: int)
    requires 0 <= w <= 0xF_FFFF
    ensures -0x800_0000 <= v * w <= 0x800_0000
  {
  }

  lemma FourthProduct(out: Q31, w: int)
    requires -0x800_0000 <= out <= 0x800_0000 && 0 <= w <= 0xF_FFFF
    ensures -0x1000_0000_0000_0000 <= out * w <= 0x1000_0000_0000_0000
  {
    MulAtLeast(out, -0x800_0000, w);
    MulAtLeast(0x800_0000, out, w);
  }

  /** First step of the documented two-step interpolation: along x, in one row. */
  function AlongX(g: Grid, x: int, row: int): int
    requires ValidGrid(g) && 0 <= Index(x) && Index(x) + 1 < g.numCols && 0 <= row < g.numRows
  {
    Blend(At(g, Index(x), row), At(g, Index(x) + 1, row), Fract(x))
  }

  /** Second step: along y, between the two rows. */
  function TwoStep(g: Grid, x: Q31, y: Q31): int
    requires ValidGrid(g) && Inside(g, x, y)
  {
    Blend(AlongX(g, x, Index(y)), AlongX(g, x, Index(y) + 1), Fract(y))
  }

  lemma FourTerms(x1: int, x2: int, y1: int, y2: int, u: int, v: int)
    ensures x1 * (0xF_FFFF - u) * (0xF_FFFF - v) + x2 * (0xF_FFFF - v) * u
            + y1 * (0xF_FFFF - u) * v + y2 * v * u
            == Cell(x1, x2, y1, y2, u, v)
  {
  }

  /** The two-step blend of four values, first along x and then along y. */
  function Cell(x1: int, x2: int, y1: int, y2: int, u: int, v: int): int
  {
    Blend(Blend(x1, x2, u), Blend(y1, y2, u), v)
  }

  lemma BlendBounds(y0: int, y1: int, f: int, lo: int, hi: int)
    requires 0 <= f <= 0xF_FFFF && lo <= y0 <= hi && lo <= y1 <= hi
    ensures lo * 0xF_FFFF <= Blend(y0, y1, f) <= hi * 0xF_FFFF
  {
    BlendRange(y0, y1, f);
  }

  /** With lo and hi bounding the four values, the blend has these bounds too. */
  lemma CellRange(x1: int, x2: int, y1: int, y2: int, u: int, v: int, lo: int, hi: int)
    requires 0 <= u <= 0xF_FFFF && 0 <= v <= 0xF_FFFF
    requires lo <= x1 <= hi && lo <= x2 <= hi && lo <= y1 <= hi && lo <= y2 <= hi
    ensures lo * 0xFF_FFE0_0001 <= Cell(x1, x2, y1, y2, u, v) <= hi * 0xFF_FFE0_0001
  {
    BlendBounds(x1, x2, u, lo, hi);
    BlendBounds(y1, y2, u, lo, hi);
    BlendBounds(Blend(x1, x2, u), Blend(y1, y2, u), v, lo * 0xF_FFFF, hi * 0xF_FFFF);
  }

  lemma ScaledDown(v: Q7, n: int)
    ensures n <= v * 0xFF_FFE0_0001 ==> n / 0x100_0000_0000 <= v
    ensures n >= v * 0xFF_FFE0_0001 ==> n / 0x100_0000_0000 >= v - 1
    ensures n >= -0x80 * 0xFF_FFE0_0001 ==> n / 0x100_0000_0000 >= -0x80
  {
  }

  /** The four partial products add up to the blend, and the cast loses nothing. */
  lemma CellIsExact(x1: Q7, x2: Q7, y1: Q7, y2: Q7, u: Q31, v: Q31)
    requires 0 <= u <= 0xF_FFFF && 0 <= v <= 0xF_FFFF
    ensures CellQ7(x1, x2, y1, y2, u, v) == Cell(x1, x2, y1, y2, u, v) / 0x100_0000_0000
  {
    FourTerms(x1, x2, y1, y2, u, v);
    CellRange(x1, x2, y1, y2, u, v, -0x80, 0x7F);
    ScaledDown(-0x80, Cell(x1, x2, y1, y2, u, v));
    ScaledDown(0x7F, Cell(x1, x2, y1, y2, u, v));
  }

  /** Where the boundary test lets a point of the grid pass, the result is the documented
      two-step interpolation, floored once at the end. */
  lemma BilinearIsTwoStep(g: Grid, x: Q31, y: Q31)
    requires ValidGrid(g) && Inside(g, x, y)
    ensures BilinearQ7(g, x, y) == if Rejected(g, x, y) then 0 else TwoStep(g, x, y) / 0x100_0000_0000
  {
    if !Rejected(g, x, y) {
      var rI, cI := Index(x), Index(y);
      RowStep(g.numCols, cI);
      CellIsExact(At(g, rI, cI), At(g, rI + 1, cI), At(g, rI, cI + 1), At(g, rI + 1, cI + 1), Fract(x), Fract(y));
    }
  }

  /** The element a flat read meets: columns from numCols on go on in the rows below. */
  function AtWrapped(g: Grid, x: nat, y: nat): Q7
    requires ValidGrid(g) && g.numCols > 0 && x + g.numCols * y < |g.data|
  {
    WrappedInBounds(g, x, y);
    At(g, x % g.numCols, y + x / g.numCols)
  }

  lemma WrappedInBounds(g: Grid, x: nat, y: nat)
    requires ValidGrid(g) && g.numCols > 0 && x + g.numCols * y < |g.data|
    ensures 0 <= y + x / g.numCols < g.numRows
    ensures x % g.numCols + g.numCols * (y + x / g.numCols) == x + g.numCols * y
  {
    var c, q := g.numCols as int, x / g.numCols;
    DivBounds(x, c);
    DivMonotone(0, x, c);
    assert c * (y + q) == c * y + q * c;
    if y + q >= g.numRows {
      MulLe(c, g.numRows, y + q);
    }
  }

  lemma FlatRead(g: Grid, x: nat, y: nat)
    requires ValidGrid(g) && g.numCols > 0 && x + g.numCols * y < |g.data|
    ensures x + g.numCols * y >= 0 && g.data[x + g.numCols * y] == AtWrapped(g, x, y)
  {
    MulLe(g.numCols, 0, y);
    WrappedInBounds(g, x, y);
  }

  /** Every accepted point whose reads stay in the data, inside the table or not, blends the
      four elements that its flat reads meet. */
  lemma BilinearAccepted(g: Grid, x: Q31, y: Q31)
    requires ValidGrid(g) && !Rejected(g, x, y) && Readable(g, x, y)
    ensures var i, j, c := Index(x), Index(y), g.numCols as int;
            && i + c * j + 1 < |g.data| && i + c * (j + 1) + 1 < |g.data|
            && BilinearQ7(g, x, y) ==
               Cell(AtWrapped(g, i, j), AtWrapped(g, i + 1, j), AtWrapped(g, i, j + 1), AtWrapped(g, i + 1, j + 1),
                    Fract(x), Fract(y)) / 0x100_0000_0000
  {
    var i, j := Index(x), Index(y);
    RowStep(g.numCols, j);
    FlatRead(g, i, j);
    FlatRead(g, i + 1, j);
    FlatRead(g, i, j + 1);
    FlatRead(g, i + 1, j + 1);
    CellIsExact(AtWrapped(g, i, j), AtWrapped(g, i + 1, j), AtWrapped(g, i, j + 1), AtWrapped(g, i + 1, j + 1),
                Fract(x), Fract(y));
  }

  /** An accepted point of the last column blends its own two rows with the first column of
      the rows below them; on the column itself it is interpolated along the column. */
  lemma BilinearLastColumn(g: Grid, x: Q31, y: Q31)
    requires ValidGrid(g) && !Rejected(g, x, y)
    requires Index(x) == g.numCols - 1 && Index(y) + 2 < g.numRows
    ensures Readable(g, x, y)
    ensures var c, j := Index(x), Index(y);
            BilinearQ7(g, x, y) ==
            Cell(At(g, c, j), At(g, 0, j + 1), At(g, c, j + 1), At(g, 0, j + 2), Fract(x), Fract(y)) / 0x100_0000_0000
    ensures var c, j := Index(x), Index(y);
            Fract(x) == 0 ==>
              BilinearQ7(g, x, y) == Blend(At(g, c, j), At(g, c, j + 1), Fract(y)) * 0xF_FFFF / 0x100_0000_0000
  {
    var c, j := Index(x), Index(y);
    var a, b, d, e := At(g, c, j), At(g, 0, j + 1), At(g, c, j + 1), At(g, 0, j + 2);
    RowStep(g.numCols, j);
    RowStep(g.numCols, j + 1);
    InBounds(g, 0, j + 2);
    CellIsExact(a, b, d, e, Fract(x), Fract(y));
    if Fract(x) == 0 {
      EdgeCell(a, b, d, e, Fract(y));
    }
  }

  lemma EdgeCell(x1: int, x2: int, y1: int, y2: int, v: int)
    ensures Cell(x1, x2, y1, y2, 0, v) == Blend(x1, y1, v) * 0xF_FFFF
  {
    assert Blend(x1, x2, 0) == x1 * 0xF_FFFF && Blend(y1, y2, 0) == y1 * 0xF_FFFF;
    assert x1 * 0xF_FFFF * (0xF_FFFF - v) == x1 * (0xF_FFFF - v) * 0xF_FFFF;
    assert y1 * 0xF_FFFF * v == y1 * v * 0xF_FFFF;
  }

  /** The result lies between the smallest neighbour less one and the largest. */
  lemma BilinearRange(g: Grid, x: Q31, y: Q31, lo: Q7, hi: Q7)
    requires ValidGrid(g) && Inside(g, x, y) && !Rejected(g, x, y)
    requires forall i, j :: Index(x) <= i <= Index(x) + 1 && Index(y) <= j <= Index(y) + 1 ==> lo <= At(g, i, j) <= hi
    ensures lo - 1 <= BilinearQ7(g, x, y) <= hi
  {
    var i, j := Index(x), Index(y);
    BilinearIsTwoStep(g, x, y);
    CellRange(At(g, i, j), At(g, i + 1, j), At(g, i, j + 1), At(g, i + 1, j + 1), Fract(x), Fract(y), lo, hi);
    ScaledDown(lo, TwoStep(g, x, y));
    ScaledDown(hi, TwoStep(g, x, y));
  }

  /** The boundary test rejects a point of the grid exactly when its column is not a row
      number or its row not a column number. */
  lemma RejectedInside(g: Grid, x: Q31, y: Q31)
    requires Inside(g, x, y)
    ensures Rejected(g, x, y) <==> Index(x) >= g.numRows || Index(y) >= g.numCols
  {
  }

  /** The grids without a rejected point inside: those with a single row or column, and those
      whose numbers of rows and columns differ by at most one, as far as an index can reach. */
  predicate NeverRejects(g: Grid)
  {
    g.numRows < 2 || g.numCols < 2 ||
    (Min(g.numCols, 0x801) <= g.numRows + 1 && Min(g.numRows, 0x801) <= g.numCols + 1)
  }

  lemma RejectionFreeGrids(g: Grid)
    ensures NeverRejects(g) <==> (forall x: Q31, y: Q31 :: Inside(g, x, y) ==> !Rejected(g, x, y))
  {
    if !NeverRejects(g) {
      if Min(g.numCols, 0x801) > g.numRows + 1 {
        var x: Q31 := g.numRows * 0x10_0000;
        assert Index(x) == g.numRows && Index(0) == 0;
        assert Inside(g, x, 0) && Rejected(g, x, 0);
      } else {
        var y: Q31 := g.numCols * 0x10_0000;
        assert Index(y) == g.numCols && Index(0) == 0;
        assert Inside(g, 0, y) && Rejected(g, 0, y);
      }
    }
  }

  /** The point names an element of the table. */
  predicate InTable(g: Grid, x: Q31, y: Q31)
  {
    0 <= Index(x) < g.numCols && 0 <= Index(y) < g.numRows
  }

  /** The grids without elements, and those with as many rows as columns, as far as an index
      can reach. */
  predicate SquareInReach(g: Grid)
  {
    g.numRows == 0 || g.numCols == 0 || Min(g.numRows, 0x800) == Min(g.numCols, 0x800)
  }

  lemma IndexOfEntry(i: nat)
    requires i < 0x800
    ensures Index(i * 0x10_0000) == i
  {
  }

  /** The documented zero outside the table is returned on these grids and on no others. */
  lemma OutsideIsRejected(g: Grid)
    ensures SquareInReach(g) <==> (forall x: Q31, y: Q31 :: !InTable(g, x, y) ==> Rejected(g, x, y))
  {
    if !SquareInReach(g) {
      IndexOfEntry(0);
      if g.numCols < g.numRows {
        IndexOfEntry(g.numCols);
        var x: Q31 := g.numCols * 0x10_0000;
        assert !InTable(g, x, 0) && !Rejected(g, x, 0);
      } else {
        IndexOfEntry(g.numRows);
        var y: Q31 := g.numRows * 0x10_0000;
        assert !InTable(g, 0, y) && !Rejected(g, 0, y);
      }
    }
  }

  /** On the same grids, and on no others, the boundary test is the test it should be. */
  lemma BoundaryTestIsExact(g: Grid)
    ensures SquareInReach(g) <==> (forall x: Q31, y: Q31 :: Rejected(g, x, y) <==> !InTable(g, x, y))
  {
    OutsideIsRejected(g);
  }

  /** What the documentation promises of a point outside the table is kept for negative
      coordinates, and for all points outside on these grids: the answer is zero. */
  lemma OutsideIsZero(g: Grid, x: Q31, y: Q31)
    requires ValidGrid(g) && !InTable(g, x, y)
    requires x < 0 || y < 0 || SquareInReach(g)
    ensures Rejected(g, x, y) && BilinearQ7(g, x, y) == 0
  {
    if x >= 0 && y >= 0 {
      OutsideIsRejected(g);
    }
  }

  /** The answer for the point with indices i, j and fractions u, v: zero if the boundary test
      rejects it, and else the rounded-down weighted sum of the four values read. */
  lemma BilinearExactly(g: Grid, i: int, u: int, j: int, v: int)
    requires ValidGrid(g) && -0x800 <= i < 0x800 && -0x800 <= j < 0x800
    requires 0 <= u < 0x10_0000 && 0 <= v < 0x10_0000
    ensures var x, y := i * 0x10_0000 + u, j * 0x10_0000 + v;
            var rejected := i < 0 || i >= g.numRows || j < 0 || j >= g.numCols;
            var k, c := i + g.numCols * j, g.numCols as int;
            && (rejected ==> Rejected(g, x, y) && BilinearQ7(g, x, y) == 0)
            && (!rejected && k + c + 1 < |g.data| ==>
                  && 0 <= k && !Rejected(g, x, y) && Readable(g, x, y)
                  && BilinearQ7(g, x, y) ==
                     (g.data[k] * (0xF_FFFF - u) * (0xF_FFFF - v) + g.data[k + 1] * (0xF_FFFF - v) * u
                      + g.data[k + c] * (0xF_FFFF - u) * v + g.data[k + c + 1] * v * u) / 0x100_0000_0000)
  {
    DivUnique(i * 0x10_0000 + u, 0x10_0000, i, u);
    DivUnique(j * 0x10_0000 + v, 0x10_0000, j, v);
    RowStep(g.numCols, j);
    var k, c := i + g.numCols * j, g.numCols as int;
    if 0 <= i < g.numRows && 0 <= j < g.numCols && k + c + 1 < |g.data| {
      MulLe(c, 0, j);
      CellIsExact(g.data[k], g.data[k + 1], g.data[k + c], g.data[k + c + 1], u, v);
      FourTerms(g.data[k], g.data[k + 1], g.data[k + c], g.data[k + c + 1], u, v);
    }
  }

  /** In a tall grid of equal positive values that rejects no point inside, a point outside is
      not answered with zero. */
  lemma TallGridAnswersOutside(g: Grid, x: Q31)
    requires g == Grid(3, 2, [100, 100, 100, 100, 100, 100]) && x == 0x20_0000
    ensures ValidGrid(g) && NeverRejects(g) && !InTable(g, x, 0) && !Rejected(g, x, 0) && Readable(g, x, 0)
    ensures BilinearQ7(g, x, 0) == 99
  {
    assert Index(x) == 2 && Fract(x) == 0 && Index(0) == 0 && Fract(0) == 0;
    BilinearAccepted(g, x, 0);
    EdgeCell(100, 100, 100, 100, 0);
  }

  /** The grids in which no accepted point reads past the data. */
  predicate ReadsStayInData(g: Grid)
  {
    g.numRows == 0 || g.numCols == 0 ||
    Min(g.numRows, 0x800) + g.numCols * Min(g.numCols, 0x800) < g.numRows * g.numCols
  }

  lemma AcceptedIsReadable(g: Grid, x: Q31, y: Q31)
    requires ValidGrid(g) && ReadsStayInData(g) && !Rejected(g, x, y)
    ensures Readable(g, x, y)
  {
    MulLe(g.numCols, Index(y) + 1, Min(g.numCols, 0x800));
  }

  /** The condition on the grid for reading inside the data, over all points. */
  lemma ReadsStayInDataExactly(g: Grid)
    requires ValidGrid(g)
    ensures ReadsStayInData(g) <==> (forall x: Q31, y: Q31 :: !Rejected(g, x, y) ==> Readable(g, x, y))
  {
    if ReadsStayInData(g) {
      forall x: Q31, y: Q31 | !Rejected(g, x, y)
        ensures Readable(g, x, y)
      {
        AcceptedIsReadable(g, x, y);
      }
    } else {
      var i, j := Min(g.numRows, 0x800) - 1, Min(g.numCols, 0x800) - 1;
      IndexOfEntry(i);
      IndexOfEntry(j);
      var x: Q31, y: Q31 := i * 0x10_0000, j * 0x10_0000;
      assert !Rejected(g, x, y) && !Readable(g, x, y);
    }
  }

  /** Up to 0x800 rows and columns the condition needs more rows than columns: a square grid
      always has an accepted point that reads past its data. */
  lemma ReadsStayInSmallGrid(g: Grid)
    requires 1 <= g.numRows <= 0x800 && 1 <= g.numCols <= 0x800
    ensures ReadsStayInData(g) <==> g.numCols * g.numCols < g.numRows * (g.numCols - 1)
    ensures ReadsStayInData(g) ==> g.numCols + 2 <= g.numRows
  {
    var r, c := g.numRows as int, g.numCols as int;
    assert r * (c - 1) == r * c - r;
    if r <= c + 1 {
      MulAtLeast(c + 1, r, c - 1);
      assert (c + 1) * (c - 1) == c * c - 1;
    }
  }

  /** In a wide grid of equal positive values, points of the grid are answered with zero. */
  lemma WideGridAnswersZero(g: Grid, x: Q31)
    requires g == Grid(2, 4, [100, 100, 100, 100, 100, 100, 100, 100]) && x == 0x20_0000
    ensures ValidGrid(g) && Inside(g, x, 0)
    ensures BilinearQ7(g, x, 0) == 0 && TwoStep(g, x, 0) / 0x100_0000_0000 == 99
  {
    assert Index(x) == 2 && Fract(x) == 0 && Index(0) == 0 && Fract(0) == 0;
    assert AlongX(g, x, 0) == 100 * 0xF_FFFF && AlongX(g, x, 1) == 100 * 0xF_FFFF;
  }

  lemma AcrossTheSeam(x: int)
    requires Fract(x) == 0xF_FFFF
    ensures Index(x + 1) == Index(x) + 1 && Fract(x + 1) == 0
  {
  }

  /** The last point of a cell and the first of its right neighbour have the same value. */
  lemma SharedVerticalEdge(g: Grid, x: Q31, y: Q31)
    requires ValidGrid(g) && Inside(g, x, y) && !Rejected(g, x, y)
    requires Fract(x) == 0xF_FFFF && x < 0x7FFF_FFFF
    requires Inside(g, x + 1, y) && !Rejected(g, x + 1, y)
    ensures BilinearQ7(g, x + 1, y) == BilinearQ7(g, x, y)
  {
    AcrossTheSeam(x);
    BilinearIsTwoStep(g, x, y);
    BilinearIsTwoStep(g, x + 1, y);
    assert forall row :: 0 <= row < g.numRows ==> AlongX(g, x + 1, row) == AlongX(g, x, row);
  }

  lemma SharedHorizontalEdge(g: Grid, x: Q31, y: Q31)
    requires ValidGrid(g) && Inside(g, x, y) && !Rejected(g, x, y)
    requires Fract(y) == 0xF_FFFF && y < 0x7FFF_FFFF
    requires Inside(g, x, y + 1) && !Rejected(g, x, y + 1)
    ensures BilinearQ7(g, x, y + 1) == BilinearQ7(g, x, y)
  {
    AcrossTheSeam(y);
    BilinearIsTwoStep(g, x, y);
    BilinearIsTwoStep(g, x, y + 1);
  }

  ghost predicate RowSorted(g: Grid, row: int)
    requires ValidGrid(g) && 0 <= row < g.numRows
  {
    forall i, j :: 0 <= i <= j < g.numCols ==> At(g, i, row) <= At(g, j, row)
  }

  lemma AlongXMonotone(g: Grid, x: int, x': int, row: int)
    requires ValidGrid(g) && 0 <= row < g.numRows && RowSorted(g, row)
    requires 0 <= x <= x' && Index(x') + 1 < g.numCols
    ensures AlongX(g, x, row) <= AlongX(g, x', row)
  {
    var i, j := Index(x), Index(x');
    var a0, a1, b0, b1 := At(g, i, row), At(g, i + 1, row), At(g, j, row), At(g, j + 1, row);
    if i == j {
      BlendMonotone(a0, a1, Fract(x), Fract(x'));
    } else {
      BlendMonotone(a0, a1, Fract(x), Fract(x));
      BlendMonotone(b0, b1, Fract(x'), Fract(x'));
    }
  }

  lemma BlendOfLarger(y0: int, y1: int, z0: int, z1: int, f: int)
    requires y0 <= z0 && y1 <= z1 && 0 <= f <= 0xF_FFFF
    ensures Blend(y0, y1, f) <= Blend(z0, z1, f)
  {
    MulAtLeast(z0, y0, 0xF_FFFF - f);
    MulAtLeast(z1, y1, f);
  }

  /** If all rows are non-decreasing, so is the result along x, within and across cells. */
  lemma BilinearMonotone(g: Grid, x: Q31, x': Q31, y: Q31)
    requires ValidGrid(g) && Inside(g, x, y) && Inside(g, x', y)
    requires !Rejected(g, x, y) && !Rejected(g, x', y)
    requires forall row :: 0 <= row < g.numRows ==> RowSorted(g, row)
    requires x <= x'
    ensures BilinearQ7(g, x, y) <= BilinearQ7(g, x', y)
  {
    var row := Index(y);
    AlongXMonotone(g, x, x', row);
    AlongXMonotone(g, x, x', row + 1);
    BlendOfLarger(AlongX(g, x, row), AlongX(g, x, row + 1), AlongX(g, x', row), AlongX(g, x', row + 1), Fract(y));
    BilinearIsTwoStep(g, x, y);
    BilinearIsTwoStep(g, x', y);
    DivMonotone(TwoStep(g, x, y), TwoStep(g, x', y), 0x100_0000_0000);
  }

  /** Interpolating along y first gives the same sum. */
  lemma BlendSwap(a: int, b: int, c: int, d: int, u: int, v: int)
    ensures Blend(Blend(a, b, u), Blend(c, d, u), v) == Blend(Blend(a, c, v), Blend(b, d, v), u)
  {
    FourTerms(a, b, c, d, u, v);
    FourTerms(a, c, b, d, v, u);
    Reordered(a, b, c, d, 0xF_FFFF - u, u, 0xF_FFFF - v, v);
  }

  lemma Reordered(a: int, b: int, c: int, d: int, u': int, u: int, v': int, v: int)
    ensures a * u' * v' + b * v' * u + c * u' * v + d * v * u
            == a * v' * u' + c * u' * v + b * v' * u + d * u * v
  {
    assert a * u' * v' == a * v' * u' && d * v * u == d * u * v;
  }

  ghost predicate ColumnSorted(g: Grid, col: int)
    requires ValidGrid(g) && 0 <= col < g.numCols
  {
    forall i, j :: 0 <= i <= j < g.numRows ==> At(g, col, i) <= At(g, col, j)
  }

  function AlongY(g: Grid, col: int, y: int): int
    requires ValidGrid(g) && 0 <= Index(y) && Index(y) + 1 < g.numRows && 0 <= col < g.numCols
  {
    Blend(At(g, col, Index(y)), At(g, col, Index(y) + 1), Fract(y))
  }

  lemma AlongYMonotone(g: Grid, col: int, y: int, y': int)
    requires ValidGrid(g) && 0 <= col < g.numCols && ColumnSorted(g, col)
    requires 0 <= y <= y' && Index(y') + 1 < g.numRows
    ensures AlongY(g, col, y) <= AlongY(g, col, y')
  {
    var i, j := Index(y), Index(y');
    var a0, a1, b0, b1 := At(g, col, i), At(g, col, i + 1), At(g, col, j), At(g, col, j + 1);
    if i == j {
      BlendMonotone(a0, a1, Fract(y), Fract(y'));
    } else {
      BlendMonotone(a0, a1, Fract(y), Fract(y));
      BlendMonotone(b0, b1, Fract(y'), Fract(y'));
    }
  }

  lemma TwoStepAlongY(g: Grid, x: Q31, y: Q31)
    requires ValidGrid(g) && Inside(g, x, y)
    ensures TwoStep(g, x, y) == Blend(AlongY(g, Index(x), y), AlongY(g, Index(x) + 1, y), Fract(x))
  {
    var i, j := Index(x), Index(y);
    BlendSwap(At(g, i, j), At(g, i + 1, j), At(g, i, j + 1), At(g, i + 1, j + 1), Fract(x), Fract(y));
  }

  /** If all columns are non-decreasing, so is the result along y, within and across cells. */
  lemma BilinearMonotoneY(g: Grid, x: Q31, y: Q31, y': Q31)
    requires ValidGrid(g) && Inside(g, x, y) && Inside(g, x, y')
    requires !Rejected(g, x, y) && !Rejected(g, x, y')
    requires forall col :: 0 <= col < g.numCols ==> ColumnSorted(g, col)
    requires y <= y'
    ensures BilinearQ7(g, x, y) <= BilinearQ7(g, x, y')
  {
    var col := Index(x);
    AlongYMonotone(g, col, y, y');
    AlongYMonotone(g, col + 1, y, y');
    BlendOfLarger(AlongY(g, col, y), AlongY(g, col + 1, y), AlongY(g, col, y'), AlongY(g, col + 1, y'), Fract(x));
    TwoStepAlongY(g, x, y);
    TwoStepAlongY(g, x, y');
    BilinearIsTwoStep(g, x, y);
    BilinearIsTwoStep(g, x, y');
    DivMonotone(TwoStep(g, x, y), TwoStep(g, x, y'), 0x100_0000_0000);
  }

  /** The value is less than 1 + 2^-12 below the exact surface and at most 2^-12 above it. */
  lemma BilinearError(g: Grid, x: Q31, y: Q31)
    requires ValidGrid(g) && Inside(g, x, y) && !Rejected(g, x, y)
    ensures var u, v := x % 0x10_0000, y % 0x10_0000;
            var i, j, one := x / 0x10_0000, y / 0x10_0000, 0x10_0000;
            var top := At(g, i, j) * (one - u) + At(g, i + 1, j) * u;
            var bottom := At(g, i, j + 1) * (one - u) + At(g, i + 1, j + 1) * u;
            var exact := top * (one - v) + bottom * v;
            exact - 0x100_1000_0000 < BilinearQ7(g, x, y) * 0x100_0000_0000 <= exact + 0x1000_0000
  {
    var i, j := Index(x), Index(y);
    BilinearIsTwoStep(g, x, y);
    SurfaceError(At(g, i, j), At(g, i + 1, j), At(g, i, j + 1), At(g, i + 1, j + 1), Fract(x), Fract(y));
    DivBounds(TwoStep(g, x, y), 0x100_0000_0000);
  }

  lemma SurfaceError(a: Q7, b: Q7, c: Q7, d: Q7, u: int, v: int)
    requires 0 <= u <= 0xF_FFFF && 0 <= v <= 0xF_FFFF
    ensures Abs(Blend(Blend(a, b, u), Blend(c, d, u), v)
                - ExactLine(ExactLine(a, b, u), ExactLine(c, d, u), v)) <= 0x1000_0000
  {
    var top, bottom := Blend(a, b, u), Blend(c, d, u);
    assert ExactLine(a, b, u) == top + a && ExactLine(c, d, u) == bottom + c;
    BlendOfSums(top, a, bottom, c, v);
    BlendRange(a, b, u);
    BlendRange(a, c, v);
  }

  lemma BlendOfSums(p: int, a: int, q: int, c: int, v: int)
    ensures ExactLine(p + a, q + c, v) == Blend(p, q, v) + Blend(a, c, v) + p + a
  {
    assert (p + a) * (0x10_0000 - v) == p * (0xF_FFFF - v) + p + a * (0xF_FFFF - v) + a;
    assert (q + c) * v == q * v + c * v;
  }
}
