/**
 The Newton reciprocals. Both formats run the same step with a different unit: for Q31 the
 unit h is 2^30, for Q15 it is 2^14, and a normalised input n with an estimate out is exact
 when n * out is 2 * h * h.
 */
module Reciprocal {
  import opened Words
  import opened BitLoops
  import opened FixedPoint

  // ---------------------------------------------------------------- the Newton step

  /** The correction factor, 2 minus the product of input and estimate, less one unit. */
  function Correction(h: int, n: int, out: int): int
    requires h > 0
  {
    2 * h - 1 - (n * out) / (2 * h)
  }

  function NewtonStep(h: int, n: int, out: int): int
    requires h > 0
  {
    out * Correction(h, n, out) / h
  }

  lemma CorrectionScaled(h: int, q: int)
    ensures 2 * h * (2 * h - 1 - q) == 2 * (2 * h * h) - 2 * h - q * (2 * h)
  {
  }

  /** The rounded quotient makes the scaled correction fall at most 2h short, and 1 at least. */
  lemma CorrectionBrackets(h: int, p: int)
    requires h > 0
    ensures 2 * (2 * h * h) - p - 2 * h <= 2 * h * (2 * h - 1 - p / (2 * h)) <= 2 * (2 * h * h) - p - 1
  {
    DivBounds(p, 2 * h);
    CorrectionScaled(h, p / (2 * h));
  }

  lemma Regroup(n: int, h: int, out: int, t: int)
    ensures n * (2 * h) * (out * t) == n * out * (2 * h * t)
  {
  }

  lemma RegroupSquare(n: int, h: int, out: int)
    ensures n * (2 * h) * (out * h) == n * out * (2 * h * h)
    ensures n * (2 * h) * (out * h + h) == n * out * (2 * h * h) + n * (2 * h * h)
  {
    Regroup(n, h, out, h);
    Regroup(n, h, 1, h);
    assert n * (2 * h) * (out * h + h) == n * (2 * h) * (out * h) + n * (2 * h) * (1 * h);
  }

  /** The rounded estimate, scaled, falls less than n * d short. */
  lemma EstimateBrackets(h: int, n: int, out: int, t: int)
    requires h > 0 && n >= 0
    ensures var d, p' := 2 * h * h, n * (out * t / h);
            p' * d <= n * out * (2 * h * t) <= p' * d + n * d
  {
    var out' := out * t / h;
    DivBounds(out * t, h);
    MulLe(2 * h, 0, n);
    MulLe(n * (2 * h), out' * h, out * t);
    MulLe(n * (2 * h), out * t, out' * h + h);
    Regroup(n, h, out, t);
    RegroupSquare(n, h, out');
  }

  lemma Spread(p: int, d: int, e: int)
    ensures p * (2 * d - p - e) == p * (2 * d - p) - p * e
  {
  }

  /** With d the exact product, one step takes the product p = n * out into the rounding of
      the ideal p * (2d - p) / d. */
  lemma StepBrackets(h: int, n: int, out: int)
    requires h > 0 && n >= 0 && out >= 0
    ensures var d, p, p' := 2 * h * h, n * out, n * NewtonStep(h, n, out);
            && p' * d <= p * (2 * d - p) - p
            && p' * d >= p * (2 * d - p) - p * (2 * h) - n * d
  {
    var d, p := 2 * h * h, n * out;
    var t := Correction(h, n, out);
    CorrectionBrackets(h, p);
    EstimateBrackets(h, n, out, t);
    MulLe(n, 0, out);
    MulLe(p, 2 * h * t, 2 * d - p - 1);
    MulLe(p, 2 * d - p - 2 * h, 2 * h * t);
    Spread(p, d, 1);
    Spread(p, d, 2 * h);
  }

  lemma BelowTheSquare(d: int, p: int, p': int)
    requires d > 0 && p >= 0
    requires p' * d <= p * (2 * d - p) - p
    ensures p' < d
  {
  }

  /** A step from any non-negative estimate ends below the exact reciprocal. */
  lemma StepNeverOvershoots(h: int, n: int, out: int)
    requires h > 0 && n > 0 && out >= 0
    ensures n * NewtonStep(h, n, out) < 2 * h * h
  {
    StepBrackets(h, n, out);
    MulLe(n, 0, out);
    MulLe(2 * h, 1, h);
    BelowTheSquare(2 * h * h, n * out, n * NewtonStep(h, n, out));
  }

  lemma NearTheSquare(d: int, p: int, p': int, e: int, rounding: int)
    requires -e <= d - p <= e
    requires p' * d >= p * (2 * d - p) - rounding
    ensures d * (d - p') <= e * e + rounding
  {
  }

  /** A step squares the relative error, up to rounding in the correction and the estimate. */
  lemma StepConverges(h: int, n: int, out: int, e: int)
    requires h > 0 && n >= 0 && out >= 0
    requires -e <= 2 * h * h - n * out <= e
    ensures var d := 2 * h * h;
            d * (d - n * NewtonStep(h, n, out)) <= e * e + (n * out * (2 * h) + n * d)
  {
    var d := 2 * h * h;
    StepBrackets(h, n, out);
    NearTheSquare(d, n * out, n * NewtonStep(h, n, out), e, n * out * (2 * h) + n * d);
  }

  /** In the range of the formats the product and the correction are below 2h * 2h and 2h, so
      the unsigned subtraction never wraps. */
  lemma CorrectionInRange(h: int, n: int, out: int)
    requires h > 0 && 0 <= n < 2 * h && 0 <= out < 2 * h
    ensures 0 <= n * out / (2 * h) < 2 * h && 0 <= Correction(h, n, out) < 2 * h
  {
    MulLe(n, 0, out);
    MulLe(n, out, 2 * h);
    MulAtLeast(2 * h - 1, n, 2 * h);
    assert (2 * h - 1) * (2 * h) == 2 * h * (2 * h) - 2 * h;
    DivInRange(n * out, 2 * h, 2 * h);
  }

  /** The new estimate of a normalised input fits the format: the narrowing loses nothing. */
  lemma StepInRange(h: int, n: int, out: int)
    requires h > 0 && h <= n < 2 * h && 0 <= out < 2 * h
    ensures 0 <= NewtonStep(h, n, out) < 2 * h
  {
    CorrectionInRange(h, n, out);
    StepNeverOvershoots(h, n, out);
    var c, out' := out * Correction(h, n, out), NewtonStep(h, n, out);
    MulLe(out, 0, Correction(h, n, out));
    DivMonotone(0, c, h);
    if out' >= 2 * h {
      MulAtLeast(n, h, out');
      MulLe(h, 2 * h, out');
    }
  }

  // ---------------------------------------------------------------- table seeds

  /** The table index: the six bits below the leading one of a normalised input. */
  function SeedIndex(n: Q31, unit: int): (i: nat)
    requires unit > 0
    ensures i < 64
  {
    (n / unit) % 64
  }

  lemma IndexMask(x: int)
    ensures And(ToU32(x), 0x3F) == x % 64
  {
    assert Pow2(6) == 64;
    AndLowMask(ToU32(x), 6);
    LowOfWord(x, 64, 0x400_0000);
  }

  /** Every entry is non-negative and within 2^-6 of the reciprocal of each input it serves. */
  ghost predicate GoodTableQ31(table: seq<Q31>)
  {
    && |table| == 64
    && (forall n: Q31 :: 0x4000_0000 <= n ==> GoodSeedQ31(n, table[SeedIndex(n, 0x100_0000)]))
  }

  predicate GoodSeedQ31(n: Q31, seed: Q31)
  {
    seed >= 0 && Abs(n * seed - 0x2000_0000_0000_0000) <= 0x80_0000_0000_0000
  }

  ghost predicate GoodTableQ15(table: seq<Q15>)
  {
    && |table| == 64
    && (forall n: Q31 :: 0x4000 <= n < 0x8000 ==> GoodSeedQ15(n, table[SeedIndex(n, 0x100)]))
  }

  predicate GoodSeedQ15(n: Q31, seed: Q15)
  {
    seed >= 0 && Abs(n * seed - 0x2000_0000) <= 0x80_0000
  }

  // ---------------------------------------------------------------- normalisation

  /** The left shift that brings the leading one of a positive word of the given width just
      below its sign bit. */
  function SignBits(x: U32, width: nat): nat
    requires 1 < width <= 32 && x < Pow2(width - 1)
  {
    SmallHasLeadingZeros(x, width);
    LeadingZeros(x) - (33 - width)
  }

  lemma SmallHasLeadingZeros(x: U32, width: nat)
    requires 1 < width <= 32 && x < Pow2(width - 1)
    ensures LeadingZeros(x) >= 33 - width
  {
    var n := LeadingZeros(x);
    if x != 0 && n < 33 - width {
      Pow2Monotone(width - 1, 31 - n);
    }
  }

  lemma ShiftedRange(x: int, lo: nat, hi: nat, s: nat)
    requires Pow2(lo) <= x < Pow2(hi)
    ensures Pow2(lo + s) <= x * Pow2(s) < Pow2(hi + s)
  {
    Pow2Add(lo, s);
    Pow2Add(hi, s);
    MulAtLeast(x, Pow2(lo), Pow2(s));
    MulAtLeast(Pow2(hi), x + 1, Pow2(s));
    assert (x + 1) * Pow2(s) == x * Pow2(s) + Pow2(s);
  }

  /** The shift does not overflow, and the result lies in the top half of the positive range. */
  lemma NormalisedRange(x: U32, width: nat)
    requires 1 < width <= 32 && 0 < x < Pow2(width - 1)
    ensures Pow2(width - 2) <= x * Pow2(SignBits(x, width)) < Pow2(width - 1)
  {
    var n := LeadingZeros(x);
    ShiftedRange(x, 31 - n, 32 - n, SignBits(x, width));
  }

  // ---------------------------------------------------------------- Q31

  /** The estimate after both steps, in exact arithmetic. */
  function TwoSteps(h: int, n: int, seed: int): int
    requires h > 0
  {
    NewtonStep(h, n, NewtonStep(h, n, seed))
  }

  /** The left shift for an input; the magnitude of the most negative one has no sign bit. */
  function ShiftQ31(x: Q31): nat
    requires -0x8000_0000 < x
  {
    Pow2Values();
    SignBits(Abs(x), 32)
  }

  function NormalisedQ31(x: Q31): (n: Q31)
    requires -0x8000_0000 < x
    ensures n == x * Pow2(ShiftQ31(x)) && -0x8000_0000 < n
    ensures if x > 0 then n >= 0x4000_0000 else if x < 0 then n <= -0x4000_0000 else n == 0
  {
    Pow2Values();
    Mirror(x, Pow2(ShiftQ31(x)));
    if x == 0 then 0
    else NormalisedRange(Abs(x), 32); ToQ31(x * Pow2(ShiftQ31(x)))
  }

  lemma Mirror(x: int, p: int)
    ensures x * p == if x < 0 then -(Abs(x) * p) else Abs(x) * p
  {
  }

  function SeedQ31(x: Q31, table: seq<Q31>): Q31
    requires -0x8000_0000 < x && |table| == 64
  {
    table[SeedIndex(NormalisedQ31(x), 0x100_0000)]
  }

  /** The unsigned word tempVal of the Q31 loop. */
  function TempValQ31(n: Q31, out: Q31): U32
  {
    ToU32(0x7FFF_FFFF - ToU32(n * out / 0x8000_0000))
  }

  /** One turn of the Q31 loop on machine words. */
  function TurnQ31(n: Q31, out: Q31): Q31
  {
    ProductFits(out, TempValQ31(n, out));
    ClipQ63ToQ31(out * TempValQ31(n, out) / 0x4000_0000)
  }

  lemma ProductFits(out: Q31, t: U32)
    ensures -0x8000_0000_0000_0000 <= out * t <= 0x8000_0000_0000_0000 - 0x8000_0000
    ensures -0x8000_0000_0000_0000 <= out * t / 0x4000_0000 < 0x8000_0000_0000_0000
  {
    MulAtLeast(out, -0x8000_0000, t);
    MulAtLeast(0x7FFF_FFFF, out, t);
  }

  lemma ProductInRange(n: Q31, out: Q31)
    requires n != -0x8000_0000
    ensures -0x8000_0000 <= n * out / 0x8000_0000 < 0x8000_0000
  {
    if out >= 0 {
      MulAtLeast(n, -0x8000_0000, out);
      MulAtLeast(0x8000_0000, n, out);
    } else {
      var m := -(out as int);
      MulAtLeast(n, -0x7FFF_FFFF, m);
      MulAtLeast(0x8000_0000, n, m);
      assert n * m == -(n * out);
    }
    QuotientInRange(n * out);
  }

  lemma QuotientInRange(p: int)
    requires -0x4000_0000_0000_0000 <= p < 0x4000_0000_0000_0000
    ensures -0x8000_0000 <= p / 0x8000_0000 < 0x8000_0000
  {
  }

  lemma UnsignedDifference(q: int)
    requires -0x8000_0000 <= q < 0x8000_0000
    ensures ToU32(0x7FFF_FFFF - ToU32(q)) == 0x7FFF_FFFF - q
  {
  }

  /** The exact step, cut off at the ends of the format. */
  function SatStepQ31(n: Q31, out: Q31): Q31
  {
    Clamp(NewtonStep(0x4000_0000, n, out), -0x8000_0000, 0x7FFF_FFFF)
  }

  /** The unsigned words of a turn never wrap: for every input, negative or not, and every
      estimate it computes the exact step, saturated. */
  lemma TurnQ31IsSaturatedStep(n: Q31, out: Q31)
    requires n != -0x8000_0000
    ensures TurnQ31(n, out) == SatStepQ31(n, out)
    ensures TurnQ31(n, out) ==
            Clamp(out * (0x7FFF_FFFF - n * out / 0x8000_0000) / 0x4000_0000, -0x8000_0000, 0x7FFF_FFFF)
  {
    ProductInRange(n, out);
    UnsignedDifference(n * out / 0x8000_0000);
    assert TempValQ31(n, out) == Correction(0x4000_0000, n, out);
    ProductFits(out, TempValQ31(n, out));
  }

  /** On a normalised positive input it does not saturate either. */
  lemma TurnQ31IsExact(n: Q31, out: Q31)
    requires n >= 0x4000_0000 && out >= 0
    ensures TurnQ31(n, out) == NewtonStep(0x4000_0000, n, out) >= 0
  {
    TurnQ31IsSaturatedStep(n, out);
    StepInRange(0x4000_0000, n, out);
  }

  lemma TwoTurnsQ31(n: Q31, seed: Q31)
    requires n >= 0x4000_0000 && seed >= 0
    ensures SatStepQ31(n, SatStepQ31(n, seed)) == TwoSteps(0x4000_0000, n, seed)
  {
    TurnQ31IsSaturatedStep(n, seed);
    TurnQ31IsExact(n, seed);
    TurnQ31IsSaturatedStep(n, SatStepQ31(n, seed));
    TurnQ31IsExact(n, SatStepQ31(n, seed));
  }

  lemma ShiftIsClz(x: Q31)
    requires -0x8000_0000 < x
    ensures 1 <= LeadingZeros(Abs(x)) && ShiftQ31(x) == LeadingZeros(Abs(x)) - 1
  {
    Pow2Values();
    SmallHasLeadingZeros(Abs(x), 32);
  }

  /** The running approximation of arm_recip_q31, for two iterations. */
  method RefineQ31(n: Q31, seed: Q31) returns (out: Q31)
    requires n != -0x8000_0000
    ensures out == SatStepQ31(n, SatStepQ31(n, seed))
    ensures n >= 0x4000_0000 && seed >= 0 ==> out == TwoSteps(0x4000_0000, n, seed)
  {
    out := seed;
    var i: U32 := 0;
    while i < 2
      invariant i <= 2
      invariant i == 0 ==> out == seed
      invariant i == 1 ==> out == SatStepQ31(n, seed)
      invariant i == 2 ==> out == SatStepQ31(n, SatStepQ31(n, seed))
    {
      TurnQ31IsSaturatedStep(n, out);
      out := TurnQ31(n, out);
      i := i + 1;
    }
    if n >= 0x4000_0000 && seed >= 0 {
      TwoTurnsQ31(n, seed);
    }
  }

  /** The count of sign bits and the shift. */
  method NormaliseQ31(input: Q31) returns (signBits: U32, n: Q31)
    requires -0x8000_0000 < input
    ensures signBits == ShiftQ31(input) && n == NormalisedQ31(input)
  {
    var zeros: nat;
    if input > 0 {
      zeros := Clz(input);
    } else {
      zeros := Clz(-input);
    }
    ShiftIsClz(input);
    signBits := zeros - 1;
    n := ToQ31(input * Pow2(signBits));
  }

  /** arm_recip_q31. The left shift of a negative input is modelled as the multiplication the
      hardware does; the most negative input, whose negation overflows, is excluded. */
  method RecipQ31(input: Q31, table: seq<Q31>) returns (ret: U32, dst: Q31)
    requires -0x8000_0000 < input
    requires |table| == 64
    ensures ret == ShiftQ31(input) + 1 && (input == 0 ==> ret == 32)
    ensures var n := NormalisedQ31(input);
            && n == input * Pow2(ret - 1) && (input != 0 ==> 0x4000_0000 <= Abs(n) < 0x8000_0000)
            && dst == SatStepQ31(n, SatStepQ31(n, table[(n / 0x100_0000) % 64]))
    ensures input > 0 && SeedQ31(input, table) >= 0 ==>
              dst == TwoSteps(0x4000_0000, NormalisedQ31(input), SeedQ31(input, table))
    ensures input > 0 && GoodTableQ31(table) ==>
              0 < 0x2000_0000_0000_0000 - input * dst * Pow2(ret - 1) <= 0x20_0000_0000 + 0x2_0000_0000
    ensures input <= 0 && GoodTableQ31(table) ==> dst == 0x7FFF_FFFF
  {
    var signBits, n := NormaliseQ31(input);
    IndexMask(n / 0x100_0000);
    var index := And(ToU32(n / 0x100_0000), 0x3F);
    assert table[index] == SeedQ31(input, table);
    dst := RefineQ31(n, table[index]);
    ret := signBits + 1;
    ResultQ31(input, table);
  }

  /** The entries of a good table, read at any index. */
  lemma EntryQ31(table: seq<Q31>, i: nat)
    requires GoodTableQ31(table) && i < 64
    ensures table[i] >= 0x3F00_0000 && (i == 0 ==> table[i] >= 0x7E00_0000)
  {
    var n: Q31 := 0x4000_0000 + i * 0x100_0000;
    assert SeedIndex(n, 0x100_0000) == i;
    assert GoodSeedQ31(n, table[i]);
    if table[i] < 0x3F00_0000 {
      MulAtLeast(0x8000_0000, n, table[i]);
    }
  }

  lemma StepSaturates(n: Q31, out: Q31)
    requires n <= -0x4000_0000 && out >= 0x3F00_0000
    ensures SatStepQ31(n, out) == 0x7FFF_FFFF
  {
    MulAtLeast(-0x4000_0000, n, out);
    DivMonotone(n * out, -0x4000_0000 * 0x3F00_0000, 0x8000_0000);
    assert -0x4000_0000 * 0x3F00_0000 / 0x8000_0000 == -0x1F80_0000;
    var c := Correction(0x4000_0000, n, out);
    assert c >= 0x9F7F_FFFF;
    MulAtLeast(out, 0x3F00_0000, c);
    DivMonotone(0x7FFF_FFFF * 0x4000_0000, out * c, 0x4000_0000);
  }

  lemma ZeroStepSaturates(out: Q31)
    requires out >= 0x7E00_0000
    ensures SatStepQ31(0, out) == 0x7FFF_FFFF
  {
    assert 0 * out / 0x8000_0000 == 0;
  }

  /** For a negative input the correction adds instead of subtracting: with any good table the
      result is the largest value, as it is for zero, and not the reciprocal. */
  lemma NotPositiveSaturatesQ31(input: Q31, table: seq<Q31>)
    requires -0x8000_0000 < input <= 0 && GoodTableQ31(table)
    ensures var n := NormalisedQ31(input); SatStepQ31(n, SatStepQ31(n, SeedQ31(input, table))) == 0x7FFF_FFFF
  {
    var n := NormalisedQ31(input);
    EntryQ31(table, SeedIndex(n, 0x100_0000));
    if input < 0 {
      StepSaturates(n, SeedQ31(input, table));
      StepSaturates(n, 0x7FFF_FFFF);
    } else {
      ZeroStepSaturates(SeedQ31(input, table));
      ZeroStepSaturates(0x7FFF_FFFF);
    }
  }

  /** Two steps from a seed within 2^-6 leave a relative error of at most 2^-24 + 2^-28. */
  lemma TwoStepsAccurateQ31(n: Q31, seed: Q31)
    requires n >= 0x4000_0000 && GoodSeedQ31(n, seed)
    ensures 0 < 0x2000_0000_0000_0000 - n * TwoSteps(0x4000_0000, n, seed) <= 0x20_0000_0000 + 0x2_0000_0000
  {
    var d := 0x2000_0000_0000_0000;
    var e0 := 0x80_0000_0000_0000;
    var e1 := 0x2_0000_0000_0000 + 0x1_0200_0000;
    var out1 := NewtonStep(0x4000_0000, n, seed);
    StepConverges(0x4000_0000, n, seed, e0);
    StepNeverOvershoots(0x4000_0000, n, seed);
    StepInRange(0x4000_0000, n, seed);
    assert 0 < d - n * out1 <= e1;
    StepConverges(0x4000_0000, n, out1, e1);
    StepNeverOvershoots(0x4000_0000, n, out1);
  }

  /** For every positive input and every good table, input * dst * 2^(ret - 1) is below 2^61
      and within 2^37 + 2^33 of it. */
  lemma ReciprocalAccurateQ31(input: Q31, table: seq<Q31>)
    requires input > 0 && GoodTableQ31(table)
    ensures SeedQ31(input, table) >= 0
    ensures var dst := TwoSteps(0x4000_0000, NormalisedQ31(input), SeedQ31(input, table));
            0 < 0x2000_0000_0000_0000 - input * dst * Pow2(ShiftQ31(input)) <= 0x20_0000_0000 + 0x2_0000_0000
  {
    var n, seed := NormalisedQ31(input), SeedQ31(input, table);
    TwoStepsAccurateQ31(n, seed);
    Reorder(input, TwoSteps(0x4000_0000, n, seed), Pow2(ShiftQ31(input)));
  }

  lemma Reorder(a: int, b: int, c: int)
    ensures a * b * c == a * c * b
  {
  }

  /** What the two turns leave, by the sign of the input. */
  lemma ResultQ31(input: Q31, table: seq<Q31>)
    requires -0x8000_0000 < input && |table| == 64
    ensures var n, seed := NormalisedQ31(input), SeedQ31(input, table);
            var dst := SatStepQ31(n, SatStepQ31(n, seed));
            && (input > 0 && seed >= 0 ==> dst == TwoSteps(0x4000_0000, n, seed))
            && (input > 0 && GoodTableQ31(table) ==>
                  0 < 0x2000_0000_0000_0000 - input * dst * Pow2(ShiftQ31(input)) <= 0x20_0000_0000 + 0x2_0000_0000)
            && (input <= 0 && GoodTableQ31(table) ==> dst == 0x7FFF_FFFF)
  {
    var n, seed := NormalisedQ31(input), SeedQ31(input, table);
    if input > 0 && seed >= 0 {
      TwoTurnsQ31(n, seed);
    }
    if input > 0 && GoodTableQ31(table) {
      ReciprocalAccurateQ31(input, table);
    }
    if input <= 0 && GoodTableQ31(table) {
      NotPositiveSaturatesQ31(input, table);
    }
  }

  /** Without a positive input the exact step leaves the format from any estimate near the top. */
  lemma StepGrowsQ31(n: int, out: int)
    requires n <= 0 && out >= 0x7E00_0000
    ensures NewtonStep(0x4000_0000, n, out) > 0x8000_0000
  {
    MulAtLeast(0, n, out);
    DivMonotone(n * out, 0, 0x8000_0000);
    var c := Correction(0x4000_0000, n, out);
    assert c >= 0x7FFF_FFFF;
    MulAtLeast(out, 0x7E00_0000, c);
    DivMonotone(0x8000_0001 * 0x4000_0000, out * c, 0x4000_0000);
  }

  lemma TwoStepsLeaveQ31(n: Q31, seed: Q31)
    requires (n <= -0x4000_0000 && seed >= 0x3F00_0000) || (n == 0 && seed >= 0x7E00_0000)
    ensures TwoSteps(0x4000_0000, n, seed) > 0x8000_0000
  {
    if n == 0 {
      StepGrowsQ31(n, seed);
    } else {
      StepSaturates(n, seed);
    }
    StepGrowsQ31(n, NewtonStep(0x4000_0000, n, seed));
  }

  /** With a good table, the words compute the two exact Newton steps for the positive inputs
      and for no others. */
  lemma ExactStepsQ31(input: Q31, table: seq<Q31>)
    requires -0x8000_0000 < input && GoodTableQ31(table)
    ensures var n, seed := NormalisedQ31(input), SeedQ31(input, table);
            SatStepQ31(n, SatStepQ31(n, seed)) == TwoSteps(0x4000_0000, n, seed) <==> input > 0
  {
    var n, seed := NormalisedQ31(input), SeedQ31(input, table);
    EntryQ31(table, SeedIndex(n, 0x100_0000));
    if input > 0 {
      TwoTurnsQ31(n, seed);
    } else {
      TwoStepsLeaveQ31(n, seed);
    }
  }

  // ---------------------------------------------------------------- Q15

  function ShiftQ15(x: Q15): nat
    requires -0x8000 < x
  {
    Pow2Values();
    SignBits(Abs(x), 16)
  }

  function NormalisedQ15(x: Q15): (n: Q15)
    requires -0x8000 < x
    ensures n == x * Pow2(ShiftQ15(x)) && -0x8000 < n
    ensures if x > 0 then n >= 0x4000 else if x < 0 then n <= -0x4000 else n == 0
  {
    Pow2Values();
    Mirror(x, Pow2(ShiftQ15(x)));
    if x == 0 then 0
    else NormalisedRange(Abs(x), 16); ToQ15(x * Pow2(ShiftQ15(x)))
  }

  function SeedQ15(x: Q15, table: seq<Q15>): Q15
    requires -0x8000 < x && |table| == 64
  {
    table[SeedIndex(NormalisedQ15(x), 0x100)]
  }

  function TempValQ15(n: Q15, out: Q15): U32
  {
    ToU32(0x7FFF - ToU32(n * out / 0x8000))
  }

  /** One turn of the Q15 loop: the product is unsigned, and the cast does not clip. */
  function TurnQ15(n: Q15, out: Q15): Q15
  {
    ToQ15(ToU32(out * TempValQ15(n, out)) / 0x4000)
  }

  /** The exact step, narrowed by the cast. */
  function CastStepQ15(n: Q15, out: Q15): Q15
  {
    ToQ15(NewtonStep(0x4000, n, out))
  }

  lemma SameCast(x: int, k: int)
    ensures ToQ15(x - 0x1_0000 * k) == ToQ15(x)
  {
    var q, r := x / 0x1_0000, x % 0x1_0000;
    DivUnique(x - 0x1_0000 * k, 0x1_0000, q - k, r);
  }

  /** A shifted word differs from the shifted number by a multiple of 2^18. */
  lemma ShiftedWord(x: int)
    ensures ToU32(x) / 0x4000 == x / 0x4000 - 0x4_0000 * (x / 0x1_0000_0000)
  {
    var q := x / 0x1_0000_0000;
    DivUnique(ToU32(x), 0x4000, x / 0x4000 - 0x4_0000 * q, x % 0x4000);
  }

  lemma SameProduct(out: int, c: int)
    ensures ToU32(out * ToU32(c)) == ToU32(out * c)
  {
    var j, x := c / 0x1_0000_0000, out * c;
    SplitProduct(out, c, j, ToU32(c));
    DivUnique(out * ToU32(c), 0x1_0000_0000, x / 0x1_0000_0000 - out * j, x % 0x1_0000_0000);
  }

  lemma SplitProduct(out: int, c: int, j: int, r: int)
    requires c == 0x1_0000_0000 * j + r
    ensures out * r == out * c - 0x1_0000_0000 * (out * j)
  {
  }

  lemma SameCorrection(q: int)
    ensures ToU32(0x7FFF - ToU32(q)) == ToU32(0x7FFF - q)
  {
    var j := q / 0x1_0000_0000;
    var y := 0x7FFF - q;
    DivUnique(0x7FFF - ToU32(q), 0x1_0000_0000, y / 0x1_0000_0000 + j, y % 0x1_0000_0000);
  }

  /** For every input and every estimate, the unsigned words of a turn compute the exact step
      modulo 2^16. */
  lemma TurnQ15IsCastStep(n: Q15, out: Q15)
    ensures TurnQ15(n, out) == CastStepQ15(n, out)
    ensures TurnQ15(n, out) == ToQ15(out * (0x7FFF - n * out / 0x8000) / 0x4000)
  {
    var c := Correction(0x4000, n, out);
    SameCorrection(n * out / 0x8000);
    SameProduct(out, c);
    ShiftedWord(out * c);
    SameCast(out * c / 0x4000, 4 * (out * c / 0x1_0000_0000));
  }

  /** On a normalised positive input the cast loses nothing. */
  lemma TurnQ15IsExact(n: Q15, out: Q15)
    requires n >= 0x4000 && out >= 0
    ensures TurnQ15(n, out) == NewtonStep(0x4000, n, out) >= 0
  {
    TurnQ15IsCastStep(n, out);
    StepInRange(0x4000, n, out);
  }

  lemma TwoTurnsQ15(n: Q15, seed: Q15)
    requires n >= 0x4000 && seed >= 0
    ensures CastStepQ15(n, CastStepQ15(n, seed)) == TwoSteps(0x4000, n, seed)
  {
    StepInRange(0x4000, n, seed);
    StepInRange(0x4000, n, CastStepQ15(n, seed));
  }

  lemma ShiftQ15IsClz(x: Q15)
    requires -0x8000 < x
    ensures 17 <= LeadingZeros(Abs(x)) && ShiftQ15(x) == LeadingZeros(Abs(x)) - 17
  {
    Pow2Values();
    SmallHasLeadingZeros(Abs(x), 16);
  }

  /** The running approximation of arm_recip_q15, for two iterations. */
  method RefineQ15(n: Q15, seed: Q15) returns (out: Q15)
    ensures out == CastStepQ15(n, CastStepQ15(n, seed))
    ensures n >= 0x4000 && seed >= 0 ==> out == TwoSteps(0x4000, n, seed)
  {
    out := seed;
    var i: U32 := 0;
    while i < 2
      invariant i <= 2
      invariant i == 0 ==> out == seed
      invariant i == 1 ==> out == CastStepQ15(n, seed)
      invariant i == 2 ==> out == CastStepQ15(n, CastStepQ15(n, seed))
    {
      TurnQ15IsCastStep(n, out);
      out := TurnQ15(n, out);
      i := i + 1;
    }
    if n >= 0x4000 && seed >= 0 {
      TwoTurnsQ15(n, seed);
    }
  }

  /** The count of sign bits and the shift. */
  method NormaliseQ15(input: Q15) returns (signBits: U32, n: Q15)
    requires -0x8000 < input
    ensures signBits == ShiftQ15(input) && n == NormalisedQ15(input)
  {
    var zeros: nat;
    if input > 0 {
      zeros := Clz(input);
    } else {
      zeros := Clz(-input);
    }
    ShiftQ15IsClz(input);
    signBits := zeros - 17;
    n := ToQ15(input * Pow2(signBits));
  }

  /** arm_recip_q15. For the most negative input the code shifts by a negative count; it is
      excluded. */
  method RecipQ15(input: Q15, table: seq<Q15>) returns (ret: U32, dst: Q15)
    requires -0x8000 < input
    requires |table| == 64
    ensures ret == ShiftQ15(input) + 1 && (input == 0 ==> ret == 16)
    ensures var n := NormalisedQ15(input);
            && n == input * Pow2(ret - 1) && (input != 0 ==> 0x4000 <= Abs(n) < 0x8000)
            && dst == CastStepQ15(n, CastStepQ15(n, table[(n / 0x100) % 64]))
    ensures input > 0 && SeedQ15(input, table) >= 0 ==>
              dst == TwoSteps(0x4000, NormalisedQ15(input), SeedQ15(input, table))
    ensures input > 0 && GoodTableQ15(table) ==>
              0 < 0x2000_0000 - input * dst * Pow2(ret - 1) <= 0x1_0000 + 73
    ensures input == 0 && GoodTableQ15(table) ==> -0x804 <= dst <= -8
  {
    var signBits, n := NormaliseQ15(input);
    IndexMask(n / 0x100);
    var index := And(ToU32(n / 0x100), 0x3F);
    assert table[index] == SeedQ15(input, table);
    dst := RefineQ15(n, table[index]);
    ret := signBits + 1;
    ResultQ15(input, table);
  }

  lemma EntryQ15(table: seq<Q15>, i: nat)
    requires GoodTableQ15(table) && i < 64
    ensures table[i] >= 0x3F00 && (i == 0 ==> table[i] >= 0x7E00)
  {
    var n: Q31 := 0x4000 + i * 0x100;
    assert SeedIndex(n, 0x100) == i;
    assert GoodSeedQ15(n, table[i]);
    if table[i] < 0x3F00 {
      MulAtLeast(0x8000, n, table[i]);
    }
  }

  lemma ZeroStepQ15(out: Q15)
    ensures NewtonStep(0x4000, 0, out) == out * 0x7FFF / 0x4000
  {
    assert 0 * out / 0x8000 == 0;
  }

  lemma ZeroFromLarge(out: Q15)
    requires out >= 0x7E00
    ensures -0x402 <= CastStepQ15(0, out) <= -4
  {
    ZeroStepQ15(out);
    DivUnique(out * 0x7FFF, 0x4000, 2 * out - 2, 0x8000 - out);
  }

  lemma ZeroFromSmall(out: Q15)
    requires -0x402 <= out <= -4
    ensures -0x804 <= CastStepQ15(0, out) <= -8
  {
    ZeroStepQ15(out);
    DivUnique(out * 0x7FFF, 0x4000, 2 * out, -(out as int));
  }

  /** Zero does not saturate in Q15: the cast turns the largest values into small negative ones. */
  lemma ZeroWrapsQ15(table: seq<Q15>)
    requires GoodTableQ15(table)
    ensures -0x804 <= CastStepQ15(0, CastStepQ15(0, table[0])) <= -8
  {
    EntryQ15(table, 0);
    ZeroFromLarge(table[0]);
    ZeroFromSmall(CastStepQ15(0, table[0]));
  }

  lemma StepLeavesQ15(n: Q15, out: Q15)
    requires n <= -0x4000 && out >= 0x3F00
    ensures NewtonStep(0x4000, n, out) > 0x8000
  {
    MulAtLeast(-0x4000, n, out);
    DivMonotone(n * out, -0x4000 * 0x3F00, 0x8000);
    assert -0x4000 * 0x3F00 / 0x8000 == -0x1F80;
    var c := Correction(0x4000, n, out);
    assert c >= 0x9F7F;
    MulAtLeast(out, 0x3F00, c);
    DivMonotone(0x8001 * 0x4000, out * c, 0x4000);
  }

  lemma CastLoses(x: int)
    requires x >= 0x8000
    ensures ToQ15(x) <= x - 0x1_0000
  {
  }

  /** For a negative input the first step already leaves the format, with any good table: the
      cast loses at least 2^16. */
  lemma NegativeInputLosesQ15(input: Q15, table: seq<Q15>)
    requires -0x8000 < input < 0 && GoodTableQ15(table)
    ensures var n, seed := NormalisedQ15(input), SeedQ15(input, table);
            CastStepQ15(n, seed) <= NewtonStep(0x4000, n, seed) - 0x1_0000
  {
    var n, seed := NormalisedQ15(input), SeedQ15(input, table);
    EntryQ15(table, SeedIndex(n, 0x100));
    StepLeavesQ15(n, seed);
    CastLoses(NewtonStep(0x4000, n, seed));
  }

  /** In Q15 the rounding dominates: the error is at most 2^-13 + 73 * 2^-29. */
  lemma TwoStepsAccurateQ15(n: Q15, seed: Q15)
    requires n >= 0x4000 && GoodSeedQ15(n, seed)
    ensures 0 < 0x2000_0000 - n * TwoSteps(0x4000, n, seed) <= 0x1_0000 + 73
  {
    var d, e0, e1 := 0x2000_0000, 0x80_0000, 0x2_0000 + 0x1_0200;
    var out1 := NewtonStep(0x4000, n, seed);
    StepConverges(0x4000, n, seed, e0);
    StepNeverOvershoots(0x4000, n, seed);
    StepInRange(0x4000, n, seed);
    assert 0 < d - n * out1 <= e1;
    StepConverges(0x4000, n, out1, e1);
    StepNeverOvershoots(0x4000, n, out1);
  }

  lemma ReciprocalAccurateQ15(input: Q15, table: seq<Q15>)
    requires input > 0 && GoodTableQ15(table)
    ensures SeedQ15(input, table) >= 0
    ensures var dst := TwoSteps(0x4000, NormalisedQ15(input), SeedQ15(input, table));
            0 < 0x2000_0000 - input * dst * Pow2(ShiftQ15(input)) <= 0x1_0000 + 73
  {
    var n, seed := NormalisedQ15(input), SeedQ15(input, table);
    TwoStepsAccurateQ15(n, seed);
    Reorder(input, TwoSteps(0x4000, n, seed), Pow2(ShiftQ15(input)));
  }

  lemma ResultQ15(input: Q15, table: seq<Q15>)
    requires -0x8000 < input && |table| == 64
    ensures var n, seed := NormalisedQ15(input), SeedQ15(input, table);
            var dst := CastStepQ15(n, CastStepQ15(n, seed));
            && (input > 0 && seed >= 0 ==> dst == TwoSteps(0x4000, n, seed))
            && (input > 0 && GoodTableQ15(table) ==>
                  0 < 0x2000_0000 - input * dst * Pow2(ShiftQ15(input)) <= 0x1_0000 + 73)
            && (input == 0 && GoodTableQ15(table) ==> -0x804 <= dst <= -8)
  {
    var n, seed := NormalisedQ15(input), SeedQ15(input, table);
    if input > 0 && seed >= 0 {
      TwoTurnsQ15(n, seed);
    }
    if input > 0 && GoodTableQ15(table) {
      ReciprocalAccurateQ15(input, table);
    }
    if input == 0 && GoodTableQ15(table) {
      assert SeedIndex(n, 0x100) == 0;
      ZeroWrapsQ15(table);
    }
  }

  lemma StepGrowsQ15(n: int, out: int)
    requires n <= 0 && out >= 0x7E00
    ensures NewtonStep(0x4000, n, out) > 0x8000
  {
    MulAtLeast(0, n, out);
    DivMonotone(n * out, 0, 0x8000);
    var c := Correction(0x4000, n, out);
    assert c >= 0x7FFF;
    MulAtLeast(out, 0x7E00, c);
    DivMonotone(0x8001 * 0x4000, out * c, 0x4000);
  }

  lemma TwoStepsLeaveQ15(n: Q15, seed: Q15)
    requires (n <= -0x4000 && seed >= 0x3F00) || (n == 0 && seed >= 0x7E00)
    ensures TwoSteps(0x4000, n, seed) > 0x8000
  {
    if n == 0 {
      StepGrowsQ15(n, seed);
    } else {
      StepLeavesQ15(n, seed);
    }
    StepGrowsQ15(n, NewtonStep(0x4000, n, seed));
  }

  /** The same in Q15: the casts lose nothing exactly for the positive inputs. */
  lemma ExactStepsQ15(input: Q15, table: seq<Q15>)
    requires -0x8000 < input && GoodTableQ15(table)
    ensures var n, seed := NormalisedQ15(input), SeedQ15(input, table);
            CastStepQ15(n, CastStepQ15(n, seed)) == TwoSteps(0x4000, n, seed) <==> input > 0
  {
    var n, seed := NormalisedQ15(input), SeedQ15(input, table);
    EntryQ15(table, SeedIndex(n, 0x100));
    if input > 0 {
      TwoTurnsQ15(n, seed);
    } else {
      TwoStepsLeaveQ15(n, seed);
    }
  }

  // ---------------------------------------------------------------- good tables exist

  /** The Q31 reciprocal of the midpoint of the inputs that share index i. */
  function MidpointQ31(i: nat): Q31
  {
    var c := 129 + 2 * i;
    DivInRange(0x40_0000_0000, c, 0x8000_0000);
    0x40_0000_0000 / c
  }

  /** The midpoint table is good: its seeds are within 2^-6 throughout. */
  lemma MidpointTableIsGood(table: seq<Q31>)
    requires |table| == 64 && forall i :: 0 <= i < 64 ==> table[i] == MidpointQ31(i)
    ensures GoodTableQ31(table)
  {
    forall n: Q31 | 0x4000_0000 <= n
      ensures GoodSeedQ31(n, table[SeedIndex(n, 0x100_0000)])
    {
      MidpointIsGood(n);
    }
  }

  lemma MidpointIsGood(n: Q31)
    requires 0x4000_0000 <= n
    ensures GoodSeedQ31(n, MidpointQ31(SeedIndex(n, 0x100_0000)))
  {
    var i := SeedIndex(n, 0x100_0000);
    SegmentOf(n);
    MidpointBounds(i);
    NearMidpoint(129 + 2 * i, MidpointQ31(i), n);
  }

  lemma MidpointBounds(i: nat)
    requires i < 64
    ensures var c, s := 129 + 2 * i, MidpointQ31(i); 0 <= s && s * c <= 0x40_0000_0000 < s * c + c
  {
    DivInRange(0x40_0000_0000, 129 + 2 * i, 0x8000_0000);
    DivBounds(0x40_0000_0000, 129 + 2 * i);
  }

  /** The inputs with index i lie around their midpoint. */
  lemma SegmentOf(n: Q31)
    requires 0x4000_0000 <= n
    ensures var c := 129 + 2 * SeedIndex(n, 0x100_0000); -0x80_0000 <= n - c * 0x80_0000 <= 0x80_0000
  {
    DivUnique(n / 0x100_0000, 64, 1, n / 0x100_0000 - 64);
  }

  lemma NearMidpoint(c: int, s: Q31, n: Q31)
    requires 0 < c < 0x100 && 0 <= s && -0x80_0000 <= n - c * 0x80_0000 <= 0x80_0000
    requires s * c <= 0x40_0000_0000 < s * c + c
    ensures Abs(n * s - 0x2000_0000_0000_0000) <= 0x80_0000_0000_0000
  {
    var x := n - c * 0x80_0000;
    assert n * s == (s * c) * 0x80_0000 + x * s;
    MulAtLeast(x, -0x80_0000, s);
    MulAtLeast(0x80_0000, x, s);
  }

  /** The Q15 reciprocal of the same midpoint. */
  function MidpointQ15(i: nat): Q15
  {
    var c := 129 + 2 * i;
    DivInRange(0x40_0000, c, 0x8000);
    0x40_0000 / c
  }

  lemma MidpointTableIsGoodQ15(table: seq<Q15>)
    requires |table| == 64 && forall i :: 0 <= i < 64 ==> table[i] == MidpointQ15(i)
    ensures GoodTableQ15(table)
  {
    forall n: Q31 | 0x4000 <= n < 0x8000
      ensures GoodSeedQ15(n, table[SeedIndex(n, 0x100)])
    {
      MidpointIsGoodQ15(n);
    }
  }

  lemma MidpointIsGoodQ15(n: Q31)
    requires 0x4000 <= n < 0x8000
    ensures GoodSeedQ15(n, MidpointQ15(SeedIndex(n, 0x100)))
  {
    var i := SeedIndex(n, 0x100);
    SegmentOfQ15(n);
    MidpointBoundsQ15(i);
    NearMidpointQ15(129 + 2 * i, MidpointQ15(i), n);
  }

  lemma MidpointBoundsQ15(i: nat)
    requires i < 64
    ensures var c, s := 129 + 2 * i, MidpointQ15(i); 0 <= s && s * c <= 0x40_0000 < s * c + c
  {
    DivInRange(0x40_0000, 129 + 2 * i, 0x8000);
    DivBounds(0x40_0000, 129 + 2 * i);
  }

  /** The inputs with index i lie around their midpoint. */
  lemma SegmentOfQ15(n: Q31)
    requires 0x4000 <= n < 0x8000
    ensures var c := 129 + 2 * SeedIndex(n, 0x100); -0x80 <= n - c * 0x80 <= 0x80
  {
    DivUnique(n / 0x100, 64, 1, n / 0x100 - 64);
  }

  lemma NearMidpointQ15(c: int, s: Q15, n: Q31)
    requires 0 < c < 0x100 && 0 <= s && -0x80 <= n - c * 0x80 <= 0x80
    requires s * c <= 0x40_0000 < s * c + c
    ensures Abs(n * s - 0x2000_0000) <= 0x80_0000
  {
    var x := n - c * 0x80;
    assert n * s == (s * c) * 0x80 + x * s;
    MulAtLeast(x, -0x80, s);
    MulAtLeast(0x80, x, s);
  }
}
