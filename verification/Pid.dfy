/**
 The Q15 PID controller in its two compiled forms: the scalar one, and the packed one for
 cores with the DSP instructions.
 */
module Pid {
  import opened Words
  import opened BitLoops

  // ---------------------------------------------------------------- what a sample does

  datatype Gains = Gains(a0: Q15, a1: Q15, a2: Q15)

  /** The last two inputs and the last output. */
  datatype History = History(x1: Q15, x2: Q15, y1: Q15)

  function Sat16(x: int): Q15
  {
    Clamp(x, -0x8000, 0x7FFF)
  }

  function Combine(g: Gains, h: History, x: Q15): int
  {
    g.a0 * x + g.a1 * h.x1 + g.a2 * h.x2
  }

  function NextScalar(g: Gains, h: History, x: Q15): History
  {
    History(x, h.x1, Sat16(h.y1 + Combine(g, h, x) / 0x8000))
  }

  /** The packed form multiplies the sign words of A0 and of the input as well, which adds
      (-1) * (-1) when both are negative. */
  function SignExtra(g: Gains, x: Q15): nat
  {
    if g.a0 < 0 && x < 0 then 1 else 0
  }

  function NextPacked(g: Gains, h: History, x: Q15): History
  {
    History(x, h.x1, Sat16(h.y1 + (Combine(g, h, x) + SignExtra(g, x)) / 0x8000))
  }

  lemma ProductQ15(a: Q15, b: Q15)
    ensures -0x4000_0000 <= a * b <= 0x4000_0000
    ensures a * b == 0x4000_0000 <==> a == -0x8000 && b == -0x8000
  {
    var m: int := b;
    if m >= 0 {
      MulAtLeast(a, -0x8000, m);
      MulAtLeast(0x7FFF, a, m);
    } else {
      MulAtLeast(a, -0x8000, -m);
      MulAtLeast(0x7FFF, a, -m);
      assert a * -m == -(a * m);
      if a > -0x8000 {
        MulAtLeast(a, -0x7FFF, -m);
      }
    }
  }

  // ---------------------------------------------------------------- the scalar object

  class PidQ15 {
    var A0: Q15
    var A1: Q15
    var A2: Q15
    const state: array<Q15>

    ghost predicate Valid()
      reads this
    {
      state.Length == 3
    }

    function Gain(): Gains
      reads this
    {
      Gains(A0, A1, A2)
    }

    function Past(): History
      requires Valid()
      reads this, state
    {
      History(state[0], state[1], state[2])
    }

    constructor (g: Gains, h: History)
      ensures Valid() && fresh(state) && Gain() == g && Past() == h
    {
      A0, A1, A2 := g.a0, g.a1, g.a2;
      state := new Q15[3];
      new;
      state[0], state[1], state[2] := h.x1, h.x2, h.y1;
    }

    method Process(input: Q15) returns (out: Q15)
      requires Valid()
      modifies state
      ensures Valid() && Past() == NextScalar(Gain(), old(Past()), input) && out == Past().y1
      ensures state[0] == input && state[1] == old(state[0]) && state[2] == out
      ensures var sum := A0 * input + A1 * old(state[0]) + A2 * old(state[1]);
              out == Clamp(old(state[2]) + sum / 0x8000, -0x8000, 0x7FFF)
    {
      ProductQ15(A0, input);
      ProductQ15(A1, state[0]);
      ProductQ15(A2, state[1]);
      var acc: Q63 := A0 * input;
      acc := acc + A1 * state[0];
      acc := acc + A2 * state[1];
      acc := acc + (state[2] as int) * 0x8000;
      Pow2Values();
      out := Ssat(acc / 0x8000, 16);
      state[1] := state[0];
      state[0] := input;
      state[2] := out;
    }
  }

  // ---------------------------------------------------------------- the packed object

  /** The two signed halves of a word. */
  function Low(w: U32): Q15 { ToQ15(w) }

  function High(w: U32): Q15 { ToQ31(w) / 0x1_0000 }

  /** A word from its two halves. */
  lemma HalvesOfWord(w: U32)
    ensures w == Low(w) % 0x1_0000 + 0x1_0000 * (High(w) % 0x1_0000)
  {
    DivUnique(w, 0x1_0000, w / 0x1_0000, w % 0x1_0000);
  }

  /** The word with the given halves. */
  function Pack(low: Q15, high: Q15): U32
  {
    low % 0x1_0000 + (high % 0x1_0000) * 0x1_0000
  }

  lemma HalvesOfPack(low: Q15, high: Q15)
    ensures Low(Pack(low, high)) == low && High(Pack(low, high)) == high
  {
    LowOfPair(low, high % 0x1_0000);
    HighOfPair(low % 0x1_0000, high);
  }

  lemma LowOfPair(low: Q15, b: int)
    requires 0 <= b < 0x1_0000
    ensures Low(low % 0x1_0000 + b * 0x1_0000) == low
  {
    DivUnique(low % 0x1_0000 + b * 0x1_0000, 0x1_0000, b, low % 0x1_0000);
  }

  lemma HighOfPair(a: int, high: Q15)
    requires 0 <= a < 0x1_0000
    ensures High(a + (high % 0x1_0000) * 0x1_0000) == high
  {
    DivUnique(a + high * 0x1_0000, 0x1_0000, high, a);
  }

  lemma HalvesOfSignExtended(x: Q15)
    ensures Low(ToU32(x)) == x && High(ToU32(x)) == if x < 0 then -1 else 0
  {
  }

  function DualProduct(x: U32, y: U32): int
  {
    Low(x) * Low(y) + High(x) * High(y)
  }

  function Smuad(x: U32, y: U32): U32
  {
    ToU32(DualProduct(x, y))
  }

  /** The instruction adds both products to a 64-bit accumulator. */
  function Smlald(x: U32, y: U32, sum: Q63): Q63
  {
    ToQ63(sum + DualProduct(x, y))
  }

  /** The C replacement adds the products in 32 bits before it widens them. */
  function SmlaldFallback(x: U32, y: U32, sum: Q63): Q63
  {
    ToQ63(sum + ToQ31(DualProduct(x, y)))
  }

  lemma BothHalvesMinimal(w: U32)
    ensures Low(w) == -0x8000 && High(w) == -0x8000 <==> w == 0x8000_8000
  {
  }

  lemma DualProductBounds(x: U32, y: U32)
    ensures -0x8000_0000 <= DualProduct(x, y) <= 0x8000_0000
    ensures DualProduct(x, y) == 0x8000_0000 <==> x == 0x8000_8000 && y == 0x8000_8000
  {
    ProductQ15(Low(x), Low(y));
    ProductQ15(High(x), High(y));
    BothHalvesMinimal(x);
    BothHalvesMinimal(y);
  }

  /** The replacement agrees with the instruction except when all four halves are -2^15; then
      it is 2^32 less, modulo 2^64. */
  lemma FallbackAgrees(x: U32, y: U32, sum: Q63)
    ensures Smlald(x, y, sum) == ToQ63(sum + Low(x) * Low(y) + High(x) * High(y))
    ensures x == 0x8000_8000 && y == 0x8000_8000 ==> SmlaldFallback(x, y, sum) == ToQ63(sum - 0x8000_0000)
    ensures SmlaldFallback(x, y, sum) == Smlald(x, y, sum) <==> !(x == 0x8000_8000 && y == 0x8000_8000)
  {
    DualProductBounds(x, y);
  }

  lemma SignExtendedProduct(g: Gains, x: Q15)
    ensures ToQ31(Smuad(ToU32(g.a0), ToU32(x))) == g.a0 * x + SignExtra(g, x)
  {
    HalvesOfSignExtended(g.a0);
    HalvesOfSignExtended(x);
    ProductQ15(g.a0, x);
    WordRoundTrip(g.a0 * x + SignExtra(g, x));
  }

  lemma WordRoundTrip(x: Q31)
    ensures ToQ31(ToU32(x)) == x
  {
  }

  lemma AccumulatePacked(w: U32, s0: Q15, s1: Q15, acc: Q31)
    ensures Smlald(w, Pack(s0, s1), acc) == acc + Low(w) * s0 + High(w) * s1
    ensures -0x1_0000_0000 <= Smlald(w, Pack(s0, s1), acc) <= 0x1_0000_0000
  {
    HalvesOfPack(s0, s1);
    DualProductBounds(w, Pack(s0, s1));
  }

  class PidDspQ15 {
    var A0: Q15
    var A1: U32  // A1 in the low half, A2 in the high half
    const state: array<Q15>

    ghost predicate Valid()
      reads this
    {
      state.Length == 3
    }

    function Gain(): Gains
      reads this
    {
      Gains(A0, Low(A1), High(A1))
    }

    function Past(): History
      requires Valid()
      reads this, state
    {
      History(state[0], state[1], state[2])
    }

    constructor (g: Gains, h: History)
      ensures Valid() && fresh(state) && Gain() == g && Past() == h
    {
      A0, A1 := g.a0, Pack(g.a1, g.a2);
      state := new Q15[3];
      new;
      HalvesOfPack(g.a1, g.a2);
      state[0], state[1], state[2] := h.x1, h.x2, h.y1;
    }

    method Process(input: Q15) returns (out: Q15)
      requires Valid()
      modifies state
      ensures Valid() && Past() == NextPacked(Gain(), old(Past()), input) && out == Past().y1
      ensures state[0] == input && state[1] == old(state[0]) && state[2] == out
      ensures var sum := A0 * input + Low(A1) * old(state[0]) + High(A1) * old(state[1]);
              var extra := if A0 < 0 && input < 0 then 1 else 0;
              out == Clamp(old(state[2]) + (sum + extra) / 0x8000, -0x8000, 0x7FFF)
    {
      SignExtendedProduct(Gain(), input);
      var acc: Q63 := ToQ31(Smuad(ToU32(A0), ToU32(input)));
      // the two oldest samples are read as one little-endian word
      var vstate := Pack(state[0], state[1]);
      AccumulatePacked(A1, state[0], state[1], acc);
      acc := Smlald(A1, vstate, acc);
      acc := acc + (state[2] as int) * 0x8000;
      Pow2Values();
      out := Ssat(acc / 0x8000, 16);
      state[1] := state[0];
      state[0] := input;
      state[2] := out;
    }
  }

  // ---------------------------------------------------------------- whole runs

  function RunScalar(g: Gains, h: History, xs: seq<Q15>): History
  {
    if xs == [] then h
    else NextScalar(g, RunScalar(g, h, xs[..|xs| - 1]), xs[|xs| - 1])
  }

  function RunPacked(g: Gains, h: History, xs: seq<Q15>): History
  {
    if xs == [] then h
    else NextPacked(g, RunPacked(g, h, xs[..|xs| - 1]), xs[|xs| - 1])
  }

  lemma RunSnoc(g: Gains, h: History, xs: seq<Q15>, i: nat)
    requires i < |xs|
    ensures RunScalar(g, h, xs[..i + 1]) == NextScalar(g, RunScalar(g, h, xs[..i]), xs[i])
    ensures RunPacked(g, h, xs[..i + 1]) == NextPacked(g, RunPacked(g, h, xs[..i]), xs[i])
  {
    assert xs[..i + 1][..i] == xs[..i];
  }

  /** Calling the scalar object for one sample after the other. */
  method FeedScalar(pid: PidQ15, xs: seq<Q15>)
    requires pid.Valid()
    modifies pid.state
    ensures pid.Valid() && pid.Past() == RunScalar(pid.Gain(), old(pid.Past()), xs)
  {
    var i := 0;
    while i < |xs|
      invariant i <= |xs|
      invariant pid.Past() == RunScalar(pid.Gain(), old(pid.Past()), xs[..i])
    {
      RunSnoc(pid.Gain(), old(pid.Past()), xs, i);
      var _ := pid.Process(xs[i]);
      i := i + 1;
    }
    assert xs[..i] == xs;
  }

  method FeedPacked(pid: PidDspQ15, xs: seq<Q15>)
    requires pid.Valid()
    modifies pid.state
    ensures pid.Valid() && pid.Past() == RunPacked(pid.Gain(), old(pid.Past()), xs)
  {
    var i := 0;
    while i < |xs|
      invariant i <= |xs|
      invariant pid.Past() == RunPacked(pid.Gain(), old(pid.Past()), xs[..i])
    {
      RunSnoc(pid.Gain(), old(pid.Past()), xs, i);
      var _ := pid.Process(xs[i]);
      i := i + 1;
    }
    assert xs[..i] == xs;
  }

  /** The number of samples at which the packed form adds its extra one. */
  function Extras(g: Gains, xs: seq<Q15>): nat
  {
    if xs == [] then 0 else Extras(g, xs[..|xs| - 1]) + SignExtra(g, xs[|xs| - 1])
  }

  lemma {:induction false} ExtrasCounted(g: Gains, xs: seq<Q15>)
    ensures Extras(g, xs) == if g.a0 < 0 then |set i | 0 <= i < |xs| && xs[i] < 0| else 0
  {
    if xs == [] {
    } else {
      var n := |xs| - 1;
      ExtrasCounted(g, xs[..n]);
      var before := set i | 0 <= i < n && xs[..n][i] < 0;
      assert (set i | 0 <= i < |xs| && xs[i] < 0) == if xs[n] < 0 then before + {n} else before;
    }
  }

  /** Saturation is monotone and keeps distances from growing. */
  lemma Sat16Lipschitz(x: int, y: int)
    requires x <= y
    ensures 0 <= Sat16(y) - Sat16(x) <= y - x
  {
  }

  /** From the same state and for any inputs, the packed controller is never below the scalar
      one, and ahead by at most one for each sample with A0 and the input both negative. */
  lemma {:induction false} PackedFollowsScalar(g: Gains, h: History, xs: seq<Q15>)
    ensures var s, p := RunScalar(g, h, xs), RunPacked(g, h, xs);
            p.x1 == s.x1 && p.x2 == s.x2 && 0 <= p.y1 - s.y1 <= Extras(g, xs)
    ensures Extras(g, xs) == if g.a0 < 0 then |set i | 0 <= i < |xs| && xs[i] < 0| else 0
  {
    ExtrasCounted(g, xs);
    if xs == [] {
    } else {
      var before, x := xs[..|xs| - 1], xs[|xs| - 1];
      PackedFollowsScalar(g, h, before);
      var s, p := RunScalar(g, h, before), RunPacked(g, h, before);
      var sum := Combine(g, s, x);
      assert sum == Combine(g, p, x);
      assert 0 <= (sum + SignExtra(g, x)) / 0x8000 - sum / 0x8000 <= SignExtra(g, x);
      Sat16Lipschitz(s.y1 + sum / 0x8000, p.y1 + (sum + SignExtra(g, x)) / 0x8000);
    }
  }

  /** The exact condition, known before the sample, under which its two results differ: the
      extra one carries into the quotient, and neither rail hides it. */
  predicate SampleDiffers(g: Gains, h: History, x: Q15)
  {
    var sum := Combine(g, h, x);
    g.a0 < 0 && x < 0 && sum % 0x8000 == 0x7FFF && -0x8000 <= h.y1 + sum / 0x8000 < 0x7FFF
  }

  lemma SamplesAgree(g: Gains, h: History, x: Q15)
    ensures NextPacked(g, h, x) == NextScalar(g, h, x) <==> !SampleDiffers(g, h, x)
  {
    var sum := Combine(g, h, x);
    assert (sum + 1) / 0x8000 == if sum % 0x8000 == 0x7FFF then sum / 0x8000 + 1 else sum / 0x8000;
  }

  /** The gains for which no sample can differ. */
  predicate NeverDiffers(g: Gains)
  {
    g.a0 >= 0 || (g.a0 % 2 == 0 && g.a1 % 2 == 0 && g.a2 % 2 == 0)
  }

  lemma LiftSolution(a: int, y: int, target: int, r: int, p: int)
    requires a * y - target == r * p
    ensures a * (y + p) - target == (r + a) * p
  {
  }

  lemma HalvedQuotient(r: int, p: int)
    requires r % 2 == 0
    ensures r * p == (r / 2) * (2 * p)
  {
  }

  /** Modulo a power of two, an odd number divides everything. */
  lemma {:induction false} OddDivides(a: int, target: int, k: nat) returns (x: int, q: int)
    requires a % 2 == 1
    ensures 0 <= x < Pow2(k) && a * x - target == q * Pow2(k)
  {
    if k == 0 {
      x, q := 0, -target;
    } else {
      var p := Pow2(k - 1);
      var y, r := OddDivides(a, target, k - 1);
      if r % 2 == 0 {
        x := y;
      } else {
        LiftSolution(a, y, target, r, p);
        x, r := y + p, r + a;
      }
      HalvedQuotient(r, p);
      q := r / 2;
    }
  }

  /** For an odd factor, a negative sample makes any product modulo 2^15. */
  lemma NegativeSolution(a: Q15, target: int) returns (x: Q15)
    requires a % 2 == 1
    ensures x < 0 && (a * x - target) % 0x8000 == 0
  {
    var y, q := OddDivides(a, target, 15);
    Pow2Values();
    x := y - 0x8000;
    assert a * (y - 0x8000) == a * y - a * 0x8000;
    DivUnique(a * x - target, 0x8000, q - a, 0);
  }

  /** The extra one carries when the sum has all of its low bits set. */
  lemma CarryingSum(sum: int, product: int, rest: int)
    requires sum == product + rest && (product - (0x7FFF - rest)) % 0x8000 == 0
    ensures sum % 0x8000 == 0x7FFF
  {
  }

  /** A last output for which neither rail hides the carry. */
  lemma BetweenTheRails(g: Gains, x1: Q15, x2: Q15, x: Q15) returns (h: History)
    requires g.a0 < 0 && x < 0
    requires var sum := g.a0 * x + g.a1 * x1 + g.a2 * x2;
             sum % 0x8000 == 0x7FFF && -0x4001_0000 <= sum <= 0x4001_0000
    ensures SampleDiffers(g, h, x)
  {
    var sum := g.a0 * x + g.a1 * x1 + g.a2 * x2;
    h := History(x1, x2, Clamp(0 - sum / 0x8000, -0x8000, 0x7FFF));
    assert Combine(g, h, x) == sum;
  }

  /** If A0 is negative and some gain is odd, there is a sample on which the forms differ. */
  lemma DifferingSample(g: Gains) returns (h: History, x: Q15)
    requires !NeverDiffers(g)
    ensures SampleDiffers(g, h, x)
  {
    if g.a0 % 2 == 1 {
      x := NegativeSolution(g.a0, 0x7FFF);
      ProductQ15(g.a0, x);
      CarryingSum(g.a0 * x, g.a0 * x, 0);
      h := BetweenTheRails(g, 0, 0, x);
    } else {
      x := -1;
      var odd := if g.a1 % 2 == 1 then g.a1 else g.a2;
      var x' := NegativeSolution(odd, 0x7FFF + g.a0);
      ProductQ15(odd, x');
      CarryingSum(odd * x' - g.a0, odd * x', 0 - g.a0);
      if g.a1 % 2 == 1 {
        h := BetweenTheRails(g, x', 0, x);
      } else {
        h := BetweenTheRails(g, 0, x', x);
      }
    }
  }

  lemma EvenSum(g: Gains, h: History, x: Q15)
    requires g.a0 % 2 == 0 && g.a1 % 2 == 0 && g.a2 % 2 == 0
    ensures Combine(g, h, x) % 0x8000 != 0x7FFF
  {
    var a, b, c := g.a0 / 2, g.a1 / 2, g.a2 / 2;
    assert Combine(g, h, x) == 2 * (a * x + b * h.x1 + c * h.x2);
  }

  lemma {:induction false} RunsStayEqual(g: Gains, h: History, xs: seq<Q15>)
    requires NeverDiffers(g)
    ensures RunPacked(g, h, xs) == RunScalar(g, h, xs)
  {
    if xs == [] {
    } else {
      var before, x := xs[..|xs| - 1], xs[|xs| - 1];
      RunsStayEqual(g, h, before);
      if g.a0 < 0 {
        EvenSum(g, RunScalar(g, h, before), x);
      }
      SamplesAgree(g, RunScalar(g, h, before), x);
    }
  }

  /** The packed and the scalar controller agree on all runs from all histories if and only if
      A0 is not negative or all three gains are even. */
  lemma FormsAgree(g: Gains)
    ensures NeverDiffers(g) <==>
            (forall h: History, xs: seq<Q15> :: RunPacked(g, h, xs) == RunScalar(g, h, xs))
  {
    if NeverDiffers(g) {
      forall h: History, xs: seq<Q15>
        ensures RunPacked(g, h, xs) == RunScalar(g, h, xs)
      {
        RunsStayEqual(g, h, xs);
      }
    } else {
      var h, x := DifferingSample(g);
      SamplesAgree(g, h, x);
      assert [x][..0] == [];
      assert RunPacked(g, h, [x]) == NextPacked(g, h, x);
      assert RunScalar(g, h, [x]) == NextScalar(g, h, x);
    }
  }

  /** The input n samples into a run, reaching back into the initial history. */
  function Input(h: History, xs: seq<Q15>, n: int): Q15
    requires -2 <= n < |xs|
  {
    if n == -2 then h.x2 else if n == -1 then h.x1 else xs[n]
  }

  /** The documented recurrence, saturated at every sample. */
  function Recurrence(g: Gains, h: History, xs: seq<Q15>, n: int): Q15
    requires -1 <= n < |xs|
    decreases n + 1
  {
    if n == -1 then h.y1
    else
      Sat16(Recurrence(g, h, xs, n - 1) +
            (g.a0 * Input(h, xs, n) + g.a1 * Input(h, xs, n - 1) + g.a2 * Input(h, xs, n - 2)) / 0x8000)
  }

  /** The object's run is the recurrence, for all gains and inputs. */
  lemma {:induction false} RunIsRecurrence(g: Gains, h: History, xs: seq<Q15>, n: int)
    requires -1 <= n < |xs|
    ensures RunScalar(g, h, xs[..n + 1]).y1 == Recurrence(g, h, xs, n)
    ensures RunScalar(g, h, xs[..n + 1]).x1 == Input(h, xs, n)
    ensures RunScalar(g, h, xs[..n + 1]).x2 == if n == -1 then h.x2 else Input(h, xs, n - 1)
    decreases n + 1
  {
    if n == -1 {
    } else {
      var now := xs[..n + 1];
      assert now[..|now| - 1] == xs[..n] && now[|now| - 1] == xs[n];
      RunIsRecurrence(g, h, xs, n - 1);
    }
  }

  // ---------------------------------------------------------------- constant input

  /** The gains that the documentation derives from Kp, Ki and Kd. */
  predicate DerivedGains(g: Gains, kp: Q15, ki: Q15, kd: Q15)
  {
    g.a0 == kp + ki + kd && g.a1 == 0 - kp - 2 * kd && g.a2 == kd
  }

  function Constant(c: Q15, n: nat): (xs: seq<Q15>)
    ensures |xs| == n
  {
    seq(n, _ => c)
  }

  /** With exactly these gains the sum of products is that of the proportional, integral and
      derivative terms of the documentation, for all inputs. */
  lemma DerivedGainsArePid(g: Gains, kp: Q15, ki: Q15, kd: Q15)
    ensures DerivedGains(g, kp, ki, kd) <==>
            (forall h: History, x: Q15 ::
               Combine(g, h, x) == kp * (x - h.x1) + ki * x + kd * (x - 2 * h.x1 + h.x2))
  {
    if DerivedGains(g, kp, ki, kd) {
      forall h: History, x: Q15
        ensures Combine(g, h, x) == kp * (x - h.x1) + ki * x + kd * (x - 2 * h.x1 + h.x2)
      {
        VelocityForm(kp, ki, kd, x, h.x1, h.x2);
      }
    } else {
      assert Combine(g, History(0, 0, 0), 1) == g.a0;
      assert Combine(g, History(1, 0, 0), 0) == g.a1;
      assert Combine(g, History(0, 1, 0), 0) == g.a2;
    }
  }

  lemma VelocityForm(kp: int, ki: int, kd: int, x: int, x1: int, x2: int)
    ensures (kp + ki + kd) * x + (0 - kp - 2 * kd) * x1 + kd * x2 ==
            kp * (x - x1) + ki * x + kd * (x - 2 * x1 + x2)
  {
  }

  lemma IntegralOnly(g: Gains, kp: Q15, ki: Q15, kd: Q15, c: int)
    requires DerivedGains(g, kp, ki, kd)
    ensures g.a0 * c + g.a1 * c + g.a2 * c == ki * c
  {
  }

  /** Steps of a constant size from a saturated value add up under one saturation. */
  lemma SaturatedSteps(y: Q15, d: int, m: nat)
    ensures Sat16(Sat16(y + m * d) + d) == Sat16(y + (m + 1) * d)
  {
    assert (m + 1) * d == m * d + d;
    if d >= 0 {
      MulLe(d, 0, m);
    } else {
      MulLe(-d, 0, m);
      assert m * d == -(-d * m);
    }
  }

  /** Once both stored inputs are c, n more samples of c move the output by n times the floor
      of Ki * c / 2^15, up to the rail. */
  lemma {:induction false} SteadyRun(g: Gains, kp: Q15, ki: Q15, kd: Q15, h: History, c: Q15, n: nat)
    requires DerivedGains(g, kp, ki, kd) && h.x1 == c && h.x2 == c
    ensures RunScalar(g, h, Constant(c, n)) == History(c, c, Sat16(h.y1 + n * (ki * c / 0x8000)))
  {
    if n == 0 {
    } else {
      var xs := Constant(c, n);
      assert xs[..n - 1] == Constant(c, n - 1);
      SteadyRun(g, kp, ki, kd, h, c, n - 1);
      IntegralOnly(g, kp, ki, kd, c);
      SaturatedSteps(h.y1, ki * c / 0x8000, n - 1);
    }
  }

  lemma {:induction false} RunAppend(g: Gains, h: History, xs: seq<Q15>, ys: seq<Q15>)
    ensures RunScalar(g, h, xs + ys) == RunScalar(g, RunScalar(g, h, xs), ys)
  {
    if ys == [] {
      assert xs + ys == xs;
    } else {
      var zs := xs + ys;
      assert zs[..|zs| - 1] == xs + ys[..|ys| - 1];
      RunAppend(g, h, xs, ys[..|ys| - 1]);
    }
  }

  /** From any history, every sample after the second of a held input moves the output by the
      floor of Ki * c / 2^15; at the rail it stays. */
  lemma HeldInput(g: Gains, kp: Q15, ki: Q15, kd: Q15, h: History, c: Q15, n: nat)
    requires DerivedGains(g, kp, ki, kd)
    ensures RunScalar(g, h, [c, c] + Constant(c, n)).y1 ==
            Sat16(RunScalar(g, h, [c, c]).y1 + n * (ki * c / 0x8000))
  {
    var start := RunScalar(g, h, [c, c]);
    assert [c, c][..1] == [c];
    assert start == NextScalar(g, RunScalar(g, h, [c]), c);
    assert RunScalar(g, h, [c]).x1 == c;
    RunAppend(g, h, [c, c], Constant(c, n));
    SteadyRun(g, kp, ki, kd, start, c, n);
  }

  /** The bound of PackedFollowsScalar is reached: with these gains and the input held at -1,
      the scalar output falls by one per sample and the packed output does not move. */
  lemma PackedBoundIsReached(g: Gains, h: History, n: nat, xs: seq<Q15>)
    requires g == Gains(-1, 2, 0) && h == History(-1, -1, 0)
    requires n <= 0x8000 && xs == Constant(-1, n)
    ensures RunPacked(g, h, xs).y1 - RunScalar(g, h, xs).y1 == Extras(g, xs) == n
  {
    SteadyRun(g, -2, 1, 0, h, -1, n);
    FallByOne(n);
    PackedStandsStill(g, h, n);
  }

  lemma FallByOne(n: nat)
    requires n <= 0x8000
    ensures Sat16(0 + n * (1 * -1 / 0x8000)) == 0 - n
  {
    var q := 1 * -1 / 0x8000;
    assert q == -1;
    assert n * q == 0 - n;
  }

  lemma {:induction false} PackedStandsStill(g: Gains, h: History, n: nat)
    requires g == Gains(-1, 2, 0) && h == History(-1, -1, 0)
    ensures RunPacked(g, h, Constant(-1, n)) == h && Extras(g, Constant(-1, n)) == n
  {
    if n == 0 {
    } else {
      var xs := Constant(-1, n);
      assert xs[..n - 1] == Constant(-1, n - 1);
      PackedStandsStill(g, h, n - 1);
      assert NextPacked(g, h, -1) == h;
    }
  }
}
