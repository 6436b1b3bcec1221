/**
 The bit loops of the compiler headers: count leading zeros, bit reversal with an early
 exit, rotation and signed saturation.
 */
module BitLoops {
  import opened Words

  /** A left shift on 32-bit words drops the bits above the word. */
  function Shl32(x: U32, k: nat): U32
  {
    ToU32(x * Pow2(k))
  }

  lemma BitOfShl32(x: U32, k: nat, i: nat)
    requires i < 32
    ensures Bit(Shl32(x, k), i) == if i < k then 0 else Bit(x, i - k)
  {
    WordWidth();
    JoinValue(x, 0, k);
    BitOfLow(x * Pow2(k), 32, i);
    BitOfJoin(x, 0, k, i);
    BitOfZero(i);
  }

  // ---------------------------------------------------------------- count leading zeros

  /** The number of zeros above the highest set bit of a 32-bit word. */
  function LeadingZeros(x: U32): (n: nat)
    ensures n <= 32 && (n == 32 <==> x == 0)
    ensures x != 0 ==> n < 32 && Pow2(31 - n) <= x < Pow2(32 - n)
  {
    if x == 0 then 32
    else
      Pow2Values();
      LeadingZeros(x / 2) - 1
  }

  lemma LeadingZerosUnique(x: U32, n: nat)
    requires n < 32 && Pow2(31 - n) <= x < Pow2(32 - n)
    ensures LeadingZeros(x) == n
  {
    var m := LeadingZeros(x);
    if m < n {
      Pow2Monotone(32 - n, 31 - m);
    } else if n < m {
      Pow2Monotone(32 - m, 31 - n);
    }
  }

  /** Testing the top bit of a word of k + 1 bits. */
  lemma AndTopBit(x: nat, k: nat)
    requires x < Pow2(k + 1)
    ensures And(x, Pow2(k)) == if x >= Pow2(k) then Pow2(k) else 0
  {
  }

  method Clz(data: U32) returns (count: U8)
    ensures count == LeadingZeros(data)
    ensures data == 0 ==> count == 32
    ensures data != 0 ==> count < 32 && Pow2(31 - count) <= data < Pow2(32 - count)
  {
    if data == 0 {
      return 32;
    }
    Pow2Values();
    count := 0;
    var mask: U32 := 0x8000_0000;
    while And(data, mask) == 0
      invariant count <= 31 && mask == Pow2(31 - count)
      invariant data < Pow2(32 - count)
      decreases mask
    {
      AndTopBit(data, 31 - count);
      count := count + 1;
      mask := mask / 2;
    }
    AndTopBit(data, 31 - count);
    LeadingZerosUnique(data, count);
  }

  // ---------------------------------------------------------------- bit reversal

  /** The low n bits of x in reverse order. */
  function Reversed(x: nat, n: nat): (r: nat)
    ensures r < Pow2(n)
  {
    if n == 0 then 0 else 2 * Reversed(x, n - 1) + Bit(x, n - 1)
  }

  function Reverse32(x: U32): U32
  {
    Pow2Values();
    Reversed(x, 32)
  }

  lemma {:induction false} BitOfReversed(x: nat, n: nat, i: nat)
    requires i < n
    ensures Bit(Reversed(x, n), i) == Bit(x, n - 1 - i)
    decreases i
  {
    if i == 0 {
    } else {
      BitOfReversed(x, n - 1, i - 1);
    }
  }

  ghost predicate Mirror(x: U32, r: U32)
  {
    forall i: nat :: i < 32 ==> Bit(r, i) == Bit(x, 31 - i)
  }

  lemma MirrorBit(x: U32, i: nat)
    requires i < 32
    ensures Bit(Reverse32(x), i) == Bit(x, 31 - i)
  {
    BitOfReversed(x, 32, i);
  }

  /** Bit i of the reversal is bit 31 - i of the word, and no other word has these bits. */
  lemma ReverseIsTheMirror(x: U32, r: U32)
    ensures r == Reverse32(x) <==> Mirror(x, r)
  {
    forall i: nat | i < 32
      ensures Bit(Reverse32(x), i) == Bit(x, 31 - i)
    {
      MirrorBit(x, i);
    }
    if Mirror(x, r) {
      WordWidth();
      SameBitsSameWord(r, Reverse32(x), 32);
    }
  }

  /** One turn of the reversal loop: the accumulator moves up and takes the next bit. */
  function ReversalTurn(acc: U32, b: nat): U32
    requires b <= 1
  {
    WordWidth();
    OrBound(Shl32(acc, 1), b, 32);
    Or(Shl32(acc, 1), b)
  }

  lemma BitOfTurn(acc: U32, b: nat, i: nat)
    requires b <= 1 && i < 32
    ensures Bit(ReversalTurn(acc, b), i) == if i == 0 then b else Bit(acc, i - 1)
  {
    BitOfOr(Shl32(acc, 1), b, i);
    BitOfShl32(acc, 1, i);
    if i > 0 {
      BitOfSmall(b, 1, i);
    }
  }

  /** The state of a reversal loop after k turns: the low k + 1 bits of the accumulator are
      reversed, whatever the bits above them, and rest holds the bits not yet taken. */
  ghost predicate Reversing(x: U32, acc: U32, rest: U32, k: nat)
  {
    && k <= 31
    && rest < Pow2(31 - k)
    && (forall i: nat :: i <= k ==> Bit(acc, i) == Bit(x, k - i))
    && (forall j: nat {:trigger Bit(rest, j)} :: Bit(rest, j) == Bit(x, j + k + 1))
  }

  lemma ReversingStarts(x: U32)
    ensures Reversing(x, x, x / 2, 0)
  {
    Pow2Values();
    forall j: nat
      ensures Bit(x / 2, j) == Bit(x, j + 1)
    {
    }
  }

  lemma ReversingAdvances(x: U32, acc: U32, rest: U32, k: nat)
    requires Reversing(x, acc, rest, k) && rest != 0
    ensures Reversing(x, ReversalTurn(acc, rest % 2), rest / 2, k + 1)
  {
    var acc' := ReversalTurn(acc, rest % 2);
    assert Bit(rest, 0) == Bit(x, k + 1);
    forall i: nat | i <= k + 1
      ensures Bit(acc', i) == Bit(x, k + 1 - i)
    {
      BitOfTurn(acc, rest % 2, i);
    }
    forall j: nat
      ensures Bit(rest / 2, j) == Bit(x, j + k + 2)
    {
      assert Bit(rest, j + 1) == Bit(x, j + 1 + k + 1);
    }
  }

  /** When no bits are left, the final shift discards the unreversed bits of the accumulator. */
  lemma ReversingEnds(x: U32, acc: U32, k: nat)
    requires Reversing(x, acc, 0, k)
    ensures Shl32(acc, 31 - k) == Reverse32(x)
  {
    var r := Shl32(acc, 31 - k);
    forall i: nat | i < 32
      ensures Bit(r, i) == Bit(x, 31 - i)
    {
      BitOfShl32(acc, 31 - k, i);
      if i < 31 - k {
        BitOfZero(31 - i - k - 1);
        assert Bit(0, 31 - i - k - 1) == Bit(x, 31 - i);
      }
    }
    ReverseIsTheMirror(x, r);
  }

  /** The reversal loop of the GCC header. */
  method Rbit(v: U32) returns (result: U32)
    ensures result == Reverse32(v)
  {
    var value := v;
    var s: U32 := 31;
    result := value;
    value := value / 2;
    ReversingStarts(v);
    while value != 0
      invariant s <= 31 && Reversing(v, result, value, 31 - s)
      decreases value
    {
      ReversingAdvances(v, result, value, 31 - s);
      AndLowMask(value, 1);
      result := Shl32(result, 1);
      result := Or(result, And(value, 1));
      s := s - 1;
      value := value / 2;
    }
    ReversingEnds(v, result, 31 - s);
    result := Shl32(result, s);
  }

  /** The reversal loop of the IAR header, which counts in a byte. */
  method RbitIar(x: U32) returns (result: U32)
    ensures result == Reverse32(x)
  {
    var sc: U8 := 31;
    var r: U32 := x;
    var v: U32 := x / 2;
    ReversingStarts(x);
    while v != 0
      invariant sc <= 31 && Reversing(x, r, v, 31 - sc)
      decreases v
    {
      ReversingAdvances(x, r, v, 31 - sc);
      AndLowMask(v, 1);
      r := Shl32(r, 1);
      r := Or(r, And(v, 1));
      sc := sc - 1;
      v := v / 2;
    }
    ReversingEnds(x, r, 31 - sc);
    result := Shl32(r, sc);
  }

  lemma ReverseIsInvolution(x: U32)
    ensures Reverse32(Reverse32(x)) == x
  {
    ReverseIsTheMirror(x, Reverse32(x));
    ReverseIsTheMirror(Reverse32(x), x);
  }

  lemma MirrorOfNonzero(x: U32, y: U32)
    requires Mirror(x, y) && x != 0
    ensures y != 0
  {
    if y != 0 {
      return;
    }
    forall i: nat | i < 32
      ensures Bit(x, i) == Bit(y, i)
    {
      BitOfZero(i);
      BitOfZero(31 - i);
      assert Bit(y, 31 - i) == Bit(x, 31 - (31 - i));
    }
    WordWidth();
    SameBitsSameWord(x, y, 32);
  }

  ghost predicate IsLowestSetBit(x: U32, n: nat)
  {
    n < 32 && Bit(x, n) == 1 && forall i: nat :: i < n ==> Bit(x, i) == 0
  }

  lemma LowestFromHighest(x: U32, y: U32, n: nat)
    requires Mirror(x, y) && n < 32 && Pow2(31 - n) <= y < Pow2(32 - n)
    ensures IsLowestSetBit(x, n)
  {
    TopBit(y, 31 - n);
    assert Bit(y, 31 - n) == Bit(x, 31 - (31 - n));
    forall i: nat | i < n
      ensures Bit(x, i) == 0
    {
      BitOfSmall(y, 32 - n, 31 - i);
      assert Bit(y, 31 - i) == Bit(x, 31 - (31 - i));
    }
  }

  lemma LowestByMirror(x: U32, y: U32)
    requires Mirror(x, y) && x != 0
    ensures IsLowestSetBit(x, LeadingZeros(y))
  {
    MirrorOfNonzero(x, y);
    LowestFromHighest(x, y, LeadingZeros(y));
  }

  /** Counting the leading zeros of the reversal finds the lowest set bit. */
  lemma ClzOfReverseIsLowestSetBit(x: U32)
    requires x != 0
    ensures var n := LeadingZeros(Reverse32(x));
            n < 32 && Bit(x, n) == 1 && forall i: nat :: i < n ==> Bit(x, i) == 0
  {
    ReverseIsTheMirror(x, Reverse32(x));
    LowestByMirror(x, Reverse32(x));
  }

  // ---------------------------------------------------------------- rotation

  function Ror(op1: U32, op2: U32): U32
  {
    var k := op2 % 32;
    if k == 0 then op1
    else
      ShiftedDown(op1, k);
      WordWidth();
      OrBound(op1 / Pow2(k), Shl32(op1, 32 - k), 32);
      Or(op1 / Pow2(k), Shl32(op1, 32 - k))
  }

  lemma ShiftedDown(x: nat, k: nat)
    ensures 0 <= x / Pow2(k) <= x
  {
    DivBounds(x, Pow2(k));
    DivMonotone(0, x, Pow2(k));
    MulLe(x / Pow2(k), 1, Pow2(k));
  }

  /** The position n places above i, counted around the word. */
  function Around(i: nat, n: nat): nat
  {
    if i + n < 32 then i + n else i + n - 32
  }

  /** Rotation by k moves bit i + k, counted around the word, to bit i. */
  lemma BitOfRor(x: U32, k: U32, i: nat)
    requires i < 32
    ensures Bit(Ror(x, k), i) == Bit(x, Around(i, k % 32)) == Bit(x, (i + k) % 32)
  {
    var n := k % 32;
    assert Around(i, n) == (i + k) % 32;
    if n != 0 {
      WordWidth();
      ShiftedDown(x, n);
      BitOfShifted(x, n, i);
      BitOfShl32(x, 32 - n, i);
      BitOfOr(x / Pow2(n), Shl32(x, 32 - n), i);
      if i + n >= 32 {
        BitOfSmall(x, 32, i + n);
      }
    }
  }

  lemma AroundMirrored(i: nat, n: nat)
    requires i < 32 && n < 32
    ensures var back := if n == 0 then 0 else 32 - n;
            Around(i, back) < 32 && Around(31 - i, n) == 31 - Around(i, back)
  {
  }

  lemma RotatedBitsMirror(x: U32, y: U32, k: U32, i: nat)
    requires Mirror(x, y) && i < 32
    ensures Bit(Ror(y, 32 - k % 32), i) == Bit(Ror(x, k), 31 - i)
  {
    var n := k % 32;
    assert (32 - n) % 32 == if n == 0 then 0 else 32 - n;
    AroundMirrored(i, n);
    BitOfRor(x, k, 31 - i);
    BitOfRor(y, 32 - n, i);
  }

  lemma RotationsMirror(x: U32, y: U32, k: U32)
    requires Mirror(x, y)
    ensures Mirror(Ror(x, k), Ror(y, 32 - k % 32))
  {
    var r := Ror(y, 32 - k % 32);
    forall i: nat | i < 32
      ensures Bit(r, i) == Bit(Ror(x, k), 31 - i)
    {
      RotatedBitsMirror(x, y, k, i);
    }
  }

  /** Reversal turns a rotation to the right by k into one to the left by k. */
  lemma ReverseOfRor(x: U32, k: U32)
    ensures Reverse32(Ror(x, k)) == Ror(Reverse32(x), 32 - k % 32)
  {
    ReverseIsTheMirror(x, Reverse32(x));
    RotationsMirror(x, Reverse32(x), k);
    ReverseIsTheMirror(Ror(x, k), Ror(Reverse32(x), 32 - k % 32));
  }

  lemma AroundTwice(i: nat, j: nat, k: nat)
    requires i < 32
    ensures Around(i, k % 32) < 32
    ensures Around(Around(i, k % 32), j % 32) == Around(i, (j + k) % 32)
  {
    var m, n := j % 32, k % 32;
    assert (j + k) % 32 == if m + n < 32 then m + n else m + n - 32;
  }

  lemma BitOfTwoRotations(x: U32, j: U32, k: U32, i: nat)
    requires i < 32
    ensures Bit(Ror(Ror(x, j), k), i) == Bit(Ror(x, ToU32(j + k)), i)
  {
    LowOfWord(j + k, 32, 0x800_0000);
    AroundTwice(i, j, k);
    BitOfRor(Ror(x, j), k, i);
    BitOfRor(x, j, Around(i, k % 32));
    BitOfRor(x, ToU32(j + k), i);
  }

  /** Rotations add up, in 32-bit arithmetic: turning by k and by 32 - k restores the word. */
  lemma RorAdds(x: U32, j: U32, k: U32)
    ensures Ror(Ror(x, j), k) == Ror(x, ToU32(j + k))
  {
    forall i: nat | i < 32
      ensures Bit(Ror(Ror(x, j), k), i) == Bit(Ror(x, ToU32(j + k)), i)
    {
      BitOfTwoRotations(x, j, k, i);
    }
    WordWidth();
    SameBitsSameWord(Ror(Ror(x, j), k), Ror(x, ToU32(j + k)), 32);
  }

  // ---------------------------------------------------------------- signed saturation

  /** The saturation fallback: a width outside 1..32 leaves the value alone. */
  function Ssat(val: Q31, sat: U32): (r: Q31)
    ensures 1 <= sat <= 32 ==> r == Clamp(val, -Pow2(sat - 1), Pow2(sat - 1) - 1)
    ensures !(1 <= sat <= 32) ==> r == val
  {
    if 1 <= sat <= 32 then
      Pow2Values();
      Pow2Monotone(sat - 1, 31);
      var max: Q31 := Pow2(sat - 1) - 1;
      var min: Q31 := -1 - max;
      if val > max then max else if val < min then min else val
    else val
  }
}
