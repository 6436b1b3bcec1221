/** Saturating arithmetic on Q31 values. */
module FixedPoint {
  import opened Words

  /** The exclusive or of a mask of low bits with a sign word, which is 0 or -1. */
  function XorSign(mask: Q31, sign: Q31): Q31
  {
    if sign == 0 then mask else -1 - mask
  }

  /** Compares the high word with the sign of the low word, and saturates when they differ. */
  function ClipQ63ToQ31(x: Q63): (r: Q31)
    ensures r == Clamp(x, -0x8000_0000, 0x7FFF_FFFF)
  {
    if ToQ31(x / 0x1_0000_0000) != ToQ31(x) / 0x8000_0000
    then XorSign(0x7FFF_FFFF, ToQ31(x / 0x8000_0000_0000_0000))
    else ToQ31(x)
  }

  function Qadd(x: Q31, y: Q31): Q31 { ClipQ63ToQ31(x + y) }

  function Qsub(x: Q31, y: Q31): Q31 { ClipQ63ToQ31(x - y) }

  /** Saturation never moves a value away from a representable one. */
  lemma ClampIsNearer(x: int, y: int, lo: int, hi: int)
    requires lo <= y <= hi
    ensures Abs(Clamp(x, lo, hi) - y) <= Abs(x - y)
    ensures x >= y ==> 0 <= Clamp(x, lo, hi) - y <= x - y
    ensures x <= y ==> x - y <= Clamp(x, lo, hi) - y <= 0
  {
  }
}
