/** The strided circular buffer of Q15 samples. */
module Circular {
  import opened Words

  // ---------------------------------------------------------------- offsets

  /** The offset after n steps around a ring of length len. */
  function Offset(len: int, start: int, inc: int, n: int): (o: int)
    requires len > 0
    ensures 0 <= o < len
  {
    (start + n * inc) % len
  }

  /** Adding the increment and subtracting the length once, when reached, stays on course. */
  lemma OffsetStep(len: int, start: int, inc: int, n: int)
    requires len > 0 && 0 <= inc <= len
    ensures var o := Offset(len, start, inc, n) + inc;
            Offset(len, start, inc, n + 1) == if o >= len then o - len else o
  {
    var x := start + n * inc;
    var q, o := x / len, x % len;
    assert x == q * len + o;
    assert start + (n + 1) * inc == x + inc;
    if o + inc >= len {
      assert (q + 1) * len == q * len + len;
      DivUnique(x + inc, len, q + 1, o + inc - len);
    } else {
      DivUnique(x + inc, len, q, o + inc);
    }
  }

  lemma OffsetStart(len: int, start: int, inc: int)
    requires 0 <= start < len
    ensures Offset(len, start, inc, 0) == start
  {
  }

  /** The offset that the loops keep: they wrap it at the top of the ring only. */
  function Walk(len: int, start: int, inc: int, n: nat): int
  {
    if n == 0 then start
    else
      var o := Walk(len, start, inc, n - 1) + inc;
      if o >= len then o - len else o
  }

  /** Every access stays inside the buffer, and no offset leaves 32 bits. */
  ghost predicate Fits(size: nat, len: int, start: int, inc: int, n: nat)
  {
    && (forall k: nat :: k < n ==> 0 <= Walk(len, start, inc, k) < size)
    && (forall k: nat :: k < n ==> -0x8000_0000 <= Walk(len, start, inc, k) + inc < 0x8000_0000)
    && (forall k: nat :: k <= n ==> -0x8000_0000 <= Walk(len, start, inc, k) < 0x8000_0000)
  }

  /** Strides from 0 to the length step around the ring. */
  lemma {:induction false} WalkIsModular(len: int, start: int, inc: int, n: nat)
    requires 0 <= start < len && 0 <= inc <= len
    ensures Walk(len, start, inc, n) == Offset(len, start, inc, n)
  {
    if n == 0 {
      OffsetStart(len, start, inc);
    } else {
      WalkIsModular(len, start, inc, n - 1);
      OffsetStep(len, start, inc, n - 1);
    }
  }

  lemma ModularFits(size: nat, len: int, start: int, inc: int, n: nat)
    requires 0 <= start < len <= size && 0 <= inc <= len <= 0x4000_0000
    ensures Fits(size, len, start, inc, n)
  {
    forall k: nat | k <= n
      ensures 0 <= Walk(len, start, inc, k) < len
    {
      WalkIsModular(len, start, inc, k);
    }
  }

  lemma NextMultiple(n: int, d: int)
    ensures (n + 1) * d == n * d + d
  {
  }

  /** A negative stride never wraps. */
  lemma {:induction false} WalkDown(len: int, start: int, inc: int, n: nat)
    requires start < len && inc < 0
    ensures Walk(len, start, inc, n) == start + n * inc <= start
  {
    if n == 0 {
    } else {
      WalkDown(len, start, inc, n - 1);
      assert n * inc == (n - 1) * inc + inc;
    }
  }

  /** The comment on the wrap mentions negative values, but a negative stride stays inside the
      buffer exactly as long as the block does not run past its base, and the next call finds
      its offset in the ring exactly if the step after the block does not either. */
  lemma NegativeStrideExactly(size: nat, len: int, start: int, inc: int, n: nat)
    requires 0 <= start < len <= size < 0x8000_0000 && -0x8000_0000 <= inc < 0
    ensures Fits(size, len, start, inc, n) <==> n == 0 || start + (n - 1) * inc >= 0
    ensures 0 <= Walk(len, start, inc, n) < len <==> start + n * inc >= 0
  {
    WalkDown(len, start, inc, n);
    if n > 0 {
      var last := start + (n - 1) * inc;
      WalkDown(len, start, inc, n - 1);
      if last >= 0 {
        NextMultiple(n - 1, inc);
        forall k: nat | k <= n
          ensures (if k < n then last else last + inc) <= Walk(len, start, inc, k) <= start
        {
          WalkDown(len, start, inc, k);
          StepsDown(Min(k, n - 1), n - 1, inc);
        }
      }
    }
  }

  lemma StepsDown(k: int, m: int, inc: int)
    requires k <= m && inc < 0
    ensures k * inc >= m * inc
  {
    MulAtLeast(m, k, -inc);
    assert m * -inc == -(m * inc) && k * -inc == -(k * inc);
  }

  /** A stride above the length is wrapped at every step, but only once. */
  lemma {:induction false} WalkUp(len: int, start: int, inc: int, n: nat)
    requires 0 <= start && 0 < len < inc
    ensures Walk(len, start, inc, n) == start + n * (inc - len) >= start
  {
    if n == 0 {
    } else {
      WalkUp(len, start, inc, n - 1);
      assert n * (inc - len) == (n - 1) * (inc - len) + (inc - len);
    }
  }

  lemma WalkUpRange(len: int, start: int, inc: int, k: nat, m: nat)
    requires 0 <= start && 0 < len < inc && k <= m
    ensures 0 <= Walk(len, start, inc, k) <= start + m * (inc - len)
  {
    WalkUp(len, start, inc, k);
    MulAtLeast(m, k, inc - len);
  }

  /** So it climbs out of the ring: it stays in the buffer exactly as long as the last access
      does, and the next call finds its offset in the ring exactly if no step reached the end. */
  lemma LargeStrideExactly(size: nat, len: int, start: int, inc: int, n: nat)
    requires 0 <= start < len <= size < 0x8000_0000 && len < inc < 0x8000_0000
    ensures var last := start + (n - 1) * (inc - len);
            Fits(size, len, start, inc, n) <==> n == 0 || (last < size && last + inc < 0x8000_0000)
    ensures 0 <= Walk(len, start, inc, n) < len <==> start + n * (inc - len) < len
  {
    WalkUp(len, start, inc, n);
    if n > 0 {
      var last := start + (n - 1) * (inc - len);
      WalkUp(len, start, inc, n - 1);
      if last < size && last + inc < 0x8000_0000 {
        NextMultiple(n - 1, inc - len);
        forall k: nat | k <= n
          ensures 0 <= Walk(len, start, inc, k) <= if k < n then last else last + inc
        {
          WalkUpRange(len, start, inc, k, if k < n then n - 1 else n);
        }
      }
    }
  }

  // ---------------------------------------------------------------- writing and reading

  /** The buffer after the samples xs were written, first to last. */
  function Written(buf: seq<Q15>, len: int, start: int, inc: int, xs: seq<Q15>): (r: seq<Q15>)
    requires 0 < len <= |buf|
    ensures |r| == |buf|
  {
    if xs == [] then buf
    else
      var n := |xs| - 1;
      Written(buf, len, start, inc, xs[..n])[Offset(len, start, inc, n) := xs[n]]
  }

  /** The n samples met from an offset on. */
  function Block(buf: seq<Q15>, len: int, start: int, inc: int, n: nat): (r: seq<Q15>)
    requires 0 < len <= |buf|
    ensures |r| == n
  {
    seq(n, i requires 0 <= i < n => buf[Offset(len, start, inc, i)])
  }

  /** The buffer after the samples xs were written at the offsets of the walk. */
  function WalkWritten(buf: seq<Q15>, len: int, start: int, inc: int, xs: seq<Q15>): (r: seq<Q15>)
    requires forall k: nat :: k < |xs| ==> 0 <= Walk(len, start, inc, k) < |buf|
    ensures |r| == |buf|
  {
    if xs == [] then buf
    else
      var n := |xs| - 1;
      WalkWritten(buf, len, start, inc, xs[..n])[Walk(len, start, inc, n) := xs[n]]
  }

  lemma WalkWrittenSnoc(buf: seq<Q15>, len: int, start: int, inc: int, xs: seq<Q15>, n: nat)
    requires forall k: nat :: k < |xs| ==> 0 <= Walk(len, start, inc, k) < |buf|
    requires n < |xs|
    ensures WalkWritten(buf, len, start, inc, xs[..n + 1]) ==
            WalkWritten(buf, len, start, inc, xs[..n])[Walk(len, start, inc, n) := xs[n]]
  {
    assert xs[..n + 1][..n] == xs[..n];
  }

  lemma {:induction false} WalkWrittenIsModular(buf: seq<Q15>, len: int, start: int, inc: int, xs: seq<Q15>)
    requires forall k: nat :: k < |xs| ==> 0 <= Walk(len, start, inc, k) < |buf|
    requires 0 <= start < len <= |buf| && 0 <= inc <= len
    ensures WalkWritten(buf, len, start, inc, xs) == Written(buf, len, start, inc, xs)
  {
    if xs == [] {
    } else {
      var n := |xs| - 1;
      WalkWrittenIsModular(buf, len, start, inc, xs[..n]);
      WalkIsModular(len, start, inc, n);
    }
  }

  /** The n samples met on the walk. */
  function WalkBlock(buf: seq<Q15>, len: int, start: int, inc: int, n: nat): (r: seq<Q15>)
    requires forall k: nat :: k < n ==> 0 <= Walk(len, start, inc, k) < |buf|
    ensures |r| == n
  {
    seq(n, i requires 0 <= i < n => buf[Walk(len, start, inc, i)])
  }

  lemma WalkBlockIsModular(buf: seq<Q15>, len: int, start: int, inc: int, n: nat)
    requires forall k: nat :: k < n ==> 0 <= Walk(len, start, inc, k) < |buf|
    requires 0 <= start < len <= |buf| && 0 <= inc <= len
    ensures WalkBlock(buf, len, start, inc, n) == Block(buf, len, start, inc, n)
  {
    forall i: nat | i < n
      ensures Walk(len, start, inc, i) == Offset(len, start, inc, i)
    {
      WalkIsModular(len, start, inc, i);
    }
  }

  /** The samples of a source that is stepped through from an index with any increment. */
  function Stepped(src: seq<Q15>, srcStart: int, srcInc: int, n: nat): (r: seq<Q15>)
    requires forall i :: 0 <= i < n ==> 0 <= srcStart + i * srcInc < |src|
    ensures |r| == n
  {
    seq(n, i requires 0 <= i < n => src[srcStart + i * srcInc])
  }

  /** The position in the destination after n samples: it returns to the base when it meets
      the end. */
  function DstAt(start: int, end: int, inc: int, n: nat): int
  {
    if n == 0 then start
    else
      var next := DstAt(start, end, inc, n - 1) + inc;
      if next == end then 0 else next
  }

  function Delivered(dst: seq<Q15>, start: int, end: int, inc: int, xs: seq<Q15>): (r: seq<Q15>)
    requires forall i: nat :: i < |xs| ==> 0 <= DstAt(start, end, inc, i) < |dst|
    ensures |r| == |dst|
  {
    if xs == [] then dst
    else
      var n := |xs| - 1;
      Delivered(dst, start, end, inc, xs[..n])[DstAt(start, end, inc, n) := xs[n]]
  }

  lemma DeliveredSnoc(dst: seq<Q15>, start: int, end: int, inc: int, xs: seq<Q15>, n: nat)
    requires n < |xs|
    requires forall i: nat :: i < |xs| ==> 0 <= DstAt(start, end, inc, i) < |dst|
    ensures Delivered(dst, start, end, inc, xs[..n + 1]) ==
            Delivered(dst, start, end, inc, xs[..n])[DstAt(start, end, inc, n) := xs[n]]
  {
    assert xs[..n + 1][..n] == xs[..n];
  }

  /** With unit steps and room for the block before the end, it arrives contiguously. */
  lemma {:induction false} DeliveredContiguously(dst: seq<Q15>, start: nat, end: int, xs: seq<Q15>)
    requires start + |xs| <= end <= |dst|
    ensures forall i: nat :: i < |xs| ==> DstAt(start, end, 1, i) == start + i
    ensures Delivered(dst, start, end, 1, xs) == dst[..start] + xs + dst[start + |xs|..]
  {
    if xs == [] {
    } else {
      var n := |xs| - 1;
      DeliveredContiguously(dst, start, end, xs[..n]);
      assert DstAt(start, end, 1, n) == start + n;
      assert xs == xs[..n] + [xs[n]];
    }
  }

  // ---------------------------------------------------------------- greatest common divisor

  function Gcd(a: nat, b: nat): (g: nat)
    requires a > 0 || b > 0
    ensures g > 0
    decreases b
  {
    if b == 0 then a else Gcd(b, a % b)
  }

  lemma SumOfMultiples(q: int, s: int, t: int, g: int)
    ensures (q * s + t) * g == q * (s * g) + t * g
  {
  }

  lemma {:induction false} GcdDivides(a: nat, b: nat) returns (p: nat, q: nat)
    requires a > 0 || b > 0
    ensures a == p * Gcd(a, b) && b == q * Gcd(a, b)
    decreases b
  {
    if b == 0 {
      p, q := 1, 0;
    } else {
      var s, t := GcdDivides(b, a % b);
      DivBounds(a, b);
      DivMonotone(0, a, b);
      MulLe(a / b, 0, s);
      p, q := (a / b) * s + t, s;
      SumOfMultiples(a / b, s, t, Gcd(a, b));
    }
  }

  lemma BackSubstitute(a: int, b: int, q: int, r: int, s: int, t: int)
    requires a == q * b + r
    ensures a * t + b * (s - q * t) == b * s + r * t
  {
  }

  lemma {:induction false} Bezout(a: nat, b: nat) returns (x: int, y: int)
    requires a > 0 || b > 0
    ensures a * x + b * y == Gcd(a, b)
    decreases b
  {
    if b == 0 {
      x, y := 1, 0;
    } else {
      var s, t := Bezout(b, a % b);
      x, y := t, s - (a / b) * t;
      BackSubstitute(a, b, a / b, a % b, s, t);
    }
  }

  // ---------------------------------------------------------------- the round trip

  lemma CommonMultiple(k: int, inc: int, len: int, w: int, x: int, y: int)
    requires k * inc == w * len
    ensures k * (inc * x + len * y) == len * (w * x + k * y)
  {
  }

  lemma PositiveMultiple(len: int, m: int)
    requires len > 0 && len * m > 0
    ensures len * m >= len
  {
  }

  /** Offsets i < j coincide only when len divides (j - i) * gcd. */
  lemma CoincidenceSpacing(len: int, start: int, inc: int, i: nat, j: nat)
    requires 1 <= inc <= len && i < j
    requires Offset(len, start, inc, i) == Offset(len, start, inc, j)
    ensures (j - i) * Gcd(inc, len) >= len
  {
    var x, y := Bezout(inc, len);
    var u, v := (start + i * inc) / len, (start + j * inc) / len;
    var k := j - i;
    EqualRemainders(start, len, inc, i, j);
    CommonMultiple(k, inc, len, v - u, x, y);
    MulLe(k, 1, Gcd(inc, len));
    PositiveMultiple(len, (v - u) * x + k * y);
  }

  lemma EqualRemainders(start: int, len: int, inc: int, i: nat, j: nat)
    requires len > 0 && (start + i * inc) % len == (start + j * inc) % len
    ensures (j - i) * inc == ((start + j * inc) / len - (start + i * inc) / len) * len
  {
  }

  /** A slot holds the last sample written to it. */
  lemma {:induction false} WrittenAt(buf: seq<Q15>, len: int, start: int, inc: int, xs: seq<Q15>, i: nat)
    requires 0 < len <= |buf| && i < |xs|
    requires forall j :: i < j < |xs| ==> Offset(len, start, inc, j) != Offset(len, start, inc, i)
    ensures Written(buf, len, start, inc, xs)[Offset(len, start, inc, i)] == xs[i]
  {
    var n := |xs| - 1;
    if i == n {
    } else {
      assert Offset(len, start, inc, n) != Offset(len, start, inc, i);
      WrittenAt(buf, len, start, inc, xs[..n], i);
    }
  }

  /** A slot that is not visited keeps its value. */
  lemma {:induction false} NotWritten(buf: seq<Q15>, len: int, start: int, inc: int, xs: seq<Q15>, p: nat)
    requires 0 < len <= |buf| && p < |buf|
    requires forall j :: 0 <= j < |xs| ==> Offset(len, start, inc, j) != p
    ensures Written(buf, len, start, inc, xs)[p] == buf[p]
  {
    if xs == [] {
    } else {
      var n := |xs| - 1;
      assert Offset(len, start, inc, n) != p;
      NotWritten(buf, len, start, inc, xs[..n], p);
    }
  }

  /** Reading from where a block was written returns it, if it is no longer than len / gcd. */
  lemma ReadBack(buf: seq<Q15>, len: int, start: int, inc: int, xs: seq<Q15>)
    requires 1 <= inc <= len <= |buf|
    requires |xs| * Gcd(inc, len) <= len
    ensures Block(Written(buf, len, start, inc, xs), len, start, inc, |xs|) == xs
  {
    var g := Gcd(inc, len);
    forall i: nat | i < |xs|
      ensures Written(buf, len, start, inc, xs)[Offset(len, start, inc, i)] == xs[i]
    {
      forall j | i < j < |xs|
        ensures Offset(len, start, inc, j) != Offset(len, start, inc, i)
      {
        assert (|xs| - 1) * g == |xs| * g - g;
        MulAtLeast(|xs| - 1, j - i, g);
        if Offset(len, start, inc, j) == Offset(len, start, inc, i) {
          CoincidenceSpacing(len, start, inc, i, j);
        }
      }
      WrittenAt(buf, len, start, inc, xs, i);
    }
  }

  /** After len / gcd steps the offset is back at the start. */
  lemma Period(len: int, start: int, inc: int) returns (k: nat)
    requires 1 <= inc <= len
    ensures k * Gcd(inc, len) == len
    ensures Offset(len, start, inc, k) == Offset(len, start, inc, 0)
  {
    var p, q := GcdDivides(inc, len);
    k := q;
    var o, u := start % len, start / len;
    assert start + k * inc == (u + p) * len + o by {
      assert q * inc == p * (q * Gcd(inc, len));
    }
    DivUnique(start + k * inc, len, u + p, o);
  }

  /** The block length for which reading back works for all samples is exactly len / gcd. */
  lemma ReadBackExactly(buf: seq<Q15>, len: int, start: int, inc: int, n: nat)
    requires 1 <= inc <= len <= |buf|
    ensures n * Gcd(inc, len) <= len <==>
            (forall xs: seq<Q15> :: |xs| == n ==> Block(Written(buf, len, start, inc, xs), len, start, inc, n) == xs)
  {
    if n * Gcd(inc, len) <= len {
      forall xs: seq<Q15> | |xs| == n
        ensures Block(Written(buf, len, start, inc, xs), len, start, inc, n) == xs
      {
        ReadBack(buf, len, start, inc, xs);
      }
    } else {
      var k := Period(len, start, inc);
      var g := Gcd(inc, len);
      if k >= n {
        MulAtLeast(k, n, g);
      }
      assert k > 0;
      var xs: seq<Q15> := seq(n, i => if i == 0 then 1 else 0);
      var back := Block(Written(buf, len, start, inc, xs), len, start, inc, n);
      assert back[0] == back[k] && xs[0] != xs[k];
      assert back != xs;
    }
  }

  // ---------------------------------------------------------------- what each slot holds

  /** A slot holds the last sample written to it. */
  lemma {:induction false} WalkWrittenAt(buf: seq<Q15>, len: int, start: int, inc: int, xs: seq<Q15>, i: nat)
    requires forall k: nat :: k < |xs| ==> 0 <= Walk(len, start, inc, k) < |buf|
    requires i < |xs| && forall j: nat :: i < j < |xs| ==> Walk(len, start, inc, j) != Walk(len, start, inc, i)
    ensures WalkWritten(buf, len, start, inc, xs)[Walk(len, start, inc, i)] == xs[i]
  {
    var n := |xs| - 1;
    if i == n {
    } else {
      assert Walk(len, start, inc, n) != Walk(len, start, inc, i);
      WalkWrittenAt(buf, len, start, inc, xs[..n], i);
    }
  }

  /** A slot that the walk does not visit keeps its value. */
  lemma {:induction false} WalkNotWritten(buf: seq<Q15>, len: int, start: int, inc: int, xs: seq<Q15>, p: nat)
    requires forall k: nat :: k < |xs| ==> 0 <= Walk(len, start, inc, k) < |buf|
    requires p < |buf| && forall j: nat :: j < |xs| ==> Walk(len, start, inc, j) != p
    ensures WalkWritten(buf, len, start, inc, xs)[p] == buf[p]
  {
    if xs == [] {
    } else {
      var n := |xs| - 1;
      assert Walk(len, start, inc, n) != p;
      WalkNotWritten(buf, len, start, inc, xs[..n], p);
    }
  }

  lemma {:induction false} DeliveredAt(dst: seq<Q15>, start: int, end: int, inc: int, xs: seq<Q15>, i: nat)
    requires forall k: nat :: k < |xs| ==> 0 <= DstAt(start, end, inc, k) < |dst|
    requires i < |xs| && forall j: nat :: i < j < |xs| ==> DstAt(start, end, inc, j) != DstAt(start, end, inc, i)
    ensures Delivered(dst, start, end, inc, xs)[DstAt(start, end, inc, i)] == xs[i]
  {
    var n := |xs| - 1;
    if i == n {
    } else {
      assert DstAt(start, end, inc, n) != DstAt(start, end, inc, i);
      DeliveredAt(dst, start, end, inc, xs[..n], i);
    }
  }

  lemma {:induction false} NotDelivered(dst: seq<Q15>, start: int, end: int, inc: int, xs: seq<Q15>, p: nat)
    requires forall k: nat :: k < |xs| ==> 0 <= DstAt(start, end, inc, k) < |dst|
    requires p < |dst| && forall j: nat :: j < |xs| ==> DstAt(start, end, inc, j) != p
    ensures Delivered(dst, start, end, inc, xs)[p] == dst[p]
  {
    if xs == [] {
    } else {
      var n := |xs| - 1;
      assert DstAt(start, end, inc, n) != p;
      NotDelivered(dst, start, end, inc, xs[..n], p);
    }
  }

  /** Entered at a multiple of its step, a destination whose end is one too is gone around. */
  lemma {:induction false} DstGoesAround(start: int, end: int, inc: int, n: nat)
    requires 0 <= start < end && inc > 0 && start % inc == 0 && end % inc == 0
    ensures DstAt(start, end, inc, n) == Offset(end, start, inc, n) == (start + n * inc) % end
    ensures DstAt(start, end, inc, n) % inc == 0
  {
    if n == 0 {
      OffsetStart(end, start, inc);
    } else {
      DstGoesAround(start, end, inc, n - 1);
      var at := DstAt(start, end, inc, n - 1);
      NextMultipleFits(at, end, inc);
      OffsetStep(end, start, inc, n - 1);
      assert DstAt(start, end, inc, n) == if at + inc == end then 0 else at + inc;
    }
  }

  lemma NextMultipleFits(at: int, end: int, inc: int)
    requires inc > 0 && at % inc == 0 && end % inc == 0 && at < end
    ensures at + inc <= end && (at + inc) % inc == 0 && 0 % inc == 0
  {
    var q, e := at / inc, end / inc;
    DivBounds(at, inc);
    DivBounds(end, inc);
    assert at == q * inc && end == e * inc;
    if e <= q {
      MulAtLeast(q, e, inc);
    }
    MulAtLeast(e, q + 1, inc);
    assert (q + 1) * inc == q * inc + inc;
    DivUnique(at + inc, inc, q + 1, 0);
    DivUnique(0, inc, 0, 0);
  }

  /** A destination whose end is never met is walked straight on. */
  lemma {:induction false} DstGoesOn(start: int, end: int, inc: int, n: nat)
    requires forall k: nat :: 1 <= k <= n ==> start + k * inc != end
    ensures DstAt(start, end, inc, n) == start + n * inc
  {
    if n == 0 {
    } else {
      DstGoesOn(start, end, inc, n - 1);
      NextMultiple(n - 1, inc);
    }
  }

  /** The last len / gcd samples of a source are found at their offsets. */
  lemma SourceInRing(buf: seq<Q15>, len: int, start: int, inc: int, src: seq<Q15>, srcStart: int, srcInc: int,
                     n: nat, i: nat)
    requires 1 <= inc <= len <= |buf| && i < n && (n - i) * Gcd(inc, len) <= len
    requires forall i :: 0 <= i < n ==> 0 <= srcStart + i * srcInc < |src|
    ensures Written(buf, len, start, inc, Stepped(src, srcStart, srcInc, n))[Offset(len, start, inc, i)] ==
            src[srcStart + i * srcInc]
  {
    forall j | i < j < n
      ensures Offset(len, start, inc, j) != Offset(len, start, inc, i)
    {
      NearOffsetsDiffer(len, start, inc, i, j, n);
    }
    WrittenAt(buf, len, start, inc, Stepped(src, srcStart, srcInc, n), i);
  }

  lemma NearOffsetsDiffer(len: int, start: int, inc: int, i: nat, j: nat, n: nat)
    requires 1 <= inc <= len && i < j < n && (n - i) * Gcd(inc, len) <= len
    ensures Offset(len, start, inc, j) != Offset(len, start, inc, i)
  {
    var g := Gcd(inc, len);
    MulAtLeast(n - i, j - i + 1, g);
    NextMultiple(j - i, g);
    if Offset(len, start, inc, j) == Offset(len, start, inc, i) {
      CoincidenceSpacing(len, start, inc, i, j);
    }
  }

  /** With stride 1, the history goes on with the samples of the source. */
  lemma HistoryOfSource(buf: seq<Q15>, len: int, start: int, src: seq<Q15>, srcStart: int, srcInc: int, n: nat)
    requires 0 <= start < len <= |buf|
    requires forall i :: 0 <= i < n ==> 0 <= srcStart + i * srcInc < |src|
    ensures History(Written(buf, len, start, 1, Stepped(src, srcStart, srcInc, n)), len, Offset(len, start, 1, n)) ==
            Last(History(buf, len, start) + seq(n, i requires 0 <= i < n => src[srcStart + i * srcInc]), len)
  {
    var xs := Stepped(src, srcStart, srcInc, n);
    HistoryOfWrite(buf, len, start, xs);
    assert xs == seq(n, i requires 0 <= i < n => src[srcStart + i * srcInc]);
  }

  /** Of a block that goes around the destination, the last samples are found in order. */
  lemma DeliveredAround(dst: seq<Q15>, start: nat, end: int, xs: seq<Q15>, i: nat)
    requires start < end <= |dst| && i < |xs| <= i + end
    requires forall k: nat :: k < |xs| ==> 0 <= DstAt(start, end, 1, k) < |dst|
    ensures Delivered(dst, start, end, 1, xs)[(start + i) % end] == xs[i]
  {
    DstGoesAround(start, end, 1, i);
    forall j: nat | i < j < |xs|
      ensures DstAt(start, end, 1, j) != DstAt(start, end, 1, i)
    {
      DstGoesAround(start, end, 1, j);
      UnitOffsetsDiffer(end, start, i, j);
    }
    DeliveredAt(dst, start, end, 1, xs, i);
  }

  lemma UnitOffsetsDiffer(len: int, start: int, i: int, j: int)
    requires len > 0 && i < j < i + len
    ensures (start + i) % len != (start + j) % len
  {
    var x, y := start + i, start + j;
    var m := y / len - x / len;
    if x % len == y % len {
      assert y - x == m * len;
      if m >= 1 {
        MulAtLeast(m, 1, len);
      } else {
        MulAtLeast(0, m, len);
      }
    }
  }

  // ---------------------------------------------------------------- the two routines

  lemma SourceSlots(buf: seq<Q15>, len: int, start: int, inc: int, src: seq<Q15>, srcStart: int, srcInc: int, n: nat)
    requires 1 <= inc <= len <= |buf|
    requires forall i :: 0 <= i < n ==> 0 <= srcStart + i * srcInc < |src|
    ensures forall i: nat :: i < n && (n - i) * Gcd(inc, len) <= len ==>
              Written(buf, len, start, inc, Stepped(src, srcStart, srcInc, n))[Offset(len, start, inc, i)] ==
              src[srcStart + i * srcInc]
  {
    forall i: nat | i < n && (n - i) * Gcd(inc, len) <= len
      ensures Written(buf, len, start, inc, Stepped(src, srcStart, srcInc, n))[Offset(len, start, inc, i)] ==
              src[srcStart + i * srcInc]
    {
      SourceInRing(buf, len, start, inc, src, srcStart, srcInc, n, i);
    }
  }

  /** arm_circularWrite_q15, for every stride and length whose offsets stay in the buffer. */
  method CircularWriteQ15(circBuffer: array<Q15>, len: Q31, writeOffset: U16, bufferInc: Q31,
                          src: seq<Q15>, srcStart: int, srcInc: Q31, blockSize: U32)
    returns (newOffset: U16)
    requires Fits(circBuffer.Length, len, writeOffset, bufferInc, blockSize)
    requires forall i :: 0 <= i < blockSize ==> 0 <= srcStart + i * srcInc < |src|
    modifies circBuffer
    ensures circBuffer[..] ==
            WalkWritten(old(circBuffer[..]), len, writeOffset, bufferInc, Stepped(src, srcStart, srcInc, blockSize))
    ensures newOffset == Walk(len, writeOffset, bufferInc, blockSize) % 0x1_0000
    ensures writeOffset < len <= circBuffer.Length && 0 <= bufferInc <= len ==>
              && circBuffer[..] ==
                 Written(old(circBuffer[..]), len, writeOffset, bufferInc, Stepped(src, srcStart, srcInc, blockSize))
              && newOffset == Offset(len, writeOffset, bufferInc, blockSize) % 0x1_0000
    ensures writeOffset < len <= circBuffer.Length && 1 <= bufferInc <= len ==>
              forall i: nat :: i < blockSize && (blockSize - i) * Gcd(bufferInc, len) <= len ==>
                circBuffer[Offset(len, writeOffset, bufferInc, i)] == src[srcStart + i * srcInc]
  {
    ghost var xs := Stepped(src, srcStart, srcInc, blockSize);
    ghost var was := circBuffer[..];
    ghost var n: nat := 0;
    var wOffset: Q31 := writeOffset;
    var pos := srcStart;
    var i := blockSize;
    assert xs[..0] == [];
    while i > 0
      invariant n + i == blockSize == |xs|
      invariant pos == srcStart + n * srcInc
      invariant wOffset == Walk(len, writeOffset, bufferInc, n)
      invariant circBuffer[..] == WalkWritten(was, len, writeOffset, bufferInc, xs[..n])
    {
      WalkWrittenSnoc(was, len, writeOffset, bufferInc, xs, n);
      assert Walk(len, writeOffset, bufferInc, n + 1) < 0x8000_0000;
      assert xs[n] == src[pos];
      circBuffer[wOffset] := src[pos];
      NextMultiple(n, srcInc);
      pos := pos + srcInc;
      n := n + 1;
      wOffset := wOffset + bufferInc;
      if wOffset >= len {
        wOffset := wOffset - len;
      }
      i := i - 1;
    }
    assert xs[..n] == xs;
    newOffset := wOffset % 0x1_0000;
    if writeOffset < len <= circBuffer.Length && 0 <= bufferInc <= len {
      WalkWrittenIsModular(was, len, writeOffset, bufferInc, xs);
      WalkIsModular(len, writeOffset, bufferInc, blockSize);
    }
    if writeOffset < len <= circBuffer.Length && 1 <= bufferInc <= len {
      SourceSlots(was, len, writeOffset, bufferInc, src, srcStart, srcInc, blockSize);
    }
  }

  lemma BlockAround(dst: seq<Q15>, dstStart: nat, end: int, buf: seq<Q15>, len: int, start: int, inc: int, n: nat)
    requires dstStart < end <= |dst|
    requires forall k: nat :: k < n ==> 0 <= Walk(len, start, inc, k) < |buf|
    requires forall k: nat :: k < n ==> 0 <= DstAt(dstStart, end, 1, k) < |dst|
    ensures forall i: nat :: i < n <= i + end ==>
              Delivered(dst, dstStart, end, 1, WalkBlock(buf, len, start, inc, n))[(dstStart + i) % end] ==
              buf[Walk(len, start, inc, i)]
  {
    var xs := WalkBlock(buf, len, start, inc, n);
    forall i: nat | i < n <= i + end
      ensures Delivered(dst, dstStart, end, 1, xs)[(dstStart + i) % end] == buf[Walk(len, start, inc, i)]
    {
      DeliveredAround(dst, dstStart, end, xs, i);
    }
  }

  /** arm_circularRead_q15. The destination base is index 0 of dst; dstStart is where the
      first sample goes. */
  method CircularReadQ15(circBuffer: array<Q15>, len: Q31, readOffset: Q31, bufferInc: Q31,
                         dst: array<Q15>, dstStart: int, dstLength: Q31, dstInc: Q31, blockSize: U32)
    returns (newOffset: Q31)
    requires Fits(circBuffer.Length, len, readOffset, bufferInc, blockSize)
    requires dst != circBuffer
    requires forall i: nat :: i < blockSize ==> 0 <= DstAt(dstStart, dstLength, dstInc, i) < dst.Length
    modifies dst
    ensures dst[..] == Delivered(old(dst[..]), dstStart, dstLength, dstInc,
                                 WalkBlock(circBuffer[..], len, readOffset, bufferInc, blockSize))
    ensures newOffset == Walk(len, readOffset, bufferInc, blockSize)
    ensures 0 <= readOffset < len <= circBuffer.Length && 0 <= bufferInc <= len ==>
              && dst[..] == Delivered(old(dst[..]), dstStart, dstLength, dstInc,
                                      Block(circBuffer[..], len, readOffset, bufferInc, blockSize))
              && newOffset == Offset(len, readOffset, bufferInc, blockSize)
    ensures 0 <= dstStart < dstLength <= dst.Length && dstInc == 1 ==>
              forall i: nat :: i < blockSize <= i + dstLength ==>
                dst[(dstStart + i) % dstLength] == circBuffer[Walk(len, readOffset, bufferInc, i)]
  {
    ghost var xs := WalkBlock(circBuffer[..], len, readOffset, bufferInc, blockSize);
    ghost var was := dst[..];
    ghost var n: nat := 0;
    var rOffset := readOffset;
    var pos := dstStart;
    var i := blockSize;
    assert xs[..0] == [];
    while i > 0
      invariant n + i == blockSize == |xs|
      invariant pos == DstAt(dstStart, dstLength, dstInc, n)
      invariant rOffset == Walk(len, readOffset, bufferInc, n)
      invariant dst[..] == Delivered(was, dstStart, dstLength, dstInc, xs[..n])
    {
      DeliveredSnoc(was, dstStart, dstLength, dstInc, xs, n);
      assert Walk(len, readOffset, bufferInc, n + 1) < 0x8000_0000;
      assert xs[n] == circBuffer[rOffset];
      dst[pos] := circBuffer[rOffset];
      pos := pos + dstInc;
      if pos == dstLength {
        pos := 0;
      }
      n := n + 1;
      rOffset := rOffset + bufferInc;
      if rOffset >= len {
        rOffset := rOffset - len;
      }
      i := i - 1;
    }
    assert xs[..n] == xs;
    newOffset := rOffset;
    if 0 <= readOffset < len <= circBuffer.Length && 0 <= bufferInc <= len {
      WalkBlockIsModular(circBuffer[..], len, readOffset, bufferInc, blockSize);
      WalkIsModular(len, readOffset, bufferInc, blockSize);
    }
    if 0 <= dstStart < dstLength <= dst.Length && dstInc == 1 {
      BlockAround(was, dstStart, dstLength, circBuffer[..], len, readOffset, bufferInc, blockSize);
    }
  }

  // ---------------------------------------------------------------- ring history

  /** With stride 1, the ring from its oldest to its newest sample. */
  function History(buf: seq<Q15>, len: int, offset: int): (r: seq<Q15>)
    requires 0 <= offset < len <= |buf|
    ensures |r| == len
  {
    buf[offset..len] + buf[..offset]
  }

  /** Reading backwards from the write offset meets the history from its newest sample. */
  lemma BackwardRead(buf: seq<Q15>, len: int, offset: int, k: nat)
    requires 0 <= offset < len <= |buf| && k < len
    ensures buf[(offset + len - 1 - k) % len] == History(buf, len, offset)[len - 1 - k]
  {
    var p := offset + len - 1 - k;
    if p >= len {
      DivUnique(p, len, 1, p - len);
    } else {
      DivUnique(p, len, 0, p);
    }
  }

  /** The last n items of a sequence. */
  function Last(s: seq<Q15>, n: int): seq<Q15>
    requires 0 <= n <= |s|
  {
    s[|s| - n..]
  }

  /** Writing one sample drops the oldest one. */
  lemma HistoryStep(buf: seq<Q15>, len: int, offset: int, x: Q15)
    requires 0 <= offset < len <= |buf|
    ensures var next := if offset + 1 >= len then offset + 1 - len else offset + 1;
            History(buf[offset := x], len, next) == History(buf, len, offset)[1..] + [x]
  {
  }

  lemma LastSnoc(h: seq<Q15>, xs: seq<Q15>, n: int)
    requires 0 < n <= |h| && xs != []
    ensures Last(h + xs[..|xs| - 1], n)[1..] + [xs[|xs| - 1]] == Last(h + xs, n)
  {
    assert h + xs == h + xs[..|xs| - 1] + [xs[|xs| - 1]];
  }

  lemma {:induction false} HistoryOfWrite(buf: seq<Q15>, len: int, offset: int, xs: seq<Q15>)
    requires 0 <= offset < len <= |buf|
    ensures History(Written(buf, len, offset, 1, xs), len, Offset(len, offset, 1, |xs|)) ==
            Last(History(buf, len, offset) + xs, len)
  {
    if xs == [] {
      OffsetStart(len, offset, 1);
    } else {
      var n := |xs| - 1;
      HistoryOfWrite(buf, len, offset, xs[..n]);
      HistoryStep(Written(buf, len, offset, 1, xs[..n]), len, Offset(len, offset, 1, n), xs[n]);
      OffsetStep(len, offset, 1, n);
      LastSnoc(History(buf, len, offset), xs, len);
    }
  }

  datatype Ring = Ring(buf: seq<Q15>, offset: U16)

  /** One call of the write function with stride 1, as its contract states it. */
  function WriteCall(r: Ring, len: int, block: seq<Q15>): Ring
    requires 0 < len <= |r.buf|
  {
    Ring(Written(r.buf, len, r.offset, 1, block), Offset(len, r.offset, 1, |block|) % 0x1_0000)
  }

  function WriteCalls(r: Ring, len: int, blocks: seq<seq<Q15>>): (r': Ring)
    requires 0 < len <= |r.buf|
    ensures |r'.buf| == |r.buf|
    decreases |blocks|
  {
    if blocks == [] then r
    else WriteCall(WriteCalls(r, len, blocks[..|blocks| - 1]), len, blocks[|blocks| - 1])
  }

  function Stream(blocks: seq<seq<Q15>>): seq<Q15>
    decreases |blocks|
  {
    if blocks == [] then [] else Stream(blocks[..|blocks| - 1]) + blocks[|blocks| - 1]
  }

  lemma LastOfLast(h: seq<Q15>, s: seq<Q15>, t: seq<Q15>, n: nat)
    requires n <= |h|
    ensures Last(Last(h + s, n) + t, n) == Last(h + (s + t), n)
  {
  }

  /** The ring holds the last len samples of its initial history h and the stream so far. */
  ghost predicate Remembers(r: Ring, len: int, start: int, h: seq<Q15>, stream: seq<Q15>)
    requires 0 < len <= |r.buf| && len <= |h|
  {
    && r.offset < len
    && r.offset == Offset(len, start, 1, |stream|)
    && History(r.buf, len, r.offset) == Last(h + stream, len)
  }

  lemma CallRemembers(r: Ring, len: int, start: int, h: seq<Q15>, stream: seq<Q15>, block: seq<Q15>)
    requires 0 < len <= |r.buf| && len <= 0x1_0000 && len <= |h|
    requires Remembers(r, len, start, h, stream)
    ensures Remembers(WriteCall(r, len, block), len, start, h, stream + block)
  {
    HistoryOfWrite(r.buf, len, r.offset, block);
    LastOfLast(h, stream, block, len);
    OffsetAdds(len, start, |stream|, |block|);
  }

  /** After any calls with blocks of any sizes, the ring holds the last len samples of its
      initial history followed by the whole stream, and the 16-bit offset lost nothing. */
  lemma {:induction false} RingHistory(r: Ring, len: int, blocks: seq<seq<Q15>>)
    requires r.offset < len <= |r.buf| && len <= 0x1_0000
    ensures Remembers(WriteCalls(r, len, blocks), len, r.offset, History(r.buf, len, r.offset), Stream(blocks))
    decreases |blocks|
  {
    var h := History(r.buf, len, r.offset);
    if blocks == [] {
      OffsetStart(len, r.offset, 1);
      assert h + [] == h;
    } else {
      var n := |blocks| - 1;
      RingHistory(r, len, blocks[..n]);
      CallRemembers(WriteCalls(r, len, blocks[..n]), len, r.offset, h, Stream(blocks[..n]), blocks[n]);
    }
  }

  lemma OffsetAdds(len: int, start: int, m: nat, n: nat)
    requires len > 0
    ensures Offset(len, Offset(len, start, 1, m), 1, n) == Offset(len, start, 1, m + n)
  {
    var q, o := (start + m) / len, (start + m) % len;
    var q', o' := (o + n) / len, (o + n) % len;
    assert start + m + n == (q + q') * len + o' by {
      assert start + m == q * len + o && o + n == q' * len + o';
      assert (q + q') * len == q * len + q' * len;
    }
    DivUnique(start + m + n, len, q + q', o');
  }

  lemma {:induction false} StreamAppends(a: seq<seq<Q15>>, b: seq<seq<Q15>>)
    ensures Stream(a + b) == Stream(a) + Stream(b)
    decreases |b|
  {
    if b == [] {
      assert a + b == a;
    } else {
      var n := |b| - 1;
      assert (a + b)[..|a| + n] == a + b[..n];
      StreamAppends(a, b[..n]);
    }
  }

  lemma StreamOfOne(block: seq<Q15>)
    ensures Stream([block]) == block
  {
    assert [block][..0] == [];
  }

  lemma CallsSnoc(r: Ring, len: int, blocks: seq<seq<Q15>>, i: nat)
    requires 0 < len <= |r.buf| && i < |blocks|
    ensures WriteCalls(r, len, blocks[..i + 1]) == WriteCall(WriteCalls(r, len, blocks[..i]), len, blocks[i])
  {
    assert blocks[..i + 1][..i] == blocks[..i];
  }

  lemma CallsResult(r: Ring, len: int, blocks: seq<seq<Q15>>)
    requires r.offset < len <= |r.buf| && len <= 0x1_0000
    ensures var r', stream := WriteCalls(r, len, blocks), Stream(blocks);
            && r'.offset == (r.offset + |stream|) % len < len
            && (var h := r.buf[r.offset..len] + r.buf[..r.offset] + stream;
                r'.buf[r'.offset..len] + r'.buf[..r'.offset] == h[|h| - len..])
  {
    RingHistory(r, len, blocks);
  }

  /** A call of the write routine with stride 1 for a contiguous block. */
  method WriteBlock(circBuffer: array<Q15>, len: Q31, writeOffset: U16, block: seq<Q15>)
    returns (newOffset: U16)
    requires writeOffset < len <= circBuffer.Length && len <= 0x1_0000 && |block| < 0x1_0000_0000
    modifies circBuffer
    ensures Ring(circBuffer[..], newOffset) == WriteCall(Ring(old(circBuffer[..]), writeOffset), len, block)
  {
    ModularFits(circBuffer.Length, len, writeOffset, 1, |block|);
    assert Stepped(block, 0, 1, |block|) == block;
    newOffset := CircularWriteQ15(circBuffer, len, writeOffset, 1, block, 0, 1, |block|);
  }

  /** Calling the write routine with stride 1 for one block after the other: the ring ends with
      the last len samples of what it held and of the stream. */
  method WriteBlocks(circBuffer: array<Q15>, len: Q31, writeOffset: U16, blocks: seq<seq<Q15>>)
    returns (newOffset: U16)
    requires writeOffset < len <= circBuffer.Length && len <= 0x1_0000
    requires forall i :: 0 <= i < |blocks| ==> |blocks[i]| < 0x1_0000_0000
    modifies circBuffer
    ensures Ring(circBuffer[..], newOffset) == WriteCalls(Ring(old(circBuffer[..]), writeOffset), len, blocks)
    ensures newOffset == (writeOffset + |Stream(blocks)|) % len
    ensures var h := old(circBuffer[writeOffset..len]) + old(circBuffer[..writeOffset]) + Stream(blocks);
            circBuffer[newOffset..len] + circBuffer[..newOffset] == h[|h| - len..]
  {
    ghost var r := Ring(circBuffer[..], writeOffset);
    newOffset := writeOffset;
    var i := 0;
    while i < |blocks|
      invariant i <= |blocks|
      invariant Ring(circBuffer[..], newOffset) == WriteCalls(r, len, blocks[..i])
      invariant newOffset < len
    {
      CallsSnoc(r, len, blocks, i);
      CallsResult(r, len, blocks[..i + 1]);
      newOffset := WriteBlock(circBuffer, len, newOffset, blocks[i]);
      i := i + 1;
    }
    assert blocks[..i] == blocks;
    CallsResult(r, len, blocks);
  }
}
