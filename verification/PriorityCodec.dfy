/** Encoding a preemption priority and a sub-priority in one priority value. */
module PriorityCodec {
  import opened Words
  import opened BitLoops
  import opened Nvic

  /** The bits of the preemption field, for a priority group and a number of priority bits. */
  function PreemptBits(group: U32, bits: nat): nat
    requires bits <= 8
  {
    GroupMask(group);
    var tmp := And(group, 0x7);
    if ToU32(7 - tmp) > bits then bits else ToU32(7 - tmp)
  }

  function SubBits(group: U32, bits: nat): nat
    requires bits <= 8
  {
    GroupMask(group);
    var tmp := And(group, 0x7);
    if tmp + bits < 7 then 0 else ToU32(ToU32(tmp - 7) + bits)
  }

  lemma GroupMask(group: U32)
    ensures And(group, 0x7) == group % 8
  {
    assert Pow2(3) == 8;
    AndLowMask(group, 3);
  }

  /** The two fields share the implemented bits. */
  lemma FieldsAddUp(group: U32, bits: nat)
    requires bits <= 8
    ensures PreemptBits(group, bits) + SubBits(group, bits) == bits
    ensures PreemptBits(group, bits) == Min(bits, 7 - group % 8)
  {
    GroupMask(group);
  }

  /** The mask (1 << n) - 1. */
  function Ones(n: nat): U32
  {
    ToU32(Shl32(1, n) - 1)
  }

  lemma SmallWord(y: int)
    requires 1 <= y <= 0x100
    ensures ToU32(y) == y && ToU32(y - 1) == y - 1
  {
    DivUnique(y, 0x1_0000_0000, 0, y);
    DivUnique(y - 1, 0x1_0000_0000, 0, y - 1);
  }

  lemma OnesValue(n: nat)
    requires n <= 8
    ensures Pow2(n) <= 0x100 && Ones(n) == Pow2(n) - 1
  {
    Pow2Values();
    Pow2Monotone(n, 8);
    assert 1 * Pow2(n) == Pow2(n);
    SmallWord(Pow2(n));
  }

  function Masked(x: U32, n: nat): (r: U32)
    requires n <= 8
    ensures r == x % Pow2(n)
  {
    OnesValue(n);
    AndLowMask(x, n);
    DivBounds(x, Pow2(n));
    And(x, Ones(n))
  }

  // ---------------------------------------------------------------- for given field widths

  function EncodeFields(p: nat, s: nat, preempt: U32, sub: U32): (v: U32)
    requires p + s <= 8
    ensures v < Pow2(p + s)
  {
    EncodedField(Masked(preempt, p), Masked(sub, s), p, s);
    Or(Shl32(Masked(preempt, p), s), Masked(sub, s))
  }

  lemma EncodedValue(p: nat, s: nat, preempt: U32, sub: U32)
    requires p + s <= 8
    ensures EncodeFields(p, s, preempt, sub) == Masked(preempt, p) * Pow2(s) + Masked(sub, s)
  {
    EncodedField(Masked(preempt, p), Masked(sub, s), p, s);
  }

  /** Two fields of at most eight bits together fit without overlap. */
  lemma EncodedField(hi: U32, lo: U32, p: nat, s: nat)
    requires p + s <= 8 && hi < Pow2(p) && lo < Pow2(s)
    ensures Shl32(hi, s) == hi * Pow2(s)
    ensures Or(Shl32(hi, s), lo) == hi * Pow2(s) + lo < Pow2(p + s) <= 0x100
  {
    Pow2Add(p, s);
    Pow2Values();
    Pow2Monotone(p + s, 8);
    FieldsFit(hi, lo, Pow2(p), Pow2(s));
    SmallWord(hi * Pow2(s) + 1);
    OrDisjoint(hi, lo, s);
  }

  lemma FieldsFit(hi: int, lo: int, a: int, b: int)
    requires 0 <= hi < a && 0 <= lo < b
    ensures 0 <= hi * b <= hi * b + lo < a * b
  {
    ScaledBound(hi, a, b);
    MulAtLeast(a, hi + 1, b);
    assert (hi + 1) * b == hi * b + b;
  }

  datatype Priorities = Priorities(preempt: U32, sub: U32)

  function DecodeFields(p: nat, s: nat, priority: U32): Priorities
    requires p + s <= 8
  {
    Priorities(Masked(Shr32(priority, s), p), Masked(priority, s))
  }

  function Shr32(x: U32, n: nat): U32
  {
    ShiftedDown(x, n);
    x / Pow2(n)
  }

  lemma MaskedIsSmall(x: U32, n: nat)
    requires n <= 8
    ensures Masked(x, n) < Pow2(n)
    ensures x < Pow2(n) ==> Masked(x, n) == x
  {
    if x < Pow2(n) {
      DivUnique(x, Pow2(n), 0, x);
    }
  }

  lemma DecodeOfEncodedFields(p: nat, s: nat, preempt: U32, sub: U32)
    requires p + s <= 8
    ensures DecodeFields(p, s, EncodeFields(p, s, preempt, sub)) ==
            Priorities(preempt % Pow2(p), sub % Pow2(s))
  {
    var hi, lo := Masked(preempt, p), Masked(sub, s);
    EncodedValue(p, s, preempt, sub);
    MaskedIsSmall(preempt, p);
    MaskedIsSmall(sub, s);
    DivUnique(EncodeFields(p, s, preempt, sub), Pow2(s), hi, lo);
    MaskedIsSmall(hi, p);
  }

  lemma EncodeOfDecodedFields(p: nat, s: nat, bits: nat, priority: U32)
    requires p + s == bits <= 8
    ensures var d := DecodeFields(p, s, priority);
            EncodeFields(p, s, d.preempt, d.sub) == Masked(priority, bits)
  {
    var d := DecodeFields(p, s, priority);
    EncodedValue(p, s, d.preempt, d.sub);
    MaskedIsSmall(d.preempt, p);
    MaskedIsSmall(d.sub, s);
    TwoDigits(priority, Pow2(p), Pow2(s));
    Pow2Add(p, s);
  }

  /** The remainder by a product, from its two digits. */
  lemma TwoDigits(x: nat, a: int, b: int)
    requires a > 0 && b > 0
    ensures a * b > 0 && x % (a * b) == ((x / b) % a) * b + x % b
  {
    var h := x / b;
    var q, r := h / a, h % a;
    ScaledBound(r, a, b);
    MulAtLeast(a, r + 1, b);
    assert (r + 1) * b == r * b + b;
    assert x == h * b + x % b;
    Expand(q, a, r, b);
    DivUnique(x, a * b, q, r * b + x % b);
  }

  lemma FieldOrder(p: nat, s: nat, x: Priorities, y: Priorities)
    requires p + s <= 8
    requires x.preempt < Pow2(p) && x.sub < Pow2(s) && y.preempt < Pow2(p) && y.sub < Pow2(s)
    ensures EncodeFields(p, s, x.preempt, x.sub) < EncodeFields(p, s, y.preempt, y.sub) <==>
            x.preempt < y.preempt || (x.preempt == y.preempt && x.sub < y.sub)
  {
    EncodedValue(p, s, x.preempt, x.sub);
    EncodedValue(p, s, y.preempt, y.sub);
    MaskedIsSmall(x.preempt, p);
    MaskedIsSmall(y.preempt, p);
    MaskedIsSmall(x.sub, s);
    MaskedIsSmall(y.sub, s);
    Lexicographic(x.preempt, x.sub, y.preempt, y.sub, Pow2(s));
  }

  lemma Lexicographic(a: int, b: int, c: int, d: int, s: int)
    requires 0 <= b < s && 0 <= d < s
    ensures a * s + b < c * s + d <==> a < c || (a == c && b < d)
  {
    assert (a + 1) * s == a * s + s && (c + 1) * s == c * s + s;
    if a < c {
      MulAtLeast(c, a + 1, s);
    } else if c < a {
      MulAtLeast(a, c + 1, s);
    }
  }

  // ---------------------------------------------------------------- for a priority group

  function Encode(group: U32, bits: nat, preempt: U32, sub: U32): (v: U32)
    requires bits <= 8
    ensures v < Pow2(bits)
  {
    FieldsAddUp(group, bits);
    EncodeFields(PreemptBits(group, bits), SubBits(group, bits), preempt, sub)
  }

  function Decode(priority: U32, group: U32, bits: nat): Priorities
    requires bits <= 8
  {
    FieldsAddUp(group, bits);
    DecodeFields(PreemptBits(group, bits), SubBits(group, bits), priority)
  }

  /** Decoding an encoded pair returns its fields, each reduced to its width. */
  lemma DecodeOfEncode(group: U32, bits: nat, preempt: U32, sub: U32)
    requires bits <= 8
    ensures Decode(Encode(group, bits, preempt, sub), group, bits) ==
            Priorities(preempt % Pow2(PreemptBits(group, bits)), sub % Pow2(SubBits(group, bits)))
  {
    FieldsAddUp(group, bits);
    DecodeOfEncodedFields(PreemptBits(group, bits), SubBits(group, bits), preempt, sub);
  }

  /** Encoding a decoded priority returns its implemented bits. */
  lemma EncodeOfDecode(group: U32, bits: nat, priority: U32, d: Priorities)
    requires bits <= 8 && d == Decode(priority, group, bits)
    ensures Encode(group, bits, d.preempt, d.sub) == priority % Pow2(bits)
  {
    FieldsAddUp(group, bits);
    EncodeOfDecodedFields(PreemptBits(group, bits), SubBits(group, bits), bits, priority);
  }

  /** On values within their fields, encodings are ordered by preemption priority first and by
      sub-priority second. */
  lemma EncodingOrder(group: U32, bits: nat, x: Priorities, y: Priorities)
    requires bits <= 8
    requires x.preempt < Pow2(PreemptBits(group, bits)) && x.sub < Pow2(SubBits(group, bits))
    requires y.preempt < Pow2(PreemptBits(group, bits)) && y.sub < Pow2(SubBits(group, bits))
    ensures Encode(group, bits, x.preempt, x.sub) < Encode(group, bits, y.preempt, y.sub) <==>
            x.preempt < y.preempt || (x.preempt == y.preempt && x.sub < y.sub)
  {
    FieldsAddUp(group, bits);
    FieldOrder(PreemptBits(group, bits), SubBits(group, bits), x, y);
  }

  /** An encoding survives the priority store, so the order is that of the values read back. */
  lemma EncodingSurvivesStore(group: U32, bits: nat, preempt: U32, sub: U32)
    requires bits <= 8
    ensures var v := Encode(group, bits, preempt, sub); Shown(Stored(v, bits), bits) == v
  {
    var v := Encode(group, bits, preempt, sub);
    ShownOfStored(v, bits);
    DivUnique(v, Pow2(bits), 0, v);
  }
}
