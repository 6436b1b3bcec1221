/**
 Interrupt priorities. Both cores keep one byte per interrupt: the Mainline core in byte
 arrays, the Baseline core packed four to a word and changed by read-modify-write. On top of
 them is the codec for preemption and sub-priority.
 */
module Nvic {
  import opened Words
  import opened BitLoops

  // ---------------------------------------------------------------- the abstract store

  /** The priority byte of every interrupt number. */
  type Table = map<int, U8>

  /** The byte that stands for a priority on a device with the given number of bits. */
  function Stored(priority: U32, bits: nat): (byte: U8)
    requires bits <= 8
    ensures byte == (priority % Pow2(bits)) * Pow2(8 - bits)
  {
    var shifted := Shl32(priority, 8 - bits);
    ByteMask(shifted);
    ShiftedByte(priority, bits);
    And(shifted, 0xFF)
  }

  lemma ByteMask(x: nat)
    ensures And(x, 0xFF) == x % 0x100
  {
    Pow2Values();
    AndLowMask(x, 8);
  }

  function Shown(byte: U8, bits: nat): (p: int)
    requires bits <= 8
  {
    byte / Pow2(8 - bits)
  }

  /** Storing and showing a priority keeps its low bits. */
  lemma ShownOfStored(priority: U32, bits: nat)
    requires bits <= 8
    ensures Shown(Stored(priority, bits), bits) == priority % Pow2(bits)
  {
    var k, lo := 8 - bits, priority % Pow2(bits);
    DivUnique(lo * Pow2(k), Pow2(k), lo, 0);
  }

  lemma ShiftedByte(x: U32, bits: nat)
    requires bits <= 8
    ensures Shl32(x, 8 - bits) % 0x100 == (x % Pow2(bits)) * Pow2(8 - bits)
  {
    LowOfWord(x * Pow2(8 - bits), 0x100, 0x100_0000);
    DivBounds(x, Pow2(bits));
    BytePart(x, 8 - bits, bits, x / Pow2(bits), x % Pow2(bits));
  }

  /** The low byte of a shifted priority is its low bits, shifted. */
  lemma BytePart(x: int, k: nat, bits: nat, hi: int, lo: int)
    requires k + bits == 8 && x == hi * Pow2(bits) + lo && 0 <= lo < Pow2(bits)
    ensures (x * Pow2(k)) % 0x100 == lo * Pow2(k)
  {
    Pow2Add(bits, k);
    assert Pow2(8) == 0x100;
    Expand(hi, Pow2(bits), lo, Pow2(k));
    ScaledBound(lo, Pow2(bits), Pow2(k));
    DivUnique(x * Pow2(k), 0x100, hi, lo * Pow2(k));
  }

  lemma Expand(hi: int, m: int, lo: int, p: int)
    ensures (hi * m + lo) * p == hi * (m * p) + lo * p
  {
  }

  lemma ScaledBound(lo: int, m: int, p: int)
    requires 0 <= lo < m && p > 0
    ensures 0 <= lo * p < m * p
  {
  }

  datatype Request = Request(irq: int, priority: U32)

  function Run(t: Table, log: seq<Request>, bits: nat): Table
    requires bits <= 8
  {
    if log == [] then t
    else
      var r := log[|log| - 1];
      Run(t, log[..|log| - 1], bits)[r.irq := Stored(r.priority, bits)]
  }

  /** The index of the last request for an interrupt, or the length of the log. */
  function LastFor(log: seq<Request>, irq: int): (k: nat)
    ensures k <= |log|
    ensures k < |log| ==> log[k].irq == irq
    ensures forall j :: 0 <= j < |log| && log[j].irq == irq ==> j <= k < |log|
  {
    if log == [] then 0
    else
      var n := |log| - 1;
      if log[n].irq == irq then n
      else
        var k := LastFor(log[..n], irq);
        if k < n then k else |log|
  }

  /** After any run, a priority reads as the last one set, modulo 2^bits, or as before the run
      if none was set. */
  lemma {:induction false} RunShowsLast(t: Table, log: seq<Request>, bits: nat, irq: int)
    requires bits <= 8 && irq in t
    ensures irq in Run(t, log, bits)
    ensures var k := LastFor(log, irq);
            Shown(Run(t, log, bits)[irq], bits) ==
            if k < |log| then log[k].priority % Pow2(bits) else Shown(t[irq], bits)
  {
    if log == [] {
    } else {
      var n := |log| - 1;
      RunShowsLast(t, log[..n], bits, irq);
      ShownOfStored(log[n].priority, bits);
    }
  }

  /** After the same run two tables agree on an interrupt if and only if it was set, or they
      agreed before. */
  lemma {:induction false} RunsAgree(t: Table, u: Table, log: seq<Request>, bits: nat, irq: int)
    requires bits <= 8 && irq in t && irq in u
    ensures irq in Run(t, log, bits) && irq in Run(u, log, bits)
    ensures Shown(Run(t, log, bits)[irq], bits) == Shown(Run(u, log, bits)[irq], bits) <==>
            LastFor(log, irq) < |log| || Shown(t[irq], bits) == Shown(u[irq], bits)
  {
    RunShowsLast(t, log, bits, irq);
    RunShowsLast(u, log, bits, irq);
  }

  lemma RunSnoc(t: Table, log: seq<Request>, bits: nat, i: nat)
    requires bits <= 8 && i < |log|
    ensures Run(t, log[..i + 1], bits) == Run(t, log[..i], bits)[log[i].irq := Stored(log[i].priority, bits)]
  {
    assert log[..i + 1][..i] == log[..i];
  }

  // ---------------------------------------------------------------- bytes in words

  function ByteAt(w: U32, j: nat): U8
  {
    (w / Pow2(8 * j)) % 0x100
  }

  lemma BitOfByteAt(w: U32, j: nat, i: nat)
    requires i < 8
    ensures Bit(ByteAt(w, j), i) == Bit(w, 8 * j + i)
  {
    ShiftedDown(w, 8 * j);
    assert Pow2(8) == 0x100;
    BitOfLow(w / Pow2(8 * j), 8, i);
    BitOfShifted(w, 8 * j, i);
  }

  function GetByte(w: U32, shift: nat): (byte: U8)
    ensures byte == (w / Pow2(shift)) % 0x100
  {
    ShiftedDown(w, shift);
    ByteMask(w / Pow2(shift));
    And(w / Pow2(shift), 0xFF)
  }

  /** The read-modify-write of one byte. */
  function SetByte(w: U32, shift: nat, v: U8): U32
  {
    var cleared := And(w, Not32(Shl32(0xFF, shift)));
    AndBound(w, Not32(Shl32(0xFF, shift)));
    WordWidth();
    OrBound(cleared, Shl32(v, shift), 32);
    Or(cleared, Shl32(v, shift))
  }

  lemma {:induction false} BitOfOnes(n: nat, i: nat)
    requires i < n
    ensures Bit(Pow2(n) - 1, i) == 1
  {
    if i == 0 {
    } else {
      assert (Pow2(n) - 1) / 2 == Pow2(n - 1) - 1;
      BitOfOnes(n - 1, i - 1);
    }
  }

  lemma BitOfByteMask(shift: nat, i: nat)
    requires i < 32
    ensures Bit(Not32(Shl32(0xFF, shift)), i) == if shift <= i < shift + 8 then 0 else 1
  {
    WordWidth();
    BitOfComplement(Shl32(0xFF, shift), 32, i);
    BitOfShl32(0xFF, shift, i);
    assert Pow2(8) == 0x100;
    if shift <= i < shift + 8 {
      BitOfOnes(8, i - shift);
    } else if i >= shift {
      BitOfSmall(0xFF, 8, i - shift);
    }
  }

  lemma BitOfSetByte(w: U32, shift: nat, v: U8, i: nat)
    requires i < 32
    ensures Bit(SetByte(w, shift, v), i) == if shift <= i < shift + 8 then Bit(v, i - shift) else Bit(w, i)
  {
    var mask := Not32(Shl32(0xFF, shift));
    BitOfOr(And(w, mask), Shl32(v, shift), i);
    BitOfAnd(w, mask, i);
    BitOfByteMask(shift, i);
    BitOfShl32(v, shift, i);
    if i >= shift + 8 {
      assert Pow2(8) == 0x100;
      BitOfSmall(v, 8, i - shift);
    }
  }

  /** Setting byte j changes byte j and no other. */
  lemma ByteOfSetByte(w: U32, j: nat, v: U8, k: nat)
    requires j < 4 && k < 4
    ensures ByteAt(SetByte(w, 8 * j, v), k) == if k == j then v else ByteAt(w, k)
  {
    var b := ByteAt(SetByte(w, 8 * j, v), k);
    var c := if k == j then v else ByteAt(w, k);
    forall i: nat | i < 8
      ensures Bit(b, i) == Bit(c, i)
    {
      BitOfByteAt(SetByte(w, 8 * j, v), k, i);
      BitOfSetByte(w, 8 * j, v, 8 * k + i);
      if k != j {
        BitOfByteAt(w, k, i);
      }
    }
    assert Pow2(8) == 0x100;
    SameBitsSameWord(b, c, 8);
  }

  // ---------------------------------------------------------------- the Baseline core

  function BitShift(irq: int): U32
  {
    LowIrqBits(irq);
    And(ToU32(irq), 0x3) * 8
  }

  function ShpIdx(irq: int): U32
  {
    LowIrqBits(irq);
    ToU32(And(ToU32(irq), 0xF) - 8) / 4
  }

  function IpIdx(irq: int): U32
  {
    ToU32(irq) / 4
  }

  lemma LowIrqBits(irq: int)
    ensures And(ToU32(irq), 0x3) == irq % 4
    ensures And(ToU32(irq), 0xF) == irq % 16
    ensures -16 <= irq < 0 ==> And(ToU32(irq), 0xF) == irq + 16
  {
    assert Pow2(2) == 4 && Pow2(4) == 16;
    AndLowMask(ToU32(irq), 2);
    AndLowMask(ToU32(irq), 4);
    LowOfWord(irq, 4, 0x4000_0000);
    LowOfWord(irq, 16, 0x1000_0000);
    if -16 <= irq < 0 {
      DivUnique(irq, 16, -1, irq + 16);
    }
  }

  predicate BaselineIrq(irq: int)
  {
    -8 <= irq < 496
  }

  predicate MainlineIrq(irq: int)
  {
    -12 <= irq < 496
  }

  lemma BaselineIndices(irq: int)
    requires BaselineIrq(irq)
    ensures BitShift(irq) == 8 * (irq % 4)
    ensures irq >= 0 ==> IpIdx(irq) == irq / 4 < 124
    ensures irq < 0 ==> ShpIdx(irq) == (irq + 8) / 4 < 2
  {
    LowIrqBits(irq);
    if irq >= 0 {
      DivUnique(irq, 0x1_0000_0000, 0, irq);
    } else {
      DivUnique(irq + 8, 0x1_0000_0000, 0, irq + 8);
    }
  }

  class Baseline {
    const bits: nat
    const ipr: array<U32>
    const shpr: array<U32>

    ghost predicate Valid()
    {
      bits <= 8 && ipr.Length == 124 && shpr.Length == 2 && ipr != shpr
    }

    constructor (prioBits: nat)
      requires prioBits <= 8
      ensures Valid() && bits == prioBits && fresh(ipr) && fresh(shpr)
    {
      bits := prioBits;
      ipr := new U32[124];
      shpr := new U32[2];
    }

    ghost function Entry(irq: int): U8
      requires Valid() && BaselineIrq(irq)
      reads ipr, shpr
    {
      if irq >= 0 then ByteAt(ipr[irq / 4], irq % 4) else ByteAt(shpr[(irq + 8) / 4], irq % 4)
    }

    ghost function Contents(): Table
      requires Valid()
      reads ipr, shpr
    {
      map irq | -8 <= irq < 496 :: Entry(irq)
    }

    method SetPriority(irq: int, priority: U32)
      requires Valid() && BaselineIrq(irq)
      modifies ipr, shpr
      ensures Contents() == old(Contents())[irq := Stored(priority, bits)]
      ensures var v, shift := (priority % Pow2(bits)) * Pow2(8 - bits), 8 * (irq % 4);
              && (irq >= 0 ==> (ipr[irq / 4] / Pow2(shift)) % 0x100 == v)
              && (irq < 0 ==> (shpr[(irq + 8) / 4] / Pow2(shift)) % 0x100 == v)
      ensures forall k :: 0 <= k < 124 && k != irq / 4 ==> ipr[k] == old(ipr[k])
      ensures forall k :: 0 <= k < 2 && k != (irq + 8) / 4 ==> shpr[k] == old(shpr[k])
    {
      BaselineIndices(irq);
      var v := Stored(priority, bits);
      if irq >= 0 {
        ipr[IpIdx(irq)] := SetByte(ipr[IpIdx(irq)], BitShift(irq), v);
      } else {
        shpr[ShpIdx(irq)] := SetByte(shpr[ShpIdx(irq)], BitShift(irq), v);
      }
      forall k | BaselineIrq(k)
        ensures Entry(k) == if k == irq then v else old(Entry(k))
      {
        ByteOfSetByte(old(if irq >= 0 then ipr[irq / 4] else shpr[(irq + 8) / 4]), irq % 4, v, k % 4);
      }
    }

    method GetPriority(irq: int) returns (priority: int)
      requires Valid() && BaselineIrq(irq)
      ensures priority == Shown(Contents()[irq], bits)
      ensures var w := if irq >= 0 then ipr[irq / 4] else shpr[(irq + 8) / 4];
              priority == (w / Pow2(8 * (irq % 4))) % 0x100 / Pow2(8 - bits)
    {
      BaselineIndices(irq);
      if irq >= 0 {
        priority := GetByte(ipr[IpIdx(irq)], BitShift(irq)) / Pow2(8 - bits);
      } else {
        priority := GetByte(shpr[ShpIdx(irq)], BitShift(irq)) / Pow2(8 - bits);
      }
    }
  }

  // ---------------------------------------------------------------- the Mainline core

  lemma MainlineIndex(irq: int)
    requires -12 <= irq < 0
    ensures ToU32(And(ToU32(irq), 0xF) - 4) == irq + 12
  {
    LowIrqBits(irq);
    DivUnique(irq + 12, 0x1_0000_0000, 0, irq + 12);
  }

  class Mainline {
    const bits: nat
    const ipr: array<U8>
    const shpr: array<U8>

    ghost predicate Valid()
    {
      bits <= 8 && ipr.Length == 496 && shpr.Length == 12 && ipr != shpr
    }

    constructor (prioBits: nat)
      requires prioBits <= 8
      ensures Valid() && bits == prioBits && fresh(ipr) && fresh(shpr)
    {
      bits := prioBits;
      ipr := new U8[496];
      shpr := new U8[12];
    }

    ghost function Contents(): Table
      requires Valid()
      reads ipr, shpr
    {
      map irq | -12 <= irq < 496 :: if irq >= 0 then ipr[irq] else shpr[irq + 12]
    }

    method SetPriority(irq: int, priority: U32)
      requires Valid() && MainlineIrq(irq)
      modifies ipr, shpr
      ensures Contents() == old(Contents())[irq := Stored(priority, bits)]
      ensures var v := (priority % Pow2(bits)) * Pow2(8 - bits);
              if irq >= 0 then ipr[irq] == v else shpr[irq + 12] == v
      ensures forall k :: 0 <= k < 496 && k != irq ==> ipr[k] == old(ipr[k])
      ensures forall k :: 0 <= k < 12 && k != irq + 12 ==> shpr[k] == old(shpr[k])
    {
      if irq >= 0 {
        ipr[irq] := Stored(priority, bits);
      } else {
        MainlineIndex(irq);
        shpr[ToU32(And(ToU32(irq), 0xF) - 4)] := Stored(priority, bits);
      }
    }

    method GetPriority(irq: int) returns (priority: int)
      requires Valid() && MainlineIrq(irq)
      ensures priority == Shown(Contents()[irq], bits)
      ensures priority == (if irq >= 0 then ipr[irq] else shpr[irq + 12]) / Pow2(8 - bits)
    {
      if irq >= 0 {
        priority := ipr[irq] / Pow2(8 - bits);
      } else {
        MainlineIndex(irq);
        priority := shpr[ToU32(And(ToU32(irq), 0xF) - 4)] / Pow2(8 - bits);
      }
    }
  }

  // ---------------------------------------------------------------- both cores

  /** A run of NVIC_SetPriority calls on the packed store. */
  method RunBaseline(b: Baseline, log: seq<Request>)
    requires b.Valid() && forall i :: 0 <= i < |log| ==> BaselineIrq(log[i].irq)
    modifies b.ipr, b.shpr
    ensures b.Contents() == Run(old(b.Contents()), log, b.bits)
  {
    var i := 0;
    while i < |log|
      invariant i <= |log|
      invariant b.Contents() == Run(old(b.Contents()), log[..i], b.bits)
    {
      RunSnoc(old(b.Contents()), log, b.bits, i);
      b.SetPriority(log[i].irq, log[i].priority);
      i := i + 1;
    }
    assert log[..i] == log;
  }

  /** The same run on the byte store. */
  method RunMainline(m: Mainline, log: seq<Request>)
    requires m.Valid() && forall i :: 0 <= i < |log| ==> MainlineIrq(log[i].irq)
    modifies m.ipr, m.shpr
    ensures m.Contents() == Run(old(m.Contents()), log, m.bits)
  {
    var i := 0;
    while i < |log|
      invariant i <= |log|
      invariant m.Contents() == Run(old(m.Contents()), log[..i], m.bits)
    {
      RunSnoc(old(m.Contents()), log, m.bits, i);
      m.SetPriority(log[i].irq, log[i].priority);
      i := i + 1;
    }
    assert log[..i] == log;
  }

  /** The same run on both cores, and then the same question: the packed and the byte store
      give the same answer if and only if the run set that interrupt, or they gave the same
      answer before. */
  method AskBoth(b: Baseline, m: Mainline, log: seq<Request>, irq: int) returns (packed: int, bytes: int)
    requires b.Valid() && m.Valid() && b.bits == m.bits && BaselineIrq(irq)
    requires {b.ipr as object, b.shpr} !! {m.ipr as object, m.shpr}
    requires forall i :: 0 <= i < |log| ==> BaselineIrq(log[i].irq)
    modifies b.ipr, b.shpr, m.ipr, m.shpr
    ensures var k := LastFor(log, irq);
            packed == if k < |log| then log[k].priority % Pow2(b.bits) else Shown(old(b.Contents()[irq]), b.bits)
    ensures packed == bytes <==>
            LastFor(log, irq) < |log| || Shown(old(b.Contents()[irq]), b.bits) == Shown(old(m.Contents()[irq]), b.bits)
  {
    RunBaseline(b, log);
    RunMainline(m, log);
    RunsAgree(old(b.Contents()), old(m.Contents()), log, b.bits, irq);
    RunShowsLast(old(b.Contents()), log, b.bits, irq);
    packed := b.GetPriority(irq);
    bytes := m.GetPriority(irq);
  }
}
