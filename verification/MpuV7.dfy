/**
 The Armv7-M MPU and its batch loader. All RBAR aliases name one register and all RASR
 aliases another. A write to RBAR with VALID set selects the region in its REGION field
 before it stores the base address (ARMv7-M Architecture Reference Manual, section B3.5).
 */
module MpuV7 {
  import opened Words
  import opened MpuTable

  /** The selected region, and base address bits and attributes by region. */
  datatype State = State(rnr: nat, addr: map<nat, U32>, rasr: map<nat, U32>)

  const VALID: U32 := 0x10
  const REGION: U32 := 0xF

  predicate Valid(rbar: U32) { And(rbar, VALID) != 0 }

  function RegionField(rbar: U32): nat { And(rbar, REGION) }

  /** The base address bits, 31 to 5. */
  function AddrField(rbar: U32): U32 { rbar - rbar % 0x20 }

  function WriteRbar(s: State, v: U32): State
  {
    var rnr := if Valid(v) then RegionField(v) else s.rnr;
    s.(rnr := rnr, addr := s.addr[rnr := AddrField(v)])
  }

  function WriteRasr(s: State, v: U32): State
  {
    s.(rasr := s.rasr[s.rnr := v])
  }

  function WriteWords(s: State, words: seq<U32>): State
  {
    if words == [] then s
    else
      var n := |words| - 1;
      var before := WriteWords(s, words[..n]);
      if n % 2 == 0 then WriteRbar(before, words[n]) else WriteRasr(before, words[n])
  }

  /** The effect of one ARM_MPU_SetRegion. */
  function SetRow(s: State, row: Row): State
  {
    WriteRasr(WriteRbar(s, row.rbar), row.attr)
  }

  /** The rows of a table set one after the other, first to last. */
  function SetInOrder(s: State, rows: seq<Row>): State
  {
    if rows == [] then s
    else SetRow(SetInOrder(s, rows[..|rows| - 1]), rows[|rows| - 1])
  }

  /** The two words of a row, after an even number of words, set it. */
  lemma TwoWordsSetRow(s: State, w: seq<U32>, row: Row)
    requires |w| % 2 == 0
    ensures WriteWords(s, w + [row.rbar, row.attr]) == SetRow(WriteWords(s, w), row)
  {
    var u, v := w + [row.rbar], w + [row.rbar, row.attr];
    assert u[..|w|] == w && v[..|w| + 1] == u;
    assert WriteWords(s, u) == WriteRbar(WriteWords(s, w), row.rbar);
  }

  lemma {:induction false} WordsSetRows(s: State, rows: seq<Row>)
    ensures WriteWords(s, WordsOf(rows)) == SetInOrder(s, rows)
  {
    if rows == [] {
    } else {
      var n := |rows| - 1;
      WordsSetRows(s, rows[..n]);
      TwoWordsSetRow(s, WordsOf(rows[..n]), rows[n]);
    }
  }

  lemma {:induction false} SetInTwoParts(s: State, a: seq<Row>, b: seq<Row>)
    ensures SetInOrder(SetInOrder(s, a), b) == SetInOrder(s, a + b)
  {
    if b == [] {
      assert a + b == a;
    } else {
      var n := |b| - 1;
      assert (a + b)[..|a| + n] == a + b[..n];
      SetInTwoParts(s, a, b[..n]);
    }
  }

  class Mpu {
    const aliases: U32
    var state: State

    constructor (n: U32)
      requires n > 0
      ensures aliases == n
    {
      aliases := n;
      state := State(0, map[], map[]);
    }

    method WriteWord(word: nat, v: U32)
      requires word < 2 * aliases
      modifies this
      ensures state == if word % 2 == 0 then WriteRbar(old(state), v) else WriteRasr(old(state), v)
    {
      state := if word % 2 == 0 then WriteRbar(state, v) else WriteRasr(state, v);
    }

    /** The region that the word names, or the selected one if it does not name any, gets the
        address bits and the attributes; every other region keeps its own. */
    method SetRegion(rbar: U32, rasr: U32)
      requires aliases > 0
      modifies this
      ensures state.rnr == if (rbar / 0x10) % 2 == 1 then rbar % 0x10 else old(state.rnr)
      ensures var r := state.rnr;
              && r in state.addr && state.addr[r] == rbar - rbar % 0x20
              && r in state.rasr && state.rasr[r] == rasr
      ensures forall r :: r != state.rnr ==>
                && (r in state.addr <==> r in old(state.addr))
                && (r in state.rasr <==> r in old(state.rasr))
                && (r in state.addr ==> state.addr[r] == old(state.addr[r]))
                && (r in state.rasr ==> state.rasr[r] == old(state.rasr[r]))
      ensures state == SetRow(old(state), Row(rbar, rasr))
    {
      ValidBit(rbar);
      RegionMask(rbar);
      WriteWord(0, rbar);
      WriteWord(1, rasr);
    }

    method OrderedCpy(src: seq<U32>, len: nat)
      requires len <= |src| && len <= 2 * aliases
      modifies this
      ensures state == WriteWords(old(state), src[..len])
    {
      var i := 0;
      while i < len
        invariant i <= len
        invariant state == WriteWords(old(state), src[..i])
      {
        assert src[..i + 1][..i] == src[..i];
        WriteWord(i, src[i]);
        i := i + 1;
      }
    }

    method CopyRows(rows: seq<Row>)
      requires |rows| <= aliases
      modifies this
      ensures state == SetInOrder(old(state), rows)
    {
      WordsSetRows(state, rows);
      var words := WordsOf(rows);
      assert words[..2 * |rows|] == words;
      OrderedCpy(words, |rows| * 2);
    }

    /** ARM_MPU_Load: the same state as setting the rows one after the other. */
    method Load(table: seq<Row>, count: U32)
      requires aliases > 0 && count <= |table|
      modifies this
      ensures state == SetInOrder(old(state), table[..count])
    {
      var pos: nat := 0;
      var cnt: U32 := count;
      while cnt > aliases
        invariant pos + cnt == count
        invariant state == SetInOrder(old(state), table[..pos])
        decreases cnt
      {
        assert table[..pos + aliases] == table[..pos] + table[pos..pos + aliases];
        SetInTwoParts(old(state), table[..pos], table[pos..pos + aliases]);
        CopyRows(table[pos..pos + aliases]);
        pos := pos + aliases;
        cnt := cnt - aliases;
      }
      assert table[..count] == table[..pos] + table[pos..count];
      SetInTwoParts(old(state), table[..pos], table[pos..count]);
      CopyRows(table[pos..count]);
    }
  }

  // ---------------------------------------------------------------- what a table means

  /** ARM_MPU_RBAR: base address bits, region number and the VALID bit. */
  function MakeRbar(region: U32, base: U32): U32
  {
    RbarFields(region, base);
    Or(Or(And(base, 0xFFFF_FFE0), And(region, REGION)), VALID)
  }

  lemma FieldWidths()
    ensures Pow2(4) == 0x10 && Pow2(5) == 0x20
  {
  }

  lemma AddrMask(base: U32)
    ensures And(base, 0xFFFF_FFE0) == (base / 0x20) * 0x20
  {
    WordWidth();
    FieldWidths();
    AndHighMask(base, 5, 32);
  }

  lemma RegionMask(v: U32)
    ensures And(v, REGION) == v % 0x10
  {
    FieldWidths();
    AndLowMask(v, 4);
  }

  lemma RbarFields(region: U32, base: U32)
    ensures Or(Or(And(base, 0xFFFF_FFE0), And(region, REGION)), VALID)
            == (base / 0x20) * 0x20 + 0x10 + region % 0x10
  {
    AddrMask(base);
    RegionMask(region);
    JoinFields(base / 0x20, region % 0x10);
  }

  lemma JoinFields(hi: nat, lo: nat)
    requires lo < 0x10
    ensures Or(Or(hi * 0x20, lo), VALID) == hi * 0x20 + 0x10 + lo
  {
    FieldWidths();
    OrDisjoint(hi, lo, 5);
    SetClearBit(hi, lo, 4);
  }

  lemma FieldsOf(v: U32, hi: nat, lo: nat)
    requires v == hi * 0x20 + 0x10 + lo && lo < 0x10
    ensures Valid(v) && RegionField(v) == lo && AddrField(v) == hi * 0x20
  {
    RegionMask(v);
    ValidBit(v);
    assert v / 0x10 == 2 * hi + 1;
  }

  lemma ValidBit(v: U32)
    ensures Valid(v) <==> (v / 0x10) % 2 == 1
  {
    FieldWidths();
    AndSingleBit(v, 4);
    BitOfShifted(v, 4, 0);
  }

  /** What the macro makes selects the region and the base address it was made from. */
  lemma MadeRbarSelects(region: U32, base: U32)
    ensures Valid(MakeRbar(region, base))
    ensures RegionField(MakeRbar(region, base)) == region % 0x10
    ensures AddrField(MakeRbar(region, base)) == base - base % 0x20
  {
    RbarFields(region, base);
    FieldsOf(MakeRbar(region, base), base / 0x20, region % 0x10);
  }

  /** The last of the rows that names a region, or the number of rows if there is none. */
  function LastNaming(rows: seq<Row>, r: nat): (k: nat)
    ensures k <= |rows|
    ensures k < |rows| ==> RegionField(rows[k].rbar) == r
    ensures forall j :: 0 <= j < |rows| && RegionField(rows[j].rbar) == r ==> k < |rows| && j <= k
  {
    if rows == [] then 0
    else
      var n := |rows| - 1;
      if RegionField(rows[n].rbar) == r then n
      else
        var k := LastNaming(rows[..n], r);
        if k < n then k else |rows|
  }

  /** For a table whose rows all select their region, in any order and with repetitions, each
      region ends with the last row that names it, and the other regions keep their state. */
  lemma {:induction false} LoadedTable(s: State, rows: seq<Row>, r: nat)
    requires forall j :: 0 <= j < |rows| ==> Valid(rows[j].rbar)
    ensures var s', k := SetInOrder(s, rows), LastNaming(rows, r);
            && (k < |rows| ==> r in s'.addr && s'.addr[r] == AddrField(rows[k].rbar))
            && (k < |rows| ==> r in s'.rasr && s'.rasr[r] == rows[k].attr)
            && (k == |rows| ==> (r in s'.addr <==> r in s.addr) && (r in s'.rasr <==> r in s.rasr))
            && (k == |rows| && r in s.addr ==> s'.addr[r] == s.addr[r])
            && (k == |rows| && r in s.rasr ==> s'.rasr[r] == s.rasr[r])
  {
    if rows == [] {
    } else {
      LoadedTable(s, rows[..|rows| - 1], r);
    }
  }
}
