/**
 The Armv8-M MPU behind its alias registers, and the batch loader. RBAR and RLAR access the
 region that RNR selects; the pair of alias n, for n >= 1, accesses the region whose number
 is RNR with its low bits replaced by n (Armv8-M Architecture Reference Manual, chapter D1,
 MPU_RBAR_A<n> and MPU_RLAR_A<n>).
 */
module MpuV8 {
  import opened Words
  import opened MpuTable

  type Regions = map<nat, Row>

  function Get(m: Regions, r: nat): Row
  {
    if r in m then m[r] else Row(0, 0)
  }

  /** The region table after one word, counted from RBAR, was written to region r. */
  function Put(m: Regions, r: nat, word: nat, v: U32): Regions
  {
    m[r := if word % 2 == 0 then Get(m, r).(rbar := v) else Get(m, r).(attr := v)]
  }

  /** The region that word number word of the alias registers belongs to. */
  function Target(rnr: nat, aliases: nat, word: nat): nat
    requires aliases > 0
  {
    if word / 2 == 0 then rnr else rnr - rnr % aliases + word / 2
  }

  /** An alias replaces the low bits of RNR, so it reaches the region counted on from RNR if and
      only if RNR is the first of its window. This is why the loader masks. */
  lemma AliasReplacesLowBits(rnr: nat, aliases: nat, word: nat)
    requires aliases > 0 && 0 < word / 2 < aliases
    ensures Target(rnr, aliases, word) % aliases == word / 2
    ensures Target(rnr, aliases, word) / aliases == rnr / aliases
    ensures Target(rnr, aliases, word) == rnr + word / 2 <==> rnr % aliases == 0
  {
    DivBounds(rnr, aliases);
    DivUnique(Target(rnr, aliases, word), aliases, rnr / aliases, word / 2);
  }

  /** The table after words were written one after the other, from word off of a window. Region
      numbers are 32-bit words. */
  function PutWords(m: Regions, base: nat, off: nat, words: seq<U32>): Regions
  {
    if words == [] then m
    else
      var n := |words| - 1;
      Put(PutWords(m, base, off, words[..n]), ToU32(base + (off + n) / 2), off + n, words[n])
  }

  lemma PutSnoc(m: Regions, base: nat, off: nat, words: seq<U32>, i: nat)
    requires i < |words|
    ensures PutWords(m, base, off, words[..i + 1]) ==
            Put(PutWords(m, base, off, words[..i]), ToU32(base + (off + i) / 2), off + i, words[i])
  {
    assert words[..i + 1][..i] == words[..i];
  }

  /** The table after the rows were set one at a time, from region rnr on. */
  function SetOneByOne(m: Regions, rnr: nat, rows: seq<Row>): Regions
  {
    if rows == [] then m
    else
      var n := |rows| - 1;
      SetOneByOne(m, rnr, rows[..n])[ToU32(rnr + n) := rows[n]]
  }

  /** Setting rows one at a time changes exactly their regions; after the last number comes 0. */
  lemma {:induction false} SetOneByOneEffect(m: Regions, rnr: nat, rows: seq<Row>, r: U32)
    requires |rows| <= 0x1_0000_0000
    ensures var i := ToU32(r - rnr);
            Get(SetOneByOne(m, rnr, rows), r) == if i < |rows| then rows[i] else Get(m, r)
  {
    if rows == [] {
    } else {
      var n := |rows| - 1;
      SetOneByOneEffect(m, rnr, rows[..n], r);
      SameRegion(rnr, n, r);
    }
  }

  lemma SameRegion(rnr: nat, n: nat, r: U32)
    requires n < 0x1_0000_0000
    ensures ToU32(rnr + n) == r <==> ToU32(r - rnr) == n
  {
    if ToU32(rnr + n) == r {
      DivUnique(r - rnr, 0x1_0000_0000, -((rnr + n) / 0x1_0000_0000), n);
    }
    if ToU32(r - rnr) == n {
      DivUnique(rnr + n, 0x1_0000_0000, -((r - rnr) / 0x1_0000_0000), r);
    }
  }

  /** Only the low 32 bits of the first region number matter. */
  lemma {:induction false} SetFromWord(m: Regions, rnr: nat, rows: seq<Row>)
    ensures SetOneByOne(m, ToU32(rnr), rows) == SetOneByOne(m, rnr, rows)
  {
    if rows == [] {
    } else {
      var n := |rows| - 1;
      SetFromWord(m, rnr, rows[..n]);
      SumOfWords(rnr, n);
    }
  }

  /** The rows of a part of the table go on where the rows before it ended. */
  lemma NextRows(m: Regions, rnr: nat, table: seq<Row>, pos: nat, c: nat)
    requires pos + c <= |table|
    ensures SetOneByOne(SetOneByOne(m, rnr, table[..pos]), ToU32(rnr + pos), table[pos..pos + c]) ==
            SetOneByOne(m, rnr, table[..pos + c])
  {
    assert table[..pos + c] == table[..pos] + table[pos..pos + c];
    SetInTwoParts(m, rnr, table[..pos], table[pos..pos + c]);
    SetFromWord(SetOneByOne(m, rnr, table[..pos]), rnr + pos, table[pos..pos + c]);
  }

  lemma SumOfWords(x: int, n: int)
    ensures ToU32(ToU32(x) + n) == ToU32(x + n)
  {
    var q := x / 0x1_0000_0000;
    DivUnique(ToU32(x) + n, 0x1_0000_0000, (x + n) / 0x1_0000_0000 - q, (x + n) % 0x1_0000_0000);
  }

  lemma {:induction false} SetInTwoParts(m: Regions, rnr: nat, a: seq<Row>, b: seq<Row>)
    ensures SetOneByOne(SetOneByOne(m, rnr, a), rnr + |a|, b) == SetOneByOne(m, rnr, a + b)
  {
    if b == [] {
      assert a + b == a;
    } else {
      var n := |b| - 1;
      assert (a + b)[..|a| + n] == a + b[..n];
      SetInTwoParts(m, rnr, a, b[..n]);
    }
  }

  /** The two words of a row, after those of n rows, set its region. */
  lemma TwoWordsSetRow(m: Regions, base: nat, first: nat, w: seq<U32>, n: nat, row: Row)
    requires |w| == 2 * n
    ensures PutWords(m, base, 2 * first, w + [row.rbar, row.attr]) ==
            PutWords(m, base, 2 * first, w)[ToU32(base + first + n) := row]
  {
    var u, v := w + [row.rbar], w + [row.rbar, row.attr];
    assert u[..|w|] == w && v[..|w| + 1] == u;
    assert (2 * first + 2 * n) / 2 == first + n == (2 * first + 2 * n + 1) / 2;
  }

  /** Writing the words of whole rows sets the rows. */
  lemma {:induction false} WordsSetRows(m: Regions, base: nat, first: nat, rows: seq<Row>)
    ensures PutWords(m, base, 2 * first, WordsOf(rows)) == SetOneByOne(m, base + first, rows)
  {
    if rows == [] {
    } else {
      var n := |rows| - 1;
      WordsSetRows(m, base, first, rows[..n]);
      TwoWordsSetRow(m, base, first, WordsOf(rows[..n]), n, rows[n]);
    }
  }

  function FirstOfWindow(r: nat, aliases: nat): int
    requires aliases > 0
  {
    r - r % aliases
  }

  /** rnr & ~(RALIASES - 1) is the number of the first region in the window of rnr. */
  lemma WindowBase(x: U32, aliases: U32, k: nat)
    requires k <= 31 && aliases == Pow2(k)
    ensures And(x, Not32(aliases - 1)) == FirstOfWindow(x, aliases)
  {
    WordWidth();
    AndHighMask(x, k, 32);
    assert Not32(aliases - 1) == Pow2(32) - Pow2(k);
  }

  lemma WindowAligned(r: nat, aliases: nat)
    requires aliases > 0
    ensures 0 <= FirstOfWindow(r, aliases) <= r && FirstOfWindow(r, aliases) % aliases == 0
  {
    DivBounds(r, aliases);
    DivMonotone(0, r, aliases);
    MulAtLeast(r / aliases, 0, aliases);
    DivUnique(FirstOfWindow(r, aliases), aliases, r / aliases, 0);
  }

  /** The window of a region number is the one it lies in. */
  lemma WindowOf(base: nat, aliases: nat, r: nat)
    requires aliases > 0 && base % aliases == 0 && base <= r < base + aliases
    ensures FirstOfWindow(r, aliases) == base
    ensures (base + aliases) % aliases == 0
  {
    DivBounds(base, aliases);
    var q := base / aliases;
    DivUnique(r, aliases, q, r - base);
    assert (q + 1) * aliases == q * aliases + aliases;
    DivUnique(base + aliases, aliases, q + 1, 0);
  }

  lemma AliasesBound(k: nat)
    requires k <= 31
    ensures Pow2(k) <= 0x8000_0000
  {
    Pow2Values();
    Pow2Monotone(k, 31);
  }

  lemma MultipleBelow(b: int, a: int, e: int)
    requires a > 0 && b % a == 0 && b < e * a
    ensures b + a <= e * a
  {
    var q := b / a;
    assert b == q * a by {
      DivBounds(b, a);
    }
    if q >= e {
      MulAtLeast(q, e, a);
    }
    MulAtLeast(e, q + 1, a);
    assert (q + 1) * a == q * a + a;
  }

  /** The last window ends with the last number. */
  lemma WindowFits(base: U32, aliases: U32, k: nat)
    requires k <= 31 && aliases == Pow2(k) && base % aliases == 0
    ensures base + aliases <= 0x1_0000_0000
  {
    WordWidth();
    Pow2Add(32 - k, k);
    MultipleBelow(base, aliases, Pow2(32 - k));
  }

  /** The window after it is the next one, or the first. */
  lemma NextWindow(base: U32, aliases: U32)
    requires aliases > 0 && base % aliases == 0 && base + aliases <= 0x1_0000_0000
    ensures ToU32(base + aliases) % aliases == 0
  {
    if base + aliases < 0x1_0000_0000 {
      WindowOf(base, aliases, base);
    }
  }

  /** One turn of the loop moves on to the next window, where the rows go on. */
  lemma NextTurn(base: U32, off: U32, aliases: U32, k: nat, r: nat)
    requires k <= 31 && aliases == Pow2(k) && base % aliases == 0 && off < aliases
    requires base + off == ToU32(r)
    ensures var base' := ToU32(base + aliases);
            base' % aliases == 0 && base' + aliases <= 0x1_0000_0000 && base' == ToU32(r + (aliases - off))
  {
    WindowFits(base, aliases, k);
    NextWindow(base, aliases);
    WindowFits(ToU32(base + aliases), aliases, k);
    SumOfWords(r, aliases - off);
  }

  lemma GuardIsExact(off: U32, cnt: U32, aliases: U32)
    requires off < aliases <= 0x8000_0000 && cnt <= 0x2000_0000
    ensures ToU32(off + cnt) == off + cnt
  {
    DivUnique(off + cnt, 0x1_0000_0000, 0, off + cnt);
  }

  lemma SumWithoutWrap(x: U32, r: nat, n: nat)
    requires x == ToU32(r) && x + n < 0x1_0000_0000
    ensures ToU32(r + n) == x + n
  {
    DivUnique(r + n, 0x1_0000_0000, r / 0x1_0000_0000, x + n);
  }

  /** The last rows end in the selected window. */
  lemma LastTurn(base: U32, off: U32, aliases: U32, k: nat, r: nat, cnt: nat)
    requires k <= 31 && aliases == Pow2(k) && base % aliases == 0
    requires base + off == ToU32(r) && off < aliases && off + cnt <= aliases
    ensures base == FirstOfWindow(ToU32(r + Max(cnt, 1) - 1), aliases)
  {
    var n := Max(cnt, 1) - 1;
    WindowFits(base, aliases, k);
    SumWithoutWrap(base + off, r, n);
    WindowOf(base, aliases, base + off + n);
  }

  /** The alias registers reach the region they are meant for, from the start of a window or
      with the first pair. */
  lemma TargetOf(rnr: U32, aliases: U32, k: nat, word: nat)
    requires k <= 31 && aliases == Pow2(k)
    requires word < 2 * aliases && (rnr % aliases == 0 || word < 2)
    ensures Target(rnr, aliases, word) == ToU32(rnr + word / 2)
  {
    if word >= 2 {
      WindowFits(rnr, aliases, k);
    }
  }

  lemma NextStore(m: Regions, rnr: U32, aliases: U32, k: nat, dst: nat, src: seq<U32>, i: nat)
    requires k <= 31 && aliases == Pow2(k) && i < |src|
    requires dst + i < 2 * aliases && (rnr % aliases == 0 || dst + i < 2)
    ensures PutWords(m, rnr, dst, src[..i + 1]) ==
            Put(PutWords(m, rnr, dst, src[..i]), Target(rnr, aliases, dst + i), dst + i, src[i])
  {
    PutSnoc(m, rnr, dst, src, i);
    TargetOf(rnr, aliases, k, dst + i);
  }

  // ---------------------------------------------------------------- the register block

  /** An access of the program to the register block. */
  datatype Access = Select(rnr: nat) | Write(region: nat)

  /** From an index of the log on, every selection is followed at once by a write. */
  ghost predicate SelectionsUsed(log: seq<Access>, from: nat)
  {
    forall i :: from <= i < |log| && log[i].Select? ==> i + 1 < |log| && log[i + 1].Write?
  }

  /** The same, except that the last access is a selection not used yet. */
  ghost predicate SelectionPending(log: seq<Access>, from: nat)
  {
    && from < |log|
    && log[|log| - 1].Select?
    && (forall i :: from <= i < |log| - 1 && log[i].Select? ==> log[i + 1].Write?)
  }

  /** The log went on with n writes. */
  ghost predicate Wrote(before: seq<Access>, log: seq<Access>, n: nat)
  {
    && |log| == |before| + n && log[..|before|] == before
    && (forall i :: |before| <= i < |log| ==> log[i].Write?)
  }

  lemma WritesUseSelection(before: seq<Access>, log: seq<Access>, n: nat, from: nat)
    requires SelectionPending(before, from) && Wrote(before, log, n) && n > 0
    ensures SelectionsUsed(log, from)
  {
  }

  lemma NextSelection(log: seq<Access>, from: nat, rnr: nat)
    requires SelectionsUsed(log, from) && from <= |log|
    ensures SelectionPending(log + [Select(rnr)], from)
  {
  }

  class Mpu {
    const aliases: U32
    ghost const exponent: nat
    var RNR: U32
    var regions: Regions
    ghost var log: seq<Access>

    ghost predicate Valid()
    {
      exponent <= 31 && aliases == Pow2(exponent)
    }

    constructor (k: nat)
      requires k <= 31
      ensures Valid() && aliases == Pow2(k) && regions == map[] && log == []
    {
      AliasesBound(k);
      aliases, exponent := Pow2(k), k;
      RNR, regions, log := 0, map[], [];
    }

    method SelectRegion(rnr: U32)
      modifies this`RNR, this`log
      ensures RNR == rnr && log == old(log) + [Select(rnr)]
    {
      RNR := rnr;
      log := log + [Select(rnr)];
    }

    /** A store to word number word of the block that starts at RBAR; there is no register
        after the last alias. */
    method WriteWord(word: nat, v: U32)
      requires Valid() && word < 2 * aliases
      modifies this`regions, this`log
      ensures regions == Put(old(regions), Target(RNR, aliases, word), word, v)
      ensures log == old(log) + [Write(Target(RNR, aliases, word))]
    {
      regions := Put(regions, Target(RNR, aliases, word), word, v);
      log := log + [Write(Target(RNR, aliases, word))];
    }

    method SetRegionEx(rnr: U32, rbar: U32, rlar: U32)
      requires Valid()
      modifies this`RNR, this`regions, this`log
      ensures RNR == rnr && regions == old(regions)[rnr := Row(rbar, rlar)]
    {
      SelectRegion(rnr);
      WriteWord(0, rbar);
      WriteWord(1, rlar);
    }

    method OrderedCpy(dst: nat, src: seq<U32>, len: nat)
      requires Valid() && len <= |src| && dst + len <= 2 * aliases
      requires RNR % aliases == 0 || dst + len <= 2
      modifies this`regions, this`log
      ensures regions == PutWords(old(regions), RNR, dst, src[..len])
      ensures Wrote(old(log), log, len)
    {
      var i := 0;
      while i < len
        invariant i <= len
        invariant regions == PutWords(old(regions), RNR, dst, src[..i])
        invariant Wrote(old(log), log, i)
      {
        NextStore(old(regions), RNR, aliases, exponent, dst, src, i);
        WriteWord(dst + i, src[i]);
        i := i + 1;
      }
    }

    /** Copies part of a table to the registers of as many regions. */
    method CopyRows(first: nat, rows: seq<Row>)
      requires Valid() && first + |rows| <= aliases
      requires RNR % aliases == 0 || first + |rows| <= 1
      modifies this`regions, this`log
      ensures regions == SetOneByOne(old(regions), RNR + first, rows)
      ensures Wrote(old(log), log, 2 * |rows|)
    {
      WordsSetRows(regions, RNR, first, rows);
      var words := WordsOf(rows);
      assert words[..2 * |rows|] == words;
      OrderedCpy(first * 2, words, |rows| * 2);
    }

    /** Copies the next c rows of the table, and so uses the selection of the window. */
    method CopyPart(ghost m: Regions, ghost rnr: U32, first: U32, table: seq<Row>, pos: nat, c: U32, ghost from: nat)
      requires Valid() && RNR % aliases == 0 && first + c <= aliases && pos + c <= |table|
      requires RNR + first == ToU32(rnr + pos)
      requires regions == SetOneByOne(m, rnr, table[..pos]) && SelectionPending(log, from)
      modifies this`regions, this`log
      ensures regions == SetOneByOne(m, rnr, table[..pos + c])
      ensures from < |log| && (c > 0 ==> SelectionsUsed(log, from))
    {
      NextRows(m, rnr, table, pos, c);
      ghost var l := log;
      CopyRows(first, table[pos..pos + c]);
      if c > 0 {
        WritesUseSelection(l, log, 2 * c, from);
      }
    }

    /** Copies rows up to the end of the window, and selects the next one. */
    method FillWindow(ghost m: Regions, ghost rnr: U32, base: U32, offset: U32, table: seq<Row>, pos: nat,
                      c: U32, ghost from: nat)
      returns (nextBase: U32)
      requires Valid() && RNR == base && base % aliases == 0 && offset < aliases && c == aliases - offset
      requires base + offset == ToU32(rnr + pos) && pos + c <= |table|
      requires regions == SetOneByOne(m, rnr, table[..pos]) && SelectionPending(log, from)
      modifies this`RNR, this`regions, this`log
      ensures RNR == nextBase == ToU32(rnr + (pos + c))
      ensures nextBase % aliases == 0
      ensures regions == SetOneByOne(m, rnr, table[..pos + c])
      ensures SelectionPending(log, from)
    {
      NextTurn(base, offset, aliases, exponent, rnr + pos);
      CopyPart(m, rnr, offset, table, pos, c, from);
      nextBase := ToU32(base + aliases);
      NextSelection(log, from, nextBase);
      SelectRegion(nextBase);
    }

    /** Copies the last rows; the selected window is the one of the last region. */
    method FinishWindow(ghost m: Regions, ghost rnr: U32, offset: U32, table: seq<Row>, pos: nat, cnt: U32,
                        ghost count: nat, ghost from: nat)
      requires Valid() && RNR % aliases == 0 && offset < aliases && offset + cnt <= aliases
      requires pos + cnt == count <= |table| && (count >= 1 ==> cnt >= 1)
      requires RNR + offset == ToU32(rnr + pos)
      requires regions == SetOneByOne(m, rnr, table[..pos]) && SelectionPending(log, from)
      modifies this`regions, this`log
      ensures regions == SetOneByOne(m, rnr, table[..count])
      ensures RNR == FirstOfWindow(ToU32(rnr + Max(count, 1) - 1), aliases)
      ensures count >= 1 ==> SelectionsUsed(log, from)
    {
      LastTurn(RNR, offset, aliases, exponent, rnr + pos, cnt);
      CopyPart(m, rnr, offset, table, pos, cnt, from);
    }

    /** ARM_MPU_LoadEx: same regions as setting the rows one at a time, for every start, every
        count and every power-of-two number of aliases, even where the region numbers wrap.
        A table of eight-byte rows has at most 2^29 of them. */
    method LoadEx(rnr: U32, table: seq<Row>, count: U32)
      requires Valid()
      requires count <= |table| <= 0x2000_0000
      modifies this`RNR, this`regions, this`log
      ensures regions == SetOneByOne(old(regions), rnr, table[..count])
      ensures RNR == if count == 1 then rnr else FirstOfWindow(ToU32(rnr + Max(count, 1) - 1), aliases)
      ensures count >= 1 ==> SelectionsUsed(log, |old(log)|)
    {
      if count == 1 {
        SelectRegion(rnr);
        ghost var l := log;
        CopyRows(0, table[..1]);
        WritesUseSelection(l, log, 2, |old(log)|);
      } else {
          WindowBase(rnr, aliases, exponent);
        WindowAligned(rnr, aliases);
        var rnrBase: U32 := And(rnr, Not32(aliases - 1));
        var rnrOffset: U32 := rnr % aliases;
        SelectRegion(rnrBase);
        LoadWindows(rnr, rnrBase, rnrOffset, table, count);
      }
    }

    /** The loop of ARM_MPU_LoadEx over the windows, and the copy after it. */
    method LoadWindows(ghost rnr: U32, base: U32, offset: U32, table: seq<Row>, count: U32)
      requires Valid() && count <= |table| <= 0x2000_0000
      requires base % aliases == 0 && offset < aliases && rnr == base + offset && RNR == base
      requires log != [] && log[|log| - 1].Select?
      modifies this`RNR, this`regions, this`log
      ensures regions == SetOneByOne(old(regions), rnr, table[..count])
      ensures RNR == FirstOfWindow(ToU32(rnr + Max(count, 1) - 1), aliases)
      ensures count >= 1 ==> SelectionsUsed(log, |old(log)| - 1)
    {
      ghost var from := |log| - 1;
      var rnrBase: U32, rnrOffset: U32, cnt: U32 := base, offset, count;
      var pos: nat := 0;
      AliasesBound(exponent);
      while ToU32(rnrOffset + cnt) > aliases
        invariant pos + cnt == count && rnrOffset < aliases && (count >= 1 ==> cnt >= 1)
        invariant rnrBase % aliases == 0 && RNR == rnrBase
        invariant rnrBase + rnrOffset == ToU32(rnr + pos)
        invariant regions == SetOneByOne(old(regions), rnr, table[..pos])
        invariant SelectionPending(log, from)
        decreases cnt
      {
        GuardIsExact(rnrOffset, cnt, aliases);
        var c: U32 := aliases - rnrOffset;
        rnrBase := FillWindow(old(regions), rnr, rnrBase, rnrOffset, table, pos, c, from);
        pos := pos + c;
        cnt := cnt - c;
        rnrOffset := 0;
      }
      GuardIsExact(rnrOffset, cnt, aliases);
      FinishWindow(old(regions), rnr, rnrOffset, table, pos, cnt, count, from);
    }
  }
}
