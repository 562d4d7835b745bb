/**
 * The AW9106 register map, the driver's register-access table and the byte
 * conversions the driver applies when it programs a register.
 */
module Registers {

  const REG_INPUT_P0: Addr := 0x00
  const REG_INPUT_P1: Addr := 0x01
  const REG_OUTPUT_P0: Addr := 0x02
  const REG_OUTPUT_P1: Addr := 0x03
  const REG_CONFIG_P0: Addr := 0x04
  const REG_CONFIG_P1: Addr := 0x05
  const REG_INT_P0: Addr := 0x06
  const REG_INT_P1: Addr := 0x07
  const REG_ID: Addr := 0x10
  const REG_CTRL: Addr := 0x11
  const REG_WORK_MODE_P0: Addr := 0x12
  const REG_WORK_MODE_P1: Addr := 0x13
  const REG_EN_BREATH: Addr := 0x14
  const REG_FADE_TIME: Addr := 0x15
  const REG_FULL_TIME: Addr := 0x16
  const REG_DLY0_BREATH: Addr := 0x17
  const REG_DLY5_BREATH: Addr := 0x1c
  const REG_DIM00: Addr := 0x20
  const REG_DIM05: Addr := 0x25
  const REG_SWRST: Addr := 0x7f

  /** The chip's register file has one byte per 8-bit address. */
  const REG_COUNT: nat := 256

  /** An 8-bit register address. */
  type Addr = a: nat | a < REG_COUNT

  /** AW9106_REG_MAX: the access table has this many entries, 0x00 to 0xfe. */
  const AW9106_REG_MAX: nat := 0xff

  /** AW9106_ID: the value of REG_ID on a genuine AW9106. */
  const AW9106_ID: bv8 := 0x23

  /** Number of output channels; DIM00 to DIM05 drive them in lock-step. */
  const CHANNELS: nat := 6

  /** A permitted direction of access to a register. */
  datatype Dir = Rd | Wr

  /** aw9106_reg_access: the directions in which the driver may access each register. */
  function RegAccess(reg: nat): (r: set<Dir>)
    requires reg < AW9106_REG_MAX
    ensures r == {Rd} <==> reg == REG_INPUT_P0 || reg == REG_INPUT_P1 || reg == REG_ID
    ensures r == {Wr} <==> REG_DIM00 <= reg <= REG_DIM05 || reg == REG_SWRST
  {
    match reg
    case 0x00 => {Rd}         // INPUT_P0
    case 0x01 => {Rd}         // INPUT_P1
    case 0x02 => {Rd, Wr}     // OUTPUT_P0
    case 0x03 => {Rd, Wr}     // OUTPUT_P1
    case 0x04 => {Rd, Wr}     // CONFIG_P0
    case 0x05 => {Rd, Wr}     // CONFIG_P1
    case 0x06 => {Rd, Wr}     // INT_P0
    case 0x07 => {Rd, Wr}     // INT_P1
    case 0x10 => {Rd}         // ID
    case 0x11 => {Rd, Wr}     // CTRL
    case 0x12 => {Rd, Wr}     // WORK_MODE_P0
    case 0x13 => {Rd, Wr}     // WORK_MODE_P1
    case 0x14 => {Rd, Wr}     // EN_BREATH
    case 0x15 => {Rd, Wr}     // FADE_TIME
    case 0x16 => {Rd, Wr}     // FULL_TIME
    case 0x17 => {Rd, Wr}     // DLY0_BREATH
    case 0x18 => {Rd, Wr}     // DLY1_BREATH
    case 0x19 => {Rd, Wr}     // DLY2_BREATH
    case 0x1a => {Rd, Wr}     // DLY3_BREATH
    case 0x1b => {Rd, Wr}     // DLY4_BREATH
    case 0x1c => {Rd, Wr}     // DLY5_BREATH
    case 0x20 => {Wr}         // DIM00
    case 0x21 => {Wr}         // DIM01
    case 0x22 => {Wr}         // DIM02
    case 0x23 => {Wr}         // DIM03
    case 0x24 => {Wr}         // DIM04
    case 0x25 => {Wr}         // DIM05
    case 0x7f => {Wr}         // SWRST
    case _ => {}
  }

  /**
   * The read bit of the access table, `aw9106_reg_access[reg] & REG_RD_ACCESS`,
   * written as the two address ranges that carry it (ReadBitOfTable).
   */
  predicate Readable(reg: nat) {
    reg <= REG_INT_P1 || REG_ID <= reg <= REG_DLY5_BREATH
  }

  /** Readable is exactly the read bit of the table, entry by entry. */
  lemma ReadBitOfTable(reg: nat)
    requires reg < AW9106_REG_MAX
    ensures Readable(reg) <==> Rd in RegAccess(reg)
  {
  }

  /** The write bit of the access table, written as the address ranges that carry it (WriteBitOfTable). */
  predicate Writable(reg: nat) {
    || REG_OUTPUT_P0 <= reg <= REG_INT_P1
    || REG_CTRL <= reg <= REG_DLY5_BREATH
    || REG_DIM00 <= reg <= REG_DIM05
    || reg == REG_SWRST
  }

  /** Writable is exactly the write bit of the table, entry by entry. */
  lemma WriteBitOfTable(reg: nat)
    requires reg < AW9106_REG_MAX
    ensures Writable(reg) <==> Wr in RegAccess(reg)
  {
  }

  /** The readable addresses from `i` up to the end of the table, ascending: what the dump visits. */
  function ReadableFrom(i: nat): seq<Addr>
    decreases AW9106_REG_MAX - i
  {
    if i >= AW9106_REG_MAX then []
    else if Readable(i) then [i] + ReadableFrom(i + 1)
    else ReadableFrom(i + 1)
  }

  /** The readable addresses below `n`, ascending: what the dump has visited once it reaches `n`. */
  function ReadableBelow(n: nat): seq<Addr>
    requires n <= AW9106_REG_MAX
  {
    if n == 0 then []
    else if Readable(n - 1) then ReadableBelow(n - 1) + [n - 1]
    else ReadableBelow(n - 1)
  }

  /** Moving past entry `i` adds `i` to the visited addresses exactly when it is readable. */
  lemma ReadableBelowStep(i: nat)
    requires i < AW9106_REG_MAX
    ensures ReadableBelow(i + 1) == if Readable(i) then ReadableBelow(i) + [i] else ReadableBelow(i)
  {
  }

  /** The addresses visited before `i` and those after it make up the whole walk. */
  lemma {:induction false} ReadableSplit(i: nat)
    requires i <= AW9106_REG_MAX
    ensures ReadableBelow(i) + ReadableFrom(i) == ReadableFrom(0)
    decreases i
  {
    if i > 0 {
      ReadableSplit(i - 1);
      ReadableSplitStep(i - 1);
    }
  }

  /** The inductive step of ReadableSplit: entry `j` moves from the part to come to the part visited. */
  lemma ReadableSplitStep(j: nat)
    requires j < AW9106_REG_MAX
    requires ReadableBelow(j) + ReadableFrom(j) == ReadableFrom(0)
    ensures ReadableBelow(j + 1) + ReadableFrom(j + 1) == ReadableFrom(0)
  {
    ReadableBelowStep(j);
    var below, from := ReadableBelow(j), ReadableFrom(j + 1);
    if Readable(j) {
      assert ReadableFrom(j) == [j] + from;
      AppendAssoc(below, [j], from);
    } else {
      assert ReadableFrom(j) == from;
    }
  }

  lemma AppendAssoc<T>(a: seq<T>, b: seq<T>, c: seq<T>)
    ensures (a + b) + c == a + (b + c)
  {
  }

  /** A walk of the whole table visits the addresses ReadableFrom(0) lists. */
  lemma ReadableBelowAll()
    ensures ReadableBelow(AW9106_REG_MAX) == ReadableFrom(0)
  {
    ReadableSplit(AW9106_REG_MAX);
    assert ReadableFrom(AW9106_REG_MAX) == [];
  }

  /** The addresses i, i + 1, ..., j - 1. */
  function Span(i: nat, j: nat): (s: seq<Addr>)
    requires i <= j <= REG_COUNT
    ensures |s| == j - i
    ensures forall k :: 0 <= k < |s| ==> s[k] == i + k
  {
    seq(j - i, k requires 0 <= k < j - i => i + k)
  }

  /** A stretch of table entries with no read access contributes nothing to the dump. */
  lemma {:induction false} ReadableSkip(i: nat, j: nat)
    requires i <= j <= AW9106_REG_MAX
    requires forall r :: i <= r < j ==> !Readable(r)
    ensures ReadableFrom(i) == ReadableFrom(j)
    decreases j - i
  {
    if i < j {
      ReadableSkip(i + 1, j);
    }
  }

  /** A stretch of readable entries contributes exactly those addresses, in order. */
  lemma {:induction false} ReadableTake(i: nat, j: nat)
    requires i <= j <= AW9106_REG_MAX
    requires forall r :: i <= r < j ==> Readable(r)
    ensures ReadableFrom(i) == Span(i, j) + ReadableFrom(j)
    decreases j - i
  {
    if i < j {
      ReadableTake(i + 1, j);
      SpanCons(i, j);
      calc {
        ReadableFrom(i);
        { assert Readable(i); }
        [i] + ReadableFrom(i + 1);
        [i] + (Span(i + 1, j) + ReadableFrom(j));
        ([i] + Span(i + 1, j)) + ReadableFrom(j);
        Span(i, j) + ReadableFrom(j);
      }
    }
  }

  lemma SpanCons(i: nat, j: nat)
    requires i < j <= REG_COUNT
    ensures Span(i, j) == [i] + Span(i + 1, j)
  {
    assert forall k :: 0 <= k < j - i ==> Span(i, j)[k] == ([i] + Span(i + 1, j))[k];
  }

  /**
   * The dump visits exactly INPUT_P0 to INT_P1 and ID to DLY5_BREATH, in
   * ascending order: 21 registers, never a DIM register or SWRST.
   */
  lemma DumpedRegisters()
    ensures ReadableFrom(0) == Span(0x00, 0x08) + Span(0x10, 0x1d)
    ensures |ReadableFrom(0)| == 21
    ensures forall k :: 0 <= k < |ReadableFrom(0)| ==>
              !(REG_DIM00 <= ReadableFrom(0)[k] <= REG_DIM05) && ReadableFrom(0)[k] != REG_SWRST
  {
    ReadableSkip(0x1d, AW9106_REG_MAX);
    ReadableTake(0x10, 0x1d);
    ReadableSkip(0x08, 0x10);
    ReadableTake(0x00, 0x08);
  }

  /** Truncation of a C integer to `unsigned char`: its low eight bits. */
  function ByteOf(x: int): (b: bv8)
    ensures 0 <= x < 256 ==> b == x as bv8
  {
    (x % 256) as bv8
  }

  /**
   * `(hi << 3) | lo` truncated to a register byte, as the fade-time and
   * full-time writes compute it; neither operand is masked first.
   */
  function Pack(hi: int, lo: int): (b: bv8)
    ensures b & 7 == ByteOf(lo) & 7
    ensures 0 <= lo < 8 ==> b >> 3 == ByteOf(hi) & 0x1f
  {
    (ByteOf(hi) << 3) | ByteOf(lo)
  }

  /** For 3-bit fields, the packed byte decodes back to both fields. */
  lemma PackDecodes(hi: int, lo: int)
    requires 0 <= hi < 8 && 0 <= lo < 8
    ensures Pack(hi, lo) >> 3 == hi as bv8
    ensures Pack(hi, lo) & 7 == lo as bv8
  {
  }

  /** An unmasked low field of 8 or more spills into the high field. */
  lemma PackSpills()
    ensures Pack(0, 8) == Pack(1, 0)
  {
  }

  /** `0x80 | imax` truncated to a byte: the CTRL value that enables blinking. */
  function BlinkCtrl(imax: int): (b: bv8)
    ensures b & 0x80 == 0x80
    ensures b & 0x7f == ByteOf(imax) & 0x7f
  {
    0x80 | ByteOf(imax)
  }

  /** For imax in 0..127 the blink-enable bit is set and the low seven bits are imax. */
  lemma BlinkCtrlDecodes(imax: int)
    requires 0 <= imax < 128
    ensures BlinkCtrl(imax) & 0x80 == 0x80
    ensures BlinkCtrl(imax) & 0x7f == imax as bv8
  {
  }
}
