/**
 * The effect programmer: the fixed, ordered register writes with which the
 * driver puts the chip into static-brightness mode or blink (breathing) mode.
 */
module Effects {
  import opened Registers
  import opened Chip

  /** The timing and current-limit fields of `struct aw9106`: plain C ints, never masked. */
  datatype Timing = Timing(imax: int, riseTime: int, onTime: int, fallTime: int, offTime: int)

  /** The brightness the effect functions program: the stored value, capped at max_brightness. */
  function Clamp(brightness: nat, maxBrightness: nat): (c: nat)
    ensures c <= maxBrightness
    ensures brightness <= maxBrightness ==> c == brightness
    ensures brightness > maxBrightness ==> c == maxBrightness
  {
    if brightness > maxBrightness then maxBrightness else brightness
  }

  /** The six dimming writes, DIM00 first, each of the same value. */
  function DimWrites(v: bv8): seq<Op> {
    seq(CHANNELS, k requires 0 <= k < CHANNELS => Write(REG_DIM00 + k, v))
  }

  /** The writes of aw9106_brightness_work before the channels: LED mode on both ports, breathing off, CTRL = 0x03. */
  function StaticHeader(): seq<Op> {
    [Write(REG_WORK_MODE_P0, 0x00), Write(REG_WORK_MODE_P1, 0x00),
     Write(REG_EN_BREATH, 0x00), Write(REG_CTRL, 0x03)]
  }

  /** aw9106_brightness_work: the header, then DIM00..DIM05. */
  function StaticProgram(v: bv8): (p: seq<Op>)
    ensures |p| == 4 + CHANNELS
    ensures forall k :: 4 <= k < |p| ==> p[k] == Write(REG_DIM00 + (k - 4), v)
  {
    StaticHeader() + DimWrites(v)
  }

  /**
   * The writes of aw9106_led_blink before the channels when blinking is
   * enabled: LED mode, breathing on for all six outputs, blink mode, and the
   * two packed timing bytes.
   */
  function BlinkHeader(t: Timing): seq<Op> {
    [Write(REG_WORK_MODE_P0, 0x00), Write(REG_WORK_MODE_P1, 0x00),
     Write(REG_EN_BREATH, 0x3f),
     Write(REG_CONFIG_P0, 0x03), Write(REG_CONFIG_P1, 0x0f),
     Write(REG_FADE_TIME, Pack(t.fallTime, t.riseTime)),
     Write(REG_FULL_TIME, Pack(t.offTime, t.onTime))]
  }

  /** aw9106_led_blink: the writes for a nonzero and for a zero `blink` argument. */
  function BlinkProgram(blink: bv8, t: Timing, v: bv8): (p: seq<Op>)
    ensures |p| == if blink != 0 then 14 else 4 + CHANNELS
    ensures blink != 0 ==> p[|p| - 1] == Write(REG_CTRL, BlinkCtrl(t.imax))
  {
    if blink != 0 then
      BlinkHeader(t) + DimWrites(v) + [Write(REG_CTRL, BlinkCtrl(t.imax))]
    else
      [Write(REG_WORK_MODE_P0, 0x00), Write(REG_WORK_MODE_P1, 0x00),
       Write(REG_EN_BREATH, 0x00), Write(REG_CTRL, 0x03)]
      + seq(CHANNELS, k requires 0 <= k < CHANNELS => Write(REG_DIM00 + k, 0x00))
  }

  /** The dimming registers DIM00..DIM05 as a set. */
  function DimRegs(): set<Addr> {
    {0x20, 0x21, 0x22, 0x23, 0x24, 0x25}
  }

  /** Whether every transfer of a program is a write to a register the access table marks writable (WriteBitOfTable). */
  predicate AllWritable(prog: seq<Op>) {
    forall k :: 0 <= k < |prog| ==> prog[k].Write? && prog[k].reg < AW9106_REG_MAX && Writable(prog[k].reg)
  }

  /** Whether all channel registers a program writes receive the value `v`: the channels move in lock-step. */
  predicate LockStep(prog: seq<Op>, v: bv8) {
    forall k :: 0 <= k < |prog| && prog[k].reg in DimRegs() ==> prog[k] == Write(prog[k].reg, v)
  }

  /** The static program makes ten writes, all to writable registers, and drives all six channels with `v`. */
  lemma StaticProgramShape(v: bv8)
    ensures |StaticProgram(v)| == 4 + CHANNELS
    ensures AllWritable(StaticProgram(v))
    ensures LockStep(StaticProgram(v), v)
  {
    var p := StaticProgram(v);
    assert forall k :: 4 <= k < |p| ==> p[k] == Write(REG_DIM00 + (k - 4), v);
  }

  /** The static program touches CTRL, both work-mode registers, EN_BREATH and the six channels, and nothing else. */
  lemma StaticProgramTargets(v: bv8)
    ensures Targets(StaticProgram(v)) == {REG_CTRL, REG_WORK_MODE_P0, REG_WORK_MODE_P1, REG_EN_BREATH} + DimRegs()
  {
    var p := StaticProgram(v);
    assert forall k :: 4 <= k < |p| ==> p[k] == Write(REG_DIM00 + (k - 4), v);
    var want := {REG_CTRL, REG_WORK_MODE_P0, REG_WORK_MODE_P1, REG_EN_BREATH} + DimRegs();
    forall a: Addr | a in want ensures a in Targets(p) {
      var k := if a == REG_CTRL then 3 else if a == REG_WORK_MODE_P0 then 0
               else if a == REG_WORK_MODE_P1 then 1 else if a == REG_EN_BREATH then 2
               else 4 + (a - REG_DIM00);
      assert p[k].Write? && p[k].reg == a;
    }
  }

  /**
   * A nonzero blink argument makes fourteen writes to writable registers:
   * the timing bytes before the channels, and CTRL, which starts blinking,
   * written exactly once and last.
   */
  lemma BlinkOnShape(blink: bv8, t: Timing, v: bv8)
    requires blink != 0
    ensures var p := BlinkProgram(blink, t, v);
      && |p| == 14
      && AllWritable(p)
      && LockStep(p, v)
      && p[|p| - 1] == Write(REG_CTRL, BlinkCtrl(t.imax))
      && (forall k :: 0 <= k < |p| - 1 ==> p[k].reg != REG_CTRL)
      && p[5] == Write(REG_FADE_TIME, Pack(t.fallTime, t.riseTime))
      && p[6] == Write(REG_FULL_TIME, Pack(t.offTime, t.onTime))
  {
    var h, d, c := BlinkHeader(t), DimWrites(v), Write(REG_CTRL, BlinkCtrl(t.imax));
    var p := h + d + [c];
    assert p == BlinkProgram(blink, t, v);
    assert forall k :: 0 <= k < 7 ==> p[k] == h[k];
    assert forall k :: 7 <= k < 13 ==> p[k] == d[k - 7];
  }

  /** Switching blinking off writes exactly what static brightness zero writes, in the same order. */
  lemma BlinkOffIsStaticZero(t: Timing, v: bv8)
    ensures BlinkProgram(0, t, v) == StaticProgram(0)
  {
  }

  /**
   * The `blink` attribute hands its parsed number to an unsigned char
   * argument: 256, like 0, switches blinking off, and 257, like 1, switches it on.
   */
  lemma BlinkArgumentWraps(t: Timing, v: bv8)
    ensures BlinkProgram(ByteOf(256), t, v) == StaticProgram(0x00)
    ensures BlinkProgram(ByteOf(257), t, v) == BlinkProgram(1, t, v)
  {
    BlinkOffIsStaticZero(t, v);
  }

  /** Switching blinking off touches no register outside CTRL, WORK_MODE_P0/P1, EN_BREATH and DIM00..DIM05. */
  lemma BlinkOffTargets(t: Timing, v: bv8)
    ensures Targets(BlinkProgram(0, t, v)) == {REG_CTRL, REG_WORK_MODE_P0, REG_WORK_MODE_P1, REG_EN_BREATH} + DimRegs()
  {
    BlinkOffIsStaticZero(t, v);
    StaticProgramTargets(0);
  }

  /** With in-range timing fields, the programmed bytes decode back to the configured fields. */
  lemma BlinkTimingDecodes(blink: bv8, t: Timing, v: bv8)
    requires blink != 0
    requires 0 <= t.riseTime < 8 && 0 <= t.onTime < 8 && 0 <= t.fallTime < 8 && 0 <= t.offTime < 8
    requires 0 <= t.imax < 128
    ensures var p := BlinkProgram(blink, t, v);
      && p[5].data >> 3 == t.fallTime as bv8 && p[5].data & 7 == t.riseTime as bv8
      && p[6].data >> 3 == t.offTime as bv8 && p[6].data & 7 == t.onTime as bv8
      && p[13].data & 0x80 == 0x80 && p[13].data & 0x7f == t.imax as bv8
  {
    PackDecodes(t.fallTime, t.riseTime);
    PackDecodes(t.offTime, t.onTime);
    BlinkCtrlDecodes(t.imax);
  }

  /** rise = 2, on = 3, fall = 1, off = 5, imax = 3 program FADE_TIME 0x0a, FULL_TIME 0x2b and CTRL 0x83. */
  lemma BlinkExample(v: bv8)
    ensures var p := BlinkProgram(1, Timing(3, 2, 3, 1, 5), v);
      p[5] == Write(REG_FADE_TIME, 0x0a) && p[6] == Write(REG_FULL_TIME, 0x2b) && p[13] == Write(REG_CTRL, 0x83)
  {
  }
}
