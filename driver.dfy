/**
 * The driver instance (`struct aw9106`) and its operations: the retrying
 * transport, the identity check, the effect programmer with its deferred
 * brightness work, the `reg`, `hwen` and `blink` attributes past parsing,
 * and the reset line.
 *
 * The chip is reached only through `bus`, which answers the n-th transfer
 * attempt; `attempts` counts the attempts made. Every logical transfer is
 * appended to `log`, and the class invariant says that replaying `log`
 * against `bus` from the power-on register file gives the register file
 * `regs` and the attempt count.
 */
module Driver {
  import opened Maybe
  import opened Bus
  import opened Registers
  import opened Chip
  import opened Effects
  import opened Identity
  import opened Dump
  import opened Reset

  /** `count` logical reads of register `reg`. */
  function RepeatRead(reg: Addr, count: nat): (p: seq<Op>)
    ensures |p| == count
    ensures forall k :: 0 <= k < count ==> p[k] == Read(reg)
  {
    seq(count, k requires 0 <= k < count => Read(reg))
  }

  /** One more read of `reg` after `pre` and `n` reads of it. */
  lemma RepeatReadSnoc(pre: seq<Op>, reg: Addr, n: nat)
    ensures (pre + RepeatRead(reg, n)) + [Read(reg)] == pre + RepeatRead(reg, n + 1)
  {
    AppendAssoc(pre, RepeatRead(reg, n), [Read(reg)]);
    assert RepeatRead(reg, n) + [Read(reg)] == RepeatRead(reg, n + 1);
  }

  /** The C return value of a write attempt: 0 on success, the error code otherwise. */
  function WriteStatus(r: Reply): (ret: int)
    ensures ret >= 0 <==> r.Ok?
  {
    if r.Ok? then 0 else r.code
  }

  /** The writes of the enabled branch of aw9106_led_blink, issued after `past`, make up its program. */
  lemma BlinkOnLog(past: seq<Op>, blink: bv8, t: Timing, v: bv8, l: seq<Op>)
    requires blink != 0
    requires l == past + BlinkHeader(t) + DimWrites(v) + [Write(REG_CTRL, BlinkCtrl(t.imax))]
    ensures l == past + BlinkProgram(blink, t, v)
  {
  }

  class Aw9106 {
    /** The I2C adapter: the answer to each transfer attempt. */
    const bus: Oracle
    /** The register file at power-on. */
    ghost const regs0: seq<bv8>
    /** cdev.max_brightness. */
    const maxBrightness: nat
    /** imax, rise_time, on_time, fall_time and off_time. */
    const timing: Timing
    /** reset_gpio. */
    const resetGpio: int

    /** The chip's register file. */
    var regs: seq<bv8>
    /** Transfer attempts made so far: the index of the next answer of `bus`. */
    var attempts: nat
    /** Every logical transfer so far, in order. */
    var log: seq<Op>
    /** Every reset-line event so far, in order. */
    var gpio: seq<GpioEvent>
    /** chipid. */
    var chipid: bv8
    /** cdev.brightness. */
    var brightness: nat
    /** Whether brightness_work is scheduled and has not run yet. */
    var pending: bool

    /**
     * Replaying the log against the bus gives the register file and the
     * attempt count. The replay is stated for every `l` equal to the log so
     * that a proof unfolds it only where it mentions a replay of the log.
     */
    ghost predicate Valid()
      reads this
    {
      && |regs0| == REG_COUNT && |regs| == REG_COUNT
      && forall l :: l == log ==> Run(bus, regs0, l) == State(regs, attempts)
    }

    /** The zero-filled instance with its configuration, before any transfer. */
    constructor (bus: Oracle, regs0: seq<bv8>, maxBrightness: nat, timing: Timing, resetGpio: int)
      requires |regs0| == REG_COUNT
      ensures Valid()
      ensures this.bus == bus && this.regs0 == regs0 && this.maxBrightness == maxBrightness
      ensures this.timing == timing && this.resetGpio == resetGpio
      ensures regs == regs0 && attempts == 0 && log == [] && gpio == []
      ensures chipid == 0 && brightness == 0 && !pending
    {
      this.bus := bus;
      this.regs0 := regs0;
      this.maxBrightness := maxBrightness;
      this.timing := timing;
      this.resetGpio := resetGpio;
      regs := regs0;
      attempts := 0;
      log := [];
      gpio := [];
      chipid := 0;
      brightness := 0;
      pending := false;
    }

    /**
     * aw9106_i2c_write: up to AW_I2C_RETRIES attempts, stopping at the first
     * success; returns 0, or the last error when every attempt failed. The
     * register takes the byte only when an attempt succeeded.
     */
    method I2cWrite(reg: Addr, data: bv8) returns (ret: int)
      requires Valid()
      modifies this`regs, this`attempts, this`log
      ensures Valid()
      ensures log == old(log) + [Write(reg, data)]
      ensures var o := Retry(bus, old(attempts), AW_I2C_RETRIES);
        && ret == WriteStatus(o.reply)
        && attempts == old(attempts) + o.used
        && regs == if o.reply.Ok? then old(regs)[reg := data] else old(regs)
    {
      var reply, used := Transfer(bus, attempts);
      ret := WriteStatus(reply);
      ghost var before := State(regs, attempts);
      assert Run(bus, regs0, log) == before;
      RunSnoc(bus, regs0, log, Write(reg, data));
      if reply.Ok? {
        regs := regs[reg := data];
      }
      attempts := attempts + used;
      log := log + [Write(reg, data)];
    }

    /**
     * aw9106_i2c_read: up to AW_I2C_RETRIES attempts, stopping at the first
     * success. The C return value, the byte read or a negative error, is
     * `ret`: the last reply, an error only when every attempt failed. `val`
     * is the destination byte: the byte read, or `dest` untouched.
     */
    method I2cRead(reg: Addr, dest: bv8) returns (ret: Reply, val: bv8)
      requires Valid()
      modifies this`attempts, this`log
      ensures Valid()
      ensures log == old(log) + [Read(reg)]
      ensures var o := Retry(bus, old(attempts), AW_I2C_RETRIES);
        && ret == o.reply
        && val == (if o.reply.Ok? then o.reply.value else dest)
        && attempts == old(attempts) + o.used
    {
      var used;
      ret, used := Transfer(bus, attempts);
      val := if ret.Ok? then ret.value else dest;
      ghost var before := State(regs, attempts);
      assert Run(bus, regs0, log) == before;
      RunSnoc(bus, regs0, log, Read(reg));
      attempts := attempts + used;
      log := log + [Read(reg)];
    }

    /**
     * aw9106_i2c_write_bits: reads the register into an uninitialised byte
     * (`stale`), keeps the bits of `mask`, sets those of `data`, writes the
     * result back and returns 0 whatever the transfers did.
     */
    method I2cWriteBits(reg: Addr, mask: bv8, data: bv8, stale: bv8) returns (ret: int)
      requires Valid()
      modifies this`regs, this`attempts, this`log
      ensures Valid()
      ensures ret == 0
      ensures var o := Retry(bus, old(attempts), AW_I2C_RETRIES);
        var v := if o.reply.Ok? then o.reply.value else stale;
        log == old(log) + [Read(reg), Write(reg, (v & mask) | data)]
    {
      var r, regVal := I2cRead(reg, stale);
      regVal := regVal & mask;
      regVal := regVal | data;
      var _ := I2cWrite(reg, regVal);
      ret := 0;
    }

    /** Issues the writes of `prog` in order, whatever each returns. */
    method WriteAll(prog: seq<Op>)
      requires Valid()
      requires forall k :: 0 <= k < |prog| ==> prog[k].Write?
      modifies this`regs, this`attempts, this`log
      ensures Valid()
      ensures log == old(log) + prog
    {
      var i := 0;
      while i < |prog|
        invariant i <= |prog|
        invariant Valid()
        invariant log == old(log) + prog[..i]
      {
        var _ := I2cWrite(prog[i].reg, prog[i].data);
        assert prog[..i + 1] == prog[..i] + [prog[i]];
        i := i + 1;
      }
      assert prog[..i] == prog;
    }

    /** The six DIM writes of value `v`, DIM00 first. */
    method WriteDims(v: bv8)
      requires Valid()
      modifies this`regs, this`attempts, this`log
      ensures Valid()
      ensures log == old(log) + DimWrites(v)
    {
      var i: nat := 0;
      while i < CHANNELS
        invariant i <= CHANNELS
        invariant Valid()
        invariant log == old(log) + DimWrites(v)[..i]
      {
        var _ := I2cWrite(REG_DIM00 + i, v);
        assert DimWrites(v)[..i + 1] == DimWrites(v)[..i] + [Write(REG_DIM00 + i, v)];
        i := i + 1;
      }
      assert DimWrites(v)[..i] == DimWrites(v);
    }

    /**
     * aw9106_brightness_work: clamps the stored brightness to max_brightness
     * in place, then issues the ten writes of the static program with it,
     * each whether or not the ones before it succeeded. Registers the
     * program does not target keep their value; on a healthy bus every write
     * lands.
     */
    method BrightnessWork()
      requires Valid()
      modifies this`brightness, this`regs, this`attempts, this`log
      ensures Valid()
      ensures brightness == Clamp(old(brightness), maxBrightness)
      ensures log == old(log) + StaticProgram(ByteOf(brightness))
      ensures forall a: Addr :: a !in Targets(StaticProgram(ByteOf(brightness))) ==> regs[a] == old(regs)[a]
      ensures Healthy(bus) ==> regs == Apply(old(regs), StaticProgram(ByteOf(brightness)))
    {
      ghost var past := log;
      if brightness > maxBrightness {
        brightness := maxBrightness;
      }
      var v := ByteOf(brightness);
      WriteAll(StaticHeader());
      WriteDims(v);
      ProgramFrame(past, StaticProgram(v));
    }

    /** The register-level consequences of running `prog` after the history `past`. */
    lemma ProgramFrame(past: seq<Op>, prog: seq<Op>)
      requires |regs0| == REG_COUNT
      requires Valid() && log == past + prog
      ensures forall a: Addr :: a !in Targets(prog) ==> regs[a] == Run(bus, regs0, past).regs[a]
      ensures Healthy(bus) ==> regs == Apply(Run(bus, regs0, past).regs, prog)
    {
      assert Run(bus, regs0, log) == State(regs, attempts);
      forall a: Addr | a !in Targets(prog)
        ensures regs[a] == Run(bus, regs0, past).regs[a]
      {
        RunOutsideTargets(bus, regs0, past, prog, a);
      }
      if Healthy(bus) {
        RunHealthy(bus, regs0, past, prog);
      }
    }

    /** aw9106_set_brightness: stores the value as given and schedules the work. */
    method SetBrightness(value: nat)
      modifies this`brightness, this`pending
      ensures brightness == value && pending
    {
      brightness := value;
      pending := true;
    }

    /** The workqueue running brightness_work once if it is scheduled. */
    method RunPendingWork()
      requires Valid()
      modifies this`brightness, this`regs, this`attempts, this`log, this`pending
      ensures Valid()
      ensures !pending
      ensures old(pending) ==>
        brightness == Clamp(old(brightness), maxBrightness) && log == old(log) + StaticProgram(ByteOf(brightness))
      ensures !old(pending) ==> brightness == old(brightness) && log == old(log) && regs == old(regs)
    {
      if pending {
        pending := false;
        BrightnessWork();
      }
    }

    /**
     * Two brightness updates before the work runs: the work runs once, with
     * the later value, clamped.
     */
    method SetTwiceThenRun(first: nat, second: nat)
      requires Valid()
      modifies this`brightness, this`regs, this`attempts, this`log, this`pending
      ensures Valid()
      ensures brightness == Clamp(second, maxBrightness)
      ensures log == old(log) + StaticProgram(ByteOf(Clamp(second, maxBrightness)))
    {
      SetBrightness(first);
      SetBrightness(second);
      RunPendingWork();
    }

    /**
     * aw9106_led_blink: clamps the stored brightness in place; a nonzero
     * argument programs the breathing timing, the channels and finally CTRL
     * with the blink-enable bit; zero programs static mode with the channels
     * off.
     */
    method LedBlink(blink: bv8)
      requires Valid()
      modifies this`brightness, this`regs, this`attempts, this`log
      ensures Valid()
      ensures brightness == Clamp(old(brightness), maxBrightness)
      ensures log == old(log) + BlinkProgram(blink, timing, ByteOf(brightness))
      ensures forall a: Addr :: a !in Targets(BlinkProgram(blink, timing, ByteOf(brightness))) ==> regs[a] == old(regs)[a]
      ensures Healthy(bus) ==> regs == Apply(old(regs), BlinkProgram(blink, timing, ByteOf(brightness)))
    {
      ghost var past := log;
      if brightness > maxBrightness {
        brightness := maxBrightness;
      }
      var v := ByteOf(brightness);
      if blink != 0 {
        BlinkOn(v);
      } else {
        BlinkOff();
        BlinkOffIsStaticZero(timing, v);
      }
      ProgramFrame(past, BlinkProgram(blink, timing, v));
    }

    /** The enabled branch of aw9106_led_blink, with channel value `v`. */
    method BlinkOn(v: bv8)
      requires Valid()
      modifies this`regs, this`attempts, this`log
      ensures Valid()
      ensures log == old(log) + BlinkProgram(1, timing, v)
    {
      ghost var past := log;
      WriteAll(BlinkHeader(timing));
      WriteDims(v);
      var _ := I2cWrite(REG_CTRL, BlinkCtrl(timing.imax));
      BlinkOnLog(past, 1, timing, v, log);
    }

    /** The disabled branch of aw9106_led_blink: static mode with every channel at zero. */
    method BlinkOff()
      requires Valid()
      modifies this`regs, this`attempts, this`log
      ensures Valid()
      ensures log == old(log) + StaticProgram(0x00)
    {
      WriteAll(StaticHeader());
      WriteDims(0x00);
    }

    /**
     * aw9106_blink_store past parsing: `value` is the parsed number (or
     * whatever the buffer held), truncated to the unsigned char argument.
     */
    method BlinkStore(value: int, len: int) returns (ret: int)
      requires Valid()
      modifies this`brightness, this`regs, this`attempts, this`log
      ensures Valid()
      ensures ret == len
      ensures brightness == Clamp(old(brightness), maxBrightness)
      ensures log == old(log) + BlinkProgram(ByteOf(value), timing, ByteOf(brightness))
    {
      LedBlink(ByteOf(value));
      ret := len;
    }

    /**
     * aw9106_read_chipid: up to AW_READ_CHIPID_RETRIES reads of REG_ID.
     * Returns as the identity check decides; only a match sets `chipid`, and
     * no register is written.
     */
    method ReadChipId() returns (ret: int)
      requires Valid()
      modifies this`attempts, this`log, this`chipid
      ensures Valid()
      ensures var r := Identify(bus, old(attempts), AW_READ_CHIPID_RETRIES);
        ret == r.ret && log == old(log) + RepeatRead(REG_ID, r.idReads)
      ensures chipid == if ret == 0 then AW9106_ID else old(chipid)
    {
      ghost var whole := Identify(bus, attempts, AW_READ_CHIPID_RETRIES);
      ghost var left := AW_READ_CHIPID_RETRIES;
      var cnt: nat := 0;
      var regVal: bv8 := 0;
      while cnt < AW_READ_CHIPID_RETRIES
        invariant cnt <= AW_READ_CHIPID_RETRIES && left == AW_READ_CHIPID_RETRIES - cnt
        invariant Valid()
        invariant chipid == old(chipid)
        invariant log == old(log) + RepeatRead(REG_ID, cnt)
        invariant Pending(bus, attempts, left, cnt, whole)
      {
        ghost var at := attempts;
        ghost var o := Retry(bus, at, AW_I2C_RETRIES);
        var r;
        r, regVal := I2cRead(REG_ID, regVal);
        RepeatReadSnoc(old(log), REG_ID, cnt);
        if r.Err? {
          IdentifyStops(bus, at, left, o, cnt, whole);
          return -EIO;
        }
        if regVal == AW9106_ID {
          IdentifyStops(bus, at, left, o, cnt, whole);
          chipid := AW9106_ID;
          return 0;
        }
        IdentifyGoesOn(bus, at, left, o, attempts, cnt, whole);
        cnt := cnt + 1;
        left := left - 1;
      }
      ret := -EINVAL;
    }

    /**
     * aw9106_reg_store past parsing: with two parsed numbers, writes the low
     * byte of the second to the register named by the low byte of the first,
     * readable-only or not; returns `count` either way.
     */
    method RegStore(parsed: Option<(nat, nat)>, count: int) returns (ret: int)
      requires Valid()
      modifies this`regs, this`attempts, this`log
      ensures Valid()
      ensures ret == count
      ensures parsed.None? ==> log == old(log) && regs == old(regs) && attempts == old(attempts)
      ensures parsed.Some? ==> log == old(log) + [Write(ByteOf(parsed.value.0) as Addr, ByteOf(parsed.value.1))]
    {
      if parsed.Some? {
        var _ := I2cWrite(ByteOf(parsed.value.0) as Addr, ByteOf(parsed.value.1));
      }
      ret := count;
    }

    /**
     * aw9106_reg_show: walks the access table in address order and reads
     * every readable register; each is reported with the byte read or, when
     * the read failed, with the value reported before it (0 at first).
     */
    method RegShow() returns (dump: seq<(Addr, bv8)>)
      requires Valid()
      modifies this`attempts, this`log
      ensures Valid()
      ensures dump == DumpPairs(bus, old(attempts), ReadableFrom(0), 0)
      ensures log == old(log) + ReadOps(ReadableFrom(0))
    {
      var i: Addr := 0;
      var regVal: bv8 := 0;
      ghost var whole := DumpPairs(bus, attempts, ReadableFrom(i), regVal);
      dump := [];
      while i < AW9106_REG_MAX
        invariant i <= AW9106_REG_MAX
        invariant Valid()
        invariant Walked(old(log), whole, i, dump, regVal)
      {
        regVal, dump := ShowEntry(i, regVal, dump, old(log), whole);
        i := i + 1;
      }
      WalkEnd(bus, old(log), log, dump, whole, attempts, regVal);
    }

    /**
     * How far the walk of aw9106_reg_show has got at entry `i`: the log holds
     * the reads of the readable entries below `i` after `pre`, and the pairs
     * reported so far, followed by the dump of the rest of the walk from the
     * current attempt and value of `reg_val`, make up the whole dump.
     */
    ghost predicate Walked(pre: seq<Op>, whole: seq<(Addr, bv8)>, i: nat, dump: seq<(Addr, bv8)>, regVal: bv8)
      reads this
      requires i <= AW9106_REG_MAX
    {
      && log == pre + ReadOps(ReadableBelow(i))
      && dump + DumpPairs(bus, attempts, ReadableFrom(i), regVal) == whole
    }

    /**
     * One entry of the walk of aw9106_reg_show: a readable register is read
     * into `regVal` and reported; any other entry is passed over.
     */
    method ShowEntry(i: Addr, regVal: bv8, dump: seq<(Addr, bv8)>, ghost pre: seq<Op>, ghost whole: seq<(Addr, bv8)>)
      returns (regVal': bv8, dump': seq<(Addr, bv8)>)
      requires Valid() && i < AW9106_REG_MAX
      requires Walked(pre, whole, i, dump, regVal)
      modifies this`attempts, this`log
      ensures Valid()
      ensures dump' == dump + if Readable(i) then [(i, regVal')] else []
      ensures Walked(pre, whole, i + 1, dump', regVal')
    {
      ReadableBelowStep(i);
      if Readable(i) {
        ghost var rest := ReadableFrom(i + 1);
        assert ReadableFrom(i) == [i] + rest;
        ghost var at := attempts;
        ghost var o := Retry(bus, at, AW_I2C_RETRIES);
        var r;
        r, regVal' := I2cRead(i, regVal);
        DumpStep(bus, at, i, rest, regVal, regVal', o, dump, whole, attempts);
        ReadLogStep(pre, i);
        dump' := dump + [(i, regVal')];
      } else {
        assert ReadableFrom(i) == ReadableFrom(i + 1);
        regVal', dump' := regVal, dump;
      }
    }

    /** aw9106_hw_reset: pulses a valid reset line low then high; returns 0 in every case. */
    method HwReset() returns (ret: int)
      modifies this`gpio
      ensures ret == 0
      ensures gpio == old(gpio) + ResetEvents(resetGpio)
    {
      if GpioValid(resetGpio) {
        gpio := gpio + [SetLevel(resetGpio, 0)];
        gpio := gpio + [Sleep(1)];
        gpio := gpio + [SetLevel(resetGpio, 1)];
        gpio := gpio + [Sleep(1)];
      }
      ret := 0;
    }

    /** aw9106_hw_off: drives a valid reset line low; returns 0 in every case. */
    method HwOff() returns (ret: int)
      modifies this`gpio
      ensures ret == 0
      ensures gpio == old(gpio) + OffEvents(resetGpio)
    {
      if GpioValid(resetGpio) {
        gpio := gpio + [SetLevel(resetGpio, 0)];
        gpio := gpio + [Sleep(1)];
      }
      ret := 0;
    }

    /**
     * aw9106_hwen_store past parsing: a parsed 1 resets the chip, any other
     * parsed value powers it off, nothing parsed does nothing; returns `count`.
     */
    method HwenStore(parsed: Option<nat>, count: int) returns (ret: int)
      modifies this`gpio
      ensures ret == count
      ensures gpio == old(gpio) + if parsed.Some? then HwenEvents(resetGpio, parsed.value) else []
    {
      if parsed.Some? {
        if parsed.value == 1 {
          var _ := HwReset();
        } else {
          var _ := HwOff();
        }
      }
      ret := count;
    }
  }
}
