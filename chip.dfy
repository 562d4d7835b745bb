/**
 * The AW9106 as the driver sees it: a 256-byte register file behind the
 * retrying transport. The driver's history is a log of logical transfers;
 * replaying the log against the bus oracle gives the register file and the
 * number of bus attempts made so far.
 */
module Chip {
  import opened Bus
  import opened Registers

  /** One logical transfer: a retrying write of a byte, or a retrying read. */
  datatype Op = Write(reg: Addr, data: bv8) | Read(reg: Addr)

  /** The register file and the number of bus attempts consumed. */
  datatype State = State(regs: seq<bv8>, attempts: nat)

  predicate WellFormed(s: State) {
    |s.regs| == REG_COUNT
  }

  /** One logical transfer: it uses up its retries; a write lands only if one attempt succeeded. */
  function Step(bus: Oracle, s: State, op: Op): (t: State)
    requires WellFormed(s)
    ensures WellFormed(t)
    ensures s.attempts < t.attempts <= s.attempts + AW_I2C_RETRIES
    ensures forall a: Addr :: a != op.reg || op.Read? ==> t.regs[a] == s.regs[a]
    ensures op.Write? ==> t.regs[op.reg] == if bus(t.attempts - 1).Ok? then op.data else s.regs[op.reg]
  {
    var o := Retry(bus, s.attempts, AW_I2C_RETRIES);
    var regs := if op.Write? && o.reply.Ok? then s.regs[op.reg := op.data] else s.regs;
    State(regs, s.attempts + o.used)
  }

  /** Replays `log` against the oracle, starting from the register file `regs0`. */
  function Run(bus: Oracle, regs0: seq<bv8>, log: seq<Op>): (s: State)
    requires |regs0| == REG_COUNT
    ensures WellFormed(s)
    decreases |log|
  {
    if log == [] then State(regs0, 0)
    else Step(bus, Run(bus, regs0, log[..|log| - 1]), log[|log| - 1])
  }

  /** Replaying one more transfer takes one more Step. */
  lemma RunSnoc(bus: Oracle, regs0: seq<bv8>, log: seq<Op>, op: Op)
    requires |regs0| == REG_COUNT
    ensures Run(bus, regs0, log + [op]) == Step(bus, Run(bus, regs0, log), op)
  {
    assert (log + [op])[..|log|] == log;
  }

  /** Every transfer makes at least one and at most AW_I2C_RETRIES attempts. */
  lemma {:induction false} RunAttempts(bus: Oracle, regs0: seq<bv8>, log: seq<Op>)
    requires |regs0| == REG_COUNT
    ensures |log| <= Run(bus, regs0, log).attempts <= AW_I2C_RETRIES * |log|
    decreases |log|
  {
    if log != [] {
      RunAttempts(bus, regs0, log[..|log| - 1]);
    }
  }

  /** The registers a program writes. */
  function Targets(prog: seq<Op>): set<Addr> {
    set k | 0 <= k < |prog| && prog[k].Write? :: prog[k].reg
  }

  /** The register file after every write of `prog` has landed. */
  function Apply(regs: seq<bv8>, prog: seq<Op>): (r: seq<bv8>)
    requires |regs| == REG_COUNT
    ensures |r| == REG_COUNT
    decreases |prog|
  {
    if prog == [] then regs
    else
      var last := prog[|prog| - 1];
      var before := Apply(regs, prog[..|prog| - 1]);
      if last.Write? then before[last.reg := last.data] else before
  }

  /** A bus on which every attempt succeeds. */
  ghost predicate Healthy(bus: Oracle) {
    forall n: nat :: bus(n).Ok?
  }

  /** Whether `prog` holds no write to register `a`. */
  predicate Untouched(prog: seq<Op>, a: Addr) {
    forall k :: 0 <= k < |prog| ==> !(prog[k].Write? && prog[k].reg == a)
  }

  lemma {:induction false} RunUntouched(bus: Oracle, regs0: seq<bv8>, past: seq<Op>, prog: seq<Op>, a: Addr)
    requires |regs0| == REG_COUNT
    requires Untouched(prog, a)
    ensures Run(bus, regs0, past + prog).regs[a] == Run(bus, regs0, past).regs[a]
    decreases |prog|
  {
    if prog != [] {
      var init := prog[..|prog| - 1];
      var last := prog[|prog| - 1];
      assert (past + prog)[..|past + prog| - 1] == past + init;
      assert (past + prog)[|past + prog| - 1] == last;
      RunUntouched(bus, regs0, past, init, a);
      assert !(last.Write? && last.reg == a);
      assert Run(bus, regs0, past + prog) == Step(bus, Run(bus, regs0, past + init), last);
    } else {
      assert past + prog == past;
    }
  }

  /**
   * Running a program after a history `past` leaves every register the
   * program does not target as the history left it, whatever the bus does.
   */
  lemma RunOutsideTargets(bus: Oracle, regs0: seq<bv8>, past: seq<Op>, prog: seq<Op>, a: Addr)
    requires |regs0| == REG_COUNT
    requires a !in Targets(prog)
    ensures Run(bus, regs0, past + prog).regs[a] == Run(bus, regs0, past).regs[a]
  {
    forall k | 0 <= k < |prog| ensures !(prog[k].Write? && prog[k].reg == a) {
      if prog[k].Write? {
        assert prog[k].reg in Targets(prog);
      }
    }
    RunUntouched(bus, regs0, past, prog, a);
  }

  /** On a healthy bus every write of the program lands, in order. */
  lemma {:induction false} RunHealthy(bus: Oracle, regs0: seq<bv8>, past: seq<Op>, prog: seq<Op>)
    requires |regs0| == REG_COUNT
    requires Healthy(bus)
    ensures Run(bus, regs0, past + prog).regs == Apply(Run(bus, regs0, past).regs, prog)
    decreases |prog|
  {
    if prog != [] {
      var init := prog[..|prog| - 1];
      assert (past + prog)[..|past + prog| - 1] == past + init;
      RunHealthy(bus, regs0, past, init);
      var last := prog[|prog| - 1];
      var mid := Run(bus, regs0, past + init);
      assert Run(bus, regs0, past + prog) == Step(bus, mid, last);
      var o := Retry(bus, mid.attempts, AW_I2C_RETRIES);
      assert bus(mid.attempts + o.used - 1).Ok?;
      assert (past + prog)[|past + prog| - 1] == last;
    } else {
      assert past + prog == past;
    }
  }
}
