/**
 * The diagnostic dump behind the `reg` attribute (aw9106_reg_show): one
 * retrying read per readable register, each reported with the byte read, or
 * with the previous value when the read failed.
 */
module Dump {
  import opened Bus
  import opened Registers
  import opened Chip

  /** One logical read per address, in order. */
  function ReadOps(addrs: seq<Addr>): (p: seq<Op>)
    ensures |p| == |addrs|
    ensures forall k :: 0 <= k < |p| ==> p[k] == Read(addrs[k])
  {
    seq(|addrs|, k requires 0 <= k < |addrs| => Read(addrs[k]))
  }

  /**
   * The (register, value) pairs reported for `addrs`, the first read starting
   * at bus attempt `at`; `carry` is the value left in `reg_val` so far.
   */
  function DumpPairs(bus: Oracle, at: nat, addrs: seq<Addr>, carry: bv8): (d: seq<(Addr, bv8)>)
    ensures |d| == |addrs|
    decreases |addrs|
  {
    if addrs == [] then []
    else
      [(addrs[0], Carry(Retry(bus, at, AW_I2C_RETRIES).reply, carry))]
      + DumpPairs(bus, at + Retry(bus, at, AW_I2C_RETRIES).used, addrs[1..], Carry(Retry(bus, at, AW_I2C_RETRIES).reply, carry))
  }

  /** The value `reg_val` holds after a read: the byte read, or what it held before when the read failed. */
  function Carry(r: Reply, carry: bv8): (v: bv8)
    ensures r.Ok? ==> v == r.value
    ensures r.Err? ==> v == carry
  {
    if r.Ok? then r.value else carry
  }

  /** Whether the pairs of `d` name the addresses `addrs`, in order. */
  predicate Names(d: seq<(Addr, bv8)>, addrs: seq<Addr>) {
    |d| == |addrs| && forall k :: 0 <= k < |d| ==> d[k].0 == addrs[k]
  }

  /** Each pair names its register, in the order given. */
  lemma {:induction false} DumpPairsNames(bus: Oracle, at: nat, addrs: seq<Addr>, carry: bv8)
    ensures Names(DumpPairs(bus, at, addrs, carry), addrs)
    decreases |addrs|
  {
    if addrs != [] {
      var a, rest := addrs[0], addrs[1..];
      assert addrs == [a] + rest;
      var o := Retry(bus, at, AW_I2C_RETRIES);
      var v := Carry(o.reply, carry);
      var d' := DumpPairs(bus, at + o.used, rest, v);
      DumpPairsNames(bus, at + o.used, rest, v);
      DumpPairsUnfold(bus, at, addrs, carry, o, v, d');
      NamesCons(a, rest, v, d');
    }
  }

  lemma NamesCons(a: Addr, rest: seq<Addr>, v: bv8, d: seq<(Addr, bv8)>)
    requires Names(d, rest)
    ensures Names([(a, v)] + d, [a] + rest)
  {
    assert forall k :: 1 <= k < |rest| + 1 ==> ([(a, v)] + d)[k] == d[k - 1] && ([a] + rest)[k] == rest[k - 1];
  }

  /**
   * Whether the values of `d` are those the replies `rs` report: the byte a
   * read returned, or, when it failed, the value before it (`carry` first).
   */
  predicate Reports(d: seq<(Addr, bv8)>, rs: seq<Reply>, carry: bv8)
    requires |d| == |rs|
  {
    forall k {:trigger rs[k]} :: 0 <= k < |d| ==>
      d[k].1 == if rs[k].Ok? then rs[k].value else if k == 0 then carry else d[k - 1].1
  }

  /** Prepending one reported pair to pairs reported from its value on. */
  lemma ReportsCons(p: (Addr, bv8), r: Reply, d: seq<(Addr, bv8)>, rs: seq<Reply>, carry: bv8)
    requires |d| == |rs|
    requires p.1 == if r.Ok? then r.value else carry
    requires Reports(d, rs, p.1)
    ensures Reports([p] + d, [r] + rs, carry)
  {
    var d', rs' := [p] + d, [r] + rs;
    forall k | 1 <= k < |d'|
      ensures d'[k].1 == if rs'[k].Ok? then rs'[k].value else d'[k - 1].1
    {
      assert d'[k] == d[k - 1] && rs'[k] == rs[k - 1];
      assert d[k - 1].1 == if rs[k - 1].Ok? then rs[k - 1].value else if k - 1 == 0 then p.1 else d[k - 2].1;
      if k > 1 {
        assert d'[k - 1] == d[k - 2];
      }
    }
  }

  /**
   * Each value of the dump is the byte that register's read returned or,
   * when that read failed after all its retries, the value reported before
   * it (`carry` for the first).
   */
  lemma {:induction false} DumpPairsReport(bus: Oracle, at: nat, addrs: seq<Addr>, carry: bv8)
    ensures Reports(DumpPairs(bus, at, addrs, carry), Replies(bus, at, |addrs|), carry)
    decreases |addrs|
  {
    if addrs != [] {
      var o := Retry(bus, at, AW_I2C_RETRIES);
      var v := if o.reply.Ok? then o.reply.value else carry;
      DumpPairsReport(bus, at + o.used, addrs[1..], v);
      DumpPairsReportStep(bus, at, addrs, carry, o, v);
    }
  }

  /** The inductive step of DumpPairsReport: the first read in front of a dump that reports its replies. */
  lemma DumpPairsReportStep(bus: Oracle, at: nat, addrs: seq<Addr>, carry: bv8, o: Outcome, v: bv8)
    requires addrs != []
    requires o == Retry(bus, at, AW_I2C_RETRIES)
    requires v == if o.reply.Ok? then o.reply.value else carry
    requires Reports(DumpPairs(bus, at + o.used, addrs[1..], v), Replies(bus, at + o.used, |addrs[1..]|), v)
    ensures Reports(DumpPairs(bus, at, addrs, carry), Replies(bus, at, |addrs|), carry)
  {
    var d' := DumpPairs(bus, at + o.used, addrs[1..], v);
    var rs' := Replies(bus, at + o.used, |addrs[1..]|);
    DumpPairsUnfold(bus, at, addrs, carry, o, v, d');
    RepliesUnfold(bus, at, |addrs|, o, rs');
    ReportsCons((addrs[0], v), o.reply, d', rs', carry);
  }

  lemma DumpPairsUnfold(bus: Oracle, at: nat, addrs: seq<Addr>, carry: bv8, o: Outcome, v: bv8, d': seq<(Addr, bv8)>)
    requires addrs != []
    requires o == Retry(bus, at, AW_I2C_RETRIES)
    requires v == if o.reply.Ok? then o.reply.value else carry
    requires d' == DumpPairs(bus, at + o.used, addrs[1..], v)
    ensures DumpPairs(bus, at, addrs, carry) == [(addrs[0], v)] + d'
  {
  }

  /**
   * One readable register of the dump's walk: once its read is issued, the
   * pairs reported so far followed by the rest of the walk are still the
   * whole dump.
   */
  lemma DumpStep(bus: Oracle, at: nat, i: Addr, rest: seq<Addr>, prev: bv8, v: bv8, o: Outcome,
                 dump: seq<(Addr, bv8)>, whole: seq<(Addr, bv8)>, next: nat)
    requires o == Retry(bus, at, AW_I2C_RETRIES)
    requires v == if o.reply.Ok? then o.reply.value else prev
    requires next == at + o.used
    requires dump + DumpPairs(bus, at, [i] + rest, prev) == whole
    ensures (dump + [(i, v)]) + DumpPairs(bus, next, rest, v) == whole
  {
    var d' := DumpPairs(bus, next, rest, v);
    assert ([i] + rest)[1..] == rest;
    DumpPairsUnfold(bus, at, [i] + rest, prev, o, v, d');
    assert (dump + [(i, v)]) + d' == dump + ([(i, v)] + d');
  }

  /** Reading readable register `i` extends the log of the walk's reads by one. */
  lemma ReadLogStep(pre: seq<Op>, i: nat)
    requires i < AW9106_REG_MAX && Readable(i)
    ensures (pre + ReadOps(ReadableBelow(i))) + [Read(i)] == pre + ReadOps(ReadableBelow(i + 1))
  {
    ReadableBelowStep(i);
    var before := ReadOps(ReadableBelow(i));
    assert ReadOps(ReadableBelow(i + 1)) == before + [Read(i)];
    assert (pre + before) + [Read(i)] == pre + (before + [Read(i)]);
  }

  /** At the end of the table the walk has logged the reads of the whole dump order and reported the whole dump. */
  lemma WalkEnd(bus: Oracle, pre: seq<Op>, log: seq<Op>, dump: seq<(Addr, bv8)>, whole: seq<(Addr, bv8)>, at: nat, v: bv8)
    requires log == pre + ReadOps(ReadableBelow(AW9106_REG_MAX))
    requires dump + DumpPairs(bus, at, ReadableFrom(AW9106_REG_MAX), v) == whole
    ensures log == pre + ReadOps(ReadableFrom(0))
    ensures dump == whole
  {
    ReadableBelowAll();
    assert dump + DumpPairs(bus, at, ReadableFrom(AW9106_REG_MAX), v) == dump;
  }

  /** On a bus that never fails, every pair reports the byte its own read returned. */
  lemma DumpOnHealthyBus(bus: Oracle, at: nat, addrs: seq<Addr>, carry: bv8)
    requires Healthy(bus)
    ensures var d := DumpPairs(bus, at, addrs, carry);
      var rs := Replies(bus, at, |addrs|);
      |d| == |addrs| && forall k :: 0 <= k < |d| ==> rs[k].Ok? && d[k] == (addrs[k], rs[k].value)
  {
    DumpPairsReport(bus, at, addrs, carry);
    DumpPairsNames(bus, at, addrs, carry);
    HealthyReplies(bus, at, |addrs|);
  }

  /** On a bus that never fails, every logical transfer succeeds. */
  lemma {:induction false} HealthyReplies(bus: Oracle, at: nat, n: nat)
    requires Healthy(bus)
    ensures forall k :: 0 <= k < n ==> Replies(bus, at, n)[k].Ok?
    decreases n
  {
    if n > 0 {
      var o := Retry(bus, at, AW_I2C_RETRIES);
      assert bus(at + o.used - 1).Ok?;
      HealthyReplies(bus, at + o.used, n - 1);
      var rs := Replies(bus, at, n);
      assert forall k :: 1 <= k < n ==> rs[k] == Replies(bus, at + o.used, n - 1)[k - 1];
    }
  }
}
