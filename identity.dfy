/**
 * The chip-identity check (aw9106_read_chipid): up to
 * AW_READ_CHIPID_RETRIES retrying reads of REG_ID, each compared with AW9106_ID.
 */
module Identity {
  import opened Bus
  import opened Registers

  /** Linux error numbers; the driver returns their negations. */
  const EIO: int := 5
  const EINVAL: int := 22

  /** AW_READ_CHIPID_RETRIES: REG_ID reads before the check gives up. */
  const AW_READ_CHIPID_RETRIES: nat := 5

  /** What the check returns and how many logical REG_ID reads it made. */
  datatype IdOutcome = IdOutcome(ret: int, idReads: nat)

  /** Whether a read reply is a good read of some other chip's identity. */
  predicate Mismatch(r: Reply) {
    r.Ok? && r.value != AW9106_ID
  }

  /** The check with `left` reads to go, the next starting at bus attempt `at`. */
  function Identify(bus: Oracle, at: nat, left: nat): (r: IdOutcome)
    ensures r.idReads <= left
    ensures left > 0 ==> r.idReads > 0
    decreases left
  {
    if left == 0 then IdOutcome(-EINVAL, 0)
    else
      var o := Retry(bus, at, AW_I2C_RETRIES);
      if o.reply.Err? then IdOutcome(-EIO, 1)
      else if o.reply.value == AW9106_ID then IdOutcome(0, 1)
      else
        var rest := Identify(bus, at + o.used, left - 1);
        IdOutcome(rest.ret, rest.idReads + 1)
  }

  /**
   * A check that has made `done` mismatched reads and has `left` to go, the
   * next starting at attempt `at`, ends as `whole`.
   */
  predicate Pending(bus: Oracle, at: nat, left: nat, done: nat, whole: IdOutcome) {
    var rest := Identify(bus, at, left);
    whole == IdOutcome(rest.ret, rest.idReads + done)
  }

  /** A read that fails or returns AW9106_ID ends the check there, with -EIO or 0. */
  lemma IdentifyStops(bus: Oracle, at: nat, left: nat, o: Outcome, done: nat, whole: IdOutcome)
    requires left > 0 && o == Retry(bus, at, AW_I2C_RETRIES) && !Mismatch(o.reply)
    requires Pending(bus, at, left, done, whole)
    ensures whole == IdOutcome(if o.reply.Err? then -EIO else 0, done + 1)
  {
  }

  /** A read of another identity leaves the check pending one read later, at attempt `next`. */
  lemma IdentifyGoesOn(bus: Oracle, at: nat, left: nat, o: Outcome, next: nat, done: nat, whole: IdOutcome)
    requires left > 0 && o == Retry(bus, at, AW_I2C_RETRIES) && Mismatch(o.reply) && next == at + o.used
    requires Pending(bus, at, left, done, whole)
    ensures Pending(bus, next, left - 1, done + 1, whole)
  {
  }

  /** What the check returns when `rs` are the replies it read: the last one decides. */
  function Verdict(rs: seq<Reply>): (ret: int)
    ensures ret == 0 || ret == -EIO || ret == -EINVAL
  {
    if rs == [] then -EINVAL
    else if rs[|rs| - 1].Err? then -EIO
    else if rs[|rs| - 1].value == AW9106_ID then 0
    else -EINVAL
  }

  /**
   * Whether `ret` is what the check returns after the replies `rs` when it
   * had `left` reads to make: it read no more than that, every reply but
   * the last was a mismatch, it stopped early only at a reply that was not
   * one, and the last reply gives the verdict.
   */
  predicate Decided(rs: seq<Reply>, left: nat, ret: int) {
    && |rs| <= left
    && (forall j :: 0 <= j < |rs| - 1 ==> Mismatch(rs[j]))
    && (|rs| < left ==> |rs| > 0 && !Mismatch(rs[|rs| - 1]))
    && ret == Verdict(rs)
  }

  /**
   * The three outcomes of a decided check: 0 exactly when the last reply is
   * AW9106_ID, -EIO exactly when it is a transport failure, and -EINVAL
   * exactly when all `left` reads were made and every one was a mismatch.
   */
  lemma DecidedReturns(rs: seq<Reply>, left: nat, ret: int)
    requires Decided(rs, left, ret)
    ensures ret == 0 <==> |rs| > 0 && rs[|rs| - 1] == Ok(AW9106_ID)
    ensures ret == -EIO <==> |rs| > 0 && rs[|rs| - 1].Err?
    ensures ret == -EINVAL <==> |rs| == left && forall j :: 0 <= j < |rs| ==> Mismatch(rs[j])
  {
    if ret == -EINVAL && rs != [] {
      assert Mismatch(rs[|rs| - 1]);
    }
  }

  /**
   * All replies the check reads but the last are mismatches; the last
   * decides: the expected identity gives 0, a transport failure gives -EIO
   * at once, and running out of reads after nothing but mismatches gives
   * -EINVAL.
   */
  lemma {:induction false} IdentifyDecides(bus: Oracle, at: nat, left: nat)
    ensures var r := Identify(bus, at, left);
      Decided(Replies(bus, at, r.idReads), left, r.ret)
    decreases left, 2
  {
    if left > 0 {
      var o := Retry(bus, at, AW_I2C_RETRIES);
      if Mismatch(o.reply) {
        IdentifyDecidesAfterMismatch(bus, at, left);
      } else {
        assert Replies(bus, at, Identify(bus, at, left).idReads) == [o.reply];
      }
    }
  }

  /** The case of IdentifyDecides where the first read is a mismatch and the check goes on. */
  lemma {:induction false} IdentifyDecidesAfterMismatch(bus: Oracle, at: nat, left: nat)
    requires left > 0
    requires Mismatch(Retry(bus, at, AW_I2C_RETRIES).reply)
    ensures var r := Identify(bus, at, left);
      Decided(Replies(bus, at, r.idReads), left, r.ret)
    decreases left, 1
  {
    var o := Retry(bus, at, AW_I2C_RETRIES);
    var rest := Identify(bus, at + o.used, left - 1);
    IdentifyMismatchUnfold(bus, at, left, o, rest);
    DecidedAfterMismatch(bus, at, left, o, rest);
  }

  /** The replies after a mismatch decide the rest of the check, so with the mismatch in front they decide it all. */
  lemma {:induction false} DecidedAfterMismatch(bus: Oracle, at: nat, left: nat, o: Outcome, rest: IdOutcome)
    requires left > 0 && o == Retry(bus, at, AW_I2C_RETRIES) && Mismatch(o.reply)
    requires rest == Identify(bus, at + o.used, left - 1)
    ensures Decided(Replies(bus, at, rest.idReads + 1), left, rest.ret)
    decreases left, 0
  {
    var first, next := o.reply, at + o.used;
    var tail := Replies(bus, next, rest.idReads);
    RepliesUnfold(bus, at, rest.idReads + 1, o, tail);
    IdentifyDecides(bus, next, left - 1);
    DecidedCons(first, tail, left, rest.ret, Replies(bus, at, rest.idReads + 1));
  }

  /** After a mismatch the check is the rest of the check, one read longer. */
  lemma IdentifyMismatchUnfold(bus: Oracle, at: nat, left: nat, o: Outcome, rest: IdOutcome)
    requires left > 0 && o == Retry(bus, at, AW_I2C_RETRIES) && Mismatch(o.reply)
    requires rest == Identify(bus, at + o.used, left - 1)
    ensures Identify(bus, at, left) == IdOutcome(rest.ret, rest.idReads + 1)
  {
  }

  /** A mismatch in front of replies that decide the rest of the check decides the whole check. */
  lemma DecidedCons(first: Reply, tail: seq<Reply>, left: nat, ret: int, rs: seq<Reply>)
    requires Mismatch(first)
    requires 0 < left
    requires Decided(tail, left - 1, ret)
    requires rs == [first] + tail
    ensures Decided(rs, left, ret)
  {
    assert forall j :: 1 <= j < |rs| ==> rs[j] == tail[j - 1];
    if tail == [] {
      assert rs == [first];
    } else {
      assert rs[|rs| - 1] == tail[|tail| - 1];
      assert Verdict(rs) == Verdict(tail);
    }
  }

  /** The replies of the first m reads are a prefix of the replies of the first n. */
  lemma {:induction false} RepliesPrefix(bus: Oracle, at: nat, m: nat, n: nat)
    requires m <= n
    ensures Replies(bus, at, m) == Replies(bus, at, n)[..m]
    decreases m
  {
    if m > 0 {
      var o := Retry(bus, at, AW_I2C_RETRIES);
      RepliesPrefix(bus, at + o.used, m - 1, n - 1);
    }
  }

  /**
   * The check succeeds exactly when, among the replies of five consecutive
   * REG_ID reads, some reply is AW9106_ID and every earlier one is a good
   * read of a different value.
   */
  lemma IdentifySucceedsIff(bus: Oracle, at: nat)
    ensures var rs := Replies(bus, at, AW_READ_CHIPID_RETRIES);
      Identify(bus, at, AW_READ_CHIPID_RETRIES).ret == 0 <==>
        exists k :: 0 <= k < AW_READ_CHIPID_RETRIES && rs[k] == Ok(AW9106_ID) &&
          forall j :: 0 <= j < k ==> Mismatch(rs[j])
  {
    var r := Identify(bus, at, AW_READ_CHIPID_RETRIES);
    var rs := Replies(bus, at, AW_READ_CHIPID_RETRIES);
    IdentifyDecides(bus, at, AW_READ_CHIPID_RETRIES);
    DecidedReturns(Replies(bus, at, r.idReads), AW_READ_CHIPID_RETRIES, r.ret);
    RepliesPrefix(bus, at, r.idReads, AW_READ_CHIPID_RETRIES);
    var seen := Replies(bus, at, r.idReads);
    assert forall j :: 0 <= j < r.idReads ==> seen[j] == rs[j];
    if r.ret == 0 {
      assert rs[r.idReads - 1] == Ok(AW9106_ID);
    } else {
      forall k | 0 <= k < AW_READ_CHIPID_RETRIES && rs[k] == Ok(AW9106_ID)
        ensures exists j :: 0 <= j < k && !Mismatch(rs[j])
      {
        assert k >= r.idReads - 1 ==> !Mismatch(rs[r.idReads - 1]);
        assert r.idReads - 1 < k;
      }
    }
  }
}
