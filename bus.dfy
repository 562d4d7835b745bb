/**
 * The I2C adapter seen by the AW9106 driver: every SMBus transfer attempt is
 * answered by an oracle, and the driver's transport retries a failed transfer
 * up to AW_I2C_RETRIES times (leds-aw9106.c, "aw9106 i2c write/read").
 */
module Bus {

  /** A Linux error code as returned by the SMBus primitives: always negative. */
  type Errno = c: int | c < 0 witness -1

  /** Answer to one transfer attempt: the byte the chip returned, or an error. */
  datatype Reply = Ok(value: bv8) | Err(code: Errno)

  /** The adapter: the answer to the n-th transfer attempt the driver makes. */
  type Oracle = nat -> Reply

  /** AW_I2C_RETRIES: attempts per logical read or write. */
  const AW_I2C_RETRIES: nat := 5

  /** The last reply of a retrying transfer and how many attempts it used. */
  datatype Outcome = Outcome(reply: Reply, used: nat)

  /**
   * A transfer retried at most `left` times, starting with attempt `at`.
   * It stops at the first success; after `left` failures it reports the last
   * error. With no attempt at all the initial `ret = -1` is what remains.
   */
  function Retry(bus: Oracle, at: nat, left: nat): (o: Outcome)
    ensures o.used <= left
    ensures left == 0 ==> o == Outcome(Err(-1), 0)
    ensures left > 0 ==> 1 <= o.used && o.reply == bus(at + o.used - 1)
    ensures left > 0 && o.reply.Err? ==> o.used == left
    decreases left
  {
    if left == 0 then Outcome(Err(-1), 0)
    else if bus(at).Ok? || left == 1 then Outcome(bus(at), 1)
    else
      var rest := Retry(bus, at + 1, left - 1);
      Outcome(rest.reply, rest.used + 1)
  }

  /** Every attempt of a transfer before its last one failed: it stops at the first success. */
  lemma {:induction false} RetryStopsAtSuccess(bus: Oracle, at: nat, left: nat)
    ensures var o := Retry(bus, at, left);
      forall n :: at <= n < at + o.used - 1 ==> bus(n).Err?
    decreases left
  {
    if left > 1 && bus(at).Err? {
      RetryStopsAtSuccess(bus, at + 1, left - 1);
    }
  }

  /** A transfer whose first success is attempt `k` returns that reply after k + 1 attempts. */
  lemma {:induction false} RetryFirstSuccess(bus: Oracle, at: nat, left: nat, k: nat)
    requires k < left
    requires forall n :: at <= n < at + k ==> bus(n).Err?
    requires bus(at + k).Ok?
    ensures Retry(bus, at, left) == Outcome(bus(at + k), k + 1)
    decreases k
  {
    if k > 0 {
      assert bus(at).Err?;
      RetryFirstSuccess(bus, at + 1, left - 1, k - 1);
    }
  }

  /** A transfer whose `left` attempts all fail returns the last error after `left` attempts. */
  lemma {:induction false} RetryAllFail(bus: Oracle, at: nat, left: nat)
    requires 0 < left
    requires forall n :: at <= n < at + left ==> bus(n).Err?
    ensures Retry(bus, at, left) == Outcome(bus(at + left - 1), left)
    decreases left
  {
    if left > 1 {
      assert bus(at).Err?;
      RetryAllFail(bus, at + 1, left - 1);
    }
  }

  /**
   * The retry loop shared by aw9106_i2c_write and aw9106_i2c_read: attempt
   * after attempt from `start`, leaving as soon as one succeeds, at most
   * AW_I2C_RETRIES times. `reply` is what the last attempt returned and
   * `used` how many attempts were made.
   */
  method Transfer(bus: Oracle, start: nat) returns (reply: Reply, used: nat)
    ensures Outcome(reply, used) == Retry(bus, start, AW_I2C_RETRIES)
  {
    reply := Err(-1);
    var cnt: nat := 0;
    while cnt < AW_I2C_RETRIES
      invariant cnt <= AW_I2C_RETRIES
      invariant forall n :: start <= n < start + cnt ==> bus(n).Err?
      invariant cnt > 0 ==> reply == bus(start + cnt - 1)
    {
      reply := bus(start + cnt);
      if reply.Ok? {
        RetryFirstSuccess(bus, start, AW_I2C_RETRIES, cnt);
        used := cnt + 1;
        return;
      }
      cnt := cnt + 1;
    }
    RetryAllFail(bus, start, AW_I2C_RETRIES);
    used := cnt;
  }

  /** Four failures followed by a success are a success: the budget includes the fifth attempt. */
  lemma FifthAttemptCounts(bus: Oracle, at: nat)
    requires forall n :: at <= n < at + 4 ==> bus(n).Err?
    requires bus(at + 4).Ok?
    ensures Retry(bus, at, AW_I2C_RETRIES).reply == bus(at + 4)
    ensures Retry(bus, at, AW_I2C_RETRIES).used == AW_I2C_RETRIES
  {
    RetryFirstSuccess(bus, at, AW_I2C_RETRIES, 4);
  }

  /** The replies of `n` successive logical transfers, the first starting at attempt `at`. */
  function Replies(bus: Oracle, at: nat, n: nat): (rs: seq<Reply>)
    ensures |rs| == n
    decreases n
  {
    if n == 0 then []
    else [Retry(bus, at, AW_I2C_RETRIES).reply] + Replies(bus, at + Retry(bus, at, AW_I2C_RETRIES).used, n - 1)
  }

  /** The first transfer's reply in front of the replies of the rest. */
  lemma RepliesUnfold(bus: Oracle, at: nat, n: nat, o: Outcome, rs': seq<Reply>)
    requires n > 0
    requires o == Retry(bus, at, AW_I2C_RETRIES)
    requires rs' == Replies(bus, at + o.used, n - 1)
    ensures Replies(bus, at, n) == [o.reply] + rs'
  {
  }
}
