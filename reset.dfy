/**
 * Hardware reset sequencing through the optional reset GPIO line
 * (aw9106_hw_reset, aw9106_hw_off and the `hwen` attribute), as the ordered
 * GPIO and delay events the driver emits.
 */
module Reset {
  import opened Maybe

  /** A GPIO level change, or a sleep of the given number of milliseconds. */
  datatype GpioEvent = SetLevel(gpio: int, level: int) | Sleep(ms: nat)

  /** gpio_is_valid: a configured line has a non-negative number. */
  predicate GpioValid(gpio: int) {
    gpio >= 0
  }

  /** aw9106_hw_reset: low, 1 ms, high, 1 ms on a valid line; nothing otherwise. */
  function ResetEvents(gpio: int): (e: seq<GpioEvent>)
    ensures e != [] <==> GpioValid(gpio)
    ensures forall k :: 0 <= k < |e| && e[k].SetLevel? ==> e[k].gpio == gpio
    ensures e != [] ==> |e| == 4 && e[0] == SetLevel(gpio, 0) && e[2] == SetLevel(gpio, 1)
  {
    if GpioValid(gpio) then [SetLevel(gpio, 0), Sleep(1), SetLevel(gpio, 1), Sleep(1)] else []
  }

  /** aw9106_hw_off: low, 1 ms on a valid line; nothing otherwise. */
  function OffEvents(gpio: int): (e: seq<GpioEvent>)
    ensures e != [] <==> GpioValid(gpio)
    ensures forall k :: 0 <= k < |e| && e[k].SetLevel? ==> e[k] == SetLevel(gpio, 0)
  {
    if GpioValid(gpio) then [SetLevel(gpio, 0), Sleep(1)] else []
  }

  /** The `hwen` attribute after parsing: exactly 1 resets the chip, any other value powers it off. */
  function HwenEvents(gpio: int, value: nat): (e: seq<GpioEvent>)
    ensures e != [] <==> GpioValid(gpio)
    ensures forall k :: 0 <= k < |e| && e[k].SetLevel? ==> e[k].gpio == gpio
    ensures value != 1 ==> forall k :: 0 <= k < |e| && e[k].SetLevel? ==> e[k].level == 0
  {
    if value == 1 then ResetEvents(gpio) else OffEvents(gpio)
  }

  /** The level an event sequence leaves on its line: that of its last level change, if any. */
  function FinalLevel(events: seq<GpioEvent>): Option<int>
    decreases |events|
  {
    if events == [] then None
    else if events[|events| - 1].SetLevel? then Some(events[|events| - 1].level)
    else FinalLevel(events[..|events| - 1])
  }

  /**
   * After `hwen`, a valid reset line is left high when the value was 1 and
   * low for any other value; an invalid line is never driven.
   */
  lemma HwenFinalLevel(gpio: int, value: nat)
    ensures FinalLevel(HwenEvents(gpio, value)) ==
      if !GpioValid(gpio) then None else if value == 1 then Some(1) else Some(0)
  {
    var e := HwenEvents(gpio, value);
    if GpioValid(gpio) {
      assert e[..|e| - 1][..|e| - 2] == e[..|e| - 2];
    }
  }
}
