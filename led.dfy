/**
 * The LED value type of ledsrv.h: an on/off flag, one of three colours and a
 * blink rate, compared field by field.
 */
module Led {

  /** LedColor of ledsrv.h. */
  datatype LedColor = Red | Green | Blue

  /**
   * LedState of ledsrv.h. `on` is the source's `state` field. The source's
   * `rate` is an `unsigned`; the only values ever stored are the initial 1
   * and what set-led-rate accepts (1..5), so a `nat` needs no wrap-around.
   */
  datatype LedState = LedState(on: bool, color: LedColor, rate: nat)

  /** Smallest and largest blink rate set-led-rate accepts. */
  const MinRate: nat := 1
  const MaxRate: nat := 5

  /** The value the authoritative state has when the server starts: off, red, rate 1. */
  const Initial: LedState := LedState(false, Red, 1)

  /** The range the server keeps the rate in. */
  predicate ValidLed(led: LedState) {
    MinRate <= led.rate <= MaxRate
  }

  /** operator== of ledsrv.cpp: the three fields compared one by one. */
  function SameLed(a: LedState, b: LedState): (r: bool)
    ensures r <==> a == b
  {
    a.on == b.on && a.color == b.color && a.rate == b.rate
  }

}
