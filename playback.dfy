/** Timing shared by the six playback controllers. */
module Playback {

  /** Bounds of the speed slider, the same on every page. */
  const MinSpeed := 1
  const MaxSpeed := 1000

  /** The `setTimeout` delay `1100 - speed` in milliseconds before the next tick fires:
      on the slider's range it stays within 100..1099,
      a faster speed giving a shorter wait. */
  function Delay(speed: int): (d: int)
    ensures MinSpeed <= speed <= MaxSpeed ==> 100 <= d <= 1099
  {
    1100 - speed
  }
}
