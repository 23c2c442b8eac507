/** The clock of a search as an input: what each of its readings shows. */
module Clocks {
  /** `elapsed(k)` is the time that reading number `k` shows; a search gives up on a reading past the limit. */
  datatype Clock = Clock(elapsed: nat -> real, limit: real) {
    predicate Past(k: nat) {
      elapsed(k) > limit
    }
  }

  /** None of the readings from `from` up to `to` is past the limit. */
  ghost predicate InTime(clock: Clock, from: nat, to: nat) {
    forall k: nat :: from <= k < to ==> !clock.Past(k)
  }
}
