/** The injected clock, read as a natural number of ticks. */
module Clock {
  /** Time since `started`, never negative. */
  function Elapsed(now: nat, started: nat): nat {
    if now <= started then 0 else now - started
  }
}
