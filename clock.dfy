/**
  The wall clock the clients read and the sleeps they request, in integer milliseconds.
  Sleeping advances the clock by exactly the requested amount and records the request.
 */
module Clocks {

  class Clock {
    /** The current time, as `time.time()` would report it, in milliseconds. */
    var now: int
    /** Every sleep requested so far, in order, in milliseconds. */
    var sleeps: seq<int>
    /** The time at which the clock was created. */
    ghost const start: int

    /** Time passes only by sleeping. */
    ghost predicate Valid()
      reads this
    {
      now == start + Total(sleeps)
    }

    constructor(t: int)
      ensures Valid() && now == t && start == t && sleeps == []
    {
      now := t;
      start := t;
      sleeps := [];
    }

    /** `time.sleep(ms / 1000)`. */
    method Sleep(ms: int)
      requires Valid() && ms >= 0
      modifies this
      ensures Valid()
      ensures now == old(now) + ms
      ensures sleeps == old(sleeps) + [ms]
    {
      TotalSnoc(sleeps, ms);
      now := now + ms;
      sleeps := sleeps + [ms];
    }
  }

  /** The time a sequence of sleeps takes altogether. */
  function Total(sleeps: seq<int>): int {
    if sleeps == [] then 0 else Total(sleeps[..|sleeps| - 1]) + sleeps[|sleeps| - 1]
  }

  lemma TotalSnoc(sleeps: seq<int>, ms: int)
    ensures Total(sleeps + [ms]) == Total(sleeps) + ms
  {
    assert (sleeps + [ms])[..|sleeps|] == sleeps;
  }
}
