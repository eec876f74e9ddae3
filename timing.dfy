/** The animation timer (class `Timer` in main.py): a single deadline that
    fires once the clock has passed it and then re-arms itself. The clock is
    not read here; each poll is given the current time `now` in milliseconds,
    read once per poll. */
module Timing {

  /** What one poll yields: whether the deadline was passed, and the deadline afterwards. */
  datatype Poll = Poll(reached: bool, next: int)

  /** One poll of the deadline `next` at time `now`. */
  function PollAt(next: int, duraton: int, now: int): (r: Poll)
  {
    if now > next then Poll(true, now + duraton) else Poll(false, next)
  }

  class Timer {
    const duraton: int
    var next: int

    /** With `withStart` the first poll after `now` fires; otherwise the
        first firing waits a whole interval. */
    constructor(now: int, duraton: int, withStart: bool := true)
      ensures this.duraton == duraton
      ensures next == if withStart then now else now + duraton
    {
      this.duraton := duraton;
      if withStart {
        next := now;
      } else {
        next := now + duraton;
      }
    }

    /** Fires exactly when `now` is past the deadline; a firing moves the
        deadline to `duraton` after `now`, and no firing leaves it alone. */
    method IsNextStopReached(now: int) returns (reached: bool)
      modifies this`next
      ensures reached <==> now > old(next)
      ensures next == if reached then now + duraton else old(next)
      ensures Poll(reached, next) == PollAt(old(next), duraton, now)
    {
      if now > next {
        next := now + duraton;
        return true;
      }
      return false;
    }
  }

  /** Which of a series of polls, at the given times, fire, starting from deadline `next`. */
  function Firings(next: int, duraton: int, times: seq<int>): (r: seq<bool>)
    ensures |r| == |times|
    decreases |times|
  {
    if times == [] then []
    else
      var p := PollAt(next, duraton, times[0]);
      [p.reached] + Firings(p.next, duraton, times[1..])
  }

  /** A poll never fires at or before the deadline the series started from. */
  lemma {:induction false} FiresOnlyPastDeadline(next: int, duraton: int, times: seq<int>, j: nat)
    requires duraton >= 0
    requires j < |times| && Firings(next, duraton, times)[j]
    ensures times[j] > next
    decreases j
  {
    var p := PollAt(next, duraton, times[0]);
    if j > 0 {
      assert Firings(p.next, duraton, times[1..])[j - 1];
      FiresOnlyPastDeadline(p.next, duraton, times[1..], j - 1);
      assert times[1..][j - 1] == times[j];
    }
  }

  /** Two firings are more than one interval apart, whatever the poll times:
      the animation never advances faster than once per `duraton`. */
  lemma {:induction false} FiringsSpaced(next: int, duraton: int, times: seq<int>, i: nat, j: nat)
    requires duraton >= 0
    requires i < j < |times|
    requires Firings(next, duraton, times)[i] && Firings(next, duraton, times)[j]
    ensures times[j] > times[i] + duraton
    decreases i
  {
    var p := PollAt(next, duraton, times[0]);
    var rest := Firings(p.next, duraton, times[1..]);
    assert rest[j - 1] && times[1..][j - 1] == times[j];
    if i == 0 {
      FiresOnlyPastDeadline(p.next, duraton, times[1..], j - 1);
    } else {
      assert rest[i - 1] && times[1..][i - 1] == times[i];
      FiringsSpaced(p.next, duraton, times[1..], i - 1, j - 1);
    }
  }
}
