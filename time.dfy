// Deadline arithmetic on (seconds, nanoseconds) pairs
// (src/lmqtt_time.c). The clock, `get_time` in the source, is a
// parameter: every operation that reads it is given the reading `now`.

module Time {
  const NSECS_PER_SEC: int := 1_000_000_000

  /** A clock reading or a duration: seconds plus nanoseconds. */
  datatype Time = Time(secs: int, nsecs: int)

  /** The nanoseconds part is a proper fraction of a second. */
  predicate Normalised(t: Time) {
    0 <= t.nsecs < NSECS_PER_SEC
  }

  function Nanos(t: Time): int {
    t.secs * NSECS_PER_SEC + t.nsecs
  }

  /** The out-parameters of lmqtt_time_get_timeout_to: whether a timeout
      is armed (the return value) and how long is left. */
  datatype Timeout = Timeout(armed: bool, left: Time)

  /** The time left until `when` seconds after `tm`, as seen at `now`. */
  function GetTimeoutTo(tm: Time, now: Time, when: int): (r: Timeout)
    ensures when == 0 <==> !r.armed
    ensures when == 0 ==> r.left == Time(0, 0)
    // For normalised readings the time left is the distance from `now` to
    // the deadline, clamped at zero, and is normalised itself: a deadline
    // that is now or already past leaves (0, 0).
    ensures Normalised(tm) && Normalised(now) && when != 0 ==>
      var deadline := Time(tm.secs + when, tm.nsecs);
      && Normalised(r.left) && r.left.secs >= 0
      && Nanos(r.left) == (if Nanos(deadline) > Nanos(now) then Nanos(deadline) - Nanos(now) else 0)
      && (Nanos(deadline) <= Nanos(now) ==> r.left == Time(0, 0))
  {
    if when == 0 then Timeout(false, Time(0, 0))
    else
      var tmoSecs := tm.secs + when;
      var tmoNsecs := tm.nsecs;
      var (tmoSecs, tmoNsecs) :=
        if tmoNsecs < now.nsecs then (tmoSecs - 1, tmoNsecs + NSECS_PER_SEC)
        else (tmoSecs, tmoNsecs);
      if now.secs <= tmoSecs then Timeout(true, Time(tmoSecs - now.secs, tmoNsecs - now.nsecs))
      else Timeout(true, Time(0, 0))
  }

  /** lmqtt_time_t: a clock reading that `touch` overwrites in place. */
  class Stamp {
    var secs: int
    var nsecs: int

    function Value(): Time
      reads this
    {
      Time(secs, nsecs)
    }

    /** A zeroed reading, as `memset` leaves it: never touched. */
    constructor ()
      ensures Value() == Time(0, 0)
    {
      secs := 0;
      nsecs := 0;
    }

    /** lmqtt_time_touch: record the current clock reading. */
    method Touch(now: Time)
      modifies this
      ensures Value() == now
    {
      secs := now.secs;
      nsecs := now.nsecs;
    }
  }
}
