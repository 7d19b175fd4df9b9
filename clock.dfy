/**
 Time of day as the switch sees it: the local hour and minute that
 `localtime_r` yields, and the HHMM integer (hour * 100 + minute) the
 control loop compares against the schedule window.
 */
module Clock {

  /** The two fields of `struct tm` the control loop reads. */
  datatype LocalTime = LocalTime(hour: int, minute: int)

  /** The ranges `localtime_r` guarantees for `tm_hour` and `tm_min`. */
  predicate ValidTime(t: LocalTime) {
    0 <= t.hour <= 23 && 0 <= t.minute <= 59
  }

  /** Strict chronological order of two times on the same day. */
  predicate Before(a: LocalTime, b: LocalTime) {
    a.hour < b.hour || (a.hour == b.hour && a.minute < b.minute)
  }

  /** Splits an HHMM integer back into its hour and minute parts. */
  function Decode(hhmm: int): (t: LocalTime)
    ensures 0 <= t.minute < 100
    ensures 0 <= hhmm ==> 0 <= t.hour
  {
    LocalTime(hhmm / 100, hhmm % 100)
  }

  /**
   The HHMM encoding of a sampled time. For every time `localtime_r` can
   produce the result is a four-digit clock reading: it lies in [0, 2359]
   and decodes back to the same hour and minute. In that range the C `int`
   arithmetic cannot overflow, so unbounded integers model it exactly.
   */
  function Encode(t: LocalTime): (hhmm: int)
    ensures ValidTime(t) ==> 0 <= hhmm <= 2359
    ensures ValidTime(t) ==> hhmm / 100 == t.hour && hhmm % 100 == t.minute
    ensures ValidTime(t) ==> Decode(hhmm) == t
  {
    t.hour * 100 + t.minute
  }

  /**
   Comparing HHMM integers is comparing clock readings: for any integer `n`
   and any time with a valid minute, `n < Encode(t)` exactly when the
   clock reading that `n` decodes to comes strictly before `t`.
   */
  lemma LessIsBefore(n: int, t: LocalTime)
    requires 0 <= t.minute <= 59
    ensures n < Encode(t) <==> Before(Decode(n), t)
    ensures Encode(t) < n <==> Before(t, Decode(n))
  {
  }

  /** On valid times, HHMM order and chronological order agree. */
  lemma EncodeMonotone(a: LocalTime, b: LocalTime)
    requires ValidTime(a) && ValidTime(b)
    ensures Encode(a) < Encode(b) <==> Before(a, b)
    ensures Encode(a) == Encode(b) <==> a == b
  {
  }
}
