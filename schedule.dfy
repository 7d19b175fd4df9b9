/**
 The schedule decision: one daily window, given by its ON and OFF times in
 HHMM form, and the relay level the control loop derives from the current
 HHMM reading.
 */
module Schedule {
  import opened Clock

  /** The build-time constants `CONFIG_ON_TIME` and `CONFIG_OFF_TIME`. Nothing validates them. */
  datatype Window = Window(onTime: int, offTime: int)

  /** Relay levels: the C expression yields an `int`, 1 for ON and 0 for OFF. */
  const OFF: int := 0
  const ON: int := 1

  /**
   The relay level for the HHMM reading `now`. Both bounds are exclusive,
   and a window whose ON time is not before its OFF time (an empty window,
   or one meant to cross midnight) keeps the relay OFF all day.
   */
  function RelayState(w: Window, now: int): (s: int)
    ensures s == OFF || s == ON
    ensures s == ON <==> w.onTime < now && now < w.offTime
    ensures now == w.onTime || now == w.offTime ==> s == OFF
    ensures w.onTime >= w.offTime ==> s == OFF
  {
    if w.onTime < now && now < w.offTime then ON else OFF
  }

  /**
   The decision read on the clock: for a valid sampled time `t` the relay is
   ON exactly when `t` comes strictly after the ON time and strictly before
   the OFF time, each decoded to an hour and a minute.
   */
  lemma OnExactlyBetween(w: Window, t: LocalTime)
    requires ValidTime(t)
    ensures RelayState(w, Encode(t)) == ON <==>
              Before(Decode(w.onTime), t) && Before(t, Decode(w.offTime))
  {
  }

  /**
   A window intended to run across midnight, such as 22:00 to 06:00, is never
   ON: neither late in the evening nor early in the morning.
   */
  lemma CrossingMidnightNeverOn(w: Window, t: LocalTime)
    requires w.offTime <= w.onTime
    requires ValidTime(t)
    ensures !(Before(Decode(w.onTime), t) && Before(t, Decode(w.offTime)))
    ensures RelayState(w, Encode(t)) == OFF
  {
    OnExactlyBetween(w, t);
  }

  /** The worked cases for the window 08:00 to 20:00. */
  lemma DaytimeWindowCases()
    ensures RelayState(Window(800, 2000), Encode(LocalTime(7, 59))) == OFF
    ensures RelayState(Window(800, 2000), Encode(LocalTime(8, 0))) == OFF
    ensures RelayState(Window(800, 2000), Encode(LocalTime(8, 1))) == ON
    ensures RelayState(Window(800, 2000), Encode(LocalTime(19, 59))) == ON
    ensures RelayState(Window(800, 2000), Encode(LocalTime(20, 0))) == OFF
    ensures RelayState(Window(800, 2000), Encode(LocalTime(20, 1))) == OFF
  {
  }
}
