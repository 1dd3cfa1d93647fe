/** The arguments of the readiness wait in main.c's inner loop: the engine's
    millisecond timeout suggestion turned into a `struct timeval`, and the
    descriptor count handed to `select`. */
module Readiness {
  import opened CTypes

  const MicrosPerSecond: int := 1_000_000
  const MicrosPerMilli: int := 1_000
  const MillisPerSecond: int := 1_000

  /** `struct timeval { tv_sec; tv_usec; }` */
  datatype Timeval = Timeval(sec: int, usec: int)

  /** `struct timeval t = { 0, 1000 };`: one millisecond. */
  const DefaultWait: Timeval := Timeval(0, 1_000)

  /** Length of an interval in microseconds. */
  function Micros(t: Timeval): int {
    t.sec * MicrosPerSecond + t.usec
  }

  /** A timeval in normal form: non-negative seconds and a microsecond part
      below one second. */
  predicate Normalized(t: Timeval) {
    t.sec >= 0 && 0 <= t.usec < MicrosPerSecond
  }

  /** The wait for an engine suggestion `maxTime` in milliseconds: that many
      milliseconds when positive; one millisecond when the engine suggests
      no wait (0) or has no timeout (-1). */
  function WaitFor(maxTime: Long): (t: Timeval)
    ensures Normalized(t)
    ensures maxTime > 0 ==> Micros(t) == maxTime * MicrosPerMilli
    ensures maxTime <= 0 ==> t == DefaultWait
  {
    if maxTime > 0 then
      Timeval(CDiv(maxTime, MillisPerSecond), CRem(maxTime, MillisPerSecond) * MicrosPerMilli)
    else DefaultWait
  }

  /** The computed wait is never shorter than one millisecond, so the loop
      never polls with a zero timeout. */
  lemma WaitAtLeastOneMilli(maxTime: Long)
    ensures Micros(WaitFor(maxTime)) >= MicrosPerMilli
  {
  }

  /** Reading the wait back in milliseconds recovers a positive suggestion. */
  lemma WaitRoundTrip(maxTime: Long)
    requires maxTime > 0
    ensures Micros(WaitFor(maxTime)) / MicrosPerMilli == maxTime
  {
  }

  /** Every normalized whole-millisecond interval of at least one
      millisecond is the wait for its own length. */
  lemma WaitForMillisOf(t: Timeval)
    requires Normalized(t) && t.usec % MicrosPerMilli == 0 && Micros(t) >= MicrosPerMilli
    requires Micros(t) / MicrosPerMilli < 0x8000_0000_0000_0000
    ensures WaitFor(Micros(t) / MicrosPerMilli) == t
  {
    var m := Micros(t) / MicrosPerMilli;
    assert m == t.sec * MillisPerSecond + t.usec / MicrosPerMilli;
  }

  /** How the loop waits for readiness: not at all, or `select(nfds, ...)`
      bounded by a timeout. */
  datatype Wait = NoWait | Select(nfds: int, timeout: Timeval)

  /** `select(nfds, ...)` examines the descriptors 0 .. nfds - 1. */
  predicate Watches(w: Wait, fd: int) {
    w.Select? && 0 <= fd < w.nfds
  }

  /** The wait as written: `select(maxFD, ...)` when `maxFD > 0`, where
      `maxFD` is what `curl_multi_fdset` reports (the highest descriptor
      the engine uses, or -1 when it uses none). */
  function WaitAsWritten(maxFD: int, maxTime: Long): (w: Wait)
    ensures w.Select? <==> maxFD > 0
    ensures w.Select? ==> w.nfds == maxFD && w.timeout == WaitFor(maxTime)
  {
    if maxFD > 0 then Select(maxFD, WaitFor(maxTime)) else NoWait
  }

  /** As written, the highest descriptor the engine reported is never among
      those `select` examines, and with no descriptor above 0 the loop does
      not wait at all. */
  lemma AsWrittenMissesHighestDescriptor(maxFD: int, maxTime: Long)
    ensures !Watches(WaitAsWritten(maxFD, maxTime), maxFD)
    ensures maxFD <= 0 ==> WaitAsWritten(maxFD, maxTime) == NoWait
  {
  }

  /** One transfer on descriptor 5 with a 200 ms engine timeout: `select`
      watches descriptors 0..4, so readiness of the transfer's socket goes
      unseen and the wait always runs for the full 200 ms. */
  lemma SoleSocketUnwatched()
    ensures WaitAsWritten(5, 200) == Select(5, Timeval(0, 200_000))
    ensures !Watches(WaitAsWritten(5, 200), 5)
  {
  }

  /** The wait as evidently intended: `select(maxFD + 1, ...)` whenever the
      engine reports any descriptor, descriptor 0 included. */
  function WaitCorrected(maxFD: int, maxTime: Long): (w: Wait)
    ensures w.Select? <==> maxFD >= 0
    ensures w.Select? ==> w.nfds == maxFD + 1 && w.timeout == WaitFor(maxTime)
  {
    if maxFD >= 0 then Select(maxFD + 1, WaitFor(maxTime)) else NoWait
  }

  /** The corrected wait examines exactly the descriptors 0 .. maxFD. */
  lemma CorrectedWatchesReportedDescriptors(maxFD: int, maxTime: Long, fd: int)
    ensures Watches(WaitCorrected(maxFD, maxTime), fd) <==> 0 <= fd <= maxFD
  {
  }
}
