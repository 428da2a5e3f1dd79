/** Expiration arithmetic. Instants are whole microseconds since the Unix epoch, UTC,
    which is the resolution of Python's `datetime`; a certificate's "not valid after"
    field (RFC 5280, section 4.1.2.5) has whole-second resolution and is UTC. */
module Expiry {

  const MicrosPerSecond: int := 1_000_000
  const SecondsPerDay: int := 86_400
  const MicrosPerDay: int := 86_400_000_000

  /** `get_expiration_date`: the certificate's "not valid after" instant, given in whole
      seconds, taken as a UTC instant. */
  function ExpirationInstant(notAfterSecs: int): (t: int)
    ensures t % MicrosPerSecond == 0 && t / MicrosPerSecond == notAfterSecs
  {
    notAfterSecs * 1_000_000
  }

  /** `(exp_date - now).days`: Python normalises a time difference so that its seconds
      and microseconds are non-negative, which makes `.days` the floor of the difference
      in days. Dafny's `/` by a positive divisor is that floor. */
  function DaysLeft(expiry: int, now: int): (d: int)
    ensures d * MicrosPerDay <= expiry - now < d * MicrosPerDay + MicrosPerDay
  {
    (expiry - now) / 86_400_000_000
  }

  /** `int(t.timestamp())`: seconds since the epoch, the fraction cut off toward zero. */
  function EpochSeconds(t: int): (secs: int)
    ensures t >= 0 ==> secs * MicrosPerSecond <= t < secs * MicrosPerSecond + MicrosPerSecond
    ensures t < 0 ==> secs * MicrosPerSecond - MicrosPerSecond < t <= secs * MicrosPerSecond
  {
    if t >= 0 then t / 1_000_000 else -((-t) / 1_000_000)
  }

  /** The floor bounds determine the day count: any `d` with them is `DaysLeft`. */
  lemma DaysLeftUnique(expiry: int, now: int, d: int)
    requires d * MicrosPerDay <= expiry - now < d * MicrosPerDay + MicrosPerDay
    ensures d == DaysLeft(expiry, now)
  {
  }

  /** The day count is negative exactly for a certificate that has already expired,
      and zero during its last day. */
  lemma DaysLeftSign(expiry: int, now: int)
    ensures DaysLeft(expiry, now) < 0 <==> expiry < now
    ensures DaysLeft(expiry, now) == 0 <==> now <= expiry < now + MicrosPerDay
  {
    var d := DaysLeft(expiry, now);
    if d < 0 {
      assert d * MicrosPerDay <= -MicrosPerDay;
    } else if d > 0 {
      assert d * MicrosPerDay >= MicrosPerDay;
    }
  }

  /** A later expiry never has fewer days left; a later `now` never has more. */
  lemma DaysLeftMonotonic(e1: int, e2: int, n1: int, n2: int)
    requires e1 <= e2 && n2 <= n1
    ensures DaysLeft(e1, n1) <= DaysLeft(e2, n2)
  {
  }

  /** Whole days and parts of a day: ten days ahead and ten and a half days ahead
      both give 10, one day past gives -1, and one microsecond past gives -1 as well
      (the count rounds down, not toward zero). */
  lemma DaysLeftExamples(now: int)
    ensures DaysLeft(now + 10 * MicrosPerDay, now) == 10
    ensures DaysLeft(now + 10 * MicrosPerDay + 12 * 3600 * MicrosPerSecond, now) == 10
    ensures DaysLeft(now - MicrosPerDay, now) == -1
    ensures DaysLeft(now - 1, now) == -1
  {
    DaysLeftUnique(now + 10 * MicrosPerDay, now, 10);
    DaysLeftUnique(now + 10 * MicrosPerDay + 12 * 3600 * MicrosPerSecond, now, 10);
    DaysLeftUnique(now - MicrosPerDay, now, -1);
    DaysLeftUnique(now - 1, now, -1);
  }

  /** The date gauge gets back exactly the seconds the certificate states, also for a
      date before the epoch, because the instant has no fraction to cut off. */
  lemma EpochSecondsOfExpiration(notAfterSecs: int)
    ensures EpochSeconds(ExpirationInstant(notAfterSecs)) == notAfterSecs
  {
  }

  /** Before the epoch, cutting toward zero differs from the floor: half a second
      before the epoch is second 0, not -1. */
  lemma EpochSecondsTruncates()
    ensures EpochSeconds(-500_000) == 0
    ensures EpochSeconds(-1_500_000) == -1
  {
  }
}
