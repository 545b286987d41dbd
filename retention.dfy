/**
 The age rule that decides whether one file is due for cleanup (`shouldClean`).

 The program measures a file's age as the time elapsed between its last
 modification and "now", converts it to hours as a floating-point number,
 divides by 24 and converts to an integer, which truncates toward zero.  Here
 the elapsed time is an integer number of nanoseconds (the unit of a Go
 duration) and the conversion is written as an explicit truncating division by
 the length of a day; floating-point rounding is not modelled.
 */
module Retention {

  import opened Wrappers

  const NanosPerSecond: int := 1_000_000_000
  const NanosPerHour: int := 3600 * NanosPerSecond
  const NanosPerDay: int := 24 * NanosPerHour

  /** Integer division that truncates toward zero, like a conversion of a
      quotient to an integer in Go (Dafny's own `/` is Euclidean). */
  function TruncDiv(n: int, d: int): int
    requires d > 0
  {
    if n >= 0 then n / d else -((-n) / d)
  }

  /** The whole number of days in an elapsed time; a modification time in the
      future (negative elapsed time) of less than a day gives age 0. */
  function AgeDays(elapsedNanos: int): int
  {
    TruncDiv(elapsedNanos, NanosPerDay)
  }

  /** The age is the number of whole days elapsed, counted toward zero: a
      past modification gives the largest whole number of days not exceeding
      the elapsed time, a future one the negated count for the time ahead. */
  lemma AgeDaysBounds(elapsed: int)
    ensures elapsed >= 0 ==> (AgeDays(elapsed) >= 0 &&
              AgeDays(elapsed) * NanosPerDay <= elapsed < (AgeDays(elapsed) + 1) * NanosPerDay)
    ensures elapsed < 0 ==> (AgeDays(elapsed) <= 0 &&
              (AgeDays(elapsed) - 1) * NanosPerDay < elapsed <= AgeDays(elapsed) * NanosPerDay)
  {
  }

  /** `shouldClean`: `info` is the elapsed time since the file's last
      modification, or None when its metadata could not be read.  A file
      qualifies only when its whole-day age is strictly greater than `days`. */
  function ShouldClean(info: Option<int>, days: int): (qualifies: bool)
    ensures info.None? ==> !qualifies
  {
    match info
    case None => false
    case Some(elapsed) => AgeDays(elapsed) > days
  }

  /** The threshold rule stated without division: for a non-negative
      threshold, a file qualifies exactly when at least `days + 1` full days
      have elapsed; for a negative threshold, exactly when it is less than
      `-days` days in the future. */
  lemma QualifiesIff(elapsed: int, days: int)
    ensures days >= 0 ==> (ShouldClean(Some(elapsed), days) <==> elapsed >= (days + 1) * NanosPerDay)
    ensures days < 0 ==> (ShouldClean(Some(elapsed), days) <==> elapsed > days * NanosPerDay)
  {
    AgeDaysBounds(elapsed);
  }

  /** A file aged exactly `days` days, or `days` days plus anything short of
      a further full day, does not qualify; one more full day does. */
  lemma ThresholdIsStrict(days: nat, extra: int)
    requires 0 <= extra < NanosPerDay
    ensures !ShouldClean(Some(days * NanosPerDay + extra), days)
    ensures ShouldClean(Some((days + 1) * NanosPerDay), days)
  {
    QualifiesIff(days * NanosPerDay + extra, days);
    QualifiesIff((days + 1) * NanosPerDay, days);
  }

  /** An older file qualifies whenever a younger one does. */
  lemma OlderStillQualifies(younger: int, older: int, days: int)
    requires younger <= older
    requires ShouldClean(Some(younger), days)
    ensures ShouldClean(Some(older), days)
  {
    QualifiesIff(younger, days);
    QualifiesIff(older, days);
  }

  /** A file modified less than a day in the future has age 0, so it
      qualifies only under a negative threshold. */
  lemma FutureFileAgeZero(elapsed: int, days: int)
    requires -NanosPerDay < elapsed <= 0
    ensures AgeDays(elapsed) == 0
    ensures ShouldClean(Some(elapsed), days) <==> days < 0
  {
    AgeDaysBounds(elapsed);
  }

}
