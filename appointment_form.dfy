/**
 * The time-slot grid arithmetic of the appointment form
 * (src/appointmentForm.tsx). Instants are integer milliseconds; "today at
 * the opening hour" and "the local midnight of a date" are computed by the
 * browser's clock and time zone and come in as inputs.
 */
module AppointmentForm {
  import opened Wrappers

  /** The default opening and closing hours of the form. */
  const SalonOpensAt: int := 9
  const SalonClosesAt: int := 19

  /** `30 * 60 * 1000` and `24 * 60 * 60 * 1000` milliseconds. */
  const HalfHour: int := 1_800_000
  const Day: int := 86_400_000

  /** `Array(n)` takes lengths up to 2^32 - 1 and throws a RangeError beyond. */
  const MaxArrayLength: int := 0xFFFF_FFFF

  /** The arithmetic progression starting at `startTime` with step `increment`. */
  ghost predicate Progression(times: seq<int>, startTime: int, increment: int)
  {
    forall i :: 0 <= i < |times| ==> times[i] == startTime + i * increment
  }

  /**
   * The `reduce` callback run for the indices `i` up to `n - 1`:
   * `acc.concat([startTime + i * increment])`.
   */
  function Concatenated(acc: seq<int>, startTime: int, increment: int, i: nat, n: nat): seq<int>
    requires i <= n
    decreases n - i
  {
    if i == n then acc else Concatenated(acc + [startTime + i * increment], startTime, increment, i + 1, n)
  }

  lemma {:induction false} ConcatenatedProgression(acc: seq<int>, startTime: int, increment: int, i: nat, n: nat)
    requires i <= n && |acc| == i && Progression(acc, startTime, increment)
    ensures |Concatenated(acc, startTime, increment, i, n)| == n
    ensures Progression(Concatenated(acc, startTime, increment, i, n), startTime, increment)
    decreases n - i
  {
    if i < n {
      var next := acc + [startTime + i * increment];
      assert Progression(next, startTime, increment);
      ConcatenatedProgression(next, startTime, increment, i + 1, n);
    }
  }

  /**
   * `timeIncrements(n, startTime, increment)`:
   * `Array(n).fill([startTime]).reduce(...)`, whose first element,
   * `[startTime]`, starts the accumulator. A negative or too large length
   * throws a RangeError, and `reduce` on the empty array (n = 0) with no
   * initial value throws a TypeError.
   */
  function TimeIncrements(n: int, startTime: int, increment: int): (times: Result<seq<int>, JsError>)
    ensures n < 0 || n > MaxArrayLength <==> times == Err(RangeError)
    ensures n == 0 <==> times == Err(TypeError)
    ensures times.Ok? <==> 1 <= n <= MaxArrayLength
    ensures times.Ok? ==> |times.value| == n && Progression(times.value, startTime, increment)
  {
    if n < 0 || n > MaxArrayLength then Err(RangeError)
    else if n == 0 then Err(TypeError)
    else
      ConcatenatedProgression([startTime], startTime, increment, 1, n);
      Ok(Concatenated([startTime], startTime, increment, 1, n))
  }

  /** Consecutive times are exactly `increment` apart. */
  lemma ConsecutiveStep(n: int, startTime: int, increment: int, i: nat)
    requires TimeIncrements(n, startTime, increment).Ok? && i + 1 < n
    ensures var times := TimeIncrements(n, startTime, increment).value;
      times[i + 1] - times[i] == increment
  {
    var times := TimeIncrements(n, startTime, increment).value;
    assert times[i + 1] == startTime + (i + 1) * increment;
    assert times[i] == startTime + i * increment;
  }

  /** A positive increment gives strictly increasing times, hence distinct ones. */
  lemma {:induction false} IncreasingWithPositiveStep(n: int, startTime: int, increment: int, i: nat, j: nat)
    requires TimeIncrements(n, startTime, increment).Ok? && increment > 0 && i < j < n
    ensures var times := TimeIncrements(n, startTime, increment).value;
      times[i] < times[j]
    decreases j - i
  {
    ConsecutiveStep(n, startTime, increment, j - 1);
    if i < j - 1 {
      IncreasingWithPositiveStep(n, startTime, increment, i, j - 1);
    }
  }

  /**
   * `dailyTimeSlots(salonOpensAt, salonClosesAt)`: two half-hour slots per
   * opening hour, from today at the opening hour (given by the caller, for
   * `new Date().setHours(salonOpensAt, 0, 0, 0)`) to half an hour before
   * closing. Opening and closing at the same hour throws, like an earlier
   * closing than opening.
   */
  function DailyTimeSlots(salonOpensAt: int, salonClosesAt: int, todayAtOpening: int): (slots: Result<seq<int>, JsError>)
    ensures slots.Ok? <==> salonOpensAt < salonClosesAt && (salonClosesAt - salonOpensAt) * 2 <= MaxArrayLength
    ensures salonClosesAt == salonOpensAt ==> slots == Err(TypeError)
    ensures salonClosesAt < salonOpensAt ==> slots == Err(RangeError)
    ensures slots.Ok? ==>
      && |slots.value| == (salonClosesAt - salonOpensAt) * 2
      && slots.value[0] == todayAtOpening
      && slots.value[|slots.value| - 1] + HalfHour == todayAtOpening + (salonClosesAt - salonOpensAt) * 2 * HalfHour
      && Progression(slots.value, todayAtOpening, HalfHour)
  {
    var totalSlots := (salonClosesAt - salonOpensAt) * 2;
    var slots := TimeIncrements(totalSlots, todayAtOpening, HalfHour);
    assert slots.Ok? ==> slots.value[totalSlots - 1] == todayAtOpening + (totalSlots - 1) * HalfHour;
    slots
  }

  /** The default hours, 9 to 19, give 20 slots, the last at 18:30. */
  lemma DefaultHoursSlots(todayAtOpening: int)
    ensures var slots := DailyTimeSlots(SalonOpensAt, SalonClosesAt, todayAtOpening);
      && slots.Ok? && |slots.value| == 20
      && slots.value[19] == todayAtOpening + 19 * HalfHour
  {
  }

  /** The week shown: the caller's date, reset to its midnight, and the seven days from there. */
  datatype Week = Week(startDate: int, dates: seq<int>)

  /**
   * `weeklyDateValues(startDate)`: `startDate.setHours(0, 0, 0, 0)` moves the
   * caller's date to its local midnight (given by the caller), which starts
   * seven values a day apart.
   */
  function WeeklyDateValues(midnight: int): (week: Week)
    ensures week.startDate == midnight
    ensures |week.dates| == 7 && week.dates[0] == midnight
    ensures Progression(week.dates, midnight, Day)
  {
    var dates := TimeIncrements(7, midnight, Day);
    Week(midnight, dates.value)
  }

  /** The seven dates are distinct, increasing, a day apart. */
  lemma WeekIncreasing(midnight: int, i: nat, j: nat)
    requires i < j < 7
    ensures WeeklyDateValues(midnight).dates[i] < WeeklyDateValues(midnight).dates[j]
  {
    IncreasingWithPositiveStep(7, midnight, Day, i, j);
  }
}
