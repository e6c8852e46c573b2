/**
 * The daily trigger of Program.Run: a sweep fires when the clock has passed `future`,
 * which then moves to 08:00 on the following day. Time is counted in whole minutes
 * since `DateTime.MinValue`.
 */
module Scheduler {

  const MinutesPerDay := 1440
  /** 08:00, as minutes after midnight. */
  const FireMinute := 8 * 60
  /** `DateTime.MinValue`, the initial `future`. */
  const MinValue := 0

  function Day(t: int): int { t / MinutesPerDay }

  function StartOfDay(t: int): int { Day(t) * MinutesPerDay }

  /** The test `past > future`. */
  predicate Due(now: int, future: int) { now > future }

  /** `DateTime.Today.AddDays(1).AddHours(8)`: 08:00 on the day after `now`. */
  function NextFuture(now: int): (future: int)
    ensures Day(future) == Day(now) + 1 && future % MinutesPerDay == FireMinute
  {
    assert StartOfDay(now) + MinutesPerDay + FireMinute == (Day(now) + 1) * MinutesPerDay + FireMinute;
    StartOfDay(now) + MinutesPerDay + FireMinute
  }

  /** The value of `future` after one cycle at time `now`. */
  function Advance(future: int, now: int): int
  {
    if Due(now, future) then NextFuture(now) else future
  }

  /** `future` after a run of cycles at the given clock readings. */
  function FutureAfter(future: int, nows: seq<int>): int
    decreases |nows|
  {
    if nows == [] then future
    else Advance(FutureAfter(future, nows[..|nows| - 1]), nows[|nows| - 1])
  }

  /** The clock readings at which a sweep fires, in cycle order. */
  function FireTimes(future: int, nows: seq<int>): seq<int>
    decreases |nows|
  {
    if nows == [] then []
    else
      var now := nows[|nows| - 1];
      FireTimes(future, nows[..|nows| - 1]) + (if Due(now, FutureAfter(future, nows[..|nows| - 1])) then [now] else [])
  }

  /** Fire times are spaced so that each one is past 08:00 of the day after every earlier one. */
  ghost predicate Spaced(fires: seq<int>)
  {
    forall i, j :: 0 <= i < j < |fires| ==> fires[j] > NextFuture(fires[i])
  }

  lemma NextFutureFacts(a: int, b: int)
    ensures NextFuture(a) > a
    ensures a <= b ==> NextFuture(a) <= NextFuture(b)
    ensures Day(NextFuture(a)) == Day(a) + 1
  {
    assert a == Day(a) * MinutesPerDay + a % MinutesPerDay;
    if a <= b {
      assert b == Day(b) * MinutesPerDay + b % MinutesPerDay;
      assert Day(a) <= Day(b);
    }
    assert NextFuture(a) == (Day(a) + 1) * MinutesPerDay + FireMinute;
  }

  /**
   * What the two variables of the loop keep: `future` is the initial value until the first sweep
   * and 08:00 of the day after the latest sweep from then on, and the sweeps are spaced.
   */
  lemma {:induction false} ScheduleInvariant(future: int, nows: seq<int>)
    ensures var fires := FireTimes(future, nows);
      && (fires == [] ==> FutureAfter(future, nows) == future)
      && (fires != [] ==> FutureAfter(future, nows) == NextFuture(fires[|fires| - 1]))
      && (fires != [] ==> fires[0] > future)
      && Spaced(fires)
    decreases |nows|
  {
    if nows != [] {
      var init := nows[..|nows| - 1];
      var now := nows[|nows| - 1];
      ScheduleInvariant(future, init);
      var before := FireTimes(future, init);
      var f := FutureAfter(future, init);
      if Due(now, f) {
        var fires := before + [now];
        assert FireTimes(future, nows) == fires;
        forall i, j | 0 <= i < j < |fires| ensures fires[j] > NextFuture(fires[i]) {
          if j == |fires| - 1 {
            NextFutureFacts(fires[i], before[|before| - 1]);
            if i < |before| - 1 {
              NextFutureFacts(before[i], before[|before| - 1]);
            }
          }
        }
      }
    }
  }

  /** The first cycle sweeps whenever the clock is past `DateTime.MinValue`. */
  lemma FirstCycleFires(now: int)
    requires now > MinValue
    ensures FireTimes(MinValue, [now]) == [now]
  {
    assert [now][..0] == [];
  }

  /** At most one sweep per calendar day: any two sweeps fall on different days, in order. */
  lemma AtMostOncePerDay(future: int, nows: seq<int>)
    ensures var fires := FireTimes(future, nows);
      forall i, j :: 0 <= i < j < |fires| ==> Day(fires[i]) < Day(fires[j]) && fires[j] > NextFuture(fires[i])
  {
    ScheduleInvariant(future, nows);
    var fires := FireTimes(future, nows);
    forall i, j | 0 <= i < j < |fires| ensures Day(fires[i]) < Day(fires[j]) {
      NextFutureFacts(fires[i], fires[j]);
      assert fires[j] > NextFuture(fires[i]);
      assert NextFuture(fires[i]) == (Day(fires[i]) + 1) * MinutesPerDay + FireMinute;
    }
  }

  /** A cycle sweeps exactly when its clock reading is past the latest sweep's next 08:00 (or past `future` before any). */
  lemma FiresIffPastNextMorning(future: int, nows: seq<int>, now: int)
    ensures var fires := FireTimes(future, nows);
      (FireTimes(future, nows + [now]) == fires + [now]) <==>
      (now > (if fires == [] then future else NextFuture(fires[|fires| - 1])))
  {
    ScheduleInvariant(future, nows);
    assert (nows + [now])[..|nows|] == nows;
  }
}
