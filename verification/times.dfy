/**
 * Time as integer minutes.  An absolute instant is `date * MinutesPerDay + minute`,
 * where `date` is a day number and `minute` the minute of that day; an "HH:MM"
 * wall-clock string is its minute of the day.  Everything is in the single zone
 * of the conference.
 */
module Times {

  /** The fixed length of a timeslot, 15 minutes. */
  const SlotLength: int := 15

  const MinutesPerDay: int := 1440

  /** A wall-clock time of day "HH:MM", 00:00 .. 23:59. */
  type MinuteOfDay = m: int | 0 <= m < MinutesPerDay

  /** The instant at wall-clock `m` on day `date`. */
  function At(date: int, m: MinuteOfDay): int
  {
    date * MinutesPerDay + m
  }

  /** The day an instant falls on (SQL `DATE(start_time)`). */
  function DateOf(t: int): int
  {
    t / MinutesPerDay
  }

  /** The wall-clock time of an instant (`strftime("%H:%M")`). */
  function MinuteOf(t: int): MinuteOfDay
  {
    t % MinutesPerDay
  }

  lemma AtRoundTrip(date: int, m: MinuteOfDay)
    ensures DateOf(At(date, m)) == date
    ensures MinuteOf(At(date, m)) == m
  {
  }

  lemma SplitRoundTrip(t: int)
    ensures At(DateOf(t), MinuteOf(t)) == t
  {
  }

  /** ceil((e - s) / 15) when the window is non-empty, 0 otherwise. */
  function CeilSlots(s: int, e: int): nat
  {
    if e > s then (e - s + SlotLength - 1) / SlotLength else 0
  }

  predicate StrictlyIncreasing(s: seq<int>)
  {
    forall i, j :: 0 <= i < j < |s| ==> s[i] < s[j]
  }

  /**
   * The 15-minute grid `t, t+15, ...` of the starts before `e`.  The last start
   * may lie less than 15 minutes before `e`, so its slot runs past `e`.
   */
  function Steps(t: int, e: int): (r: seq<int>)
    ensures |r| == CeilSlots(t, e)
    ensures forall i :: 0 <= i < |r| ==> r[i] == t + SlotLength * i
    ensures forall i :: 0 <= i < |r| ==> t <= r[i] < e
    ensures |r| > 0 ==> e <= r[|r| - 1] + SlotLength
  {
    seq(CeilSlots(t, e), i => t + SlotLength * i)
  }

  /**
   * The `while current < e` loop itself: emit the current instant and advance
   * by 15 minutes.  Only the start of each step is compared with `e`.
   */
  function Walk(t: int, e: int): seq<int>
    decreases e - t
  {
    if t < e then [t] + Walk(t + SlotLength, e) else []
  }

  /** The loop visits exactly the grid. */
  lemma {:induction false} WalkIsSteps(t: int, e: int)
    ensures Walk(t, e) == Steps(t, e)
    decreases e - t
  {
    if t < e {
      WalkIsSteps(t + SlotLength, e);
      var rest := Steps(t + SlotLength, e);
      assert |rest| + 1 == CeilSlots(t, e);
      assert [t] + rest == Steps(t, e);
    }
  }

  lemma StepsIncreasing(t: int, e: int)
    ensures StrictlyIncreasing(Steps(t, e))
  {
  }

  /** An instant is visited by the walk iff it lies in [t, e) on the 15-minute grid from t. */
  lemma StepsMembership(t: int, e: int, x: int)
    ensures x in Steps(t, e) <==> t <= x < e && (x - t) % SlotLength == 0
  {
    var r := Steps(t, e);
    if t <= x < e && (x - t) % SlotLength == 0 {
      var i := (x - t) / SlotLength;
      assert x == t + SlotLength * i;
      assert i < CeilSlots(t, e);
      assert r[i] == x;
    }
  }
}
