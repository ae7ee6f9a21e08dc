/**
 * The timeslot generator: a conference date range, its default daily hours and
 * a program's day-schedule map become an ordered run of 15-minute timeslots.
 */
module Generator {
  import opened Wrappers
  import opened Times
  import opened Decimal
  import opened Timeslots
  import opened Conferences
  import opened ConferencePrograms

  /** The generator's test for a day: an entry under key `d.to_s` whose "enabled" is exactly `true`. */
  predicate DayEnabled(schedules: DaySchedules, d: nat)
  {
    DecimalString(d) in schedules && schedules[DecimalString(d)].enabled == FlagTrue
  }

  /**
   * One bound of the day's window.  Only a `nil` field falls back to the
   * conference default; an empty string is kept and parses, after the date,
   * as midnight; an "HH:MM" field is that time.
   */
  function ResolveBound(f: TimeField, default: Option<MinuteOfDay>): (m: Option<MinuteOfDay>)
    ensures f.NoTime? ==> m == default
    ensures f.EmptyTime? ==> m == Some(0)
    ensures f.HHMM? ==> m == Some(f.minute)
  {
    match f
    case NoTime => default
    case EmptyTime => Some(0)
    case HHMM(minute) => Some(minute)
  }

  /**
   * The day's window [start, end).  Each bound falls back to the conference
   * default on its own; when either is still missing there is no window.
   */
  function ResolveWindow(entry: DayEntry, conf: Conference): Option<(MinuteOfDay, MinuteOfDay)>
  {
    var s := ResolveBound(entry.start, conf.hoursStart);
    var e := ResolveBound(entry.end, conf.hoursEnd);
    if s.Some? && e.Some? then Some((s.value, e.value)) else None
  }

  /** The window, case by case on the two fields. */
  lemma ResolveWindowCases(entry: DayEntry, conf: Conference)
    ensures var w := ResolveWindow(entry, conf);
      && (w.Some? <==> (!entry.start.NoTime? || conf.hoursStart.Some?) && (!entry.end.NoTime? || conf.hoursEnd.Some?))
      && (w.Some? && entry.start.HHMM? ==> w.value.0 == entry.start.minute)
      && (w.Some? && entry.start.EmptyTime? ==> w.value.0 == 0)
      && (w.Some? && entry.start.NoTime? ==> w.value.0 == conf.hoursStart.value)
      && (w.Some? && entry.end.HHMM? ==> w.value.1 == entry.end.minute)
      && (w.Some? && entry.end.EmptyTime? ==> w.value.1 == 0)
      && (w.Some? && entry.end.NoTime? ==> w.value.1 == conf.hoursEnd.value)
  {
  }

  function StartsOf(r: seq<Timeslot>): (starts: seq<int>)
    ensures |starts| == |r|
    ensures forall i :: 0 <= i < |r| ==> starts[i] == r[i].start
  {
    seq(|r|, i requires 0 <= i < |r| => r[i].start)
  }

  lemma StartsOfAppend(a: seq<Timeslot>, b: seq<Timeslot>)
    ensures StartsOf(a + b) == StartsOf(a) + StartsOf(b)
  {
  }

  /** The slots the inner loop creates for one day and one window. */
  function DaySlots(cp: ConferenceProgramId, date: int, w: (MinuteOfDay, MinuteOfDay)): (r: seq<Timeslot>)
    ensures |r| == CeilSlots(w.0, w.1)
    ensures forall i :: 0 <= i < |r| ==> r[i] == NewTimeslot(cp, At(date, w.0) + SlotLength * i, 1)
    ensures forall i :: 0 <= i < |r| ==> At(date, 0) <= r[i].start < At(date + 1, 0)
    ensures StartsOf(r) == Steps(At(date, w.0), At(date, w.1))
    ensures StrictlyIncreasing(StartsOf(r))
  {
    var starts := Steps(At(date, w.0), At(date, w.1));
    StepsIncreasing(At(date, w.0), At(date, w.1));
    seq(|starts|, i requires 0 <= i < |starts| => NewTimeslot(cp, starts[i], 1))
  }

  /** What the outer loop emits for day offset d. */
  function SlotsForDay(cp: ConferenceProgramId, conf: Conference, schedules: DaySchedules, d: nat): (r: seq<Timeslot>)
    requires conf.startDate.Some?
    ensures !DayEnabled(schedules, d) ==> r == []
  {
    if DayEnabled(schedules, d) then
      match ResolveWindow(schedules[DecimalString(d)], conf)
      case None => []
      case Some(w) => DaySlots(cp, conf.startDate.value + d, w)
    else
      []
  }

  /** The properties every record of a run has. */
  predicate FreshSlots(r: seq<Timeslot>, cp: ConferenceProgramId)
  {
    forall i :: 0 <= i < |r| ==>
      r[i].conferenceProgram == cp && r[i].end == r[i].start + SlotLength
      && r[i].maxVolunteers == 1 && r[i].count == 0
  }

  /** One day's slots are fresh, strictly increasing, and all start on that day. */
  lemma SlotsForDayShape(cp: ConferenceProgramId, conf: Conference, schedules: DaySchedules, d: nat)
    requires conf.startDate.Some?
    ensures var r := SlotsForDay(cp, conf, schedules, d);
      && FreshSlots(r, cp) && StrictlyIncreasing(StartsOf(r))
      && forall i :: 0 <= i < |r| ==> At(conf.startDate.value + d, 0) <= r[i].start < At(conf.startDate.value + d + 1, 0)
  {
    if DayEnabled(schedules, d) && ResolveWindow(schedules[DecimalString(d)], conf).Some? {
      SlotsForDayWindow(cp, conf, schedules, d, ResolveWindow(schedules[DecimalString(d)], conf).value);
    }
  }

  /** Two increasing runs, the first wholly before `bound` and the second from it on, join into one. */
  lemma ConcatIncreasing(a: seq<Timeslot>, b: seq<Timeslot>, bound: int)
    requires StrictlyIncreasing(StartsOf(a)) && StrictlyIncreasing(StartsOf(b))
    requires forall i :: 0 <= i < |a| ==> a[i].start < bound
    requires forall i :: 0 <= i < |b| ==> bound <= b[i].start
    ensures StrictlyIncreasing(StartsOf(a + b))
  {
    StartsOfAppend(a, b);
  }

  /** Joining two runs of fresh slots keeps them fresh and keeps the first run's lower bound. */
  lemma ConcatFresh(a: seq<Timeslot>, b: seq<Timeslot>, cp: ConferenceProgramId, low: int, bound: int)
    requires FreshSlots(a, cp) && FreshSlots(b, cp)
    requires forall i :: 0 <= i < |a| ==> low <= a[i].start
    requires low <= bound && forall i :: 0 <= i < |b| ==> bound <= b[i].start
    ensures FreshSlots(a + b, cp)
    ensures forall i :: 0 <= i < |a + b| ==> low <= (a + b)[i].start
  {
  }

  /** Days d, d+1, ... up to the conference end date. */
  function GenerateFrom(cp: ConferenceProgramId, conf: Conference, schedules: DaySchedules, d: nat): seq<Timeslot>
    requires conf.startDate.Some? && conf.endDate.Some?
    decreases NumDays(conf) - d
  {
    if d >= NumDays(conf) then []
    else SlotsForDay(cp, conf, schedules, d) + GenerateFrom(cp, conf, schedules, d + 1)
  }

  /** The run from day d on is fresh, strictly increasing, and starts no earlier than day d. */
  lemma {:induction false} GenerateFromShape(cp: ConferenceProgramId, conf: Conference, schedules: DaySchedules, d: nat)
    requires conf.startDate.Some? && conf.endDate.Some?
    ensures var r := GenerateFrom(cp, conf, schedules, d);
      && FreshSlots(r, cp) && StrictlyIncreasing(StartsOf(r))
      && forall i :: 0 <= i < |r| ==> At(conf.startDate.value + d, 0) <= r[i].start
    decreases NumDays(conf) - d
  {
    if d < NumDays(conf) {
      var today := SlotsForDay(cp, conf, schedules, d);
      var rest := GenerateFrom(cp, conf, schedules, d + 1);
      var bound := At(conf.startDate.value + d + 1, 0);
      SlotsForDayShape(cp, conf, schedules, d);
      GenerateFromShape(cp, conf, schedules, d + 1);
      ConcatIncreasing(today, rest, bound);
      ConcatFresh(today, rest, cp, At(conf.startDate.value + d, 0), bound);
      assert GenerateFrom(cp, conf, schedules, d) == today + rest;
    }
  }

  /**
   * `generate`: nothing at all for an empty map; otherwise the days of the
   * inclusive date range in order.  Every record has capacity 1 and count 0,
   * and the start times of one run strictly increase.
   */
  function Generate(cp: ConferenceProgramId, conf: Conference, schedules: DaySchedules): (r: seq<Timeslot>)
    requires conf.startDate.Some? && conf.endDate.Some?
    ensures |schedules| == 0 ==> r == []
    ensures FreshSlots(r, cp)
    ensures StrictlyIncreasing(StartsOf(r))
  {
    if |schedules| == 0 then []
    else
      GenerateFromShape(cp, conf, schedules, 0);
      GenerateFrom(cp, conf, schedules, 0)
  }

  /** A run saved over an empty slot set never collides with itself on (program, start). */
  lemma GenerateKeepsStartsUnique(cp: ConferenceProgramId, conf: Conference, schedules: DaySchedules)
    requires conf.startDate.Some? && conf.endDate.Some?
    ensures UniqueStarts(Generate(cp, conf, schedules))
  {
    var r := Generate(cp, conf, schedules);
    forall i, j | 0 <= i < j < |r|
      ensures r[i].start != r[j].start
    {
      assert StartsOf(r)[i] < StartsOf(r)[j];
    }
  }

  /**
   * Saving a run with `create!` one record at a time: `AllSaved` holds every
   * row afterwards; `Raised` is the `RecordInvalid` of the first record that
   * fails validation, with the rows committed before it.
   */
  datatype SaveOutcome = AllSaved(slots: seq<Timeslot>) | Raised(slots: seq<Timeslot>)

  function SaveEach(saved: seq<Timeslot>, run: seq<Timeslot>): SaveOutcome
    decreases |run|
  {
    if |run| == 0 then AllSaved(saved)
    else if ValidationErrors(run[0], saved) != {} then Raised(saved)
    else SaveEach(saved + [run[0]], run[1..])
  }

  /** Record k of the run passes its validations against what is saved before it. */
  predicate SavesCleanly(saved: seq<Timeslot>, run: seq<Timeslot>, k: nat)
    requires k < |run|
  {
    ValidationErrors(run[k], saved + run[..k]) == {}
  }

  lemma SavedPrefixShift(saved: seq<Timeslot>, run: seq<Timeslot>, k: nat)
    requires 1 <= k < |run|
    ensures saved + run[..k] == (saved + [run[0]]) + run[1..][..k - 1]
    ensures run[k] == run[1..][k - 1]
  {
    assert run[..k] == [run[0]] + run[1..][..k - 1];
  }

  /**
   * Every record is saved exactly when each passes its validations in turn;
   * otherwise the save stops at the first failure, keeping the rows before it.
   */
  lemma {:induction false} SaveEachOutcome(saved: seq<Timeslot>, run: seq<Timeslot>)
    ensures SaveEach(saved, run).AllSaved? <==> forall k :: 0 <= k < |run| ==> SavesCleanly(saved, run, k)
    ensures SaveEach(saved, run).AllSaved? ==> SaveEach(saved, run).slots == saved + run
    ensures SaveEach(saved, run).Raised? ==>
      exists k :: 0 <= k < |run| && !SavesCleanly(saved, run, k)
        && SaveEach(saved, run).slots == saved + run[..k]
        && forall j :: 0 <= j < k ==> SavesCleanly(saved, run, j)
    decreases |run|
  {
    if |run| > 0 {
      assert saved + run[..0] == saved;
      if ValidationErrors(run[0], saved) != {} {
        assert !SavesCleanly(saved, run, 0);
      } else {
        var next := saved + [run[0]];
        var rest := run[1..];
        SaveEachOutcome(next, rest);
        forall k | 1 <= k < |run|
          ensures SavesCleanly(saved, run, k) <==> SavesCleanly(next, rest, k - 1)
        {
          SavedPrefixShift(saved, run, k);
        }
        if SaveEach(next, rest).AllSaved? {
          assert next + rest == saved + run;
        } else {
          var k :| 0 <= k < |rest| && !SavesCleanly(next, rest, k)
            && SaveEach(next, rest).slots == next + rest[..k]
            && forall j :: 0 <= j < k ==> SavesCleanly(next, rest, j);
          SavedPrefixShift(saved, run, k + 1);
          assert !SavesCleanly(saved, run, k + 1);
        }
      }
    }
  }

  /** `generate` against the rows the program already has. */
  function GenerateAndSave(cp: ConferenceProgramId, conf: Conference, schedules: DaySchedules, existing: seq<Timeslot>): SaveOutcome
    requires conf.startDate.Some? && conf.endDate.Some?
  {
    SaveEach(existing, Generate(cp, conf, schedules))
  }

  /** A fresh record of a strictly increasing run is rejected only for a start an existing row of the program holds. */
  lemma GeneratedSavesCleanly(cp: ConferenceProgramId, existing: seq<Timeslot>, g: seq<Timeslot>, k: nat)
    requires FreshSlots(g, cp) && StrictlyIncreasing(StartsOf(g)) && k < |g|
    ensures SavesCleanly(existing, g, k) <==> !StartTakenBy(g[k], existing)
  {
    var before := existing + g[..k];
    if StartTakenBy(g[k], before) {
      var i :| 0 <= i < |before| && before[i].conferenceProgram == g[k].conferenceProgram && before[i].start == g[k].start;
      assert i < |existing| && existing[i] == before[i];
    }
    if StartTakenBy(g[k], existing) {
      var i :| 0 <= i < |existing| && existing[i].conferenceProgram == g[k].conferenceProgram && existing[i].start == g[k].start;
      assert before[i] == existing[i];
    }
  }

  /**
   * A run saves completely exactly when no generated start is already taken
   * for the program; otherwise `create!` raises at the first taken start and
   * the records before it stay saved.
   */
  lemma GenerateAndSaveOutcome(cp: ConferenceProgramId, conf: Conference, schedules: DaySchedules, existing: seq<Timeslot>)
    requires conf.startDate.Some? && conf.endDate.Some?
    ensures var g := Generate(cp, conf, schedules);
      var r := GenerateAndSave(cp, conf, schedules, existing);
      && (r.AllSaved? <==> forall k :: 0 <= k < |g| ==> !StartTakenBy(g[k], existing))
      && (r.AllSaved? ==> r.slots == existing + g)
      && (r.Raised? ==> exists k :: 0 <= k < |g| && StartTakenBy(g[k], existing) && r.slots == existing + g[..k]
                          && forall j :: 0 <= j < k ==> !StartTakenBy(g[j], existing))
  {
    var g := Generate(cp, conf, schedules);
    SaveEachOutcome(existing, g);
    forall k | 0 <= k < |g|
      ensures SavesCleanly(existing, g, k) <==> !StartTakenBy(g[k], existing)
    {
      GeneratedSavesCleanly(cp, existing, g, k);
    }
  }

  /** Generating a second time over the rows of a first run raises on its first record and saves nothing more. */
  lemma SecondRunRaises(cp: ConferenceProgramId, conf: Conference, schedules: DaySchedules, existing: seq<Timeslot>)
    requires conf.startDate.Some? && conf.endDate.Some?
    requires GenerateAndSave(cp, conf, schedules, existing).AllSaved?
    requires |Generate(cp, conf, schedules)| > 0
    ensures var once := GenerateAndSave(cp, conf, schedules, existing).slots;
      GenerateAndSave(cp, conf, schedules, once) == Raised(once)
  {
    var g := Generate(cp, conf, schedules);
    GenerateAndSaveOutcome(cp, conf, schedules, existing);
    var once := existing + g;
    assert once[|existing|] == g[0];
    assert StartTakenBy(g[0], once);
  }

  /** A run saved in full over rows with unique starts keeps the starts unique. */
  lemma {:induction false} SaveEachKeepsUnique(saved: seq<Timeslot>, run: seq<Timeslot>)
    requires UniqueStarts(saved)
    requires SaveEach(saved, run).AllSaved?
    ensures UniqueStarts(SaveEach(saved, run).slots)
    decreases |run|
  {
    if |run| > 0 {
      ValidAppendKeepsUnique(saved, run[0]);
      SaveEachKeepsUnique(saved + [run[0]], run[1..]);
    }
  }

  /**
   * The independent description of a generated start: its day lies in the
   * conference range, that day is enabled, its window resolves, and the start
   * is on the 15-minute grid of the window, before the window's end.
   */
  predicate Scheduled(conf: Conference, schedules: DaySchedules, t: int)
    requires conf.startDate.Some? && conf.endDate.Some?
  {
    var d := DateOf(t) - conf.startDate.value;
    && 0 <= d < NumDays(conf)
    && DayEnabled(schedules, d)
    && ResolveWindow(schedules[DecimalString(d)], conf).Some?
    && OnGrid(ResolveWindow(schedules[DecimalString(d)], conf).value, MinuteOf(t))
  }

  /** Wall-clock `m` is one of the 15-minute steps of window `w`. */
  predicate OnGrid(w: (MinuteOfDay, MinuteOfDay), m: MinuteOfDay)
  {
    w.0 <= m < w.1 && (m - w.0) % SlotLength == 0
  }

  lemma DayOfWindow(date: int, s: MinuteOfDay, e: MinuteOfDay, t: int)
    ensures t in Steps(At(date, s), At(date, e))
        <==> DateOf(t) == date && OnGrid((s, e), MinuteOf(t))
  {
    StepsMembership(At(date, s), At(date, e), t);
    SplitRoundTrip(t);
    if At(date, s) <= t < At(date, e) {
      assert date * MinutesPerDay <= t < date * MinutesPerDay + MinutesPerDay;
      assert DateOf(t) == date;
    }
  }

  /** On day d of the range, `Scheduled` reduces to that day's entry and window. */
  lemma ScheduledOnDay(conf: Conference, schedules: DaySchedules, d: nat, t: int)
    requires conf.startDate.Some? && conf.endDate.Some?
    requires d < NumDays(conf) && DateOf(t) - conf.startDate.value == d
    ensures Scheduled(conf, schedules, t) <==>
      DayEnabled(schedules, d) && ResolveWindow(schedules[DecimalString(d)], conf).Some?
      && OnGrid(ResolveWindow(schedules[DecimalString(d)], conf).value, MinuteOf(t))
  {
  }

  /** The starts of one window's slots are exactly that window's grid on that date. */
  lemma WindowStarts(cp: ConferenceProgramId, date: int, w: (MinuteOfDay, MinuteOfDay), r: seq<Timeslot>, t: int)
    requires r == DaySlots(cp, date, w)
    ensures t in StartsOf(r) <==> DateOf(t) == date && OnGrid(w, MinuteOf(t))
  {
    DayOfWindow(date, w.0, w.1, t);
  }

  /** An enabled day whose window resolves to w emits exactly the slots of w on that date. */
  lemma SlotsForDayWindow(cp: ConferenceProgramId, conf: Conference, schedules: DaySchedules, d: nat, w: (MinuteOfDay, MinuteOfDay))
    requires conf.startDate.Some?
    requires DayEnabled(schedules, d) && ResolveWindow(schedules[DecimalString(d)], conf) == Some(w)
    ensures SlotsForDay(cp, conf, schedules, d) == DaySlots(cp, conf.startDate.value + d, w)
  {
  }

  lemma SlotsForDayStarts(cp: ConferenceProgramId, conf: Conference, schedules: DaySchedules, d: nat, t: int)
    requires conf.startDate.Some? && conf.endDate.Some?
    requires d < NumDays(conf)
    ensures t in StartsOf(SlotsForDay(cp, conf, schedules, d))
        <==> Scheduled(conf, schedules, t) && DateOf(t) - conf.startDate.value == d
  {
    if DateOf(t) - conf.startDate.value == d {
      ScheduledOnDay(conf, schedules, d, t);
    }
    if DayEnabled(schedules, d) && ResolveWindow(schedules[DecimalString(d)], conf).Some? {
      var w := ResolveWindow(schedules[DecimalString(d)], conf).value;
      var r := SlotsForDay(cp, conf, schedules, d);
      SlotsForDayWindow(cp, conf, schedules, d, w);
      WindowStarts(cp, conf.startDate.value + d, w, r, t);
    } else {
      assert SlotsForDay(cp, conf, schedules, d) == [];
    }
  }

  lemma {:induction false} GenerateFromStarts(cp: ConferenceProgramId, conf: Conference, schedules: DaySchedules, d: nat, t: int)
    requires conf.startDate.Some? && conf.endDate.Some?
    ensures t in StartsOf(GenerateFrom(cp, conf, schedules, d))
        <==> Scheduled(conf, schedules, t) && d <= DateOf(t) - conf.startDate.value
    decreases NumDays(conf) - d
  {
    if d < NumDays(conf) {
      var today := SlotsForDay(cp, conf, schedules, d);
      var rest := GenerateFrom(cp, conf, schedules, d + 1);
      assert GenerateFrom(cp, conf, schedules, d) == today + rest;
      StartsOfAppend(today, rest);
      SlotsForDayStarts(cp, conf, schedules, d, t);
      GenerateFromStarts(cp, conf, schedules, d + 1, t);
    }
  }

  /** A start time is generated exactly when `Scheduled` says so. */
  lemma GeneratedStartsExactly(cp: ConferenceProgramId, conf: Conference, schedules: DaySchedules, t: int)
    requires conf.startDate.Some? && conf.endDate.Some?
    ensures t in StartsOf(Generate(cp, conf, schedules)) <==> Scheduled(conf, schedules, t)
  {
    GenerateFromStarts(cp, conf, schedules, 0, t);
  }

  /** A day that is missing from the map or not exactly `true` gets no slot. */
  lemma DisabledDayYieldsNothing(cp: ConferenceProgramId, conf: Conference, schedules: DaySchedules, d: nat, t: int)
    requires conf.startDate.Some? && conf.endDate.Some?
    requires !DayEnabled(schedules, d)
    requires DateOf(t) == conf.startDate.value + d
    ensures t !in StartsOf(Generate(cp, conf, schedules))
  {
    GeneratedStartsExactly(cp, conf, schedules, t);
  }

  /** Two maps that agree on the keys "0" .. (NumDays-1).to_s. */
  predicate AgreeOnDays(conf: Conference, m1: DaySchedules, m2: DaySchedules)
    requires conf.startDate.Some? && conf.endDate.Some?
  {
    forall d: nat :: d < NumDays(conf) ==>
      (DecimalString(d) in m1 <==> DecimalString(d) in m2)
      && (DecimalString(d) in m1 ==> m1[DecimalString(d)] == m2[DecimalString(d)])
  }

  /** One day's slots depend only on that day's entry. */
  lemma SlotsForDayAgree(cp: ConferenceProgramId, conf: Conference, m1: DaySchedules, m2: DaySchedules, d: nat)
    requires conf.startDate.Some?
    requires DecimalString(d) in m1 <==> DecimalString(d) in m2
    requires DecimalString(d) in m1 ==> m1[DecimalString(d)] == m2[DecimalString(d)]
    ensures SlotsForDay(cp, conf, m1, d) == SlotsForDay(cp, conf, m2, d)
  {
  }

  lemma {:induction false} GenerateFromAgree(cp: ConferenceProgramId, conf: Conference, m1: DaySchedules, m2: DaySchedules, d: nat)
    requires conf.startDate.Some? && conf.endDate.Some?
    requires AgreeOnDays(conf, m1, m2)
    ensures GenerateFrom(cp, conf, m1, d) == GenerateFrom(cp, conf, m2, d)
    decreases NumDays(conf) - d
  {
    if d < NumDays(conf) {
      SlotsForDayAgree(cp, conf, m1, m2, d);
      GenerateFromAgree(cp, conf, m1, m2, d + 1);
    }
  }

  lemma {:induction false} GenerateFromEmpty(cp: ConferenceProgramId, conf: Conference, schedules: DaySchedules, d: nat)
    requires conf.startDate.Some? && conf.endDate.Some?
    requires |schedules| == 0
    ensures GenerateFrom(cp, conf, schedules, d) == []
    decreases NumDays(conf) - d
  {
    if d < NumDays(conf) {
      assert !DayEnabled(schedules, d);
      GenerateFromEmpty(cp, conf, schedules, d + 1);
    }
  }

  /**
   * Day d consults only the key `d.to_s`: maps that agree on the keys of the
   * conference's days generate the same run, whatever other keys they hold.
   */
  lemma OnlyDayKeysConsulted(cp: ConferenceProgramId, conf: Conference, m1: DaySchedules, m2: DaySchedules)
    requires conf.startDate.Some? && conf.endDate.Some?
    requires AgreeOnDays(conf, m1, m2)
    ensures Generate(cp, conf, m1) == Generate(cp, conf, m2)
  {
    GenerateFromAgree(cp, conf, m1, m2, 0);
    if |m1| == 0 {
      GenerateFromEmpty(cp, conf, m1, 0);
    }
    if |m2| == 0 {
      GenerateFromEmpty(cp, conf, m2, 0);
    }
  }

  /** The early return on an empty map changes nothing: the day loop would emit nothing either. */
  lemma EarlyReturnImmaterial(cp: ConferenceProgramId, conf: Conference, schedules: DaySchedules)
    requires conf.startDate.Some? && conf.endDate.Some?
    ensures Generate(cp, conf, schedules) == GenerateFrom(cp, conf, schedules, 0)
  {
    if |schedules| == 0 {
      GenerateFromEmpty(cp, conf, schedules, 0);
    }
  }

  /** 09:00-10:00 on day "0" and a disabled day "1" give the four slots 09:00 .. 09:45 of the first day. */
  lemma ExampleOneHour(cp: ConferenceProgramId, date: int)
    ensures var conf := Conference(Some("Test Conference"), Some(date), Some(date + 1), Some(540), Some(1020));
            var m := map["0" := DayEntry(FlagTrue, HHMM(540), HHMM(600)), "1" := DayEntry(FlagFalse, NoTime, NoTime)];
            var r := Generate(cp, conf, m);
            |r| == 4 && r[0].start == At(date, 540) && r[3].start == At(date, 585)
  {
    var conf := Conference(Some("Test Conference"), Some(date), Some(date + 1), Some(540), Some(1020));
    var m := map["0" := DayEntry(FlagTrue, HHMM(540), HHMM(600)), "1" := DayEntry(FlagFalse, NoTime, NoTime)];
    assert DecimalString(0) == "0" && DecimalString(1) == "1";
    assert ResolveWindow(m["0"], conf) == Some((540, 600));
    var today := DaySlots(cp, date, (540, 600));
    assert SlotsForDay(cp, conf, m, 0) == today;
    assert |today| == 4;
    assert SlotsForDay(cp, conf, m, 1) == [];
    assert GenerateFrom(cp, conf, m, 2) == [];
    assert GenerateFrom(cp, conf, m, 0) == today + SlotsForDay(cp, conf, m, 1) + GenerateFrom(cp, conf, m, 2);
  }

  /** 09:00-09:30 gives two slots, 15 minutes apart. */
  lemma ExampleHalfHour(cp: ConferenceProgramId, date: int)
    ensures var conf := Conference(Some("Test Conference"), Some(date), Some(date + 1), Some(540), Some(1020));
            var r := Generate(cp, conf, map["0" := DayEntry(FlagTrue, HHMM(540), HHMM(570))]);
            |r| == 2 && r[1].start - r[0].start == SlotLength
  {
    var conf := Conference(Some("Test Conference"), Some(date), Some(date + 1), Some(540), Some(1020));
    var m := map["0" := DayEntry(FlagTrue, HHMM(540), HHMM(570))];
    assert DecimalString(0) == "0" && DecimalString(1) == "1";
    assert ResolveWindow(m["0"], conf) == Some((540, 570));
    var today := DaySlots(cp, date, (540, 570));
    assert SlotsForDay(cp, conf, m, 0) == today;
    assert |today| == 2;
    assert !DayEnabled(m, 1);
    assert GenerateFrom(cp, conf, m, 2) == [];
    assert GenerateFrom(cp, conf, m, 0) == SlotsForDay(cp, conf, m, 0) + SlotsForDay(cp, conf, m, 1) + GenerateFrom(cp, conf, m, 2);
  }

  /** An enabled day without times, under 09:00-17:00 conference hours, gives 32 slots. */
  lemma ExampleDefaultHours(cp: ConferenceProgramId, date: int)
    ensures var conf := Conference(Some("Test Conference"), Some(date), Some(date + 1), Some(540), Some(1020));
            var r := Generate(cp, conf, map["0" := DayEntry(FlagTrue, NoTime, NoTime)]);
            |r| == 32 && r[0].start == At(date, 540)
  {
    var conf := Conference(Some("Test Conference"), Some(date), Some(date + 1), Some(540), Some(1020));
    var m := map["0" := DayEntry(FlagTrue, NoTime, NoTime)];
    assert DecimalString(0) == "0" && DecimalString(1) == "1";
    assert ResolveWindow(m["0"], conf) == Some((540, 1020));
    var today := DaySlots(cp, date, (540, 1020));
    assert SlotsForDay(cp, conf, m, 0) == today;
    assert |today| == 32;
    assert !DayEnabled(m, 1);
    assert GenerateFrom(cp, conf, m, 2) == [];
    assert GenerateFrom(cp, conf, m, 0) == SlotsForDay(cp, conf, m, 0) + SlotsForDay(cp, conf, m, 1) + GenerateFrom(cp, conf, m, 2);
  }

  /**
   * An empty "start" does not fall back to the 09:00 default: it reads as
   * midnight, so "" to 10:00 gives forty slots from 00:00.  An empty "end"
   * reads as midnight too and leaves the day empty.
   */
  lemma ExampleEmptyTime(cp: ConferenceProgramId, date: int)
    ensures var conf := Conference(Some("Test Conference"), Some(date), Some(date), Some(540), Some(1020));
            var r := Generate(cp, conf, map["0" := DayEntry(FlagTrue, EmptyTime, HHMM(600))]);
            |r| == 40 && r[0].start == At(date, 0)
    ensures var conf := Conference(Some("Test Conference"), Some(date), Some(date), Some(540), Some(1020));
            Generate(cp, conf, map["0" := DayEntry(FlagTrue, HHMM(540), EmptyTime)]) == []
  {
    var conf := Conference(Some("Test Conference"), Some(date), Some(date), Some(540), Some(1020));
    var m := map["0" := DayEntry(FlagTrue, EmptyTime, HHMM(600))];
    assert DecimalString(0) == "0";
    assert ResolveWindow(m["0"], conf) == Some((0, 600));
    var today := DaySlots(cp, date, (0, 600));
    assert SlotsForDay(cp, conf, m, 0) == today;
    assert |today| == 40;
    assert GenerateFrom(cp, conf, m, 1) == [];
    assert GenerateFrom(cp, conf, m, 0) == SlotsForDay(cp, conf, m, 0) + GenerateFrom(cp, conf, m, 1);
    var m2 := map["0" := DayEntry(FlagTrue, HHMM(540), EmptyTime)];
    assert ResolveWindow(m2["0"], conf) == Some((540, 0));
    assert SlotsForDay(cp, conf, m2, 0) == DaySlots(cp, date, (540, 0));
    assert GenerateFrom(cp, conf, m2, 1) == [];
    assert GenerateFrom(cp, conf, m2, 0) == SlotsForDay(cp, conf, m2, 0) + GenerateFrom(cp, conf, m2, 1);
  }

  /** A window that is not a multiple of 15 minutes: 09:00-09:20 gives two slots, the second ending 09:30. */
  lemma ExampleOverrun(cp: ConferenceProgramId, date: int)
    ensures var conf := Conference(Some("Test Conference"), Some(date), Some(date), None, None);
            var r := Generate(cp, conf, map["0" := DayEntry(FlagTrue, HHMM(540), HHMM(560))]);
            |r| == 2 && r[1].end == At(date, 570)
  {
    var conf := Conference(Some("Test Conference"), Some(date), Some(date), None, None);
    var m := map["0" := DayEntry(FlagTrue, HHMM(540), HHMM(560))];
    assert DecimalString(0) == "0";
    assert ResolveWindow(m["0"], conf) == Some((540, 560));
    var today := DaySlots(cp, date, (540, 560));
    assert SlotsForDay(cp, conf, m, 0) == today;
    assert |today| == 2 && today[1].start == At(date, 555);
    assert GenerateFrom(cp, conf, m, 1) == [];
    assert GenerateFrom(cp, conf, m, 0) == SlotsForDay(cp, conf, m, 0) + GenerateFrom(cp, conf, m, 1);
  }

  /**
   * The controller's normalisation and the generator's strict test agree: after
   * `process_day_schedules`, day d is enabled exactly when its checkbox was submitted.
   */
  lemma SubmittedDaysEnabled(m: DaySchedules, d: nat)
    ensures DayEnabled(Normalise(m), d) <==> DecimalString(d) in m && Submitted(m[DecimalString(d)].enabled)
  {
  }

  /** A raw checkbox value "1" that was never normalised does not enable its day. */
  lemma RawCheckboxNotEnabled(schedules: DaySchedules, d: nat)
    requires DecimalString(d) in schedules && schedules[DecimalString(d)].enabled == FlagText("1")
    ensures !DayEnabled(schedules, d)
  {
  }
}
