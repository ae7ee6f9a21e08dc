/** The timeslot record: one 15-minute shift of one conference program. */
module Timeslots {
  import opened Times

  type ConferenceProgramId = nat

  /** A persisted timeslot; `count` is `current_volunteers_count`. */
  datatype Timeslot = Timeslot(
    conferenceProgram: ConferenceProgramId,
    start: int,
    end: int,
    maxVolunteers: int,
    count: int)

  /**
   * A new record as it is saved: the `before_validation` hook sets the end to
   * the start plus 15 minutes, and the count starts at its column default 0.
   */
  function NewTimeslot(cp: ConferenceProgramId, start: int, maxVolunteers: int): (t: Timeslot)
    ensures t.conferenceProgram == cp && t.start == start && t.maxVolunteers == maxVolunteers
    ensures t.end - t.start == SlotLength
    ensures t.count == 0
  {
    Timeslot(cp, start, start + SlotLength, maxVolunteers, 0)
  }

  /** A record built without a capacity takes the column default of 1. */
  function DefaultTimeslot(cp: ConferenceProgramId, start: int): (t: Timeslot)
    ensures t.maxVolunteers == 1 && t.count == 0
    ensures t.end == t.start + SlotLength && t.start == start
  {
    NewTimeslot(cp, start, 1)
  }

  /** `available?`: at least one spot is still open. */
  function Available(t: Timeslot): (r: bool)
    ensures r <==> t.maxVolunteers - t.count >= 1
  {
    t.count < t.maxVolunteers
  }

  /** `full?` is the exact complement of `available?`. */
  function Full(t: Timeslot): (r: bool)
    ensures r <==> !Available(t)
  {
    t.count >= t.maxVolunteers
  }

  datatype TimeslotError = MaxNotPositive | CountNegative | StartTaken

  /** The validations that look at the record alone. */
  function FieldErrors(t: Timeslot): (errs: set<TimeslotError>)
    ensures errs == {} <==> t.maxVolunteers > 0 && t.count >= 0
    ensures StartTaken !in errs
  {
    (if t.maxVolunteers > 0 then {} else {MaxNotPositive})
    + (if t.count >= 0 then {} else {CountNegative})
  }

  /** Another record of the same conference program already starts at this instant. */
  predicate StartTakenBy(t: Timeslot, others: seq<Timeslot>)
  {
    exists k :: 0 <= k < |others| && others[k].conferenceProgram == t.conferenceProgram && others[k].start == t.start
  }

  /** All validations of a record against the other persisted records. */
  function ValidationErrors(t: Timeslot, others: seq<Timeslot>): (errs: set<TimeslotError>)
    ensures errs == {} <==> t.maxVolunteers > 0 && t.count >= 0 && !StartTakenBy(t, others)
    ensures StartTaken in errs <==> StartTakenBy(t, others)
  {
    FieldErrors(t) + (if StartTakenBy(t, others) then {StartTaken} else {})
  }

  /** The per-program start-time uniqueness that the validation and the unique index keep. */
  predicate UniqueStarts(slots: seq<Timeslot>)
  {
    forall i, j :: 0 <= i < j < |slots| && slots[i].conferenceProgram == slots[j].conferenceProgram
      ==> slots[i].start != slots[j].start
  }

  /** Saving records one by one, each passing its validation, keeps the starts unique. */
  lemma {:induction false} ValidAppendKeepsUnique(slots: seq<Timeslot>, t: Timeslot)
    requires UniqueStarts(slots)
    requires ValidationErrors(t, slots) == {}
    ensures UniqueStarts(slots + [t])
  {
    var s := slots + [t];
    forall i, j | 0 <= i < j < |s| && s[i].conferenceProgram == s[j].conferenceProgram
      ensures s[i].start != s[j].start
    {
      if j == |slots| {
        assert !StartTakenBy(t, slots);
        assert s[i] == slots[i];
      }
    }
  }

  lemma NewTimeslotDefaults(cp: ConferenceProgramId, start: int)
    ensures var t := DefaultTimeslot(cp, start);
      FieldErrors(t) == {} && Available(t) && !Full(t)
  {
  }
}
