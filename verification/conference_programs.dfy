/**
 * The conference-program pairing (the enrollment of one program in one
 * conference), its day-schedule map, and the controller helpers that turn a
 * submitted form into stored attributes.
 */
module ConferencePrograms {
  import opened Wrappers
  import opened Times
  import opened Conferences

  type ProgramId = nat

  /**
   * The value stored under "enabled": the JSON boolean `true`, `false`, a form
   * string such as "1" or "0", or nothing.
   */
  datatype Flag = FlagTrue | FlagFalse | FlagText(text: string) | FlagNil

  /**
   * A "start" or "end" value as stored: absent (`nil`), the empty string an
   * unfilled time field submits, or an "HH:MM" time.
   */
  datatype TimeField = NoTime | EmptyTime | HHMM(minute: MinuteOfDay)

  /** One day's entry: whether it is on, and its two time fields. */
  datatype DayEntry = DayEntry(enabled: Flag, start: TimeField, end: TimeField)

  /** Keyed by the day offset from the conference start, written as a string ("0", "1", ...). */
  type DaySchedules = map<string, DayEntry>

  datatype ConferenceProgram = ConferenceProgram(
    conference: Option<ConferenceId>,
    program: Option<ProgramId>,
    publicDescription: Option<string>,
    maxVolunteers: int,
    storedDaySchedules: Option<DaySchedules>)

  /** The `day_schedules` reader: a stored `nil` reads as the empty map. */
  function DaySchedulesOf(cp: ConferenceProgram): (m: DaySchedules)
    ensures cp.storedDaySchedules.None? ==> m == map[]
    ensures cp.storedDaySchedules.Some? ==> m == cp.storedDaySchedules.value
  {
    cp.storedDaySchedules.GetOr(map[])
  }

  datatype PairingError = ConferenceBlank | ProgramBlank | ProgramTaken

  /** Another row already pairs this program with this conference. */
  predicate PairTaken(cp: ConferenceProgram, others: seq<ConferenceProgram>)
  {
    exists k :: 0 <= k < |others| && others[k].program == cp.program && others[k].conference == cp.conference
  }

  /** Presence of both sides, and uniqueness of the program scoped by the conference. */
  function PairingErrors(cp: ConferenceProgram, others: seq<ConferenceProgram>): (errs: set<PairingError>)
    ensures ConferenceBlank in errs <==> cp.conference.None?
    ensures ProgramBlank in errs <==> cp.program.None?
    ensures ProgramTaken in errs <==> cp.program.Some? && PairTaken(cp, others)
  {
    (if cp.conference.Some? then {} else {ConferenceBlank})
    + (if cp.program.Some? then {} else {ProgramBlank})
    + (if cp.program.Some? && PairTaken(cp, others) then {ProgramTaken} else {})
  }

  /** No two rows pair the same program with the same conference: the scoped uniqueness the validation keeps. */
  predicate UniquePairs(rows: seq<ConferenceProgram>)
  {
    forall i, j :: 0 <= i < j < |rows| ==> !(rows[i].program == rows[j].program && rows[i].conference == rows[j].conference)
  }

  /** Saving rows one by one, each passing its validations, keeps the pairs unique. */
  lemma {:induction false} ValidAppendKeepsPairsUnique(rows: seq<ConferenceProgram>, cp: ConferenceProgram)
    requires UniquePairs(rows)
    requires PairingErrors(cp, rows) == {}
    ensures UniquePairs(rows + [cp])
  {
    var s := rows + [cp];
    forall i, j | 0 <= i < j < |s|
      ensures !(s[i].program == s[j].program && s[i].conference == s[j].conference)
    {
      if j == |rows| {
        assert ProgramTaken !in PairingErrors(cp, rows);
        assert s[i] == rows[i];
      }
    }
  }

  /** The same program may be paired with a second, different conference. */
  lemma SameProgramOtherConference(cp: ConferenceProgram, other: ConferenceProgram)
    requires cp.conference.Some? && cp.program.Some?
    requires other.program == cp.program && other.conference != cp.conference
    ensures PairingErrors(cp, [other]) == {}
  {
  }

  /** A form value the controller reads as "this day is on": the checkbox string "1" or `true`. */
  predicate Submitted(f: Flag)
  {
    f == FlagText("1") || f == FlagTrue
  }

  /**
   * `process_day_schedules`: with no submitted map the stored one stays;
   * otherwise only the days whose checkbox is on are kept, each rewritten to
   * `{"enabled" => true, "start" => s, "end" => e}` with s and e copied as they are.
   */
  function ProcessDaySchedules(param: Option<DaySchedules>, stored: DaySchedules): (r: DaySchedules)
    ensures param.None? ==> r == stored
    ensures param.Some? ==> r.Keys <= param.value.Keys
    ensures param.Some? ==> forall k :: k in param.value ==> (k in r <==> Submitted(param.value[k].enabled))
    ensures param.Some? ==> forall k :: k in r ==>
              r[k] == DayEntry(FlagTrue, param.value[k].start, param.value[k].end)
  {
    match param
    case None => stored
    case Some(m) => Normalise(m)
  }

  function Normalise(m: DaySchedules): (r: DaySchedules)
    ensures r.Keys <= m.Keys
    ensures forall k :: k in r ==> r[k].enabled == FlagTrue
  {
    map k | k in m && Submitted(m[k].enabled) :: DayEntry(FlagTrue, m[k].start, m[k].end)
  }

  /** Normalising a normalised map gives it back unchanged. */
  lemma NormaliseIdempotent(m: DaySchedules)
    ensures Normalise(Normalise(m)) == Normalise(m)
  {
  }

  /** The attributes a create or update form may submit, before `permit`. */
  datatype ProgramParams = ProgramParams(
    program: Option<ProgramId>,
    publicDescription: Option<string>,
    maxVolunteers: Option<int>,
    daySchedules: Option<DaySchedules>)

  /**
   * `assign_attributes(conference_program_params)` followed by
   * `process_day_schedules`: only the program and the public description are
   * permitted, so a submitted capacity is ignored.
   */
  function AssignParams(cp: ConferenceProgram, params: ProgramParams): (r: ConferenceProgram)
    ensures r.maxVolunteers == cp.maxVolunteers
    ensures r.conference == cp.conference
    ensures params.program.Some? ==> r.program == params.program
    ensures params.program.None? ==> r.program == cp.program
    ensures params.daySchedules.None? ==> r.storedDaySchedules == cp.storedDaySchedules
    ensures params.daySchedules.Some? ==> r.storedDaySchedules == Some(Normalise(params.daySchedules.value))
  {
    var permitted := cp.(
      program := if params.program.Some? then params.program else cp.program,
      publicDescription := if params.publicDescription.Some? then params.publicDescription else cp.publicDescription);
    if params.daySchedules.Some? then
      permitted.(storedDaySchedules := Some(ProcessDaySchedules(params.daySchedules, DaySchedulesOf(permitted))))
    else
      permitted
  }
}
