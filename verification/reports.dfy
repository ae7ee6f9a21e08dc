/**
 * The conference reports: the timeslots of one conference narrowed by the
 * optional program and date filters, then the shift-assignment list (slots
 * with someone signed up) and the unmanned list (slots with room), both
 * ordered by start time.
 */
module Reports {
  import opened Wrappers
  import opened Times
  import opened Timeslots
  import opened Conferences
  import opened ConferencePrograms

  /** The conference and program a conference-program id stands for. */
  datatype Pairing = Pairing(conference: ConferenceId, program: ProgramId)

  /** The `program_id` and `date` query parameters, when present. */
  datatype ReportParams = ReportParams(program: Option<ProgramId>, date: Option<int>)

  /**
   * `filtered_timeslots`: a slot is kept when its program pairing belongs to
   * the conference and it passes each filter that is present.
   */
  function Kept(t: Timeslot, pairings: map<ConferenceProgramId, Pairing>, conf: ConferenceId, params: ReportParams): (r: bool)
    ensures r ==> t.conferenceProgram in pairings && pairings[t.conferenceProgram].conference == conf
    ensures r && params.program.Some? ==> pairings[t.conferenceProgram].program == params.program.value
    ensures r && params.date.Some? ==> DateOf(t.start) == params.date.value
    ensures params.program.None? && params.date.None? ==>
      (r <==> t.conferenceProgram in pairings && pairings[t.conferenceProgram].conference == conf)
  {
    && t.conferenceProgram in pairings
    && pairings[t.conferenceProgram].conference == conf
    && (params.program.Some? ==> pairings[t.conferenceProgram].program == params.program.value)
    && (params.date.Some? ==> DateOf(t.start) == params.date.value)
  }

  /** The elements of `s` that satisfy `p`, in order. */
  function Filter(s: seq<Timeslot>, p: Timeslot -> bool): (r: seq<Timeslot>)
    ensures forall x :: multiset(r)[x] == if p(x) then multiset(s)[x] else 0
    ensures forall i :: 0 <= i < |r| ==> p(r[i])
  {
    if |s| == 0 then []
    else
      var rest := Filter(s[1..], p);
      assert s == [s[0]] + s[1..];
      if p(s[0]) then [s[0]] + rest else rest
  }

  predicate SortedByStart(s: seq<Timeslot>)
  {
    forall i, j :: 0 <= i < j < |s| ==> s[i].start <= s[j].start
  }

  function Insert(x: Timeslot, s: seq<Timeslot>): (r: seq<Timeslot>)
    requires SortedByStart(s)
    ensures SortedByStart(r)
    ensures multiset(r) == multiset(s) + multiset{x}
    ensures forall k :: 0 <= k < |r| ==> r[k] == x || r[k] in s
  {
    if |s| == 0 then [x]
    else if x.start <= s[0].start then [x] + s
    else
      assert s == [s[0]] + s[1..];
      [s[0]] + Insert(x, s[1..])
  }

  /** `order(:start_time)`: a reordering of its input by start time. */
  function SortByStart(s: seq<Timeslot>): (r: seq<Timeslot>)
    ensures SortedByStart(r)
    ensures multiset(r) == multiset(s)
  {
    if |s| == 0 then []
    else
      assert s == [s[0]] + s[1..];
      Insert(s[0], SortByStart(s[1..]))
  }

  lemma MembersOfMultiset(r: seq<Timeslot>, s: seq<Timeslot>, p: Timeslot -> bool)
    requires forall x :: multiset(r)[x] == if p(x) then multiset(s)[x] else 0
    ensures forall i :: 0 <= i < |r| ==> p(r[i])
  {
    forall i | 0 <= i < |r|
      ensures p(r[i])
    {
      assert r[i] in multiset(r);
    }
  }

  /**
   * The shift-assignment list: exactly the kept slots with a count above
   * zero, each as often as it occurs, in start order.
   */
  function ShiftAssignments(slots: seq<Timeslot>, pairings: map<ConferenceProgramId, Pairing>, conf: ConferenceId, params: ReportParams): (r: seq<Timeslot>)
    ensures SortedByStart(r)
    ensures forall x :: multiset(r)[x] == if Kept(x, pairings, conf, params) && x.count > 0 then multiset(slots)[x] else 0
    ensures forall i :: 0 <= i < |r| ==> Kept(r[i], pairings, conf, params) && r[i].count > 0
  {
    var p := (t: Timeslot) => Kept(t, pairings, conf, params) && t.count > 0;
    var r := SortByStart(Filter(slots, p));
    MembersOfMultiset(r, slots, p);
    r
  }

  /**
   * The unmanned list: exactly the kept slots that are still available,
   * each as often as it occurs, in start order.
   */
  function UnmannedShifts(slots: seq<Timeslot>, pairings: map<ConferenceProgramId, Pairing>, conf: ConferenceId, params: ReportParams): (r: seq<Timeslot>)
    ensures SortedByStart(r)
    ensures forall x :: multiset(r)[x] == if Kept(x, pairings, conf, params) && Available(x) then multiset(slots)[x] else 0
    ensures forall i :: 0 <= i < |r| ==> Kept(r[i], pairings, conf, params) && Available(r[i])
  {
    var p := (t: Timeslot) => Kept(t, pairings, conf, params) && Available(t);
    var r := SortByStart(Filter(slots, p));
    MembersOfMultiset(r, slots, p);
    r
  }

  /** The unmanned report's "Spots Available" column. */
  function SpotsAvailable(t: Timeslot): (n: int)
    ensures n > 0 <==> Available(t)
    ensures t.count + n == t.maxVolunteers
  {
    t.maxVolunteers - t.count
  }

  /** Every row of the unmanned report has at least one spot open. */
  lemma UnmannedRowsHaveRoom(slots: seq<Timeslot>, pairings: map<ConferenceProgramId, Pairing>, conf: ConferenceId, params: ReportParams)
    ensures forall i :: 0 <= i < |UnmannedShifts(slots, pairings, conf, params)| ==>
      SpotsAvailable(UnmannedShifts(slots, pairings, conf, params)[i]) >= 1
  {
  }

  /** With neither parameter the filter keeps every slot of the conference. */
  lemma NoParamsKeepsConference(t: Timeslot, pairings: map<ConferenceProgramId, Pairing>, conf: ConferenceId)
    ensures Kept(t, pairings, conf, ReportParams(None, None))
        <==> t.conferenceProgram in pairings && pairings[t.conferenceProgram].conference == conf
  {
  }

  /** Both parameters together keep exactly what each keeps on its own. */
  lemma FiltersIntersect(t: Timeslot, pairings: map<ConferenceProgramId, Pairing>, conf: ConferenceId, program: ProgramId, date: int)
    ensures Kept(t, pairings, conf, ReportParams(Some(program), Some(date)))
        <==> Kept(t, pairings, conf, ReportParams(Some(program), None)) && Kept(t, pairings, conf, ReportParams(None, Some(date)))
  {
  }
}
