/**
 * The bulk capacity job: set a new capacity on every timeslot of one
 * conference program, skipping any whose count is above the new value, and
 * report how many were updated and how many skipped.
 */
module CapacityJob {
  import opened Timeslots

  datatype Tally = Tally(updated: nat, skipped: nat)

  /**
   * `Finished` is the returned tally with the state it leaves; `Raised` is an
   * `update!` that failed validation, with the rows saved before it.
   */
  datatype JobResult = Finished(slots: seq<Timeslot>, tally: Tally) | Raised(slots: seq<Timeslot>)

  /** The job writes this row: it belongs to the program and its count is not above the new value. */
  predicate Updatable(t: Timeslot, cp: ConferenceProgramId, newMax: int)
  {
    t.conferenceProgram == cp && t.count <= newMax
  }

  /** The job skips this row. */
  predicate Skippable(t: Timeslot, cp: ConferenceProgramId, newMax: int)
  {
    t.conferenceProgram == cp && t.count > newMax
  }

  /** The effect of the job on one row. */
  function Apply(t: Timeslot, cp: ConferenceProgramId, newMax: int): Timeslot
  {
    if Updatable(t, cp, newMax) then t.(maxVolunteers := newMax) else t
  }

  /**
   * The state after the job over all rows.  Counts, programs and times never
   * change; rows of other programs and skipped rows stay as they were; every
   * updated row has the new capacity and a count within it.
   */
  function ApplyAll(slots: seq<Timeslot>, cp: ConferenceProgramId, newMax: int): (r: seq<Timeslot>)
    ensures |r| == |slots|
    ensures forall i :: 0 <= i < |r| ==>
      r[i].count == slots[i].count && r[i].conferenceProgram == slots[i].conferenceProgram
      && r[i].start == slots[i].start && r[i].end == slots[i].end
    ensures forall i :: 0 <= i < |r| && slots[i].conferenceProgram != cp ==> r[i] == slots[i]
    ensures forall i :: 0 <= i < |r| && Skippable(slots[i], cp, newMax) ==> r[i] == slots[i]
    ensures forall i :: 0 <= i < |r| && Updatable(slots[i], cp, newMax) ==>
      r[i].maxVolunteers == newMax && r[i].count <= r[i].maxVolunteers
  {
    seq(|slots|, i requires 0 <= i < |slots| => Apply(slots[i], cp, newMax))
  }

  /** The number of rows of `cp` among `slots`. */
  function CountOfProgram(slots: seq<Timeslot>, cp: ConferenceProgramId): nat
  {
    if |slots| == 0 then 0
    else CountOfProgram(slots[..|slots| - 1], cp) + (if slots[|slots| - 1].conferenceProgram == cp then 1 else 0)
  }

  function CountUpdatable(slots: seq<Timeslot>, cp: ConferenceProgramId, newMax: int): nat
  {
    if |slots| == 0 then 0
    else CountUpdatable(slots[..|slots| - 1], cp, newMax) + (if Updatable(slots[|slots| - 1], cp, newMax) then 1 else 0)
  }

  function CountSkippable(slots: seq<Timeslot>, cp: ConferenceProgramId, newMax: int): nat
  {
    if |slots| == 0 then 0
    else CountSkippable(slots[..|slots| - 1], cp, newMax) + (if Skippable(slots[|slots| - 1], cp, newMax) then 1 else 0)
  }

  /** updated + skipped is the number of timeslots of the program. */
  lemma {:induction false} TallyCoversProgram(slots: seq<Timeslot>, cp: ConferenceProgramId, newMax: int)
    ensures CountUpdatable(slots, cp, newMax) + CountSkippable(slots, cp, newMax) == CountOfProgram(slots, cp)
  {
    if |slots| > 0 {
      TallyCoversProgram(slots[..|slots| - 1], cp, newMax);
    }
  }

  /** A row the job would fail to save: not skipped, and invalid once given the new capacity. */
  predicate Rejects(t: Timeslot, cp: ConferenceProgramId, newMax: int)
  {
    Updatable(t, cp, newMax) && FieldErrors(t.(maxVolunteers := newMax)) != {}
  }

  lemma ApplyAllSnoc(slots: seq<Timeslot>, i: nat, cp: ConferenceProgramId, newMax: int)
    requires i < |slots|
    ensures ApplyAll(slots[..i + 1], cp, newMax) == ApplyAll(slots[..i], cp, newMax) + [Apply(slots[i], cp, newMax)]
  {
  }

  lemma CountsSnoc(slots: seq<Timeslot>, i: nat, cp: ConferenceProgramId, newMax: int)
    requires i < |slots|
    ensures CountUpdatable(slots[..i + 1], cp, newMax)
         == CountUpdatable(slots[..i], cp, newMax) + (if Updatable(slots[i], cp, newMax) then 1 else 0)
    ensures CountSkippable(slots[..i + 1], cp, newMax)
         == CountSkippable(slots[..i], cp, newMax) + (if Skippable(slots[i], cp, newMax) then 1 else 0)
  {
    assert slots[..i + 1][..i] == slots[..i];
  }

  /** Rows before k carry the job's effect, rows from k on are as they were. */
  predicate DoneUpTo(state: seq<Timeslot>, slots: seq<Timeslot>, k: nat, cp: ConferenceProgramId, newMax: int)
  {
    && |state| == |slots| && k <= |slots|
    && (forall j :: 0 <= j < k ==> state[j] == Apply(slots[j], cp, newMax))
    && (forall j :: k <= j < |slots| ==> state[j] == slots[j])
  }

  /**
   * `perform`: an unknown program returns {0, 0} and changes nothing.
   * Otherwise the rows are visited in order; a row whose count exceeds the new
   * value is skipped, every other row of the program gets the new capacity
   * through `update!`, which raises on the first row that would not validate.
   */
  method Perform(programs: set<ConferenceProgramId>, slots: seq<Timeslot>, cp: ConferenceProgramId, newMax: int)
    returns (r: JobResult)
    ensures cp !in programs ==> r == Finished(slots, Tally(0, 0))
    ensures cp in programs && newMax > 0 && (forall i :: 0 <= i < |slots| ==> slots[i].count >= 0) ==> r.Finished?
    ensures r.Finished? && cp in programs ==>
      && r.slots == ApplyAll(slots, cp, newMax)
      && r.tally == Tally(CountUpdatable(slots, cp, newMax), CountSkippable(slots, cp, newMax))
      && forall i :: 0 <= i < |slots| ==> !Rejects(slots[i], cp, newMax)
    ensures r.Raised? ==>
      cp in programs &&
      exists k :: 0 <= k < |slots| && Rejects(slots[k], cp, newMax) && DoneUpTo(r.slots, slots, k, cp, newMax)
        && forall j :: 0 <= j < k ==> !Rejects(slots[j], cp, newMax)
  {
    if cp !in programs {
      return Finished(slots, Tally(0, 0));
    }
    var state := slots;
    var updated := 0;
    var skipped := 0;
    var i := 0;
    while i < |slots|
      invariant 0 <= i <= |slots|
      invariant DoneUpTo(state, slots, i, cp, newMax)
      invariant updated == CountUpdatable(slots[..i], cp, newMax)
      invariant skipped == CountSkippable(slots[..i], cp, newMax)
      invariant forall j :: 0 <= j < i ==> !Rejects(slots[j], cp, newMax)
    {
      var t := slots[i];
      CountsSnoc(slots, i, cp, newMax);
      if t.conferenceProgram != cp {
        // not one of the program's timeslots: the scan does not see it
      } else if t.count > newMax {
        skipped := skipped + 1;
      } else {
        if FieldErrors(t.(maxVolunteers := newMax)) != {} {
          assert Rejects(slots[i], cp, newMax);
          return Raised(state);
        }
        state := state[i := t.(maxVolunteers := newMax)];
        updated := updated + 1;
      }
      i := i + 1;
    }
    assert slots[..i] == slots;
    assert state == ApplyAll(slots, cp, newMax);
    return Finished(state, Tally(updated, skipped));
  }

  /** Running the job a second time with the same value leaves the same rows and reports the same tally. */
  lemma {:induction false} CascadeIdempotent(slots: seq<Timeslot>, cp: ConferenceProgramId, newMax: int)
    ensures ApplyAll(ApplyAll(slots, cp, newMax), cp, newMax) == ApplyAll(slots, cp, newMax)
    ensures CountUpdatable(ApplyAll(slots, cp, newMax), cp, newMax) == CountUpdatable(slots, cp, newMax)
    ensures CountSkippable(ApplyAll(slots, cp, newMax), cp, newMax) == CountSkippable(slots, cp, newMax)
  {
    if |slots| > 0 {
      var init := slots[..|slots| - 1];
      CascadeIdempotent(init, cp, newMax);
      assert ApplyAll(slots, cp, newMax)[..|slots| - 1] == ApplyAll(init, cp, newMax);
    }
  }

  /** Counts 2, 4 and 6 cascaded to capacity 3: the first row is updated, the other two skipped. */
  lemma ExampleTally(cp: ConferenceProgramId)
    ensures var slots := [Timeslot(cp, 0, 15, 5, 2), Timeslot(cp, 15, 30, 5, 4), Timeslot(cp, 30, 45, 5, 6)];
      CountUpdatable(slots, cp, 3) == 1 && CountSkippable(slots, cp, 3) == 2
      && ApplyAll(slots, cp, 3) == [Timeslot(cp, 0, 15, 3, 2), Timeslot(cp, 15, 30, 5, 4), Timeslot(cp, 30, 45, 5, 6)]
  {
    var slots := [Timeslot(cp, 0, 15, 5, 2), Timeslot(cp, 15, 30, 5, 4), Timeslot(cp, 30, 45, 5, 6)];
    CountsSnoc(slots, 0, cp, 3);
    CountsSnoc(slots, 1, cp, 3);
    CountsSnoc(slots, 2, cp, 3);
    assert slots[..3] == slots;
  }
}
