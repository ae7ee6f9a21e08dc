/**
 * The schedule grid: the 15-minute row labels of a day and the cell each
 * timeslot of a program contributes to that day's column.
 */
module ScheduleGrid {
  import opened Wrappers
  import opened Times
  import opened Timeslots
  import opened Conferences

  /** The grid's own defaults when the conference has no hours: 08:00 and 18:00. */
  const DefaultStart: MinuteOfDay := 480
  const DefaultEnd: MinuteOfDay := 1080

  /**
   * The row labels of one day: start, start+15, ... while before the end,
   * from the conference hours or the grid's defaults.
   */
  function TimeLabels(conf: Conference): (r: seq<MinuteOfDay>)
    ensures var s := conf.hoursStart.GetOr(DefaultStart);
            var e := conf.hoursEnd.GetOr(DefaultEnd);
            && |r| == CeilSlots(s, e)
            && (forall i :: 0 <= i < |r| ==> r[i] == s + SlotLength * i && r[i] < e)
    ensures StrictlyIncreasing(r)
  {
    var steps := Steps(conf.hoursStart.GetOr(DefaultStart), conf.hoursEnd.GetOr(DefaultEnd));
    seq(|steps|, i requires 0 <= i < |steps| => steps[i] as MinuteOfDay)
  }

  /** A conference without hours gets the 40 labels 08:00 .. 17:45. */
  lemma DefaultLabels(conf: Conference)
    requires conf.hoursStart.None? && conf.hoursEnd.None?
    ensures |TimeLabels(conf)| == 40
    ensures TimeLabels(conf)[0] == 480 && TimeLabels(conf)[39] == 1065
  {
  }

  /** What the grid shows for one timeslot. */
  datatype Cell = Cell(signedUp: int, maxVolunteers: int, full: bool)

  /** The cell copies the counts and shows the slot as full exactly when it is not available. */
  function CellOf(t: Timeslot): (c: Cell)
    ensures c.signedUp == t.count && c.maxVolunteers == t.maxVolunteers
    ensures c.full <==> !Available(t)
  {
    Cell(t.count, t.maxVolunteers, Full(t))
  }

  /**
   * One program's column for one date: each of its timeslots that starts on
   * that date is stored under its "HH:MM", later ones overwriting earlier ones.
   */
  function DayCells(slots: seq<Timeslot>, date: int): (m: map<MinuteOfDay, Cell>)
    ensures m.Keys == set i | 0 <= i < |slots| && DateOf(slots[i].start) == date :: MinuteOf(slots[i].start)
  {
    if |slots| == 0 then map[]
    else
      var m := DayCells(slots[..|slots| - 1], date);
      var t := slots[|slots| - 1];
      assert forall i :: 0 <= i < |slots| - 1 ==> slots[..|slots| - 1][i] == slots[i];
      if DateOf(t.start) == date then m[MinuteOf(t.start) := CellOf(t)] else m
  }

  /**
   * With the per-program start uniqueness no cell is overwritten: every
   * timeslot of the date is shown under its own "HH:MM".
   */
  lemma {:induction false} EveryCellShown(slots: seq<Timeslot>, date: int, cp: ConferenceProgramId, i: nat)
    requires forall k :: 0 <= k < |slots| ==> slots[k].conferenceProgram == cp
    requires UniqueStarts(slots)
    requires i < |slots| && DateOf(slots[i].start) == date
    ensures MinuteOf(slots[i].start) in DayCells(slots, date)
    ensures DayCells(slots, date)[MinuteOf(slots[i].start)] == CellOf(slots[i])
  {
    var n := |slots| - 1;
    var init := slots[..n];
    var t := slots[n];
    if i < n {
      assert UniqueStarts(init) by {
        forall a, b | 0 <= a < b < |init| && init[a].conferenceProgram == init[b].conferenceProgram
          ensures init[a].start != init[b].start
        {
          assert init[a] == slots[a] && init[b] == slots[b];
        }
      }
      assert init[i] == slots[i];
      EveryCellShown(init, date, cp, i);
      if DateOf(t.start) == date && MinuteOf(t.start) == MinuteOf(slots[i].start) {
        assert false;
      }
    }
  }
}
