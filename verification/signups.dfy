/**
 * Signup admission and the occupancy counter: the validations a new signup
 * must pass, and the +1 / -1 the create and destroy callbacks apply to the
 * timeslot's count.
 */
module Signups {
  import opened Wrappers
  import opened Timeslots

  type UserId = nat
  type TimeslotId = nat
  type QualificationId = nat

  /** One user's claim on one timeslot. */
  datatype Signup = Signup(user: UserId, timeslot: TimeslotId)

  /** The persisted timeslots of every program, and the signups that reference them. */
  datatype Store = Store(timeslots: map<TimeslotId, Timeslot>, signups: set<Signup>)

  /** A signup being built: its user and timeslot references, either of which may be missing. */
  datatype SignupRequest = SignupRequest(user: Option<UserId>, timeslot: Option<TimeslotId>)

  datatype SignupError =
    | UserBlank
    | TimeslotBlank
    | AlreadySignedUp
    | OverlappingSignup
    | TimeslotFull
    | MissingQualifications(missing: set<QualificationId>)

  /** Half-open intervals [start, end) that share an instant. */
  predicate Overlaps(a: Timeslot, b: Timeslot)
  {
    a.start < b.end && a.end > b.start
  }

  lemma OverlapsSymmetric(a: Timeslot, b: Timeslot)
    ensures Overlaps(a, b) <==> Overlaps(b, a)
  {
  }

  /** The timeslot reference resolves to a persisted record. */
  predicate HasSlot(store: Store, req: SignupRequest)
  {
    req.timeslot.Some? && req.timeslot.value in store.timeslots
  }

  /**
   * The user already holds a signup on a different timeslot, of any program,
   * whose interval overlaps this one.  Back-to-back slots do not overlap.
   */
  function ClashesWithOwnSignup(store: Store, u: UserId, id: TimeslotId): (r: bool)
    requires id in store.timeslots
    ensures r <==> (exists s :: s in store.signups && s.user == u && s.timeslot != id && s.timeslot in store.timeslots
                               && store.timeslots[s.timeslot].start < store.timeslots[id].end
                               && store.timeslots[s.timeslot].end > store.timeslots[id].start)
  {
    exists s :: s in store.signups && s.user == u && s.timeslot != id && s.timeslot in store.timeslots
      && Overlaps(store.timeslots[s.timeslot], store.timeslots[id])
  }

  /**
   * Every validation runs and the errors accumulate: presence of both
   * references, the (user, timeslot) uniqueness, the overlap check, the
   * capacity check, and the qualification check, which names every missing
   * qualification.  `required` and `held` are the program's required set and
   * the user's held set.
   */
  function SignupErrors(store: Store, req: SignupRequest, required: set<QualificationId>, held: set<QualificationId>): (errs: set<SignupError>)
    ensures UserBlank in errs <==> req.user.None?
    ensures TimeslotBlank in errs <==> !HasSlot(store, req)
    ensures AlreadySignedUp in errs <==>
      req.user.Some? && HasSlot(store, req) && Signup(req.user.value, req.timeslot.value) in store.signups
    ensures OverlappingSignup in errs <==>
      req.user.Some? && HasSlot(store, req) && ClashesWithOwnSignup(store, req.user.value, req.timeslot.value)
    ensures TimeslotFull in errs <==> HasSlot(store, req) && Full(store.timeslots[req.timeslot.value])
    ensures forall m :: MissingQualifications(m) in errs <==>
      req.user.Some? && HasSlot(store, req) && m == required - held && m != {}
  {
    var both := req.user.Some? && HasSlot(store, req);
    (if req.user.Some? then {} else {UserBlank})
    + (if HasSlot(store, req) then {} else {TimeslotBlank})
    + (if both && Signup(req.user.value, req.timeslot.value) in store.signups then {AlreadySignedUp} else {})
    + (if both && ClashesWithOwnSignup(store, req.user.value, req.timeslot.value) then {OverlappingSignup} else {})
    + (if HasSlot(store, req) && store.timeslots[req.timeslot.value].count >= store.timeslots[req.timeslot.value].maxVolunteers
       then {TimeslotFull} else {})
    + (if both && required - held != {} then {MissingQualifications(required - held)} else {})
  }

  /** A signup is admitted exactly when no check fires. */
  lemma AdmittedIff(store: Store, req: SignupRequest, required: set<QualificationId>, held: set<QualificationId>)
    ensures SignupErrors(store, req, required, held) == {} <==>
      && req.user.Some? && HasSlot(store, req)
      && Signup(req.user.value, req.timeslot.value) !in store.signups
      && !ClashesWithOwnSignup(store, req.user.value, req.timeslot.value)
      && Available(store.timeslots[req.timeslot.value])
      && required <= held
  {
    var errs := SignupErrors(store, req, required, held);
    if req.user.Some? && HasSlot(store, req) && required - held != {} {
      assert MissingQualifications(required - held) in errs;
    }
  }

  /**
   * `create`: a valid signup is inserted and the `after_create` callback adds
   * exactly 1 to its timeslot's count; an invalid one changes nothing and
   * reports every error.
   */
  function Create(store: Store, req: SignupRequest, required: set<QualificationId>, held: set<QualificationId>): (r: Result<Store, set<SignupError>>)
    ensures r.Success? <==> SignupErrors(store, req, required, held) == {}
    ensures r.Failure? ==> r.error == SignupErrors(store, req, required, held)
    ensures r.Success? ==>
      var s := Signup(req.user.value, req.timeslot.value);
      var t := store.timeslots[s.timeslot];
      && s !in store.signups
      && r.value.signups == store.signups + {s}
      && r.value.timeslots == store.timeslots[s.timeslot := t.(count := t.count + 1)]
    ensures r.Success? ==>
      var t' := r.value.timeslots[req.timeslot.value];
      t'.count <= t'.maxVolunteers
  {
    var errs := SignupErrors(store, req, required, held);
    if errs != {} then
      Failure(errs)
    else
      AdmittedIff(store, req, required, held);
      var s := Signup(req.user.value, req.timeslot.value);
      var t := store.timeslots[s.timeslot];
      Success(Store(store.timeslots[s.timeslot := t.(count := t.count + 1)], store.signups + {s}))
  }

  /** `destroy`: the signup goes and the `after_destroy` callback subtracts exactly 1. */
  function Destroy(store: Store, s: Signup): (r: Store)
    requires s in store.signups && s.timeslot in store.timeslots
    ensures s !in r.signups && r.signups + {s} == store.signups
    ensures r.timeslots.Keys == store.timeslots.Keys
    ensures r.timeslots[s.timeslot].count == store.timeslots[s.timeslot].count - 1
    ensures r.timeslots[s.timeslot] == store.timeslots[s.timeslot].(count := store.timeslots[s.timeslot].count - 1)
    ensures forall id :: id in store.timeslots && id != s.timeslot ==> r.timeslots[id] == store.timeslots[id]
  {
    var t := store.timeslots[s.timeslot];
    Store(store.timeslots[s.timeslot := t.(count := t.count - 1)], store.signups - {s})
  }

  // ---- invariants of the signup path ----

  predicate ReferencesExist(store: Store)
  {
    forall s :: s in store.signups ==> s.timeslot in store.timeslots
  }

  function SignupsOn(signups: set<Signup>, id: TimeslotId): set<Signup>
  {
    set s | s in signups && s.timeslot == id
  }

  /** Each timeslot's count is the number of live signups referencing it. */
  predicate CountsMatch(store: Store)
  {
    forall id :: id in store.timeslots ==> store.timeslots[id].count == |SignupsOn(store.signups, id)|
  }

  /** No user holds two signups on different timeslots whose intervals overlap. */
  predicate NoOverlaps(store: Store)
  {
    forall a, b :: a in store.signups && b in store.signups && a.user == b.user && a.timeslot != b.timeslot
      && a.timeslot in store.timeslots && b.timeslot in store.timeslots
      ==> !Overlaps(store.timeslots[a.timeslot], store.timeslots[b.timeslot])
  }

  predicate WithinCapacity(store: Store)
  {
    forall id :: id in store.timeslots ==> store.timeslots[id].count <= store.timeslots[id].maxVolunteers
  }

  predicate Consistent(store: Store)
  {
    ReferencesExist(store) && CountsMatch(store) && NoOverlaps(store)
  }

  lemma SignupsOnAdd(signups: set<Signup>, s: Signup, id: TimeslotId)
    requires s !in signups
    ensures s.timeslot == id ==> |SignupsOn(signups + {s}, id)| == |SignupsOn(signups, id)| + 1
    ensures s.timeslot != id ==> SignupsOn(signups + {s}, id) == SignupsOn(signups, id)
  {
    if s.timeslot == id {
      assert SignupsOn(signups + {s}, id) == SignupsOn(signups, id) + {s};
    }
  }

  lemma SignupsOnRemove(signups: set<Signup>, s: Signup, id: TimeslotId)
    requires s in signups
    ensures s.timeslot == id ==> |SignupsOn(signups - {s}, id)| == |SignupsOn(signups, id)| - 1
    ensures s.timeslot != id ==> SignupsOn(signups - {s}, id) == SignupsOn(signups, id)
  {
    if s.timeslot == id {
      assert SignupsOn(signups - {s}, id) == SignupsOn(signups, id) - {s};
    }
  }

  /** Inserting a new signup and adding 1 to its timeslot's count keeps the counts exact. */
  lemma AddKeepsCounts(store: Store, s: Signup)
    requires CountsMatch(store) && s !in store.signups && s.timeslot in store.timeslots
    ensures var t := store.timeslots[s.timeslot];
      CountsMatch(Store(store.timeslots[s.timeslot := t.(count := t.count + 1)], store.signups + {s}))
  {
    var t := store.timeslots[s.timeslot];
    var r := Store(store.timeslots[s.timeslot := t.(count := t.count + 1)], store.signups + {s});
    forall id | id in r.timeslots
      ensures r.timeslots[id].count == |SignupsOn(r.signups, id)|
    {
      SignupsOnAdd(store.signups, s, id);
    }
  }

  /** Inserting a signup that clashes with none of its user's signups keeps the store free of overlaps. */
  lemma AddKeepsNoOverlaps(store: Store, s: Signup, c: int)
    requires NoOverlaps(store) && s.timeslot in store.timeslots
    requires !ClashesWithOwnSignup(store, s.user, s.timeslot)
    ensures NoOverlaps(Store(store.timeslots[s.timeslot := store.timeslots[s.timeslot].(count := c)], store.signups + {s}))
  {
    var r := Store(store.timeslots[s.timeslot := store.timeslots[s.timeslot].(count := c)], store.signups + {s});
    forall a, b | a in r.signups && b in r.signups && a.user == b.user && a.timeslot != b.timeslot
      && a.timeslot in r.timeslots && b.timeslot in r.timeslots
      ensures !Overlaps(r.timeslots[a.timeslot], r.timeslots[b.timeslot])
    {
      assert r.timeslots[a.timeslot].start == store.timeslots[a.timeslot].start;
      assert r.timeslots[a.timeslot].end == store.timeslots[a.timeslot].end;
      assert r.timeslots[b.timeslot].start == store.timeslots[b.timeslot].start;
      assert r.timeslots[b.timeslot].end == store.timeslots[b.timeslot].end;
      if a == s {
        assert b in store.signups;
      } else if b == s {
        assert a in store.signups;
      }
    }
  }

  /** An admitted signup keeps counts equal to live signups, and keeps every user free of overlaps. */
  lemma CreatePreservesConsistency(store: Store, req: SignupRequest, required: set<QualificationId>, held: set<QualificationId>)
    requires Consistent(store)
    requires Create(store, req, required, held).Success?
    ensures Consistent(Create(store, req, required, held).value)
  {
    var s := Signup(req.user.value, req.timeslot.value);
    AdmittedIff(store, req, required, held);
    AddKeepsCounts(store, s);
    AddKeepsNoOverlaps(store, s, store.timeslots[s.timeslot].count + 1);
  }

  /** An admitted signup on a store within capacity keeps it within capacity. */
  lemma CreatePreservesCapacity(store: Store, req: SignupRequest, required: set<QualificationId>, held: set<QualificationId>)
    requires WithinCapacity(store)
    requires Create(store, req, required, held).Success?
    ensures WithinCapacity(Create(store, req, required, held).value)
  {
  }

  /** Destroying a signup keeps counts equal to live signups and cannot create an overlap. */
  lemma DestroyPreservesConsistency(store: Store, s: Signup)
    requires Consistent(store)
    requires s in store.signups
    ensures Consistent(Destroy(store, s))
  {
    var r := Destroy(store, s);
    forall id | id in r.timeslots
      ensures r.timeslots[id].count == |SignupsOn(r.signups, id)|
    {
      SignupsOnRemove(store.signups, s, id);
    }
    forall a, b | a in r.signups && b in r.signups && a.user == b.user && a.timeslot != b.timeslot
      && a.timeslot in r.timeslots && b.timeslot in r.timeslots
      ensures !Overlaps(r.timeslots[a.timeslot], r.timeslots[b.timeslot])
    {
      assert r.timeslots[a.timeslot].start == store.timeslots[a.timeslot].start;
      assert r.timeslots[a.timeslot].end == store.timeslots[a.timeslot].end;
      assert r.timeslots[b.timeslot].start == store.timeslots[b.timeslot].start;
      assert r.timeslots[b.timeslot].end == store.timeslots[b.timeslot].end;
    }
  }

  // ---- sequences of creates and destroys ----

  datatype Action =
    | Join(req: SignupRequest, required: set<QualificationId>, held: set<QualificationId>)
    | Leave(signup: Signup)

  /** Whether an action takes effect: a join that passes validation, a leave of a live signup. */
  predicate Applies(store: Store, a: Action)
  {
    match a
    case Join(req, required, held) => Create(store, req, required, held).Success?
    case Leave(s) => s in store.signups && s.timeslot in store.timeslots
  }

  function Step(store: Store, a: Action): (r: Store)
    ensures r.timeslots.Keys == store.timeslots.Keys
  {
    if !Applies(store, a) then store
    else match a
      case Join(req, required, held) => Create(store, req, required, held).value
      case Leave(s) => Destroy(store, s)
  }

  /** Runs the actions in order; a rejected one changes nothing. */
  function Replay(store: Store, actions: seq<Action>): (r: Store)
    ensures r.timeslots.Keys == store.timeslots.Keys
    decreases |actions|
  {
    if |actions| == 0 then store else Replay(Step(store, actions[0]), actions[1..])
  }

  /** The number of joins that took effect on timeslot `id`. */
  function Joined(store: Store, actions: seq<Action>, id: TimeslotId): nat
    decreases |actions|
  {
    if |actions| == 0 then 0
    else
      var a := actions[0];
      (if Applies(store, a) && a.Join? && a.req.timeslot == Some(id) then 1 else 0)
      + Joined(Step(store, a), actions[1..], id)
  }

  /** The number of leaves that took effect on timeslot `id`. */
  function Left(store: Store, actions: seq<Action>, id: TimeslotId): nat
    decreases |actions|
  {
    if |actions| == 0 then 0
    else
      var a := actions[0];
      (if Applies(store, a) && a.Leave? && a.signup.timeslot == id then 1 else 0)
      + Left(Step(store, a), actions[1..], id)
  }

  /** After N effective creates and M effective destroys on a timeslot its count moved by N - M. */
  lemma {:induction false} ReplayCount(store: Store, actions: seq<Action>, id: TimeslotId)
    requires id in store.timeslots
    ensures Replay(store, actions).timeslots[id].count
         == store.timeslots[id].count + Joined(store, actions, id) - Left(store, actions, id)
    decreases |actions|
  {
    if |actions| > 0 {
      ReplayCount(Step(store, actions[0]), actions[1..], id);
    }
  }

  /** Any run of creates and destroys keeps every count equal to the live signups on its timeslot. */
  lemma {:induction false} ReplayPreservesConsistency(store: Store, actions: seq<Action>)
    requires Consistent(store)
    ensures Consistent(Replay(store, actions))
    decreases |actions|
  {
    if |actions| > 0 {
      var a := actions[0];
      if Applies(store, a) {
        match a
        case Join(req, required, held) => CreatePreservesConsistency(store, req, required, held);
        case Leave(s) => DestroyPreservesConsistency(store, s);
      }
      ReplayPreservesConsistency(Step(store, a), actions[1..]);
    }
  }
}

/** Worked cases of the overlap check, across two programs. */
module SignupExamples {
  import opened Wrappers
  import opened Timeslots
  import opened Signups

  /** User 7 holds 09:00-09:15 of program 1; 09:15-09:30 and 09:05-09:20 belong to program 2. */
  function Sample(): Store
  {
    Store(map[1 := Timeslot(1, 540, 555, 1, 1), 2 := Timeslot(2, 555, 570, 1, 0), 3 := Timeslot(2, 545, 560, 1, 0)],
          {Signup(7, 1)})
  }

  /** The slot that starts when the held one ends is admitted. */
  lemma BackToBackAccepted()
    ensures SignupErrors(Sample(), SignupRequest(Some(7), Some(2)), {}, {}) == {}
  {
    var store := Sample();
    assert !ClashesWithOwnSignup(store, 7, 2) by {
      forall s | s in store.signups ensures s == Signup(7, 1) { }
    }
  }

  /** A slot of another program that overlaps the held one is rejected, for this user only. */
  lemma OverlapRejected()
    ensures OverlappingSignup in SignupErrors(Sample(), SignupRequest(Some(7), Some(3)), {}, {})
    ensures SignupErrors(Sample(), SignupRequest(Some(8), Some(3)), {}, {}) == {}
  {
    var store := Sample();
    assert Signup(7, 1) in store.signups;
    assert !ClashesWithOwnSignup(store, 8, 3) by {
      forall s | s in store.signups ensures s == Signup(7, 1) { }
    }
  }
}
