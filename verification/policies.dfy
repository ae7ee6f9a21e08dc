/** Who may list, show, create, update and destroy conferences. A missing user is `None`. */
module ConferencePolicy {
  import opened Wrappers
  import opened Conferences
  import opened ConferenceRoles
  import opened Users

  /** Any signed-in, saved user may list conferences. */
  function Index(user: Option<User>): (r: bool)
    ensures r <==> user.Some? && user.value.persisted
  {
    user.Some? && Volunteer(user.value)
  }

  function Show(user: Option<User>): (r: bool)
    ensures r <==> user.Some? && user.value.persisted
  {
    user.Some? && Volunteer(user.value)
  }

  /** Only a village admin may create a conference. */
  function Create(user: Option<User>): (r: bool)
    ensures r <==> user.Some? && "village_admin" in user.value.roleNames
  {
    user.Some? && VillageAdmin(user.value)
  }

  /** Update is allowed to a village admin and to any user holding a role row in the conference. */
  function Update(user: Option<User>, roles: Roles, c: ConferenceId): (r: bool)
    ensures r <==> user.Some? && (VillageAdmin(user.value) || HasRoleIn(roles, user.value.id, c))
  {
    user.Some? && CanManage(user.value, roles, c)
  }

  /** Only a village admin may destroy a conference; conference roles do not count. */
  function Destroy(user: Option<User>): (r: bool)
    ensures r <==> user.Some? && "village_admin" in user.value.roleNames
  {
    user.Some? && VillageAdmin(user.value)
  }

  /** Whoever may destroy a conference may also update it. */
  lemma DestroyImpliesUpdate(user: Option<User>, roles: Roles, c: ConferenceId)
    ensures Destroy(user) ==> Update(user, roles, c)
  {
  }

  /** A lead who is not a village admin may update the conference but not destroy it. */
  lemma LeadUpdatesButCannotDestroy(u: User, roles: Roles, c: ConferenceId)
    requires ConferenceLeadOf(u, roles, c) && !VillageAdmin(u)
    ensures Update(Some(u), roles, c) && !Destroy(Some(u)) && !Create(Some(u))
  {
  }

  /** No user, no action. */
  lemma NilUserDenied(roles: Roles, c: ConferenceId)
    ensures !Index(None) && !Show(None) && !Create(None) && !Update(None, roles, c) && !Destroy(None)
  {
  }
}

/** Managing a conference's programs: every action needs `can_manage_conference?` on its conference. */
module ConferenceProgramPolicy {
  import opened Wrappers
  import opened Conferences
  import opened ConferenceRoles
  import opened Users
  import ConferencePolicy

  predicate Index(user: Option<User>, roles: Roles, c: ConferenceId)
  {
    user.Some? && CanManage(user.value, roles, c)
  }

  predicate Show(user: Option<User>, roles: Roles, c: ConferenceId)
  {
    user.Some? && CanManage(user.value, roles, c)
  }

  predicate Create(user: Option<User>, roles: Roles, c: ConferenceId)
  {
    user.Some? && CanManage(user.value, roles, c)
  }

  predicate Update(user: Option<User>, roles: Roles, c: ConferenceId)
  {
    user.Some? && CanManage(user.value, roles, c)
  }

  predicate Destroy(user: Option<User>, roles: Roles, c: ConferenceId)
  {
    user.Some? && CanManage(user.value, roles, c)
  }

  /** The five actions always agree, and agree with updating the conference itself. */
  lemma AllActionsAgree(user: Option<User>, roles: Roles, c: ConferenceId)
    ensures var a := Index(user, roles, c);
      Show(user, roles, c) == a && Create(user, roles, c) == a && Update(user, roles, c) == a
      && Destroy(user, roles, c) == a && ConferencePolicy.Update(user, roles, c) == a
  {
  }

  /** A lead of another conference, with no role in this one and no village role, is denied. */
  lemma OtherConferenceLeadDenied(u: User, c: ConferenceId, other: ConferenceId, id: RoleId)
    requires c != other && !VillageAdmin(u)
    ensures !Index(Some(u), map[id := ConferenceRole(u.id, other, ConferenceLead)], c)
  {
    var roles := map[id := ConferenceRole(u.id, other, ConferenceLead)];
    assert roles[id].conference == other;
  }

  /** A village admin is allowed every action on every conference. */
  lemma VillageAdminAllowed(u: User, roles: Roles, c: ConferenceId)
    requires VillageAdmin(u)
    ensures Index(Some(u), roles, c) && Destroy(Some(u), roles, c)
  {
  }
}

/** Programs: village-level ones are admin-only; conference-specific ones follow the conference. */
module ProgramPolicy {
  import opened Wrappers
  import opened Conferences
  import opened ConferenceRoles
  import opened Users

  /** A program, village-level when it has no conference. */
  datatype Program = Program(conference: Option<ConferenceId>)

  /** What `create?` is asked about: the Program class itself, or one program. */
  datatype ProgramRecord = ProgramClass | ProgramInstance(program: Program)

  predicate ConferenceSpecific(p: Program)
  {
    p.conference.Some?
  }

  function Index(user: Option<User>): (r: bool)
    ensures r <==> user.Some? && user.value.persisted
  {
    user.Some? && Volunteer(user.value)
  }

  function Show(user: Option<User>): (r: bool)
    ensures r <==> user.Some? && user.value.persisted
  {
    user.Some? && Volunteer(user.value)
  }

  /** The rule shared by the three write actions on one program, after the village-admin shortcut. */
  function ManagesProgram(user: Option<User>, roles: Roles, p: Program): (r: bool)
    ensures r <==> p.conference.Some? && user.Some?
                   && (VillageAdmin(user.value) || HasRoleIn(roles, user.value.id, p.conference.value))
  {
    if ConferenceSpecific(p) then user.Some? && CanManage(user.value, roles, p.conference.value) else false
  }

  function Create(user: Option<User>, roles: Roles, record: ProgramRecord): (r: bool)
    ensures r <==> (user.Some? && VillageAdmin(user.value))
                   || (record.ProgramInstance? && record.program.conference.Some? && user.Some?
                       && HasRoleIn(roles, user.value.id, record.program.conference.value))
  {
    if user.Some? && VillageAdmin(user.value) then true
    else if !record.ProgramInstance? then false
    else ManagesProgram(user, roles, record.program)
  }

  function Update(user: Option<User>, roles: Roles, p: Program): (r: bool)
    ensures r <==> (user.Some? && VillageAdmin(user.value))
                   || (p.conference.Some? && user.Some? && HasRoleIn(roles, user.value.id, p.conference.value))
  {
    if user.Some? && VillageAdmin(user.value) then true else ManagesProgram(user, roles, p)
  }

  function Destroy(user: Option<User>, roles: Roles, p: Program): (r: bool)
    ensures r <==> (user.Some? && VillageAdmin(user.value))
                   || (p.conference.Some? && user.Some? && HasRoleIn(roles, user.value.id, p.conference.value))
  {
    if user.Some? && VillageAdmin(user.value) then true else ManagesProgram(user, roles, p)
  }

  /** A village admin may create, update and destroy any program. */
  lemma VillageAdminAllowed(u: User, roles: Roles, record: ProgramRecord, p: Program)
    requires VillageAdmin(u)
    ensures Create(Some(u), roles, record) && Update(Some(u), roles, p) && Destroy(Some(u), roles, p)
  {
  }

  /** Anyone else is refused every write on a village-level program, and `create?` on the class. */
  lemma VillageLevelDenied(user: Option<User>, roles: Roles, p: Program)
    requires !(user.Some? && VillageAdmin(user.value))
    requires !ConferenceSpecific(p)
    ensures !Create(user, roles, ProgramInstance(p)) && !Update(user, roles, p) && !Destroy(user, roles, p)
    ensures !Create(user, roles, ProgramClass)
  {
  }

  /** For anyone else a conference-specific program's writes follow `can_manage_conference?`. */
  lemma ConferenceSpecificFollowsConference(user: Option<User>, roles: Roles, p: Program)
    requires !(user.Some? && VillageAdmin(user.value))
    requires ConferenceSpecific(p)
    ensures var m := user.Some? && HasRoleIn(roles, user.value.id, p.conference.value);
      Create(user, roles, ProgramInstance(p)) == m && Update(user, roles, p) == m && Destroy(user, roles, p) == m
  {
  }
}
