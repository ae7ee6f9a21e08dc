/**
 * Assigning and removing conference roles: the default role name, the
 * idempotent assignment, and the guard that keeps a conference's last lead.
 */
module RoleAssignment {
  import opened Wrappers
  import opened Conferences
  import opened ConferenceRoles
  import opened Users
  import ConferencePolicy

  datatype AssignError = NotAuthorized | Invalid(errors: set<RoleError>)

  /** A missing role name means conference admin. */
  function RoleNameOrDefault(given: Option<string>): (name: string)
    ensures given.None? ==> name == ConferenceAdmin
    ensures given.Some? ==> name == given.value
  {
    given.GetOr(ConferenceAdmin)
  }

  /** The ids of the rows holding exactly `r`. */
  function CopyIds(roles: Roles, r: ConferenceRole): (ids: set<RoleId>)
    ensures forall id :: id in ids <==> id in roles && roles[id] == r
  {
    set id | id in roles && roles[id] == r
  }

  /** The number of rows holding exactly `r`. */
  function Copies(roles: Roles, r: ConferenceRole): nat
  {
    |CopyIds(roles, r)|
  }

  /**
   * `create`: either role name needs the same permission, updating the
   * conference; then the row is found or created.  `freshId` is the id a new
   * row would get.
   */
  function Assign(roles: Roles, actor: Option<User>, user: UserId, c: ConferenceId, given: Option<string>, freshId: RoleId): (r: Result<Roles, AssignError>)
    requires freshId !in roles
    ensures r == Failure(NotAuthorized) <==> !ConferencePolicy.Update(actor, roles, c)
    ensures r.Success? ==> Holds(r.value, ConferenceRole(user, c, RoleNameOrDefault(given)))
    ensures r.Success? && Holds(roles, ConferenceRole(user, c, RoleNameOrDefault(given))) ==> r.value == roles
    ensures r.Success? ==> r.value.Keys <= roles.Keys + {freshId}
    ensures r.Success? ==> forall id :: id in roles ==> id in r.value && r.value[id] == roles[id]
    ensures r.Failure? && r.error.Invalid? ==> RoleNameOrDefault(given) !in RoleNames && r.error.errors == {RoleNameNotIncluded}
    ensures ConferencePolicy.Update(actor, roles, c) && RoleNameOrDefault(given) !in RoleNames
      && !Holds(roles, ConferenceRole(user, c, RoleNameOrDefault(given)))
      ==> r == Failure(Invalid({RoleNameNotIncluded}))
    ensures ConferencePolicy.Update(actor, roles, c) && RoleNameOrDefault(given) in RoleNames
      && !Holds(roles, ConferenceRole(user, c, RoleNameOrDefault(given)))
      ==> r == Success(roles[freshId := ConferenceRole(user, c, RoleNameOrDefault(given))])
  {
    var rec := ConferenceRole(user, c, RoleNameOrDefault(given));
    if !ConferencePolicy.Update(actor, roles, c) then Failure(NotAuthorized)
    else if Holds(roles, rec) then Success(roles)
    else
      var errs := RoleErrors(rec, roles);
      if errs != {} then Failure(Invalid(errs))
      else
        var added := roles[freshId := rec];
        assert added[freshId] == rec;
        Success(added)
  }

  /** Adding a row whose triple no row holds keeps the rows unique. */
  lemma AddKeepsUnique(roles: Roles, freshId: RoleId, rec: ConferenceRole)
    requires Unique(roles) && freshId !in roles && !Holds(roles, rec)
    ensures Unique(roles[freshId := rec])
  {
    var r := roles[freshId := rec];
    forall a, b | a in r && b in r && r[a] == r[b]
      ensures a == b
    {
      if a != freshId && b != freshId {
        assert roles[a] == roles[b];
      }
    }
  }

  /** In unique rows, a held triple is held by exactly one row. */
  lemma OneCopy(roles: Roles, rec: ConferenceRole)
    requires Unique(roles) && Holds(roles, rec)
    ensures Copies(roles, rec) == 1
  {
    var id :| id in roles && roles[id] == rec;
    var copies := CopyIds(roles, rec);
    assert copies == {id} by {
      forall k | k in copies ensures k == id {
        assert roles[k] == roles[id];
      }
    }
  }

  /** Assigning a role leaves exactly one row for that (user, conference, role name). */
  lemma AssignLeavesOneCopy(roles: Roles, actor: Option<User>, user: UserId, c: ConferenceId, given: Option<string>, freshId: RoleId)
    requires freshId !in roles && Unique(roles)
    requires Assign(roles, actor, user, c, given, freshId).Success?
    ensures var r := Assign(roles, actor, user, c, given, freshId).value;
      Unique(r) && Copies(r, ConferenceRole(user, c, RoleNameOrDefault(given))) == 1
  {
    var rec := ConferenceRole(user, c, RoleNameOrDefault(given));
    var r := Assign(roles, actor, user, c, given, freshId).value;
    if !Holds(roles, rec) {
      AddKeepsUnique(roles, freshId, rec);
    }
    OneCopy(r, rec);
  }

  /** Assigning the same role twice gives the state of assigning it once. */
  lemma AssignIdempotent(roles: Roles, actor: Option<User>, user: UserId, c: ConferenceId, given: Option<string>, id1: RoleId, id2: RoleId)
    requires id1 !in roles
    requires Assign(roles, actor, user, c, given, id1).Success?
    requires id2 !in Assign(roles, actor, user, c, given, id1).value
    ensures var once := Assign(roles, actor, user, c, given, id1).value;
      Assign(once, actor, user, c, given, id2) == Success(once)
  {
    var once := Assign(roles, actor, user, c, given, id1).value;
    assert once.Keys >= roles.Keys;
    assert ConferencePolicy.Update(actor, once, c) by {
      var u := actor.value;
      if !VillageAdmin(u) {
        var k :| k in roles && roles[k].user == u.id && roles[k].conference == c && roles[k].roleName in RoleNames;
        assert once[k] == roles[k];
      }
    }
  }

  datatype RemoveOutcome = Removed(roles: Roles) | LastLeadKept | RoleNotFound | RemoveNotAuthorized

  /**
   * `destroy` as written: the role is looked up among ALL role rows, the
   * permission is checked on the conference of the route, and the last-lead
   * guard counts the leads of the route's conference.
   */
  function RemoveAsWritten(roles: Roles, roleId: RoleId, c: ConferenceId, actor: Option<User>): (r: RemoveOutcome)
    ensures r.Removed? ==> r.roles == roles - {roleId} && roleId in roles
    ensures r == RoleNotFound <==> roleId !in roles
    ensures r == RemoveNotAuthorized <==> roleId in roles && !ConferencePolicy.Update(actor, roles, c)
    ensures r == LastLeadKept <==>
      && roleId in roles && ConferencePolicy.Update(actor, roles, c)
      && roles[roleId].roleName == ConferenceLead && LeadCount(roles, c) <= 1 && !VillageAdmin(actor.value)
    ensures r.Removed? <==>
      && roleId in roles && ConferencePolicy.Update(actor, roles, c)
      && !(roles[roleId].roleName == ConferenceLead && LeadCount(roles, c) <= 1 && !VillageAdmin(actor.value))
  {
    if roleId !in roles then RoleNotFound
    else if !ConferencePolicy.Update(actor, roles, c) then RemoveNotAuthorized
    else if roles[roleId].roleName == ConferenceLead && LeadCount(roles, c) <= 1 && !VillageAdmin(actor.value) then LastLeadKept
    else Removed(roles - {roleId})
  }

  /**
   * A manager of conference 1, not a village admin, removing through conference
   * 1's route the only lead of conference 2: the guard counts conference 1's
   * two leads and lets the removal through.
   */
  lemma AsWrittenEmptiesOtherConference()
    ensures var roles := map[1 := ConferenceRole(10, 1, ConferenceLead), 2 := ConferenceRole(11, 1, ConferenceLead),
                             3 := ConferenceRole(12, 2, ConferenceLead)];
            var actor := User(10, {}, true);
            var r := RemoveAsWritten(roles, 3, 1, Some(actor));
            !VillageAdmin(actor) && LeadCount(roles, 2) == 1 && r.Removed? && LeadCount(r.roles, 2) == 0
  {
    var roles := map[1 := ConferenceRole(10, 1, ConferenceLead), 2 := ConferenceRole(11, 1, ConferenceLead),
                     3 := ConferenceRole(12, 2, ConferenceLead)];
    var actor := User(10, {}, true);
    assert roles[1].user == actor.id && roles[1].conference == 1 && roles[1].roleName in RoleNames;
    assert LeadIds(roles, 1) == {1, 2};
    assert LeadIds(roles, 2) == {3};
    assert LeadIds(roles - {3}, 2) == {};
  }

  /**
   * `destroy` with the lookup scoped to the route's conference
   * (`@conference.conference_roles.find`): a role of another conference is
   * not found.  Refused, with no change, exactly when the role is a lead, the
   * conference has at most one lead and the actor is not a village admin.
   */
  function Remove(roles: Roles, roleId: RoleId, c: ConferenceId, actor: Option<User>): (r: RemoveOutcome)
    ensures r == RoleNotFound <==> roleId !in roles || roles[roleId].conference != c
    ensures r == LastLeadKept <==>
      && roleId in roles && roles[roleId].conference == c && ConferencePolicy.Update(actor, roles, c)
      && roles[roleId].roleName == ConferenceLead && LeadCount(roles, c) <= 1 && !VillageAdmin(actor.value)
    ensures r == RemoveNotAuthorized <==>
      roleId in roles && roles[roleId].conference == c && !ConferencePolicy.Update(actor, roles, c)
    ensures r.Removed? <==>
      && roleId in roles && roles[roleId].conference == c && ConferencePolicy.Update(actor, roles, c)
      && !(roles[roleId].roleName == ConferenceLead && LeadCount(roles, c) <= 1 && !VillageAdmin(actor.value))
    ensures r.Removed? ==> r.roles == roles - {roleId} && roleId in roles
  {
    if roleId !in roles || roles[roleId].conference != c then RoleNotFound
    else if !ConferencePolicy.Update(actor, roles, c) then RemoveNotAuthorized
    else if roles[roleId].roleName == ConferenceLead && LeadCount(roles, c) <= 1 && !VillageAdmin(actor.value) then LastLeadKept
    else Removed(roles - {roleId})
  }

  /** Removing one row takes at most that row away from a lead count. */
  lemma LeadCountAfterRemoval(roles: Roles, roleId: RoleId, x: ConferenceId)
    requires roleId in roles
    ensures roles[roleId].conference == x && roles[roleId].roleName == ConferenceLead
      ==> LeadCount(roles - {roleId}, x) == LeadCount(roles, x) - 1
    ensures !(roles[roleId].conference == x && roles[roleId].roleName == ConferenceLead)
      ==> LeadCount(roles - {roleId}, x) == LeadCount(roles, x)
  {
    var before := LeadIds(roles, x);
    var after := LeadIds(roles - {roleId}, x);
    if roleId in before {
      assert before == after + {roleId} && roleId !in after;
    } else {
      assert after == before;
    }
  }

  /** With the scoped lookup, no one but a village admin can take a conference from one lead or more to none. */
  lemma KeepsALead(roles: Roles, roleId: RoleId, c: ConferenceId, actor: Option<User>, x: ConferenceId)
    requires actor.Some? && !VillageAdmin(actor.value)
    requires Remove(roles, roleId, c, actor).Removed?
    requires LeadCount(roles, x) >= 1
    ensures LeadCount(Remove(roles, roleId, c, actor).roles, x) >= 1
  {
    LeadCountAfterRemoval(roles, roleId, x);
  }
}
