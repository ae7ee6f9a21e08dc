/** Conference-scoped roles: a user is a lead or an admin of one conference. */
module ConferenceRoles {
  import opened Conferences

  type UserId = nat
  type RoleId = nat

  const ConferenceLead: string := "conference_lead"
  const ConferenceAdmin: string := "conference_admin"

  /** The two role names the inclusion validation allows. */
  const RoleNames: set<string> := {ConferenceLead, ConferenceAdmin}

  datatype ConferenceRole = ConferenceRole(user: UserId, conference: ConferenceId, roleName: string)

  /** The persisted role rows, by id. */
  type Roles = map<RoleId, ConferenceRole>

  datatype RoleError = RoleNameNotIncluded | RoleTaken

  /** Some row already holds this (user, conference, role name). */
  predicate Holds(roles: Roles, r: ConferenceRole)
  {
    r in roles.Values
  }

  /** The validations of a new row: the role name is one of the two, and the triple is unused. */
  function RoleErrors(r: ConferenceRole, roles: Roles): (errs: set<RoleError>)
    ensures RoleNameNotIncluded in errs <==> r.roleName != "conference_lead" && r.roleName != "conference_admin"
    ensures RoleTaken in errs <==> exists id :: id in roles && roles[id] == r
  {
    (if r.roleName in RoleNames then {} else {RoleNameNotIncluded})
    + (if Holds(roles, r) then {RoleTaken} else {})
  }

  /** No two rows hold the same (user, conference, role name): the unique index. */
  predicate Unique(roles: Roles)
  {
    forall a, b :: a in roles && b in roles && roles[a] == roles[b] ==> a == b
  }

  /** Because the role name is part of the key, one user may be both lead and admin of a conference. */
  lemma LeadAndAdminCoexist(roles: Roles, u: UserId, c: ConferenceId, id: RoleId)
    requires roles == map[id := ConferenceRole(u, c, ConferenceLead)]
    ensures RoleErrors(ConferenceRole(u, c, ConferenceAdmin), roles) == {}
  {
  }

  /** Some row gives `user` one of the two allowed role names in conference `c`. */
  predicate HasRoleIn(roles: Roles, user: UserId, c: ConferenceId)
  {
    exists id :: id in roles && roles[id].user == user && roles[id].conference == c && roles[id].roleName in RoleNames
  }

  /** The ids of the lead rows of conference `c`. */
  function LeadIds(roles: Roles, c: ConferenceId): (ids: set<RoleId>)
    ensures forall id :: id in ids <==> id in roles && roles[id].conference == c && roles[id].roleName == ConferenceLead
  {
    set id | id in roles && roles[id].conference == c && roles[id].roleName == ConferenceLead
  }

  /** The number of lead rows of conference `c`. */
  function LeadCount(roles: Roles, c: ConferenceId): nat
  {
    |LeadIds(roles, c)|
  }
}
