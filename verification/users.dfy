/** The role predicates of a user. */
module Users {
  import opened Conferences
  import opened ConferenceRoles

  const VillageAdminRole: string := "village_admin"

  /** A user: its id, the names of its village-wide roles, and whether it is saved. */
  datatype User = User(id: UserId, roleNames: set<string>, persisted: bool)

  /** `village_admin?`: the user holds the village-wide role of that name. */
  function VillageAdmin(u: User): (r: bool)
    ensures r <==> "village_admin" in u.roleNames
  {
    VillageAdminRole in u.roleNames
  }

  /** `conference_lead?(c)`: some role row gives the user the lead role in `c`. */
  function ConferenceLeadOf(u: User, roles: Roles, c: ConferenceId): (r: bool)
    ensures r <==> exists id :: id in roles && roles[id].user == u.id && roles[id].conference == c
                               && roles[id].roleName == "conference_lead"
  {
    Holds(roles, ConferenceRole(u.id, c, ConferenceLead))
  }

  /** `conference_admin?(c)`: some role row gives the user the admin role in `c`. */
  function ConferenceAdminOf(u: User, roles: Roles, c: ConferenceId): (r: bool)
    ensures r <==> exists id :: id in roles && roles[id].user == u.id && roles[id].conference == c
                               && roles[id].roleName == "conference_admin"
  {
    Holds(roles, ConferenceRole(u.id, c, ConferenceAdmin))
  }

  /** Lead or admin of `c`: some role row of this user for `c` carries one of the two names. */
  function LeadOrAdminOf(u: User, roles: Roles, c: ConferenceId): (r: bool)
    ensures r <==> HasRoleIn(roles, u.id, c)
  {
    ConferenceLeadOf(u, roles, c) || ConferenceAdminOf(u, roles, c)
  }

  /** A village admin manages every conference; otherwise only a lead or admin of it does. */
  function CanManage(u: User, roles: Roles, c: ConferenceId): (r: bool)
    ensures VillageAdmin(u) ==> r
    ensures !VillageAdmin(u) ==> (r <==> HasRoleIn(roles, u.id, c))
  {
    VillageAdmin(u) || LeadOrAdminOf(u, roles, c)
  }

  /** Every saved user is a volunteer, whatever its roles. */
  function Volunteer(u: User): (r: bool)
    ensures r <==> u.persisted
  {
    u.persisted
  }

  /** A user with no village role and no conference role manages no conference. */
  lemma RolelessManagesNothing(u: User, roles: Roles, c: ConferenceId)
    requires u.roleNames == {}
    requires forall id :: id in roles ==> roles[id].user != u.id
    ensures !CanManage(u, roles, c)
  {
  }

  /** Roles are scoped: a lead of one conference is not thereby a lead of another. */
  lemma LeadIsScoped(u: User, c: ConferenceId, other: ConferenceId, id: RoleId)
    requires c != other
    ensures var roles := map[id := ConferenceRole(u.id, c, ConferenceLead)];
      ConferenceLeadOf(u, roles, c) && !ConferenceLeadOf(u, roles, other) && !LeadOrAdminOf(u, roles, other)
  {
    var roles := map[id := ConferenceRole(u.id, c, ConferenceLead)];
    assert roles[id] == ConferenceRole(u.id, c, ConferenceLead);
  }
}
