/** The authenticated principal that service calls receive. */
module Actors {
  type UserId = nat
  type TeamId = nat

  datatype Role = SuperAdmin | TeamAdmin | Developer

  datatype CurrentUser = CurrentUser(
    id: UserId, role: Role, superuser: bool, teamIds: seq<TeamId>, teamRoles: map<TeamId, Role>)
  {
    predicate IsSuperAdmin() { superuser || role == SuperAdmin }

    predicate CanAccessTeam(team: TeamId) { IsSuperAdmin() || team in teamIds }

    predicate HasTeamAdmin(team: TeamId) {
      IsSuperAdmin() || (team in teamRoles && teamRoles[team] in {TeamAdmin, SuperAdmin})
    }

    /** As built from the membership rows of one user. */
    ghost predicate FromMemberships() { teamRoles.Keys == set t | t in teamIds }
  }
}
