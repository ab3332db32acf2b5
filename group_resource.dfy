/**
 * GroupResource: the /user/{id}/group endpoints.  Each checks only that the
 * principal is the path user, never that the path user created the group
 * it names, and then delegates to the group service.
 */
module GroupResource {
  import opened Wrappers
  import opened Failures
  import opened Entities
  import Persistence
  import Authorization
  import UserRepository
  import GroupRepository
  import GroupMemberRepository
  import GroupService

  predicate Authorized(id: int, principal: string) {
    Authorization.CheckAuthorization(id, principal).Ok?
  }

  /** getGroups: the groups the path user created. */
  function GetGroups(groups: seq<Group>, id: int, principal: string): (r: Result<seq<Group>>)
    ensures !Authorized(id, principal) <==> r == Err(Forbidden)
    ensures r.Ok? ==> forall g :: g in r.value <==> g in groups && g.creatorId == id
  {
    if !Authorized(id, principal) then Err(Forbidden) else Ok(GroupService.GetGroupsOfUser(groups, id))
  }

  /** createGroup: a group of the path user named by the raw request body. */
  method CreateGroup(db: Persistence.Database, id: int, principal: string, name: string) returns (r: Result<Group>)
    requires db.Valid() && GroupService.MembershipInvariant(db)
    modifies db`groups, db`nextGroupId
    ensures db.Valid() && GroupService.MembershipInvariant(db)
    ensures !Authorized(id, principal) ==> r == Err(Forbidden)
    ensures r.Ok? <==> (Authorized(id, principal) && UserRepository.FindById(db.users, id).Some?
                        && GroupRepository.ExistsByCreatorIdAndName(old(db.groups), id, name) == Ok(false))
    ensures r.Ok? ==> r.value == Group(old(db.nextGroupId), name, id) && db.groups == old(db.groups) + [r.value]
    ensures r.Err? ==> db.groups == old(db.groups)
  {
    var auth := Authorization.CheckAuthorization(id, principal);
    if auth.Err? {
      return Err(auth.error);
    }
    r := GroupService.CreateGroup(db, Some(id), Some(name));
  }

  /**
   * updateGroupName: renames the group with that id, whoever created it;
   * the rename is the service's as written, without the name check.
   */
  method UpdateGroupName(db: Persistence.Database, id: int, principal: string, groupId: int, newName: string)
    returns (r: Result<Group>)
    requires db.Valid() && GroupService.MembershipInvariant(db)
    modifies db`groups
    ensures db.Valid() && GroupService.MembershipInvariant(db)
    ensures !Authorized(id, principal) ==> r == Err(Forbidden)
    ensures r.Ok? <==> Authorized(id, principal) && GroupRepository.FindById(old(db.groups), groupId).Some?
    ensures r.Ok? ==> (r.value == GroupRepository.FindById(old(db.groups), groupId).value.(name := newName)
                       && db.groups == GroupService.Renamed(old(db.groups), groupId, newName))
    ensures r.Err? ==> db.groups == old(db.groups)
  {
    var auth := Authorization.CheckAuthorization(id, principal);
    if auth.Err? {
      return Err(auth.error);
    }
    r := GroupService.UpdateGroupName(db, Some(groupId), Some(newName));
  }

  /** deleteGroup: removes the group with that id, whoever created it. */
  method DeleteGroup(db: Persistence.Database, id: int, principal: string, groupId: int) returns (r: Result<()>)
    requires db.Valid() && GroupService.MembershipInvariant(db)
    modifies db`groups
    ensures db.Valid() && GroupService.MembershipInvariant(db)
    ensures !Authorized(id, principal) ==> r == Err(Forbidden)
    ensures r.Ok? <==> Authorized(id, principal) && GroupRepository.FindById(old(db.groups), groupId).Some?
    ensures r.Ok? ==> db.groups == GroupRepository.WithoutGroup(old(db.groups), groupId)
    ensures r.Err? ==> db.groups == old(db.groups)
  {
    var auth := Authorization.CheckAuthorization(id, principal);
    if auth.Err? {
      return Err(auth.error);
    }
    r := GroupService.RemoveGroup(db, groupId);
  }

  /** addUserToGroup: the body's account joins the group from the path. */
  method AddUserToGroup(db: Persistence.Database, id: int, principal: string, groupId: int, userId: int)
    returns (r: Result<()>)
    requires db.Valid() && GroupService.MembershipInvariant(db)
    modifies db`members
    ensures db.Valid() && GroupService.MembershipInvariant(db)
    ensures !Authorized(id, principal) ==> r == Err(Forbidden)
    ensures r.Ok? <==> (Authorized(id, principal) && UserRepository.FindById(db.users, userId).Some?
                        && GroupRepository.FindById(db.groups, groupId).Some?
                        && GroupMember(userId, groupId) !in old(db.members)
                        && GroupRepository.FindById(db.groups, groupId).value.creatorId != userId)
    ensures r.Ok? ==> db.members == old(db.members) + [GroupMember(userId, groupId)]
    ensures r.Err? ==> db.members == old(db.members)
  {
    var auth := Authorization.CheckAuthorization(id, principal);
    if auth.Err? {
      return Err(auth.error);
    }
    r := GroupService.AddUserToGroup(db, Some(userId), groupId);
  }

  /** getGroupMembers: the accounts of the group's members. */
  function GetGroupMembers(users: seq<User>, groups: seq<Group>, members: seq<GroupMember>, id: int, principal: string,
                           groupId: int): (r: Result<seq<User>>)
    ensures !Authorized(id, principal) ==> r == Err(Forbidden)
    ensures Authorized(id, principal) ==> (r == Err(GroupNotFound) <==> GroupRepository.FindById(groups, groupId).None?)
    ensures r.Ok? ==> forall u :: u in r.value ==> u in users && GroupMember(u.id, groupId) in members
    ensures r.Ok? && Persistence.UniqueUserIds(users) ==>
      forall u :: u in users && GroupMember(u.id, groupId) in members ==> u in r.value
  {
    if !Authorized(id, principal) then Err(Forbidden) else GroupService.GetGroupMembers(users, groups, members, groupId)
  }

  /** removeMemberFromGroup: the path's member leaves the path's group. */
  method RemoveMemberFromGroup(db: Persistence.Database, id: int, principal: string, groupId: int, memberId: int)
    returns (r: Result<()>)
    requires db.Valid() && GroupService.MembershipInvariant(db)
    modifies db`members
    ensures db.Valid() && GroupService.MembershipInvariant(db)
    ensures !Authorized(id, principal) ==> r == Err(Forbidden)
    ensures r.Ok? <==> (Authorized(id, principal) && GroupRepository.FindById(db.groups, groupId).Some?
                        && GroupService.ContainsUser(db.users, old(db.members), groupId, memberId))
    ensures r.Ok? ==> db.members == GroupMemberRepository.WithoutMember(old(db.members), groupId, memberId)
    ensures r.Err? ==> db.members == old(db.members)
  {
    var auth := Authorization.CheckAuthorization(id, principal);
    if auth.Err? {
      return Err(auth.error);
    }
    r := GroupService.RemoveUserFromGroup(db, memberId, groupId);
  }
}
