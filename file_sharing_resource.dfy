/**
 * FileSharingResource: the /user/{id}/fileshare endpoints.  Each checks that
 * the principal is the path user and then delegates; a refusal or a service
 * failure escapes to the exception mapper, a success is a 200.
 */
module FileSharingResource {
  import opened Wrappers
  import opened Failures
  import opened Entities
  import Seqs
  import Persistence
  import Backend
  import Authorization
  import UserRepository
  import GroupRepository
  import FileSharingRepository
  import FileSharingService

  datatype RecipientType = USER | GROUP

  /** The body of a share request; a missing recipient type is None. */
  datatype ShareRequest = ShareRequest(recipientType: Option<RecipientType>, recipientId: int, filename: string)

  /** What a share answers with: the one grant, or the grants made for a group. */
  datatype Shared = OneGrant(grant: FileSharing) | GroupGrants(grants: seq<FileSharing>)

  /** getFilesSharedByUser: the rows of the grants the path user made. */
  method GetFilesSharedByUser(db: Persistence.Database, s3: Backend.StorageBackend, userId: int, principal: string)
    returns (r: Result<seq<FileSharingResponse>>)
    ensures Authorization.CheckAuthorization(userId, principal).Err? ==> r == Err(Forbidden)
    ensures Authorization.CheckAuthorization(userId, principal).Ok? && UserRepository.FindById(db.users, userId).None? ==>
      r == Err(UserNotFound)
    ensures Authorization.CheckAuthorization(userId, principal).Ok? && UserRepository.FindById(db.users, userId).Some? ==>
      r == FileSharingService.JoinRows(db.users, s3.buckets,
                                       Seqs.Filter(db.grants, (f: FileSharing) => f.sharedByUserId == userId), FileSharingService.ByMe)
  {
    var auth := Authorization.CheckAuthorization(userId, principal);
    if auth.Err? {
      return Err(auth.error);
    }
    r := FileSharingService.GetFilesSharedByUser(db, s3, userId);
  }

  /** getFilesSharedToUser: the rows of the grants the path user received. */
  method GetFilesSharedToUser(db: Persistence.Database, s3: Backend.StorageBackend, userId: int, principal: string)
    returns (r: Result<seq<FileSharingResponse>>)
    ensures Authorization.CheckAuthorization(userId, principal).Err? ==> r == Err(Forbidden)
    ensures Authorization.CheckAuthorization(userId, principal).Ok? && UserRepository.FindById(db.users, userId).None? ==>
      r == Err(UserNotFound)
    ensures Authorization.CheckAuthorization(userId, principal).Ok? && UserRepository.FindById(db.users, userId).Some? ==>
      r == FileSharingService.JoinRows(db.users, s3.buckets,
                                       Seqs.Filter(db.grants, (f: FileSharing) => f.sharedToUserId == userId), FileSharingService.ToMe)
  {
    var auth := Authorization.CheckAuthorization(userId, principal);
    if auth.Err? {
      return Err(auth.error);
    }
    r := FileSharingService.GetFilesSharedToUser(db, s3, userId);
  }

  /** What the service demands before a share of that request succeeds. */
  predicate CanShare(users: seq<User>, groups: seq<Group>, members: seq<GroupMember>, grants: seq<FileSharing>,
                     userId: int, request: ShareRequest) {
    if request.recipientType == Some(USER) then
      UserRepository.FindById(users, userId).Some? && UserRepository.FindById(users, request.recipientId).Some?
      && !FileSharingService.SharedBetween(grants, userId, request.recipientId, request.filename)
    else
      GroupRepository.FindById(groups, request.recipientId).Some?
      && UserRepository.FindUsersByGroupId(users, members, request.recipientId).Some?
  }

  /** A group share grants the file to members of that group only. */
  lemma GroupGrantsGoToMembers(users: seq<User>, members: seq<GroupMember>, userId: int, groupId: int, filename: string,
                               firstId: int)
    ensures forall f :: f in FileSharingService.FanOut(UserRepository.MembersOf(users, members, groupId), userId, filename, firstId) ==>
      f.sharedByUserId == userId && f.filename == filename && GroupMember(f.sharedToUserId, groupId) in members
  {
    var group := UserRepository.MembersOf(users, members, groupId);
    var grants := FileSharingService.FanOut(group, userId, filename, firstId);
    forall f | f in grants
      ensures f.sharedByUserId == userId && f.filename == filename && GroupMember(f.sharedToUserId, groupId) in members
    {
      var i :| 0 <= i < |grants| && grants[i] == f;
      assert group[i] in group;
    }
  }

  /**
   * shareFiles: a USER request shares with that account, anything else
   * (a GROUP request or none) with the members of that group.
   */
  method ShareFiles(db: Persistence.Database, userId: int, principal: string, request: ShareRequest)
    returns (r: Result<Shared>)
    requires db.Valid()
    modifies db`grants, db`nextGrantId
    ensures db.Valid()
    ensures Authorization.CheckAuthorization(userId, principal).Err? ==> r == Err(Forbidden)
    ensures r.Ok? <==> (Authorization.CheckAuthorization(userId, principal).Ok?
                        && CanShare(db.users, db.groups, db.members, old(db.grants), userId, request))
    ensures r.Ok? && request.recipientType == Some(USER) ==>
      r.value == OneGrant(FileSharing(old(db.nextGrantId), userId, request.recipientId, request.filename))
      && db.grants == old(db.grants) + [r.value.grant]
    ensures r.Ok? && request.recipientType != Some(USER) ==>
      r.value.GroupGrants? && db.grants == old(db.grants) + r.value.grants
      && r.value.grants == FileSharingService.FanOut(UserRepository.MembersOf(db.users, db.members, request.recipientId),
                                                     userId, request.filename, old(db.nextGrantId))
    ensures r.Err? ==> db.grants == old(db.grants)
  {
    var auth := Authorization.CheckAuthorization(userId, principal);
    if auth.Err? {
      return Err(auth.error);
    }
    if request.recipientType == Some(USER) {
      var one := FileSharingService.ShareFileToUser(db, userId, request.recipientId, request.filename);
      r := if one.Ok? then Ok(OneGrant(one.value)) else Err(one.error);
    } else {
      var many := FileSharingService.ShareFileToGroup(db, userId, request.recipientId, request.filename);
      r := if many.Ok? then Ok(GroupGrants(many.value)) else Err(many.error);
    }
  }

  /**
   * deleteFileShare: removes the grant with that id.  Only the path user is
   * checked, not who made the grant, so an account can remove any grant.
   */
  method DeleteFileShare(db: Persistence.Database, userId: int, principal: string, fileShareId: int)
    returns (r: Result<()>)
    requires db.Valid()
    modifies db`grants
    ensures db.Valid()
    ensures Authorization.CheckAuthorization(userId, principal).Err? ==> r == Err(Forbidden) && db.grants == old(db.grants)
    ensures r.Ok? <==> Authorization.CheckAuthorization(userId, principal).Ok?
                       && FileSharingRepository.FindById(old(db.grants), fileShareId).Some?
    ensures r.Ok? ==> db.grants == FileSharingRepository.WithoutGrant(old(db.grants), fileShareId)
    ensures r.Err? ==> db.grants == old(db.grants)
  {
    var auth := Authorization.CheckAuthorization(userId, principal);
    if auth.Err? {
      return Err(auth.error);
    }
    r := FileSharingService.UnshareFile(db, fileShareId);
  }
}
