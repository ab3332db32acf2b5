/**
 * UserResource: the /user endpoints.  Deleting an account removes its row
 * and then its bucket; the two steps are not one transaction.
 */
module UserResource {
  import opened Wrappers
  import opened Failures
  import opened Entities
  import opened Text
  import opened Responses
  import Seqs
  import Persistence
  import Backend
  import ObjectStore
  import Authorization
  import UserRepository
  import UserService
  import MinioService
  import MinioResource

  /** The body getUserById sends with its 404. */
  const UserNotFoundBody: string := "User not found"

  /** The entity of a getUserById answer: the account, or the text of the 404. */
  datatype UserBody = Account(user: User) | Text(text: string)

  /** getUserById: the account with that id, or a 404 saying that no user was found. */
  function GetUserById(users: seq<User>, id: int): (r: Outcome<UserBody>)
    ensures r.Answer?
    ensures r.status == 404 <==> forall u :: u in users ==> u.id != id
    ensures r.status == 404 ==> r.entity == Some(Text(UserNotFoundBody))
    ensures r.status != 404 ==> (r.status == 200 && r.entity.Some? && r.entity.value.Account?
                                 && r.entity.value.user in users && r.entity.value.user.id == id)
    ensures Persistence.UniqueUserIds(users) ==> forall u :: u in users && u.id == id ==> r == Answer(200, Some(Account(u)))
  {
    assert Persistence.UniqueUserIds(users) ==> forall u :: u in users && u.id == id ==> UserRepository.FindById(users, id) == Some(u) by {
      forall u | Persistence.UniqueUserIds(users) && u in users && u.id == id
        ensures UserRepository.FindById(users, id) == Some(u)
      {
        UserRepository.FindByIdOfMember(users, u);
      }
    }
    match UserRepository.FindById(users, id)
    case None => Answer(404, Some(Text(UserNotFoundBody)))
    case Some(u) => Answer(200, Some(Account(u)))
  }

  /**
   * searchUsers: the accounts whose name matches `prefix%` as a LIKE
   * pattern, in table order; empty when there are none.  For a prefix with
   * no `_` or `%` these are the accounts whose name starts with it.
   */
  function SearchUsers(users: seq<User>, prefix: string): (r: seq<User>)
    ensures forall u :: u in r <==> u in users && UserRepository.Like(u.username, prefix + "%")
    ensures (forall i :: 0 <= i < |prefix| ==> !UserRepository.Wildcard(prefix[i])) ==>
              forall u :: u in r <==> u in users && StartsWith(u.username, prefix)
    ensures Seqs.IsSubsequence(r, users)
  {
    assert (forall i :: 0 <= i < |prefix| ==> !UserRepository.Wildcard(prefix[i])) ==>
             forall u :: u in users ==> (UserRepository.Like(u.username, prefix + "%") <==> StartsWith(u.username, prefix)) by {
      if forall i :: 0 <= i < |prefix| ==> !UserRepository.Wildcard(prefix[i]) {
        forall u | u in users
          ensures UserRepository.Like(u.username, prefix + "%") <==> StartsWith(u.username, prefix)
        {
          UserRepository.LikeLiteralPrefix(u.username, prefix);
        }
      }
    }
    match UserRepository.FindByUsernamePrefix(users, prefix)
    case None => []
    case Some(found) => found
  }

  /** updateUserPassword: only the account itself may change its password; `hash` is the hash of `newPassword`. */
  method UpdateUserPassword(db: Persistence.Database, id: int, principal: string, newPassword: string, hash: string)
    returns (r: Result<User>)
    requires db.Valid()
    modifies db`users
    ensures db.Valid()
    ensures Authorization.CheckAuthorization(id, principal).Err? ==> r == Err(Forbidden) && db.users == old(db.users)
    ensures r.Ok? <==> Authorization.CheckAuthorization(id, principal).Ok? && UserRepository.FindById(old(db.users), id).Some?
    ensures r.Ok? ==> (r.value == UserRepository.FindById(old(db.users), id).value.(password := hash)
                       && db.users == UserService.WithPassword(old(db.users), id, hash))
    ensures r.Err? ==> db.users == old(db.users)
  {
    var auth := Authorization.CheckAuthorization(id, principal);
    if auth.Err? {
      return Err(auth.error);
    }
    r := UserService.UpdatePassword(db, Some(id), Some(newPassword), hash);
  }

  /**
   * deleteUser: the row goes first.  A missing account stops the request
   * before the store is touched; once the row is gone, a failing bucket
   * deletion escapes to the exception mapper and the row stays deleted.
   */
  method DeleteUser(db: Persistence.Database, s3: Backend.StorageBackend, id: int, principal: string, suffix: string)
    returns (r: Outcome<string>)
    requires db.Valid() && s3.Valid()
    modifies db`users, s3`buckets
    ensures db.Valid() && s3.Valid()
    ensures Authorization.CheckAuthorization(id, principal).Err? ==>
      r == Raised(Forbidden) && db.users == old(db.users) && s3.buckets == old(s3.buckets)
    ensures Authorization.CheckAuthorization(id, principal).Ok? && UserRepository.FindById(old(db.users), id).None? ==>
      r == Raised(UserNotFound) && db.users == old(db.users) && s3.buckets == old(s3.buckets)
    ensures Authorization.CheckAuthorization(id, principal).Ok? && UserRepository.FindById(old(db.users), id).Some? ==>
      db.users == UserRepository.WithoutUser(old(db.users), id)
      && FullyDeleted(old(s3.buckets), s3.buckets, MinioResource.UserBucket(id, suffix), r)
  {
    var auth := Authorization.CheckAuthorization(id, principal);
    if auth.Err? {
      return Raised(auth.error);
    }
    var removed := UserService.RemoveUser(db, id);
    if removed.Err? {
      return Raised(removed.error);
    }
    r := DropBucket(s3, Decimal(id) + suffix);
  }

  /** The second half of deleteUser: deleteBucket and the test of its message. */
  method DropBucket(s3: Backend.StorageBackend, bucketName: string) returns (r: Outcome<string>)
    requires s3.Valid()
    modifies s3`buckets
    ensures s3.Valid()
    ensures FullyDeleted(old(s3.buckets), s3.buckets, bucketName, r)
  {
    var result := MinioService.DeleteBucket(s3, bucketName);
    if result.Err? {
      return Raised(result.error);
    }
    var message := result.value;
    DeletedMessagePasses(bucketName);
    if StartsWith(message, "Bucket deleted successfully") {
      r := Answer(200, None);
    } else {
      r := Answer(500, Some(message));
    }
  }

  /**
   * What deleteUser does to the store once the row is gone: a bucket of at
   * most MaxKeys objects is dropped and the answer is 200; a missing one, or
   * a larger one (whose first MaxKeys objects are deleted), escapes.
   */
  predicate FullyDeleted(before: map<string, ObjectStore.Bucket>, after: map<string, ObjectStore.Bucket>, bucket: string,
                         r: Outcome<string>) {
    if bucket !in before then r == Raised(Storage(NoSuchBucket)) && after == before
    else if |before[bucket]| <= ObjectStore.MaxKeys then r == Answer(200, None) && after == before - {bucket}
    else r == Raised(Storage(BucketNotEmpty)) && after == before[bucket := before[bucket][ObjectStore.MaxKeys..]]
  }

  /** The bucket deletion's success message passes deleteUser's test, so the 500 answer is never given. */
  lemma DeletedMessagePasses(bucketName: string)
    ensures StartsWith(MinioService.BucketDeletedMessage + bucketName, "Bucket deleted successfully")
  {
    assert MinioService.BucketDeletedMessage + bucketName == "Bucket deleted successfully" + (": " + bucketName);
    StartsWithConcat("Bucket deleted successfully", ": " + bucketName);
  }
}
