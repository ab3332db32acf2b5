/**
 * FileSharingService: the grant ledger.  A grant lets one account read the
 * objects of the sharer's bucket whose keys start with the granted name.
 */
module FileSharingService {
  import opened Wrappers
  import opened Failures
  import opened Entities
  import opened Text
  import ObjectStore
  import Persistence
  import Backend
  import Seqs
  import UserRepository
  import GroupRepository
  import FileSharingRepository
  import MinioService

  /** The suffix the sharing listings append to the sharer's id, whatever the configured one is. */
  const SharedBucketSuffix: string := "-bucket"

  function SharerBucket(userId: int): string {
    Decimal(userId) + SharedBucketSuffix
  }

  /** Some grant between the two ids exists, for that file, in either direction. */
  predicate SharedBetween(grants: seq<FileSharing>, a: int, b: int, filename: string) {
    exists f :: f in grants && f.filename == filename
      && ((f.sharedByUserId == a && f.sharedToUserId == b) || (f.sharedByUserId == b && f.sharedToUserId == a))
  }

  /**
   * shareFileToUser: both accounts must exist (the sharer is checked first),
   * and the pair must not share the file yet in either direction.
   */
  method ShareFileToUser(db: Persistence.Database, sharedBy: int, sharedTo: int, filename: string)
    returns (r: Result<FileSharing>)
    requires db.Valid()
    modifies db`grants, db`nextGrantId
    ensures db.Valid()
    ensures UserRepository.FindById(db.users, sharedBy).None? ==> r == Err(UserNotFound)
    ensures UserRepository.FindById(db.users, sharedBy).Some? && UserRepository.FindById(db.users, sharedTo).None? ==>
      r == Err(UserNotFound)
    ensures UserRepository.FindById(db.users, sharedBy).Some? && UserRepository.FindById(db.users, sharedTo).Some?
            && FileSharingRepository.ExistsByUsersAndFilename(old(db.grants), sharedBy, sharedTo, filename).Ok?
            && FileSharingRepository.ExistsByUsersAndFilename(old(db.grants), sharedBy, sharedTo, filename).value ==>
      r == Err(DuplicateResource)
    ensures r.Ok? <==> UserRepository.FindById(db.users, sharedBy).Some? && UserRepository.FindById(db.users, sharedTo).Some?
                       && !SharedBetween(old(db.grants), sharedBy, sharedTo, filename)
    ensures r.Ok? ==> (r.value == FileSharing(old(db.nextGrantId), sharedBy, sharedTo, filename)
                       && db.grants == old(db.grants) + [r.value])
    ensures r.Err? ==> db.grants == old(db.grants)
  {
    if UserRepository.FindById(db.users, sharedBy).None? {
      return Err(UserNotFound);
    }
    if UserRepository.FindById(db.users, sharedTo).None? {
      return Err(UserNotFound);
    }
    var dup := FileSharingRepository.ExistsByUsersAndFilename(db.grants, sharedBy, sharedTo, filename);
    if dup.Err? {
      return Err(dup.error);
    }
    if dup.value {
      return Err(DuplicateResource);
    }
    var grant := FileSharing(db.nextGrantId, sharedBy, sharedTo, filename);
    AppendGrants(db, [grant]);
    r := Ok(grant);
  }

  /** After a share, sharing the same file between the same two accounts, either way round, is a duplicate. */
  lemma ShareThenDuplicate(grants: seq<FileSharing>, grant: FileSharing)
    requires !SharedBetween(grants, grant.sharedByUserId, grant.sharedToUserId, grant.filename)
    ensures FileSharingRepository.ExistsByUsersAndFilename(grants + [grant], grant.sharedByUserId, grant.sharedToUserId, grant.filename) == Ok(true)
    ensures FileSharingRepository.ExistsByUsersAndFilename(grants + [grant], grant.sharedToUserId, grant.sharedByUserId, grant.filename) == Ok(true)
  {
    var a, b, filename := grant.sharedByUserId, grant.sharedToUserId, grant.filename;
    var p := (f: FileSharing) =>
      ((f.sharedByUserId == a && f.sharedToUserId == b) || (f.sharedByUserId == b && f.sharedToUserId == a))
      && f.filename == filename;
    Seqs.FilterConcat(grants, [grant], p);
    Seqs.FilterNone(grants, p);
    assert Seqs.Filter([grant], p) == [grant] by {
      assert [grant][1..] == [];
    }
    FileSharingRepository.ExistsSymmetric(grants + [grant], a, b, filename);
  }

  /**
   * The grants shareFileToGroup makes: one per member, in member order,
   * with consecutive ids from `firstId`.
   */
  function FanOut(members: seq<User>, sharedBy: int, filename: string, firstId: int): (r: seq<FileSharing>)
    ensures |r| == |members|
    ensures forall i :: 0 <= i < |r| ==>
      r[i].id == firstId + i && r[i].sharedByUserId == sharedBy
      && r[i].sharedToUserId == members[i].id && r[i].filename == filename
    decreases |members|
  {
    if members == [] then []
    else
      FanOut(members[..|members| - 1], sharedBy, filename, firstId)
      + [FileSharing(firstId + |members| - 1, sharedBy, members[|members| - 1].id, filename)]
  }

  /**
   * shareFileToGroup: the group must exist and have a member with an
   * account; then every member gets a grant, with no duplicate check and no
   * check of the sharer.
   */
  method ShareFileToGroup(db: Persistence.Database, sharedBy: int, groupId: int, filename: string)
    returns (r: Result<seq<FileSharing>>)
    requires db.Valid()
    modifies db`grants, db`nextGrantId
    ensures db.Valid()
    ensures GroupRepository.FindById(db.groups, groupId).None? ==> r == Err(GroupNotFound)
    ensures (GroupRepository.FindById(db.groups, groupId).Some?
             && UserRepository.FindUsersByGroupId(db.users, db.members, groupId).None?) ==> r == Err(MembersNotFound)
    ensures r.Ok? <==> GroupRepository.FindById(db.groups, groupId).Some?
                       && UserRepository.FindUsersByGroupId(db.users, db.members, groupId).Some?
    ensures r.Ok? ==> (r.value == FanOut(UserRepository.FindUsersByGroupId(db.users, db.members, groupId).value, sharedBy, filename, old(db.nextGrantId))
                       && db.grants == old(db.grants) + r.value)
    ensures r.Err? ==> db.grants == old(db.grants)
  {
    if GroupRepository.FindById(db.groups, groupId).None? {
      return Err(GroupNotFound);
    }
    var found := UserRepository.FindUsersByGroupId(db.users, db.members, groupId);
    if found.None? {
      return Err(MembersNotFound);
    }
    var grants := BuildGrants(found.value, sharedBy, filename, db.nextGrantId);
    AppendGrants(db, grants);
    r := Ok(grants);
  }

  /** The loop of shareFileToGroup that makes one grant per member. */
  method BuildGrants(members: seq<User>, sharedBy: int, filename: string, firstId: int) returns (grants: seq<FileSharing>)
    ensures grants == FanOut(members, sharedBy, filename, firstId)
  {
    grants := [];
    var i := 0;
    while i < |members|
      invariant 0 <= i <= |members|
      invariant grants == FanOut(members[..i], sharedBy, filename, firstId)
    {
      grants := grants + [FileSharing(firstId + i, sharedBy, members[i].id, filename)];
      Seqs.PrefixOfLonger(members, i);
      i := i + 1;
    }
    assert members[..i] == members;
  }

  /** persist of new grants: each takes the next id from the generator. */
  method AppendGrants(db: Persistence.Database, extra: seq<FileSharing>)
    requires db.Valid()
    requires forall i :: 0 <= i < |extra| ==> extra[i].id == db.nextGrantId + i
    modifies db`grants, db`nextGrantId
    ensures db.Valid()
    ensures db.grants == old(db.grants) + extra && db.nextGrantId == old(db.nextGrantId) + |extra|
  {
    AppendGrantsValid(db.grants, extra, db.nextGrantId);
    db.grants := db.grants + extra;
    db.nextGrantId := db.nextGrantId + |extra|;
  }

  /** Appending grants numbered on from the generator keeps ids unique and below the generator. */
  lemma AppendGrantsValid(grants: seq<FileSharing>, extra: seq<FileSharing>, next: int)
    requires Persistence.UniqueGrantIds(grants) && forall f :: f in grants ==> f.id < next
    requires forall i :: 0 <= i < |extra| ==> extra[i].id == next + i
    ensures Persistence.UniqueGrantIds(grants + extra)
    ensures forall f :: f in grants + extra ==> f.id < next + |extra|
  {
    var all := grants + extra;
    forall i, j | 0 <= i < j < |all| ensures all[i].id != all[j].id {
      if j >= |grants| {
        assert all[j] == extra[j - |grants|];
        if i < |grants| {
          assert all[i] in grants;
        } else {
          assert all[i] == extra[i - |grants|];
        }
      }
    }
    forall f | f in all ensures f.id < next + |extra| {
      var k :| 0 <= k < |all| && all[k] == f;
      if k >= |grants| {
        assert all[k] == extra[k - |grants|];
      } else {
        assert all[k] in grants;
      }
    }
  }

  /** unshareFile: removes the grant with that id, whoever shared it. */
  method UnshareFile(db: Persistence.Database, grantId: int) returns (r: Result<()>)
    requires db.Valid()
    modifies db`grants
    ensures db.Valid()
    ensures r.Err? <==> FileSharingRepository.FindById(old(db.grants), grantId).None?
    ensures r.Err? ==> r.error == FileSharingNotFound && db.grants == old(db.grants)
    ensures r.Ok? ==> db.grants == FileSharingRepository.WithoutGrant(old(db.grants), grantId)
  {
    if FileSharingRepository.FindById(db.grants, grantId).None? {
      return Err(FileSharingNotFound);
    }
    Seqs.FilterDistinctBy(db.grants, (f: FileSharing) => f.id != grantId, (f: FileSharing) => f.id);
    db.grants := FileSharingRepository.WithoutGrant(db.grants, grantId);
    r := Ok(());
  }

  /** Whose name a sharing listing shows beside a grant. */
  datatype Side = ByMe | ToMe

  /** The other party's user name, when that account still exists. */
  function Counterpart(users: seq<User>, f: FileSharing, side: Side): (r: Option<string>)
    ensures r.Some? <==> UserRepository.FindById(users, if side == ByMe then f.sharedToUserId else f.sharedByUserId).Some?
  {
    match UserRepository.FindById(users, if side == ByMe then f.sharedToUserId else f.sharedByUserId)
    case None => None
    case Some(u) => Some(u.username)
  }

  /** One listing row per object the grant covers. */
  function RowsOf(f: FileSharing, name: Option<string>, objects: seq<FileObject>): (r: seq<FileSharingResponse>)
    ensures |r| == |objects|
    ensures forall i :: 0 <= i < |objects| ==> r[i] == FileSharingResponse(f, name, objects[i])
  {
    seq(|objects|, i requires 0 <= i < |objects| => FileSharingResponse(f, name, objects[i]))
  }

  /**
   * The rows of a sharing listing over `grants`, in grant order: each grant
   * expands into the objects of the sharer's bucket under the granted name.
   * A missing sharer bucket fails the whole listing.
   */
  function JoinRows(users: seq<User>, buckets: map<string, ObjectStore.Bucket>, grants: seq<FileSharing>, side: Side)
    : (r: Result<seq<FileSharingResponse>>)
    ensures r.Err? ==> r.error == Storage(NoSuchBucket)
    decreases |grants|
  {
    if grants == [] then Ok([])
    else
      var n := |grants| - 1;
      match JoinRows(users, buckets, grants[..n], side)
      case Err(e) => Err(e)
      case Ok(rows) =>
        match MinioService.ListObjects(buckets, SharerBucket(grants[n].sharedByUserId), Some(grants[n].filename), None)
        case Err(e) => Err(e)
        case Ok(objects) => Ok(rows + RowsOf(grants[n], Counterpart(users, grants[n], side), objects))
  }

  /** A sharing listing fails exactly when the bucket of some grant's sharer is missing. */
  lemma {:induction false} JoinRowsFails(users: seq<User>, buckets: map<string, ObjectStore.Bucket>,
                                         grants: seq<FileSharing>, side: Side)
    ensures JoinRows(users, buckets, grants, side).Err? <==>
            exists f :: f in grants && SharerBucket(f.sharedByUserId) !in buckets
    decreases |grants|
  {
    if grants != [] {
      var n := |grants| - 1;
      var front, last := grants[..n], grants[n];
      JoinRowsFails(users, buckets, front, side);
      assert JoinRows(users, buckets, grants, side).Err? <==>
        JoinRows(users, buckets, front, side).Err? || SharerBucket(last.sharedByUserId) !in buckets;
      Seqs.MembersOfSnoc(grants);
    }
  }

  /** Each row of a sharing listing comes from one of the grants, with an object under the granted name. */
  lemma {:induction false} JoinRowsSound(users: seq<User>, buckets: map<string, ObjectStore.Bucket>,
                                         grants: seq<FileSharing>, side: Side)
    requires JoinRows(users, buckets, grants, side).Ok?
    ensures forall row :: row in JoinRows(users, buckets, grants, side).value ==>
      && row.fileSharing in grants
      && StartsWith(row.fileObject.objectKey, row.fileSharing.filename)
      && row.counterpartName == Counterpart(users, row.fileSharing, side)
    decreases |grants|
  {
    if grants != [] {
      var n := |grants| - 1;
      var f := grants[n];
      JoinRowsSound(users, buckets, grants[..n], side);
      var before := JoinRows(users, buckets, grants[..n], side).value;
      var objects := MinioService.ListObjects(buckets, SharerBucket(f.sharedByUserId), Some(f.filename), None).value;
      var rows := RowsOf(f, Counterpart(users, f, side), objects);
      assert JoinRows(users, buckets, grants, side).value == before + rows;
      forall row: FileSharingResponse | row in before + rows
        ensures row.fileSharing in grants
        ensures StartsWith(row.fileObject.objectKey, row.fileSharing.filename)
        ensures row.counterpartName == Counterpart(users, row.fileSharing, side)
      {
        if row in before {
          assert row.fileSharing in grants[..n];
        } else {
          var i :| 0 <= i < |rows| && rows[i] == row;
          assert f in grants;
        }
      }
    }
  }

  /** The grant covers the object: it is in a listing of the sharer's bucket under the granted name. */
  predicate Covers(buckets: map<string, ObjectStore.Bucket>, f: FileSharing, o: StoredObject) {
    SharerBucket(f.sharedByUserId) in buckets
    && o in ObjectStore.Page(buckets[SharerBucket(f.sharedByUserId)], f.filename)
  }

  /** Every object a grant covers appears in the listing, beside that grant. */
  lemma JoinRowsComplete(users: seq<User>, buckets: map<string, ObjectStore.Bucket>,
                         grants: seq<FileSharing>, side: Side, k: nat, o: StoredObject)
    requires JoinRows(users, buckets, grants, side).Ok?
    requires k < |grants| && Covers(buckets, grants[k], o)
    ensures FileSharingResponse(grants[k], Counterpart(users, grants[k], side), Describe(o))
            in JoinRows(users, buckets, grants, side).value
  {
    var prefix := grants[..k + 1];
    JoinRowsPrefix(users, buckets, grants, side, k + 1);
    assert prefix[k] == grants[k];
    JoinRowsCompleteLast(users, buckets, prefix, side, k, o);
  }

  /** The listing over a prefix of the grants succeeds too, and its rows are rows of the whole listing. */
  lemma {:induction false} JoinRowsPrefix(users: seq<User>, buckets: map<string, ObjectStore.Bucket>,
                                          grants: seq<FileSharing>, side: Side, m: nat)
    requires m <= |grants| && JoinRows(users, buckets, grants, side).Ok?
    ensures JoinRows(users, buckets, grants[..m], side).Ok?
    ensures forall row :: row in JoinRows(users, buckets, grants[..m], side).value ==>
                          row in JoinRows(users, buckets, grants, side).value
    decreases |grants|
  {
    if m < |grants| {
      var n := |grants| - 1;
      var prefix := grants[..n];
      JoinRowsLast(users, buckets, grants, side);
      JoinRowsPrefix(users, buckets, prefix, side, m);
      assert prefix[..m] == grants[..m];
    } else {
      assert grants[..m] == grants;
    }
  }

  lemma JoinRowsCompleteLast(users: seq<User>, buckets: map<string, ObjectStore.Bucket>,
                             grants: seq<FileSharing>, side: Side, k: nat, o: StoredObject)
    requires k == |grants| - 1 && JoinRows(users, buckets, grants, side).Ok?
    requires Covers(buckets, grants[k], o)
    ensures FileSharingResponse(grants[k], Counterpart(users, grants[k], side), Describe(o))
            in JoinRows(users, buckets, grants, side).value
  {
    var f := grants[k];
    JoinRowsLast(users, buckets, grants, side);
    RowsOfListed(f, Counterpart(users, f, side), ObjectStore.Page(buckets[SharerBucket(f.sharedByUserId)], f.filename), o);
  }

  /** A successful listing ends with the rows of its last grant. */
  lemma JoinRowsLast(users: seq<User>, buckets: map<string, ObjectStore.Bucket>, grants: seq<FileSharing>, side: Side)
    requires grants != [] && JoinRows(users, buckets, grants, side).Ok?
    ensures JoinRows(users, buckets, grants[..|grants| - 1], side).Ok?
    ensures SharerBucket(grants[|grants| - 1].sharedByUserId) in buckets
    ensures JoinRows(users, buckets, grants, side).value ==
      JoinRows(users, buckets, grants[..|grants| - 1], side).value
      + RowsOf(grants[|grants| - 1], Counterpart(users, grants[|grants| - 1], side),
               MinioService.DescribeAll(ObjectStore.Page(buckets[SharerBucket(grants[|grants| - 1].sharedByUserId)], grants[|grants| - 1].filename)))
  {
    JoinRowsFails(users, buckets, grants, side);
    assert grants[|grants| - 1] in grants;
  }

  lemma RowsOfListed(f: FileSharing, name: Option<string>, page: seq<StoredObject>, o: StoredObject)
    requires o in page
    ensures FileSharingResponse(f, name, Describe(o)) in RowsOf(f, name, MinioService.DescribeAll(page))
  {
    var i :| 0 <= i < |page| && page[i] == o;
    assert RowsOf(f, name, MinioService.DescribeAll(page))[i] == FileSharingResponse(f, name, Describe(o));
  }

  /**
   * The nested loops of getFilesSharedByUser / getFilesSharedToUser over
   * the selected grants.
   */
  method CollectRows(db: Persistence.Database, s3: Backend.StorageBackend, grants: seq<FileSharing>, side: Side)
    returns (r: Result<seq<FileSharingResponse>>)
    ensures r == JoinRows(db.users, s3.buckets, grants, side)
  {
    var rows: seq<FileSharingResponse> := [];
    var i := 0;
    while i < |grants|
      invariant 0 <= i <= |grants|
      invariant JoinRows(db.users, s3.buckets, grants[..i], side) == Ok(rows)
    {
      var f := grants[i];
      var name := Counterpart(db.users, f, side);
      var listing := MinioService.ListObjects(s3.buckets, SharerBucket(f.sharedByUserId), Some(f.filename), None);
      JoinRowsStep(db.users, s3.buckets, grants, side, i, rows);
      if listing.Err? {
        JoinRowsErrExtends(db.users, s3.buckets, grants, side, i + 1);
        return Err(listing.error);
      }
      rows := AppendRows(rows, f, name, listing.value);
      i := i + 1;
    }
    assert grants[..i] == grants;
    r := Ok(rows);
  }

  /** One more grant extends the listing by its rows, or fails it on a missing bucket. */
  lemma JoinRowsStep(users: seq<User>, buckets: map<string, ObjectStore.Bucket>, grants: seq<FileSharing>, side: Side,
                     i: nat, rows: seq<FileSharingResponse>)
    requires i < |grants| && JoinRows(users, buckets, grants[..i], side) == Ok(rows)
    ensures JoinRows(users, buckets, grants[..i + 1], side) ==
      match MinioService.ListObjects(buckets, SharerBucket(grants[i].sharedByUserId), Some(grants[i].filename), None)
      case Err(e) => Err(e)
      case Ok(objects) => Ok(rows + RowsOf(grants[i], Counterpart(users, grants[i], side), objects))
  {
    var prefix := grants[..i + 1];
    assert prefix[..i] == grants[..i];
    assert prefix[i] == grants[i];
  }

  /** The inner loop: one row per listed object. */
  method AppendRows(rows: seq<FileSharingResponse>, f: FileSharing, name: Option<string>, objects: seq<FileObject>)
    returns (out: seq<FileSharingResponse>)
    ensures out == rows + RowsOf(f, name, objects)
  {
    out := rows;
    var j := 0;
    while j < |objects|
      invariant 0 <= j <= |objects|
      invariant out == rows + RowsOf(f, name, objects[..j])
    {
      out := out + [FileSharingResponse(f, name, objects[j])];
      assert RowsOf(f, name, objects[..j + 1]) == RowsOf(f, name, objects[..j]) + [FileSharingResponse(f, name, objects[j])];
      j := j + 1;
    }
    assert objects[..j] == objects;
  }

  /** A listing that fails on a prefix of the grants fails on all of them. */
  lemma JoinRowsErrExtends(users: seq<User>, buckets: map<string, ObjectStore.Bucket>, grants: seq<FileSharing>, side: Side, n: nat)
    requires n <= |grants| && JoinRows(users, buckets, grants[..n], side).Err?
    ensures JoinRows(users, buckets, grants, side) == JoinRows(users, buckets, grants[..n], side)
  {
    JoinRowsFails(users, buckets, grants[..n], side);
    var f :| f in grants[..n] && SharerBucket(f.sharedByUserId) !in buckets;
    assert f in grants;
    JoinRowsFails(users, buckets, grants, side);
  }

  /** getFilesSharedByUser: the rows of the grants the user made. */
  method GetFilesSharedByUser(db: Persistence.Database, s3: Backend.StorageBackend, userId: int)
    returns (r: Result<seq<FileSharingResponse>>)
    ensures UserRepository.FindById(db.users, userId).None? ==> r == Err(UserNotFound)
    ensures UserRepository.FindById(db.users, userId).Some? ==>
      r == JoinRows(db.users, s3.buckets, Seqs.Filter(db.grants, (f: FileSharing) => f.sharedByUserId == userId), ByMe)
  {
    if UserRepository.FindById(db.users, userId).None? {
      return Err(UserNotFound);
    }
    var grants := FileSharingRepository.FindBySharedByUserId(db.grants, userId).GetOr([]);
    r := CollectRows(db, s3, grants, ByMe);
  }

  /** getFilesSharedToUser: the rows of the grants the user received. */
  method GetFilesSharedToUser(db: Persistence.Database, s3: Backend.StorageBackend, userId: int)
    returns (r: Result<seq<FileSharingResponse>>)
    ensures UserRepository.FindById(db.users, userId).None? ==> r == Err(UserNotFound)
    ensures UserRepository.FindById(db.users, userId).Some? ==>
      r == JoinRows(db.users, s3.buckets, Seqs.Filter(db.grants, (f: FileSharing) => f.sharedToUserId == userId), ToMe)
  {
    if UserRepository.FindById(db.users, userId).None? {
      return Err(UserNotFound);
    }
    var grants := FileSharingRepository.FindBySharedToUserId(db.grants, userId).GetOr([]);
    r := CollectRows(db, s3, grants, ToMe);
  }

  /** The owner granted that user that exact file name. */
  predicate HasGrant(grants: seq<FileSharing>, ownerId: int, userId: int, filename: string) {
    exists f :: f in grants && f.sharedByUserId == ownerId && f.sharedToUserId == userId && f.filename == filename
  }

  /** isFileSharedWithUser as written: false exactly when the grant exists. */
  method IsFileSharedWithUser(db: Persistence.Database, ownerId: int, userId: int, filename: string) returns (shared: bool)
    ensures shared <==> !HasGrant(db.grants, ownerId, userId, filename)
  {
    var grants := FileSharingRepository.FindBySharedByUserId(db.grants, ownerId).GetOr([]);
    assert forall f :: f in grants <==> f in db.grants && f.sharedByUserId == ownerId;
    var i := 0;
    while i < |grants|
      invariant 0 <= i <= |grants|
      invariant forall k :: 0 <= k < i ==> !(grants[k].filename == filename && grants[k].sharedToUserId == userId)
    {
      if grants[i].filename == filename && grants[i].sharedToUserId == userId {
        assert grants[i] in grants;
        return false;
      }
      i := i + 1;
    }
    shared := true;
  }
}
