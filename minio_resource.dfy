/**
 * MinioResource: the object endpoints under /user/{id}/object.  Each is a
 * decision over the authorization check, the share predicate and the
 * service's answer.  A service call whose effect on the store is modelled
 * elsewhere appears here as a function from the bucket name to the answer
 * the service gives, so the decision shows which bucket it is asked about.
 */
module MinioResource {
  import opened Wrappers
  import opened Failures
  import opened Entities
  import opened Text
  import opened Responses
  import ObjectStore
  import MinioService
  import Authorization
  import FileSharingService

  /** The bucket of an account: its id followed by the configured suffix. */
  function UserBucket(id: int, suffix: string): (b: string)
    ensures StartsWith(b, Decimal(id)) && b[|Decimal(id)|..] == suffix
  {
    StartsWithConcat(Decimal(id), suffix);
    Decimal(id) + suffix
  }

  predicate Authorized(id: int, principal: string) {
    Authorization.CheckAuthorization(id, principal).Ok?
  }

  /** Endpoints that build the bucket from the principal reach the path user's bucket once authorized. */
  lemma PrincipalBucket(id: int, principal: string, suffix: string)
    requires Authorized(id, principal)
    ensures principal + suffix == UserBucket(id, suffix)
  {
  }

  /** Distinct accounts have distinct buckets. */
  lemma UserBucketInjective(m: int, n: int, suffix: string)
    requires UserBucket(m, suffix) == UserBucket(n, suffix)
    ensures m == n
  {
    var b := UserBucket(m, suffix);
    assert Decimal(m) == b[..|b| - |suffix|] == Decimal(n);
    DecimalInjective(m, n);
  }

  /** listFiles: a refused principal escapes as Forbidden; otherwise the listing of the path user's bucket. */
  function ListFiles(buckets: map<string, ObjectStore.Bucket>, id: int, principal: string, suffix: string,
                     prefix: Option<string>, delimiter: Option<string>): (r: Result<seq<FileObject>>)
    ensures !Authorized(id, principal) ==> r == Err(Forbidden)
    ensures Authorized(id, principal) ==> r == MinioService.ListObjects(buckets, UserBucket(id, suffix), prefix, delimiter)
  {
    match Authorization.CheckAuthorization(id, principal)
    case Err(e) => Err(e)
    case Ok(_) => MinioService.ListObjects(buckets, UserBucket(id, suffix), prefix, delimiter)
  }

  /**
   * deleteFile: everything, the refusal included, is caught and answered
   * 500; 200 only when the service's message starts with the deletion text.
   */
  function DeleteFile(id: int, principal: string, suffix: string, deleteObject: string -> Result<string>): (status: int)
    ensures status == 200 || status == 500
    ensures status == 200 <==> Authorized(id, principal) && deleteObject(UserBucket(id, suffix)).Ok?
                               && StartsWith(deleteObject(UserBucket(id, suffix)).value, "Object deleted successfully")
  {
    if !Authorized(id, principal) then 500
    else match deleteObject(UserBucket(id, suffix))
      case Err(_) => 500
      case Ok(message) => if StartsWith(message, "Object deleted successfully") then 200 else 500
  }

  /** Against the service's answers, deleteFile succeeds exactly for the owner of an existing bucket. */
  lemma DeleteFileServed(id: int, principal: string, suffix: string, buckets: map<string, ObjectStore.Bucket>,
                         objectKey: string, deleteObject: string -> Result<string>)
    requires forall b :: deleteObject(b) == if b in buckets then Ok(MinioService.ObjectDeletedMessage + objectKey)
                                            else Err(Storage(NoSuchBucket))
    ensures DeleteFile(id, principal, suffix, deleteObject) == 200 <==> Authorized(id, principal) && UserBucket(id, suffix) in buckets
  {
    StartsWithLonger(MinioService.ObjectDeletedMessage + objectKey, "Object deleted successfully", ": ");
    assert MinioService.ObjectDeletedMessage + objectKey == "Object deleted successfully" + ": " + objectKey;
    StartsWithConcat("Object deleted successfully" + ": ", objectKey);
  }

  /** renameFile: 200 when authorized and the rename returns, 500 for any failure. */
  function RenameFile(id: int, principal: string, suffix: string, rename: string -> Result<()>): (status: int)
    ensures status == 200 <==> Authorized(id, principal) && rename(UserBucket(id, suffix)).Ok?
    ensures status != 200 ==> status == 500
  {
    if Authorized(id, principal) && rename(UserBucket(id, suffix)).Ok? then 200 else 500
  }

  /** uploadFilePresign: the URL for the principal's bucket; a refusal, null or failure is 500. */
  function UploadFilePresign(id: int, principal: string, suffix: string, presign: string -> Result<Option<string>>)
    : (r: Outcome<string>)
    ensures r.Answer? && (r.status == 200 || r == Answer(500, None))
    ensures r.status == 200 <==> Authorized(id, principal) && presign(principal + suffix).Ok? && presign(principal + suffix).value.Some?
    ensures r.status == 200 ==> r.entity == presign(UserBucket(id, suffix)).value
  {
    if !Authorized(id, principal) then Answer(500, None)
    else match presign(principal + suffix)
      case Ok(Some(url)) => Answer(200, Some(url))
      case _ => Answer(500, None)
  }

  /**
   * downloadFilePresign as written.  A refusal is answered 403 with no
   * sharing fallback; after the check passes, the path user is refused
   * whenever isFileSharedWithUser(id, principal, key) holds, that is unless
   * the account has shared the key with itself.
   */
  function DownloadFilePresign(id: int, principal: string, suffix: string, grants: seq<FileSharing>, objectKey: string,
                               presign: string -> Result<string>): (r: Outcome<string>)
    ensures r.Answer?
    ensures !Authorized(id, principal) ==> r == Answer(403, None)
    ensures r.status == 200 <==> Authorized(id, principal) && FileSharingService.HasGrant(grants, id, id, objectKey)
                                 && presign(UserBucket(id, suffix)).Ok?
    ensures r.status == 200 ==> r.entity == Some(presign(UserBucket(id, suffix)).value)
  {
    if !Authorized(id, principal) then Answer(403, None)
    else match ParseLong(principal)
      case None => Answer(500, None)
      case Some(userId) =>
        Authorization.AuthorizedPrincipalParses(id, principal);
        if !FileSharingService.HasGrant(grants, id, userId, objectKey) then Answer(403, None)
        else match presign(UserBucket(id, suffix))
          case Err(_) => Answer(500, None)
          case Ok(url) => Answer(200, Some(url))
  }

  /** The owner without a grant to itself, the usual case, is refused its own download link. */
  lemma PresignRefusesOwner(id: int, suffix: string, grants: seq<FileSharing>, objectKey: string,
                            presign: string -> Result<string>)
    requires !FileSharingService.HasGrant(grants, id, id, objectKey)
    ensures DownloadFilePresign(id, Decimal(id), suffix, grants, objectKey, presign) == Answer(403, None)
  {
    ParseLongOfDecimal(id);
  }

  /**
   * downloadFilePresign as evidently intended: the same gate as
   * downloadFile, so the owner and the accounts it shared the key with get
   * the link.
   */
  function DownloadFilePresignGated(id: int, principal: string, suffix: string, grants: seq<FileSharing>, objectKey: string,
                                    presign: string -> Result<string>): (r: Outcome<string>)
    ensures DownloadGate(id, principal, grants, objectKey) == Deny ==> r == Answer(403, None)
    ensures DownloadGate(id, principal, grants, objectKey).Escape? ==> r == Raised(IllegalArgument)
    ensures (r.Answer? && r.status == 200) <==> DownloadGate(id, principal, grants, objectKey) == Pass && presign(UserBucket(id, suffix)).Ok?
    ensures r.Answer? && r.status == 200 ==> r.entity == Some(presign(UserBucket(id, suffix)).value)
  {
    match DownloadGate(id, principal, grants, objectKey)
    case Deny => Answer(403, None)
    case Escape(f) => Raised(f)
    case Pass =>
      match presign(UserBucket(id, suffix))
      case Err(_) => Answer(500, None)
      case Ok(url) => Answer(200, Some(url))
  }

  /** With the gate, the owner gets its link whenever the presigner answers. */
  lemma GatedPresignServesOwner(id: int, suffix: string, grants: seq<FileSharing>, objectKey: string, url: string,
                                presign: string -> Result<string>)
    requires presign(UserBucket(id, suffix)) == Ok(url)
    ensures DownloadFilePresignGated(id, Decimal(id), suffix, grants, objectKey, presign) == Answer(200, Some(url))
  {
  }

  /**
   * createEmptyFolder: the check runs outside the try, so a refusal escapes
   * as Forbidden; then 201 only for the exact success message, else 500.
   */
  function CreateEmptyFolder(id: int, principal: string, suffix: string, create: string -> Result<string>)
    : (r: Outcome<()>)
    ensures !Authorized(id, principal) <==> r == Raised(Forbidden)
    ensures r.Answer? ==> (r.status == 201 || r.status == 500) && r.entity.None?
    ensures r.Answer? && r.status == 201 <==> Authorized(id, principal) && create(UserBucket(id, suffix)) == Ok(MinioService.FolderCreatedMessage)
  {
    if !Authorized(id, principal) then Raised(Forbidden)
    else if create(principal + suffix) == Ok(MinioService.FolderCreatedMessage) then Answer(201, None)
    else Answer(500, None)
  }

  /** uploadFile: 201 when the service's message starts with the upload text; anything else is 500. */
  function UploadFile(id: int, principal: string, suffix: string, upload: string -> Result<string>): (status: int)
    ensures status == 201 || status == 500
    ensures status == 201 <==> Authorized(id, principal) && upload(UserBucket(id, suffix)).Ok?
                               && StartsWith(upload(UserBucket(id, suffix)).value, "Object uploaded successfully")
  {
    if !Authorized(id, principal) then 500
    else match upload(principal + suffix)
      case Err(_) => 500
      case Ok(message) => if StartsWith(message, "Object uploaded successfully") then 201 else 500
  }

  // ---------------------------------------------------------------------
  // Downloads and the sharing fallback
  // ---------------------------------------------------------------------

  datatype Gate = Pass | Deny | Escape(failure: Failure)

  /**
   * The check downloadFile and downloadFileAsStream make.  When the
   * principal is not the path user, its id is parsed (a non-number is a
   * NumberFormatException, an IllegalArgumentException, that escapes) and
   * the request is refused when isFileSharedWithUser(id, principal, key)
   * holds, which is when there is no such grant.
   */
  function DownloadGate(id: int, principal: string, grants: seq<FileSharing>, objectKey: string): (g: Gate)
    ensures g.Escape? ==> g.failure == IllegalArgument
  {
    if Authorized(id, principal) then Pass
    else match ParseLong(principal)
      case None => Escape(IllegalArgument)
      case Some(userId) => if !FileSharingService.HasGrant(grants, id, userId, objectKey) then Deny else Pass
  }

  /** The two inversions cancel: the path user passes, and another account passes exactly when the path user shared the key with it. */
  lemma GatePassesOwnerOrGrantee(id: int, principal: string, grants: seq<FileSharing>, objectKey: string)
    ensures DownloadGate(id, principal, grants, objectKey) == Pass <==>
      principal == Decimal(id)
      || (ParseLong(principal).Some? && FileSharingService.HasGrant(grants, id, ParseLong(principal).value, objectKey))
  {
  }

  /** A numeric principal other than the path user is refused exactly when no grant for the key exists. */
  lemma GateDeniesWithoutGrant(id: int, userId: int, grants: seq<FileSharing>, objectKey: string)
    requires userId != id
    ensures DownloadGate(id, Decimal(userId), grants, objectKey) == Deny <==> !FileSharingService.HasGrant(grants, id, userId, objectKey)
  {
    ParseLongOfDecimal(userId);
    if Decimal(userId) == Decimal(id) {
      DecimalInjective(userId, id);
    }
  }

  /**
   * downloadFile: past the gate, the object of the path user's bucket.  An
   * empty object is 404; a missing object, like any other storage failure,
   * is thrown by getObject and caught as 500.
   */
  function DownloadFile(buckets: map<string, ObjectStore.Bucket>, grants: seq<FileSharing>, id: int, principal: string,
                        suffix: string, objectKey: string): (r: Outcome<seq<byte>>)
    ensures DownloadGate(id, principal, grants, objectKey) == Deny ==> r == Answer(403, None)
    ensures DownloadGate(id, principal, grants, objectKey).Escape? ==> r == Raised(IllegalArgument)
    ensures r.Answer? && r.status == 200 <==>
      DownloadGate(id, principal, grants, objectKey) == Pass
      && ObjectStore.GetObject(buckets, UserBucket(id, suffix), objectKey).Ok?
      && |ObjectStore.GetObject(buckets, UserBucket(id, suffix), objectKey).value.content| > 0
    ensures r.Answer? && r.status == 200 ==> r.entity == Some(ObjectStore.GetObject(buckets, UserBucket(id, suffix), objectKey).value.content)
    ensures (DownloadGate(id, principal, grants, objectKey) == Pass
             && ObjectStore.GetObject(buckets, UserBucket(id, suffix), objectKey).Err?) ==> r == Answer(500, None)
    ensures (DownloadGate(id, principal, grants, objectKey) == Pass
             && ObjectStore.GetObject(buckets, UserBucket(id, suffix), objectKey).Ok?
             && ObjectStore.GetObject(buckets, UserBucket(id, suffix), objectKey).value.content == []) ==> r == Answer(404, None)
    ensures r.Answer? ==> r.status in {200, 403, 404, 500}
  {
    match DownloadGate(id, principal, grants, objectKey)
    case Deny => Answer(403, None)
    case Escape(f) => Raised(f)
    case Pass =>
      match ObjectStore.GetObject(buckets, UserBucket(id, suffix), objectKey)
      case Err(_) => Answer(500, None)
      case Ok(o) => if |o.content| > 0 then Answer(200, Some(o.content)) else Answer(404, None)
  }

  /**
   * downloadFileAsStream: the same gate; every fetched object is streamed, an
   * empty one included, and a missing object or other storage failure is 500.
   */
  function DownloadFileAsStream(buckets: map<string, ObjectStore.Bucket>, grants: seq<FileSharing>, id: int, principal: string,
                                suffix: string, objectKey: string): (r: Outcome<seq<byte>>)
    ensures DownloadGate(id, principal, grants, objectKey) == Deny ==> r == Answer(403, None)
    ensures DownloadGate(id, principal, grants, objectKey).Escape? ==> r == Raised(IllegalArgument)
    ensures r.Answer? && r.status == 200 <==>
      DownloadGate(id, principal, grants, objectKey) == Pass && ObjectStore.GetObject(buckets, UserBucket(id, suffix), objectKey).Ok?
    ensures r.Answer? && r.status == 200 ==> r.entity == Some(ObjectStore.GetObject(buckets, UserBucket(id, suffix), objectKey).value.content)
    ensures (DownloadGate(id, principal, grants, objectKey) == Pass
             && ObjectStore.GetObject(buckets, UserBucket(id, suffix), objectKey).Err?) ==> r == Answer(500, None)
  {
    match DownloadGate(id, principal, grants, objectKey)
    case Deny => Answer(403, None)
    case Escape(f) => Raised(f)
    case Pass =>
      match ObjectStore.GetObject(buckets, UserBucket(id, suffix), objectKey)
      case Err(_) => Answer(500, None)
      case Ok(o) => Answer(200, Some(o.content))
  }

  /** A zero-byte object, a folder placeholder for one, is "not found" to downloadFile but streamed by downloadFileAsStream. */
  lemma EmptyObjectNotFound(buckets: map<string, ObjectStore.Bucket>, grants: seq<FileSharing>, id: int, suffix: string,
                            objectKey: string)
    requires ObjectStore.GetObject(buckets, UserBucket(id, suffix), objectKey).Ok?
    requires ObjectStore.GetObject(buckets, UserBucket(id, suffix), objectKey).value.content == []
    ensures DownloadFile(buckets, grants, id, Decimal(id), suffix, objectKey) == Answer(404, None)
    ensures DownloadFileAsStream(buckets, grants, id, Decimal(id), suffix, objectKey) == Answer(200, Some([]))
  {
  }

  // ---------------------------------------------------------------------
  // Multipart uploads: every failure, the refusal included, is 500
  // ---------------------------------------------------------------------

  /** The shape of the four multipart endpoints: authorize, call, and answer 200 or 500. */
  function Caught<T>(authorized: bool, result: Result<T>): (r: Outcome<T>)
    ensures r.Answer?
    ensures r.status == 200 <==> authorized && result.Ok?
    ensures r.status == 200 ==> r.entity == Some(result.value)
    ensures r.status != 200 ==> r == Answer(500, None)
  {
    if authorized && result.Ok? then Answer(200, Some(result.value)) else Answer(500, None)
  }

  function StartMultipartUpload(id: int, principal: string, suffix: string, start: string -> Result<string>)
    : (r: Outcome<string>)
    ensures r.Answer? && (r.status == 200 <==> Authorized(id, principal) && start(UserBucket(id, suffix)).Ok?)
    ensures r.status == 200 ==> r.entity == Some(start(UserBucket(id, suffix)).value)
  {
    Caught(Authorized(id, principal), if Authorized(id, principal) then start(principal + suffix) else Err(Forbidden))
  }

  function UploadPart(id: int, principal: string, suffix: string, partNumber: int, upload: string -> Result<string>)
    : (r: Outcome<(int, string)>)
    ensures r.Answer? && (r.status == 200 <==> Authorized(id, principal) && upload(UserBucket(id, suffix)).Ok?)
    ensures r.status == 200 ==> r.entity == Some((partNumber, upload(UserBucket(id, suffix)).value))
  {
    if !Authorized(id, principal) then Answer(500, None)
    else match upload(principal + suffix)
      case Err(_) => Answer(500, None)
      case Ok(eTag) => Answer(200, Some((partNumber, eTag)))
  }

  function CompleteMultipartUpload(id: int, principal: string, suffix: string, complete: string -> Result<()>)
    : (r: Outcome<()>)
    ensures r.Answer? && (r.status == 200 <==> Authorized(id, principal) && complete(UserBucket(id, suffix)).Ok?)
  {
    Caught(Authorized(id, principal), if Authorized(id, principal) then complete(principal + suffix) else Err(Forbidden))
  }

  function AbortMultipartUpload(id: int, principal: string, suffix: string, abort: string -> Result<()>)
    : (r: Outcome<()>)
    ensures r.Answer? && (r.status == 200 <==> Authorized(id, principal) && abort(UserBucket(id, suffix)).Ok?)
  {
    Caught(Authorized(id, principal), if Authorized(id, principal) then abort(principal + suffix) else Err(Forbidden))
  }
}
