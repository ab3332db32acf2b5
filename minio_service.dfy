/**
 * MinioService: the per-account bucket operations the resources call, built
 * from the S3 client's calls on the storage backend.
 */
module MinioService {
  import opened Wrappers
  import opened Failures
  import opened Entities
  import opened Text
  import opened ObjectStore
  import opened Multipart
  import opened Backend
  import Persistence

  /** A multipart form upload: the file's bytes, its name and its declared mimetype. */
  datatype FormData = FormData(data: seq<byte>, filename: string, mimetype: Option<string>)

  const BucketCreatedMessage: string := "Bucket created successfully: "
  const BucketDeletedMessage: string := "Bucket deleted successfully: "
  const ObjectUploadedMessage: string := "Object uploaded successfully: "
  const ObjectDeletedMessage: string := "Object deleted successfully: "
  const FolderCreatedMessage: string := "Folder created successfully"
  const ObjectRenamedMessage: string := "Object renamed successfully"

  /** The size of the buffer the download loops read into. */
  const BufferSize: nat := 1024

  // ---------------------------------------------------------------------
  // Buckets
  // ---------------------------------------------------------------------

  method CreateBucket(s3: StorageBackend, bucketName: string) returns (r: Result<string>)
    requires s3.Valid()
    modifies s3`buckets
    ensures s3.Valid()
    ensures r.Ok? <==> bucketName !in old(s3.buckets)
    ensures r.Ok? ==> r.value == BucketCreatedMessage + bucketName && s3.buckets == old(s3.buckets)[bucketName := []]
    ensures r.Err? ==> r.error == Storage(BucketAlreadyExists) && s3.buckets == old(s3.buckets)
  {
    match ObjectStore.CreateBucket(s3.buckets, bucketName)
    case Err(e) =>
      r := Err(e);
    case Ok(created) =>
      s3.buckets := created;
      r := Ok(BucketCreatedMessage + bucketName);
  }

  /** The listing entries of some stored objects, in the same order. */
  function DescribeAll(objects: Bucket): (r: seq<FileObject>)
    ensures |r| == |objects|
    ensures forall i :: 0 <= i < |objects| ==> r[i] == Describe(objects[i])
  {
    seq(|objects|, i requires 0 <= i < |objects| => Describe(objects[i]))
  }

  /**
   * listObjects: the listing entries of one page of the bucket's objects
   * under the prefix; a delimiter drops the keys it would group.
   */
  function ListObjects(buckets: map<string, Bucket>, bucketName: string, prefix: Option<string>, delimiter: Option<string>)
    : (r: Result<seq<FileObject>>)
    ensures bucketName !in buckets <==> r == Err(Storage(NoSuchBucket))
    ensures r.Ok? ==> |r.value| <= MaxKeys
    ensures r.Ok? ==> forall i :: 0 <= i < |r.value| ==> StartsWith(r.value[i].objectKey, prefix.GetOr(""))
    ensures r.Ok? && (delimiter.None? || delimiter == Some("")) ==>
      r.value == DescribeAll(Page(buckets[bucketName], prefix.GetOr("")))
  {
    match ObjectStore.ListObjects(buckets, bucketName, prefix, delimiter)
    case Err(e) => Err(e)
    case Ok(objects) =>
      assert forall i :: 0 <= i < |objects| ==> objects[i] in objects;
      Ok(DescribeAll(objects))
  }

  /** The bucket after deleting the key of each listed object, one after the other. */
  function WithoutListed(b: Bucket, objects: seq<FileObject>): Bucket
    decreases |objects|
  {
    if objects == [] then b
    else Remove(WithoutListed(b, objects[..|objects| - 1]), objects[|objects| - 1].objectKey)
  }

  /** In a sorted bucket no other object shares the first key. */
  lemma RemoveFirstKey(b: Bucket)
    requires Sorted(b) && b != []
    ensures Remove(b, b[0].key) == b[1..]
  {
    var p := (x: StoredObject) => x.key != b[0].key;
    assert forall i :: 0 <= i < |b[1..]| ==> p(b[1..][i]) by {
      SortedTail(b);
      BelowIrreflexive(b[0].key);
      forall i | 0 <= i < |b[1..]| ensures p(b[1..][i]) {
        assert b[1..][i] in b[1..];
      }
    }
    Seqs.FilterAll(b[1..], p);
    assert Seqs.Filter(b, p) == Seqs.Filter(b[1..], p);
  }

  /** Deleting the keys of the first `n` objects of a sorted bucket leaves the rest. */
  lemma {:induction false} WithoutLeadingKeys(b: Bucket, n: nat)
    requires Sorted(b) && n <= |b|
    ensures WithoutListed(b, DescribeAll(b[..n])) == b[n..]
  {
    if n > 0 {
      assert DescribeAll(b[..n])[..n - 1] == DescribeAll(b[..n - 1]);
      WithoutLeadingKeys(b, n - 1);
      assert b[n - 1..][1..] == b[n..];
      SortedSuffix(b, n - 1);
      RemoveFirstKey(b[n - 1..]);
    }
  }

  lemma SortedSuffix(b: Bucket, n: nat)
    requires Sorted(b) && n <= |b|
    ensures Sorted(b[n..])
  {
    forall i, j | 0 <= i < j < |b[n..]| ensures Below(b[n..][i].key, b[n..][j].key) {
      assert b[n..][i] == b[n + i] && b[n..][j] == b[n + j];
    }
  }

  /** An unfiltered page is the first MaxKeys objects of the bucket. */
  lemma PageOfAll(b: Bucket)
    ensures Page(b, "") == Take(b, MaxKeys)
  {
    Seqs.FilterAll(b, (x: StoredObject) => StartsWith(x.key, ""));
  }

  /**
   * One pass of deleteBucket's loop over a listing of the whole bucket leaves
   * exactly the objects after the first MaxKeys.
   */
  lemma FirstPassLeaves(b: Bucket)
    requires Sorted(b)
    ensures WithoutListed(b, DescribeAll(Page(b, ""))) == if |b| <= MaxKeys then [] else b[MaxKeys..]
  {
    PageOfAll(b);
    if |b| <= MaxKeys {
      assert b[..|b|] == b;
      WithoutLeadingKeys(b, |b|);
    } else {
      WithoutLeadingKeys(b, MaxKeys);
    }
  }

  /** A bucket with more objects than one listing returns is not empty after deleteBucket's loop. */
  lemma LargeBucketSurvivesDeletion(b: Bucket)
    requires Sorted(b) && |b| > MaxKeys
    ensures WithoutListed(b, DescribeAll(Page(b, ""))) != []
    ensures |WithoutListed(b, DescribeAll(Page(b, "")))| == |b| - MaxKeys
  {
    FirstPassLeaves(b);
  }

  /** deleteObject on each listed key of the bucket, in listing order. */
  method DeleteListed(s3: StorageBackend, bucketName: string, objects: seq<FileObject>)
    requires s3.Valid() && bucketName in s3.buckets
    modifies s3`buckets
    ensures s3.Valid() && bucketName in s3.buckets
    ensures s3.buckets == old(s3.buckets)[bucketName := WithoutListed(old(s3.buckets)[bucketName], objects)]
  {
    ghost var b := s3.buckets[bucketName];
    var i := 0;
    while i < |objects|
      invariant 0 <= i <= |objects|
      invariant s3.Valid() && bucketName in s3.buckets
      invariant s3.buckets == old(s3.buckets)[bucketName := WithoutListed(b, objects[..i])]
    {
      ghost var left := WithoutListed(b, objects[..i]);
      var deleted := DeleteObject(s3, bucketName, objects[i].objectKey);
      WithoutListedStep(b, objects, i);
      UpdateTwice(old(s3.buckets), bucketName, left, Remove(left, objects[i].objectKey));
      i := i + 1;
    }
    assert objects[..i] == objects;
  }

  /** Listing one more object removes its key from what the shorter listing left. */
  lemma WithoutListedStep(b: Bucket, objects: seq<FileObject>, i: nat)
    requires i < |objects|
    ensures WithoutListed(b, objects[..i + 1]) == Remove(WithoutListed(b, objects[..i]), objects[i].objectKey)
  {
    Seqs.PrefixOfLonger(objects, i);
  }

  /** deleteBucketWithoutObjects: the backend's DeleteBucket, with the success message. */
  method DeleteBucketWithoutObjects(s3: StorageBackend, bucketName: string) returns (r: Result<string>)
    requires s3.Valid()
    modifies s3`buckets
    ensures s3.Valid()
    ensures r.Ok? <==> bucketName in old(s3.buckets) && old(s3.buckets)[bucketName] == []
    ensures r.Ok? ==> r.value == BucketDeletedMessage + bucketName && s3.buckets == old(s3.buckets) - {bucketName}
    ensures r.Err? ==> s3.buckets == old(s3.buckets)
    ensures bucketName in old(s3.buckets) && old(s3.buckets)[bucketName] != [] ==> r == Err(Storage(BucketNotEmpty))
  {
    match ObjectStore.DeleteBucket(s3.buckets, bucketName)
    case Err(e) =>
      r := Err(e);
    case Ok(rest) =>
      s3.buckets := rest;
      r := Ok(BucketDeletedMessage + bucketName);
  }

  /**
   * deleteBucket as written: deletes the keys of one unfiltered listing, then
   * the bucket.  A bucket with more objects than one listing returns keeps
   * the rest and the final DeleteBucket fails.
   */
  method DeleteBucket(s3: StorageBackend, bucketName: string) returns (r: Result<string>)
    requires s3.Valid()
    modifies s3`buckets
    ensures s3.Valid()
    ensures bucketName !in old(s3.buckets) ==> r == Err(Storage(NoSuchBucket)) && s3.buckets == old(s3.buckets)
    ensures bucketName in old(s3.buckets) && |old(s3.buckets)[bucketName]| <= MaxKeys ==>
      r == Ok(BucketDeletedMessage + bucketName) && s3.buckets == old(s3.buckets) - {bucketName}
    ensures bucketName in old(s3.buckets) && |old(s3.buckets)[bucketName]| > MaxKeys ==>
      r == Err(Storage(BucketNotEmpty))
      && s3.buckets == old(s3.buckets)[bucketName := old(s3.buckets)[bucketName][MaxKeys..]]
  {
    var listing := ListObjects(s3.buckets, bucketName, None, None);
    if listing.Err? {
      return Err(listing.error);
    }
    ghost var b := s3.buckets[bucketName];
    DeleteListed(s3, bucketName, listing.value);
    FirstPassLeaves(b);
    ghost var left := if |b| <= MaxKeys then [] else b[MaxKeys..];
    assert s3.buckets == old(s3.buckets)[bucketName := left];
    RemoveUpdated(old(s3.buckets), bucketName, left);
    r := DeleteBucketWithoutObjects(s3, bucketName);
  }

  /**
   * deleteBucket with the listing repeated until it comes back empty: every
   * existing bucket is removed whatever its size.
   */
  method DeleteBucketDrained(s3: StorageBackend, bucketName: string) returns (r: Result<string>)
    requires s3.Valid()
    modifies s3`buckets
    ensures s3.Valid()
    ensures bucketName !in old(s3.buckets) ==> r == Err(Storage(NoSuchBucket)) && s3.buckets == old(s3.buckets)
    ensures bucketName in old(s3.buckets) ==>
      r == Ok(BucketDeletedMessage + bucketName) && s3.buckets == old(s3.buckets) - {bucketName}
  {
    var listing := ListObjects(s3.buckets, bucketName, None, None);
    if listing.Err? {
      return Err(listing.error);
    }
    var objects := listing.value;
    ghost var rest := s3.buckets[bucketName];
    UpdateSame(old(s3.buckets), bucketName);
    while objects != []
      invariant s3.Valid()
      invariant s3.buckets == old(s3.buckets)[bucketName := rest]
      invariant objects == DescribeAll(Page(rest, ""))
      decreases |rest|
    {
      ghost var before := s3.buckets;
      DeleteListed(s3, bucketName, objects);
      FirstPassLeaves(rest);
      UpdateTwice(old(s3.buckets), bucketName, rest, s3.buckets[bucketName]);
      rest := s3.buckets[bucketName];
      listing := ListObjects(s3.buckets, bucketName, None, None);
      objects := listing.value;
    }
    PageOfAll(rest);
    RemoveUpdated(old(s3.buckets), bucketName, rest);
    r := DeleteBucketWithoutObjects(s3, bucketName);
  }

  lemma UpdateSame<K, V>(m: map<K, V>, k: K)
    requires k in m
    ensures m[k := m[k]] == m
  {
  }

  lemma UpdateTwice<K, V>(m: map<K, V>, k: K, a: V, b: V)
    ensures m[k := a][k := b] == m[k := b]
  {
  }

  lemma RemoveUpdated<K, V>(m: map<K, V>, k: K, v: V)
    ensures m[k := v] - {k} == m - {k}
  {
  }

  // ---------------------------------------------------------------------
  // Objects
  // ---------------------------------------------------------------------

  /** uploadObject: stores the form's bytes under its file name with its mimetype. */
  method UploadObject(s3: StorageBackend, bucketName: string, form: FormData) returns (r: Result<string>)
    requires s3.Valid()
    modifies s3`buckets
    ensures s3.Valid()
    ensures r.Ok? <==> bucketName in old(s3.buckets)
    ensures r.Ok? ==> (r.value == ObjectUploadedMessage + form.filename
      && s3.buckets == PutObject(old(s3.buckets), bucketName, StoredObject(form.filename, form.data, form.mimetype)).value)
    ensures r.Err? ==> r.error == Storage(NoSuchBucket) && s3.buckets == old(s3.buckets)
  {
    match PutObject(s3.buckets, bucketName, StoredObject(form.filename, form.data, form.mimetype))
    case Err(e) =>
      r := Err(e);
    case Ok(stored) =>
      s3.buckets := stored;
      r := Ok(ObjectUploadedMessage + form.filename);
  }

  /**
   * File.createTempFile, which createEmptyFolder calls with the folder name
   * as prefix, refuses a prefix of fewer than three characters.
   */
  predicate TempFilePrefixAccepted(prefix: string) {
    |prefix| >= 3
  }

  /**
   * createEmptyFolder as written: an empty object of the directory content
   * type under the folder name, after creating a temporary file named after
   * the folder.  Every failure is rethrown wrapped.
   */
  method CreateEmptyFolder(s3: StorageBackend, bucketName: string, folderName: string) returns (r: Result<string>)
    requires s3.Valid()
    modifies s3`buckets
    ensures s3.Valid()
    ensures r.Ok? <==> TempFilePrefixAccepted(folderName) && bucketName in old(s3.buckets)
    ensures r.Ok? ==> (r.value == FolderCreatedMessage
      && s3.buckets == PutObject(old(s3.buckets), bucketName, StoredObject(folderName, [], Some(DirectoryContentType))).value)
    ensures r.Err? ==> r.error.Wrapped? && s3.buckets == old(s3.buckets)
  {
    if !TempFilePrefixAccepted(folderName) {
      return Err(Wrapped(IllegalArgument));
    }
    var result := UploadObject(s3, bucketName, FormData([], folderName, Some(DirectoryContentType)));
    if result.Err? {
      return Err(Wrapped(result.error));
    }
    if StartsWith(result.value, "Object uploaded successfully") {
      r := Ok(FolderCreatedMessage);
    } else {
      r := Err(Wrapped(Wrapped(IllegalArgument)));
    }
  }

  /** createEmptyFolder without the temporary file: every folder name is accepted. */
  method CreateEmptyFolderDirect(s3: StorageBackend, bucketName: string, folderName: string) returns (r: Result<string>)
    requires s3.Valid()
    modifies s3`buckets
    ensures s3.Valid()
    ensures r.Ok? <==> bucketName in old(s3.buckets)
    ensures r.Ok? ==> (r.value == FolderCreatedMessage
      && s3.buckets == PutObject(old(s3.buckets), bucketName, StoredObject(folderName, [], Some(DirectoryContentType))).value)
    ensures r.Err? ==> r.error.Wrapped? && s3.buckets == old(s3.buckets)
  {
    var result := UploadObject(s3, bucketName, FormData([], folderName, Some(DirectoryContentType)));
    if result.Err? {
      return Err(Wrapped(result.error));
    }
    r := Ok(FolderCreatedMessage);
  }

  /** deleteObject: deleting a missing key succeeds too. */
  method DeleteObject(s3: StorageBackend, bucketName: string, objectKey: string) returns (r: Result<string>)
    requires s3.Valid()
    modifies s3`buckets
    ensures s3.Valid()
    ensures r.Ok? <==> bucketName in old(s3.buckets)
    ensures r.Ok? ==> (r.value == ObjectDeletedMessage + objectKey
      && s3.buckets == old(s3.buckets)[bucketName := Remove(old(s3.buckets)[bucketName], objectKey)])
    ensures r.Err? ==> r.error == Storage(NoSuchBucket) && s3.buckets == old(s3.buckets)
  {
    match ObjectStore.DeleteObject(s3.buckets, bucketName, objectKey)
    case Err(e) =>
      r := Err(e);
    case Ok(rest) =>
      s3.buckets := rest;
      r := Ok(ObjectDeletedMessage + objectKey);
  }

  /** Reads the object's bytes through a buffer of BufferSize bytes, as both download loops do. */
  method CopyStream(content: seq<byte>) returns (out: seq<byte>)
    ensures out == content
  {
    out := [];
    var pos := 0;
    while pos < |content|
      invariant 0 <= pos <= |content|
      invariant out == content[..pos]
    {
      var n := if |content| - pos < BufferSize then |content| - pos else BufferSize;
      out := out + content[pos..pos + n];
      pos := pos + n;
    }
  }

  /** downloadObject: the object's bytes, or the backend's failure. */
  method DownloadObject(s3: StorageBackend, bucketName: string, objectKey: string) returns (r: Result<seq<byte>>)
    ensures r.Ok? <==> GetObject(s3.buckets, bucketName, objectKey).Ok?
    ensures r.Ok? ==> r.value == GetObject(s3.buckets, bucketName, objectKey).value.content
    ensures r.Err? ==> r.error == GetObject(s3.buckets, bucketName, objectKey).error
  {
    match GetObject(s3.buckets, bucketName, objectKey)
    case Err(e) =>
      r := Err(e);
    case Ok(o) =>
      var bytes := CopyStream(o.content);
      r := Ok(bytes);
  }

  /**
   * downloadObjectAsStream: the object is fetched when the stream is made, so
   * a missing object fails here; writing the stream produces its bytes.
   */
  method DownloadObjectAsStream(s3: StorageBackend, bucketName: string, objectKey: string) returns (r: Result<seq<byte>>)
    ensures r.Ok? <==> GetObject(s3.buckets, bucketName, objectKey).Ok?
    ensures r.Ok? ==> r.value == GetObject(s3.buckets, bucketName, objectKey).value.content
    ensures r.Err? ==> r.error == GetObject(s3.buckets, bucketName, objectKey).error
  {
    var fetched := GetObject(s3.buckets, bucketName, objectKey);
    if fetched.Err? {
      return Err(fetched.error);
    }
    var written := CopyStream(fetched.value.content);
    r := Ok(written);
  }

  /**
   * doesObjectExist as written.  The injected client is synchronous, so a
   * missing key surfaces as the NoSuchKey failure itself; the handler only
   * catches CompletionException, so the answer is never false.
   */
  function DoesObjectExist(buckets: map<string, Bucket>, bucketName: string, objectKey: string): (r: Result<bool>)
    ensures r.Ok? <==> GetObject(buckets, bucketName, objectKey).Ok?
    ensures r != Ok(false)
    ensures bucketName in buckets && Lookup(buckets[bucketName], objectKey).None? ==> r == Err(Storage(NoSuchKey))
  {
    match GetObject(buckets, bucketName, objectKey)
    case Ok(_) => Ok(true)
    case Err(e) => Err(e)
  }

  /** doesObjectExist as intended: a missing key is false; any other failure is rethrown wrapped. */
  function ObjectExists(buckets: map<string, Bucket>, bucketName: string, objectKey: string): (r: Result<bool>)
    ensures bucketName in buckets ==> r == Ok(Lookup(buckets[bucketName], objectKey).Some?)
    ensures bucketName !in buckets ==> r == Err(Wrapped(Storage(NoSuchBucket)))
  {
    match GetObject(buckets, bucketName, objectKey)
    case Ok(_) => Ok(true)
    case Err(e) => if e == Storage(NoSuchKey) then Ok(false) else Err(Wrapped(e))
  }

  // ---------------------------------------------------------------------
  // Renaming
  // ---------------------------------------------------------------------

  /** renameFile on one bucket: a copy under the new key, then the old key deleted. */
  function MoveKey(b: Bucket, source: string, target: string): Bucket
    requires Lookup(b, source).Some?
  {
    Remove(Put(b, Lookup(b, source).value.(key := target)), source)
  }

  /** After a move the target holds the source's object, the source nothing, every other key what it held. */
  lemma LookupMoveKey(b: Bucket, source: string, target: string)
    requires Sorted(b) && Lookup(b, source).Some? && source != target
    ensures Sorted(MoveKey(b, source, target))
    ensures Lookup(MoveKey(b, source, target), target) == Some(Lookup(b, source).value.(key := target))
    ensures Lookup(MoveKey(b, source, target), source) == None
    ensures forall k :: k != source && k != target ==> Lookup(MoveKey(b, source, target), k) == Lookup(b, k)
  {
    var o := Lookup(b, source).value.(key := target);
    LookupPutAll(b, o);
    LookupRemoveAll(Put(b, o), source);
  }

  method RenameFile(s3: StorageBackend, bucketName: string, objectKey: string, newObjectKey: string) returns (r: Result<()>)
    requires s3.Valid()
    modifies s3`buckets
    ensures s3.Valid()
    ensures r.Ok? <==> GetObject(old(s3.buckets), bucketName, objectKey).Ok? && objectKey != newObjectKey
    ensures r.Ok? ==> s3.buckets == old(s3.buckets)[bucketName := MoveKey(old(s3.buckets)[bucketName], objectKey, newObjectKey)]
    ensures GetObject(old(s3.buckets), bucketName, objectKey).Ok? && objectKey == newObjectKey ==>
      r == Err(Wrapped(Storage(InvalidRequest)))
    ensures r.Err? ==> r.error.Wrapped? && s3.buckets == old(s3.buckets)
  {
    match CopyObject(s3.buckets, bucketName, objectKey, newObjectKey)
    case Err(e) =>
      r := Err(Wrapped(e));
    case Ok(copied) =>
      ghost var b := s3.buckets[bucketName];
      ghost var o := Lookup(b, objectKey).value.(key := newObjectKey);
      assert copied == s3.buckets[bucketName := Put(b, o)];
      s3.buckets := copied;
      var deleted := DeleteObject(s3, bucketName, objectKey);
      UpdateTwice(old(s3.buckets), bucketName, Put(b, o), MoveKey(b, objectKey, newObjectKey));
      r := Ok(());
  }

  /** The folder test of renameObject. */
  predicate IsFolder(contentType: Option<string>, objectKey: string) {
    contentType == Some(DirectoryContentType) || EndsWith(objectKey, "/")
  }

  /** The keys of some stored objects, in the same order. */
  function BucketKeys(objects: Bucket): (r: seq<string>)
    ensures |r| == |objects|
    ensures forall i :: 0 <= i < |objects| ==> r[i] == objects[i].key
  {
    seq(|objects|, i requires 0 <= i < |objects| => objects[i].key)
  }

  /** The key a folder member moves to: the folder's key replaced by the new one. */
  function MemberTarget(oldKey: string, objectKey: string, newObjectKey: string): string {
    ReplaceFirst(oldKey, objectKey, newObjectKey)
  }

  /** renameFile for each listed member key, one after the other. */
  function MoveAll(b: Bucket, keys: seq<string>, objectKey: string, newObjectKey: string): Bucket
    decreases |keys|
  {
    if keys == [] then b
    else
      var before := MoveAll(b, keys[..|keys| - 1], objectKey, newObjectKey);
      var k := keys[|keys| - 1];
      var target := MemberTarget(k, objectKey, newObjectKey);
      if Lookup(before, k).Some? && k != target then MoveKey(before, k, target) else before
  }

  /**
   * The bucket after renameObject succeeds: the object itself moved, and for
   * a folder every key one listing under its old key returns moved as well.
   */
  function Renamed(b: Bucket, objectKey: string, newObjectKey: string): Bucket
    requires Lookup(b, objectKey).Some?
  {
    var moved := MoveKey(b, objectKey, newObjectKey);
    if IsFolder(Lookup(b, objectKey).value.contentType, objectKey) then
      MoveAll(moved, BucketKeys(Page(moved, objectKey)), objectKey, newObjectKey)
    else moved
  }

  /** A grant of the renamed file follows it to its new name. */
  function Retarget(f: FileSharing, userId: int, objectKey: string, newObjectKey: string): (g: FileSharing)
    ensures g.id == f.id && g.sharedByUserId == f.sharedByUserId && g.sharedToUserId == f.sharedToUserId
  {
    if f.sharedByUserId == userId && f.filename == objectKey then f.(filename := newObjectKey) else f
  }

  /** The grants after renameObject: exactly the owner's grants of the old name now name the new one. */
  function Retargeted(grants: seq<FileSharing>, userId: int, objectKey: string, newObjectKey: string): (r: seq<FileSharing>)
    ensures |r| == |grants|
    ensures forall i :: 0 <= i < |grants| ==> r[i] == Retarget(grants[i], userId, objectKey, newObjectKey)
  {
    seq(|grants|, i requires 0 <= i < |grants| => Retarget(grants[i], userId, objectKey, newObjectKey))
  }

  /** The grant update of renameObject: each of the owner's grants of the old name is renamed in place. */
  method RetargetGrants(db: Persistence.Database, userId: int, objectKey: string, newObjectKey: string)
    requires db.Valid()
    modifies db`grants
    ensures db.Valid()
    ensures db.grants == Retargeted(old(db.grants), userId, objectKey, newObjectKey)
  {
    var i := 0;
    while i < |db.grants|
      invariant 0 <= i <= |db.grants| == |old(db.grants)|
      invariant forall k :: 0 <= k < i ==> db.grants[k] == Retarget(old(db.grants)[k], userId, objectKey, newObjectKey)
      invariant forall k :: i <= k < |db.grants| ==> db.grants[k] == old(db.grants)[k]
      invariant db.Valid()
    {
      var f := db.grants[i];
      if f.sharedByUserId == userId && f.filename == objectKey {
        db.SetGrant(i, f.(filename := newObjectKey));
      }
      i := i + 1;
    }
  }

  /** Only equal prefixes of one suffix give equal strings. */
  lemma SameSuffix(p: string, q: string, t: string)
    requires p + t == q + t
    ensures p == q
  {
    assert |p| == |q|;
    assert p == (p + t)[..|p|];
    assert q == (q + t)[..|q|];
  }

  /**
   * renameObject: moves the object and, for a folder, the keys one listing
   * under its key returns; then points the owner's grants at the new name.
   * When the object exists and the name changes, it succeeds; renaming an
   * object to its own key is refused by the copy, and a refusal changes
   * nothing.
   */
  method RenameObject(db: Persistence.Database, s3: StorageBackend, userId: int, bucketName: string,
                      objectKey: string, newObjectKey: string)
    returns (r: Result<string>)
    requires db.Valid() && s3.Valid()
    modifies db`grants, s3`buckets
    ensures db.Valid() && s3.Valid()
    ensures GetObject(old(s3.buckets), bucketName, objectKey).Err? ==>
      r == Err(Wrapped(GetObject(old(s3.buckets), bucketName, objectKey).error)) && s3.buckets == old(s3.buckets)
    ensures GetObject(old(s3.buckets), bucketName, objectKey).Ok? && objectKey != newObjectKey ==> r.Ok?
    ensures GetObject(old(s3.buckets), bucketName, objectKey).Ok? && objectKey == newObjectKey ==>
      r == Err(Wrapped(Storage(InvalidRequest)))
    ensures r.Ok? ==> (r.value == ObjectRenamedMessage
      && GetObject(old(s3.buckets), bucketName, objectKey).Ok?
      && s3.buckets == old(s3.buckets)[bucketName := Renamed(old(s3.buckets)[bucketName], objectKey, newObjectKey)]
      && db.grants == Retargeted(old(db.grants), userId, objectKey, newObjectKey))
    ensures r.Err? ==> db.grants == old(db.grants) && s3.buckets == old(s3.buckets)
  {
    var head := GetObject(s3.buckets, bucketName, objectKey);
    if head.Err? {
      return Err(Wrapped(head.error));
    }
    var contentType := head.value.contentType;
    var renamed := RenameFile(s3, bucketName, objectKey, newObjectKey);
    if renamed.Err? {
      return Err(renamed.error);
    }
    ghost var moved := s3.buckets[bucketName];
    LookupMoveKey(old(s3.buckets)[bucketName], objectKey, newObjectKey);
    if IsFolder(contentType, objectKey) {
      var listing := ObjectStore.ListObjects(s3.buckets, bucketName, Some(objectKey), None);
      FolderListing(moved, objectKey);
      MoveMembers(s3, bucketName, BucketKeys(listing.value), objectKey, newObjectKey);
      UpdateTwice(old(s3.buckets), bucketName, moved, s3.buckets[bucketName]);
    }
    RetargetGrants(db, userId, objectKey, newObjectKey);
    r := Ok(ObjectRenamedMessage);
  }

  /**
   * The loop of renameObject over a folder's listed keys: each is renamed to
   * its target key in turn, and each rename succeeds.
   */
  method MoveMembers(s3: StorageBackend, bucketName: string, keys: seq<string>, objectKey: string, newObjectKey: string)
    requires s3.Valid() && bucketName in s3.buckets && objectKey != newObjectKey
    requires forall i :: 0 <= i < |keys| ==>
      StartsWith(keys[i], objectKey) && Lookup(s3.buckets[bucketName], keys[i]).Some?
    requires forall i, j :: 0 <= i < j < |keys| ==> keys[i] != keys[j]
    modifies s3`buckets
    ensures s3.Valid()
    ensures s3.buckets == old(s3.buckets)[bucketName := MoveAll(old(s3.buckets)[bucketName], keys, objectKey, newObjectKey)]
  {
    ghost var b := s3.buckets[bucketName];
    ghost var current := b;
    UpdateSame(old(s3.buckets), bucketName);
    var j := 0;
    while j < |keys|
      invariant 0 <= j <= |keys|
      invariant s3.Valid()
      invariant current == MoveAll(b, keys[..j], objectKey, newObjectKey)
      invariant s3.buckets == old(s3.buckets)[bucketName := current]
      invariant forall m :: j <= m < |keys| ==> Lookup(current, keys[m]).Some?
    {
      var target := MemberTarget(keys[j], objectKey, newObjectKey);
      assert Sorted(current) by { assert current == s3.buckets[bucketName]; }
      MoveMemberStep(b, current, keys, j, objectKey, newObjectKey);
      var step := RenameFile(s3, bucketName, keys[j], target);
      UpdateTwice(old(s3.buckets), bucketName, current, s3.buckets[bucketName]);
      current := s3.buckets[bucketName];
      j := j + 1;
    }
    assert keys[..j] == keys;
  }

  /** One turn of the member loop: the next key moves, and the keys after it are still there. */
  lemma MoveMemberStep(b: Bucket, current: Bucket, keys: seq<string>, j: nat, objectKey: string, newObjectKey: string)
    requires Sorted(current) && j < |keys| && objectKey != newObjectKey
    requires current == MoveAll(b, keys[..j], objectKey, newObjectKey)
    requires StartsWith(keys[j], objectKey)
    requires forall m :: j <= m < |keys| ==> Lookup(current, keys[m]).Some?
    requires forall i, k :: 0 <= i < k < |keys| ==> keys[i] != keys[k]
    ensures Lookup(current, keys[j]).Some? && MemberTarget(keys[j], objectKey, newObjectKey) != keys[j]
    ensures MoveKey(current, keys[j], MemberTarget(keys[j], objectKey, newObjectKey))
            == MoveAll(b, keys[..j + 1], objectKey, newObjectKey)
    ensures forall m :: j < m < |keys| ==>
      Lookup(MoveKey(current, keys[j], MemberTarget(keys[j], objectKey, newObjectKey)), keys[m]).Some?
  {
    var target := MemberTarget(keys[j], objectKey, newObjectKey);
    MemberTargetDiffers(keys[j], objectKey, newObjectKey);
    LookupMoveKey(current, keys[j], target);
    MoveAllStep(b, current, keys, j, objectKey, newObjectKey);
  }

  /** Moving the next listed key, when it is present and changes, extends MoveAll by that key. */
  lemma MoveAllStep(b: Bucket, current: Bucket, keys: seq<string>, j: nat, objectKey: string, newObjectKey: string)
    requires j < |keys| && current == MoveAll(b, keys[..j], objectKey, newObjectKey)
    requires Lookup(current, keys[j]).Some? && MemberTarget(keys[j], objectKey, newObjectKey) != keys[j]
    ensures MoveKey(current, keys[j], MemberTarget(keys[j], objectKey, newObjectKey))
            == MoveAll(b, keys[..j + 1], objectKey, newObjectKey)
  {
    Seqs.PrefixOfLonger(keys, j);
  }

  /** The keys one listing under a folder key returns: each present, each under the folder, no two alike. */
  lemma FolderListing(b: Bucket, objectKey: string)
    requires Sorted(b)
    ensures forall i :: 0 <= i < |BucketKeys(Page(b, objectKey))| ==>
      StartsWith(BucketKeys(Page(b, objectKey))[i], objectKey) && Lookup(b, BucketKeys(Page(b, objectKey))[i]).Some?
    ensures forall i, j :: 0 <= i < j < |BucketKeys(Page(b, objectKey))| ==>
      BucketKeys(Page(b, objectKey))[i] != BucketKeys(Page(b, objectKey))[j]
  {
    var page := Page(b, objectKey);
    forall i | 0 <= i < |page| ensures StartsWith(page[i].key, objectKey) && Lookup(b, page[i].key).Some? {
      assert page[i] in page;
      LookupSorted(b, page[i]);
    }
    forall i, j | 0 <= i < j < |page| ensures page[i].key != page[j].key {
      BelowIrreflexive(page[i].key);
    }
  }

  /** A member key moves to a different key whenever the folder's name changes. */
  lemma MemberTargetDiffers(k: string, objectKey: string, newObjectKey: string)
    requires StartsWith(k, objectKey) && objectKey != newObjectKey
    ensures MemberTarget(k, objectKey, newObjectKey) == newObjectKey + k[|objectKey|..]
    ensures MemberTarget(k, objectKey, newObjectKey) != k
  {
    ReplaceFirstAtStart(k, objectKey, newObjectKey);
    assert k == objectKey + k[|objectKey|..];
    if newObjectKey + k[|objectKey|..] == k {
      SameSuffix(newObjectKey, objectKey, k[|objectKey|..]);
    }
  }

  // ---------------------------------------------------------------------
  // Multipart uploads
  // ---------------------------------------------------------------------

  method StartMultipartUpload(s3: StorageBackend, bucketName: string, filename: string) returns (r: Result<string>)
    requires s3.Valid()
    modifies s3`uploads, s3`nextUploadId
    ensures s3.Valid()
    ensures r.Ok? <==> bucketName in s3.buckets
    ensures r.Ok? ==> (r.value !in old(s3.uploads)
      && s3.uploads == old(s3.uploads)[r.value := Upload(bucketName, filename, map[])])
    ensures r.Err? ==> r.error == Wrapped(Storage(NoSuchBucket)) && s3.uploads == old(s3.uploads)
  {
    var id := Decimal(s3.nextUploadId);
    ParseLongOfDecimal(s3.nextUploadId);
    match Create(s3.buckets, s3.uploads, id, bucketName, filename)
    case Err(e) =>
      r := Err(Wrapped(e));
    case Ok(started) =>
      s3.uploads := started;
      s3.nextUploadId := s3.nextUploadId + 1;
      r := Ok(id);
  }

  /** uploadPart: stores the part and returns the eTag the backend computed for it. */
  method UploadPart(s3: StorageBackend, bucketName: string, data: seq<byte>, filename: string, uploadId: string,
                    partNumber: int, eTag: string)
    returns (r: Result<string>)
    requires s3.Valid()
    modifies s3`uploads
    ensures s3.Valid()
    ensures r.Ok? <==> Multipart.UploadPart(old(s3.uploads), bucketName, filename, uploadId, partNumber, data, eTag).Ok?
    ensures r.Ok? ==> (r.value == eTag
      && s3.uploads == Multipart.UploadPart(old(s3.uploads), bucketName, filename, uploadId, partNumber, data, eTag).value)
    ensures r.Err? ==> r.error.Wrapped? && s3.uploads == old(s3.uploads)
  {
    match Multipart.UploadPart(s3.uploads, bucketName, filename, uploadId, partNumber, data, eTag)
    case Err(e) =>
      r := Err(Wrapped(e));
    case Ok(updated) =>
      s3.uploads := updated;
      r := Ok(eTag);
  }

  method AbortMultipartUpload(s3: StorageBackend, bucketName: string, filename: string, uploadId: string)
    returns (r: Result<()>)
    requires s3.Valid()
    modifies s3`uploads
    ensures s3.Valid()
    ensures r.Ok? <==> Find(old(s3.uploads), bucketName, filename, uploadId).Ok?
    ensures r.Ok? ==> s3.uploads == old(s3.uploads) - {uploadId}
    ensures r.Err? ==> r.error == Wrapped(Storage(NoSuchUpload)) && s3.uploads == old(s3.uploads)
  {
    match Abort(s3.uploads, bucketName, filename, uploadId)
    case Err(e) =>
      r := Err(Wrapped(e));
    case Ok(rest) =>
      s3.uploads := rest;
      r := Ok(());
  }

  /** The completion manifest completeMultipartUpload builds from a ListParts answer. */
  function Manifest(parts: seq<Part>): (m: seq<CompletedPart>)
    ensures |m| == |parts|
    ensures forall i :: 0 <= i < |parts| ==> m[i] == CompletedPart(parts[i].partNumber, parts[i].eTag)
  {
    seq(|parts|, i requires 0 <= i < |parts| => CompletedPart(parts[i].partNumber, parts[i].eTag))
  }

  /** The bytes of some parts, one after the other. */
  function Concat(parts: seq<Part>): seq<byte> {
    if parts == [] then [] else parts[0].data + Concat(parts[1..])
  }

  /** Every listed part but the last holds at least the minimum part size. */
  predicate ListedLargeEnough(listed: seq<Part>) {
    forall i :: 0 <= i < |listed| - 1 ==> |listed[i].data| >= MinPartSize
  }

  /**
   * A manifest built from a listing of an upload's parts is in order and
   * names uploaded parts, passes the size check exactly when the listed
   * parts do, and assembles the listed parts in listing order.
   */
  lemma {:induction false} ManifestAccepted(parts: map<int, Part>, listed: seq<Part>)
    requires forall i :: 0 <= i < |listed| ==>
      listed[i].partNumber in parts && parts[listed[i].partNumber] == listed[i]
    requires forall i, j :: 0 <= i < j < |listed| ==> listed[i].partNumber < listed[j].partNumber
    ensures Ascending(Manifest(listed)) && NamesUploaded(parts, Manifest(listed))
    ensures LargeEnough(parts, Manifest(listed)) <==> ListedLargeEnough(listed)
    ensures Assemble(parts, Manifest(listed)) == Concat(listed)
  {
    if listed != [] {
      ManifestAccepted(parts, listed[1..]);
      assert Manifest(listed)[1..] == Manifest(listed[1..]);
    }
  }

  /**
   * completeMultipartUpload: lists the upload's parts, then completes it with
   * a manifest naming exactly those parts, in that order.
   */
  method CompleteMultipartUpload(s3: StorageBackend, bucketName: string, filename: string, uploadId: string)
    returns (r: Result<()>)
    requires s3.Valid()
    modifies s3`buckets, s3`uploads
    ensures s3.Valid()
    ensures r.Ok? <==> Find(old(s3.uploads), bucketName, filename, uploadId).Ok?
                       && old(s3.uploads)[uploadId].parts != map[] && bucketName in old(s3.buckets)
                       && ListedLargeEnough(ListParts(old(s3.uploads), bucketName, filename, uploadId).value)
    ensures r.Ok? ==> s3.uploads == old(s3.uploads) - {uploadId}
    ensures r.Ok? ==> bucketName in s3.buckets && Lookup(s3.buckets[bucketName], filename)
                      == Some(StoredObject(filename, Concat(ListParts(old(s3.uploads), bucketName, filename, uploadId).value), None))
    ensures r.Ok? && |old(s3.uploads)[uploadId].parts| <= MaxParts ==>
      forall n :: n in old(s3.uploads)[uploadId].parts ==>
        old(s3.uploads)[uploadId].parts[n] in ListParts(old(s3.uploads), bucketName, filename, uploadId).value
    ensures r.Err? ==> r.error.Wrapped? && s3.uploads == old(s3.uploads) && s3.buckets == old(s3.buckets)
  {
    var listing := ListParts(s3.uploads, bucketName, filename, uploadId);
    if listing.Err? {
      return Err(Wrapped(listing.error));
    }
    var c := Complete(s3.buckets, s3.uploads, bucketName, filename, uploadId, Manifest(listing.value));
    assert c.Ok? <==> s3.uploads[uploadId].parts != map[] && bucketName in s3.buckets && ListedLargeEnough(listing.value)
      by { CompleteListed(s3.buckets, s3.uploads, bucketName, filename, uploadId); }
    if c.Err? {
      return Err(Wrapped(c.error));
    }
    assert bucketName in c.value.0
           && Lookup(c.value.0[bucketName], filename) == Some(StoredObject(filename, Concat(listing.value), None))
      by { CompleteListed(s3.buckets, s3.uploads, bucketName, filename, uploadId); }
    s3.buckets := c.value.0;
    s3.uploads := c.value.1;
    r := Ok(());
  }

  /**
   * Completing an upload with the manifest of its own listing succeeds
   * exactly when the upload has a part, its bucket exists and every listed
   * part but the last holds at least 5 MiB, and stores the listed parts'
   * bytes in listing order under the upload's key.
   */
  lemma CompleteListed(buckets: map<string, Bucket>, uploads: Uploads, bucket: string, key: string, id: string)
    requires WellFormed(buckets) && UploadsKeyed(uploads) && Find(uploads, bucket, key, id).Ok?
    ensures Complete(buckets, uploads, bucket, key, id, Manifest(ListParts(uploads, bucket, key, id).value)).Ok?
            <==> uploads[id].parts != map[] && bucket in buckets && ListedLargeEnough(ListParts(uploads, bucket, key, id).value)
    ensures
      var c := Complete(buckets, uploads, bucket, key, id, Manifest(ListParts(uploads, bucket, key, id).value));
      c.Ok? ==> (c.value.1 == uploads - {id} && WellFormed(c.value.0) && bucket in c.value.0
                 && Lookup(c.value.0[bucket], key)
                    == Some(StoredObject(key, Concat(ListParts(uploads, bucket, key, id).value), None)))
  {
    var listed := ListParts(uploads, bucket, key, id).value;
    ManifestAccepted(uploads[id].parts, listed);
    ListedNonEmpty(uploads[id].parts);
  }

  /**
   * Parts uploaded out of order (2, then 1, then 3) are listed, and so
   * assembled, in part-number order; the first two are large enough.
   */
  lemma OutOfOrderParts(buckets: map<string, Bucket>, bucket: string, key: string, id: string,
                        d1: seq<byte>, d2: seq<byte>, d3: seq<byte>, e1: string, e2: string, e3: string)
    requires WellFormed(buckets) && bucket in buckets
    requires |d1| >= MinPartSize && |d2| >= MinPartSize
    ensures
      var u0 := Create(buckets, map[], id, bucket, key).value;
      var u1 := Multipart.UploadPart(u0, bucket, key, id, 2, d2, e2).value;
      var u2 := Multipart.UploadPart(u1, bucket, key, id, 1, d1, e1).value;
      var u3 := Multipart.UploadPart(u2, bucket, key, id, 3, d3, e3).value;
      var c := Complete(buckets, u3, bucket, key, id, Manifest(ListParts(u3, bucket, key, id).value));
      c.Ok? && bucket in c.value.0 && Lookup(c.value.0[bucket], key) == Some(StoredObject(key, d1 + d2 + d3, None))
  {
    var u0 := Create(buckets, map[], id, bucket, key).value;
    var u1 := Multipart.UploadPart(u0, bucket, key, id, 2, d2, e2).value;
    var u2 := Multipart.UploadPart(u1, bucket, key, id, 1, d1, e1).value;
    var u3 := Multipart.UploadPart(u2, bucket, key, id, 3, d3, e3).value;
    var parts := u3[id].parts;
    assert parts == map[2 := Part(2, d2, e2), 1 := Part(1, d1, e1), 3 := Part(3, d3, e3)];
    ThreePartsListed(parts, d1, d2, d3, e1, e2, e3);
    ThreeLargeEnough(Part(1, d1, e1), Part(2, d2, e2), Part(3, d3, e3));
    CompleteListed(buckets, u3, bucket, key, id);
  }

  lemma ThreeLargeEnough(p1: Part, p2: Part, p3: Part)
    requires |p1.data| >= MinPartSize && |p2.data| >= MinPartSize
    ensures ListedLargeEnough([p1, p2, p3])
  {
  }

  lemma ThreePartsListed(parts: map<int, Part>, d1: seq<byte>, d2: seq<byte>, d3: seq<byte>, e1: string, e2: string, e3: string)
    requires parts == map[2 := Part(2, d2, e2), 1 := Part(1, d1, e1), 3 := Part(3, d3, e3)]
    ensures PartsKeyed(parts)
    ensures PartsFrom(parts, 1) == [Part(1, d1, e1), Part(2, d2, e2), Part(3, d3, e3)]
    ensures Take(PartsFrom(parts, 1), MaxParts) == PartsFrom(parts, 1)
    ensures Concat(PartsFrom(parts, 1)) == d1 + d2 + d3
  {
    var p1, p2, p3 := Part(1, d1, e1), Part(2, d2, e2), Part(3, d3, e3);
    ThreeKeyed(parts, p1, p2, p3);
    ThreeListed(parts, p1, p2, p3);
    ConcatThree(p1, p2, p3);
  }

  lemma ThreeKeyed(parts: map<int, Part>, p1: Part, p2: Part, p3: Part)
    requires p1.partNumber == 1 && p2.partNumber == 2 && p3.partNumber == 3
    requires parts == map[2 := p2, 1 := p1, 3 := p3]
    ensures PartsKeyed(parts)
    ensures 1 in parts && 2 in parts && 3 in parts && parts[1] == p1 && parts[2] == p2 && parts[3] == p3
    ensures forall k :: k in parts ==> k <= 3
  {
  }

  lemma ThreeListed(parts: map<int, Part>, p1: Part, p2: Part, p3: Part)
    requires PartsKeyed(parts)
    requires 1 in parts && 2 in parts && 3 in parts && parts[1] == p1 && parts[2] == p2 && parts[3] == p3
    requires forall k :: k in parts ==> k <= 3
    ensures PartsFrom(parts, 1) == [p1, p2, p3]
  {
    LastTwoListed(parts, p2, p3);
    ListedStep(parts, 1, [p2, p3]);
    PrependLiteral(p1, p2, p3);
  }

  lemma PrependLiteral(p1: Part, p2: Part, p3: Part)
    ensures [p1] + [p2, p3] == [p1, p2, p3]
    ensures [p2] + [p3] == [p2, p3]
    ensures [p3] + [] == [p3]
  {
  }

  lemma LastTwoListed(parts: map<int, Part>, p2: Part, p3: Part)
    requires PartsKeyed(parts) && 2 in parts && 3 in parts && parts[2] == p2 && parts[3] == p3
    requires forall k :: k in parts ==> k <= 3
    ensures PartsFrom(parts, 2) == [p2, p3]
  {
    LastListed(parts, p3);
    ListedStep(parts, 2, [p3]);
    PrependLiteral(p2, p2, p3);
  }

  lemma LastListed(parts: map<int, Part>, p3: Part)
    requires PartsKeyed(parts) && 3 in parts && parts[3] == p3
    requires forall k :: k in parts ==> k <= 3
    ensures PartsFrom(parts, 3) == [p3]
  {
    PartsFromBeyond(parts, 4);
    ListedStep(parts, 3, []);
    PrependLiteral(p3, p3, p3);
  }

  /** The listing from n is part n in front of the listing from n + 1. */
  lemma ListedStep(parts: map<int, Part>, n: int, tail: seq<Part>)
    requires PartsKeyed(parts) && 1 <= n <= MaxPartNumber && n in parts
    requires PartsFrom(parts, n + 1) == tail
    ensures PartsFrom(parts, n) == [parts[n]] + tail
  {
    PartsFromPresent(parts, n);
  }

  lemma PartsFromPresent(parts: map<int, Part>, n: int)
    requires PartsKeyed(parts) && 1 <= n <= MaxPartNumber && n in parts
    ensures PartsFrom(parts, n) == [parts[n]] + PartsFrom(parts, n + 1)
  {
  }

  lemma ConcatThree(p1: Part, p2: Part, p3: Part)
    ensures Concat([p1, p2, p3]) == p1.data + p2.data + p3.data
  {
    assert [p1, p2, p3][1..] == [p2, p3];
    assert [p2, p3][1..] == [p3];
    assert Concat([p3]) == p3.data;
  }

  /** An upload with a part lists at least one part. */
  lemma ListedNonEmpty(parts: map<int, Part>)
    requires PartsKeyed(parts)
    ensures parts != map[] <==> Take(PartsFrom(parts, 1), MaxParts) != []
  {
    if Take(PartsFrom(parts, 1), MaxParts) == [] {
      assert PartsFrom(parts, 1) == [];
      assert forall k :: k !in parts;
      assert parts == map[];
    } else {
      assert PartsFrom(parts, 1)[0].partNumber in parts;
    }
  }
}
