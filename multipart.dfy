/**
 * Multipart uploads as the object store keeps them: an upload collects
 * numbered parts in any order; completing it with a manifest assembles the
 * named parts, in the manifest's order, into one object.
 */
module Multipart {
  import opened Wrappers
  import opened Failures
  import opened Entities
  import opened ObjectStore

  /** Part numbers run from 1 to this bound. */
  const MaxPartNumber: int := 10000

  /** ListParts returns at most this many parts per call. */
  const MaxParts: nat := 1000

  datatype Part = Part(partNumber: int, data: seq<byte>, eTag: string)

  datatype Upload = Upload(bucket: string, key: string, parts: map<int, Part>)

  /** An entry of a completion manifest. */
  datatype CompletedPart = CompletedPart(partNumber: int, eTag: string)

  type Uploads = map<string, Upload>

  /** Every part is stored under its own, valid part number. */
  predicate PartsKeyed(parts: map<int, Part>) {
    forall n :: n in parts ==> 1 <= n <= MaxPartNumber && parts[n].partNumber == n
  }

  predicate UploadsKeyed(uploads: Uploads) {
    forall id :: id in uploads ==> PartsKeyed(uploads[id].parts)
  }

  /** CreateMultipartUpload: a new upload with no parts, under the store-chosen id. */
  function Create(buckets: map<string, Bucket>, uploads: Uploads, id: string, bucket: string, key: string)
    : (r: Result<Uploads>)
    ensures bucket !in buckets <==> r == Err(Storage(NoSuchBucket))
    ensures r.Ok? ==> r.value == uploads[id := Upload(bucket, key, map[])]
    ensures UploadsKeyed(uploads) && r.Ok? ==> UploadsKeyed(r.value)
  {
    if bucket !in buckets then Err(Storage(NoSuchBucket))
    else Ok(uploads[id := Upload(bucket, key, map[])])
  }

  /** The upload with that id, when it belongs to that bucket and key. */
  function Find(uploads: Uploads, bucket: string, key: string, id: string): (r: Result<Upload>)
    ensures r.Ok? <==> id in uploads && uploads[id].bucket == bucket && uploads[id].key == key
    ensures r.Ok? ==> r.value == uploads[id]
    ensures r.Err? ==> r.error == Storage(NoSuchUpload)
  {
    if id in uploads && uploads[id].bucket == bucket && uploads[id].key == key then Ok(uploads[id])
    else Err(Storage(NoSuchUpload))
  }

  /** UploadPart: stores (or replaces) part `n` of the upload. */
  function UploadPart(uploads: Uploads, bucket: string, key: string, id: string, n: int, data: seq<byte>, eTag: string)
    : (r: Result<Uploads>)
    ensures Find(uploads, bucket, key, id).Err? ==> r == Err(Storage(NoSuchUpload))
    ensures Find(uploads, bucket, key, id).Ok? && !(1 <= n <= MaxPartNumber) ==> r == Err(Storage(InvalidArgument))
    ensures r.Ok? <==> Find(uploads, bucket, key, id).Ok? && 1 <= n <= MaxPartNumber
    ensures r.Ok? ==> r.value.Keys == uploads.Keys
    ensures r.Ok? ==> r.value[id].parts == uploads[id].parts[n := Part(n, data, eTag)]
    ensures r.Ok? ==> forall other :: other in uploads && other != id ==> r.value[other] == uploads[other]
    ensures UploadsKeyed(uploads) && r.Ok? ==> UploadsKeyed(r.value)
  {
    match Find(uploads, bucket, key, id)
    case Err(e) => Err(e)
    case Ok(u) =>
      if !(1 <= n <= MaxPartNumber) then Err(Storage(InvalidArgument))
      else Ok(uploads[id := u.(parts := u.parts[n := Part(n, data, eTag)])])
  }

  /** The parts numbered `n` and above, in ascending part number. */
  function PartsFrom(parts: map<int, Part>, n: int): (r: seq<Part>)
    requires PartsKeyed(parts) && 1 <= n <= MaxPartNumber + 1
    ensures forall i :: 0 <= i < |r| ==>
      n <= r[i].partNumber && r[i].partNumber in parts && parts[r[i].partNumber] == r[i]
    ensures forall i, j :: 0 <= i < j < |r| ==> r[i].partNumber < r[j].partNumber
    ensures forall k :: k in parts && n <= k ==> parts[k] in r
    decreases MaxPartNumber + 1 - n
  {
    if n > MaxPartNumber then []
    else
      var rest := PartsFrom(parts, n + 1);
      if n in parts then
        PrependPart(parts, n, rest);
        [parts[n]] + rest
      else rest
  }

  /** Putting part n in front of a listing of the parts above n keeps it a listing from n. */
  lemma PrependPart(parts: map<int, Part>, n: int, rest: seq<Part>)
    requires PartsKeyed(parts) && n in parts
    requires forall i :: 0 <= i < |rest| ==>
      n + 1 <= rest[i].partNumber && rest[i].partNumber in parts && parts[rest[i].partNumber] == rest[i]
    requires forall i, j :: 0 <= i < j < |rest| ==> rest[i].partNumber < rest[j].partNumber
    requires forall k :: k in parts && n + 1 <= k ==> parts[k] in rest
    ensures var r := [parts[n]] + rest;
      && (forall i :: 0 <= i < |r| ==>
        n <= r[i].partNumber && r[i].partNumber in parts && parts[r[i].partNumber] == r[i])
      && (forall i, j :: 0 <= i < j < |r| ==> r[i].partNumber < r[j].partNumber)
      && (forall k :: k in parts && n <= k ==> parts[k] in r)
  {
    var r := [parts[n]] + rest;
    assert forall i :: 1 <= i < |r| ==> r[i] == rest[i - 1];
  }

  /** No part is listed from a number beyond every uploaded part's. */
  lemma {:induction false} PartsFromBeyond(parts: map<int, Part>, n: int)
    requires PartsKeyed(parts) && 1 <= n <= MaxPartNumber + 1
    requires forall k :: k in parts ==> k < n
    ensures PartsFrom(parts, n) == []
    decreases MaxPartNumber + 1 - n
  {
    if n <= MaxPartNumber {
      PartsFromBeyond(parts, n + 1);
    }
  }

  /** ListParts: one page of the upload's parts, in ascending part number. */
  function ListParts(uploads: Uploads, bucket: string, key: string, id: string): (r: Result<seq<Part>>)
    requires UploadsKeyed(uploads)
    ensures r.Err? <==> Find(uploads, bucket, key, id).Err?
    ensures r.Err? ==> r.error == Storage(NoSuchUpload)
    ensures r.Ok? ==> |r.value| <= MaxParts
    ensures r.Ok? ==> forall i :: 0 <= i < |r.value| ==>
      r.value[i].partNumber in uploads[id].parts && uploads[id].parts[r.value[i].partNumber] == r.value[i]
    ensures r.Ok? ==> forall i, j :: 0 <= i < j < |r.value| ==> r.value[i].partNumber < r.value[j].partNumber
    ensures r.Ok? && |uploads[id].parts| <= MaxParts ==> forall k :: k in uploads[id].parts ==> uploads[id].parts[k] in r.value
  {
    match Find(uploads, bucket, key, id)
    case Err(e) => Err(e)
    case Ok(u) =>
      var page := Take(PartsFrom(u.parts, 1), MaxParts);
      FirstPage(u.parts, page);
      Ok(page)
  }

  /** The first page of parts: drawn from the map, ascending, and all of them when they fit. */
  lemma FirstPage(parts: map<int, Part>, page: seq<Part>)
    requires PartsKeyed(parts) && page == Take(PartsFrom(parts, 1), MaxParts)
    ensures |page| <= MaxParts
    ensures forall i :: 0 <= i < |page| ==> page[i].partNumber in parts && parts[page[i].partNumber] == page[i]
    ensures forall i, j :: 0 <= i < j < |page| ==> page[i].partNumber < page[j].partNumber
    ensures |parts| <= MaxParts ==> forall k :: k in parts ==> parts[k] in page
  {
    var all := PartsFrom(parts, 1);
    PartsDistinctCount(parts, all);
    forall i | 0 <= i < |page|
      ensures page[i].partNumber in parts && parts[page[i].partNumber] == page[i]
    {
      assert page[i] == all[i];
    }
    forall i, j | 0 <= i < j < |page| ensures page[i].partNumber < page[j].partNumber {
      assert page[i] == all[i] && page[j] == all[j];
    }
  }

  /** An ascending run of parts drawn from a map has no more parts than the map. */
  lemma PartsDistinctCount(parts: map<int, Part>, s: seq<Part>)
    requires forall i :: 0 <= i < |s| ==> s[i].partNumber in parts
    requires forall i, j :: 0 <= i < j < |s| ==> s[i].partNumber < s[j].partNumber
    ensures |s| <= |parts|
  {
    var numbers := set i | 0 <= i < |s| :: s[i].partNumber;
    assert numbers <= parts.Keys;
    IndexImage(s, |s|);
    assert |numbers| == |s| by {
      assert numbers == set i | 0 <= i < |s| :: s[i].partNumber;
    }
    assert |numbers| <= |parts.Keys| by {
      SubsetCardinality(numbers, parts.Keys);
    }
  }

  lemma {:induction false} IndexImage(s: seq<Part>, n: nat)
    requires n <= |s|
    requires forall i, j :: 0 <= i < j < |s| ==> s[i].partNumber < s[j].partNumber
    ensures |set i | 0 <= i < n :: s[i].partNumber| == n
  {
    if n > 0 {
      IndexImage(s, n - 1);
      var before := set i | 0 <= i < n - 1 :: s[i].partNumber;
      assert (set i | 0 <= i < n :: s[i].partNumber) == before + {s[n - 1].partNumber};
      assert s[n - 1].partNumber !in before;
    }
  }

  lemma SubsetCardinality(a: set<int>, b: set<int>)
    requires a <= b
    ensures |a| <= |b|
  {
    assert b == a + (b - a);
  }

  /** Manifest entries strictly ascend in part number. */
  predicate Ascending(manifest: seq<CompletedPart>) {
    forall i, j :: 0 <= i < j < |manifest| ==> manifest[i].partNumber < manifest[j].partNumber
  }

  /** Every manifest entry names an uploaded part with its eTag. */
  predicate NamesUploaded(parts: map<int, Part>, manifest: seq<CompletedPart>) {
    forall i :: 0 <= i < |manifest| ==>
      manifest[i].partNumber in parts && parts[manifest[i].partNumber].eTag == manifest[i].eTag
  }

  /** Every part of a completed upload but the last must hold at least 5 MiB. */
  const MinPartSize: nat := 5 * 1024 * 1024

  /** Every manifest entry but the last names a part of at least the minimum size. */
  predicate LargeEnough(parts: map<int, Part>, manifest: seq<CompletedPart>)
    requires NamesUploaded(parts, manifest)
  {
    forall i :: 0 <= i < |manifest| - 1 ==> |parts[manifest[i].partNumber].data| >= MinPartSize
  }

  /** The content of the named parts, one after the other in the manifest's order. */
  function Assemble(parts: map<int, Part>, manifest: seq<CompletedPart>): seq<byte>
    requires NamesUploaded(parts, manifest)
  {
    if manifest == [] then []
    else parts[manifest[0].partNumber].data + Assemble(parts, manifest[1..])
  }

  /**
   * CompleteMultipartUpload: checks the manifest, stores the assembled object
   * under the upload's key and forgets the upload.  A manifest with more than
   * one fault is refused with the first of them in the order checked here.
   */
  function Complete(buckets: map<string, Bucket>, uploads: Uploads, bucket: string, key: string, id: string,
                    manifest: seq<CompletedPart>)
    : (r: Result<(map<string, Bucket>, Uploads)>)
    requires WellFormed(buckets)
    ensures Find(uploads, bucket, key, id).Err? ==> r == Err(Storage(NoSuchUpload))
    ensures r.Ok? <==> Find(uploads, bucket, key, id).Ok? && manifest != [] && Ascending(manifest)
                       && NamesUploaded(uploads[id].parts, manifest) && LargeEnough(uploads[id].parts, manifest)
                       && bucket in buckets
    ensures Find(uploads, bucket, key, id).Ok? && manifest != [] && Ascending(manifest)
            && NamesUploaded(uploads[id].parts, manifest) && !LargeEnough(uploads[id].parts, manifest) ==>
              r == Err(Storage(EntityTooSmall))
    ensures r.Ok? ==> r.value.1 == uploads - {id} && WellFormed(r.value.0)
    ensures r.Ok? ==> r.value.0.Keys == buckets.Keys
    ensures r.Ok? ==> forall n :: n in buckets && n != bucket ==> r.value.0[n] == buckets[n]
    ensures r.Ok? ==> forall k :: Lookup(r.value.0[bucket], k) ==
                        if k == key then Some(StoredObject(key, Assemble(uploads[id].parts, manifest), None))
                        else Lookup(buckets[bucket], k)
  {
    match Find(uploads, bucket, key, id)
    case Err(e) => Err(e)
    case Ok(u) =>
      if manifest == [] then Err(Storage(MalformedManifest))
      else if !Ascending(manifest) then Err(Storage(InvalidPartOrder))
      else if !NamesUploaded(u.parts, manifest) then Err(Storage(InvalidPart))
      else if !LargeEnough(u.parts, manifest) then Err(Storage(EntityTooSmall))
      else match PutObject(buckets, bucket, StoredObject(key, Assemble(u.parts, manifest), None))
        case Err(e) => Err(e)
        case Ok(stored) => Ok((stored, uploads - {id}))
  }

  /** Two one-byte parts cannot be completed: the first is not the last and is under 5 MiB. */
  lemma SmallPartRefused(buckets: map<string, Bucket>, bucket: string, key: string, id: string, e1: string, e2: string)
    requires WellFormed(buckets)
    ensures
      var parts := map[1 := Part(1, [0], e1), 2 := Part(2, [0], e2)];
      Complete(buckets, map[id := Upload(bucket, key, parts)], bucket, key, id,
               [CompletedPart(1, e1), CompletedPart(2, e2)]) == Err(Storage(EntityTooSmall))
  {
  }

  /** AbortMultipartUpload: forgets the upload and its parts. */
  function Abort(uploads: Uploads, bucket: string, key: string, id: string): (r: Result<Uploads>)
    ensures r.Ok? <==> Find(uploads, bucket, key, id).Ok?
    ensures r.Err? ==> r.error == Storage(NoSuchUpload)
    ensures r.Ok? ==> r.value == uploads - {id}
  {
    match Find(uploads, bucket, key, id)
    case Err(e) => Err(e)
    case Ok(_) => Ok(uploads - {id})
  }
}
