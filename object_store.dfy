/**
 * The object-storage backend the services talk to through the S3 client:
 * buckets of objects kept in key order, the client calls as transitions of
 * the backend's state, and in-progress multipart uploads.
 */
module ObjectStore {
  import opened Wrappers
  import opened Failures
  import opened Entities
  import opened Text
  import Seqs

  /** A bucket's objects, in the order the listing calls return them. */
  type Bucket = seq<StoredObject>

  /** ListObjects and ListObjectsV2 return at most this many keys per call. */
  const MaxKeys: nat := 1000

  /** The content type the frontend and the services use to mark a folder. */
  const DirectoryContentType: string := "application/x-directory"

  predicate Sorted(b: Bucket) {
    forall i, j :: 0 <= i < j < |b| ==> Below(b[i].key, b[j].key)
  }

  predicate WellFormed(buckets: map<string, Bucket>) {
    forall name :: name in buckets ==> Sorted(buckets[name])
  }

  // ---------------------------------------------------------------------
  // Buckets as ordered collections of keys
  // ---------------------------------------------------------------------

  /** The object stored under `key`, if any. */
  function Lookup(b: Bucket, key: string): (r: Option<StoredObject>)
    ensures r.Some? ==> r.value in b && r.value.key == key
    ensures r.None? <==> forall o :: o in b ==> o.key != key
  {
    if b == [] then None
    else if b[0].key == key then Some(b[0])
    else Lookup(b[1..], key)
  }

  /** Stores `o` under its key, replacing what was stored there and keeping the order. */
  function Put(b: Bucket, o: StoredObject): (r: Bucket)
    ensures o in r
  {
    if b == [] then [o]
    else if b[0].key == o.key then [o] + b[1..]
    else if Below(o.key, b[0].key) then [o] + b
    else [b[0]] + Put(b[1..], o)
  }

  /** Drops the object stored under `key`, if any. */
  function Remove(b: Bucket, key: string): (r: Bucket)
    ensures forall x :: x in r <==> x in b && x.key != key
    ensures Seqs.IsSubsequence(r, b)
  {
    Seqs.Filter(b, (x: StoredObject) => x.key != key)
  }

  lemma SortedTail(b: Bucket)
    requires Sorted(b) && b != []
    ensures Sorted(b[1..])
    ensures forall x :: x in b[1..] ==> Below(b[0].key, x.key)
  {
    forall x | x in b[1..] ensures Below(b[0].key, x.key) {
      var j :| 0 <= j < |b[1..]| && b[1..][j] == x;
      assert b[j + 1] == x;
    }
    forall i, j | 0 <= i < j < |b[1..]| ensures Below(b[1..][i].key, b[1..][j].key) {
      assert b[1..][i] == b[i + 1] && b[1..][j] == b[j + 1];
    }
  }

  lemma SortedCons(h: StoredObject, b: Bucket)
    requires Sorted(b)
    requires forall x :: x in b ==> Below(h.key, x.key)
    ensures Sorted([h] + b)
  {
    var r := [h] + b;
    forall i, j | 0 <= i < j < |r| ensures Below(r[i].key, r[j].key) {
      assert r[j] == b[j - 1];
      if i > 0 {
        assert r[i] == b[i - 1];
      } else {
        assert r[j] in b;
      }
    }
  }

  /** Below one key, so below every key of a sorted bucket that starts above it. */
  lemma BelowAll(k: string, b: Bucket)
    requires Sorted(b) && b != [] && Below(k, b[0].key)
    ensures forall x :: x in b ==> Below(k, x.key) && x.key != k
  {
    SortedTail(b);
    forall x | x in b ensures Below(k, x.key) && x.key != k {
      if x != b[0] {
        assert x in b[1..] by { assert b == [b[0]] + b[1..]; }
        BelowTransitive(k, b[0].key, x.key);
      }
      BelowIrreflexive(k);
    }
  }

  /** Put keeps a bucket sorted and replaces exactly the object under the new key. */
  lemma {:induction false} PutSpec(b: Bucket, o: StoredObject)
    requires Sorted(b)
    ensures Sorted(Put(b, o))
    ensures forall x :: x in Put(b, o) <==> x == o || (x in b && x.key != o.key)
    decreases |b|
  {
    if b == [] {
    } else if b[0].key == o.key {
      SortedTail(b);
      forall x | x in b[1..] ensures Below(o.key, x.key) && x.key != o.key {
        BelowIrreflexive(o.key);
      }
      SortedCons(o, b[1..]);
      assert b == [b[0]] + b[1..];
    } else if Below(o.key, b[0].key) {
      BelowAll(o.key, b);
      SortedCons(o, b);
    } else {
      BelowTotal(o.key, b[0].key);
      SortedTail(b);
      PutSpec(b[1..], o);
      SortedCons(b[0], Put(b[1..], o));
      assert b == [b[0]] + b[1..];
    }
  }

  /** A sorted bucket holds at most one object per key. */
  lemma {:induction false} LookupSorted(b: Bucket, x: StoredObject)
    requires Sorted(b) && x in b
    ensures Lookup(b, x.key) == Some(x)
    decreases |b|
  {
    if b[0] != x {
      SortedTail(b);
      assert x in b[1..] by { assert b == [b[0]] + b[1..]; }
      BelowIrreflexive(x.key);
      LookupSorted(b[1..], x);
    }
  }

  /** A subsequence of a sorted bucket is sorted. */
  lemma {:induction false} SubsequenceSorted(a: Bucket, b: Bucket)
    requires Sorted(b) && Seqs.IsSubsequence(a, b)
    ensures Sorted(a)
    decreases |b|
  {
    if a != [] {
      SortedTail(b);
      if a[0] == b[0] && Seqs.IsSubsequence(a[1..], b[1..]) {
        SubsequenceSorted(a[1..], b[1..]);
        Seqs.SubsequenceMembers(a[1..], b[1..]);
        SortedCons(a[0], a[1..]);
        assert a == [a[0]] + a[1..];
      } else {
        SubsequenceSorted(a, b[1..]);
      }
    }
  }

  /** After a put, the new key finds the new object and every other key what it found before. */
  lemma LookupPut(b: Bucket, o: StoredObject, k: string)
    requires Sorted(b)
    ensures Lookup(Put(b, o), k) == if k == o.key then Some(o) else Lookup(b, k)
  {
    PutSpec(b, o);
    if k == o.key {
      LookupSorted(Put(b, o), o);
    } else if Lookup(b, k).Some? {
      LookupSorted(Put(b, o), Lookup(b, k).value);
    }
  }

  /** After a removal, the removed key finds nothing and every other key what it found before. */
  lemma LookupRemove(b: Bucket, key: string, k: string)
    requires Sorted(b)
    ensures Sorted(Remove(b, key))
    ensures Lookup(Remove(b, key), k) == if k == key then None else Lookup(b, k)
  {
    SubsequenceSorted(Remove(b, key), b);
    if k != key && Lookup(b, k).Some? {
      LookupSorted(Remove(b, key), Lookup(b, k).value);
    }
  }

  lemma LookupPutAll(b: Bucket, o: StoredObject)
    requires Sorted(b)
    ensures Sorted(Put(b, o))
    ensures forall k :: Lookup(Put(b, o), k) == if k == o.key then Some(o) else Lookup(b, k)
  {
    PutSpec(b, o);
    forall k ensures Lookup(Put(b, o), k) == if k == o.key then Some(o) else Lookup(b, k) {
      LookupPut(b, o, k);
    }
  }

  lemma LookupRemoveAll(b: Bucket, key: string)
    requires Sorted(b)
    ensures Sorted(Remove(b, key))
    ensures forall k :: Lookup(Remove(b, key), k) == if k == key then None else Lookup(b, k)
  {
    LookupRemove(b, key, key);
    forall k ensures Lookup(Remove(b, key), k) == if k == key then None else Lookup(b, k) {
      LookupRemove(b, key, k);
    }
  }

  // ---------------------------------------------------------------------
  // Listings
  // ---------------------------------------------------------------------

  /** The first `n` elements, or all when there are fewer. */
  function Take<T>(s: seq<T>, n: nat): (r: seq<T>)
    ensures |r| <= n && |r| <= |s|
    ensures |s| <= n ==> r == s
    ensures |s| > n ==> r == s[..n]
    ensures forall i :: 0 <= i < |r| ==> r[i] == s[i]
  {
    if |s| <= n then s else s[..n]
  }

  /** Every object whose key starts with `prefix`, in key order. */
  function Matching(b: Bucket, prefix: string): (r: Bucket)
    ensures forall x :: x in r <==> x in b && StartsWith(x.key, prefix)
    ensures Seqs.IsSubsequence(r, b)
  {
    Seqs.Filter(b, (x: StoredObject) => StartsWith(x.key, prefix))
  }

  /** Matching objects whose key has no `delimiter` after the prefix (the listing's contents). */
  function MatchingDelimited(b: Bucket, prefix: string, delimiter: string): (r: Bucket)
    ensures forall x :: x in r <==> x in b && StartsWith(x.key, prefix)
                                    && IndexOf(x.key[|prefix|..], delimiter).None?
    ensures Seqs.IsSubsequence(r, b)
  {
    Seqs.Filter(b, (x: StoredObject) => StartsWith(x.key, prefix) && IndexOf(x.key[|prefix|..], delimiter).None?)
  }

  /** The first `n` elements of a subsequence of `b` still form a subsequence of `b`. */
  lemma TakeSubsequence(all: Bucket, b: Bucket, n: nat)
    requires Seqs.IsSubsequence(all, b)
    ensures Seqs.IsSubsequence(Take(all, n), b)
    ensures forall x :: x in Take(all, n) ==> x in all && x in b
    ensures Sorted(b) ==> Sorted(Take(all, n))
  {
    if |all| > n {
      Seqs.PrefixSubsequence(all, n);
      Seqs.SubsequenceTransitive(Take(all, n), all, b);
    }
    Seqs.SubsequenceMembers(Take(all, n), b);
    if Sorted(b) {
      SubsequenceSorted(Take(all, n), b);
    }
  }

  /** The objects one listing call without a delimiter returns. */
  function Page(b: Bucket, prefix: string): (r: Bucket)
    ensures |r| <= MaxKeys
    ensures Seqs.IsSubsequence(r, b)
    ensures forall x :: x in r ==> x in b && StartsWith(x.key, prefix)
    ensures |Matching(b, prefix)| <= MaxKeys ==> r == Matching(b, prefix)
    ensures Sorted(b) ==> Sorted(r)
  {
    TakeSubsequence(Matching(b, prefix), b, MaxKeys);
    Take(Matching(b, prefix), MaxKeys)
  }

  /** The objects one listing call with a delimiter returns (the common prefixes are not kept). */
  function DelimitedPage(b: Bucket, prefix: string, delimiter: string): (r: Bucket)
    ensures |r| <= MaxKeys
    ensures forall x :: x in r ==> x in b && StartsWith(x.key, prefix) && IndexOf(x.key[|prefix|..], delimiter).None?
    ensures Sorted(b) ==> Sorted(r)
  {
    TakeSubsequence(MatchingDelimited(b, prefix, delimiter), b, MaxKeys);
    Take(MatchingDelimited(b, prefix, delimiter), MaxKeys)
  }

  /**
   * ListObjects / ListObjectsV2: the bucket must exist; a null prefix matches
   * every key; a null or empty delimiter groups nothing.
   */
  function ListObjects(buckets: map<string, Bucket>, name: string, prefix: Option<string>, delimiter: Option<string>)
    : (r: Result<Bucket>)
    ensures name !in buckets <==> r == Err(Storage(NoSuchBucket))
    ensures r.Ok? ==> |r.value| <= MaxKeys
    ensures r.Ok? ==> forall x :: x in r.value ==> x in buckets[name] && StartsWith(x.key, prefix.GetOr(""))
    ensures r.Ok? && (delimiter.None? || delimiter == Some("")) ==> r.value == Page(buckets[name], prefix.GetOr(""))
    ensures r.Ok? && WellFormed(buckets) ==> Sorted(r.value)
  {
    if name !in buckets then Err(Storage(NoSuchBucket))
    else if delimiter.None? || delimiter == Some("") then Ok(Page(buckets[name], prefix.GetOr("")))
    else Ok(DelimitedPage(buckets[name], prefix.GetOr(""), delimiter.value))
  }

  /** An unfiltered listing of a bucket with at most MaxKeys objects is the whole bucket. */
  lemma ListAllSmall(buckets: map<string, Bucket>, name: string)
    requires name in buckets && |buckets[name]| <= MaxKeys
    ensures ListObjects(buckets, name, None, None) == Ok(buckets[name])
  {
    Seqs.FilterAll(buckets[name], (x: StoredObject) => StartsWith(x.key, ""));
  }

  /** An unfiltered listing of a larger bucket returns exactly its first MaxKeys objects. */
  lemma ListAllLarge(buckets: map<string, Bucket>, name: string)
    requires name in buckets && |buckets[name]| > MaxKeys
    ensures ListObjects(buckets, name, None, None) == Ok(buckets[name][..MaxKeys])
  {
    Seqs.FilterAll(buckets[name], (x: StoredObject) => StartsWith(x.key, ""));
  }

  // ---------------------------------------------------------------------
  // Client calls on buckets and objects
  // ---------------------------------------------------------------------

  /** CreateBucket: a new, empty bucket; the name must be free. */
  function CreateBucket(buckets: map<string, Bucket>, name: string): (r: Result<map<string, Bucket>>)
    ensures name in buckets <==> r == Err(Storage(BucketAlreadyExists))
    ensures r.Ok? ==> r.value == buckets[name := []]
    ensures WellFormed(buckets) && r.Ok? ==> WellFormed(r.value)
  {
    if name in buckets then Err(Storage(BucketAlreadyExists)) else Ok(buckets[name := []])
  }

  /** DeleteBucket: only an existing, empty bucket can be removed. */
  function DeleteBucket(buckets: map<string, Bucket>, name: string): (r: Result<map<string, Bucket>>)
    ensures name !in buckets ==> r == Err(Storage(NoSuchBucket))
    ensures name in buckets && buckets[name] != [] ==> r == Err(Storage(BucketNotEmpty))
    ensures r.Ok? <==> name in buckets && buckets[name] == []
    ensures r.Ok? ==> r.value == buckets - {name}
    ensures WellFormed(buckets) && r.Ok? ==> WellFormed(r.value)
  {
    if name !in buckets then Err(Storage(NoSuchBucket))
    else if buckets[name] != [] then Err(Storage(BucketNotEmpty))
    else Ok(buckets - {name})
  }

  /** PutObject: stores the object in an existing bucket, replacing any object under its key. */
  function PutObject(buckets: map<string, Bucket>, name: string, o: StoredObject): (r: Result<map<string, Bucket>>)
    requires WellFormed(buckets)
    ensures name !in buckets <==> r == Err(Storage(NoSuchBucket))
    ensures r.Ok? ==> WellFormed(r.value) && r.value.Keys == buckets.Keys
    ensures r.Ok? ==> forall n :: n in buckets && n != name ==> r.value[n] == buckets[n]
    ensures r.Ok? ==> forall k :: Lookup(r.value[name], k) == if k == o.key then Some(o) else Lookup(buckets[name], k)
  {
    if name !in buckets then Err(Storage(NoSuchBucket))
    else
      LookupPutAll(buckets[name], o);
      Ok(buckets[name := Put(buckets[name], o)])
  }

  /** HeadObject / GetObject: the object under the key, or NoSuchBucket / NoSuchKey. */
  function GetObject(buckets: map<string, Bucket>, name: string, key: string): (r: Result<StoredObject>)
    ensures name !in buckets <==> r == Err(Storage(NoSuchBucket))
    ensures name in buckets && Lookup(buckets[name], key).None? <==> r == Err(Storage(NoSuchKey))
    ensures r.Ok? ==> name in buckets && Some(r.value) == Lookup(buckets[name], key)
  {
    if name !in buckets then Err(Storage(NoSuchBucket))
    else match Lookup(buckets[name], key)
      case None => Err(Storage(NoSuchKey))
      case Some(o) => Ok(o)
  }

  /**
   * CopyObject within one bucket: the copy keeps the content and the content
   * type.  Copying an object onto its own key without new metadata is refused.
   */
  function CopyObject(buckets: map<string, Bucket>, name: string, source: string, target: string)
    : (r: Result<map<string, Bucket>>)
    requires WellFormed(buckets)
    ensures GetObject(buckets, name, source).Err? ==> r == Err(GetObject(buckets, name, source).error)
    ensures GetObject(buckets, name, source).Ok? && source == target ==> r == Err(Storage(InvalidRequest))
    ensures r.Ok? <==> GetObject(buckets, name, source).Ok? && source != target
    ensures r.Ok? ==> WellFormed(r.value) && r.value.Keys == buckets.Keys
    ensures r.Ok? ==> forall n :: n in buckets && n != name ==> r.value[n] == buckets[n]
    ensures r.Ok? ==> forall k :: Lookup(r.value[name], k) ==
                        if k == target then Some(GetObject(buckets, name, source).value.(key := target))
                        else Lookup(buckets[name], k)
  {
    match GetObject(buckets, name, source)
    case Err(e) => Err(e)
    case Ok(o) =>
      if source == target then Err(Storage(InvalidRequest))
      else PutObject(buckets, name, o.(key := target))
  }

  /** DeleteObject: removes the key; deleting a key that is not there succeeds and changes nothing. */
  function DeleteObject(buckets: map<string, Bucket>, name: string, key: string): (r: Result<map<string, Bucket>>)
    requires WellFormed(buckets)
    ensures name !in buckets <==> r == Err(Storage(NoSuchBucket))
    ensures r.Ok? ==> WellFormed(r.value) && r.value.Keys == buckets.Keys
    ensures r.Ok? ==> forall n :: n in buckets && n != name ==> r.value[n] == buckets[n]
    ensures r.Ok? ==> forall k :: Lookup(r.value[name], k) == if k == key then None else Lookup(buckets[name], k)
  {
    if name !in buckets then Err(Storage(NoSuchBucket))
    else
      LookupRemoveAll(buckets[name], key);
      Ok(buckets[name := Remove(buckets[name], key)])
  }
}
