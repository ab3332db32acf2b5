/** The state of the object-storage server behind the S3 client. */
module Backend {
  import opened Text
  import opened ObjectStore
  import opened Multipart

  class StorageBackend {
    var buckets: map<string, Bucket>
    var uploads: Uploads
    var nextUploadId: int

    /**
     * Every bucket is in key order, every part sits under its own number,
     * and every upload id is the decimal of a number the backend has
     * already handed out.
     */
    ghost predicate Valid()
      reads this
    {
      && WellFormed(buckets)
      && UploadsKeyed(uploads)
      && (forall id :: id in uploads ==> ParseLong(id).Some? && ParseLong(id).value < nextUploadId)
    }

    constructor ()
      ensures Valid() && buckets == map[] && uploads == map[]
    {
      buckets := map[];
      uploads := map[];
      nextUploadId := 1;
    }
  }
}
