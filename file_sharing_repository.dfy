/** Queries over the sharing-grant table (FileSharingRepository). */
module FileSharingRepository {
  import opened Wrappers
  import opened Failures
  import opened Entities
  import Seqs
  import Panache

  /** The grants between two users, in either direction, for one file name. */
  function Between(grants: seq<FileSharing>, a: int, b: int, filename: string): (r: seq<FileSharing>)
    ensures forall f :: f in r <==> (f in grants && f.filename == filename
      && ((f.sharedByUserId == a && f.sharedToUserId == b) || (f.sharedByUserId == b && f.sharedToUserId == a)))
  {
    Seqs.Filter(grants, (f: FileSharing) =>
      ((f.sharedByUserId == a && f.sharedToUserId == b) || (f.sharedByUserId == b && f.sharedToUserId == a))
      && f.filename == filename)
  }

  /**
   * existsByUsersAndFilename: whether the pair already shares the file in
   * either direction.  singleResult() throws when two such grants exist.
   */
  function ExistsByUsersAndFilename(grants: seq<FileSharing>, a: int, b: int, filename: string): (r: Result<bool>)
    ensures r == Ok(false) <==> forall f :: f in grants ==>
      !(f.filename == filename
        && ((f.sharedByUserId == a && f.sharedToUserId == b) || (f.sharedByUserId == b && f.sharedToUserId == a)))
    ensures r == Ok(true) <==> |Between(grants, a, b, filename)| == 1
    ensures r.Err? <==> |Between(grants, a, b, filename)| >= 2
  {
    var rows := Between(grants, a, b, filename);
    assert rows != [] ==> rows[0] in rows;
    match Panache.SingleResult(rows)
    case Ok(found) => Ok(found.Some?)
    case Err(e) => Err(e)
  }

  /** The test does not depend on which of the two users is named first. */
  lemma ExistsSymmetric(grants: seq<FileSharing>, a: int, b: int, filename: string)
    ensures ExistsByUsersAndFilename(grants, a, b, filename) == ExistsByUsersAndFilename(grants, b, a, filename)
  {
    assert Between(grants, a, b, filename) == Between(grants, b, a, filename) by {
      BetweenSymmetric(grants, a, b, filename);
    }
  }

  lemma {:induction false} BetweenSymmetric(grants: seq<FileSharing>, a: int, b: int, filename: string)
    ensures Between(grants, a, b, filename) == Between(grants, b, a, filename)
  {
    if grants != [] {
      BetweenSymmetric(grants[1..], a, b, filename);
    }
  }

  /** findBySharedByUserId: the grants a user made, or empty when there are none. */
  function FindBySharedByUserId(grants: seq<FileSharing>, userId: int): (r: Option<seq<FileSharing>>)
    ensures r.None? <==> forall f :: f in grants ==> f.sharedByUserId != userId
    ensures r.Some? ==> forall f :: f in r.value <==> f in grants && f.sharedByUserId == userId
    ensures r.Some? ==> Seqs.IsSubsequence(r.value, grants)
  {
    var rows := Seqs.Filter(grants, (f: FileSharing) => f.sharedByUserId == userId);
    assert rows != [] ==> rows[0] in rows;
    Panache.NonEmpty(rows)
  }

  /** findBySharedToUserId: the grants a user received, or empty when there are none. */
  function FindBySharedToUserId(grants: seq<FileSharing>, userId: int): (r: Option<seq<FileSharing>>)
    ensures r.None? <==> forall f :: f in grants ==> f.sharedToUserId != userId
    ensures r.Some? ==> forall f :: f in r.value <==> f in grants && f.sharedToUserId == userId
    ensures r.Some? ==> Seqs.IsSubsequence(r.value, grants)
  {
    var rows := Seqs.Filter(grants, (f: FileSharing) => f.sharedToUserId == userId);
    assert rows != [] ==> rows[0] in rows;
    Panache.NonEmpty(rows)
  }

  /** findById on the grant table. */
  function FindById(grants: seq<FileSharing>, id: int): (r: Option<FileSharing>)
    ensures r.Some? ==> r.value in grants && r.value.id == id
    ensures r.None? <==> forall f :: f in grants ==> f.id != id
  {
    var rows := Seqs.Filter(grants, (f: FileSharing) => f.id == id);
    assert rows != [] ==> rows[0] in rows;
    Panache.FirstResult(rows)
  }

  /** The table after deleting the grant with that id. */
  function WithoutGrant(grants: seq<FileSharing>, id: int): (r: seq<FileSharing>)
    ensures forall f :: f in r <==> f in grants && f.id != id
    ensures Seqs.IsSubsequence(r, grants)
  {
    Seqs.Filter(grants, (f: FileSharing) => f.id != id)
  }

  /** findBySharedByUserIdAndFilename: a user's grants of one file, or empty. */
  function FindBySharedByUserIdAndFilename(grants: seq<FileSharing>, userId: int, filename: string): (r: Option<seq<FileSharing>>)
    ensures r.None? <==> forall f :: f in grants ==> !(f.sharedByUserId == userId && f.filename == filename)
    ensures r.Some? ==> forall f :: f in r.value <==> f in grants && f.sharedByUserId == userId && f.filename == filename
  {
    var rows := Seqs.Filter(grants, (f: FileSharing) => f.sharedByUserId == userId && f.filename == filename);
    assert rows != [] ==> rows[0] in rows;
    Panache.NonEmpty(rows)
  }
}
