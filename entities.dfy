/** The persisted records and the values the services hand back. */
module Entities {
  import opened Wrappers

  newtype byte = x: int | 0 <= x < 256

  /** An account; `password` holds the salted hash, never the password itself. */
  datatype User = User(id: int, username: string, password: string)

  /** A named group owned by its creator. */
  datatype Group = Group(id: int, name: string, creatorId: int)

  /** A membership row; the pair of ids is the row's key. */
  datatype GroupMember = GroupMember(userId: int, groupId: int)

  /** A sharing grant: `sharedByUserId` lets `sharedToUserId` read `filename`. */
  datatype FileSharing = FileSharing(id: int, sharedByUserId: int, sharedToUserId: int, filename: string)

  /** An object as the store keeps it. */
  datatype StoredObject = StoredObject(key: string, content: seq<byte>, contentType: Option<string>)

  /** An entry of a listing: the key and the size of an object. */
  datatype FileObject = FileObject(objectKey: string, size: nat)

  function Describe(o: StoredObject): (f: FileObject)
    ensures f.objectKey == o.key && f.size == |o.content|
  {
    FileObject(o.key, |o.content|)
  }

  /**
   * One row of a sharing listing: the grant, the user name of the other
   * party (when that account still exists) and one matching object.
   */
  datatype FileSharingResponse = FileSharingResponse(
    fileSharing: FileSharing,
    counterpartName: Option<string>,
    fileObject: FileObject)
}
