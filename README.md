# CloudShare, modelled in Dafny

CloudShare is a file-sharing service. A Quarkus backend keeps accounts, groups,
group memberships and file-sharing grants in a relational database. Each
account owns one bucket on an S3-compatible object store (MinIO), named by its
id followed by a configured suffix. A React frontend browses a bucket as a tree
of folders.

This project models the core of that system:

- the repositories, as pure queries over the tables;
- the user, group, file-sharing and MinIO services, as methods over a
  `Persistence.Database` object (the tables and their id generators) and a
  `Backend.StorageBackend` object (the buckets and the open multipart
  uploads);
- the REST resources, with the status each one answers;
- the exception mapper, which turns failures into JSON error bodies;
- the frontend's string logic: file types and icons, folder names, the
  directory bar's Enter key and back arrow, the directory filter of the home
  page, and the sign-up checks of the login page.

The object store itself is modelled in `ObjectStore` and `Multipart`:

- A bucket is a sequence of objects, sorted strictly by key.
- A listing without pagination returns at most `MaxKeys` = 1000 objects.
- A multipart upload is a map from part number to part.

Hashing, token signing, presigning, the clock and the store's choice of ETags
are parameters of the operations that use them.

Module layout:

- Foundations:
  - `Wrappers` (Option);
  - `Failures` (the exception taxonomy and `Result`);
  - `Text` (strings, `String.valueOf`, `Long.valueOf`, the two `trim`s);
  - `Seqs` (filtering, subsequences);
  - `Entities` (the JPA entities and DTOs).
- State:
  - `Persistence`, the database;
  - `Backend`, the object store client.
- One module per source file: repositories, services, resources, the
  mapper, and the frontend components.

## Model

| member | source | states |
|---|---|---|
| Authorization.CheckAuthorization | backend/src/main/java/isel/leic/utils/AuthorizationUtils.java:11-18 | passes exactly when the principal's name equals the decimal text of the path id, else Forbidden |
| Authorization.AuthorizedPrincipalParses | backend/src/main/java/isel/leic/utils/AuthorizationUtils.java:12 | a principal that passes for an id parses with Long.valueOf back to that id |
| Authorization.AuthorizesOneId | backend/src/main/java/isel/leic/utils/AuthorizationUtils.java:12 | a principal passes for at most one id |
| Authorization.TextualComparison | backend/src/main/java/isel/leic/utils/AuthorizationUtils.java:12 | the test is textual: "007" and "+7" parse to 7 yet are refused for id 7 |
| Text.ParseLongOfDecimal | backend/src/main/java/isel/leic/resource/AuthenticationResource.java:85 | Long.valueOf of String.valueOf(n) gives n back |
| Text.DecimalInjective | backend/src/main/java/isel/leic/resource/MinioResource.java:249 | distinct ids print as distinct strings |
| Entities.Describe | backend/src/main/java/isel/leic/service/MinioService.java:124-126 | a listing entry carries the object's key and its size in bytes |
| ExceptionMapper.BuildErrorMessage | backend/src/main/java/isel/leic/exception/mapper/ExceptionMapper.java:93-95 | the body is the message wrapped in the fixed JSON prefix and suffix, unescaped |
| ExceptionMapper.ErrorTextOfBuild | backend/src/main/java/isel/leic/exception/mapper/ExceptionMapper.java:93-95 | a client reading the body back gets the message back, whatever it holds |
| ExceptionMapper.BuildErrorMessageInjective | backend/src/main/java/isel/leic/exception/mapper/ExceptionMapper.java:93-95 | different messages give different bodies |
| ExceptionMapper.Status | backend/src/main/java/isel/leic/exception/mapper/ExceptionMapper.java:20-91 | 404 exactly for user, group, group-member, members and sharing not found; 403 exactly for Forbidden; 400 exactly for IllegalArgument; 409 exactly for DuplicateResource; 500 for the token failure and every other exception |
| ExceptionMapper.FindStatus | backend/src/main/java/isel/leic/exception/mapper/ExceptionMapper.java:36-38 | Matcher.find returns the first position at or after `from` where the label is followed by a digit, and nothing earlier matches |
| ExceptionMapper.DigitRun | backend/src/main/java/isel/leic/exception/mapper/ExceptionMapper.java:36 | the greedy `\d+`: a run of digits ended by a non-digit or the end |
| ExceptionMapper.CompletionStatus | backend/src/main/java/isel/leic/exception/mapper/ExceptionMapper.java:33-44 | "500" when there is no match; otherwise the parsed digits; None when parseInt overflows |
| ExceptionMapper.DigitRunOf | backend/src/main/java/isel/leic/exception/mapper/ExceptionMapper.java:36 | the run found after a label is exactly the digits written there |
| ExceptionMapper.CompletionStatusOfLabel | backend/src/main/java/isel/leic/exception/mapper/ExceptionMapper.java:36-40 | a status written after the first label and ended by a non-digit is the status read back |
| ExceptionMapper.CutMessage | backend/src/main/java/isel/leic/exception/mapper/ExceptionMapper.java:41 | the trimmed text before the first "(Service", or the whole trimmed message without one; None (Java's split leaves no piece to index) exactly when the message is nothing but copies of the mark |
| ExceptionMapper.CutHasNoMark | backend/src/main/java/isel/leic/exception/mapper/ExceptionMapper.java:41 | the kept text never holds "(Service" |
| ExceptionMapper.MapCompletion | backend/src/main/java/isel/leic/exception/mapper/ExceptionMapper.java:32-45 | the status parsed from the message and the cut message as the body; a null message gives 500 with the body "null"; the mapper itself fails exactly when the cut finds nothing, the digits overflow an int, or the code is none of Response.Status's constants, so every answer carries a known status |
| ExceptionMapper.UnknownStatusFails | backend/src/main/java/isel/leic/exception/mapper/ExceptionMapper.java:44 | example: "Status Code: 999" makes the mapper itself fail, since fromStatusCode(999) is null |
| ExceptionMapper.ToResponse | backend/src/main/java/isel/leic/exception/mapper/ExceptionMapper.java:19-91 | each failure goes to its mapper's status, with that mapper's message prefix |
| ExceptionMapper.BareMarkFails | backend/src/main/java/isel/leic/exception/mapper/ExceptionMapper.java:41 | a CompletionException whose message is only "(Service" makes the mapper itself throw |
| Responses.ClientStatus | backend/src/main/java/isel/leic/exception/mapper/ExceptionMapper.java:19-91 | an escaping failure reaches the client with its mapped status; an answer keeps its own |
| Responses.Propagate | backend/src/main/java/isel/leic/resource/GroupResource.java:31-39 | a service result is answered with the given status on success and escapes on failure |
| Panache.SingleResult | backend/src/main/java/isel/leic/repository/GroupRepository.java:13-20 | no row is None, one row is that row, and two or more rows are NonUniqueResult |
| Panache.FirstResult | backend/src/main/java/isel/leic/repository/UserRepository.java:14-17 | the first row, or None for no rows |
| Panache.NonEmpty | backend/src/main/java/isel/leic/repository/GroupRepository.java:26-29 | an empty list becomes None; any other list is returned unchanged |
| UserRepository.FindById | backend/src/main/java/isel/leic/service/UserService.java:34-37 | the row has the id, and None means no row has it |
| UserRepository.FindByIdOfMember | backend/src/main/java/isel/leic/service/UserService.java:34-37 | with unique ids, the lookup of a row's id finds that row |
| UserRepository.FindByUsername | backend/src/main/java/isel/leic/repository/UserRepository.java:14-17 | the earliest account with the name; None when no account has it |
| UserRepository.MembersOf | backend/src/main/java/isel/leic/repository/UserRepository.java:18-21 | the join: one account per membership row of the group whose user exists |
| UserRepository.FindUsersByGroupId | backend/src/main/java/isel/leic/repository/UserRepository.java:18-21 | the members' accounts, or None exactly when the join is empty |
| UserRepository.FindByUsernamePrefix | backend/src/main/java/isel/leic/repository/UserRepository.java:23-26 | the accounts whose name matches the LIKE pattern prefix + "%", in table order, or None when there are none |
| UserRepository.LikeAnything | backend/src/main/java/isel/leic/repository/UserRepository.java:24 | the appended "%" alone matches every name |
| UserRepository.LikeLiteralPrefix | backend/src/main/java/isel/leic/repository/UserRepository.java:24 | for a prefix without `_` or `%`, matching prefix + "%" is exactly starting with the prefix, both ways |
| UserRepository.UnderscoreMatchesAnyCharacter | backend/src/main/java/isel/leic/repository/UserRepository.java:24 | example: the prefix "a_" matches "ab", which does not start with "a_" |
| UserRepository.WithoutUser | backend/src/main/java/isel/leic/service/UserService.java:88-99 | every row except the one with that id, in order |
| GroupMemberRepository.UserIds | backend/src/main/java/isel/leic/repository/GroupMemberRepository.java:13-16 | an id is listed exactly when its membership row of the group exists |
| GroupMemberRepository.FindUsersByGroupId | backend/src/main/java/isel/leic/repository/GroupMemberRepository.java:13-16 | None exactly when the group has no row; otherwise exactly its members' ids |
| GroupMemberRepository.FindByUserId | backend/src/main/java/isel/leic/repository/GroupMemberRepository.java:18-21 | None exactly when the user has no row; otherwise exactly its rows |
| GroupMemberRepository.WithoutMember | backend/src/main/java/isel/leic/repository/GroupMemberRepository.java:23-25 | every row but that one membership survives, in order |
| GroupMemberRepository.WithoutAbsentMember | backend/src/main/java/isel/leic/repository/GroupMemberRepository.java:23-25 | deleting a row that is not there changes nothing |
| GroupMemberRepository.DeleteByGroupIdAndUserId | backend/src/main/java/isel/leic/repository/GroupMemberRepository.java:23-25 | the table afterwards lacks exactly that row |
| GroupRepository.FindById | backend/src/main/java/isel/leic/repository/GroupRepository.java:21-24 | the row has the id, and None means no row has it |
| GroupRepository.FindByIdOfMember | backend/src/main/java/isel/leic/repository/GroupRepository.java:21-24 | with unique ids, the lookup of a row's id finds that row |
| GroupRepository.Named | backend/src/main/java/isel/leic/repository/GroupRepository.java:15 | the rows of that creator and name, in order |
| GroupRepository.ExistsByCreatorIdAndName | backend/src/main/java/isel/leic/repository/GroupRepository.java:13-20 | false for no row, true for one row, NonUniqueResult for two or more |
| GroupRepository.FindByCreatorIdAndName | backend/src/main/java/isel/leic/repository/GroupRepository.java:31-38 | the single row of that creator and name; None for no row; NonUniqueResult for two |
| GroupRepository.ExistsAgreesWithFind | backend/src/main/java/isel/leic/repository/GroupRepository.java:13-38 | the existence test holds exactly when the lookup finds a group, and both fail alike |
| GroupRepository.FindByCreatorId | backend/src/main/java/isel/leic/repository/GroupRepository.java:26-29 | the creator's groups in order, None exactly when there are none |
| GroupRepository.WithoutGroup | backend/src/main/java/isel/leic/service/GroupService.java:190-201 | every row but the one with that id, ids staying unique |
| FileSharingRepository.Between | backend/src/main/java/isel/leic/repository/FileSharingRepository.java:15-25 | the grants of the file between the two users in either direction |
| FileSharingRepository.ExistsByUsersAndFilename | backend/src/main/java/isel/leic/repository/FileSharingRepository.java:15-25 | false for no such grant, true for one, NonUniqueResult for two or more |
| FileSharingRepository.ExistsSymmetric | backend/src/main/java/isel/leic/repository/FileSharingRepository.java:15-25 | the answer does not depend on which user is named first |
| FileSharingRepository.FindBySharedByUserId | backend/src/main/java/isel/leic/repository/FileSharingRepository.java:28-31 | exactly the grants the user made, or None when there are none |
| FileSharingRepository.FindBySharedToUserId | backend/src/main/java/isel/leic/repository/FileSharingRepository.java:33-36 | exactly the grants the user received, or None when there are none |
| FileSharingRepository.FindById | backend/src/main/java/isel/leic/service/FileSharingService.java:98-111 | the grant has that id, and None means no grant has it |
| FileSharingRepository.WithoutGrant | backend/src/main/java/isel/leic/service/FileSharingService.java:98-111 | every grant but the one with that id survives |
| FileSharingRepository.FindBySharedByUserIdAndFilename | backend/src/main/java/isel/leic/repository/FileSharingRepository.java:42-46 | exactly the user's grants of that file name, or None |
| UserService.ExistsById | backend/src/main/java/isel/leic/service/UserService.java:47-50 | true exactly when some row has the id |
| UserService.WithPassword | backend/src/main/java/isel/leic/service/UserService.java:60-74 | only the row with that id changes, and only its password |
| UserService.FindWithPassword | backend/src/main/java/isel/leic/service/UserService.java:60-74 | after the change the id finds the account with the new hash; other ids find what they found |
| UserService.WithPasswordKeepsNames | backend/src/main/java/isel/leic/service/UserService.java:60-74 | a password change keeps every name, so names stay unique |
| UserService.WithPasswordKeepsIds | backend/src/main/java/isel/leic/service/UserService.java:60-74 | a password change keeps every id, so ids stay unique and below the generator |
| UserService.UpdatePassword | backend/src/main/java/isel/leic/service/UserService.java:60-74 | null arguments are IllegalArgument and an unknown id UserNotFound, with nothing changed; otherwise that account gets the hash |
| UserService.CreateUser | backend/src/main/java/isel/leic/service/UserService.java:77-85 | a taken name is DuplicateResource with nothing changed; otherwise the account is appended with the next id and the hash |
| UserService.AppendUserKeepsRules | backend/src/main/java/isel/leic/service/UserService.java:77-85 | appending an account with a fresh id and a free name keeps ids and names unique |
| UserService.CreatedIsFound | backend/src/main/java/isel/leic/service/UserService.java:77-118 | a new account is found by its name and its password authenticates |
| UserService.RemoveUser | backend/src/main/java/isel/leic/service/UserService.java:88-99 | an unknown id is UserNotFound; otherwise exactly that account row is deleted |
| UserService.WithoutUserKeepsRules | backend/src/main/java/isel/leic/service/UserService.java:88-99 | deleting an account keeps ids and names unique |
| UserService.RemovedCannotAuthenticate | backend/src/main/java/isel/leic/service/UserService.java:88-118 | after a deletion the name no longer authenticates |
| UserService.Authenticate | backend/src/main/java/isel/leic/service/UserService.java:101-118 | UserNotFound for an unknown name, IllegalArgument for a wrong password, else that account |
| UserService.AuthenticateAfterUpdate | backend/src/main/java/isel/leic/service/UserService.java:60-118 | after a password change the new password authenticates the account |
| UserService.FindByUsernameAt | backend/src/main/java/isel/leic/service/UserService.java:39-42 | with unique names, the lookup by row i's name finds row i |
| UserService.FindUserGroups | backend/src/main/java/isel/leic/service/UserService.java:122-141 | UserNotFound for an unknown user; otherwise its groups, possibly none |
| GroupService.CreateGroup | backend/src/main/java/isel/leic/service/GroupService.java:42-62 | null arguments are IllegalArgument, an unknown creator UserNotFound, a used name IllegalArgument as well; otherwise the group is appended with the next id |
| GroupService.AppendGroupKeepsRules | backend/src/main/java/isel/leic/service/GroupService.java:42-62 | a group with a fresh id and a name its creator does not use keeps ids and names unique |
| GroupService.Renamed | backend/src/main/java/isel/leic/service/GroupService.java:65-81 | only the name of the row with that id changes |
| GroupService.FindRenamed | backend/src/main/java/isel/leic/service/GroupService.java:65-81 | after the rename the id finds the renamed group; other ids find what they found |
| GroupService.UpdateGroupName | backend/src/main/java/isel/leic/service/GroupService.java:65-81 | null arguments are IllegalArgument, an unknown group GroupNotFound; otherwise the rename, with no name check |
| GroupService.RenameKeepsRules | backend/src/main/java/isel/leic/service/GroupService.java:65-81 | a rename keeps ids and creators, so the membership rules still hold |
| GroupService.RenameCollides | backend/src/main/java/isel/leic/service/GroupService.java:65-81 | renaming a group to a sibling's name breaks name uniqueness, and the next existence check fails with NonUniqueResult |
| GroupService.UpdateGroupNameChecked | backend/src/main/java/isel/leic/service/GroupService.java:42-81 | the rename with createGroup's check: a name used by another of the creator's groups is IllegalArgument, and names stay unique |
| GroupService.RenameKeepsNames | backend/src/main/java/isel/leic/service/GroupService.java:65-81 | a rename to a name no sibling has keeps names unique |
| GroupService.UniqueNamesAnswer | backend/src/main/java/isel/leic/service/GroupService.java:33-39 | with unique names the existence check never fails |
| GroupService.NamedAtMostOne | backend/src/main/java/isel/leic/service/GroupService.java:33-39 | with unique names a creator and a name match at most one row |
| GroupService.GroupContainsUser | backend/src/main/java/isel/leic/service/GroupService.java:122-133 | the scan finds the user exactly when it is among the joined members |
| GroupService.ContainsUserIffRow | backend/src/main/java/isel/leic/service/GroupService.java:122-133 | an existing account is a member exactly when its membership row exists |
| GroupService.AddUserToGroup | backend/src/main/java/isel/leic/service/GroupService.java:84-118 | the five checks in source order (null, unknown user, unknown group, already a member, the group's creator), each with nothing changed; else exactly one row is appended |
| GroupService.AddRowKeepsRules | backend/src/main/java/isel/leic/service/GroupService.java:84-118 | appending a row of existing ids keeps the membership rules |
| GroupService.AddedIsContained | backend/src/main/java/isel/leic/service/GroupService.java:84-133 | once added the user is a member, so a second add is DuplicateResource |
| GroupService.GetGroupMembers | backend/src/main/java/isel/leic/service/GroupService.java:135-154 | GroupNotFound for an unknown group; otherwise the members' accounts, empty when there are none |
| GroupService.GetGroupsOfUser | backend/src/main/java/isel/leic/service/GroupService.java:156-169 | exactly the groups the user created, in order, possibly none |
| GroupService.RemoveUserFromGroup | backend/src/main/java/isel/leic/service/GroupService.java:172-187 | GroupNotFound, then UserNotInGroup, each with nothing changed; otherwise exactly that row is deleted |
| GroupService.AddThenRemove | backend/src/main/java/isel/leic/service/GroupService.java:84-187 | removing a member undoes adding it, and it is no longer reported as a member |
| GroupService.RemoveGroup | backend/src/main/java/isel/leic/service/GroupService.java:190-201 | GroupNotFound for an unknown id; otherwise exactly that group row is deleted and membership rows are left |
| GroupService.RemovedGroupHasNoMembers | backend/src/main/java/isel/leic/service/GroupService.java:135-201 | asking for the members of a removed group is GroupNotFound |
| FileSharingService.ShareFileToUser | backend/src/main/java/isel/leic/service/FileSharingService.java:43-67 | UserNotFound for either account (the sharer first), DuplicateResource for an existing share either way round, nothing changed; else one grant appended |
| FileSharingService.ShareThenDuplicate | backend/src/main/java/isel/leic/service/FileSharingService.java:43-67 | after a share, the same share again, either way round, is DuplicateResource |
| FileSharingService.FanOut | backend/src/main/java/isel/leic/service/FileSharingService.java:70-95 | one grant per member, in member order, for the file, with consecutive ids |
| FileSharingService.ShareFileToGroup | backend/src/main/java/isel/leic/service/FileSharingService.java:70-95 | GroupNotFound, then MembersNotFound when no member has an account, each with nothing changed; otherwise the fan-out over the members is appended |
| FileSharingService.BuildGrants | backend/src/main/java/isel/leic/service/FileSharingService.java:84-93 | the loop builds exactly the fan-out of the member list |
| FileSharingService.AppendGrants | backend/src/main/java/isel/leic/service/FileSharingService.java:84-93 | persist appends the grants with generated ids and keeps ids unique |
| FileSharingService.AppendGrantsValid | backend/src/main/java/isel/leic/service/FileSharingService.java:84-93 | grants numbered on from the generator keep ids unique and below it |
| FileSharingService.UnshareFile | backend/src/main/java/isel/leic/service/FileSharingService.java:98-111 | an unknown id is FileSharingNotFound with nothing changed; otherwise exactly that grant is deleted |
| FileSharingService.Counterpart | backend/src/main/java/isel/leic/service/FileSharingService.java:114-168 | the other party's name when that account exists, else None |
| FileSharingService.RowsOf | backend/src/main/java/isel/leic/service/FileSharingService.java:124-136 | one row per listed object, each with the grant and the counterpart |
| FileSharingService.JoinRows | backend/src/main/java/isel/leic/service/FileSharingService.java:114-184 | the listing over the grants in grant order; on success the rows are the grants' rows concatenated |
| FileSharingService.JoinRowsFails | backend/src/main/java/isel/leic/service/FileSharingService.java:171-184 | a listing fails exactly when some grant's sharer bucket is missing |
| FileSharingService.JoinRowsSound | backend/src/main/java/isel/leic/service/FileSharingService.java:114-184 | every row comes from one of the grants and an object in the sharer's bucket under the granted name |
| FileSharingService.JoinRowsComplete | backend/src/main/java/isel/leic/service/FileSharingService.java:114-184 | every object a grant covers appears beside that grant |
| FileSharingService.CollectRows | backend/src/main/java/isel/leic/service/FileSharingService.java:118-139 | the nested loops compute exactly JoinRows of the selected grants |
| FileSharingService.AppendRows | backend/src/main/java/isel/leic/service/FileSharingService.java:124-136 | the inner loop appends exactly the rows of one grant |
| FileSharingService.GetFilesSharedByUser | backend/src/main/java/isel/leic/service/FileSharingService.java:114-140 | UserNotFound for an unknown user; otherwise the listing over exactly the grants the user made, empty when there are none |
| FileSharingService.GetFilesSharedToUser | backend/src/main/java/isel/leic/service/FileSharingService.java:142-168 | UserNotFound for an unknown user; otherwise the listing over exactly the grants the user received, empty when there are none |
| FileSharingService.IsFileSharedWithUser | backend/src/main/java/isel/leic/service/FileSharingService.java:187-198 | false exactly when a grant of the file from that owner to that user exists (the inverted value the code returns) |
| ObjectStore.Lookup | backend/src/main/java/isel/leic/service/MinioService.java:263-269 | the object under the key, and None exactly when no object has it |
| ObjectStore.PutSpec | backend/src/main/java/isel/leic/service/MinioService.java:129-139 | a put keeps the bucket sorted and replaces exactly the object under its key |
| ObjectStore.LookupPut | backend/src/main/java/isel/leic/service/MinioService.java:129-139 | after a put the key finds the new object and other keys what they found |
| ObjectStore.LookupRemove | backend/src/main/java/isel/leic/service/MinioService.java:301-310 | after a removal the key finds nothing and other keys what they found |
| ObjectStore.LookupSorted | backend/src/main/java/isel/leic/service/MinioService.java:263-269 | a sorted bucket holds at most one object per key |
| ObjectStore.Take | backend/src/main/java/isel/leic/service/MinioService.java:115-127 | the first n elements, or all when there are fewer |
| ObjectStore.Matching | backend/src/main/java/isel/leic/service/MinioService.java:115-127 | exactly the objects whose key starts with the prefix, in key order |
| ObjectStore.MatchingDelimited | backend/src/main/java/isel/leic/service/MinioService.java:115-127 | the matching objects with no delimiter after the prefix |
| ObjectStore.Page | backend/src/main/java/isel/leic/service/MinioService.java:115-127 | an undelimited listing is the first MaxKeys matching objects |
| ObjectStore.DelimitedPage | backend/src/main/java/isel/leic/service/MinioService.java:115-127 | a delimited listing is the first MaxKeys direct contents |
| ObjectStore.ListObjects | backend/src/main/java/isel/leic/service/MinioService.java:115-127 | NoSuchBucket for a missing bucket; a null prefix matches every key and a null delimiter lists flat |
| ObjectStore.ListAllSmall | backend/src/main/java/isel/leic/service/MinioService.java:92 | an unfiltered listing of at most MaxKeys objects is the whole bucket |
| ObjectStore.ListAllLarge | backend/src/main/java/isel/leic/service/MinioService.java:92 | an unfiltered listing of a larger bucket is exactly its first MaxKeys objects |
| ObjectStore.CreateBucket | backend/src/main/java/isel/leic/service/MinioService.java:50-58 | a free name gets a new empty bucket; a taken one is BucketAlreadyExists |
| ObjectStore.DeleteBucket | backend/src/main/java/isel/leic/service/MinioService.java:106-113 | only an existing empty bucket is removed; otherwise NoSuchBucket or BucketNotEmpty |
| ObjectStore.PutObject | backend/src/main/java/isel/leic/service/MinioService.java:129-139 | stores into an existing bucket only, replacing any object under the key |
| ObjectStore.GetObject | backend/src/main/java/isel/leic/service/MinioService.java:263-269 | the object, or NoSuchBucket or NoSuchKey |
| ObjectStore.CopyObject | backend/src/main/java/isel/leic/service/MinioService.java:356-372 | the copy keeps content and content type; a copy onto itself is refused |
| ObjectStore.DeleteObject | backend/src/main/java/isel/leic/service/MinioService.java:301-310 | removes the key; a missing key succeeds and changes nothing |
| Multipart.Create | backend/src/main/java/isel/leic/service/MinioService.java:180-194 | a new upload with no parts for an existing bucket; NoSuchBucket otherwise |
| Multipart.Find | backend/src/main/java/isel/leic/service/MinioService.java:196-226 | the upload exactly when the id is open for that bucket and key |
| Multipart.UploadPart | backend/src/main/java/isel/leic/service/MinioService.java:196-212 | stores or replaces exactly part n of that upload; NoSuchUpload or InvalidArgument otherwise |
| Multipart.PartsFrom | backend/src/main/java/isel/leic/service/MinioService.java:229-236 | the parts numbered from n, ascending, all of them |
| Multipart.ListParts | backend/src/main/java/isel/leic/service/MinioService.java:229-236 | at most MaxParts parts of the upload, ascending, all of them when they fit; NoSuchUpload otherwise |
| Multipart.Complete | backend/src/main/java/isel/leic/service/MinioService.java:248-254 | with an ascending non-empty manifest of uploaded parts, each but the last at least 5 MiB, stores the assembled object and forgets the upload; else the matching failure, EntityTooSmall for a small part |
| Multipart.SmallPartRefused | backend/src/main/java/isel/leic/service/MinioService.java:248-254 | example: two one-byte parts are refused with EntityTooSmall |
| Multipart.Abort | backend/src/main/java/isel/leic/service/MinioService.java:213-226 | forgets exactly that upload, or NoSuchUpload |
| Backend.StorageBackend.constructor | backend/src/main/java/isel/leic/service/MinioService.java:44-58 | the client starts with no buckets and no uploads |
| MinioService.CreateBucket | backend/src/main/java/isel/leic/service/MinioService.java:50-58 | a free name gets an empty bucket and the success message; a taken one fails with nothing changed |
| MinioService.DescribeAll | backend/src/main/java/isel/leic/service/MinioService.java:124-126 | one entry per object, in order, with its key and size |
| MinioService.ListObjects | backend/src/main/java/isel/leic/service/MinioService.java:115-127 | the entries of one page of the bucket's objects under the prefix |
| MinioService.WithoutLeadingKeys | backend/src/main/java/isel/leic/service/MinioService.java:94-96 | deleting the keys of a sorted bucket's first n objects leaves the rest |
| MinioService.PageOfAll | backend/src/main/java/isel/leic/service/MinioService.java:92 | an unfiltered page is the bucket's first MaxKeys objects |
| MinioService.FirstPassLeaves | backend/src/main/java/isel/leic/service/MinioService.java:92-96 | one pass of deleteBucket's loop leaves exactly the objects after the first MaxKeys |
| MinioService.LargeBucketSurvivesDeletion | backend/src/main/java/isel/leic/service/MinioService.java:90-104 | a bucket of more than MaxKeys objects is not empty after the loop, so deleteBucket fails |
| MinioService.DeleteListed | backend/src/main/java/isel/leic/service/MinioService.java:94-96 | the loop deletes exactly the listed keys |
| MinioService.DeleteBucketWithoutObjects | backend/src/main/java/isel/leic/service/MinioService.java:106-113 | the store's bucket deletion plus the success message |
| MinioService.DeleteBucket | backend/src/main/java/isel/leic/service/MinioService.java:90-104 | a bucket of at most MaxKeys objects is removed with the message; a larger one fails BucketNotEmpty keeping its objects after the first MaxKeys |
| MinioService.DeleteBucketDrained | backend/src/main/java/isel/leic/service/MinioService.java:90-104 | listing until empty removes every existing bucket whatever its size |
| MinioService.UploadObject | backend/src/main/java/isel/leic/service/MinioService.java:129-139 | stores the bytes under the file name with the mimetype, and returns the success message |
| MinioService.CreateEmptyFolder | backend/src/main/java/isel/leic/service/MinioService.java:60-88 | a folder name shorter than 3 characters fails the temporary file; otherwise an empty directory object is stored |
| MinioService.CreateEmptyFolderDirect | backend/src/main/java/isel/leic/service/MinioService.java:60-88 | without the temporary file every folder name gets its empty directory object |
| MinioService.DeleteObject | backend/src/main/java/isel/leic/service/MinioService.java:301-310 | the key is gone afterwards, a missing key included, and nothing else changes |
| MinioService.CopyStream | backend/src/main/java/isel/leic/service/MinioService.java:270-277 | the buffered loop copies exactly the object's bytes |
| MinioService.DownloadObject | backend/src/main/java/isel/leic/service/MinioService.java:263-278 | the object's bytes, or the store's failure |
| MinioService.DownloadObjectAsStream | backend/src/main/java/isel/leic/service/MinioService.java:280-299 | a missing object fails when the stream is made; the stream writes the object's bytes |
| MinioService.DoesObjectExist | backend/src/main/java/isel/leic/service/MinioService.java:374-394 | true for a present object; a missing key escapes as NoSuchKey and never gives false |
| MinioService.ObjectExists | backend/src/main/java/isel/leic/service/MinioService.java:374-394 | true exactly when the object is present and false exactly when it is missing |
| MinioService.LookupMoveKey | backend/src/main/java/isel/leic/service/MinioService.java:356-372 | after a move the target holds the object, the source nothing, and other keys are unchanged |
| MinioService.RenameFile | backend/src/main/java/isel/leic/service/MinioService.java:356-372 | copy then delete: the object moves to the new key; a copy onto the same key is InvalidRequest; a failed copy changes nothing and is wrapped |
| MinioService.Retargeted | backend/src/main/java/isel/leic/service/MinioService.java:341-347 | exactly the owner's grants of the old name now name the new one; the rest are unchanged |
| MinioService.RetargetGrants | backend/src/main/java/isel/leic/service/MinioService.java:341-347 | the loop renames those grants in place, keeping ids unique |
| MinioService.RenameObject | backend/src/main/java/isel/leic/service/MinioService.java:313-354 | moves the object and, for a folder, each key the listing under it returns; then retargets the owner's grants; an existing object renamed to its own key is refused, and every refusal leaves the store and the grants unchanged |
| MinioService.MoveMembers | backend/src/main/java/isel/leic/service/MinioService.java:335-339 | each listed key is moved to its rewritten key in turn |
| MinioService.FolderListing | backend/src/main/java/isel/leic/service/MinioService.java:329-333 | each listed key is present, lies under the folder, and is listed once |
| MinioService.MemberTargetDiffers | backend/src/main/java/isel/leic/service/MinioService.java:337 | a member key moves to a different key when the folder's name changes |
| MinioService.StartMultipartUpload | backend/src/main/java/isel/leic/service/MinioService.java:180-194 | a fresh upload id for an existing bucket; NoSuchBucket wrapped otherwise |
| MinioService.UploadPart | backend/src/main/java/isel/leic/service/MinioService.java:196-212 | stores the part and returns its ETag, or the wrapped failure with nothing changed |
| MinioService.AbortMultipartUpload | backend/src/main/java/isel/leic/service/MinioService.java:213-226 | forgets exactly that upload, or the wrapped NoSuchUpload |
| MinioService.Manifest | backend/src/main/java/isel/leic/service/MinioService.java:238-243 | one entry per listed part, with its number and ETag, in order |
| MinioService.ManifestAccepted | backend/src/main/java/isel/leic/service/MinioService.java:229-254 | the manifest built from a listing is ascending and names uploaded parts, passes the size check exactly when the listed parts do, and assembles them in listing order |
| MinioService.CompleteMultipartUpload | backend/src/main/java/isel/leic/service/MinioService.java:227-260 | lists the parts and completes the upload with exactly those parts, succeeding exactly when the upload is open with a part, its bucket exists and every listed part but the last is at least 5 MiB; else the wrapped failure with nothing changed |
| MinioService.CompleteListed | backend/src/main/java/isel/leic/service/MinioService.java:227-260 | completing with the upload's own listing succeeds exactly when it has a part, its bucket exists and every listed part but the last is at least 5 MiB |
| MinioService.OutOfOrderParts | backend/src/main/java/isel/leic/service/MinioService.java:227-260 | example: parts uploaded as 2, 1, 3, the first two of at least 5 MiB, are assembled in part-number order |
| MinioService.ListedNonEmpty | backend/src/main/java/isel/leic/service/MinioService.java:229-236 | an upload with a part lists at least one part |
| Persistence.Database.constructor | backend/src/main/java/isel/leic/service/UserService.java:77-85 | the tables start empty and the invariant holds |
| Persistence.Database.SetUsers | backend/src/main/java/isel/leic/service/UserService.java:60-74 | the user table is written back, keeping ids unique and below the generator |
| Persistence.Database.SetGroups | backend/src/main/java/isel/leic/service/GroupService.java:65-81 | the group table is written back, keeping ids unique and below the generator |
| Persistence.Database.AddGroup | backend/src/main/java/isel/leic/service/GroupService.java:42-62 | persist appends the group under the next id and advances the generator |
| Persistence.Database.SetGrant | backend/src/main/java/isel/leic/service/MinioService.java:343-346 | one grant row is written back in place under its own id |
| UsernamePattern.ClassRun | backend/src/main/java/isel/leic/resource/AuthenticationResource.java:29 | the longest prefix made of letters, digits and '-' |
| UsernamePattern.Matches | backend/src/main/java/isel/leic/resource/AuthenticationResource.java:96-98 | the anchored match: every character is in the class and the length is 3 to 20 |
| UsernamePattern.MatchesNeedsNoEscape | backend/src/main/java/isel/leic/resource/AuthenticationResource.java:96-102 | an accepted name holds no quote and no backslash, so splicing it into JSON text needs no escape |
| AuthenticationResource.UserAndTokenJson | backend/src/main/java/isel/leic/resource/AuthenticationResource.java:100-102 | the fixed token prefix, then the token, then the id and name, spliced in unescaped |
| AuthenticationResource.TokenRoundTrip | backend/src/main/java/isel/leic/resource/AuthenticationResource.java:100-102 | a client reads back the token intact when it holds no quote |
| AuthenticationResource.Signup | backend/src/main/java/isel/leic/resource/AuthenticationResource.java:63-77 | a refused name is 400 with nothing changed; a taken name escapes as DuplicateResource; otherwise the account, its bucket and the token answer |
| AuthenticationResource.ProvisionBucket | backend/src/main/java/isel/leic/resource/AuthenticationResource.java:73-76 | the new account's bucket is created with the suffix, then the answer is 200 |
| AuthenticationResource.Login | backend/src/main/java/isel/leic/resource/AuthenticationResource.java:46-57 | a token answer exactly when the name and password authenticate; the failure escapes otherwise |
| AuthenticationResource.RefreshToken | backend/src/main/java/isel/leic/resource/AuthenticationResource.java:82-88 | a token for the parsed principal; a non-numeric principal escapes as IllegalArgument |
| UserResource.GetUserById | backend/src/main/java/isel/leic/resource/UserResource.java:50-59 | the account with that id as 200, or 404 with the text "User not found" exactly when no account has that id |
| UserResource.SearchUsers | backend/src/main/java/isel/leic/resource/UserResource.java:77-86 | 200 with the accounts whose name matches prefix + "%" as a LIKE pattern, empty when there are none; for a prefix without `_` or `%`, exactly the accounts whose name starts with it |
| UserResource.UpdateUserPassword | backend/src/main/java/isel/leic/resource/UserResource.java:63-73 | Forbidden for anyone but the account; otherwise the service's update |
| UserResource.DeleteUser | backend/src/main/java/isel/leic/resource/UserResource.java:91-108 | Forbidden, then UserNotFound before anything changes; otherwise the row goes and then the bucket |
| UserResource.DropBucket | backend/src/main/java/isel/leic/resource/UserResource.java:99-107 | 200 when the bucket deletion's message starts with the success text; a failure escapes |
| UserResource.DeletedMessagePasses | backend/src/main/java/isel/leic/resource/UserResource.java:101 | the deletion's success message passes the test, so the 500 branch is never taken |
| GroupResource.GetGroups | backend/src/main/java/isel/leic/resource/GroupResource.java:31-39 | Forbidden for another principal; otherwise the groups the user created |
| GroupResource.CreateGroup | backend/src/main/java/isel/leic/resource/GroupResource.java:43-52 | Forbidden for another principal; otherwise the service's createGroup with the body as the name |
| GroupResource.UpdateGroupName | backend/src/main/java/isel/leic/resource/GroupResource.java:57-68 | only the path user is checked; then the service's rename as written |
| GroupResource.DeleteGroup | backend/src/main/java/isel/leic/resource/GroupResource.java:73-82 | only the path user is checked; then the group is removed, whoever created it |
| GroupResource.AddUserToGroup | backend/src/main/java/isel/leic/resource/GroupResource.java:87-98 | the body's account joins the path's group after the path user is checked |
| GroupResource.GetGroupMembers | backend/src/main/java/isel/leic/resource/GroupResource.java:103-113 | Forbidden for another principal, GroupNotFound for an unknown group; otherwise accounts that are members of the group |
| GroupResource.RemoveMemberFromGroup | backend/src/main/java/isel/leic/resource/GroupResource.java:118-128 | the path's member leaves the path's group after the check |
| FileSharingResource.GetFilesSharedByUser | backend/src/main/java/isel/leic/resource/FileSharingResource.java:31-43 | Forbidden for another principal; otherwise the rows of the grants the user made |
| FileSharingResource.GetFilesSharedToUser | backend/src/main/java/isel/leic/resource/FileSharingResource.java:48-58 | Forbidden for another principal; otherwise the rows of the grants the user received |
| FileSharingResource.ShareFiles | backend/src/main/java/isel/leic/resource/FileSharingResource.java:62-83 | a USER request shares with that account; any other request shares with the group's members |
| FileSharingResource.GroupGrantsGoToMembers | backend/src/main/java/isel/leic/resource/FileSharingResource.java:62-83 | a group share grants the file only to members of that group |
| FileSharingResource.DeleteFileShare | backend/src/main/java/isel/leic/resource/FileSharingResource.java:87-99 | only the path user is checked, so any grant id can be removed by an authenticated user |
| MinioResource.UserBucket | backend/src/main/java/isel/leic/resource/MinioResource.java:249 | a bucket name is the id's decimal text followed by the suffix |
| MinioResource.UserBucketInjective | backend/src/main/java/isel/leic/resource/MinioResource.java:249 | distinct accounts have distinct buckets |
| MinioResource.PrincipalBucket | backend/src/main/java/isel/leic/resource/MinioResource.java:413-415 | once authorized, the principal's bucket is the path user's bucket |
| MinioResource.ListFiles | backend/src/main/java/isel/leic/resource/MinioResource.java:36-46 | Forbidden for another principal; otherwise the listing of the user's bucket |
| MinioResource.DeleteFile | backend/src/main/java/isel/leic/resource/MinioResource.java:50-72 | every failure, the refusal included, answers 500; 200 only for the success message |
| MinioResource.DeleteFileServed | backend/src/main/java/isel/leic/resource/MinioResource.java:50-72 | with the service's answers, deleteFile succeeds exactly for the owner of an existing bucket |
| MinioResource.RenameFile | backend/src/main/java/isel/leic/resource/MinioResource.java:76-94 | 200 when authorized and the rename returns; 500 otherwise |
| MinioResource.UploadFilePresign | backend/src/main/java/isel/leic/resource/MinioResource.java:103-128 | the URL for the user's bucket; a refusal, a null URL or a failure answers 500 |
| MinioResource.DownloadFilePresign | backend/src/main/java/isel/leic/resource/MinioResource.java:137-167 | a refusal is 403 with no sharing fallback; past the check, the URL or 500 |
| MinioResource.PresignRefusesOwner | backend/src/main/java/isel/leic/resource/MinioResource.java:137-167 | the owner without a grant to itself is refused its own download link |
| MinioResource.DownloadFilePresignGated | backend/src/main/java/isel/leic/resource/MinioResource.java:137-167 | with the download gate, the owner and the grantees get the link |
| MinioResource.GatedPresignServesOwner | backend/src/main/java/isel/leic/resource/MinioResource.java:137-167 | with the gate the owner always gets the link the presigner gives |
| MinioResource.CreateEmptyFolder | backend/src/main/java/isel/leic/resource/MinioResource.java:173-196 | a refusal escapes as Forbidden; 201 only for the success message, 500 otherwise |
| MinioResource.UploadFile | backend/src/main/java/isel/leic/resource/MinioResource.java:200-222 | 201 when the service's message starts with the upload text; 500 otherwise |
| MinioResource.DownloadGate | backend/src/main/java/isel/leic/resource/MinioResource.java:236-247 | the path user passes; another principal is parsed and refused when the inverted share test is true |
| MinioResource.GatePassesOwnerOrGrantee | backend/src/main/java/isel/leic/resource/MinioResource.java:236-247 | the two inversions cancel: another account passes exactly when the path user shared the key with it |
| MinioResource.GateDeniesWithoutGrant | backend/src/main/java/isel/leic/resource/MinioResource.java:236-247 | a numeric principal other than the path user is refused exactly when no grant exists |
| MinioResource.DownloadFile | backend/src/main/java/isel/leic/resource/MinioResource.java:229-265 | past the gate, the object's bytes; an empty object is 404; a missing object or any other storage failure is 500 |
| MinioResource.DownloadFileAsStream | backend/src/main/java/isel/leic/resource/MinioResource.java:271-307 | the same gate; every fetched object, an empty one included, is streamed; a missing object or any other storage failure is 500 |
| MinioResource.EmptyObjectNotFound | backend/src/main/java/isel/leic/resource/MinioResource.java:229-307 | a zero-byte object is not found for downloadFile but streamed by downloadFileAsStream |
| MinioResource.Caught | backend/src/main/java/isel/leic/resource/MinioResource.java:313-402 | 200 only when authorized and the call succeeds; otherwise 500 with no entity |
| MinioResource.StartMultipartUpload | backend/src/main/java/isel/leic/resource/MinioResource.java:313-330 | 200 with the upload id exactly when authorized and the start succeeds |
| MinioResource.UploadPart | backend/src/main/java/isel/leic/resource/MinioResource.java:336-355 | 200 with the part number and ETag exactly when authorized and the upload succeeds |
| MinioResource.CompleteMultipartUpload | backend/src/main/java/isel/leic/resource/MinioResource.java:361-378 | 200 exactly when authorized and the completion succeeds |
| MinioResource.AbortMultipartUpload | backend/src/main/java/isel/leic/resource/MinioResource.java:385-402 | 200 exactly when authorized and the abort succeeds |
| FileUtils.Split | frontend/src/utils/fileUtils.ts:1-48 | split with one separator: at least one piece, the last free of the separator and ending the string |
| FileUtils.SplitPiecesFree | frontend/src/utils/fileUtils.ts:1-48 | no piece holds the separator |
| FileUtils.JoinSplit | frontend/src/utils/fileUtils.ts:1-48 | joining the pieces with the separator gives the string back |
| FileUtils.Pop | frontend/src/utils/fileUtils.ts:1-48 | `split('.').pop()` is the text after the last separator, or the whole string |
| FileUtils.PopAfterLast | frontend/src/utils/fileUtils.ts:1-48 | the last piece of `p + c + e`, with no c in e, is e |
| FileUtils.PopWhole | frontend/src/utils/fileUtils.ts:1-48 | without a separator the last piece is the whole string |
| FileUtils.GetFileType | frontend/src/utils/fileUtils.ts:1-48 | the label of the case-sensitive extension; an unknown one is "Folder" |
| FileUtils.GetFileIcon | frontend/src/utils/fileUtils.ts:51-91 | the icon of the lower-cased extension; the folder icon by default |
| FileUtils.FolderKeyIsFolder | frontend/src/utils/fileUtils.ts:1-48 | a key ending in '/' is shown as a folder |
| FileUtils.NamedWithExtension | frontend/src/utils/fileUtils.ts:1-91 | the type and icon of a dotted name are those of what follows the last dot |
| FileUtils.UpperCaseExtension | frontend/src/utils/fileUtils.ts:1-91 | "PDF" is typed as a folder but gets the PDF icon |
| FileUtils.MediaHasFolderIcon | frontend/src/utils/fileUtils.ts:1-91 | audio and video have a type label but the folder icon |
| FileUtils.ImageLabels | frontend/src/utils/fileUtils.ts:1-48 | jpg, jpeg and png share one label, and gif has its own |
| FileUtils.TrimTrailingSlashes | frontend/src/utils/fileUtils.ts:107 | the run of '/' at the end is removed and the rest kept |
| FileUtils.ExtractFolderName | frontend/src/utils/fileUtils.ts:105-116 | the last segment once trailing slashes are gone, never holding a '/' |
| FileUtils.FolderNameOfDirectory | frontend/src/utils/fileUtils.ts:105-116 | example: "a/b/" gives "b" |
| FileUtils.FolderNameOfFile | frontend/src/utils/fileUtils.ts:105-116 | example: a name without '/' is its own folder name |
| DirectoryNavigation.CollapseBeforeSlash | frontend/src/components/File/DirectoryNavigationBar.tsx:27 | white space before a final '/' is removed; text without a final '/' is kept |
| DirectoryNavigation.AppendSlash | frontend/src/components/File/DirectoryNavigationBar.tsx:30-32 | a '/' is added exactly when the text does not end in one |
| DirectoryNavigation.EnteredDir | frontend/src/components/File/DirectoryNavigationBar.tsx:17-38 | the bare mark gives the root; anything else gives a settled directory: ending in '/', with no white space at its start or right before that '/' |
| DirectoryNavigation.PressEnter | frontend/src/components/File/DirectoryNavigationBar.tsx:17-38 | the box shows the mark and the entered directory, which becomes current |
| DirectoryNavigation.EnterIsStable | frontend/src/components/File/DirectoryNavigationBar.tsx:17-38 | Enter on what Enter put in the box stays in the same directory |
| DirectoryNavigation.EnterSettled | frontend/src/components/File/DirectoryNavigationBar.tsx:17-38 | Enter on the mark and a settled directory moves to that directory |
| DirectoryNavigation.LastIndexOf | frontend/src/components/File/DirectoryNavigationBar.tsx:42-47 | the position of the last occurrence, and None exactly when there is none |
| DirectoryNavigation.BackInput | frontend/src/components/File/DirectoryNavigationBar.tsx:40-48 | the text up to the last '/' before the final character, ending in '/' |
| DirectoryNavigation.PressBack | frontend/src/components/File/DirectoryNavigationBar.tsx:40-51 | the reverse scan finds the last '/', and the directory is the box without the mark |
| DirectoryNavigation.BackToParent | frontend/src/components/File/DirectoryNavigationBar.tsx:40-51 | from a directory one level below a parent, the back arrow goes to the parent |
| DirectoryNavigation.BackFromNested | frontend/src/components/File/DirectoryNavigationBar.tsx:40-51 | example: from ":/a/b/" the back arrow goes to "a/" |
| DirectoryNavigation.BackFromTopLevel | frontend/src/components/File/DirectoryNavigationBar.tsx:40-51 | example: from ":/a/" the back arrow goes to the root |
| DirectoryNavigation.BackFromRoot | frontend/src/components/File/DirectoryNavigationBar.tsx:40-51 | example: from the root the back arrow stays at the root |
| Home.ShowsInDirectory | frontend/src/pages/Home.tsx:69-84 | the scan keeps a key exactly when it lies strictly below the directory and has no character after a '/' |
| Home.FilterFiles | frontend/src/pages/Home.tsx:67-88 | the loop computes exactly the listed entries, in order |
| Home.ChildIsListed | frontend/src/pages/Home.tsx:69-84 | a file of the directory and a subfolder with its '/' are shown |
| Home.GrandchildIsHidden | frontend/src/pages/Home.tsx:69-84 | what is inside a subfolder is not shown |
| Home.ListingExamples | frontend/src/pages/Home.tsx:69-84 | example: at the root "sub/" and "f.txt" are shown and "sub/x" is not |
| Home.DoubleClick | frontend/src/pages/Home.tsx:97-106 | a folder becomes current and the box shows it; the selection is cleared either way |
| Home.OpenThenBack | frontend/src/pages/Home.tsx:97-106 | opening a listed subfolder and pressing back returns to the directory it was listed in |
| AuthenticationPage.HandleRegister | frontend/src/pages/Authentication.tsx:16-36 | the name check first, then the length-5 password check; only a form passing both is sent |
| AuthenticationPage.HandleLogin | frontend/src/pages/Authentication.tsx:38-53 | the form is sent unchecked |
| AuthenticationPage.RegisterPassesServer | frontend/src/pages/Authentication.tsx:8 | a name the page sends passes the server's pattern, so its 400 is not reached |
| AuthenticationPage.LoginSkipsValidation | frontend/src/pages/Authentication.tsx:38-53 | login sends names that registration would refuse |

## Left out

- Listing buckets (`listBuckets`) and `getUsers` / `findAll`: a plain read with nothing to state beyond the table.
- `findBySharedToGroupId`: no core operation calls it.
- Null fields of request bodies: a null fails deep inside the framework; the model takes present values, except where the services test for null (those failures are modelled).
- Password hashing, token signing, URL presigning, ETags and upload ids: cryptography and randomness. They are parameters, or come from a counter.
- Logging, the clock and the network.
- Concurrency: requests are modelled one at a time, so no two requests interleave.
- Not atomic: sign-up creates the account before the bucket, and deleting a user removes the row before the bucket. A failure between the two steps is modelled as an escaping failure, but there is no rollback.
- removeGroup deletes only the group row, so its membership rows stay. No cascade appears in the code.
- JSON-P escaping in the refresh-token answer and the entity serialisation (Jackson): the answers are modelled as values, not text.
- `formatFileSize`: floating-point formatting.
- Single-click selection and placement geometry on the home page: layout.
- `renameObject` rewrites member keys with `replaceFirst(objectKey, newObjectKey)`, which reads the old key as a regular expression and the new key as a replacement template, where `$` names a group and `\` escapes the next character. The model replaces the literal first occurrence with the literal new key, which agrees whenever the old key has no regex metacharacters and the new key has no `$` or `\`. Otherwise Java differs: renaming "f/" to "a$1/" throws "No group 1", and renaming it to "a\b/" drops the backslash.
- FileUtils.GetFileIcon: lower-cases with `LowerAscii`, the Latin letters only; JavaScript's `toLowerCase` covers the whole of Unicode.
- JavaScript string lengths count UTF-16 code units, and Java's too; the model counts characters.
- ObjectStore.ListObjects: returns one page of at most MaxKeys = 1000 objects, and the code never asks for a second page. The common prefixes of a delimited listing are not kept, since no caller reads them.
- Multipart.ListParts: returns at most 1000 parts, as one ListParts call does; the code makes no second call.
- Multipart.Complete: when a manifest has several faults, the model reports the first in this order: no upload, an empty manifest, a part out of order, a part not uploaded, a part under 5 MiB. A store that checks part by part may name another of them. completeMultipartUpload wraps every one of them in the same RuntimeException, so the answer does not change.
- UserRepository.FindByUsernamePrefix: the LIKE pattern is read without an escape character. Databases whose LIKE escapes with `\` by default (PostgreSQL, H2, MySQL) also treat a `\` in the prefix as quoting the next character. The database this backend runs on is not part of this model.
- MinioResource: the plain-text entities of its 403, 404 and 500 answers ("User '<id>' is not authorized to access this resource", "File not found", "Error occurred while ...") are not modelled. Its members answer the status only.
- The upload resources (deleteFile, renameFile, uploadFile and the multipart endpoints) call `authorize` inside `catch (Exception)`. A refusal there is 500, not 403, and the model states that.

## Findings

| source | as written | input that shows it | evidently intended | confidence | as-written member | corrected member |
|---|---|---|---|---|---|---|
| backend/src/main/java/isel/leic/service/MinioService.java:90-104 | deleteBucket deletes the keys of one listing, which holds at most 1000 objects, then deletes the bucket | a bucket of 1001 objects: one object stays and the bucket deletion fails BucketNotEmpty | every object is deleted, then the bucket | not executed | MinioService.LargeBucketSurvivesDeletion | MinioService.DeleteBucketDrained |
| backend/src/main/java/isel/leic/service/MinioService.java:374-394 | doesObjectExist catches CompletionException to detect NoSuchKey, but the client is synchronous and throws NoSuchKeyException directly | any missing key: the call throws instead of returning false | false for a missing key | not executed | MinioService.DoesObjectExist | MinioService.ObjectExists |
| backend/src/main/java/isel/leic/service/MinioService.java:60-88 | createEmptyFolder first makes a temporary file prefixed by the folder name; File.createTempFile refuses prefixes shorter than 3 characters | folder name "ab": IllegalArgumentException, answered 500 | any folder name is created | not executed | MinioService.CreateEmptyFolder | MinioService.CreateEmptyFolderDirect |
| backend/src/main/java/isel/leic/resource/MinioResource.java:137-167 | downloadFilePresign answers 403 for a principal who is not the path user's id, and otherwise answers only when the inverted share test passes, so the owner needs a grant to itself | the owner of a file with no self-grant is refused its own link | the same gate as downloadFile: the owner and the grantees get the link | not executed | MinioResource.PresignRefusesOwner | MinioResource.GatedPresignServesOwner |
| backend/src/main/java/isel/leic/service/GroupService.java:65-81 | updateGroupName renames without the duplicate-name check that createGroup makes | two groups "a" and "b" of one creator, "b" renamed to "a": every later existence check on ("a") fails NonUniqueResult | a rename to a name in use is IllegalArgument, as in createGroup | not executed | GroupService.RenameCollides | GroupService.UpdateGroupNameChecked |
