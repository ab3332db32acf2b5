/**
 * UserService: accounts, their passwords and the groups they created.
 * Password hashing and verification are parameters: the hash an operation
 * stores is handed in, and the check of a password against a stored hash is
 * a predicate supplied by the caller.
 */
module UserService {
  import opened Wrappers
  import opened Failures
  import opened Entities
  import Seqs
  import Persistence
  import UserRepository
  import GroupRepository

  /** No two accounts share a user name (the rule createUser enforces). */
  predicate UniqueUsernames(users: seq<User>) {
    forall i, j :: 0 <= i < j < |users| ==> users[i].username != users[j].username
  }

  /** existsById: some row has that primary key. */
  function ExistsById(users: seq<User>, id: int): (r: bool)
    ensures r <==> exists u :: u in users && u.id == id
  {
    UserRepository.FindById(users, id).Some?
  }

  /** The table after `user.setPassword(hash)` on the row with that id. */
  function WithPassword(users: seq<User>, userId: int, hash: string): (r: seq<User>)
    ensures |r| == |users|
    ensures forall i :: 0 <= i < |r| ==> r[i].id == users[i].id && r[i].username == users[i].username
    ensures forall i :: 0 <= i < |r| ==> r[i].password == if users[i].id == userId then hash else users[i].password
  {
    seq(|users|, i requires 0 <= i < |users| => if users[i].id == userId then users[i].(password := hash) else users[i])
  }

  /** After the update the id finds the account with the new hash; other ids find what they found. */
  lemma {:induction false} FindWithPassword(users: seq<User>, userId: int, hash: string, id: int)
    ensures UserRepository.FindById(WithPassword(users, userId, hash), id) ==
      match UserRepository.FindById(users, id)
      case None => None
      case Some(u) => if id == userId then Some(u.(password := hash)) else Some(u)
  {
    if users != [] {
      assert WithPassword(users, userId, hash)[1..] == WithPassword(users[1..], userId, hash);
      FindWithPassword(users[1..], userId, hash, id);
    }
  }

  /** A password change keeps every user name, so names stay unique. */
  lemma WithPasswordKeepsNames(users: seq<User>, userId: int, hash: string)
    requires UniqueUsernames(users)
    ensures UniqueUsernames(WithPassword(users, userId, hash))
  {
  }

  /**
   * updatePassword: null arguments are an IllegalArgument and an unknown id
   * UserNotFound; otherwise that account's stored hash becomes `hash`, the
   * encoding of the new password.
   */
  method UpdatePassword(db: Persistence.Database, userId: Option<int>, password: Option<string>, hash: string)
    returns (r: Result<User>)
    requires db.Valid()
    modifies db`users
    ensures db.Valid()
    ensures userId.None? || password.None? ==> r == Err(IllegalArgument)
    ensures userId.Some? && password.Some? && UserRepository.FindById(old(db.users), userId.value).None? ==>
      r == Err(UserNotFound)
    ensures r.Ok? <==> userId.Some? && password.Some? && UserRepository.FindById(old(db.users), userId.value).Some?
    ensures r.Ok? ==> (r.value == UserRepository.FindById(old(db.users), userId.value).value.(password := hash)
                       && db.users == WithPassword(old(db.users), userId.value, hash))
    ensures r.Err? ==> db.users == old(db.users)
  {
    if userId.None? || password.None? {
      r := Err(IllegalArgument);
    } else {
      var user := UserRepository.FindById(db.users, userId.value);
      if user.None? {
        r := Err(UserNotFound);
      } else {
        WithPasswordKeepsIds(db.users, userId.value, hash, db.nextUserId);
        db.SetUsers(WithPassword(db.users, userId.value, hash));
        r := Ok(user.value.(password := hash));
      }
    }
  }

  /** A password change keeps every id, so ids stay unique and below the counter. */
  lemma WithPasswordKeepsIds(users: seq<User>, userId: int, hash: string, next: int)
    requires Persistence.UniqueUserIds(users) && forall u :: u in users ==> u.id < next
    ensures Persistence.UniqueUserIds(WithPassword(users, userId, hash))
    ensures forall u :: u in WithPassword(users, userId, hash) ==> u.id < next
  {
    var changed := WithPassword(users, userId, hash);
    forall u | u in changed ensures u.id < next {
      var i :| 0 <= i < |changed| && changed[i] == u;
      assert users[i] in users;
    }
  }

  /**
   * createUser: a user name already taken is a DuplicateResource; otherwise
   * the account is stored with the hash of its password under a fresh id.
   */
  method CreateUser(db: Persistence.Database, username: string, hash: string) returns (r: Result<User>)
    requires db.Valid()
    modifies db`users, db`nextUserId
    ensures db.Valid()
    ensures r.Err? <==> UserRepository.FindByUsername(old(db.users), username).Some?
    ensures r.Err? ==> r.error == DuplicateResource && db.users == old(db.users)
    ensures r.Ok? ==> (r.value == User(old(db.nextUserId), username, hash) && db.users == old(db.users) + [r.value])
    ensures UniqueUsernames(old(db.users)) ==> UniqueUsernames(db.users)
  {
    if UserRepository.FindByUsername(db.users, username).Some? {
      return Err(DuplicateResource);
    }
    var user := User(db.nextUserId, username, hash);
    AppendUserKeepsRules(db.users, user, db.nextUserId);
    db.users := db.users + [user];
    db.nextUserId := db.nextUserId + 1;
    r := Ok(user);
  }

  lemma AppendUserKeepsRules(users: seq<User>, user: User, next: int)
    requires Persistence.UniqueUserIds(users) && (forall u :: u in users ==> u.id < next)
    requires user.id == next && forall u :: u in users ==> u.username != user.username
    ensures Persistence.UniqueUserIds(users + [user])
    ensures forall u :: u in users + [user] ==> u.id < next + 1
    ensures UniqueUsernames(users) ==> UniqueUsernames(users + [user])
  {
    var all := users + [user];
    forall i, j | 0 <= i < j < |all| ensures all[i].id != all[j].id {
      if j == |users| {
        assert all[i] in users;
      } else {
        assert all[i] == users[i] && all[j] == users[j];
      }
    }
    if UniqueUsernames(users) {
      forall i, j | 0 <= i < j < |all| ensures all[i].username != all[j].username {
        if j == |users| {
          assert all[i] in users;
        } else {
          assert all[i] == users[i] && all[j] == users[j];
        }
      }
    }
  }

  /** A newly created account is what a lookup by its name finds, and its password checks out. */
  lemma CreatedIsFound(users: seq<User>, user: User, password: string, verify: (string, string) -> bool)
    requires UserRepository.FindByUsername(users, user.username).None?
    requires verify(password, user.password)
    ensures UserRepository.FindByUsername(users + [user], user.username) == Some(user)
    ensures Authenticate(users + [user], user.username, password, verify) == Ok(user)
  {
    FindByUsernameAppend(users, user);
  }

  lemma {:induction false} FindByUsernameAppend(users: seq<User>, user: User)
    requires UserRepository.FindByUsername(users, user.username).None?
    ensures UserRepository.FindByUsername(users + [user], user.username) == Some(user)
  {
    if users != [] {
      assert (users + [user])[1..] == users[1..] + [user];
      assert users[0] in users;
      FindByUsernameAppend(users[1..], user);
    }
  }

  /**
   * removeUser: an unknown id is UserNotFound; otherwise the account row
   * is deleted (its groups, memberships and grants stay).
   */
  method RemoveUser(db: Persistence.Database, userId: int) returns (r: Result<()>)
    requires db.Valid()
    modifies db`users
    ensures db.Valid()
    ensures r.Err? <==> UserRepository.FindById(old(db.users), userId).None?
    ensures r.Err? ==> r.error == UserNotFound && db.users == old(db.users)
    ensures r.Ok? ==> db.users == UserRepository.WithoutUser(old(db.users), userId)
    ensures UniqueUsernames(old(db.users)) ==> UniqueUsernames(db.users)
  {
    if UserRepository.FindById(db.users, userId).None? {
      return Err(UserNotFound);
    }
    WithoutUserKeepsRules(db.users, userId);
    db.users := UserRepository.WithoutUser(db.users, userId);
    r := Ok(());
  }

  /** Deleting an account keeps ids and user names unique. */
  lemma WithoutUserKeepsRules(users: seq<User>, userId: int)
    requires Persistence.UniqueUserIds(users)
    ensures Persistence.UniqueUserIds(UserRepository.WithoutUser(users, userId))
    ensures UniqueUsernames(users) ==> UniqueUsernames(UserRepository.WithoutUser(users, userId))
  {
    var p := (u: User) => u.id != userId;
    Seqs.FilterDistinctBy(users, p, (u: User) => u.id);
    if UniqueUsernames(users) {
      Seqs.FilterDistinctBy(users, p, (u: User) => u.username);
    }
  }

  /** Once an account is deleted, its user name no longer authenticates. */
  lemma RemovedCannotAuthenticate(users: seq<User>, user: User, password: string, verify: (string, string) -> bool)
    requires UniqueUsernames(users) && user in users
    ensures Authenticate(UserRepository.WithoutUser(users, user.id), user.username, password, verify) == Err(UserNotFound)
  {
    var rest := UserRepository.WithoutUser(users, user.id);
    forall u | u in rest ensures u.username != user.username {
      var i :| 0 <= i < |users| && users[i] == u;
      var k :| 0 <= k < |users| && users[k] == user;
      assert i != k;
    }
  }

  /**
   * authenticate: an unknown user name is UserNotFound and a password that
   * does not match the stored hash an IllegalArgument.
   */
  function Authenticate(users: seq<User>, username: string, password: string, verify: (string, string) -> bool)
    : (r: Result<User>)
    ensures r.Ok? <==> UserRepository.FindByUsername(users, username).Some?
                       && verify(password, UserRepository.FindByUsername(users, username).value.password)
    ensures r.Ok? ==> r.value in users && r.value.username == username && verify(password, r.value.password)
    ensures UserRepository.FindByUsername(users, username).None? ==> r == Err(UserNotFound)
    ensures r.Err? && UserRepository.FindByUsername(users, username).Some? ==> r.error == IllegalArgument
  {
    match UserRepository.FindByUsername(users, username)
    case None => Err(UserNotFound)
    case Some(user) => if verify(password, user.password) then Ok(user) else Err(IllegalArgument)
  }

  /** After a password change, the new password is the one that authenticates. */
  lemma AuthenticateAfterUpdate(users: seq<User>, user: User, password: string, hash: string, verify: (string, string) -> bool)
    requires Persistence.UniqueUserIds(users) && UniqueUsernames(users) && user in users
    requires verify(password, hash)
    ensures Authenticate(WithPassword(users, user.id, hash), user.username, password, verify) == Ok(user.(password := hash))
  {
    var updated := WithPassword(users, user.id, hash);
    var i :| 0 <= i < |users| && users[i] == user;
    assert updated[i] == user.(password := hash);
    FindByUsernameAt(updated, i);
  }

  /** Under unique names, the lookup by the name of row i finds row i. */
  lemma FindByUsernameAt(users: seq<User>, i: int)
    requires UniqueUsernames(users) && 0 <= i < |users|
    ensures UserRepository.FindByUsername(users, users[i].username) == Some(users[i])
  {
    var r := UserRepository.FindByUsername(users, users[i].username);
    var k :| 0 <= k < |users| && users[k] == r.value
             && forall j :: 0 <= j < k ==> users[j].username != users[i].username;
  }

  /** findUserGroups: an unknown user is UserNotFound; otherwise the groups it created, possibly none. */
  function FindUserGroups(users: seq<User>, groups: seq<Group>, userId: int): (r: Result<seq<Group>>)
    ensures r.Err? <==> UserRepository.FindById(users, userId).None?
    ensures r.Err? ==> r.error == UserNotFound
    ensures r.Ok? ==> forall g :: g in r.value <==> g in groups && g.creatorId == userId
  {
    if UserRepository.FindById(users, userId).None? then Err(UserNotFound)
    else Ok(GroupRepository.FindByCreatorId(groups, userId).GetOr([]))
  }
}
