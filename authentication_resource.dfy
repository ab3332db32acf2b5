/**
 * AuthenticationResource: sign-up, login and token refresh.  Issuing a
 * token is a parameter `token` from the account id to the token's text.
 */
module AuthenticationResource {
  import opened Wrappers
  import opened Failures
  import opened Entities
  import opened Text
  import opened Responses
  import Persistence
  import Backend
  import ObjectStore
  import UserRepository
  import UserService
  import MinioService
  import MinioResource
  import UsernamePattern

  /** The body of the 400 sign-up answers for a refused name. */
  const InvalidUsernameBody: string :=
    "Invalid username format. Username must contain only letters and numbers, between 3 and 20 characters."

  /** isValidUsername: the whole name matches the username pattern. */
  predicate IsValidUsername(username: string) {
    UsernamePattern.Matches(username)
  }

  const TokenOpen: string := "{ \"token\": \""
  const UserOpen: string := "\", \"user\": { \"id\": "
  const NameOpen: string := ", \"username\": \""
  const UserClose: string := "\" }}"

  /** The JSON text after the token: the closing quote of the token and the account's id and name. */
  function UserFields(user: User): (fields: string)
    ensures fields != [] && fields[0] == '"'
  {
    UserOpen + Decimal(user.id) + NameOpen + user.username + UserClose
  }

  /** userAndTokenJson: the token and the account's id and name, spliced in without escaping. */
  function UserAndTokenJson(user: User, token: string): (json: string)
    ensures StartsWith(json, TokenOpen) && json[|TokenOpen|..] == token + UserFields(user)
  {
    StartsWithConcat(TokenOpen, token + UserFields(user));
    TokenOpen + (token + UserFields(user))
  }

  /** The text before the first `c`, or all of `s` when it has none. */
  function UpTo(s: string, c: char): (r: string)
    ensures c !in r && StartsWith(s, r)
    ensures |r| < |s| ==> s[|r|] == c
  {
    if s == [] || s[0] == c then [] else [s[0]] + UpTo(s[1..], c)
  }

  lemma {:induction false} UpToConcat(t: string, c: char, rest: string)
    requires c !in t && rest != [] && rest[0] == c
    ensures UpTo(t + rest, c) == t
  {
    if t != [] {
      assert (t + rest)[1..] == t[1..] + rest;
      UpToConcat(t[1..], c, rest);
    }
  }

  /** How a client reads the token back: the text of the first field's quotes. */
  function TokenOf(json: string): (r: Option<string>)
    ensures r.Some? ==> StartsWith(json, TokenOpen) && StartsWith(json[|TokenOpen|..], r.value) && '"' !in r.value
  {
    if StartsWith(json, TokenOpen) then Some(UpTo(json[|TokenOpen|..], '"')) else None
  }

  /** The token is read back intact from the sign-up and login answers when it holds no quote. */
  lemma TokenRoundTrip(user: User, token: string)
    requires '"' !in token
    ensures TokenOf(UserAndTokenJson(user, token)) == Some(token)
  {
    UpToConcat(token, '"', UserFields(user));
  }

  /**
   * signup: a refused name is a 400 that changes nothing.  Otherwise the
   * account is created (a taken name escapes as a duplicate, a 409), then
   * its bucket; a failing bucket creation escapes with the account kept.
   */
  method Signup(db: Persistence.Database, s3: Backend.StorageBackend, username: string, password: string, hash: string,
                suffix: string, token: int -> string) returns (r: Outcome<string>)
    requires db.Valid() && s3.Valid()
    modifies db`users, db`nextUserId, s3`buckets
    ensures db.Valid() && s3.Valid()
    ensures !IsValidUsername(username) ==>
      r == Answer(400, Some(InvalidUsernameBody)) && db.users == old(db.users) && s3.buckets == old(s3.buckets)
    ensures IsValidUsername(username) && UserRepository.FindByUsername(old(db.users), username).Some? ==>
      r == Raised(DuplicateResource) && db.users == old(db.users) && s3.buckets == old(s3.buckets)
    ensures IsValidUsername(username) && UserRepository.FindByUsername(old(db.users), username).None? ==>
      db.users == old(db.users) + [User(old(db.nextUserId), username, hash)]
      && Provisioned(old(s3.buckets), s3.buckets, User(old(db.nextUserId), username, hash), suffix, token, r)
  {
    if !IsValidUsername(username) {
      return Answer(400, Some(InvalidUsernameBody));
    }
    var created := UserService.CreateUser(db, username, hash);
    if created.Err? {
      return Raised(created.error);
    }
    r := ProvisionBucket(s3, created.value, suffix, token);
  }

  /** What sign-up does to the store once the account exists. */
  predicate Provisioned(before: map<string, ObjectStore.Bucket>, after: map<string, ObjectStore.Bucket>, user: User,
                        suffix: string, token: int -> string, r: Outcome<string>) {
    var bucket := MinioResource.UserBucket(user.id, suffix);
    if bucket in before then r == Raised(Storage(BucketAlreadyExists)) && after == before
    else r == Answer(200, Some(UserAndTokenJson(user, token(user.id)))) && after == before[bucket := []]
  }

  /** The second half of signup: the new account's bucket, then the answer. */
  method ProvisionBucket(s3: Backend.StorageBackend, user: User, suffix: string, token: int -> string)
    returns (r: Outcome<string>)
    requires s3.Valid()
    modifies s3`buckets
    ensures s3.Valid()
    ensures Provisioned(old(s3.buckets), s3.buckets, user, suffix, token, r)
  {
    var made := MinioService.CreateBucket(s3, Decimal(user.id) + suffix);
    if made.Err? {
      return Raised(made.error);
    }
    r := Answer(200, Some(UserAndTokenJson(user, token(user.id))));
  }

  /** login: a token only for a name and password that authenticate. */
  function Login(users: seq<User>, username: string, password: string, verify: (string, string) -> bool,
                 token: int -> string): (r: Result<string>)
    ensures r.Ok? <==> UserService.Authenticate(users, username, password, verify).Ok?
    ensures r.Err? ==> r.error == UserService.Authenticate(users, username, password, verify).error
    ensures r.Ok? ==> exists u :: u in users && u.username == username && verify(password, u.password)
                                 && r.value == UserAndTokenJson(u, token(u.id))
  {
    match UserService.Authenticate(users, username, password, verify)
    case Err(e) => Err(e)
    case Ok(u) => Ok(UserAndTokenJson(u, token(u.id)))
  }

  /**
   * refreshToken: a token for the principal's id; a principal that is not a
   * number fails Long.valueOf, an IllegalArgumentException (400).
   */
  function RefreshToken(principal: string, token: int -> string): (r: Result<string>)
    ensures r.Ok? <==> ParseLong(principal).Some?
    ensures r.Ok? ==> r.value == token(ParseLong(principal).value)
    ensures r.Err? ==> r.error == IllegalArgument
    ensures forall id :: principal == Decimal(id) ==> r == Ok(token(id))
  {
    assert forall id :: principal == Decimal(id) ==> ParseLong(principal) == Some(id) by {
      forall id | principal == Decimal(id) ensures ParseLong(principal) == Some(id) {
        ParseLongOfDecimal(id);
      }
    }
    match ParseLong(principal)
    case None => Err(IllegalArgument)
    case Some(id) => Ok(token(id))
  }
}
