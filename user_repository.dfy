/** Queries over the users table (UserRepository and Panache's findById). */
module UserRepository {
  import opened Wrappers
  import opened Entities
  import opened Text
  import Seqs
  import Panache
  import Persistence

  /** findById: the row with that primary key, or null. */
  function FindById(users: seq<User>, id: int): (r: Option<User>)
    ensures r.Some? ==> r.value in users && r.value.id == id
    ensures r.None? <==> forall u :: u in users ==> u.id != id
  {
    if users == [] then None
    else if users[0].id == id then Some(users[0])
    else FindById(users[1..], id)
  }

  /** With unique primary keys, findById finds exactly the row that has the id. */
  lemma {:induction false} FindByIdOfMember(users: seq<User>, u: User)
    requires Persistence.UniqueUserIds(users) && u in users
    ensures FindById(users, u.id) == Some(u)
  {
    if users[0] != u {
      assert users[0].id != u.id by {
        var k :| 0 <= k < |users| && users[k] == u;
      }
      assert Persistence.UniqueUserIds(users[1..]) by {
        forall i, j | 0 <= i < j < |users[1..]| ensures users[1..][i].id != users[1..][j].id {
          assert users[1..][i] == users[i + 1] && users[1..][j] == users[j + 1];
        }
      }
      FindByIdOfMember(users[1..], u);
    }
  }

  /** find("username", name).firstResult(): the earliest account with that name. */
  function FindByUsername(users: seq<User>, username: string): (r: Option<User>)
    ensures r.None? <==> forall u :: u in users ==> u.username != username
    ensures r.Some? ==> r.value in users && r.value.username == username
    ensures r.Some? ==> exists i :: 0 <= i < |users| && users[i] == r.value
                           && forall j :: 0 <= j < i ==> users[j].username != username
  {
    if users == [] then None
    else if users[0].username == username then Some(users[0])
    else
      var r := FindByUsername(users[1..], username);
      assert r.Some? ==> exists i :: 0 <= i < |users| && users[i] == r.value
                           && forall j :: 0 <= j < i ==> users[j].username != username by {
        if r.Some? {
          var i :| 0 <= i < |users[1..]| && users[1..][i] == r.value
                    && forall j :: 0 <= j < i ==> users[1..][j].username != username;
          assert users[i + 1] == r.value;
          forall j | 0 <= j < i + 1 ensures users[j].username != username {
            if j > 0 { assert users[j] == users[1..][j - 1]; }
          }
        }
      }
      r
  }

  /**
   * The rows of the join `User u join GroupMember gm on u.id = gm.userId where
   * gm.groupId = ?`, one per matching membership row, in the order of the rows.
   */
  function MembersOf(users: seq<User>, members: seq<GroupMember>, groupId: int): (r: seq<User>)
    ensures forall u :: u in r ==> u in users && GroupMember(u.id, groupId) in members
    ensures forall m :: m in members && m.groupId == groupId && FindById(users, m.userId).Some?
                        ==> FindById(users, m.userId).value in r
  {
    if members == [] then []
    else
      var m := members[0];
      var rest := MembersOf(users, members[1..], groupId);
      if m.groupId == groupId && FindById(users, m.userId).Some? then
        [FindById(users, m.userId).value] + rest
      else rest
  }

  /** findUsersByGroupId: the members' accounts, or empty when the join has no row. */
  function FindUsersByGroupId(users: seq<User>, members: seq<GroupMember>, groupId: int): (r: Option<seq<User>>)
    ensures r.None? <==> MembersOf(users, members, groupId) == []
    ensures r.Some? ==> r.value == MembersOf(users, members, groupId)
  {
    Panache.NonEmpty(MembersOf(users, members, groupId))
  }

  /**
   * SQL `LIKE`, without an escape character: `_` stands for any one
   * character, `%` for any run of characters (the empty one included), and
   * every other character for itself.
   */
  predicate Like(s: string, pattern: string)
    decreases |pattern|, |s|
  {
    if pattern == [] then s == []
    else if pattern[0] == '%' then Like(s, pattern[1..]) || (s != [] && Like(s[1..], pattern))
    else s != [] && (pattern[0] == '_' || s[0] == pattern[0]) && Like(s[1..], pattern[1..])
  }

  /** A character LIKE gives a meaning of its own. */
  predicate Wildcard(c: char) {
    c == '_' || c == '%'
  }

  /** The pattern `%` matches every string. */
  lemma {:induction false} LikeAnything(s: string)
    ensures Like(s, "%")
  {
    if s != [] {
      LikeAnything(s[1..]);
    }
  }

  /** For a prefix without wildcards, `like prefix%` is String.startsWith. */
  lemma {:induction false} LikeLiteralPrefix(s: string, prefix: string)
    requires forall i :: 0 <= i < |prefix| ==> !Wildcard(prefix[i])
    ensures Like(s, prefix + "%") <==> StartsWith(s, prefix)
  {
    if prefix == [] {
      assert prefix + "%" == "%";
      LikeAnything(s);
    } else {
      assert (prefix + "%")[1..] == prefix[1..] + "%";
      if s != [] {
        LikeLiteralPrefix(s[1..], prefix[1..]);
        if StartsWith(s, prefix) {
          assert s[1..][..|prefix| - 1] == s[..|prefix|][1..];
        }
        if s[0] == prefix[0] && StartsWith(s[1..], prefix[1..]) {
          assert s[..|prefix|] == [s[0]] + s[1..][..|prefix| - 1];
        }
      }
    }
  }

  /** An underscore in the prefix lets any character through: "a_" finds "ab", which does not start with "a_". */
  lemma UnderscoreMatchesAnyCharacter()
    ensures Like("ab", "a_" + "%") && !StartsWith("ab", "a_")
  {
    assert ("a_" + "%")[1..] == "_%";
    assert "ab"[1..] == "b";
    assert "_%"[1..] == "%";
    LikeAnything("ab"[1..][1..]);
  }

  /**
   * findByUsernamePrefix: the accounts whose name matches
   * `username like prefix%`, or empty when there are none.
   */
  function FindByUsernamePrefix(users: seq<User>, prefix: string): (r: Option<seq<User>>)
    ensures r.None? <==> forall u :: u in users ==> !Like(u.username, prefix + "%")
    ensures r.Some? ==> forall u :: u in r.value <==> u in users && Like(u.username, prefix + "%")
    ensures r.Some? ==> Seqs.IsSubsequence(r.value, users)
  {
    var rows := Seqs.Filter(users, (u: User) => Like(u.username, prefix + "%"));
    assert rows != [] ==> rows[0] in rows;
    Panache.NonEmpty(rows)
  }

  /** deleteById: the table without the row that has that primary key. */
  function WithoutUser(users: seq<User>, id: int): (r: seq<User>)
    ensures forall u :: u in r <==> u in users && u.id != id
    ensures FindById(r, id).None?
    ensures Seqs.IsSubsequence(r, users)
  {
    Seqs.Filter(users, (u: User) => u.id != id)
  }
}
