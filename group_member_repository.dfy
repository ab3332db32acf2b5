/** Queries and the delete over the membership table (GroupMemberRepository). */
module GroupMemberRepository {
  import opened Wrappers
  import opened Entities
  import Seqs
  import Panache
  import Persistence

  /** The user ids of a group's membership rows, in table order. */
  function UserIds(members: seq<GroupMember>, groupId: int): (r: seq<int>)
    ensures forall u :: u in r <==> GroupMember(u, groupId) in members
  {
    if members == [] then []
    else
      var rest := UserIds(members[1..], groupId);
      if members[0].groupId == groupId then [members[0].userId] + rest else rest
  }

  /** findUsersByGroupId: the members' ids, or empty when the group has none. */
  function FindUsersByGroupId(members: seq<GroupMember>, groupId: int): (r: Option<seq<int>>)
    ensures r.None? <==> forall m :: m in members ==> m.groupId != groupId
    ensures r.Some? ==> forall u :: u in r.value <==> GroupMember(u, groupId) in members
  {
    var ids := UserIds(members, groupId);
    assert ids != [] ==> ids[0] in ids && GroupMember(ids[0], groupId) in members;
    assert forall m :: m in members && m.groupId == groupId ==> m.userId in ids by {
      forall m | m in members && m.groupId == groupId ensures m.userId in ids {
        assert m == GroupMember(m.userId, groupId);
      }
    }
    Panache.NonEmpty(ids)
  }

  /** findByUserId: the user's membership rows, or empty when there are none. */
  function FindByUserId(members: seq<GroupMember>, userId: int): (r: Option<seq<GroupMember>>)
    ensures r.None? <==> forall m :: m in members ==> m.userId != userId
    ensures r.Some? ==> forall m :: m in r.value <==> m in members && m.userId == userId
  {
    var rows := Seqs.Filter(members, (m: GroupMember) => m.userId == userId);
    assert rows != [] ==> rows[0] in rows;
    Panache.NonEmpty(rows)
  }

  /** The table after `delete from GroupMember where groupId = ? and userId = ?`. */
  function WithoutMember(members: seq<GroupMember>, groupId: int, userId: int): (r: seq<GroupMember>)
    ensures forall m :: m in r <==> m in members && m != GroupMember(userId, groupId)
    ensures Seqs.IsSubsequence(r, members)
  {
    Seqs.Filter(members, (m: GroupMember) => !(m.groupId == groupId && m.userId == userId))
  }

  /** Deleting a row that is not there leaves the table as it was. */
  lemma WithoutAbsentMember(members: seq<GroupMember>, groupId: int, userId: int)
    requires GroupMember(userId, groupId) !in members
    ensures WithoutMember(members, groupId, userId) == members
  {
    Seqs.FilterAll(members, (m: GroupMember) => !(m.groupId == groupId && m.userId == userId));
  }

  /** deleteByGroupIdAndUserId: removes that one membership row. */
  method DeleteByGroupIdAndUserId(db: Persistence.Database, groupId: int, userId: int)
    modifies db`members
    ensures db.members == WithoutMember(old(db.members), groupId, userId)
  {
    db.members := WithoutMember(db.members, groupId, userId);
  }
}
