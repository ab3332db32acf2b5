/**
 * The relational store: one table per entity, rows in insertion order, and
 * the identity generators that hand out primary keys on persist.
 */
module Persistence {
  import opened Entities

  predicate UniqueUserIds(users: seq<User>) {
    forall i, j :: 0 <= i < j < |users| ==> users[i].id != users[j].id
  }

  predicate UniqueGroupIds(groups: seq<Group>) {
    forall i, j :: 0 <= i < j < |groups| ==> groups[i].id != groups[j].id
  }

  predicate UniqueGrantIds(grants: seq<FileSharing>) {
    forall i, j :: 0 <= i < j < |grants| ==> grants[i].id != grants[j].id
  }

  class Database {
    var users: seq<User>
    var groups: seq<Group>
    var members: seq<GroupMember>
    var grants: seq<FileSharing>
    var nextUserId: int
    var nextGroupId: int
    var nextGrantId: int

    /**
     * Primary keys are unique and below their generator, and no membership
     * row names a group id the generator has not yet handed out.
     */
    ghost predicate Valid()
      reads this
    {
      && UniqueUserIds(users) && (forall u :: u in users ==> u.id < nextUserId)
      && UniqueGroupIds(groups) && (forall g :: g in groups ==> g.id < nextGroupId)
      && (forall m :: m in members ==> m.groupId < nextGroupId)
      && UniqueGrantIds(grants) && (forall f :: f in grants ==> f.id < nextGrantId)
    }

    constructor ()
      ensures Valid()
      ensures users == [] && groups == [] && members == [] && grants == []
    {
      users := [];
      groups := [];
      members := [];
      grants := [];
      nextUserId := 1;
      nextGroupId := 1;
      nextGrantId := 1;
    }

    /** Writes the user table back; the new rows keep the ids unique and below the generator. */
    method SetUsers(rows: seq<User>)
      requires Valid()
      requires UniqueUserIds(rows) && forall u :: u in rows ==> u.id < nextUserId
      modifies this`users
      ensures Valid() && users == rows
    {
      users := rows;
    }

    /** Writes the group table back; the new rows keep the ids unique and below the generator. */
    method SetGroups(rows: seq<Group>)
      requires Valid()
      requires UniqueGroupIds(rows) && forall g :: g in rows ==> g.id < nextGroupId
      modifies this`groups
      ensures Valid() && groups == rows
    {
      groups := rows;
    }

    /** Persists a new group under the next generated id. */
    method AddGroup(group: Group)
      requires Valid() && group.id == nextGroupId
      requires UniqueGroupIds(groups + [group])
      modifies this`groups, this`nextGroupId
      ensures Valid() && groups == old(groups) + [group] && nextGroupId == old(nextGroupId) + 1
    {
      assert forall g :: g in groups + [group] ==> g in groups || g == group;
      groups := groups + [group];
      nextGroupId := nextGroupId + 1;
    }

    /** Writes one grant row back in place, under its own id. */
    method SetGrant(i: nat, f: FileSharing)
      requires Valid() && i < |grants| && f.id == grants[i].id
      modifies this`grants
      ensures Valid() && grants == old(grants)[i := f]
    {
      assert grants[i] in grants;
      grants := grants[i := f];
    }
  }
}
