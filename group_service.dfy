/**
 * GroupService: groups owned by a creator, and the membership rows that add
 * other accounts to them.  Every operation checks its preconditions in a
 * fixed order and then changes one table.
 */
module GroupService {
  import opened Wrappers
  import opened Failures
  import opened Entities
  import Seqs
  import Persistence
  import UserRepository
  import GroupRepository
  import GroupMemberRepository

  /**
   * The two membership rules the service upholds: a (user, group) row is
   * never stored twice, and a group's creator never has a row in it.
   */
  ghost predicate MembershipInvariant(db: Persistence.Database)
    reads db
  {
    && Seqs.NoDuplicates(db.members)
    && forall g :: g in db.groups ==> GroupMember(g.creatorId, g.id) !in db.members
  }

  /** No creator owns two groups of the same name (the rule createGroup enforces). */
  predicate UniqueNames(groups: seq<Group>) {
    forall i, j :: 0 <= i < j < |groups| && groups[i].creatorId == groups[j].creatorId ==> groups[i].name != groups[j].name
  }

  /**
   * createGroup: a null creator or name is an IllegalArgument, an unknown
   * creator UserNotFound, and an existing (creator, name) an
   * IllegalArgument as well; otherwise one group is added.
   */
  method CreateGroup(db: Persistence.Database, creatorId: Option<int>, groupName: Option<string>) returns (r: Result<Group>)
    requires db.Valid() && MembershipInvariant(db)
    modifies db`groups, db`nextGroupId
    ensures db.Valid() && MembershipInvariant(db)
    ensures creatorId.None? || groupName.None? ==> r == Err(IllegalArgument)
    ensures creatorId.Some? && groupName.Some? && UserRepository.FindById(db.users, creatorId.value).None? ==>
      r == Err(UserNotFound)
    ensures creatorId.Some? && groupName.Some? && UserRepository.FindById(db.users, creatorId.value).Some?
            && GroupRepository.ExistsByCreatorIdAndName(old(db.groups), creatorId.value, groupName.value) == Ok(true) ==>
      r == Err(IllegalArgument)
    ensures r.Ok? <==> creatorId.Some? && groupName.Some? && UserRepository.FindById(db.users, creatorId.value).Some?
                       && GroupRepository.ExistsByCreatorIdAndName(old(db.groups), creatorId.value, groupName.value) == Ok(false)
    ensures r.Ok? ==> (r.value == Group(old(db.nextGroupId), groupName.value, creatorId.value)
                       && db.groups == old(db.groups) + [r.value])
    ensures r.Err? ==> db.groups == old(db.groups)
    ensures UniqueNames(old(db.groups)) ==> UniqueNames(db.groups)
  {
    if creatorId.None? || groupName.None? {
      return Err(IllegalArgument);
    }
    var creator, name := creatorId.value, groupName.value;
    if UserRepository.FindById(db.users, creator).None? {
      return Err(UserNotFound);
    }
    var taken := GroupRepository.ExistsByCreatorIdAndName(db.groups, creator, name);
    if taken.Err? {
      return Err(taken.error);
    }
    if taken.value {
      return Err(IllegalArgument);
    }
    var group := Group(db.nextGroupId, name, creator);
    AppendGroupKeepsRules(db.groups, db.members, group, db.nextGroupId);
    db.AddGroup(group);
    r := Ok(group);
  }

  /** A group with a fresh id and a name its creator does not use yet keeps every rule. */
  lemma AppendGroupKeepsRules(groups: seq<Group>, members: seq<GroupMember>, group: Group, next: int)
    requires Persistence.UniqueGroupIds(groups) && (forall g :: g in groups ==> g.id < next)
    requires forall m :: m in members ==> m.groupId < next
    requires group.id == next
    requires forall g :: g in groups ==> !(g.creatorId == group.creatorId && g.name == group.name)
    ensures Persistence.UniqueGroupIds(groups + [group])
    ensures forall g :: g in groups + [group] ==> g.id < next + 1
    ensures GroupMember(group.creatorId, group.id) !in members
    ensures UniqueNames(groups) ==> UniqueNames(groups + [group])
  {
    var all := groups + [group];
    forall i, j | 0 <= i < j < |all| ensures all[i].id != all[j].id {
      if j == |groups| {
        assert all[i] in groups;
      } else {
        assert all[i] == groups[i] && all[j] == groups[j];
      }
    }
    if UniqueNames(groups) {
      forall i, j | 0 <= i < j < |all| && all[i].creatorId == all[j].creatorId ensures all[i].name != all[j].name {
        if j == |groups| {
          assert all[i] in groups;
        } else {
          assert all[i] == groups[i] && all[j] == groups[j];
        }
      }
    }
  }

  /** The table after `group.setName(newName)` on the row with that id. */
  function Renamed(groups: seq<Group>, groupId: int, newName: string): (r: seq<Group>)
    ensures |r| == |groups|
    ensures forall i :: 0 <= i < |r| ==> r[i].id == groups[i].id && r[i].creatorId == groups[i].creatorId
    ensures forall i :: 0 <= i < |r| ==> r[i].name == if groups[i].id == groupId then newName else groups[i].name
  {
    seq(|groups|, i requires 0 <= i < |groups| => if groups[i].id == groupId then groups[i].(name := newName) else groups[i])
  }

  /** After the rename, that id finds the renamed group and every other id finds what it found before. */
  lemma {:induction false} FindRenamed(groups: seq<Group>, groupId: int, newName: string, id: int)
    ensures GroupRepository.FindById(Renamed(groups, groupId, newName), id) ==
      match GroupRepository.FindById(groups, id)
      case None => None
      case Some(g) => if id == groupId then Some(g.(name := newName)) else Some(g)
  {
    if groups != [] {
      assert Renamed(groups, groupId, newName)[1..] == Renamed(groups[1..], groupId, newName);
      FindRenamed(groups[1..], groupId, newName, id);
    }
  }

  /**
   * updateGroupName as written: null arguments are an IllegalArgument, an
   * unknown group GroupNotFound; otherwise only that group's name changes,
   * with no check that the creator already uses the new name.
   */
  method UpdateGroupName(db: Persistence.Database, groupId: Option<int>, newName: Option<string>) returns (r: Result<Group>)
    requires db.Valid() && MembershipInvariant(db)
    modifies db`groups
    ensures db.Valid() && MembershipInvariant(db)
    ensures groupId.None? || newName.None? ==> r == Err(IllegalArgument)
    ensures groupId.Some? && newName.Some? && GroupRepository.FindById(old(db.groups), groupId.value).None? ==>
      r == Err(GroupNotFound)
    ensures r.Ok? <==> groupId.Some? && newName.Some? && GroupRepository.FindById(old(db.groups), groupId.value).Some?
    ensures r.Ok? ==> (r.value == GroupRepository.FindById(old(db.groups), groupId.value).value.(name := newName.value)
                       && db.groups == Renamed(old(db.groups), groupId.value, newName.value))
    ensures r.Err? ==> db.groups == old(db.groups)
  {
    if groupId.None? || newName.None? {
      return Err(IllegalArgument);
    }
    var found := GroupRepository.FindById(db.groups, groupId.value);
    if found.None? {
      return Err(GroupNotFound);
    }
    RenameKeepsRules(db, groupId.value, newName.value);
    db.SetGroups(Renamed(db.groups, groupId.value, newName.value));
    r := Ok(found.value.(name := newName.value));
  }

  /** Renaming keeps ids, creators and so the membership rules. */
  lemma RenameKeepsRules(db: Persistence.Database, groupId: int, newName: string)
    requires db.Valid() && MembershipInvariant(db)
    ensures var r := Renamed(db.groups, groupId, newName);
      && Persistence.UniqueGroupIds(r)
      && (forall g :: g in r ==> g.id < db.nextGroupId && GroupMember(g.creatorId, g.id) !in db.members)
  {
    var r := Renamed(db.groups, groupId, newName);
    forall g | g in r ensures g.id < db.nextGroupId && GroupMember(g.creatorId, g.id) !in db.members {
      var i :| 0 <= i < |r| && r[i] == g;
      assert db.groups[i] in db.groups;
    }
  }

  /**
   * Renaming a group to the name of another group of the same creator makes
   * that (creator, name) pair match two rows, so a later createGroup or
   * existence check on it fails with NonUniqueResult instead of answering.
   */
  lemma RenameCollides(a: Group, b: Group, name: string)
    requires a.id != b.id && a.creatorId == b.creatorId && a.name == name && b.name != name
    ensures UniqueNames([a, b])
    ensures GroupRepository.ExistsByCreatorIdAndName([a, b], a.creatorId, name) == Ok(true)
    ensures GroupRepository.ExistsByCreatorIdAndName(Renamed([a, b], b.id, name), a.creatorId, name) == Err(NonUniqueResult)
    ensures !UniqueNames(Renamed([a, b], b.id, name))
  {
    var renamed := Renamed([a, b], b.id, name);
    assert renamed == [a, b.(name := name)];
    BothNamed(renamed, a.creatorId, name);
    OnlyFirstNamed(a, b, name);
  }

  /** Two different groups of one creator under one name are two rows for the pair. */
  lemma BothNamed(groups: seq<Group>, creatorId: int, name: string)
    requires |groups| == 2 && groups[0] != groups[1]
    requires forall i :: 0 <= i < 2 ==> groups[i].creatorId == creatorId && groups[i].name == name
    ensures |GroupRepository.Named(groups, creatorId, name)| >= 2
  {
    var rows := GroupRepository.Named(groups, creatorId, name);
    assert groups[0] in groups && groups[1] in groups;
    assert groups[0] in rows && groups[1] in rows;
  }

  /** Only the first of two groups carries the name. */
  lemma OnlyFirstNamed(a: Group, b: Group, name: string)
    requires a.name == name && b.name != name
    ensures GroupRepository.Named([a, b], a.creatorId, name) == [a]
  {
    assert [a, b][1..] == [b];
    assert [b][1..] == [];
  }

  /** Another group of the same creator already has that name. */
  predicate NameTakenByOther(groups: seq<Group>, groupId: int, creatorId: int, name: string) {
    exists g :: g in groups && g.id != groupId && g.creatorId == creatorId && g.name == name
  }

  /**
   * updateGroupName with the check createGroup makes: renaming to a name the
   * creator uses for another group is an IllegalArgument.
   */
  method UpdateGroupNameChecked(db: Persistence.Database, groupId: Option<int>, newName: Option<string>) returns (r: Result<Group>)
    requires db.Valid() && MembershipInvariant(db)
    modifies db`groups
    ensures db.Valid() && MembershipInvariant(db)
    ensures groupId.None? || newName.None? ==> r == Err(IllegalArgument)
    ensures groupId.Some? && newName.Some? && GroupRepository.FindById(old(db.groups), groupId.value).None? ==>
      r == Err(GroupNotFound)
    ensures r.Ok? <==> (groupId.Some? && newName.Some? && GroupRepository.FindById(old(db.groups), groupId.value).Some?
                        && !NameTakenByOther(old(db.groups), groupId.value,
                                             GroupRepository.FindById(old(db.groups), groupId.value).value.creatorId, newName.value))
    ensures r.Ok? ==> (r.value == GroupRepository.FindById(old(db.groups), groupId.value).value.(name := newName.value)
                       && db.groups == Renamed(old(db.groups), groupId.value, newName.value))
    ensures r.Err? ==> db.groups == old(db.groups)
    ensures UniqueNames(old(db.groups)) ==> UniqueNames(db.groups)
  {
    if groupId.None? || newName.None? {
      return Err(IllegalArgument);
    }
    var found := GroupRepository.FindById(db.groups, groupId.value);
    if found.None? {
      return Err(GroupNotFound);
    }
    var others := Seqs.Filter(db.groups, (g: Group) => g.id != groupId.value && g.creatorId == found.value.creatorId && g.name == newName.value);
    if others != [] {
      assert others[0] in others;
      return Err(IllegalArgument);
    }
    RenameKeepsRules(db, groupId.value, newName.value);
    if UniqueNames(db.groups) {
      RenameKeepsNames(db.groups, found.value, newName.value);
    }
    db.SetGroups(Renamed(db.groups, groupId.value, newName.value));
    r := Ok(found.value.(name := newName.value));
  }

  /** A rename to a name no other group of that creator has keeps names unique. */
  lemma RenameKeepsNames(groups: seq<Group>, group: Group, newName: string)
    requires UniqueNames(groups) && Persistence.UniqueGroupIds(groups) && group in groups
    requires !NameTakenByOther(groups, group.id, group.creatorId, newName)
    ensures UniqueNames(Renamed(groups, group.id, newName))
  {
    var r := Renamed(groups, group.id, newName);
    forall i, j | 0 <= i < j < |r| && r[i].creatorId == r[j].creatorId ensures r[i].name != r[j].name {
      assert groups[i] in groups && groups[j] in groups;
      var k :| 0 <= k < |groups| && groups[k] == group;
    }
  }

  /** With unique names, the existence check never meets two rows. */
  lemma UniqueNamesAnswer(groups: seq<Group>, creatorId: int, name: string)
    requires UniqueNames(groups)
    ensures GroupRepository.ExistsByCreatorIdAndName(groups, creatorId, name).Ok?
  {
    NamedAtMostOne(groups, creatorId, name);
  }

  /** Under unique names a (creator, name) pair matches at most one row. */
  lemma {:induction false} NamedAtMostOne(groups: seq<Group>, creatorId: int, name: string)
    requires UniqueNames(groups)
    ensures |GroupRepository.Named(groups, creatorId, name)| <= 1
  {
    var p := (g: Group) => g.creatorId == creatorId && g.name == name;
    if groups != [] {
      var rest := groups[1..];
      assert UniqueNames(rest) by {
        forall i, j | 0 <= i < j < |rest| && rest[i].creatorId == rest[j].creatorId ensures rest[i].name != rest[j].name {
          assert rest[i] == groups[i + 1] && rest[j] == groups[j + 1];
        }
      }
      if p(groups[0]) {
        forall i | 0 <= i < |rest| ensures !p(rest[i]) {
          assert rest[i] == groups[i + 1];
        }
        Seqs.FilterNone(rest, p);
      } else {
        NamedAtMostOne(rest, creatorId, name);
      }
    }
  }

  /**
   * The answer groupContainsUser computes: some account in the join of the
   * group's membership rows has that id.
   */
  predicate ContainsUser(users: seq<User>, members: seq<GroupMember>, groupId: int, userId: int) {
    exists u :: u in UserRepository.MembersOf(users, members, groupId) && u.id == userId
  }

  /** An existing account is in the group exactly when its membership row is there. */
  lemma ContainsUserIffRow(users: seq<User>, members: seq<GroupMember>, groupId: int, userId: int)
    ensures ContainsUser(users, members, groupId, userId) <==>
            GroupMember(userId, groupId) in members && UserRepository.FindById(users, userId).Some?
  {
    if GroupMember(userId, groupId) in members && UserRepository.FindById(users, userId).Some? {
      assert UserRepository.FindById(users, userId).value in UserRepository.MembersOf(users, members, groupId);
    }
    if ContainsUser(users, members, groupId, userId) {
      var u :| u in UserRepository.MembersOf(users, members, groupId) && u.id == userId;
      assert u in users;
    }
  }

  /** groupContainsUser: a scan of the joined member list for the id. */
  method GroupContainsUser(db: Persistence.Database, group: Group, userId: int) returns (found: bool)
    ensures found == ContainsUser(db.users, db.members, group.id, userId)
  {
    var listed := UserRepository.FindUsersByGroupId(db.users, db.members, group.id);
    if listed.None? {
      return false;
    }
    var members := listed.value;
    var i := 0;
    while i < |members|
      invariant 0 <= i <= |members|
      invariant forall k :: 0 <= k < i ==> members[k].id != userId
    {
      if members[i].id == userId {
        assert members[i] in members;
        return true;
      }
      i := i + 1;
    }
    found := false;
  }

  /**
   * addUserToGroup: checks, in order, a null user id, an unknown user, an
   * unknown group, an existing membership and the creator; then adds the row.
   */
  method AddUserToGroup(db: Persistence.Database, userId: Option<int>, groupId: int) returns (r: Result<()>)
    requires db.Valid() && MembershipInvariant(db)
    modifies db`members
    ensures db.Valid() && MembershipInvariant(db)
    ensures userId.None? ==> r == Err(IllegalArgument)
    ensures userId.Some? && UserRepository.FindById(db.users, userId.value).None? ==> r == Err(UserNotFound)
    ensures (userId.Some? && UserRepository.FindById(db.users, userId.value).Some?
             && GroupRepository.FindById(db.groups, groupId).None?) ==> r == Err(GroupNotFound)
    ensures (userId.Some? && UserRepository.FindById(db.users, userId.value).Some?
             && GroupRepository.FindById(db.groups, groupId).Some?
             && (GroupMember(userId.value, groupId) in old(db.members)
                 || GroupRepository.FindById(db.groups, groupId).value.creatorId == userId.value)) ==>
      r == Err(DuplicateResource)
    ensures r.Ok? <==> (userId.Some? && UserRepository.FindById(db.users, userId.value).Some?
                        && GroupRepository.FindById(db.groups, groupId).Some?
                        && GroupMember(userId.value, groupId) !in old(db.members)
                        && GroupRepository.FindById(db.groups, groupId).value.creatorId != userId.value)
    ensures r.Ok? ==> db.members == old(db.members) + [GroupMember(userId.value, groupId)]
    ensures r.Err? ==> db.members == old(db.members)
  {
    if userId.None? {
      return Err(IllegalArgument);
    }
    var user := UserRepository.FindById(db.users, userId.value);
    if user.None? {
      return Err(UserNotFound);
    }
    var group := GroupRepository.FindById(db.groups, groupId);
    if group.None? {
      return Err(GroupNotFound);
    }
    var already := GroupContainsUser(db, group.value, userId.value);
    ContainsUserIffRow(db.users, db.members, groupId, userId.value);
    if already {
      return Err(DuplicateResource);
    }
    if group.value.creatorId == userId.value {
      return Err(DuplicateResource);
    }
    var row := GroupMember(userId.value, group.value.id);
    AddRowKeepsRules(db, group.value, row);
    db.members := db.members + [row];
    r := Ok(());
  }

  lemma AddRowKeepsRules(db: Persistence.Database, group: Group, row: GroupMember)
    requires db.Valid() && MembershipInvariant(db)
    requires group in db.groups && row.groupId == group.id && row !in db.members && row.userId != group.creatorId
    ensures Seqs.NoDuplicates(db.members + [row])
    ensures forall m :: m in db.members + [row] ==> m.groupId < db.nextGroupId
    ensures forall g :: g in db.groups ==> GroupMember(g.creatorId, g.id) !in db.members + [row]
  {
    var all := db.members + [row];
    forall i, j | 0 <= i < j < |all| ensures all[i] != all[j] {
      if j == |db.members| {
        assert all[i] in db.members;
      } else {
        assert all[i] == db.members[i] && all[j] == db.members[j];
      }
    }
    forall g | g in db.groups ensures GroupMember(g.creatorId, g.id) !in all {
      if g.id == group.id {
        GroupRepository.FindByIdOfMember(db.groups, g);
        GroupRepository.FindByIdOfMember(db.groups, group);
      }
    }
  }

  /** Once added, the user is reported as a member, so a second add is a duplicate. */
  lemma AddedIsContained(users: seq<User>, members: seq<GroupMember>, userId: int, groupId: int)
    requires UserRepository.FindById(users, userId).Some?
    ensures ContainsUser(users, members + [GroupMember(userId, groupId)], groupId, userId)
  {
    ContainsUserIffRow(users, members + [GroupMember(userId, groupId)], groupId, userId);
  }

  /**
   * getGroupMembers: an unknown group is GroupNotFound; a group without
   * members gives the empty list.
   */
  function GetGroupMembers(users: seq<User>, groups: seq<Group>, members: seq<GroupMember>, groupId: int)
    : (r: Result<seq<User>>)
    ensures GroupRepository.FindById(groups, groupId).None? <==> r == Err(GroupNotFound)
    ensures r.Ok? ==> forall u :: u in r.value ==> u in users && GroupMember(u.id, groupId) in members
    ensures r.Ok? && Persistence.UniqueUserIds(users) ==>
      forall u :: u in users && GroupMember(u.id, groupId) in members ==> u in r.value
  {
    if GroupRepository.FindById(groups, groupId).None? then Err(GroupNotFound)
    else
      var listed := UserRepository.MembersOf(users, members, groupId);
      assert Persistence.UniqueUserIds(users) ==>
        forall u :: u in users && GroupMember(u.id, groupId) in members ==> u in listed by {
        if Persistence.UniqueUserIds(users) {
          forall u | u in users && GroupMember(u.id, groupId) in members ensures u in listed {
            UserRepository.FindByIdOfMember(users, u);
            assert GroupMember(u.id, groupId).groupId == groupId;
          }
        }
      }
      Ok(UserRepository.FindUsersByGroupId(users, members, groupId).GetOr([]))
  }

  /** getGroupsOfUser: the groups the user created, in table order, or the empty list. */
  function GetGroupsOfUser(groups: seq<Group>, userId: int): (r: seq<Group>)
    ensures forall g :: g in r <==> g in groups && g.creatorId == userId
    ensures Seqs.IsSubsequence(r, groups)
  {
    GroupRepository.FindByCreatorId(groups, userId).GetOr([])
  }

  /**
   * removeUserFromGroup: an unknown group is GroupNotFound, a non-member
   * UserNotInGroup; otherwise only that membership row goes.
   */
  method RemoveUserFromGroup(db: Persistence.Database, userId: int, groupId: int) returns (r: Result<()>)
    requires db.Valid() && MembershipInvariant(db)
    modifies db`members
    ensures db.Valid() && MembershipInvariant(db)
    ensures GroupRepository.FindById(db.groups, groupId).None? ==> r == Err(GroupNotFound)
    ensures GroupRepository.FindById(db.groups, groupId).Some? && !ContainsUser(db.users, old(db.members), groupId, userId) ==>
      r == Err(UserNotInGroup)
    ensures r.Ok? <==> GroupRepository.FindById(db.groups, groupId).Some? && ContainsUser(db.users, old(db.members), groupId, userId)
    ensures r.Ok? ==> db.members == GroupMemberRepository.WithoutMember(old(db.members), groupId, userId)
    ensures r.Err? ==> db.members == old(db.members)
  {
    var group := GroupRepository.FindById(db.groups, groupId);
    if group.None? {
      return Err(GroupNotFound);
    }
    var present := GroupContainsUser(db, group.value, userId);
    if !present {
      return Err(UserNotInGroup);
    }
    Seqs.FilterNoDuplicates(db.members, (m: GroupMember) => !(m.groupId == groupId && m.userId == userId));
    GroupMemberRepository.DeleteByGroupIdAndUserId(db, groupId, userId);
    r := Ok(());
  }

  /** Removing a member undoes adding it, and the user is no longer reported as a member. */
  lemma AddThenRemove(users: seq<User>, members: seq<GroupMember>, userId: int, groupId: int)
    requires GroupMember(userId, groupId) !in members
    ensures GroupMemberRepository.WithoutMember(members + [GroupMember(userId, groupId)], groupId, userId) == members
    ensures !ContainsUser(users, GroupMemberRepository.WithoutMember(members + [GroupMember(userId, groupId)], groupId, userId), groupId, userId)
  {
    var p := (m: GroupMember) => !(m.groupId == groupId && m.userId == userId);
    Seqs.FilterConcat(members, [GroupMember(userId, groupId)], p);
    GroupMemberRepository.WithoutAbsentMember(members, groupId, userId);
    assert Seqs.Filter([GroupMember(userId, groupId)], p) == [];
    ContainsUserIffRow(users, members, groupId, userId);
  }

  /**
   * removeGroup: an unknown id is GroupNotFound; otherwise the group row is
   * deleted.  Its membership rows are not deleted with it.
   */
  method RemoveGroup(db: Persistence.Database, id: int) returns (r: Result<()>)
    requires db.Valid() && MembershipInvariant(db)
    modifies db`groups
    ensures db.Valid() && MembershipInvariant(db)
    ensures r.Err? <==> GroupRepository.FindById(old(db.groups), id).None?
    ensures r.Err? ==> r.error == GroupNotFound && db.groups == old(db.groups)
    ensures r.Ok? ==> db.groups == GroupRepository.WithoutGroup(old(db.groups), id)
    ensures UniqueNames(old(db.groups)) ==> UniqueNames(db.groups)
  {
    if GroupRepository.FindById(db.groups, id).None? {
      return Err(GroupNotFound);
    }
    Seqs.FilterDistinctBy(db.groups, (g: Group) => g.id != id, (g: Group) => g.id);
    if UniqueNames(db.groups) {
      FilterKeepsNames(db.groups, (g: Group) => g.id != id);
    }
    db.groups := GroupRepository.WithoutGroup(db.groups, id);
    r := Ok(());
  }

  lemma {:induction false} FilterKeepsNames(groups: seq<Group>, p: Group -> bool)
    requires UniqueNames(groups)
    ensures UniqueNames(Seqs.Filter(groups, p))
  {
    Seqs.FilterDistinctBy(groups, p, (g: Group) => (g.creatorId, g.name));
  }

  /** Once a group is removed, asking for its members is GroupNotFound. */
  lemma RemovedGroupHasNoMembers(users: seq<User>, groups: seq<Group>, members: seq<GroupMember>, id: int)
    ensures GetGroupMembers(users, GroupRepository.WithoutGroup(groups, id), members, id) == Err(GroupNotFound)
  {
  }
}
