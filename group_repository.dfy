/** Queries over the groups table (GroupRepository). */
module GroupRepository {
  import opened Wrappers
  import opened Failures
  import opened Entities
  import Seqs
  import Panache
  import Persistence

  /** findById / findByIdOptional: the group with that primary key, if any. */
  function FindById(groups: seq<Group>, id: int): (r: Option<Group>)
    ensures r.Some? ==> r.value in groups && r.value.id == id
    ensures r.None? <==> forall g :: g in groups ==> g.id != id
  {
    if groups == [] then None
    else if groups[0].id == id then Some(groups[0])
    else FindById(groups[1..], id)
  }

  /** With unique primary keys, findById finds exactly the row that has the id. */
  lemma {:induction false} FindByIdOfMember(groups: seq<Group>, g: Group)
    requires Persistence.UniqueGroupIds(groups) && g in groups
    ensures FindById(groups, g.id) == Some(g)
  {
    if groups[0] != g {
      assert groups[0].id != g.id by {
        var k :| 0 <= k < |groups| && groups[k] == g;
      }
      assert Persistence.UniqueGroupIds(groups[1..]) by {
        forall i, j | 0 <= i < j < |groups[1..]| ensures groups[1..][i].id != groups[1..][j].id {
          assert groups[1..][i] == groups[i + 1] && groups[1..][j] == groups[j + 1];
        }
      }
      FindByIdOfMember(groups[1..], g);
    }
  }

  /** The rows of `creatorId = ? and name = ?`. */
  function Named(groups: seq<Group>, creatorId: int, name: string): (r: seq<Group>)
    ensures forall g :: g in r <==> g in groups && g.creatorId == creatorId && g.name == name
  {
    Seqs.Filter(groups, (g: Group) => g.creatorId == creatorId && g.name == name)
  }

  /**
   * existsByCreatorIdAndName: false for no row, true for one; two rows with
   * the same creator and name make singleResult() throw.
   */
  function ExistsByCreatorIdAndName(groups: seq<Group>, creatorId: int, name: string): (r: Result<bool>)
    ensures r == Ok(false) <==> forall g :: g in groups ==> !(g.creatorId == creatorId && g.name == name)
    ensures r == Ok(true) <==> |Named(groups, creatorId, name)| == 1
    ensures r.Err? <==> |Named(groups, creatorId, name)| >= 2
    ensures r.Err? ==> r.error == NonUniqueResult
  {
    var rows := Named(groups, creatorId, name);
    assert rows != [] ==> rows[0] in rows;
    match Panache.SingleResult(rows)
    case Ok(found) => Ok(found.Some?)
    case Err(e) => Err(e)
  }

  /** findByCreatorIdAndName: the single group of that creator and name, if any. */
  function FindByCreatorIdAndName(groups: seq<Group>, creatorId: int, name: string): (r: Result<Option<Group>>)
    ensures r.Ok? && r.value.Some? ==>
      r.value.value in groups && r.value.value.creatorId == creatorId && r.value.value.name == name
  {
    Panache.SingleResult(Named(groups, creatorId, name))
  }

  /** The existence test and the lookup agree on every table. */
  lemma ExistsAgreesWithFind(groups: seq<Group>, creatorId: int, name: string)
    ensures ExistsByCreatorIdAndName(groups, creatorId, name).Err?
        <==> FindByCreatorIdAndName(groups, creatorId, name).Err?
    ensures ExistsByCreatorIdAndName(groups, creatorId, name) == Ok(true)
        <==> FindByCreatorIdAndName(groups, creatorId, name).Ok?
             && FindByCreatorIdAndName(groups, creatorId, name).value.Some?
  {
  }

  /** findByCreatorId: the creator's groups in table order, or empty when there are none. */
  function FindByCreatorId(groups: seq<Group>, creatorId: int): (r: Option<seq<Group>>)
    ensures r.None? <==> forall g :: g in groups ==> g.creatorId != creatorId
    ensures r.Some? ==> forall g :: g in r.value <==> g in groups && g.creatorId == creatorId
    ensures r.Some? ==> Seqs.IsSubsequence(r.value, groups)
  {
    var rows := Seqs.Filter(groups, (g: Group) => g.creatorId == creatorId);
    assert rows != [] ==> rows[0] in rows;
    Panache.NonEmpty(rows)
  }

  /** deleteById: the table without the row that has that primary key. */
  function WithoutGroup(groups: seq<Group>, id: int): (r: seq<Group>)
    ensures forall g :: g in r <==> g in groups && g.id != id
    ensures FindById(r, id).None?
    ensures Seqs.IsSubsequence(r, groups)
  {
    Seqs.Filter(groups, (g: Group) => g.id != id)
  }
}
