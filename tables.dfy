/** The `order`, `milestone`, `bid`, `project` and `transaction` tables that several
    services share, with the repository statements the modelled code uses beyond
    BaseMapper's selectById/insert/updateById. A row's id is its position in its
    table; selectById(id) is `rows[id]` when `id < |rows|`. */
module Tables {

  import opened Wrappers
  import O = OrderEntity
  import M = MilestoneEntity
  import B = BidEntity
  import P = ProjectEntity
  import T = TransactionEntity
  import U = UserEntity

  /** The first live order of a project among rows[i..]. */
  function OrderOfProjectFrom(rows: seq<O.Order>, projectId: nat, i: nat): (r: Option<nat>)
    requires i <= |rows|
    ensures r.Some? ==> i <= r.value < |rows| && rows[r.value].projectId == projectId && !rows[r.value].deleted
    ensures r.None? ==> forall j :: i <= j < |rows| ==> !(rows[j].projectId == projectId && !rows[j].deleted)
    decreases |rows| - i
  {
    if i == |rows| then None
    else if rows[i].projectId == projectId && !rows[i].deleted then Some(i)
    else OrderOfProjectFrom(rows, projectId, i + 1)
  }

  class OrderRepository {
    var rows: seq<O.Order>

    /** Order amounts come from bid prices and are never negative. */
    ghost predicate Valid()
      reads this
    {
      forall i :: 0 <= i < |rows| ==> rows[i].amount >= 0.0
    }

    constructor()
      ensures rows == [] && Valid()
    {
      rows := [];
    }

    /** `SELECT * FROM order WHERE project_id = ? AND deleted_at IS NULL`, whatever
        the order's status. */
    function FindByProjectId(projectId: nat): Option<nat>
      reads this
    {
      OrderOfProjectFrom(rows, projectId, 0)
    }
  }

  class MilestoneRepository {
    var rows: seq<M.Milestone>

    /** Milestone amounts are never negative. */
    ghost predicate Valid()
      reads this
    {
      forall i :: 0 <= i < |rows| ==> rows[i].amount >= 0.0
    }

    constructor()
      ensures rows == [] && Valid()
    {
      rows := [];
    }
  }

  /** countByProjectAndDeveloper over rows[..n]: the live bids of the developer on
      the project, whatever their status. */
  function CountBids(rows: seq<B.Bid>, projectId: nat, developerId: nat, n: nat): (c: nat)
    requires n <= |rows|
    ensures c == 0 <==> forall i :: 0 <= i < n ==> !(rows[i].projectId == projectId && rows[i].developerId == developerId && !rows[i].deleted)
  {
    if n == 0 then 0
    else
      var b := rows[n - 1];
      CountBids(rows, projectId, developerId, n - 1)
      + (if b.projectId == projectId && b.developerId == developerId && !b.deleted then 1 else 0)
  }

  class BidRepository {
    var rows: seq<B.Bid>

    /** Bid prices are validated to be at least 1, so never negative. */
    ghost predicate Valid()
      reads this
    {
      forall i :: 0 <= i < |rows| ==> rows[i].proposedPrice >= 0.0
    }

    constructor()
      ensures rows == [] && Valid()
    {
      rows := [];
    }

    function CountByProjectAndDeveloper(projectId: nat, developerId: nat): nat
      reads this
    {
      CountBids(rows, projectId, developerId, |rows|)
    }
  }

  /** selectById finds the project: it has a row that deleteById has not removed. */
  predicate FoundProject(rows: seq<P.Project>, id: nat)
  {
    id < |rows| && !rows[id].removed
  }

  /** A project row counts as present when selectById finds it and its deletedAt is
      null: the check getProjectEntity makes (ProjectServiceImpl.java:310-316). */
  predicate LiveProject(rows: seq<P.Project>, id: nat)
  {
    FoundProject(rows, id) && !rows[id].deleted
  }

  class ProjectRepository {
    var rows: seq<P.Project>

    /** The view and bid counters start at 0 and are never negative. */
    ghost predicate Valid()
      reads this
    {
      forall i :: 0 <= i < |rows| ==> rows[i].viewCount >= 0 && rows[i].bidCount >= 0
    }

    constructor()
      ensures rows == [] && Valid()
    {
      rows := [];
    }

    /** UPDATE project SET view_count = view_count + 1 WHERE id = ?. */
    method IncrementViewCount(id: nat)
      modifies this
      ensures old(Valid()) ==> Valid()
      ensures rows == if FoundProject(old(rows), id) then old(rows)[id := old(rows)[id].(viewCount := old(rows)[id].viewCount + 1)] else old(rows)
    {
      if FoundProject(rows, id) {
        rows := rows[id := rows[id].(viewCount := rows[id].viewCount + 1)];
      }
    }

    /** UPDATE project SET bid_count = bid_count + 1 WHERE id = ?. */
    method IncrementBidCount(id: nat)
      modifies this
      ensures old(Valid()) ==> Valid()
      ensures rows == if FoundProject(old(rows), id) then old(rows)[id := old(rows)[id].(bidCount := old(rows)[id].bidCount + 1)] else old(rows)
    {
      if FoundProject(rows, id) {
        rows := rows[id := rows[id].(bidCount := rows[id].bidCount + 1)];
      }
    }

    /** UPDATE project SET bid_count = GREATEST(bid_count - 1, 0) WHERE id = ?. */
    method DecrementBidCount(id: nat)
      modifies this
      ensures old(Valid()) ==> Valid()
      ensures rows == if FoundProject(old(rows), id) then old(rows)[id := old(rows)[id].(bidCount := GreatestZero(old(rows)[id].bidCount - 1))] else old(rows)
    {
      if FoundProject(rows, id) {
        rows := rows[id := rows[id].(bidCount := GreatestZero(rows[id].bidCount - 1))];
      }
    }
  }

  /** GREATEST(x, 0). */
  function GreatestZero(x: int): (r: int)
    ensures r >= 0 && r >= x && (r == x || r == 0)
  {
    if x > 0 then x else 0
  }

  class TransactionRepository {
    var rows: seq<T.Transaction>

    /** Every recorded amount is non-negative. */
    ghost predicate Valid()
      reads this
    {
      forall i :: 0 <= i < |rows| ==> rows[i].amount >= 0.0
    }

    constructor()
      ensures rows == [] && Valid()
    {
      rows := [];
    }
  }

  class UserRepository {
    var rows: seq<U.User>

    constructor()
      ensures rows == []
    {
      rows := [];
    }
  }
}
