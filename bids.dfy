/** The bid service: developers bid on OPEN projects, edit or withdraw their
    PENDING bids; the project owner accepts one bid (rejecting every other
    PENDING bid on the project) or rejects bids one at a time. */
module Bids {

  import opened Wrappers
  import B = BidEntity
  import P = ProjectEntity
  import opened Tables
  import opened Text

  /** getBidEntity succeeds: the row exists and its deletedAt is null. */
  predicate LiveBid(rows: seq<B.Bid>, id: nat)
  {
    id < |rows| && !rows[id].deleted
  }

  /** The developer already has a live bid on the project, in any status. */
  predicate HasLiveBid(rows: seq<B.Bid>, projectId: nat, developerId: nat)
  {
    exists i :: 0 <= i < |rows| && rows[i].projectId == projectId && rows[i].developerId == developerId && !rows[i].deleted
  }

  /** countByProjectAndDeveloper > 0 exactly when such a bid exists. */
  lemma CountMeansHasBid(rows: seq<B.Bid>, projectId: nat, developerId: nat)
    ensures CountBids(rows, projectId, developerId, |rows|) > 0 <==> HasLiveBid(rows, projectId, developerId)
  {
  }

  /** Row i is hit by rejectOtherBids' UPDATE: same project, another id, PENDING,
      deletedAt null. */
  predicate PendingRival(b: B.Bid, i: nat, projectId: nat, acceptedId: nat)
  {
    b.projectId == projectId && i != acceptedId && b.status == B.Pending && !b.deleted
  }

  /** The bid table after `UPDATE bid SET status = REJECTED` over the rivals of the
      accepted bid. Only the status of a row ever changes, every rival ends
      REJECTED and every other row is kept. */
  function RejectedOthers(rows: seq<B.Bid>, projectId: nat, acceptedId: nat): (r: seq<B.Bid>)
    ensures |r| == |rows|
    ensures forall i :: 0 <= i < |rows| ==> r[i] == rows[i].(status := r[i].status)
    ensures forall i :: 0 <= i < |rows| ==>
      if PendingRival(rows[i], i, projectId, acceptedId) then r[i].status == B.Rejected else r[i] == rows[i]
  {
    seq(|rows|, i requires 0 <= i < |rows| =>
      if PendingRival(rows[i], i, projectId, acceptedId) then rows[i].(status := B.Rejected) else rows[i])
  }

  /** After the UPDATE no rival is left PENDING, and running it again changes
      nothing. */
  lemma RejectedOthersSettles(rows: seq<B.Bid>, projectId: nat, acceptedId: nat)
    ensures var r := RejectedOthers(rows, projectId, acceptedId);
      (forall i :: 0 <= i < |r| ==> !PendingRival(r[i], i, projectId, acceptedId))
      && RejectedOthers(r, projectId, acceptedId) == r
  {
  }

  /** The bid table after acceptBid: the accepted bid is ACCEPTED, then its rivals
      are rejected. */
  function AfterAccept(rows: seq<B.Bid>, id: nat): (r: seq<B.Bid>)
    requires id < |rows|
    ensures |r| == |rows|
  {
    RejectedOthers(rows[id := rows[id].(status := B.Accepted)], rows[id].projectId, id)
  }

  /** What acceptBid does to the bids: the chosen PENDING bid becomes ACCEPTED;
      every other live bid on the project that was PENDING becomes REJECTED; no
      other bid changes, and no field other than the status changes. */
  lemma AfterAcceptSpec(rows: seq<B.Bid>, id: nat)
    requires LiveBid(rows, id) && rows[id].status == B.Pending
    ensures var r := AfterAccept(rows, id);
      r[id] == rows[id].(status := B.Accepted)
      && (forall i :: 0 <= i < |rows| && i != id ==>
            r[i] == (if PendingRival(rows[i], i, rows[id].projectId, id) then rows[i].(status := B.Rejected) else rows[i]))
      && (forall i :: 0 <= i < |rows| && i != id && rows[i].projectId == rows[id].projectId && !rows[i].deleted ==>
            r[i].status != B.Pending)
  {
    var r := AfterAccept(rows, id);
    var s := rows[id := rows[id].(status := B.Accepted)];
    assert !PendingRival(s[id], id, rows[id].projectId, id);
    forall i | 0 <= i < |rows| && i != id
      ensures r[i] == (if PendingRival(rows[i], i, rows[id].projectId, id) then rows[i].(status := B.Rejected) else rows[i])
    {
      assert s[i] == rows[i];
    }
  }

  /** updateBid's field copy: the price and the days when supplied, the proposal
      when it has text. The bid's project, developer, status and liveness are
      never touched; an empty request leaves the bid as it was. */
  function Updated(b: B.Bid, price: Option<real>, days: Option<int>, proposal: Option<string>): (r: B.Bid)
    ensures r.projectId == b.projectId && r.developerId == b.developerId && r.status == b.status && r.deleted == b.deleted
    ensures price.None? && days.None? && (proposal.None? || !HasText(proposal.value)) ==> r == b
    ensures proposal.Some? && !HasText(proposal.value) ==> r.proposal == b.proposal
  {
    b.(proposedPrice := if price.Some? then price.value else b.proposedPrice,
       proposedDays := if days.Some? then days.value else b.proposedDays,
       proposal := if proposal.Some? && HasText(proposal.value) then proposal.value else b.proposal)
  }

  class BidService {
    const bids: BidRepository
    const projects: ProjectRepository

    ghost predicate Valid()
      reads this, bids, projects
    {
      bids.Valid() && projects.Valid()
    }

    constructor(bids: BidRepository, projects: ProjectRepository)
      requires bids.Valid() && projects.Valid()
      ensures this.bids == bids && this.projects == projects && Valid()
    {
      this.bids := bids;
      this.projects := projects;
    }

    /** createBid by `actor`, whose userType is given. The request is validated
        before the call: price at least 1, 1 to 365 days, a proposal of 50 to 5000
        UTF-16 units with text in it. */
    method CreateBid(actor: nat, userType: int, projectId: nat, price: real, days: int, proposal: string)
      returns (r: Result<nat>)
      requires Valid()
      requires price >= 1.0 && 1 <= days <= 365 && 50 <= JavaLength(proposal) <= 5000 && NotBlank(proposal)
      modifies bids, projects
      ensures Valid()
      ensures r.Ok? <==>
        userType != 0 && LiveProject(old(projects.rows), projectId)
        && old(projects.rows)[projectId].status == P.Open && old(projects.rows)[projectId].userId != actor
        && !HasLiveBid(old(bids.rows), projectId, actor)
      ensures r.Err? ==> bids.rows == old(bids.rows) && projects.rows == old(projects.rows)
      ensures r.Err? ==>
        r.error == if userType == 0 then Forbidden
                   else if !LiveProject(old(projects.rows), projectId) then ProjectNotFound
                   else if old(projects.rows)[projectId].status != P.Open then InvalidProjectStatus
                   else if old(projects.rows)[projectId].userId == actor then BadRequest
                   else BidAlreadyExists
      ensures r.Ok? ==>
        r.value == |old(bids.rows)|
        && bids.rows == old(bids.rows) + [B.Bid(projectId, actor, price, days, proposal, B.Pending, false)]
        && projects.rows == old(projects.rows)[projectId := old(projects.rows)[projectId].(bidCount := old(projects.rows)[projectId].bidCount + 1)]
    {
      if userType == 0 {
        return Err(Forbidden);
      }
      if !LiveProject(projects.rows, projectId) {
        return Err(ProjectNotFound);
      }
      var project := projects.rows[projectId];
      if project.status != P.Open {
        return Err(InvalidProjectStatus);
      }
      if project.userId == actor {
        return Err(BadRequest);
      }
      CountMeansHasBid(bids.rows, projectId, actor);
      if bids.CountByProjectAndDeveloper(projectId, actor) > 0 {
        return Err(BidAlreadyExists);
      }
      var id := |bids.rows|;
      bids.rows := bids.rows + [B.Bid(projectId, actor, price, days, proposal, B.Pending, false)];
      projects.IncrementBidCount(projectId);
      r := Ok(id);
    }

    /** updateBid: the bid's developer edits a PENDING bid. Supplied values are
        validated like the create request's. */
    method UpdateBid(actor: nat, id: nat, price: Option<real>, days: Option<int>, proposal: Option<string>)
      returns (r: Result<B.Bid>)
      requires Valid()
      requires price.Some? ==> price.value >= 1.0
      requires days.Some? ==> 1 <= days.value <= 365
      requires proposal.Some? ==> 50 <= JavaLength(proposal.value) <= 5000
      modifies bids
      ensures Valid()
      ensures r.Ok? <==>
        LiveBid(old(bids.rows), id) && old(bids.rows)[id].developerId == actor && old(bids.rows)[id].status == B.Pending
      ensures r.Err? ==> bids.rows == old(bids.rows)
      ensures r.Err? ==>
        r.error == if !LiveBid(old(bids.rows), id) then NotFound
                   else if old(bids.rows)[id].developerId != actor then Forbidden
                   else BadRequest
      ensures r.Ok? ==>
        r.value == Updated(old(bids.rows)[id], price, days, proposal)
        && bids.rows == old(bids.rows)[id := r.value]
    {
      if !LiveBid(bids.rows, id) {
        return Err(NotFound);
      }
      var bid := bids.rows[id];
      if bid.developerId != actor {
        return Err(Forbidden);
      }
      if bid.status != B.Pending {
        return Err(BadRequest);
      }
      var updated := Updated(bid, price, days, proposal);
      bids.rows := bids.rows[id := updated];
      r := Ok(updated);
    }

    /** withdrawBid: the bid's developer withdraws a PENDING bid; the project's
        bid count goes down by one but not below 0. */
    method WithdrawBid(actor: nat, id: nat) returns (r: Result<()>)
      requires Valid()
      modifies bids, projects
      ensures Valid()
      ensures r.Ok? <==>
        LiveBid(old(bids.rows), id) && old(bids.rows)[id].developerId == actor && old(bids.rows)[id].status == B.Pending
      ensures r.Err? ==> bids.rows == old(bids.rows) && projects.rows == old(projects.rows)
      ensures r.Err? ==>
        r.error == if !LiveBid(old(bids.rows), id) then NotFound
                   else if old(bids.rows)[id].developerId != actor then Forbidden
                   else BadRequest
      ensures r.Ok? ==>
        var b := old(bids.rows)[id];
        bids.rows == old(bids.rows)[id := b.(status := B.Withdrawn)]
        && projects.rows == if FoundProject(old(projects.rows), b.projectId)
                            then old(projects.rows)[b.projectId := old(projects.rows)[b.projectId].(bidCount := GreatestZero(old(projects.rows)[b.projectId].bidCount - 1))]
                            else old(projects.rows)
    {
      if !LiveBid(bids.rows, id) {
        return Err(NotFound);
      }
      var bid := bids.rows[id];
      if bid.developerId != actor {
        return Err(Forbidden);
      }
      if bid.status != B.Pending {
        return Err(BadRequest);
      }
      bids.rows := bids.rows[id := bid.(status := B.Withdrawn)];
      projects.DecrementBidCount(bid.projectId);
      r := Ok(());
    }

    /** rejectOtherBids: one UPDATE over the other PENDING live bids of the
        project. */
    method RejectOtherBids(projectId: nat, acceptedId: nat)
      requires Valid()
      modifies bids
      ensures Valid()
      ensures bids.rows == RejectedOthers(old(bids.rows), projectId, acceptedId)
    {
      bids.rows := RejectedOthers(bids.rows, projectId, acceptedId);
    }

    /** acceptBid: the owner of an OPEN project accepts one of its PENDING bids.
        The other PENDING bids are rejected and the project goes IN_PROGRESS. No
        order is created here. */
    method AcceptBid(actor: nat, id: nat) returns (r: Result<B.Bid>)
      requires Valid()
      modifies bids, projects
      ensures Valid()
      ensures r.Ok? <==>
        LiveBid(old(bids.rows), id) && LiveProject(old(projects.rows), old(bids.rows)[id].projectId)
        && old(projects.rows)[old(bids.rows)[id].projectId].userId == actor
        && old(projects.rows)[old(bids.rows)[id].projectId].status == P.Open
        && old(bids.rows)[id].status == B.Pending
      ensures r.Err? ==> bids.rows == old(bids.rows) && projects.rows == old(projects.rows)
      ensures r.Err? ==>
        r.error == if !LiveBid(old(bids.rows), id) then NotFound
                   else if !LiveProject(old(projects.rows), old(bids.rows)[id].projectId) then ProjectNotFound
                   else if old(projects.rows)[old(bids.rows)[id].projectId].userId != actor then Forbidden
                   else if old(projects.rows)[old(bids.rows)[id].projectId].status != P.Open then InvalidProjectStatus
                   else BadRequest
      ensures r.Ok? ==>
        var pid := old(bids.rows)[id].projectId;
        r.value == old(bids.rows)[id].(status := B.Accepted)
        && bids.rows == AfterAccept(old(bids.rows), id)
        && projects.rows == old(projects.rows)[pid := old(projects.rows)[pid].(status := P.InProgress)]
    {
      if !LiveBid(bids.rows, id) {
        return Err(NotFound);
      }
      var bid := bids.rows[id];
      if !LiveProject(projects.rows, bid.projectId) {
        return Err(ProjectNotFound);
      }
      var project := projects.rows[bid.projectId];
      if project.userId != actor {
        return Err(Forbidden);
      }
      if project.status != P.Open {
        return Err(InvalidProjectStatus);
      }
      if bid.status != B.Pending {
        return Err(BadRequest);
      }
      var accepted := bid.(status := B.Accepted);
      bids.rows := bids.rows[id := accepted];
      RejectOtherBids(bid.projectId, id);
      projects.rows := projects.rows[bid.projectId := project.(status := P.InProgress)];
      r := Ok(accepted);
    }

    /** rejectBid: the project owner rejects one PENDING bid, whatever the
        project's status. */
    method RejectBid(actor: nat, id: nat) returns (r: Result<()>)
      requires Valid()
      modifies bids
      ensures Valid()
      ensures r.Ok? <==>
        LiveBid(old(bids.rows), id) && LiveProject(projects.rows, old(bids.rows)[id].projectId)
        && projects.rows[old(bids.rows)[id].projectId].userId == actor
        && old(bids.rows)[id].status == B.Pending
      ensures r.Err? ==> bids.rows == old(bids.rows)
      ensures r.Err? ==>
        r.error == if !LiveBid(old(bids.rows), id) then NotFound
                   else if !LiveProject(projects.rows, old(bids.rows)[id].projectId) then ProjectNotFound
                   else if projects.rows[old(bids.rows)[id].projectId].userId != actor then Forbidden
                   else BadRequest
      ensures r.Ok? ==> bids.rows == old(bids.rows)[id := old(bids.rows)[id].(status := B.Rejected)]
    {
      if !LiveBid(bids.rows, id) {
        return Err(NotFound);
      }
      var bid := bids.rows[id];
      if !LiveProject(projects.rows, bid.projectId) {
        return Err(ProjectNotFound);
      }
      if projects.rows[bid.projectId].userId != actor {
        return Err(Forbidden);
      }
      if bid.status != B.Pending {
        return Err(BadRequest);
      }
      bids.rows := bids.rows[id := bid.(status := B.Rejected)];
      r := Ok(());
    }
  }

  /** Withdrawing or rejecting needs a PENDING bid, so a bid that has left
      PENDING never changes status again through this service except by the
      accept UPDATE, which also only touches PENDING rows. */
  lemma SettledBidsStay(rows: seq<B.Bid>, id: nat, i: nat)
    requires LiveBid(rows, id) && rows[id].status == B.Pending
    requires i < |rows| && rows[i].status != B.Pending
    ensures AfterAccept(rows, id)[i] == rows[i]
  {
    AfterAcceptSpec(rows, id);
  }
}
