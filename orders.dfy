/** OrderServiceImpl: the order and milestone lifecycles, and the escrow moves they
    trigger through the wallet service. Every method is one database transaction;
    a wallet-service error rolls it back whole, and since the wallet call is each
    method's first write, the wallet service's own rollback already restores
    everything. */
module Orders {

  import opened Wrappers
  import opened WalletLedger
  import O = OrderEntity
  import M = MilestoneEntity
  import B = BidEntity
  import P = ProjectEntity
  import MQ = MilestoneQueries
  import opened Tables
  import opened Wallets
  import opened Text

  /** The order lifecycle: PENDING_PAYMENT to IN_PROGRESS on payment, IN_PROGRESS and
      DELIVERED back and forth as milestones are submitted and reviewed, COMPLETED
      after the last approval, CANCELLED from PENDING_PAYMENT or IN_PROGRESS.
      Staying put is a step too; DISPUTED is never entered. */
  predicate OrderStep(from: O.Status, to: O.Status)
  {
    from == to
    || (from == O.PendingPayment && (to == O.InProgress || to == O.Cancelled))
    || (from == O.InProgress && (to == O.Delivered || to == O.Completed || to == O.Cancelled))
    || (from == O.Delivered && (to == O.InProgress || to == O.Completed))
  }

  /** CANCELLED and COMPLETED are final. */
  lemma FinalStates(s: O.Status)
    ensures OrderStep(O.Cancelled, s) <==> s == O.Cancelled
    ensures OrderStep(O.Completed, s) <==> s == O.Completed
    ensures !OrderStep(s, O.Disputed) || s == O.Disputed
  {
  }

  /** completeOrder writes COMPLETED, and reviewMilestone writes IN_PROGRESS in its
      reject branch and in its approve branch when milestones remain, over whatever
      status the order has. Those writes are lifecycle steps only from the statuses
      listed here; from CANCELLED both leave the lifecycle. */
  lemma UncheckedStatusWrites(s: O.Status)
    ensures OrderStep(s, O.Completed) <==> s == O.InProgress || s == O.Delivered || s == O.Completed
    ensures OrderStep(s, O.InProgress) <==> s == O.PendingPayment || s == O.InProgress || s == O.Delivered
    ensures !OrderStep(O.Cancelled, O.Completed) && !OrderStep(O.Cancelled, O.InProgress)
  {
  }

  /** The progress toVO reports: completed * 100 / total in Java int arithmetic (the
      count is never negative, so truncation is floor), and 0 without milestones. */
  function Progress(completed: nat, total: int): int
  {
    if total > 0 then completed * 100 / total else 0
  }

  lemma MulMonotone(b: int, x: int, y: int)
    requires b > 0 && x <= y
    ensures b * x <= b * y && x * b <= y * b
  {
    assert b * y - b * x == b * (y - x);
  }

  lemma MulCancel(b: int, x: int, y: int)
    requires b > 0 && b * x < b * y
    ensures x < y
  {
    if x >= y {
      MulMonotone(b, y, x);
    }
  }

  /** Integer division rounds down: a / b is the q with b*q <= a < b*(q+1). */
  lemma DivBounds(a: nat, b: int)
    requires b > 0
    ensures b * (a / b) <= a < b * (a / b + 1)
  {
    var q, r := a / b, a % b;
    assert a == b * q + r;
    assert b * (q + 1) == b * q + b;
  }

  /** Progress is the percentage rounded down, 100 exactly when every counted
      milestone is approved, and never falls when another milestone is approved. */
  lemma ProgressSpec(completed: nat, total: int)
    ensures total <= 0 ==> Progress(completed, total) == 0
    ensures total > 0 ==>
      total * Progress(completed, total) <= completed * 100 < total * (Progress(completed, total) + 1)
    ensures completed <= total ==> 0 <= Progress(completed, total) <= 100
    ensures 0 < total && completed <= total ==> (Progress(completed, total) == 100 <==> completed == total)
    ensures Progress(completed, total) <= Progress(completed + 1, total)
  {
    if total > 0 {
      DivBounds(completed * 100, total);
      if completed <= total {
        ProgressAtMost(completed, total);
      }
      ProgressMonotone(completed, total);
    }
  }

  lemma ProgressAtMost(completed: nat, total: int)
    requires 0 < total && completed <= total
    ensures Progress(completed, total) <= 100
    ensures Progress(completed, total) == 100 <==> completed == total
  {
    var a := completed * 100;
    var p := a / total;
    assert Progress(completed, total) == p;
    DivBounds(a, total);
    MulMonotone(100, completed, total);
    assert a <= total * 100;
    assert total * 101 == total * 100 + total;
    MulCancel(total, p, 101);
    if completed == total {
      MulCancel(total, 100, p + 1);
    } else {
      MulMonotone(100, completed + 1, total);
      assert a < total * 100;
      MulCancel(total, p, 100);
    }
  }

  lemma ProgressMonotone(completed: nat, total: int)
    requires 0 < total
    ensures Progress(completed, total) <= Progress(completed + 1, total)
  {
    var a, b := completed * 100, (completed + 1) * 100;
    var p, q := a / total, b / total;
    DivBounds(a, total);
    DivBounds(b, total);
    assert total * p < total * (q + 1);
    MulCancel(total, p, q + 1);
  }

  lemma ProgressExample()
    ensures Progress(1, 3) == 33 && Progress(2, 3) == 66 && Progress(3, 3) == 100 && Progress(0, 0) == 0
  {
  }

  /** `mapToInt(Milestone::getSequence).max().orElse(0)` over the listed milestones. */
  function MaxSequence(ms: seq<M.Milestone>, ids: seq<nat>): (r: int)
    requires MQ.ValidIds(ms, ids)
    ensures forall k :: 0 <= k < |ids| ==> ms[ids[k]].sequence <= r
    ensures ids == [] ==> r == 0
    ensures ids != [] ==> exists k :: 0 <= k < |ids| && ms[ids[k]].sequence == r
  {
    if ids == [] then 0
    else if |ids| == 1 then ms[ids[0]].sequence
    else
      var rest := MaxSequence(ms, ids[1..]);
      assert forall k :: 1 <= k < |ids| ==> ids[k] == ids[1..][k - 1];
      if ms[ids[0]].sequence > rest then ms[ids[0]].sequence else rest
  }

  /** addMilestone's new sequence exceeds that of every live milestone of the order. */
  lemma NextSequenceIsFresh(ms: seq<M.Milestone>, orderId: nat)
    ensures MQ.ValidIds(ms, MQ.FindByOrderId(ms, orderId))
    ensures forall i :: 0 <= i < |ms| && ms[i].orderId == orderId && !ms[i].deleted ==>
      ms[i].sequence < MaxSequence(ms, MQ.FindByOrderId(ms, orderId)) + 1
  {
    var ids := MQ.FindByOrderId(ms, orderId);
    MQ.FindByOrderIdSpec(ms, orderId);
    forall i | 0 <= i < |ms| && ms[i].orderId == orderId && !ms[i].deleted
      ensures ms[i].sequence < MaxSequence(ms, ids) + 1
    {
      var k :| 0 <= k < |ids| && ids[k] == i;
    }
  }

  /** The sequence addMilestone assigns is one past the sequence of some live
      milestone of the order, or 1 when the order has none. */
  lemma NextSequenceIsNext(ms: seq<M.Milestone>, orderId: nat)
    ensures MQ.ValidIds(ms, MQ.FindByOrderId(ms, orderId))
    ensures var next := MaxSequence(ms, MQ.FindByOrderId(ms, orderId)) + 1;
      (exists i :: 0 <= i < |ms| && ms[i].orderId == orderId && !ms[i].deleted && ms[i].sequence + 1 == next)
      || ((forall i :: 0 <= i < |ms| && ms[i].orderId == orderId ==> ms[i].deleted) && next == 1)
  {
    MQ.FindByOrderIdSpec(ms, orderId);
    var ids := MQ.FindByOrderId(ms, orderId);
    if ids != [] {
      var k :| 0 <= k < |ids| && ms[ids[k]].sequence == MaxSequence(ms, ids);
      assert ids[k] in ids;
    } else {
      forall i | 0 <= i < |ms| && ms[i].orderId == orderId
        ensures ms[i].deleted
      {
        assert i !in ids;
      }
    }
  }

  /** The milestone addMilestone inserts: PENDING, without submission or
      review note, numbered one past the order's highest live sequence. */
  function NextMilestone(ms: seq<M.Milestone>, orderId: nat, title: string, description: Option<string>,
                         amount: real, dueDate: int): (m: M.Milestone)
    ensures m.orderId == orderId && m.title == title && m.description == description
    ensures m.amount == amount && m.dueDate == dueDate && m.status == M.Pending && !m.deleted
    ensures m.submitNote.None? && m.reviewNote.None?
    ensures forall i :: 0 <= i < |ms| && ms[i].orderId == orderId && !ms[i].deleted ==> ms[i].sequence < m.sequence
    ensures (exists i :: 0 <= i < |ms| && ms[i].orderId == orderId && !ms[i].deleted && ms[i].sequence + 1 == m.sequence)
            || ((forall i :: 0 <= i < |ms| && ms[i].orderId == orderId ==> ms[i].deleted) && m.sequence == 1)
  {
    NextSequenceIsFresh(ms, orderId);
    NextSequenceIsNext(ms, orderId);
    M.Milestone(orderId, title, description, amount, MaxSequence(ms, MQ.FindByOrderId(ms, orderId)) + 1,
                M.Pending, dueDate, None, None, false)
  }

  predicate LiveOrder(rows: seq<O.Order>, id: nat)
  {
    id < |rows| && !rows[id].deleted
  }

  predicate LiveMilestone(ms: seq<M.Milestone>, id: nat)
  {
    id < |ms| && !ms[id].deleted
  }

  /** The milestone table once findNextPendingByOrderId's milestone, if there is one,
      is set IN_PROGRESS. */
  function Activated(ms: seq<M.Milestone>, orderId: nat): seq<M.Milestone>
  {
    match MQ.FindNextPending(ms, orderId)
    case None => ms
    case Some(k) =>
      MQ.FindNextPendingSpec(ms, orderId);
      ms[k := ms[k].(status := M.InProgress)]
  }

  /** Activation starts the order's lowest-sequence PENDING milestone and changes
      nothing else; an order without one is left as it is. */
  lemma ActivatedSpec(ms: seq<M.Milestone>, orderId: nat)
    ensures |Activated(ms, orderId)| == |ms|
    ensures MQ.FindNextPending(ms, orderId).None? ==> Activated(ms, orderId) == ms
    ensures MQ.FindNextPending(ms, orderId).Some? ==>
      var k := MQ.FindNextPending(ms, orderId).value;
      k < |ms| && ms[k].status == M.Pending && ms[k].orderId == orderId
      && Activated(ms, orderId)[k] == ms[k].(status := M.InProgress)
      && (forall i :: 0 <= i < |ms| && i != k ==> Activated(ms, orderId)[i] == ms[i])
      && (forall i :: 0 <= i < |ms| && ms[i].orderId == orderId && ms[i].status == M.Pending && !ms[i].deleted
            ==> ms[k].sequence <= ms[i].sequence)
  {
    MQ.FindNextPendingSpec(ms, orderId);
  }

  /** updateById of the project, if selectById found it, with a new status. */
  function WithProjectStatus(rows: seq<P.Project>, projectId: nat, s: P.Status): seq<P.Project>
  {
    if FoundProject(rows, projectId) then rows[projectId := rows[projectId].(status := s)] else rows
  }

  /** The default milestone createOrderFromBid adds to a new order. */
  function DefaultMilestone(orderId: nat, amount: real, dueDate: int): M.Milestone
  {
    M.Milestone(orderId, "项目交付", Some("完成全部项目需求并交付"), amount, 1, M.Pending, dueDate, None, None, false)
  }

  lemma NoEarlierMatch(ms: seq<M.Milestone>, orderId: nat, st: set<M.Status>, n: nat)
    requires n <= |ms| && forall i :: 0 <= i < n ==> ms[i].orderId != orderId
    ensures MQ.Select(ms, orderId, st, n) == []
  {
  }

  /** On a table whose last row is the only one of its order, the order's live rows
      of a status set are that row if its status is in the set, else none. */
  lemma LastRowAlone(ms: seq<M.Milestone>, orderId: nat, st: set<M.Status>)
    requires |ms| > 0 && ms[|ms| - 1].orderId == orderId && !ms[|ms| - 1].deleted
    requires forall i :: 0 <= i < |ms| - 1 ==> ms[i].orderId != orderId
    ensures MQ.Matching(ms, orderId, st) == if ms[|ms| - 1].status in st then [|ms| - 1] else []
  {
    NoEarlierMatch(ms, orderId, st, |ms| - 1);
  }

  /** A new order has exactly its default milestone: findByOrderId lists it alone, nothing
      is approved yet, and a refund before any approval returns the whole amount. */
  lemma NewOrderMilestones(ms: seq<M.Milestone>, orderId: nat, amount: real, dueDate: int)
    requires forall i :: 0 <= i < |ms| ==> ms[i].orderId != orderId
    ensures var ms' := ms + [DefaultMilestone(orderId, amount, dueDate)];
      MQ.FindByOrderId(ms', orderId) == [|ms|]
      && MQ.CountCompleted(ms', orderId) == 0
      && MQ.FindNextPending(ms', orderId) == Some(|ms|)
      && RefundAmount(ms', orderId) == amount
  {
    NewOrderListed(ms, orderId, amount, dueDate);
    NewOrderPending(ms, orderId, amount, dueDate);
  }

  /** On a new order nothing is approved and the default milestone is the next
      PENDING one. */
  lemma NewOrderPending(ms: seq<M.Milestone>, orderId: nat, amount: real, dueDate: int)
    requires forall i :: 0 <= i < |ms| ==> ms[i].orderId != orderId
    ensures var ms' := ms + [DefaultMilestone(orderId, amount, dueDate)];
      MQ.CountCompleted(ms', orderId) == 0 && MQ.FindNextPending(ms', orderId) == Some(|ms|)
  {
    var ms' := ms + [DefaultMilestone(orderId, amount, dueDate)];
    assert ms'[|ms|].status == M.Pending;
    LastRowAlone(ms', orderId, {M.Approved});
    LastRowAlone(ms', orderId, {M.Pending});
  }

  /** findByOrderId on a new order lists its default milestone alone, whose whole
      amount a refund returns. */
  lemma NewOrderListed(ms: seq<M.Milestone>, orderId: nat, amount: real, dueDate: int)
    requires forall i :: 0 <= i < |ms| ==> ms[i].orderId != orderId
    ensures var ms' := ms + [DefaultMilestone(orderId, amount, dueDate)];
      MQ.FindByOrderId(ms', orderId) == [|ms|] && RefundAmount(ms', orderId) == amount
  {
    var ms' := ms + [DefaultMilestone(orderId, amount, dueDate)];
    LastRowAlone(ms', orderId, MQ.AnyStatus);
    assert ms'[|ms|].status in MQ.AnyStatus;
    assert [|ms|][1..] == [];
    assert MQ.SortBySequence(ms', [|ms|]) == [|ms|];
    assert SumAmounts(ms', [|ms|], Unapproved) == amount + SumAmounts(ms', [], Unapproved);
  }

  /** Milestone updateById with a review decision: the review note is written only
      when the request carries one (updateById skips null fields). */
  function Reviewed(m: M.Milestone, s: M.Status, reviewNote: Option<string>): M.Milestone
  {
    m.(status := s, reviewNote := if reviewNote.Some? then reviewNote else m.reviewNote)
  }

  /** submitMilestone's checks as the source makes them once both rows are found: the
      actor is the order's developer and the milestone is IN_PROGRESS or REJECTED.
      The order's own status is not looked at. */
  function SubmitCheckAsWritten(o: O.Order, m: M.Milestone, actor: nat): Option<ErrorCode>
  {
    if o.developerId != actor then Some(Forbidden)
    else if m.status != M.InProgress && m.status != M.Rejected then Some(BadRequest)
    else None
  }

  /** The same checks with the order-status guard the lifecycle needs: submitting
      marks the order DELIVERED, so the order must be IN_PROGRESS or already
      DELIVERED. */
  function SubmitCheck(o: O.Order, m: M.Milestone, actor: nat): Option<ErrorCode>
  {
    if o.developerId != actor then Some(Forbidden)
    else if o.status != O.InProgress && o.status != O.Delivered then Some(InvalidOrderStatus)
    else if m.status != M.InProgress && m.status != M.Rejected then Some(BadRequest)
    else None
  }

  /** With the guard, a submission is always a step of the order lifecycle, and it
      admits exactly the submissions the source admits on a running order. */
  lemma SubmitCheckKeepsLifecycle(o: O.Order, m: M.Milestone, actor: nat)
    ensures SubmitCheck(o, m, actor).None? ==> OrderStep(o.status, O.Delivered)
    ensures SubmitCheck(o, m, actor).None? <==>
      SubmitCheckAsWritten(o, m, actor).None? && (o.status == O.InProgress || o.status == O.Delivered)
  {
  }

  /** As written, the developer can submit the still IN_PROGRESS milestone of an order
      the employer has cancelled (cancelOrder leaves milestones alone), which turns
      the CANCELLED order into DELIVERED: not a step of the lifecycle. */
  lemma SubmitAsWrittenReopensCancelledOrder()
    ensures var o := O.Order(0, 0, 1, 2, 100.0, O.Cancelled, 1, 0, false);
      var m := DefaultMilestone(0, 100.0, 0).(status := M.InProgress);
      SubmitCheckAsWritten(o, m, 2).None? && !OrderStep(o.status, O.Delivered)
      && SubmitCheck(o, m, 2) == Some(InvalidOrderStatus)
  {
  }

  /** Every milestone row names an order row. */
  predicate Owned(os: seq<O.Order>, ms: seq<M.Milestone>)
  {
    forall i :: 0 <= i < |ms| ==> ms[i].orderId < |os|
  }

  /** A milestone of an existing order, with a non-negative amount, keeps both
      the owner invariant and the amount invariant of the milestone table. */
  lemma AppendKeepsOwners(os: seq<O.Order>, ms: seq<M.Milestone>, m: M.Milestone)
    requires Owned(os, ms) && m.orderId < |os| && m.amount >= 0.0
    requires forall i :: 0 <= i < |ms| ==> ms[i].amount >= 0.0
    ensures Owned(os, ms + [m])
    ensures forall i :: 0 <= i < |ms + [m]| ==> (ms + [m])[i].amount >= 0.0
  {
  }

  /** Every milestone amount is non-negative. */
  predicate Amounts(ms: seq<M.Milestone>)
  {
    forall i :: 0 <= i < |ms| ==> ms[i].amount >= 0.0
  }

  /** Rewriting one milestone row without moving it to another order or changing
      its amount keeps both invariants of the milestone table. */
  lemma UpdateKeepsOwners(os: seq<O.Order>, ms: seq<M.Milestone>, k: nat, m: M.Milestone)
    requires Owned(os, ms) && Amounts(ms) && k < |ms|
    requires m.orderId == ms[k].orderId && m.amount == ms[k].amount
    ensures Owned(os, ms[k := m]) && Amounts(ms[k := m])
  {
    var ms' := ms[k := m];
    forall i | 0 <= i < |ms'|
      ensures ms'[i].orderId < |os| && ms'[i].amount >= 0.0
    {
      if i != k {
        assert ms'[i] == ms[i];
      }
    }
  }

  /** Every order amount is non-negative. */
  predicate OrderAmounts(os: seq<O.Order>)
  {
    forall i :: 0 <= i < |os| ==> os[i].amount >= 0.0
  }

  /** Rewriting one order row without changing its amount keeps the order table's
      invariant and every milestone's owner. */
  lemma OrderUpdateKeeps(os: seq<O.Order>, ms: seq<M.Milestone>, k: nat, o: O.Order)
    requires Owned(os, ms) && OrderAmounts(os) && k < |os| && o.amount == os[k].amount
    ensures Owned(os[k := o], ms) && OrderAmounts(os[k := o])
  {
    var os' := os[k := o];
    forall i | 0 <= i < |os'|
      ensures os'[i].amount >= 0.0
    {
      if i != k {
        assert os'[i] == os[i];
      }
    }
  }

  /** Starting the next milestone keeps both invariants and the table's length. */
  lemma ActivatedKeepsOwners(os: seq<O.Order>, ms: seq<M.Milestone>, orderId: nat)
    requires Owned(os, ms) && Amounts(ms)
    ensures |Activated(ms, orderId)| == |ms|
    ensures Owned(os, Activated(ms, orderId)) && Amounts(Activated(ms, orderId))
  {
    ActivatedSpec(ms, orderId);
    match MQ.FindNextPending(ms, orderId)
    case None =>
    case Some(k) =>
      UpdateKeepsOwners(os, ms, k, ms[k].(status := M.InProgress));
  }

  class OrderService {
    const orders: OrderRepository
    const milestones: MilestoneRepository
    const bids: BidRepository
    const projects: ProjectRepository
    const wallet: WalletService

    /** The wallet service sees the same order and milestone tables, and every
        milestone belongs to an order. */
    ghost predicate Valid()
      reads this, orders, milestones, bids, projects, wallet, wallet.wallets, wallet.transactions
    {
      wallet.orders == orders && wallet.milestones == milestones && wallet.Valid() && bids.Valid()
      && Owned(orders.rows, milestones.rows)
    }

    constructor(orders: OrderRepository, milestones: MilestoneRepository, bids: BidRepository,
                projects: ProjectRepository, wallet: WalletService)
      requires wallet.orders == orders && wallet.milestones == milestones
      ensures this.orders == orders && this.milestones == milestones && this.bids == bids
      ensures this.projects == projects && this.wallet == wallet
    {
      this.orders := orders;
      this.milestones := milestones;
      this.bids := bids;
      this.projects := projects;
      this.wallet := wallet;
    }

    /** createOrderFromBid: an ACCEPTED bid on a project without a live order becomes
        a PENDING_PAYMENT order for the bid's price, with one PENDING milestone of
        sequence 1 for the same amount. */
    method CreateOrderFromBid(bidId: nat) returns (r: Result<nat>)
      requires Valid()
      modifies orders, milestones
      ensures Valid()
      ensures r.Ok? <==>
        bidId < |bids.rows| && !bids.rows[bidId].deleted && bids.rows[bidId].status == B.Accepted
        && FoundProject(projects.rows, bids.rows[bidId].projectId)
        && OrderOfProjectFrom(old(orders.rows), bids.rows[bidId].projectId, 0).None?
      ensures r.Err? ==> orders.rows == old(orders.rows) && milestones.rows == old(milestones.rows)
      ensures r.Err? ==>
        r.error == if bidId >= |bids.rows| || bids.rows[bidId].deleted then NotFound
                   else if bids.rows[bidId].status != B.Accepted then BadRequest
                   else if !FoundProject(projects.rows, bids.rows[bidId].projectId) then ProjectNotFound
                   else Conflict
      ensures r.Ok? ==>
        var b := bids.rows[bidId];
        var p := projects.rows[b.projectId];
        r.value == |old(orders.rows)|
        && orders.rows == old(orders.rows)
             + [O.Order(b.projectId, bidId, p.userId, b.developerId, b.proposedPrice, O.PendingPayment, 1, p.deadline, false)]
        && milestones.rows == old(milestones.rows) + [DefaultMilestone(r.value, b.proposedPrice, p.deadline)]
    {
      if bidId >= |bids.rows| || bids.rows[bidId].deleted {
        return Err(NotFound);
      }
      var bid := bids.rows[bidId];
      if bid.status != B.Accepted {
        return Err(BadRequest);
      }
      if !FoundProject(projects.rows, bid.projectId) {
        return Err(ProjectNotFound);
      }
      var project := projects.rows[bid.projectId];
      if orders.FindByProjectId(bid.projectId).Some? {
        return Err(Conflict);
      }
      var orderId := |orders.rows|;
      orders.rows := orders.rows
        + [O.Order(bid.projectId, bidId, project.userId, bid.developerId, bid.proposedPrice, O.PendingPayment, 1, project.deadline, false)];
      milestones.rows := milestones.rows + [DefaultMilestone(orderId, bid.proposedPrice, project.deadline)];
      r := Ok(orderId);
    }

    /** cancelOrder: the employer cancels a PENDING_PAYMENT or IN_PROGRESS order; a
        paid one first has its unapproved milestone amounts refunded. The project is
        reopened. Milestones are not touched. */
    method CancelOrder(actor: nat, id: nat) returns (r: Result<()>)
      requires Valid()
      modifies orders, projects, wallet.wallets, wallet.transactions
      ensures Valid()
      ensures milestones.rows == old(milestones.rows)
      ensures r.Ok? <==>
        LiveOrder(old(orders.rows), id) && old(orders.rows)[id].employerId == actor
        && (old(orders.rows)[id].status == O.PendingPayment
            || (old(orders.rows)[id].status == O.InProgress
                && CanRefund(old(wallet.wallets.rows), old(orders.rows)[id].employerId, RefundAmount(milestones.rows, id))))
      ensures r.Err? ==>
        orders.rows == old(orders.rows) && projects.rows == old(projects.rows)
        && wallet.wallets.rows == old(wallet.wallets.rows) && wallet.transactions.rows == old(wallet.transactions.rows)
      ensures r.Err? ==>
        r.error == if !LiveOrder(old(orders.rows), id) then OrderNotFound
                   else if old(orders.rows)[id].employerId != actor then Forbidden
                   else if old(orders.rows)[id].status !in {O.PendingPayment, O.InProgress} then OrderCannotCancel
                   else Internal("退款失败，托管金额不足")
      ensures r.Ok? ==>
        var o := old(orders.rows)[id];
        orders.rows == old(orders.rows)[id := o.(status := O.Cancelled)]
        && OrderStep(o.status, O.Cancelled)
        && projects.rows == WithProjectStatus(old(projects.rows), o.projectId, P.Open)
        && (o.status == O.PendingPayment ==>
              wallet.wallets.rows == old(wallet.wallets.rows) && wallet.transactions.rows == old(wallet.transactions.rows))
        && (o.status == O.InProgress ==>
              var refund := RefundAmount(milestones.rows, id);
              wallet.wallets.rows == AfterRefund(old(wallet.wallets.rows), o.employerId, refund)
              && wallet.transactions.rows
                 == old(wallet.transactions.rows) + RefundRecords(old(wallet.wallets.rows), o.employerId, id, refund))
    {
      if !LiveOrder(orders.rows, id) {
        return Err(OrderNotFound);
      }
      var order := orders.rows[id];
      if order.employerId != actor {
        return Err(Forbidden);
      }
      if order.status != O.PendingPayment && order.status != O.InProgress {
        return Err(OrderCannotCancel);
      }
      if order.status == O.InProgress {
        var refunded := wallet.RefundEscrow(id);
        if refunded.Err? {
          return Err(refunded.error);
        }
      }
      OrderUpdateKeeps(orders.rows, milestones.rows, id, order.(status := O.Cancelled));
      orders.rows := orders.rows[id := order.(status := O.Cancelled)];
      projects.rows := WithProjectStatus(projects.rows, order.projectId, P.Open);
      r := Ok(());
    }

    /** confirmPayment: the employer pays a PENDING_PAYMENT order into escrow; the
        order goes IN_PROGRESS and its lowest-sequence PENDING milestone starts. */
    method ConfirmPayment(actor: nat, id: nat) returns (r: Result<()>)
      requires Valid()
      modifies orders, milestones, wallet.wallets, wallet.transactions
      ensures Valid()
      ensures r.Ok? <==>
        LiveOrder(old(orders.rows), id) && old(orders.rows)[id].employerId == actor
        && old(orders.rows)[id].status == O.PendingPayment
        && WalletOf(old(wallet.wallets.rows), old(orders.rows)[id].employerId).balance >= old(orders.rows)[id].amount
      ensures r.Err? ==>
        orders.rows == old(orders.rows) && milestones.rows == old(milestones.rows)
        && wallet.wallets.rows == old(wallet.wallets.rows) && wallet.transactions.rows == old(wallet.transactions.rows)
      ensures r.Err? ==>
        r.error == if !LiveOrder(old(orders.rows), id) then OrderNotFound
                   else if old(orders.rows)[id].employerId != actor then Forbidden
                   else if old(orders.rows)[id].status != O.PendingPayment then OrderAlreadyPaid
                   else Internal("余额不足，请先充值")
      ensures r.Ok? ==>
        var o := old(orders.rows)[id];
        orders.rows == old(orders.rows)[id := o.(status := O.InProgress)]
        && milestones.rows == Activated(old(milestones.rows), id)
        && wallet.wallets.rows == AfterMove(old(wallet.wallets.rows), o.employerId, Freeze, o.amount)
        && wallet.transactions.rows
           == old(wallet.transactions.rows) + [EscrowRecord(old(wallet.wallets.rows), o.employerId, id, o.amount)]
    {
      if !LiveOrder(orders.rows, id) {
        return Err(OrderNotFound);
      }
      var order := orders.rows[id];
      if order.employerId != actor {
        return Err(Forbidden);
      }
      if order.status != O.PendingPayment {
        return Err(OrderAlreadyPaid);
      }
      var paid := wallet.EscrowPayment(id, order.amount);
      if paid.Err? {
        return Err(paid.error);
      }
      OrderUpdateKeeps(orders.rows, milestones.rows, id, order.(status := O.InProgress));
      orders.rows := orders.rows[id := order.(status := O.InProgress)];
      ActivatedKeepsOwners(orders.rows, milestones.rows, id);
      milestones.rows := Activated(milestones.rows, id);
      r := Ok(());
    }

    /** addMilestone: the employer appends a PENDING milestone after the highest
        sequence of an IN_PROGRESS order and counts it. Neither the order amount nor
        the escrow changes. */
    method AddMilestone(actor: nat, orderId: nat, title: string, description: Option<string>, amount: real, dueDate: int)
      returns (r: Result<nat>)
      requires Valid() && NotBlank(title) && amount >= 1.0
      modifies orders, milestones
      ensures Valid()
      ensures r.Ok? <==>
        LiveOrder(old(orders.rows), orderId) && old(orders.rows)[orderId].employerId == actor
        && old(orders.rows)[orderId].status == O.InProgress
      ensures r.Err? ==> orders.rows == old(orders.rows) && milestones.rows == old(milestones.rows)
      ensures r.Err? ==>
        r.error == if !LiveOrder(old(orders.rows), orderId) then OrderNotFound
                   else if old(orders.rows)[orderId].employerId != actor then Forbidden
                   else InvalidOrderStatus
      ensures r.Ok? ==>
        var o := old(orders.rows)[orderId];
        var ms := old(milestones.rows);
        r.value == |ms|
        && milestones.rows == ms + [NextMilestone(ms, orderId, title, description, amount, dueDate)]
        && orders.rows == old(orders.rows)[orderId := o.(milestoneCount := o.milestoneCount + 1)]
    {
      if !LiveOrder(orders.rows, orderId) {
        return Err(OrderNotFound);
      }
      var order := orders.rows[orderId];
      if order.employerId != actor {
        return Err(Forbidden);
      }
      if order.status != O.InProgress {
        return Err(InvalidOrderStatus);
      }
      ghost var ms := milestones.rows;
      var id := |milestones.rows|;
      var m := NextMilestone(milestones.rows, orderId, title, description, amount, dueDate);
      AppendKeepsOwners(orders.rows, milestones.rows, m);
      milestones.rows := milestones.rows + [m];
      assert milestones.rows == ms + [m];
      OrderUpdateKeeps(orders.rows, milestones.rows, orderId, order.(milestoneCount := order.milestoneCount + 1));
      orders.rows := orders.rows[orderId := order.(milestoneCount := order.milestoneCount + 1)];
      r := Ok(id);
    }

    /** startMilestone: the order's developer starts a PENDING milestone. */
    method StartMilestone(actor: nat, milestoneId: nat) returns (r: Result<()>)
      requires Valid()
      modifies milestones
      ensures Valid()
      ensures r.Ok? <==>
        LiveMilestone(old(milestones.rows), milestoneId)
        && LiveOrder(orders.rows, old(milestones.rows)[milestoneId].orderId)
        && orders.rows[old(milestones.rows)[milestoneId].orderId].developerId == actor
        && old(milestones.rows)[milestoneId].status == M.Pending
      ensures r.Err? ==> milestones.rows == old(milestones.rows)
      ensures r.Err? ==>
        r.error == if !LiveMilestone(old(milestones.rows), milestoneId) then NotFound
                   else if !LiveOrder(orders.rows, old(milestones.rows)[milestoneId].orderId) then OrderNotFound
                   else if orders.rows[old(milestones.rows)[milestoneId].orderId].developerId != actor then Forbidden
                   else BadRequest
      ensures r.Ok? ==>
        milestones.rows == old(milestones.rows)[milestoneId := old(milestones.rows)[milestoneId].(status := M.InProgress)]
    {
      if !LiveMilestone(milestones.rows, milestoneId) {
        return Err(NotFound);
      }
      var milestone := milestones.rows[milestoneId];
      if !LiveOrder(orders.rows, milestone.orderId) {
        return Err(OrderNotFound);
      }
      if orders.rows[milestone.orderId].developerId != actor {
        return Err(Forbidden);
      }
      if milestone.status != M.Pending {
        return Err(BadRequest);
      }
      milestones.rows := milestones.rows[milestoneId := milestone.(status := M.InProgress)];
      r := Ok(());
    }

    /** submitMilestone as the source writes it: the developer submits an IN_PROGRESS
        or REJECTED milestone with a note, and the order becomes DELIVERED whatever
        its status was. */
    method SubmitMilestoneAsWritten(actor: nat, milestoneId: nat, submitNote: string) returns (r: Result<()>)
      requires Valid() && NotBlank(submitNote) && 10 <= JavaLength(submitNote) <= 2000
      modifies milestones, orders
      ensures Valid()
      ensures r.Ok? <==>
        LiveMilestone(old(milestones.rows), milestoneId)
        && LiveOrder(old(orders.rows), old(milestones.rows)[milestoneId].orderId)
        && SubmitCheckAsWritten(old(orders.rows)[old(milestones.rows)[milestoneId].orderId],
                                old(milestones.rows)[milestoneId], actor).None?
      ensures r.Err? ==> milestones.rows == old(milestones.rows) && orders.rows == old(orders.rows)
      ensures r.Err? ==>
        r.error == if !LiveMilestone(old(milestones.rows), milestoneId) then NotFound
                   else if !LiveOrder(old(orders.rows), old(milestones.rows)[milestoneId].orderId) then OrderNotFound
                   else SubmitCheckAsWritten(old(orders.rows)[old(milestones.rows)[milestoneId].orderId],
                                             old(milestones.rows)[milestoneId], actor).value
      ensures r.Ok? ==>
        var m := old(milestones.rows)[milestoneId];
        milestones.rows == old(milestones.rows)[milestoneId := m.(status := M.Submitted, submitNote := Some(submitNote))]
        && orders.rows == old(orders.rows)[m.orderId := old(orders.rows)[m.orderId].(status := O.Delivered)]
    {
      if !LiveMilestone(milestones.rows, milestoneId) {
        return Err(NotFound);
      }
      var milestone := milestones.rows[milestoneId];
      if !LiveOrder(orders.rows, milestone.orderId) {
        return Err(OrderNotFound);
      }
      var order := orders.rows[milestone.orderId];
      var refused := SubmitCheckAsWritten(order, milestone, actor);
      if refused.Some? {
        return Err(refused.value);
      }
      milestones.rows := milestones.rows[milestoneId := milestone.(status := M.Submitted, submitNote := Some(submitNote))];
      orders.rows := orders.rows[milestone.orderId := order.(status := O.Delivered)];
      r := Ok(());
    }

    /** submitMilestone with the order-status guard: as written, and refused with
        INVALID_ORDER_STATUS unless the order is IN_PROGRESS or DELIVERED, so a
        submission is always a lifecycle step. */
    method SubmitMilestone(actor: nat, milestoneId: nat, submitNote: string) returns (r: Result<()>)
      requires Valid() && NotBlank(submitNote) && 10 <= JavaLength(submitNote) <= 2000
      modifies milestones, orders
      ensures Valid()
      ensures r.Ok? <==>
        LiveMilestone(old(milestones.rows), milestoneId)
        && LiveOrder(old(orders.rows), old(milestones.rows)[milestoneId].orderId)
        && SubmitCheck(old(orders.rows)[old(milestones.rows)[milestoneId].orderId],
                       old(milestones.rows)[milestoneId], actor).None?
      ensures r.Err? ==> milestones.rows == old(milestones.rows) && orders.rows == old(orders.rows)
      ensures r.Err? ==>
        r.error == if !LiveMilestone(old(milestones.rows), milestoneId) then NotFound
                   else if !LiveOrder(old(orders.rows), old(milestones.rows)[milestoneId].orderId) then OrderNotFound
                   else SubmitCheck(old(orders.rows)[old(milestones.rows)[milestoneId].orderId],
                                    old(milestones.rows)[milestoneId], actor).value
      ensures r.Ok? ==>
        var m := old(milestones.rows)[milestoneId];
        var o := old(orders.rows)[m.orderId];
        milestones.rows == old(milestones.rows)[milestoneId := m.(status := M.Submitted, submitNote := Some(submitNote))]
        && orders.rows == old(orders.rows)[m.orderId := o.(status := O.Delivered)]
        && OrderStep(o.status, O.Delivered)
    {
      if !LiveMilestone(milestones.rows, milestoneId) {
        return Err(NotFound);
      }
      var milestone := milestones.rows[milestoneId];
      if !LiveOrder(orders.rows, milestone.orderId) {
        return Err(OrderNotFound);
      }
      var order := orders.rows[milestone.orderId];
      var refused := SubmitCheck(order, milestone, actor);
      if refused.Some? {
        return Err(refused.value);
      }
      SubmitCheckKeepsLifecycle(order, milestone, actor);
      milestones.rows := milestones.rows[milestoneId := milestone.(status := M.Submitted, submitNote := Some(submitNote))];
      orders.rows := orders.rows[milestone.orderId := order.(status := O.Delivered)];
      r := Ok(());
    }

    /** completeOrder: marks the order and its project COMPLETED, with no check of the
        caller or of the order's status. */
    method CompleteOrder(id: nat) returns (r: Result<()>)
      requires Valid()
      modifies orders, projects
      ensures Valid()
      ensures r.Ok? <==> LiveOrder(old(orders.rows), id)
      ensures r.Err? ==> r.error == OrderNotFound && orders.rows == old(orders.rows) && projects.rows == old(projects.rows)
      ensures r.Ok? ==>
        orders.rows == old(orders.rows)[id := old(orders.rows)[id].(status := O.Completed)]
        && projects.rows == WithProjectStatus(old(projects.rows), old(orders.rows)[id].projectId, P.Completed)
    {
      if !LiveOrder(orders.rows, id) {
        return Err(OrderNotFound);
      }
      var order := orders.rows[id];
      orders.rows := orders.rows[id := order.(status := O.Completed)];
      projects.rows := WithProjectStatus(projects.rows, order.projectId, P.Completed);
      r := Ok(());
    }

    /** The approval branch of reviewMilestone, once its checks have passed: the
        release, then the completion or the next milestone's start, then the
        milestone's own update. */
    method Approve(milestoneId: nat, reviewNote: Option<string>) returns (r: Result<()>)
      requires Valid() && LiveMilestone(milestones.rows, milestoneId)
      requires LiveOrder(orders.rows, milestones.rows[milestoneId].orderId)
      requires milestones.rows[milestoneId].status == M.Submitted
      modifies orders, milestones, projects, wallet.wallets, wallet.transactions
      ensures Valid()
      ensures r.Ok? <==> CanRelease(old(wallet.wallets.rows), old(orders.rows), old(milestones.rows), milestoneId)
      ensures r.Err? ==> r.error == Internal("托管金额不足或操作失败")
      ensures r.Err? ==>
        orders.rows == old(orders.rows) && milestones.rows == old(milestones.rows) && projects.rows == old(projects.rows)
        && wallet.wallets.rows == old(wallet.wallets.rows) && wallet.transactions.rows == old(wallet.transactions.rows)
      ensures r.Ok? ==>
        var ms := old(milestones.rows);
        var m := ms[milestoneId];
        var o := old(orders.rows)[m.orderId];
        wallet.wallets.rows == AfterRelease(old(wallet.wallets.rows), o.employerId, o.developerId, m.amount)
        && wallet.transactions.rows == old(wallet.transactions.rows)
             + ReleaseRecords(old(wallet.wallets.rows), o.employerId, o.developerId, m.orderId, milestoneId, m.amount)
        && (MQ.CountCompleted(ms, m.orderId) + 1 >= o.milestoneCount ==>
              orders.rows == old(orders.rows)[m.orderId := o.(status := O.Completed)]
              && projects.rows == WithProjectStatus(old(projects.rows), o.projectId, P.Completed)
              && milestones.rows == ms[milestoneId := Reviewed(m, M.Approved, reviewNote)])
        && (MQ.CountCompleted(ms, m.orderId) + 1 < o.milestoneCount ==>
              orders.rows == old(orders.rows)[m.orderId := o.(status := O.InProgress)]
              && projects.rows == old(projects.rows)
              && |Activated(ms, m.orderId)| == |ms|
              && milestones.rows == Activated(ms, m.orderId)[milestoneId := Reviewed(m, M.Approved, reviewNote)])
    {
      var released := wallet.ReleaseMilestonePayment(milestoneId);
      if released.Err? {
        return Err(released.error);
      }
      FinishApproval(milestoneId, reviewNote);
      r := Ok(());
    }

    /** What approval does to the order, its milestones and its project once the
        payment is released: completion when this approval reaches the order's
        milestone count, otherwise a restart. */
    method FinishApproval(milestoneId: nat, reviewNote: Option<string>)
      requires Valid() && LiveMilestone(milestones.rows, milestoneId)
      requires LiveOrder(orders.rows, milestones.rows[milestoneId].orderId)
      requires milestones.rows[milestoneId].status == M.Submitted
      modifies orders, milestones, projects
      ensures Valid()
      ensures
        var ms := old(milestones.rows);
        var m := ms[milestoneId];
        var o := old(orders.rows)[m.orderId];
        (MQ.CountCompleted(ms, m.orderId) + 1 >= o.milestoneCount ==>
           orders.rows == old(orders.rows)[m.orderId := o.(status := O.Completed)]
           && projects.rows == WithProjectStatus(old(projects.rows), o.projectId, P.Completed)
           && milestones.rows == ms[milestoneId := Reviewed(m, M.Approved, reviewNote)])
        && (MQ.CountCompleted(ms, m.orderId) + 1 < o.milestoneCount ==>
              orders.rows == old(orders.rows)[m.orderId := o.(status := O.InProgress)]
              && projects.rows == old(projects.rows)
              && |Activated(ms, m.orderId)| == |ms|
              && milestones.rows == Activated(ms, m.orderId)[milestoneId := Reviewed(m, M.Approved, reviewNote)])
    {
      var milestone := milestones.rows[milestoneId];
      var order := orders.rows[milestone.orderId];
      var completedCount := MQ.CountCompleted(milestones.rows, milestone.orderId) + 1;
      if completedCount >= order.milestoneCount {
        ApproveLast(milestoneId, reviewNote);
      } else {
        ApproveAndRestart(milestoneId, reviewNote);
      }
    }

    /** Approval of the milestone that completes the order: completeOrder, then the
        milestone becomes APPROVED. */
    method ApproveLast(milestoneId: nat, reviewNote: Option<string>)
      requires Valid() && LiveMilestone(milestones.rows, milestoneId)
      requires LiveOrder(orders.rows, milestones.rows[milestoneId].orderId)
      modifies orders, milestones, projects
      ensures Valid()
      ensures
        var m := old(milestones.rows)[milestoneId];
        var o := old(orders.rows)[m.orderId];
        orders.rows == old(orders.rows)[m.orderId := o.(status := O.Completed)]
        && projects.rows == WithProjectStatus(old(projects.rows), o.projectId, P.Completed)
        && milestones.rows == old(milestones.rows)[milestoneId := Reviewed(m, M.Approved, reviewNote)]
    {
      var milestone := milestones.rows[milestoneId];
      var _ := CompleteOrder(milestone.orderId);
      UpdateKeepsOwners(orders.rows, milestones.rows, milestoneId, Reviewed(milestone, M.Approved, reviewNote));
      milestones.rows := milestones.rows[milestoneId := Reviewed(milestone, M.Approved, reviewNote)];
    }

    /** Approval when milestones remain: the order goes back IN_PROGRESS, whatever
        its status, the next PENDING milestone, if any, starts, and the approved
        one becomes APPROVED. */
    method ApproveAndRestart(milestoneId: nat, reviewNote: Option<string>)
      requires Valid() && LiveMilestone(milestones.rows, milestoneId)
      requires LiveOrder(orders.rows, milestones.rows[milestoneId].orderId)
      requires milestones.rows[milestoneId].status == M.Submitted
      modifies orders, milestones
      ensures Valid()
      ensures
        var ms := old(milestones.rows);
        var m := ms[milestoneId];
        orders.rows == old(orders.rows)[m.orderId := old(orders.rows)[m.orderId].(status := O.InProgress)]
        && |Activated(ms, m.orderId)| == |ms|
        && milestones.rows == Activated(ms, m.orderId)[milestoneId := Reviewed(m, M.Approved, reviewNote)]
    {
      var milestone := milestones.rows[milestoneId];
      var order := orders.rows[milestone.orderId];
      OrderUpdateKeeps(orders.rows, milestones.rows, milestone.orderId, order.(status := O.InProgress));
      orders.rows := orders.rows[milestone.orderId := order.(status := O.InProgress)];
      ActivatedKeepsOwners(orders.rows, milestones.rows, milestone.orderId);
      milestones.rows := Activated(milestones.rows, milestone.orderId);
      UpdateKeepsOwners(orders.rows, milestones.rows, milestoneId, Reviewed(milestone, M.Approved, reviewNote));
      milestones.rows := milestones.rows[milestoneId := Reviewed(milestone, M.Approved, reviewNote)];
    }

    /** reviewMilestone: the employer decides on a SUBMITTED milestone. Approval pays
        it out of escrow and then either completes the order, when this approval
        reaches the order's milestone count, or puts the order back IN_PROGRESS and
        starts the next PENDING milestone. Rejection puts the order back IN_PROGRESS. */
    method ReviewMilestone(actor: nat, milestoneId: nat, approved: bool, reviewNote: Option<string>) returns (r: Result<()>)
      requires Valid()
      modifies orders, milestones, projects, wallet.wallets, wallet.transactions
      ensures Valid()
      ensures r.Ok? <==>
        LiveMilestone(old(milestones.rows), milestoneId)
        && LiveOrder(old(orders.rows), old(milestones.rows)[milestoneId].orderId)
        && old(orders.rows)[old(milestones.rows)[milestoneId].orderId].employerId == actor
        && old(milestones.rows)[milestoneId].status == M.Submitted
        && (approved ==> CanRelease(old(wallet.wallets.rows), old(orders.rows), old(milestones.rows), milestoneId))
      ensures r.Err? ==>
        r.error == if !LiveMilestone(old(milestones.rows), milestoneId) then NotFound
                   else if !LiveOrder(old(orders.rows), old(milestones.rows)[milestoneId].orderId) then OrderNotFound
                   else if old(orders.rows)[old(milestones.rows)[milestoneId].orderId].employerId != actor then Forbidden
                   else if old(milestones.rows)[milestoneId].status != M.Submitted then BadRequest
                   else Internal("托管金额不足或操作失败")
      ensures r.Err? ==>
        orders.rows == old(orders.rows) && milestones.rows == old(milestones.rows) && projects.rows == old(projects.rows)
        && wallet.wallets.rows == old(wallet.wallets.rows) && wallet.transactions.rows == old(wallet.transactions.rows)
      ensures r.Ok? && !approved ==>
        var m := old(milestones.rows)[milestoneId];
        milestones.rows == old(milestones.rows)[milestoneId := Reviewed(m, M.Rejected, reviewNote)]
        && orders.rows == old(orders.rows)[m.orderId := old(orders.rows)[m.orderId].(status := O.InProgress)]
        && projects.rows == old(projects.rows)
        && wallet.wallets.rows == old(wallet.wallets.rows) && wallet.transactions.rows == old(wallet.transactions.rows)
      ensures r.Ok? && approved ==>
        var ms := old(milestones.rows);
        var m := ms[milestoneId];
        var o := old(orders.rows)[m.orderId];
        wallet.wallets.rows == AfterRelease(old(wallet.wallets.rows), o.employerId, o.developerId, m.amount)
        && wallet.transactions.rows == old(wallet.transactions.rows)
             + ReleaseRecords(old(wallet.wallets.rows), o.employerId, o.developerId, m.orderId, milestoneId, m.amount)
        && (MQ.CountCompleted(ms, m.orderId) + 1 >= o.milestoneCount ==>
              orders.rows == old(orders.rows)[m.orderId := o.(status := O.Completed)]
              && projects.rows == WithProjectStatus(old(projects.rows), o.projectId, P.Completed)
              && milestones.rows == ms[milestoneId := Reviewed(m, M.Approved, reviewNote)])
        && (MQ.CountCompleted(ms, m.orderId) + 1 < o.milestoneCount ==>
              orders.rows == old(orders.rows)[m.orderId := o.(status := O.InProgress)]
              && projects.rows == old(projects.rows)
              && |Activated(ms, m.orderId)| == |ms|
              && milestones.rows == Activated(ms, m.orderId)[milestoneId := Reviewed(m, M.Approved, reviewNote)])
    {
      if !LiveMilestone(milestones.rows, milestoneId) {
        return Err(NotFound);
      }
      var milestone := milestones.rows[milestoneId];
      if !LiveOrder(orders.rows, milestone.orderId) {
        return Err(OrderNotFound);
      }
      var order := orders.rows[milestone.orderId];
      if order.employerId != actor {
        return Err(Forbidden);
      }
      if milestone.status != M.Submitted {
        return Err(BadRequest);
      }
      if approved {
        r := Approve(milestoneId, reviewNote);
      } else {
        orders.rows := orders.rows[milestone.orderId := order.(status := O.InProgress)];
        milestones.rows := milestones.rows[milestoneId := Reviewed(milestone, M.Rejected, reviewNote)];
        r := Ok(());
      }
    }
  }
}
