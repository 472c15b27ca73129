/** The administrator's operations: enabling, disabling and promoting users,
    moderating projects, reviewing withdrawal requests, and the dashboard's two
    money totals. */
module Admin {

  import opened Wrappers
  import opened WalletLedger
  import O = OrderEntity
  import P = ProjectEntity
  import T = TransactionEntity
  import U = UserEntity
  import opened Tables
  import Text
  import opened Wallets

  // ---------------------------------------------------------------------------
  // Dashboard totals

  /** An order calculateTotalAmount adds up: COMPLETED and live. */
  predicate CountedOrder(o: O.Order)
  {
    o.status == O.Completed && !o.deleted
  }

  /** calculateTotalAmount: the sum of the amounts of the live COMPLETED orders. */
  function TotalAmount(rows: seq<O.Order>): real
  {
    if rows == [] then 0.0
    else TotalAmount(rows[..|rows| - 1]) + (if CountedOrder(rows[|rows| - 1]) then rows[|rows| - 1].amount else 0.0)
  }

  /** A record calculatePlatformIncome adds up: a live SERVICE_FEE record with
      status SUCCESS. */
  predicate CountedFee(t: T.Transaction)
  {
    t.txType == T.ServiceFee && t.status == T.Success && !t.deleted
  }

  /** calculatePlatformIncome: the sum of the amounts of the counted fee records. */
  function PlatformIncome(rows: seq<T.Transaction>): real
  {
    if rows == [] then 0.0
    else PlatformIncome(rows[..|rows| - 1]) + (if CountedFee(rows[|rows| - 1]) then rows[|rows| - 1].amount else 0.0)
  }

  /** The total of a table whose amounts are all non-negative is non-negative. */
  lemma {:induction false} TotalsNonNegative(orders: seq<O.Order>, txs: seq<T.Transaction>)
    requires forall i :: 0 <= i < |orders| ==> orders[i].amount >= 0.0
    requires forall i :: 0 <= i < |txs| ==> txs[i].amount >= 0.0
    ensures TotalAmount(orders) >= 0.0 && PlatformIncome(txs) >= 0.0
    decreases |orders| + |txs|
  {
    if orders != [] {
      TotalsNonNegative(orders[..|orders| - 1], []);
    }
    if txs != [] {
      TotalsNonNegative([], txs[..|txs| - 1]);
    }
  }

  /** Platform income adds up over appended records. */
  lemma {:induction false} PlatformIncomeAppend(a: seq<T.Transaction>, b: seq<T.Transaction>)
    ensures PlatformIncome(a + b) == PlatformIncome(a) + PlatformIncome(b)
    decreases |b|
  {
    if b == [] {
      assert a + b == a;
    } else {
      var n := |b| - 1;
      assert (a + b)[..|a + b| - 1] == a + b[..n];
      PlatformIncomeAppend(a, b[..n]);
    }
  }

  /** The records a milestone release appends raise the platform income by
      exactly the service fee on the milestone amount. */
  lemma ReleaseRaisesIncomeByFee(txs: seq<T.Transaction>, rows: seq<Wallet>, employer: nat, developer: nat,
                                 orderId: nat, milestoneId: nat, amount: real)
    requires amount >= 0.0
    ensures PlatformIncome(txs + ReleaseRecords(rows, employer, developer, orderId, milestoneId, amount))
            == PlatformIncome(txs) + ServiceFee(amount)
  {
    var recs := ReleaseRecords(rows, employer, developer, orderId, milestoneId, amount);
    PlatformIncomeAppend(txs, recs);
    FeeSplit(amount);
    var income := recs[..1];
    assert PlatformIncome(income) == 0.0 by {
      assert income[..0] == [];
    }
    if ServiceFee(amount) > 0.0 {
      assert PlatformIncome(recs) == ServiceFee(amount) by {
        assert recs[..1] == income;
      }
    } else {
      assert recs == income;
    }
  }

  /** Completing a live order that was not COMPLETED adds its amount to the total. */
  lemma {:induction false} CompletingRaisesTotal(rows: seq<O.Order>, i: nat)
    requires i < |rows| && !rows[i].deleted && rows[i].status != O.Completed
    ensures TotalAmount(rows[i := rows[i].(status := O.Completed)]) == TotalAmount(rows) + rows[i].amount
    decreases |rows|
  {
    var n := |rows| - 1;
    var o := rows[i].(status := O.Completed);
    if i == n {
      assert rows[i := o][..n] == rows[..n];
    } else {
      assert rows[i := o][..n] == rows[..n][i := o];
      CompletingRaisesTotal(rows[..n], i);
    }
  }

  // ---------------------------------------------------------------------------
  // Withdrawal review

  /** The wallet table after rejectWithdrawal's addBalance: the record's amount
      goes back to its wallet; a record naming no wallet changes nothing. */
  function Refunded(rows: seq<Wallet>, t: T.Transaction): (r: seq<Wallet>)
    ensures |r| == |rows|
    ensures t.walletId < |rows| ==> r[t.walletId].balance == rows[t.walletId].balance + t.amount
  {
    if t.walletId < |rows| then rows[t.walletId := Credited(rows[t.walletId], t.amount)] else rows
  }

  /** The record rejectWithdrawal writes back: FAILED, with the reason appended
      to the remark. */
  function RejectedRecord(t: T.Transaction, reason: string): (r: T.Transaction)
    ensures r.status == T.Failed && r.amount == t.amount && r.walletId == t.walletId && r.txType == t.txType
    ensures t.remark < r.remark && r.remark[|t.remark|..] == " | 拒绝原因: " + reason
  {
    t.(status := T.Failed, remark := t.remark + " | 拒绝原因: " + reason)
  }

  /** A withdrawal refused by the administrator gives the user back exactly the
      wallet they had before withdrawing. */
  lemma WithdrawThenRejectRestores(rows: seq<Wallet>, userId: nat, amount: real, t: T.Transaction)
    requires OneWalletPerUser(rows)
    requires t.walletId == WalletIndex(rows, userId) && t.amount == amount
    ensures Refunded(AfterMove(rows, userId, Debit, amount), t) == WithWallet(rows, userId)
    ensures WalletOf(Refunded(AfterMove(rows, userId, Debit, amount), t), userId) == WalletOf(rows, userId)
  {
    WithdrawThenRefundRestores(rows, userId, amount);
    WalletOfWith(rows, userId, userId);
  }

  /** The review moves of a withdrawal record. */
  predicate ReviewStep(from: T.Status, to: T.Status)
  {
    from == T.Processing && (to == T.Success || to == T.Failed)
  }

  class AdminService {
    const users: UserRepository
    const projects: ProjectRepository
    const orders: OrderRepository
    const wallets: WalletRepository
    const transactions: TransactionRepository

    ghost predicate Valid()
      reads this, projects, orders, wallets, transactions
    {
      projects.Valid() && orders.Valid() && wallets.Valid() && transactions.Valid()
    }

    constructor(users: UserRepository, projects: ProjectRepository, orders: OrderRepository,
                wallets: WalletRepository, transactions: TransactionRepository)
      requires projects.Valid() && orders.Valid() && wallets.Valid() && transactions.Valid()
      ensures this.users == users && this.projects == projects && this.orders == orders
      ensures this.wallets == wallets && this.transactions == transactions
      ensures Valid()
    {
      this.users := users;
      this.projects := projects;
      this.orders := orders;
      this.wallets := wallets;
      this.transactions := transactions;
    }

    /** The dashboard's money totals: the turnover of completed orders and the
        platform's fee income, neither of them negative. */
    function DashboardTotals(): (r: (real, real))
      requires Valid()
      reads this, projects, orders, wallets, transactions
      ensures r == (TotalAmount(orders.rows), PlatformIncome(transactions.rows))
      ensures r.0 >= 0.0 && r.1 >= 0.0
    {
      TotalsNonNegative(orders.rows, transactions.rows);
      (TotalAmount(orders.rows), PlatformIncome(transactions.rows))
    }

    /** disableUser: status 0; USER_NOT_FOUND for an id with no row. */
    method DisableUser(userId: nat) returns (r: Result<()>)
      modifies users
      ensures r.Ok? <==> userId < |old(users.rows)|
      ensures r.Err? ==> r.error == UserNotFound && users.rows == old(users.rows)
      ensures r.Ok? ==> users.rows == old(users.rows)[userId := old(users.rows)[userId].(status := Some(U.STATUS_DISABLED))]
    {
      if userId >= |users.rows| {
        return Err(UserNotFound);
      }
      users.rows := users.rows[userId := users.rows[userId].(status := Some(U.STATUS_DISABLED))];
      r := Ok(());
    }

    /** enableUser: status 1; USER_NOT_FOUND for an id with no row. */
    method EnableUser(userId: nat) returns (r: Result<()>)
      modifies users
      ensures r.Ok? <==> userId < |old(users.rows)|
      ensures r.Err? ==> r.error == UserNotFound && users.rows == old(users.rows)
      ensures r.Ok? ==> users.rows == old(users.rows)[userId := old(users.rows)[userId].(status := Some(U.STATUS_NORMAL))]
    {
      if userId >= |users.rows| {
        return Err(UserNotFound);
      }
      users.rows := users.rows[userId := users.rows[userId].(status := Some(U.STATUS_NORMAL))];
      r := Ok(());
    }

    /** setUserRole: the validated request carries a role of 0 to 2, which the
        service stores without a further check. */
    method SetUserRole(userId: nat, role: int) returns (r: Result<()>)
      requires 0 <= role <= 2
      modifies users
      ensures r.Ok? <==> userId < |old(users.rows)|
      ensures r.Err? ==> r.error == UserNotFound && users.rows == old(users.rows)
      ensures r.Ok? ==> users.rows == old(users.rows)[userId := old(users.rows)[userId].(role := Some(role))]
    {
      if userId >= |users.rows| {
        return Err(UserNotFound);
      }
      users.rows := users.rows[userId := users.rows[userId].(role := Some(role))];
      r := Ok(());
    }

    /** The common body of the three moderation actions: any project selectById
        finds gets the new status, whatever its status was; a removed one is
        PROJECT_NOT_FOUND. */
    method SetProjectStatus(projectId: nat, s: P.Status) returns (r: Result<()>)
      requires Valid()
      modifies projects
      ensures Valid()
      ensures r.Ok? <==> FoundProject(old(projects.rows), projectId)
      ensures r.Err? ==> r.error == ProjectNotFound && projects.rows == old(projects.rows)
      ensures r.Ok? ==> projects.rows == old(projects.rows)[projectId := old(projects.rows)[projectId].(status := s)]
    {
      if !FoundProject(projects.rows, projectId) {
        return Err(ProjectNotFound);
      }
      projects.rows := projects.rows[projectId := projects.rows[projectId].(status := s)];
      r := Ok(());
    }

    /** approveProject: the project goes OPEN. */
    method ApproveProject(projectId: nat) returns (r: Result<()>)
      requires Valid()
      modifies projects
      ensures Valid()
      ensures r.Ok? <==> FoundProject(old(projects.rows), projectId)
      ensures r.Err? ==> r.error == ProjectNotFound && projects.rows == old(projects.rows)
      ensures r.Ok? ==> projects.rows == old(projects.rows)[projectId := old(projects.rows)[projectId].(status := P.Open)]
    {
      r := SetProjectStatus(projectId, P.Open);
    }

    /** rejectProject: the project goes CLOSED; the reason only reaches the
        owner's notification. */
    method RejectProject(projectId: nat, reason: string) returns (r: Result<()>)
      requires Valid() && Text.NotBlank(reason)
      modifies projects
      ensures Valid()
      ensures r.Ok? <==> FoundProject(old(projects.rows), projectId)
      ensures r.Err? ==> r.error == ProjectNotFound && projects.rows == old(projects.rows)
      ensures r.Ok? ==> projects.rows == old(projects.rows)[projectId := old(projects.rows)[projectId].(status := P.Closed)]
    {
      r := SetProjectStatus(projectId, P.Closed);
    }

    /** takedownProject: the project goes CLOSED, as for a rejection. */
    method TakedownProject(projectId: nat, reason: string) returns (r: Result<()>)
      requires Valid() && Text.NotBlank(reason)
      modifies projects
      ensures Valid()
      ensures r.Ok? <==> FoundProject(old(projects.rows), projectId)
      ensures r.Err? ==> r.error == ProjectNotFound && projects.rows == old(projects.rows)
      ensures r.Ok? ==> projects.rows == old(projects.rows)[projectId := old(projects.rows)[projectId].(status := P.Closed)]
    {
      r := SetProjectStatus(projectId, P.Closed);
    }

    /** approveWithdrawal: a PROCESSING record becomes SUCCESS; the wallet was
        already debited when the request was made, so it is left alone. A record
        that is SUCCESS or FAILED is refused and never changes again. */
    method ApproveWithdrawal(transactionId: nat) returns (r: Result<()>)
      requires Valid()
      modifies transactions
      ensures Valid()
      ensures r.Ok? <==> transactionId < |old(transactions.rows)| && old(transactions.rows)[transactionId].status == T.Processing
      ensures r.Err? ==> transactions.rows == old(transactions.rows)
      ensures r.Err? ==> r.error == if transactionId >= |old(transactions.rows)| then NotFound else BadRequest
      ensures r.Ok? ==>
        var t := old(transactions.rows)[transactionId];
        ReviewStep(t.status, T.Success)
        && transactions.rows == old(transactions.rows)[transactionId := t.(status := T.Success)]
    {
      if transactionId >= |transactions.rows| {
        return Err(NotFound);
      }
      var t := transactions.rows[transactionId];
      if t.status != T.Processing {
        return Err(BadRequest);
      }
      transactions.rows := transactions.rows[transactionId := t.(status := T.Success)];
      r := Ok(());
    }

    /** rejectWithdrawal: a PROCESSING record becomes FAILED with the reason
        appended to its remark, and its amount goes back to the balance of its
        wallet. A record already reviewed is refused and never changes again. */
    method RejectWithdrawal(transactionId: nat, reason: string) returns (r: Result<()>)
      requires Valid() && Text.NotBlank(reason)
      modifies transactions, wallets
      ensures Valid()
      ensures r.Ok? <==> transactionId < |old(transactions.rows)| && old(transactions.rows)[transactionId].status == T.Processing
      ensures r.Err? ==> transactions.rows == old(transactions.rows) && wallets.rows == old(wallets.rows)
      ensures r.Err? ==> r.error == if transactionId >= |old(transactions.rows)| then NotFound else BadRequest
      ensures r.Ok? ==>
        var t := old(transactions.rows)[transactionId];
        ReviewStep(t.status, T.Failed)
        && wallets.rows == Refunded(old(wallets.rows), t)
        && transactions.rows == old(transactions.rows)[transactionId := RejectedRecord(t, reason)]
    {
      if transactionId >= |transactions.rows| {
        return Err(NotFound);
      }
      var t := transactions.rows[transactionId];
      if t.status != T.Processing {
        return Err(BadRequest);
      }
      var _ := wallets.AddBalance(t.walletId, t.amount);
      transactions.rows := transactions.rows[transactionId := RejectedRecord(t, reason)];
      r := Ok(());
    }
  }
}
