/** WalletServiceImpl: the money flows built on the wallet statements, each of which
    appends its audit records to the `transaction` table. Every public method runs
    in one database transaction: when it throws, everything it wrote, including a
    wallet that getOrCreateWalletEntity inserted, is rolled back. */
module Wallets {

  import opened Wrappers
  import opened WalletLedger
  import O = OrderEntity
  import M = MilestoneEntity
  import MQ = MilestoneQueries
  import T = TransactionEntity
  import opened Tables
  import Text

  /** SERVICE_FEE_RATE, the platform's share of every released milestone. */
  const SERVICE_FEE_RATE: real := 0.05

  /** milestoneAmount.multiply(SERVICE_FEE_RATE), exact and not rounded. */
  function ServiceFee(amount: real): real
  {
    amount * SERVICE_FEE_RATE
  }

  /** milestoneAmount.subtract(serviceFee). */
  function DeveloperIncome(amount: real): real
  {
    amount - ServiceFee(amount)
  }

  /** The release splits the milestone amount exactly into the developer's income and
      the fee; for a non-negative amount both parts are non-negative, and the fee
      record is written exactly when the amount is positive. */
  lemma FeeSplit(amount: real)
    ensures ServiceFee(amount) + DeveloperIncome(amount) == amount
    ensures amount >= 0.0 ==> 0.0 <= ServiceFee(amount) <= DeveloperIncome(amount) <= amount
    ensures ServiceFee(amount) > 0.0 <==> amount > 0.0
    ensures ServiceFee(500.0) == 25.0 && DeveloperIncome(500.0) == 475.0
  {
  }

  /** The sum of the amounts of the listed milestones whose status is in `st`. */
  function SumAmounts(ms: seq<M.Milestone>, ids: seq<nat>, st: set<M.Status>): real
    requires MQ.ValidIds(ms, ids)
  {
    if ids == [] then 0.0
    else (if ms[ids[0]].status in st then ms[ids[0]].amount else 0.0) + SumAmounts(ms, ids[1..], st)
  }

  /** Every milestone that is not APPROVED. */
  const Unapproved: set<M.Status> := {M.Pending, M.InProgress, M.Submitted, M.Rejected}

  /** calculateRefundAmount(order): the amounts of the order's milestones that are
      not APPROVED, over findByOrderId. */
  function RefundAmount(ms: seq<M.Milestone>, orderId: nat): real
  {
    SumAmounts(ms, MQ.FindByOrderId(ms, orderId), Unapproved)
  }

  /** Splitting a sum by a status set and its complement loses nothing. */
  lemma {:induction false} SumSplit(ms: seq<M.Milestone>, ids: seq<nat>, st: set<M.Status>)
    requires MQ.ValidIds(ms, ids)
    ensures SumAmounts(ms, ids, st) + SumAmounts(ms, ids, MQ.AnyStatus - st) == SumAmounts(ms, ids, MQ.AnyStatus)
  {
    if ids != [] {
      MQ.InAnyStatus(ms[ids[0]].status);
      SumSplit(ms, ids[1..], st);
    }
  }

  lemma {:induction false} SumNonNegative(ms: seq<M.Milestone>, ids: seq<nat>, st: set<M.Status>)
    requires MQ.ValidIds(ms, ids)
    requires forall i :: 0 <= i < |ms| ==> ms[i].amount >= 0.0
    ensures SumAmounts(ms, ids, st) >= 0.0
  {
    if ids != [] {
      SumNonNegative(ms, ids[1..], st);
    }
  }

  /** The refund and the amounts already approved (and released) add up to the
      amounts of all the order's live milestones; the refund is never negative. */
  lemma RefundComplementsApproved(ms: seq<M.Milestone>, orderId: nat)
    requires forall i :: 0 <= i < |ms| ==> ms[i].amount >= 0.0
    ensures var ids := MQ.FindByOrderId(ms, orderId);
      RefundAmount(ms, orderId) + SumAmounts(ms, ids, {M.Approved}) == SumAmounts(ms, ids, MQ.AnyStatus)
    ensures RefundAmount(ms, orderId) >= 0.0
  {
    var ids := MQ.FindByOrderId(ms, orderId);
    MQ.FindByOrderIdSpec(ms, orderId);
    SumSplit(ms, ids, {M.Approved});
    assert MQ.AnyStatus - {M.Approved} == Unapproved;
    SumNonNegative(ms, ids, Unapproved);
  }

  /** maskAccount: the first four and the last four characters around "****", or
      "****" alone for a missing or short account. */
  function MaskAccount(account: Option<string>): string
  {
    if account.None? || |account.value| < 4 then "****"
    else account.value[..4] + "****" + account.value[|account.value| - 4..]
  }

  /** A masked account is 4 or 12 characters long and shows nothing but its ends:
      two accounts that share their first and last four characters mask alike. */
  lemma MaskAccountHidesMiddle(a: string, b: string)
    requires |a| >= 4 && |b| >= 4 && a[..4] == b[..4] && a[|a| - 4..] == b[|b| - 4..]
    ensures MaskAccount(Some(a)) == MaskAccount(Some(b))
    ensures |MaskAccount(Some(a))| == 12 && MaskAccount(Some(a))[4..8] == "****"
  {
  }

  lemma MaskAccountShort(account: Option<string>)
    requires account.None? || |account.value| < 4
    ensures MaskAccount(account) == "****"
  {
  }

  /** The remark of a withdrawal record. */
  function WithdrawRemark(withdrawMethod: int, account: string): string
  {
    "提现到" + (if withdrawMethod == 1 then "支付宝" else "银行卡") + " " + MaskAccount(Some(account))
  }

  /** The remark of a developer's income record: the fee rate times 100, as an int. */
  const IncomeRemark: string := "里程碑验收收入（扣除5%服务费）"

  /** The fields toTransactionVO derives from the stored type and status codes. */
  datatype TransactionView = TransactionView(typeDesc: string, statusDesc: string, direction: int, directionDesc: string)

  function TransactionViewOf(typeCode: int, statusCode: int): TransactionView
  {
    var typeDesc := match T.FromCode(typeCode) case Some(t) => t.Desc() case None => "未知";
    var statusDesc :=
      if statusCode == T.Status.Processing.Code() then "处理中"
      else if statusCode == T.Status.Success.Code() then "成功"
      else if statusCode == T.Status.Failed.Code() then "失败"
      else "";
    var income := typeCode == T.Type.Recharge.Code() || typeCode == T.Type.Income.Code() || typeCode == T.Type.Refund.Code();
    TransactionView(typeDesc, statusDesc, if income then 1 else 2, if income then "收入" else "支出")
  }

  /** A record counts as income (direction 1) exactly for RECHARGE, INCOME and
      REFUND, and as expense (direction 2) otherwise; an unknown type code is
      described as "未知". */
  lemma DirectionSpec(typeCode: int, statusCode: int)
    ensures var v := TransactionViewOf(typeCode, statusCode);
      (v.direction == 1 <==> T.FromCode(typeCode) in {Some(T.Recharge), Some(T.Income), Some(T.Refund)})
      && (v.direction == 1 || v.direction == 2)
      && (v.directionDesc == "收入" <==> v.direction == 1)
    ensures T.FromCode(typeCode).None? ==> TransactionViewOf(typeCode, statusCode).typeDesc == "未知"
    ensures forall t: T.Type :: typeCode == t.Code() ==> TransactionViewOf(typeCode, statusCode).typeDesc == t.Desc()
  {
    T.FromCodeUnknown(typeCode);
    if T.FromCode(typeCode).Some? {
      T.CodeRoundTrip(typeCode);
    }
    forall t: T.Type | typeCode == t.Code() ensures TransactionViewOf(typeCode, statusCode).typeDesc == t.Desc() {
      T.FromCodeRoundTrip(t);
    }
  }

  /** toWalletVO's status text. */
  function WalletStatusDesc(status: int): string
  {
    if status == NORMAL then "正常" else if status == FROZEN then "冻结" else ""
  }

  // ---------------------------------------------------------------------------
  // The wallet table as a whole

  /** Money held in all wallets, spendable or in escrow. */
  function TotalHoldings(rows: seq<Wallet>): real
  {
    if rows == [] then 0.0 else TotalHoldings(rows[..|rows| - 1]) + Holdings(rows[|rows| - 1])
  }

  lemma TotalHoldingsAppend(rows: seq<Wallet>, w: Wallet)
    ensures TotalHoldings(rows + [w]) == TotalHoldings(rows) + Holdings(w)
  {
    assert (rows + [w])[..|rows|] == rows;
  }

  lemma {:induction false} TotalHoldingsUpdate(rows: seq<Wallet>, i: nat, w: Wallet)
    requires i < |rows|
    ensures TotalHoldings(rows[i := w]) == TotalHoldings(rows) - Holdings(rows[i]) + Holdings(w)
    decreases |rows|
  {
    var n := |rows| - 1;
    if i == n {
      assert rows[i := w][..n] == rows[..n];
    } else {
      assert rows[i := w][..n] == rows[..n][i := w];
      TotalHoldingsUpdate(rows[..n], i, w);
    }
  }

  /** Get-or-create changes no user's wallet as WalletOf sees it: a created wallet is
      exactly the empty wallet WalletOf stands in for a user without one. */
  lemma {:induction false} FindFromAppend(rows: seq<Wallet>, w: Wallet, userId: nat, k: nat)
    requires k <= |rows| && w.userId != userId
    ensures FindFrom(rows + [w], userId, k) == FindFrom(rows, userId, k)
    decreases |rows| - k
  {
    if k < |rows| {
      FindFromAppend(rows, w, userId, k + 1);
    }
  }

  lemma {:induction false} FindFromUpdate(rows: seq<Wallet>, i: nat, w: Wallet, userId: nat, k: nat)
    requires i < |rows| && k <= |rows| && w.userId == rows[i].userId
    ensures FindFrom(rows[i := w], userId, k) == FindFrom(rows, userId, k)
    decreases |rows| - k
  {
    if k < |rows| {
      FindFromUpdate(rows, i, w, userId, k + 1);
    }
  }

  lemma WalletOfWith(rows: seq<Wallet>, userId: nat, other: nat)
    requires OneWalletPerUser(rows)
    ensures WalletOf(WithWallet(rows, userId), other) == WalletOf(rows, other)
  {
    WithWalletSpec(rows, userId);
    if FindByUserId(rows, userId).None? && other != userId {
      FindFromAppend(rows, NewWallet(userId), other, 0);
    }
  }

  /** Rewriting a user's row changes that user's wallet and no other. */
  lemma WalletOfUpdate(rows: seq<Wallet>, i: nat, w: Wallet, other: nat)
    requires OneWalletPerUser(rows) && i < |rows| && w.userId == rows[i].userId
    ensures OneWalletPerUser(rows[i := w])
    ensures WalletOf(rows[i := w], other) == if rows[i].userId == other then w else WalletOf(rows, other)
  {
    FindFromUpdate(rows, i, w, other, 0);
  }

  // ---------------------------------------------------------------------------
  // The single-wallet flows

  /** The statement a flow runs on the wallet get-or-create returned. */
  datatype Move = Credit | Debit | Freeze | Unfreeze

  function Apply(w: Wallet, m: Move, amount: real): Wallet
  {
    match m
    case Credit => Credited(w, amount)
    case Debit => Debited(w, amount)
    case Freeze => Frozen(w, amount)
    case Unfreeze => Unfrozen(w, amount)
  }

  /** How much a move adds to the money held: recharge adds, withdrawal removes,
      escrow and refund only move money between balance and frozen. */
  function Delta(m: Move, amount: real): real
  {
    match m
    case Credit => amount
    case Debit => -amount
    case _ => 0.0
  }

  /** The wallet table after getOrCreateWalletEntity(userId) and one move on that wallet. */
  function AfterMove(rows: seq<Wallet>, userId: nat, m: Move, amount: real): seq<Wallet>
    requires OneWalletPerUser(rows)
  {
    WithWalletSpec(rows, userId);
    WithWallet(rows, userId)[WalletIndex(rows, userId) := Apply(WalletOf(rows, userId), m, amount)]
  }

  /** A flow changes its user's wallet by the move, leaves every other user's wallet
      as it was, keeps one wallet per user, and changes the money held by Delta. */
  lemma AfterMoveSpec(rows: seq<Wallet>, userId: nat, m: Move, amount: real, other: nat)
    requires OneWalletPerUser(rows)
    ensures OneWalletPerUser(AfterMove(rows, userId, m, amount))
    ensures WalletOf(AfterMove(rows, userId, m, amount), other)
         == if other == userId then Apply(WalletOf(rows, userId), m, amount) else WalletOf(rows, other)
    ensures TotalHoldings(AfterMove(rows, userId, m, amount)) == TotalHoldings(rows) + Delta(m, amount)
  {
    var w1 := WithWallet(rows, userId);
    var i := WalletIndex(rows, userId);
    WithWalletSpec(rows, userId);
    WalletOfWith(rows, userId, other);
    WalletOfUpdate(w1, i, Apply(WalletOf(rows, userId), m, amount), other);
    TotalHoldingsUpdate(w1, i, Apply(WalletOf(rows, userId), m, amount));
    if FindByUserId(rows, userId).None? {
      TotalHoldingsAppend(rows, NewWallet(userId));
    }
  }

  /** The balance an admin's rejection adds back (addBalance on the record's wallet)
      restores what a withdrawal deducted: only the get-or-create remains. */
  lemma WithdrawThenRefundRestores(rows: seq<Wallet>, userId: nat, amount: real)
    requires OneWalletPerUser(rows)
    ensures var after := AfterMove(rows, userId, Debit, amount);
      var i := WalletIndex(rows, userId);
      i < |after| && after[i := Credited(after[i], amount)] == WithWallet(rows, userId)
  {
    WithWalletSpec(rows, userId);
    RoundTrips(WalletOf(rows, userId), amount);
  }

  // ---------------------------------------------------------------------------
  // releaseMilestonePayment

  /** What releaseMilestonePayment needs to succeed: the milestone and its order
      exist and the employer's escrow covers the milestone amount. */
  predicate CanRelease(wallets: seq<Wallet>, orders: seq<O.Order>, ms: seq<M.Milestone>, milestoneId: nat)
  {
    milestoneId < |ms| && ms[milestoneId].orderId < |orders|
    && WalletOf(wallets, orders[ms[milestoneId].orderId].employerId).frozenAmount >= ms[milestoneId].amount
  }

  lemma ReleaseBounds(rows: seq<Wallet>, employer: nat, developer: nat)
    requires OneWalletPerUser(rows)
    ensures OneWalletPerUser(WithWallet(rows, employer))
    ensures OneWalletPerUser(WithWallet(WithWallet(rows, employer), developer))
    ensures rows <= WithWallet(rows, employer) <= WithWallet(WithWallet(rows, employer), developer)
    ensures var w1 := WithWallet(rows, employer);
      WalletIndex(rows, employer) < |WithWallet(w1, developer)|
      && WalletIndex(w1, developer) < |WithWallet(w1, developer)|
      && WithWallet(w1, developer)[WalletIndex(rows, employer)] == WalletOf(rows, employer)
      && WithWallet(w1, developer)[WalletIndex(w1, developer)] == WalletOf(rows, developer)
  {
    WithWalletSpec(rows, employer);
    WithWalletSpec(WithWallet(rows, employer), developer);
    WalletOfWith(rows, employer, developer);
  }

  /** The wallet table after both get-or-creates of a release, the employer's escrow
      release and the developer's credit, in that order. The developer may be the
      employer. */
  function AfterRelease(rows: seq<Wallet>, employer: nat, developer: nat, amount: real): seq<Wallet>
    requires OneWalletPerUser(rows)
  {
    var w1 := WithWallet(rows, employer);
    var w2 := WithWallet(w1, developer);
    var e := WalletIndex(rows, employer);
    var d := WalletIndex(w1, developer);
    ReleaseBounds(rows, employer, developer);
    var w3 := w2[e := Released(w2[e], amount)];
    w3[d := Earned(w3[d], DeveloperIncome(amount))]
  }

  /** The records a release appends: the developer's INCOME record and, when the fee
      is positive, the SERVICE_FEE record, both on the developer's wallet. */
  function ReleaseRecords(rows: seq<Wallet>, employer: nat, developer: nat, orderId: nat, milestoneId: nat, amount: real): seq<T.Transaction>
  {
    var d := WalletIndex(WithWallet(rows, employer), developer);
    var before := WalletOf(WithWallet(rows, employer), developer).balance;
    var income := DeveloperIncome(amount);
    var fee := ServiceFee(amount);
    [T.Transaction(d, developer, T.Income, income, before, before + income, Some(orderId), Some(milestoneId), T.Success, IncomeRemark, false)]
    + if fee > 0.0 then
        [T.Transaction(d, developer, T.ServiceFee, fee, before + income, before + income, Some(orderId), Some(milestoneId), T.Success, "平台服务费", false)]
      else []
  }

  /** A release moves the milestone amount out of the employer's escrow into the
      employer's expense, credits the developer the income, leaves every other wallet
      alone, and takes exactly the fee out of the money held. */
  lemma ReleaseSpec(rows: seq<Wallet>, employer: nat, developer: nat, amount: real, other: nat)
    requires OneWalletPerUser(rows)
    ensures OneWalletPerUser(AfterRelease(rows, employer, developer, amount))
    ensures TotalHoldings(AfterRelease(rows, employer, developer, amount)) == TotalHoldings(rows) - ServiceFee(amount)
    ensures employer != developer ==>
      WalletOf(AfterRelease(rows, employer, developer, amount), employer) == Released(WalletOf(rows, employer), amount)
      && WalletOf(AfterRelease(rows, employer, developer, amount), developer) == Earned(WalletOf(rows, developer), DeveloperIncome(amount))
    ensures employer == developer ==>
      WalletOf(AfterRelease(rows, employer, developer, amount), employer) == Earned(Released(WalletOf(rows, employer), amount), DeveloperIncome(amount))
    ensures other != employer && other != developer ==>
      WalletOf(AfterRelease(rows, employer, developer, amount), other) == WalletOf(rows, other)
  {
    var w1 := WithWallet(rows, employer);
    var w2 := WithWallet(w1, developer);
    var e := WalletIndex(rows, employer);
    var d := WalletIndex(w1, developer);
    ReleaseBounds(rows, employer, developer);
    WithWalletSpec(rows, employer);
    WithWalletSpec(w1, developer);
    var w3 := w2[e := Released(w2[e], amount)];
    var w4 := w3[d := Earned(w3[d], DeveloperIncome(amount))];
    assert w4 == AfterRelease(rows, employer, developer, amount);
    // the money held
    if FindByUserId(rows, employer).None? { TotalHoldingsAppend(rows, NewWallet(employer)); }
    if FindByUserId(w1, developer).None? { TotalHoldingsAppend(w1, NewWallet(developer)); }
    TotalHoldingsUpdate(w2, e, Released(w2[e], amount));
    TotalHoldingsUpdate(w3, d, Earned(w3[d], DeveloperIncome(amount)));
    // each user's wallet
    forall u: nat | true
      ensures WalletOf(w2, u) == WalletOf(rows, u)
      ensures WalletOf(w3, u) == if u == employer then Released(WalletOf(rows, employer), amount) else WalletOf(rows, u)
    {
      WalletOfWith(rows, employer, u);
      WalletOfWith(w1, developer, u);
      WalletOfUpdate(w2, e, Released(w2[e], amount), u);
    }
    WalletOfUpdate(w2, e, Released(w2[e], amount), other);
    WalletOfUpdate(w3, d, Earned(w3[d], DeveloperIncome(amount)), other);
    WalletOfUpdate(w3, d, Earned(w3[d], DeveloperIncome(amount)), employer);
    WalletOfUpdate(w3, d, Earned(w3[d], DeveloperIncome(amount)), developer);
  }

  /** The release's records add up to the milestone amount, the fee record moves no
      money, and the income record's balanceAfter is the developer's new balance when
      the developer is not the employer. */
  lemma ReleaseRecordsSpec(rows: seq<Wallet>, employer: nat, developer: nat, orderId: nat, milestoneId: nat, amount: real)
    requires OneWalletPerUser(rows) && amount >= 0.0
    ensures var recs := ReleaseRecords(rows, employer, developer, orderId, milestoneId, amount);
      (|recs| == 2 <==> amount > 0.0) && (|recs| == 1 <==> amount == 0.0)
      && recs[0].amount + (if |recs| == 2 then recs[1].amount else 0.0) == amount
      && (|recs| == 2 ==> recs[1].balanceBefore == recs[1].balanceAfter == recs[0].balanceAfter)
      && (employer != developer ==>
            recs[0].balanceAfter == WalletOf(AfterRelease(rows, employer, developer, amount), developer).balance)
  {
    FeeSplit(amount);
    WalletOfWith(rows, employer, developer);
    ReleaseSpec(rows, employer, developer, amount, developer);
  }

  // ---------------------------------------------------------------------------
  // escrowPayment and refundEscrow

  /** The PAYMENT record of an escrow from the employer's wallet. */
  function EscrowRecord(rows: seq<Wallet>, employer: nat, orderId: nat, amount: real): T.Transaction
  {
    var w := WalletOf(rows, employer);
    T.Transaction(WalletIndex(rows, employer), employer, T.Payment, amount, w.balance, w.balance - amount,
                  Some(orderId), None, T.Success, "订单托管支付", false)
  }

  /** What refundEscrow needs once the order exists: nothing to refund, or enough in
      escrow to unfreeze it. */
  predicate CanRefund(rows: seq<Wallet>, employer: nat, refund: real)
  {
    refund <= 0.0 || WalletOf(rows, employer).frozenAmount >= refund
  }

  /** The wallet table after a successful refundEscrow: the get-or-create alone when
      there is nothing to refund, else the unfreeze as well. */
  function AfterRefund(rows: seq<Wallet>, employer: nat, refund: real): seq<Wallet>
    requires OneWalletPerUser(rows)
  {
    if refund <= 0.0 then WithWallet(rows, employer) else AfterMove(rows, employer, Unfreeze, refund)
  }

  /** The REFUND record, if any; its balanceBefore is the balance before the unfreeze. */
  function RefundRecords(rows: seq<Wallet>, employer: nat, orderId: nat, refund: real): seq<T.Transaction>
  {
    if refund <= 0.0 then []
    else
      var w := WalletOf(rows, employer);
      [T.Transaction(WalletIndex(rows, employer), employer, T.Refund, refund, w.balance, w.balance + refund,
                     Some(orderId), None, T.Success, "订单取消退款", false)]
  }

  /** A refund keeps the money held, and gives back to the employer's balance
      exactly what leaves the escrow; a refund record's balanceAfter is the new
      balance. */
  lemma RefundSpec(rows: seq<Wallet>, employer: nat, orderId: nat, refund: real)
    requires OneWalletPerUser(rows) && CanRefund(rows, employer, refund)
    ensures TotalHoldings(AfterRefund(rows, employer, refund)) == TotalHoldings(rows)
    ensures var w := WalletOf(rows, employer);
      var w' := WalletOf(AfterRefund(rows, employer, refund), employer);
      refund > 0.0 ==>
        w'.balance == w.balance + refund && w'.frozenAmount == w.frozenAmount - refund
        && RefundRecords(rows, employer, orderId, refund)[0].balanceAfter == w'.balance
    ensures refund <= 0.0 <==> RefundRecords(rows, employer, orderId, refund) == []
  {
    if refund <= 0.0 {
      WithWalletSpec(rows, employer);
      if FindByUserId(rows, employer).None? {
        TotalHoldingsAppend(rows, NewWallet(employer));
      }
    } else {
      AfterMoveSpec(rows, employer, Unfreeze, refund, employer);
    }
  }

  // ---------------------------------------------------------------------------
  // The service

  class WalletService {
    const wallets: WalletRepository
    const transactions: TransactionRepository
    const orders: OrderRepository
    const milestones: MilestoneRepository

    ghost predicate Valid()
      reads this, wallets, transactions, orders, milestones
    {
      wallets.Valid() && transactions.Valid() && orders.Valid() && milestones.Valid()
    }

    constructor(wallets: WalletRepository, transactions: TransactionRepository,
                orders: OrderRepository, milestones: MilestoneRepository)
      ensures this.wallets == wallets && this.transactions == transactions
      ensures this.orders == orders && this.milestones == milestones
    {
      this.wallets := wallets;
      this.transactions := transactions;
      this.orders := orders;
      this.milestones := milestones;
    }

    /** getOrCreateWalletEntity: the user's wallet, inserted empty and NORMAL when the
        user has none. */
    method GetOrCreateWalletEntity(userId: nat) returns (id: nat)
      requires wallets.Valid()
      modifies wallets
      ensures wallets.Valid()
      ensures wallets.rows == WithWallet(old(wallets.rows), userId)
      ensures id == WalletIndex(old(wallets.rows), userId) && id < |wallets.rows|
      ensures wallets.rows[id] == WalletOf(old(wallets.rows), userId)
    {
      WithWalletSpec(wallets.rows, userId);
      var found := FindByUserId(wallets.rows, userId);
      if found.Some? {
        id := found.value;
      } else {
        id := wallets.Insert(NewWallet(userId));
      }
    }

    /** recharge: credit the actor's wallet and record RECHARGE/SUCCESS. */
    method Recharge(actor: nat, amount: real) returns (t: T.Transaction)
      requires Valid() && amount >= 0.01
      modifies wallets, transactions
      ensures Valid()
      ensures wallets.rows == AfterMove(old(wallets.rows), actor, Credit, amount)
      ensures var w := WalletOf(old(wallets.rows), actor);
        t == T.Transaction(WalletIndex(old(wallets.rows), actor), actor, T.Recharge, amount,
                           w.balance, w.balance + amount, None, None, T.Success, "账户充值", false)
      ensures transactions.rows == old(transactions.rows) + [t]
    {
      var id := GetOrCreateWalletEntity(actor);
      var balanceBefore := wallets.rows[id].balance;
      var _ := wallets.AddBalance(id, amount);
      t := T.Transaction(id, actor, T.Recharge, amount, balanceBefore, balanceBefore + amount, None, None, T.Success, "账户充值", false);
      transactions.rows := transactions.rows + [t];
    }

    /** withdraw: refused when the balance does not cover the amount; otherwise the
        amount is deducted at once and a WITHDRAW record waits, PROCESSING, for an
        admin's review. */
    method Withdraw(actor: nat, amount: real, withdrawMethod: int, account: string) returns (r: Result<T.Transaction>)
      requires Valid() && amount >= 1.0 && Text.NotBlank(account)
      modifies wallets, transactions
      ensures Valid()
      ensures r.Ok? <==> WalletOf(old(wallets.rows), actor).balance >= amount
      ensures r.Err? ==>
        r.error == Internal("余额不足") && wallets.rows == old(wallets.rows) && transactions.rows == old(transactions.rows)
      ensures r.Ok? ==>
        var w := WalletOf(old(wallets.rows), actor);
        wallets.rows == AfterMove(old(wallets.rows), actor, Debit, amount)
        && r.value == T.Transaction(WalletIndex(old(wallets.rows), actor), actor, T.Withdraw, amount,
                                    w.balance, w.balance - amount, None, None, T.Processing,
                                    WithdrawRemark(withdrawMethod, account), false)
        && transactions.rows == old(transactions.rows) + [r.value]
    {
      var snapshot := wallets.rows;
      var id := GetOrCreateWalletEntity(actor);
      var wallet := wallets.rows[id];
      if wallet.balance < amount {
        wallets.rows := snapshot;  // rollback of the get-or-create
        return Err(Internal("余额不足"));
      }
      var balanceBefore := wallet.balance;
      var updated := wallets.DeductBalance(id, amount);
      if updated == 0 {
        return Err(Internal("余额不足或操作失败"));
      }
      var t := T.Transaction(id, actor, T.Withdraw, amount, balanceBefore, balanceBefore - amount, None, None,
                             T.Processing, WithdrawRemark(withdrawMethod, account), false);
      transactions.rows := transactions.rows + [t];
      r := Ok(t);
    }

    /** escrowPayment: freeze the amount in the order's employer's wallet and record
        PAYMENT/SUCCESS; refused for a missing order or a short balance. */
    method EscrowPayment(orderId: nat, amount: real) returns (r: Result<T.Transaction>)
      requires Valid()
      modifies wallets, transactions
      ensures amount >= 0.0 ==> Valid()
      ensures r.Ok? <==> orderId < |orders.rows| && WalletOf(old(wallets.rows), orders.rows[orderId].employerId).balance >= amount
      ensures r.Err? ==> wallets.rows == old(wallets.rows) && transactions.rows == old(transactions.rows)
      ensures r.Err? && orderId >= |orders.rows| ==> r.error == Internal("订单不存在")
      ensures r.Err? && orderId < |orders.rows| ==> r.error == Internal("余额不足，请先充值")
      ensures r.Ok? ==>
        var e := orders.rows[orderId].employerId;
        wallets.rows == AfterMove(old(wallets.rows), e, Freeze, amount)
        && r.value == EscrowRecord(old(wallets.rows), e, orderId, amount)
        && transactions.rows == old(transactions.rows) + [r.value]
    {
      if orderId >= |orders.rows| {
        return Err(Internal("订单不存在"));
      }
      var order := orders.rows[orderId];
      var snapshot := wallets.rows;
      var id := GetOrCreateWalletEntity(order.employerId);
      var wallet := wallets.rows[id];
      if wallet.balance < amount {
        wallets.rows := snapshot;
        return Err(Internal("余额不足，请先充值"));
      }
      var balanceBefore := wallet.balance;
      var updated := wallets.FreezeAmount(id, amount);
      if updated == 0 {
        return Err(Internal("余额不足或操作失败"));
      }
      var t := T.Transaction(id, order.employerId, T.Payment, amount, balanceBefore, balanceBefore - amount,
                             Some(orderId), None, T.Success, "订单托管支付", false);
      transactions.rows := transactions.rows + [t];
      r := Ok(t);
    }

    /** The wallet part of releaseMilestonePayment: both get-or-creates, the escrow
        release (rolled back with them when it affects no row) and the credit. */
    method MoveEscrow(employer: nat, developer: nat, amount: real) returns (released: bool, d: nat, devBefore: real)
      requires wallets.Valid() && amount >= 0.0
      modifies wallets
      ensures wallets.Valid()
      ensures released <==> WalletOf(old(wallets.rows), employer).frozenAmount >= amount
      ensures !released ==> wallets.rows == old(wallets.rows)
      ensures released ==> wallets.rows == AfterRelease(old(wallets.rows), employer, developer, amount)
      ensures d == WalletIndex(WithWallet(old(wallets.rows), employer), developer)
      ensures devBefore == WalletOf(WithWallet(old(wallets.rows), employer), developer).balance
    {
      var snapshot := wallets.rows;
      ReleaseBounds(snapshot, employer, developer);
      var e := GetOrCreateWalletEntity(employer);
      d := GetOrCreateWalletEntity(developer);
      devBefore := wallets.rows[d].balance;
      FeeSplit(amount);
      var updated := wallets.ReleaseFrozenAmount(e, amount);
      if updated == 0 {
        wallets.rows := snapshot;
        return false, d, devBefore;
      }
      var _ := wallets.AddIncome(d, DeveloperIncome(amount));
      released := true;
    }

    /** releaseMilestonePayment: pay an approved milestone out of the employer's
        escrow to the developer, less the platform's fee; returns the income record. */
    method ReleaseMilestonePayment(milestoneId: nat) returns (r: Result<T.Transaction>)
      requires Valid()
      modifies wallets, transactions
      ensures Valid()
      ensures r.Ok? <==> CanRelease(old(wallets.rows), orders.rows, milestones.rows, milestoneId)
      ensures r.Err? ==> wallets.rows == old(wallets.rows) && transactions.rows == old(transactions.rows)
      ensures r.Err? ==> r.error in {Internal("里程碑不存在"), Internal("订单不存在"), Internal("托管金额不足或操作失败")}
      ensures r.Err? ==>
        r.error == if milestoneId >= |milestones.rows| then Internal("里程碑不存在")
                   else if milestones.rows[milestoneId].orderId >= |orders.rows| then Internal("订单不存在")
                   else Internal("托管金额不足或操作失败")
      ensures r.Ok? ==>
        var m := milestones.rows[milestoneId];
        var o := orders.rows[m.orderId];
        var recs := ReleaseRecords(old(wallets.rows), o.employerId, o.developerId, m.orderId, milestoneId, m.amount);
        wallets.rows == AfterRelease(old(wallets.rows), o.employerId, o.developerId, m.amount)
        && transactions.rows == old(transactions.rows) + recs
        && r.value == recs[0]
    {
      if milestoneId >= |milestones.rows| {
        return Err(Internal("里程碑不存在"));
      }
      var milestone := milestones.rows[milestoneId];
      if milestone.orderId >= |orders.rows| {
        return Err(Internal("订单不存在"));
      }
      var order := orders.rows[milestone.orderId];
      var amount := milestone.amount;
      var serviceFee := ServiceFee(amount);
      var developerIncome := amount - serviceFee;
      var released, d, devBefore := MoveEscrow(order.employerId, order.developerId, amount);
      if !released {
        return Err(Internal("托管金额不足或操作失败"));
      }
      var income := T.Transaction(d, order.developerId, T.Income, developerIncome, devBefore, devBefore + developerIncome,
                                  Some(milestone.orderId), Some(milestoneId), T.Success, IncomeRemark, false);
      transactions.rows := transactions.rows + [income];
      if serviceFee > 0.0 {
        var fee := T.Transaction(d, order.developerId, T.ServiceFee, serviceFee, devBefore + developerIncome,
                                 devBefore + developerIncome, Some(milestone.orderId), Some(milestoneId),
                                 T.Success, "平台服务费", false);
        transactions.rows := transactions.rows + [fee];
      }
      r := Ok(income);
    }

    /** refundEscrow: unfreeze the order's unapproved milestone amounts back into the
        employer's balance. Nothing to refund ends without a record (the source
        returns null), keeping a wallet the get-or-create inserted. */
    method RefundEscrow(orderId: nat) returns (r: Result<Option<T.Transaction>>)
      requires Valid()
      modifies wallets, transactions
      ensures Valid()
      ensures orderId >= |orders.rows| ==> r == Err(Internal("订单不存在"))
      ensures r.Err? ==> wallets.rows == old(wallets.rows) && transactions.rows == old(transactions.rows)
      ensures orderId < |orders.rows| ==>
        var e := orders.rows[orderId].employerId;
        var refund := RefundAmount(milestones.rows, orderId);
        var recs := RefundRecords(old(wallets.rows), e, orderId, refund);
        (r.Ok? <==> CanRefund(old(wallets.rows), e, refund))
        && (r.Err? ==> r.error == Internal("退款失败，托管金额不足"))
        && (r.Ok? ==> wallets.rows == AfterRefund(old(wallets.rows), e, refund)
                      && transactions.rows == old(transactions.rows) + recs
                      && r.value == if recs == [] then None else Some(recs[0]))
    {
      if orderId >= |orders.rows| {
        return Err(Internal("订单不存在"));
      }
      var order := orders.rows[orderId];
      var snapshot := wallets.rows;
      var id := GetOrCreateWalletEntity(order.employerId);
      var wallet := wallets.rows[id];
      var refund := RefundAmount(milestones.rows, orderId);
      if refund <= 0.0 {
        return Ok(None);
      }
      var updated := wallets.UnfreezeAmount(id, refund);
      if updated == 0 {
        wallets.rows := snapshot;
        return Err(Internal("退款失败，托管金额不足"));
      }
      assert wallets.rows == AfterMove(snapshot, order.employerId, Unfreeze, refund);
      var balanceBefore := wallet.balance;
      var t := T.Transaction(id, order.employerId, T.Refund, refund, balanceBefore, balanceBefore + refund,
                             Some(orderId), None, T.Success, "订单取消退款", false);
      assert [t] == RefundRecords(snapshot, order.employerId, orderId, refund);
      transactions.rows := transactions.rows + [t];
      r := Ok(Some(t));
    }
  }
}
