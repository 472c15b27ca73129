/** The `wallet` table and the six guarded UPDATE statements of WalletRepository.
    Each statement changes one wallet row in place when its WHERE guard holds and
    reports the number of rows it affected. A row's id is its position in the table. */
module WalletLedger {

  import opened Wrappers

  /** Wallet.Status codes. */
  const NORMAL: int := 0
  const FROZEN: int := 1

  /** One `wallet` row; no modelled operation deletes a wallet. */
  datatype Wallet = Wallet(
    userId: nat,
    balance: real,
    frozenAmount: real,
    totalIncome: real,
    totalExpense: real,
    status: int)

  /** The wallet getOrCreateWalletEntity inserts for a user who has none. */
  function NewWallet(userId: nat): Wallet
  {
    Wallet(userId, 0.0, 0.0, 0.0, 0.0, NORMAL)
  }

  /** Neither the spendable balance nor the escrowed amount is negative. */
  predicate NonNegative(w: Wallet)
  {
    w.balance >= 0.0 && w.frozenAmount >= 0.0
  }

  /** The money a wallet holds, spendable or escrowed. */
  function Holdings(w: Wallet): real
  {
    w.balance + w.frozenAmount
  }

  // The SET part of each UPDATE, applied to one row.

  function Credited(w: Wallet, amount: real): Wallet
  {
    w.(balance := w.balance + amount)
  }

  function Debited(w: Wallet, amount: real): Wallet
  {
    w.(balance := w.balance - amount)
  }

  function Frozen(w: Wallet, amount: real): Wallet
  {
    w.(balance := w.balance - amount, frozenAmount := w.frozenAmount + amount)
  }

  function Unfrozen(w: Wallet, amount: real): Wallet
  {
    w.(balance := w.balance + amount, frozenAmount := w.frozenAmount - amount)
  }

  function Released(w: Wallet, amount: real): Wallet
  {
    w.(frozenAmount := w.frozenAmount - amount, totalExpense := w.totalExpense + amount)
  }

  function Earned(w: Wallet, amount: real): Wallet
  {
    w.(balance := w.balance + amount, totalIncome := w.totalIncome + amount)
  }

  /** addBalance moves only the balance, by exactly the amount. */
  lemma CreditedSpec(w: Wallet, amount: real)
    ensures Credited(w, amount).balance - w.balance == amount
    ensures Credited(w, amount).frozenAmount == w.frozenAmount
    ensures Credited(w, amount).totalIncome == w.totalIncome && Credited(w, amount).totalExpense == w.totalExpense
  {
  }

  /** freezeAmount and unfreezeAmount move money between balance and escrow and
      keep what the wallet holds. */
  lemma FreezeKeepsHoldings(w: Wallet, amount: real)
    ensures Holdings(Frozen(w, amount)) == Holdings(w)
    ensures Holdings(Unfrozen(w, amount)) == Holdings(w)
    ensures Frozen(w, amount).frozenAmount - w.frozenAmount == amount
    ensures Unfrozen(w, amount).balance - w.balance == amount
  {
  }

  /** Unfreezing what was just frozen gives the wallet back, and so does adding
      back a deducted amount (a rejected withdrawal). */
  lemma RoundTrips(w: Wallet, amount: real)
    ensures Unfrozen(Frozen(w, amount), amount) == w
    ensures Credited(Debited(w, amount), amount) == w
  {
  }

  /** releaseFrozenAmount takes the amount out of escrow into the expense total and
      leaves the balance alone; addIncome credits balance and income alike. */
  lemma ReleaseAndEarnSpec(w: Wallet, amount: real)
    ensures Released(w, amount).balance == w.balance
    ensures w.frozenAmount - Released(w, amount).frozenAmount == amount
    ensures Released(w, amount).totalExpense - w.totalExpense == amount
    ensures Earned(w, amount).balance - w.balance == amount
    ensures Earned(w, amount).totalIncome - w.totalIncome == amount
    ensures Earned(w, amount).frozenAmount == w.frozenAmount
  {
  }

  /** From a non-negative wallet and a non-negative amount, no statement whose
      guard passes makes the balance or the escrow negative. */
  lemma GuardsKeepNonNegative(w: Wallet, amount: real)
    requires NonNegative(w) && amount >= 0.0
    ensures NonNegative(Credited(w, amount)) && NonNegative(Earned(w, amount))
    ensures w.balance >= amount ==> NonNegative(Debited(w, amount)) && NonNegative(Frozen(w, amount))
    ensures w.frozenAmount >= amount ==> NonNegative(Unfrozen(w, amount)) && NonNegative(Released(w, amount))
  {
  }

  /** The first wallet of a user among rows[i..], as `WHERE user_id = ?` finds it. */
  function FindFrom(rows: seq<Wallet>, userId: nat, i: nat): (r: Option<nat>)
    requires i <= |rows|
    ensures r.Some? ==> i <= r.value < |rows| && rows[r.value].userId == userId
    ensures r.Some? ==> forall j :: i <= j < r.value ==> rows[j].userId != userId
    ensures r.None? ==> forall j :: i <= j < |rows| ==> rows[j].userId != userId
    decreases |rows| - i
  {
    if i == |rows| then None
    else if rows[i].userId == userId then Some(i)
    else FindFrom(rows, userId, i + 1)
  }

  /** WalletRepository.findByUserId, giving the row's id. */
  function FindByUserId(rows: seq<Wallet>, userId: nat): Option<nat>
  {
    FindFrom(rows, userId, 0)
  }

  /** At most one wallet per user, which getOrCreateWalletEntity maintains. */
  predicate OneWalletPerUser(rows: seq<Wallet>)
  {
    forall i, j :: 0 <= i < j < |rows| ==> rows[i].userId != rows[j].userId
  }

  /** The table once getOrCreateWalletEntity(userId) has run. */
  function WithWallet(rows: seq<Wallet>, userId: nat): seq<Wallet>
  {
    if FindByUserId(rows, userId).Some? then rows else rows + [NewWallet(userId)]
  }

  /** The id getOrCreateWalletEntity(userId) returns. */
  function WalletIndex(rows: seq<Wallet>, userId: nat): nat
  {
    match FindByUserId(rows, userId)
    case Some(i) => i
    case None => |rows|
  }

  /** The wallet getOrCreateWalletEntity(userId) returns. */
  function WalletOf(rows: seq<Wallet>, userId: nat): Wallet
  {
    match FindByUserId(rows, userId)
    case Some(i) => rows[i]
    case None => NewWallet(userId)
  }

  /** Get-or-create yields the user's wallet, creates one only when the user has
      none, and keeps one wallet per user; a created wallet is empty and NORMAL. */
  lemma WithWalletSpec(rows: seq<Wallet>, userId: nat)
    requires OneWalletPerUser(rows)
    ensures rows <= WithWallet(rows, userId)
    ensures WalletIndex(rows, userId) < |WithWallet(rows, userId)|
    ensures WithWallet(rows, userId)[WalletIndex(rows, userId)] == WalletOf(rows, userId)
    ensures WalletOf(rows, userId).userId == userId
    ensures OneWalletPerUser(WithWallet(rows, userId))
    ensures FindByUserId(WithWallet(rows, userId), userId) == Some(WalletIndex(rows, userId))
    ensures FindByUserId(rows, userId).None? ==>
      var w := WalletOf(rows, userId);
      w.balance == 0.0 && w.frozenAmount == 0.0 && w.totalIncome == 0.0 && w.totalExpense == 0.0
      && w.status == NORMAL
  {
    var r := WithWallet(rows, userId);
    var found := FindFrom(r, userId, 0);
    if FindByUserId(rows, userId).None? {
      assert r[|rows|].userId == userId;
    }
  }

  /** A second get-or-create for the same user creates nothing. */
  lemma WithWalletIdempotent(rows: seq<Wallet>, userId: nat)
    requires OneWalletPerUser(rows)
    ensures WithWallet(WithWallet(rows, userId), userId) == WithWallet(rows, userId)
  {
    WithWalletSpec(rows, userId);
  }

  /** Rows the statements only touch by id, with their affected-row count. */
  class WalletRepository {
    var rows: seq<Wallet>

    /** Balances and escrow are never negative, and each user has one wallet. */
    ghost predicate Valid()
      reads this
    {
      (forall i :: 0 <= i < |rows| ==> NonNegative(rows[i])) && OneWalletPerUser(rows)
    }

    constructor()
      ensures rows == [] && Valid()
    {
      rows := [];
    }

    /** BaseMapper.insert of a wallet for a user who has none. */
    method Insert(w: Wallet) returns (id: nat)
      requires Valid() && NonNegative(w) && FindByUserId(rows, w.userId).None?
      modifies this
      ensures Valid()
      ensures rows == old(rows) + [w] && id == |old(rows)|
    {
      id := |rows|;
      rows := rows + [w];
    }

    /** UPDATE wallet SET balance = balance + amount WHERE id = walletId. */
    method AddBalance(walletId: nat, amount: real) returns (affected: nat)
      modifies this
      ensures affected == (if walletId < |old(rows)| then 1 else 0)
      ensures rows == if affected == 1 then old(rows)[walletId := Credited(old(rows)[walletId], amount)] else old(rows)
      ensures old(Valid()) && amount >= 0.0 ==> Valid()
    {
      if walletId < |rows| {
        rows := rows[walletId := Credited(rows[walletId], amount)];
        affected := 1;
      } else {
        affected := 0;
      }
    }

    /** ... SET balance = balance - amount WHERE id = walletId AND balance >= amount. */
    method DeductBalance(walletId: nat, amount: real) returns (affected: nat)
      modifies this
      ensures affected == (if walletId < |old(rows)| && old(rows)[walletId].balance >= amount then 1 else 0)
      ensures rows == if affected == 1 then old(rows)[walletId := Debited(old(rows)[walletId], amount)] else old(rows)
      ensures old(Valid()) && amount >= 0.0 ==> Valid()
    {
      if walletId < |rows| && rows[walletId].balance >= amount {
        rows := rows[walletId := Debited(rows[walletId], amount)];
        affected := 1;
      } else {
        affected := 0;
      }
    }

    /** ... SET balance = balance - amount, frozen_amount = frozen_amount + amount
        WHERE id = walletId AND balance >= amount. */
    method FreezeAmount(walletId: nat, amount: real) returns (affected: nat)
      modifies this
      ensures affected == (if walletId < |old(rows)| && old(rows)[walletId].balance >= amount then 1 else 0)
      ensures rows == if affected == 1 then old(rows)[walletId := Frozen(old(rows)[walletId], amount)] else old(rows)
      ensures old(Valid()) && amount >= 0.0 ==> Valid()
    {
      if walletId < |rows| && rows[walletId].balance >= amount {
        rows := rows[walletId := Frozen(rows[walletId], amount)];
        affected := 1;
      } else {
        affected := 0;
      }
    }

    /** ... SET balance = balance + amount, frozen_amount = frozen_amount - amount
        WHERE id = walletId AND frozen_amount >= amount. */
    method UnfreezeAmount(walletId: nat, amount: real) returns (affected: nat)
      modifies this
      ensures affected == (if walletId < |old(rows)| && old(rows)[walletId].frozenAmount >= amount then 1 else 0)
      ensures rows == if affected == 1 then old(rows)[walletId := Unfrozen(old(rows)[walletId], amount)] else old(rows)
      ensures old(Valid()) && amount >= 0.0 ==> Valid()
    {
      if walletId < |rows| && rows[walletId].frozenAmount >= amount {
        rows := rows[walletId := Unfrozen(rows[walletId], amount)];
        affected := 1;
      } else {
        affected := 0;
      }
    }

    /** ... SET frozen_amount = frozen_amount - amount, total_expense = total_expense + amount
        WHERE id = walletId AND frozen_amount >= amount. */
    method ReleaseFrozenAmount(walletId: nat, amount: real) returns (affected: nat)
      modifies this
      ensures affected == (if walletId < |old(rows)| && old(rows)[walletId].frozenAmount >= amount then 1 else 0)
      ensures rows == if affected == 1 then old(rows)[walletId := Released(old(rows)[walletId], amount)] else old(rows)
      ensures old(Valid()) && amount >= 0.0 ==> Valid()
    {
      if walletId < |rows| && rows[walletId].frozenAmount >= amount {
        rows := rows[walletId := Released(rows[walletId], amount)];
        affected := 1;
      } else {
        affected := 0;
      }
    }

    /** ... SET balance = balance + amount, total_income = total_income + amount
        WHERE id = walletId. */
    method AddIncome(walletId: nat, amount: real) returns (affected: nat)
      modifies this
      ensures affected == (if walletId < |old(rows)| then 1 else 0)
      ensures rows == if affected == 1 then old(rows)[walletId := Earned(old(rows)[walletId], amount)] else old(rows)
      ensures old(Valid()) && amount >= 0.0 ==> Valid()
    {
      if walletId < |rows| {
        rows := rows[walletId := Earned(rows[walletId], amount)];
        affected := 1;
      } else {
        affected := 0;
      }
    }
  }
}
