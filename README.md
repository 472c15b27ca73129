# MakeBang marketplace core, modelled in Dafny

MakeBang is a freelance marketplace. Employers publish projects, developers
bid on them, and an accepted bid becomes an order whose payment is held in
escrow and released milestone by milestone. This project models the
backend's business core and proves properties about it:

- the wallet ledger: the guarded balance, escrow, income and expense updates
  of `WalletRepository`, and the recharge, withdraw, escrow, release and
  refund flows of `WalletServiceImpl` with the transaction records they write;
- the order and milestone lifecycle of `OrderServiceImpl`, with the milestone
  queries of `MilestoneRepository` as filter, sort and count functions;
- the bid lifecycle of `BidServiceImpl` and the project lifecycle, view
  counter and category tree of `ProjectServiceImpl`;
- the administrator's withdrawal review, user and project status updates and
  dashboard totals in `AdminServiceImpl`;
- reviews (`ReviewServiceImpl`) and private and order conversations with
  their unread counters (`MessageServiceImpl`);
- the hybrid search merge, filters, paging, completions and search history of
  `SearchServiceImpl`;
- the file-name, path and MIME rules and the soft delete of `FileServiceImpl`;
- the role-to-authority mapping of `UserDetailsServiceImpl`;
- the derived text of `UserVO` and `ProjectVO`, the page count of
  `PageResult`, and the status enums of the order, milestone, bid, project
  and transaction entities.

## Modelling conventions

- Each database table is a `seq` field of a repository class; a row's id is
  its index and a soft delete sets its `deleted` flag. `selectById` still
  returns a soft-deleted row, as the mapper does, while the list queries skip
  them. The one physical delete, `deleteById` of a project, keeps the slot and
  sets its `removed` flag; `Tables.FoundProject` is selectById finding the row,
  and every lookup, update and query of projects misses a removed one.
- Service methods are methods of service classes over those repositories.
  A service call returns a `Result`. Every `@Transactional` call that fails
  leaves every table it may modify unchanged (the rollback), and a
  BusinessException carries the `ResultCode` it is thrown with.
- A Java runtime exception that escapes (a null unboxing, an arithmetic
  exception, a missing user) is the error `Uncaught(name)`.
- The logged-in user is an explicit `actor` argument. Bean-validation bounds
  on request objects are preconditions; `@NotBlank` is `Text.NotBlank`, the
  test that `String.trim` leaves something, not Spring's `hasText`.
- Money is a Dafny `real`, so amounts are exact. `BigDecimal` values whose
  scale matters for rendering are an unscaled integer and a scale.
- Java `int` and `long` division truncates toward zero (`PageResults.JavaDiv`).
- Strings are sequences of Unicode characters (scalar values). Where the source
  compares a `String.length()` with a bound, the model counts UTF-16 units with
  `Text.JavaLength`, and `Messages.Preview` cuts with `Text.JavaPrefix`.
- Clocks, generated numbers and UUIDs are parameters.

## Model

| member | source | states |
|---|---|---|
| WalletLedger.CreditedSpec | makebang-backend/src/main/java/com/makebang/repository/WalletRepository.java:27-29 | addBalance raises the balance by exactly the amount and leaves escrow, income and expense alone |
| WalletLedger.FreezeKeepsHoldings | makebang-backend/src/main/java/com/makebang/repository/WalletRepository.java:41-50 | freezeAmount and unfreezeAmount move exactly the amount between balance and escrow and keep the money a wallet holds |
| WalletLedger.RoundTrips | makebang-backend/src/main/java/com/makebang/repository/WalletRepository.java:34-50 | unfreezing what was frozen, or adding back what was deducted, gives the wallet back unchanged |
| WalletLedger.ReleaseAndEarnSpec | makebang-backend/src/main/java/com/makebang/repository/WalletRepository.java:55-64 | releaseFrozenAmount moves the amount from escrow to the expense total without touching the balance; addIncome raises balance and income by the amount |
| WalletLedger.GuardsKeepNonNegative | makebang-backend/src/main/java/com/makebang/repository/WalletRepository.java:34-57 | with the WHERE guards `balance >= amount` and `frozen_amount >= amount`, no statement makes a balance or an escrow negative |
| WalletLedger.FindFrom | makebang-backend/src/main/java/com/makebang/repository/WalletRepository.java:21-22 | findByUserId yields the first wallet row of the user, and nothing when the user has none |
| WalletLedger.WithWalletSpec | makebang-backend/src/main/java/com/makebang/service/impl/WalletServiceImpl.java:333-350 | get-or-create returns the user's wallet, inserts one (empty, NORMAL) only when the user has none, and keeps one wallet per user |
| WalletLedger.WithWalletIdempotent | makebang-backend/src/main/java/com/makebang/service/impl/WalletServiceImpl.java:333-350 | a second get-or-create for the same user inserts nothing |
| WalletLedger.WalletRepository.Insert | makebang-backend/src/main/java/com/makebang/service/impl/WalletServiceImpl.java:346 | the insert appends the wallet with the next id and keeps the table valid |
| WalletLedger.WalletRepository.AddBalance | makebang-backend/src/main/java/com/makebang/repository/WalletRepository.java:27-29 | affects one row exactly when the wallet exists, credits it, and keeps non-negative amounts non-negative |
| WalletLedger.WalletRepository.DeductBalance | makebang-backend/src/main/java/com/makebang/repository/WalletRepository.java:34-36 | affects one row exactly when the wallet exists and its balance covers the amount; otherwise changes nothing |
| WalletLedger.WalletRepository.FreezeAmount | makebang-backend/src/main/java/com/makebang/repository/WalletRepository.java:41-43 | affects one row exactly when the balance covers the amount, moving it into escrow |
| WalletLedger.WalletRepository.UnfreezeAmount | makebang-backend/src/main/java/com/makebang/repository/WalletRepository.java:48-50 | affects one row exactly when the escrow covers the amount, moving it back to the balance |
| WalletLedger.WalletRepository.ReleaseFrozenAmount | makebang-backend/src/main/java/com/makebang/repository/WalletRepository.java:55-57 | affects one row exactly when the escrow covers the amount, moving it into the expense total |
| WalletLedger.WalletRepository.AddIncome | makebang-backend/src/main/java/com/makebang/repository/WalletRepository.java:62-64 | affects one row exactly when the wallet exists, raising balance and income |
| Wallets.FeeSplit | makebang-backend/src/main/java/com/makebang/service/impl/WalletServiceImpl.java:213-214 | the 5% fee and the developer's income add up to the milestone amount, both non-negative for a non-negative amount, and the fee is positive exactly when the amount is |
| Wallets.ServiceFee | makebang-backend/src/main/java/com/makebang/service/impl/WalletServiceImpl.java:213 | the fee is the milestone amount times SERVICE_FEE_RATE 0.05, unrounded; its properties are `Wallets.FeeSplit` |
| Wallets.DeveloperIncome | makebang-backend/src/main/java/com/makebang/service/impl/WalletServiceImpl.java:214 | the developer income is the amount less the fee; its properties are `Wallets.FeeSplit` |
| Wallets.SumSplit | makebang-backend/src/main/java/com/makebang/service/impl/WalletServiceImpl.java:352-359 | a sum of milestone amounts splits exactly into the part in a status set and the part outside it |
| Wallets.SumNonNegative | makebang-backend/src/main/java/com/makebang/service/impl/WalletServiceImpl.java:352-359 | a sum of non-negative milestone amounts is non-negative |
| Wallets.RefundComplementsApproved | makebang-backend/src/main/java/com/makebang/service/impl/WalletServiceImpl.java:352-359 | calculateRefundAmount plus the already approved amounts is the total of the order's live milestones, and the refund is never negative |
| Wallets.RefundAmount | makebang-backend/src/main/java/com/makebang/service/impl/WalletServiceImpl.java:352-359 | calculateRefundAmount sums the order's milestones that are not APPROVED; its properties are `Wallets.RefundComplementsApproved` |
| Wallets.MaskAccount | makebang-backend/src/main/java/com/makebang/service/impl/WalletServiceImpl.java:365-370 | maskAccount; its properties are `Wallets.MaskAccountHidesMiddle` and `Wallets.MaskAccountShort` |
| Wallets.MaskAccountHidesMiddle | makebang-backend/src/main/java/com/makebang/service/impl/WalletServiceImpl.java:365-370 | a masked account shows the first and last four characters around "****" and nothing else, so accounts sharing those ends mask alike |
| Wallets.MaskAccountShort | makebang-backend/src/main/java/com/makebang/service/impl/WalletServiceImpl.java:366-368 | a missing account or one shorter than four characters masks to "****" |
| Wallets.DirectionSpec | makebang-backend/src/main/java/com/makebang/service/impl/WalletServiceImpl.java:394-418 | a record is income (direction 1) exactly for RECHARGE, INCOME and REFUND and expense (2) otherwise; an unknown type is "未知" |
| Wallets.TransactionViewOf | makebang-backend/src/main/java/com/makebang/service/impl/WalletServiceImpl.java:394-418 | the type, status and direction text toTransactionVO derives from the codes; its properties are `Wallets.DirectionSpec` |
| Wallets.WalletStatusDesc | makebang-backend/src/main/java/com/makebang/service/impl/WalletServiceImpl.java:372-379 | toWalletVO reads NORMAL as 正常, FROZEN as 冻结 and any other status as the empty string |
| Wallets.CanRelease | makebang-backend/src/main/java/com/makebang/service/impl/WalletServiceImpl.java:197-221 | releaseMilestonePayment succeeds exactly when the milestone and its order exist and the employer's escrow covers the amount; `Wallets.WalletService.ReleaseMilestonePayment` and `Orders.OrderService.Approve` are stated with it |
| Wallets.CanRefund | makebang-backend/src/main/java/com/makebang/service/impl/WalletServiceImpl.java:278-290 | a refund of an existing order succeeds exactly when nothing is to be refunded or the escrow covers the refund; `Wallets.WalletService.RefundEscrow` is stated with it |
| Wallets.TotalHoldingsAppend | makebang-backend/src/main/java/com/makebang/service/impl/WalletServiceImpl.java:336-347 | inserting an empty wallet adds nothing to the money held |
| Wallets.TotalHoldingsUpdate | makebang-backend/src/main/java/com/makebang/repository/WalletRepository.java:27-64 | rewriting one wallet changes the money held by that wallet's difference |
| Wallets.WalletOfWith | makebang-backend/src/main/java/com/makebang/service/impl/WalletServiceImpl.java:333-350 | get-or-create for one user changes no other user's wallet |
| Wallets.WalletOfUpdate | makebang-backend/src/main/java/com/makebang/repository/WalletRepository.java:27-64 | an UPDATE by id on one user's wallet changes that user's wallet and no other |
| Wallets.AfterMoveSpec | makebang-backend/src/main/java/com/makebang/service/impl/WalletServiceImpl.java:79-192 | recharge, withdraw and escrow change the actor's wallet by their statement, leave every other wallet alone, keep one wallet per user and change the money held by +amount, -amount or 0 |
| Wallets.WithdrawThenRefundRestores | makebang-backend/src/main/java/com/makebang/service/impl/WalletServiceImpl.java:111-148 | a withdrawal followed by adding the amount back (an admin's rejection) restores the wallet table up to the get-or-create |
| Wallets.ReleaseBounds | makebang-backend/src/main/java/com/makebang/service/impl/WalletServiceImpl.java:207-208 | after both get-or-creates the employer's and developer's wallets sit at valid ids |
| Wallets.ReleaseSpec | makebang-backend/src/main/java/com/makebang/service/impl/WalletServiceImpl.java:207-223 | a release moves the milestone amount from the employer's escrow to their expense, credits the developer amount minus fee, leaves other wallets alone and takes exactly the fee out of the money held |
| Wallets.ReleaseRecordsSpec | makebang-backend/src/main/java/com/makebang/service/impl/WalletServiceImpl.java:225-260 | the INCOME and SERVICE_FEE records add up to the milestone amount, the fee record moves no balance, and the income record's balanceAfter is the developer's new balance |
| Wallets.RefundSpec | makebang-backend/src/main/java/com/makebang/service/impl/WalletServiceImpl.java:269-311 | a refund keeps the money held, returns to the employer's balance exactly what leaves escrow, and writes a REFUND record only for a positive refund |
| Wallets.WalletService.GetOrCreateWalletEntity | makebang-backend/src/main/java/com/makebang/service/impl/WalletServiceImpl.java:333-350 | the returned id holds the user's wallet, the table grows only when the user had none, and the table stays valid |
| Wallets.WalletService.Recharge | makebang-backend/src/main/java/com/makebang/service/impl/WalletServiceImpl.java:79-107 | credits the actor's wallet by the amount and appends a RECHARGE/SUCCESS record whose balanceAfter is balanceBefore + amount |
| Wallets.WalletService.Withdraw | makebang-backend/src/main/java/com/makebang/service/impl/WalletServiceImpl.java:111-148 | refused, changing nothing, when the balance does not cover the amount; otherwise deducts it and appends a WITHDRAW/PROCESSING record with the masked account in its remark |
| Wallets.WalletService.EscrowPayment | makebang-backend/src/main/java/com/makebang/service/impl/WalletServiceImpl.java:152-192 | refused for a missing order or a short balance; otherwise freezes the amount in the employer's wallet and appends a PAYMENT/SUCCESS record |
| Wallets.WalletService.MoveEscrow | makebang-backend/src/main/java/com/makebang/service/impl/WalletServiceImpl.java:207-223 | runs both get-or-creates, releases the employer's escrow and credits the developer, or rolls back when the release affects no row |
| Wallets.WalletService.ReleaseMilestonePayment | makebang-backend/src/main/java/com/makebang/service/impl/WalletServiceImpl.java:196-265 | refused with "里程碑不存在" for a missing milestone, "订单不存在" for a missing order and "托管金额不足或操作失败" for a short escrow, in that order; otherwise the wallet table is AfterRelease and the INCOME (and positive fee) records are appended |
| Wallets.WalletService.RefundEscrow | makebang-backend/src/main/java/com/makebang/service/impl/WalletServiceImpl.java:269-311 | refused for a missing order or a short escrow; nothing to refund returns no record; otherwise unfreezes the refund and appends the REFUND record |
| OrderEntity.CodesInDeclaredOrder | makebang-backend/src/main/java/com/makebang/entity/Order.java:88-93 | the 6 Order.Status constants carry the codes 0..5 in declaration order |
| OrderEntity.InValues | makebang-backend/src/main/java/com/makebang/entity/Order.java:88-93 | values() lists every status |
| OrderEntity.CodeInjective | makebang-backend/src/main/java/com/makebang/entity/Order.java:88-93 | two statuses share a code exactly when they are the same status |
| OrderEntity.DescInFinds | makebang-backend/src/main/java/com/makebang/entity/Order.java:103-108 | the getDesc loop returns a status's own description for its code, wherever it sits in the list |
| OrderEntity.DescInMisses | makebang-backend/src/main/java/com/makebang/entity/Order.java:103-108 | the getDesc loop returns "未知" when no listed status carries the code |
| OrderEntity.GetDescOfCode | makebang-backend/src/main/java/com/makebang/entity/Order.java:103-108 | getDesc(code) of a status is its description |
| OrderEntity.GetDescUnknown | makebang-backend/src/main/java/com/makebang/entity/Order.java:103-108 | getDesc of a code outside 0..5 is "未知" |
| OrderEntity.DescIn | makebang-backend/src/main/java/com/makebang/entity/Order.java:103-108 | the getDesc loop returns the description of the first status with the code, else "未知"; its properties are `OrderEntity.DescInFinds` and `OrderEntity.DescInMisses` |
| OrderEntity.GetDesc | makebang-backend/src/main/java/com/makebang/entity/Order.java:103-108 | getDesc over the declared statuses; its properties are `OrderEntity.GetDescOfCode` and `OrderEntity.GetDescUnknown` |
| MilestoneEntity.CodesInDeclaredOrder | makebang-backend/src/main/java/com/makebang/entity/Milestone.java:78-82 | the 5 Milestone.Status constants carry the codes 0..4 in declaration order |
| MilestoneEntity.InValues | makebang-backend/src/main/java/com/makebang/entity/Milestone.java:78-82 | values() lists every status |
| MilestoneEntity.CodeInjective | makebang-backend/src/main/java/com/makebang/entity/Milestone.java:78-82 | two statuses share a code exactly when they are the same status |
| MilestoneEntity.DescInFinds | makebang-backend/src/main/java/com/makebang/entity/Milestone.java:92-97 | the getDesc loop returns a status's own description for its code, wherever it sits in the list |
| MilestoneEntity.DescInMisses | makebang-backend/src/main/java/com/makebang/entity/Milestone.java:92-97 | the getDesc loop returns "未知" when no listed status carries the code |
| MilestoneEntity.GetDescOfCode | makebang-backend/src/main/java/com/makebang/entity/Milestone.java:92-97 | getDesc(code) of a status is its description |
| MilestoneEntity.GetDescUnknown | makebang-backend/src/main/java/com/makebang/entity/Milestone.java:92-97 | getDesc of a code outside 0..4 is "未知" |
| MilestoneEntity.DescIn | makebang-backend/src/main/java/com/makebang/entity/Milestone.java:92-97 | the getDesc loop returns the description of the first status with the code, else "未知"; its properties are `MilestoneEntity.DescInFinds` and `MilestoneEntity.DescInMisses` |
| MilestoneEntity.GetDesc | makebang-backend/src/main/java/com/makebang/entity/Milestone.java:92-97 | getDesc over the declared statuses; its properties are `MilestoneEntity.GetDescOfCode` and `MilestoneEntity.GetDescUnknown` |
| BidEntity.CodesInDeclaredOrder | makebang-backend/src/main/java/com/makebang/entity/Bid.java:56-59 | the 4 Bid.Status constants carry the codes 0..3 in declaration order |
| BidEntity.InValues | makebang-backend/src/main/java/com/makebang/entity/Bid.java:56-59 | values() lists every status |
| BidEntity.CodeInjective | makebang-backend/src/main/java/com/makebang/entity/Bid.java:56-59 | two statuses share a code exactly when they are the same status |
| BidEntity.DescInFinds | makebang-backend/src/main/java/com/makebang/entity/Bid.java:69-74 | the getDesc loop returns a status's own description for its code, wherever it sits in the list |
| BidEntity.DescInMisses | makebang-backend/src/main/java/com/makebang/entity/Bid.java:69-74 | the getDesc loop returns "未知" when no listed status carries the code |
| BidEntity.GetDescOfCode | makebang-backend/src/main/java/com/makebang/entity/Bid.java:69-74 | getDesc(code) of a status is its description |
| BidEntity.GetDescUnknown | makebang-backend/src/main/java/com/makebang/entity/Bid.java:69-74 | getDesc of a code outside 0..3 is "未知" |
| BidEntity.DescIn | makebang-backend/src/main/java/com/makebang/entity/Bid.java:69-74 | the getDesc loop returns the description of the first status with the code, else "未知"; its properties are `BidEntity.DescInFinds` and `BidEntity.DescInMisses` |
| BidEntity.GetDesc | makebang-backend/src/main/java/com/makebang/entity/Bid.java:69-74 | getDesc over the declared statuses; its properties are `BidEntity.GetDescOfCode` and `BidEntity.GetDescUnknown` |
| ProjectEntity.CodesInDeclaredOrder | makebang-backend/src/main/java/com/makebang/entity/Project.java:92-97 | the 6 Project.Status constants carry the codes 0..5 in declaration order |
| ProjectEntity.InValues | makebang-backend/src/main/java/com/makebang/entity/Project.java:92-97 | values() lists every status |
| ProjectEntity.CodeInjective | makebang-backend/src/main/java/com/makebang/entity/Project.java:92-97 | two statuses share a code exactly when they are the same status |
| ProjectEntity.DescInFinds | makebang-backend/src/main/java/com/makebang/entity/Project.java:107-112 | the getDesc loop returns a status's own description for its code, wherever it sits in the list |
| ProjectEntity.DescInMisses | makebang-backend/src/main/java/com/makebang/entity/Project.java:107-112 | the getDesc loop returns "未知" when no listed status carries the code |
| ProjectEntity.GetDescOfCode | makebang-backend/src/main/java/com/makebang/entity/Project.java:107-112 | getDesc(code) of a status is its description |
| ProjectEntity.GetDescUnknown | makebang-backend/src/main/java/com/makebang/entity/Project.java:107-112 | getDesc of a code outside 0..5 is "未知" |
| ProjectEntity.DescIn | makebang-backend/src/main/java/com/makebang/entity/Project.java:107-112 | the getDesc loop returns the description of the first status with the code, else "未知"; its properties are `ProjectEntity.DescInFinds` and `ProjectEntity.DescInMisses` |
| ProjectEntity.GetDesc | makebang-backend/src/main/java/com/makebang/entity/Project.java:107-112 | getDesc over the declared statuses; its properties are `ProjectEntity.GetDescOfCode` and `ProjectEntity.GetDescUnknown` |
| TransactionEntity.TypeCodesInDeclaredOrder | makebang-backend/src/main/java/com/makebang/entity/Transaction.java:86-91 | the six Type constants carry the codes 1..6 in declaration order |
| TransactionEntity.TypeInValues | makebang-backend/src/main/java/com/makebang/entity/Transaction.java:86-91 | values() lists every type |
| TransactionEntity.TypeCodeInjective | makebang-backend/src/main/java/com/makebang/entity/Transaction.java:86-91 | two types share a code exactly when they are the same type |
| TransactionEntity.StatusCodeInjective | makebang-backend/src/main/java/com/makebang/entity/Transaction.java:123-125 | two transaction statuses share a code exactly when they are the same |
| TransactionEntity.FromCodeInSound | makebang-backend/src/main/java/com/makebang/entity/Transaction.java:109-116 | the fromCode loop returns only a type carrying the asked code, and null exactly when no listed type carries it |
| TransactionEntity.FromCodeRoundTrip | makebang-backend/src/main/java/com/makebang/entity/Transaction.java:101-116 | fromCode(getCode(t)) is t |
| TransactionEntity.CodeRoundTrip | makebang-backend/src/main/java/com/makebang/entity/Transaction.java:101-116 | getCode(fromCode(c)) is c wherever fromCode succeeds |
| TransactionEntity.FromCodeUnknown | makebang-backend/src/main/java/com/makebang/entity/Transaction.java:109-116 | fromCode returns null exactly for codes outside 1..6 |
| TransactionEntity.FromCode | makebang-backend/src/main/java/com/makebang/entity/Transaction.java:109-116 | Type.fromCode; its properties are `TransactionEntity.FromCodeRoundTrip`, `TransactionEntity.CodeRoundTrip` and `TransactionEntity.FromCodeUnknown` |
| Tables.OrderOfProjectFrom | makebang-backend/src/main/java/com/makebang/repository/OrderRepository.java:49-50 | findByProjectId yields a live order of the project, and nothing exactly when the project has no live order |
| Tables.CountBids | makebang-backend/src/main/java/com/makebang/repository/BidRepository.java:44-50 | countByProjectAndDeveloper is 0 exactly when the developer has no live bid on the project, whatever its status |
| Tables.ProjectRepository.IncrementViewCount | makebang-backend/src/main/java/com/makebang/repository/ProjectRepository.java:20-21 | raises the project's view count by one, touches no other row, and keeps the counters non-negative |
| Tables.ProjectRepository.IncrementBidCount | makebang-backend/src/main/java/com/makebang/repository/ProjectRepository.java:26-27 | raises the project's bid count by one, touches no other row, and keeps the counters non-negative |
| Tables.ProjectRepository.DecrementBidCount | makebang-backend/src/main/java/com/makebang/repository/ProjectRepository.java:32-33 | lowers the bid count by one but never below 0, touching no other row |
| Tables.GreatestZero | makebang-backend/src/main/java/com/makebang/repository/ProjectRepository.java:32 | GREATEST(x, 0) is the larger of x and 0 |
| MilestoneQueries.Select | makebang-backend/src/main/java/com/makebang/repository/MilestoneRepository.java:20-26 | the WHERE clause keeps exactly the live rows of the order whose status is in the filter |
| MilestoneQueries.SelectIncreasing | makebang-backend/src/main/java/com/makebang/repository/MilestoneRepository.java:20-26 | the scan lists row ids in strictly increasing order, so no row twice |
| MilestoneQueries.SortedCons | makebang-backend/src/main/java/com/makebang/repository/MilestoneRepository.java:24 | putting an id of no larger sequence in front keeps a list ascending by sequence |
| MilestoneQueries.InsertBySequencePerm | makebang-backend/src/main/java/com/makebang/repository/MilestoneRepository.java:24 | inserting an id adds exactly that id to the list |
| MilestoneQueries.SortedTail | makebang-backend/src/main/java/com/makebang/repository/MilestoneRepository.java:24 | the tail of an ascending list is ascending and no lower than its head |
| MilestoneQueries.InsertBySequenceSorted | makebang-backend/src/main/java/com/makebang/repository/MilestoneRepository.java:24 | inserting an id into an ascending list keeps it ascending |
| MilestoneQueries.SortBySequenceCorrect | makebang-backend/src/main/java/com/makebang/repository/MilestoneRepository.java:24 | ORDER BY sequence ASC yields an ascending permutation of the selected ids |
| MilestoneQueries.DistinctCount | makebang-backend/src/main/java/com/makebang/repository/MilestoneRepository.java:20-26 | in a list of ids without repeats each id occurs at most once, the multiset step of `MilestoneQueries.PermutationKeepsDistinct` |
| MilestoneQueries.PermutationKeepsDistinct | makebang-backend/src/main/java/com/makebang/repository/MilestoneRepository.java:24 | reordering the selected ids, which have no repeats, gives ids without repeats, so the sort returns each row once |
| MilestoneQueries.FindByOrderIdSpec | makebang-backend/src/main/java/com/makebang/repository/MilestoneRepository.java:20-26 | findByOrderId returns exactly the order's live milestones, with no id repeated, ascending by sequence |
| MilestoneQueries.Lowest | makebang-backend/src/main/java/com/makebang/repository/MilestoneRepository.java:47-48 | ORDER BY sequence ASC LIMIT 1 picks a selected id of the least sequence, and nothing only from an empty selection |
| MilestoneQueries.RepositoryLiterals | makebang-backend/src/main/java/com/makebang/repository/MilestoneRepository.java:34-58 | the literals 3, (1, 2) and 0 in the queries are the codes of APPROVED, IN_PROGRESS/SUBMITTED and PENDING |
| MilestoneQueries.FindNextPendingSpec | makebang-backend/src/main/java/com/makebang/repository/MilestoneRepository.java:55-63 | findNextPendingByOrderId returns a live PENDING milestone of the order with no lower-sequence PENDING one, and none exactly when there is none |
| MilestoneQueries.FindCurrentSpec | makebang-backend/src/main/java/com/makebang/repository/MilestoneRepository.java:42-50 | findCurrentByOrderId returns a live IN_PROGRESS or SUBMITTED milestone of least sequence, and none exactly when there is none |
| MilestoneQueries.SelectNarrower | makebang-backend/src/main/java/com/makebang/repository/MilestoneRepository.java:31-37 | a narrower status filter never selects more rows |
| MilestoneQueries.CountCompletedBound | makebang-backend/src/main/java/com/makebang/repository/MilestoneRepository.java:31-37 | countCompletedByOrderId never exceeds the number of the order's live milestones |
| Orders.FinalStates | makebang-backend/src/main/java/com/makebang/service/impl/OrderServiceImpl.java:160-165 | in the lifecycle relation `OrderStep` CANCELLED and COMPLETED lead only to themselves and no other status leads to DISPUTED; the status-checked operations (cancel, accept, submit with the guard) take only such steps, while completeOrder, the reject branch of reviewMilestone and the approve branch's restart to IN_PROGRESS (when milestones remain) write outside it (see `Orders.UncheckedStatusWrites`) |
| Orders.UncheckedStatusWrites | makebang-backend/src/main/java/com/makebang/service/impl/OrderServiceImpl.java:339-389 | completeOrder writes COMPLETED, and reviewMilestone writes IN_PROGRESS in its reject branch and in its approve branch when milestones remain, all without a status check; those writes are lifecycle steps exactly from the listed statuses, and from CANCELLED neither is |
| Orders.ProgressSpec | makebang-backend/src/main/java/com/makebang/service/impl/OrderServiceImpl.java:472-474 | the order progress is the completed share in percent rounded down, 0 without milestones, at most 100, 100 exactly when every milestone is approved, and never falls when another is approved |
| Orders.ProgressExample | makebang-backend/src/main/java/com/makebang/service/impl/OrderServiceImpl.java:474 | one, two and three of three milestones approved read 33, 66 and 100; no milestones read 0 |
| Orders.Progress | makebang-backend/src/main/java/com/makebang/service/impl/OrderServiceImpl.java:472-474 | completed * 100 / total in int arithmetic, 0 without milestones; its properties are `Orders.ProgressSpec` |
| Orders.MaxSequence | makebang-backend/src/main/java/com/makebang/service/impl/OrderServiceImpl.java:237-241 | the highest sequence of the listed milestones, attained by one of them, and 0 for none |
| Orders.NextSequenceIsFresh | makebang-backend/src/main/java/com/makebang/service/impl/OrderServiceImpl.java:237-248 | the sequence addMilestone assigns exceeds that of every live milestone of the order |
| Orders.NextSequenceIsNext | makebang-backend/src/main/java/com/makebang/service/impl/OrderServiceImpl.java:235-247 | the new sequence is one past that of some live milestone of the order, or 1 when the order has none |
| Orders.NextMilestone | makebang-backend/src/main/java/com/makebang/service/impl/OrderServiceImpl.java:242-249 | the inserted milestone carries the order, the request's title, description, amount and due date, status PENDING, no notes, and a sequence above every live milestone of the order |
| Orders.ActivatedSpec | makebang-backend/src/main/java/com/makebang/service/impl/OrderServiceImpl.java:209-213 | activation sets the order's lowest-sequence PENDING milestone IN_PROGRESS and changes no other row; without one nothing changes |
| Orders.NewOrderMilestones | makebang-backend/src/main/java/com/makebang/service/impl/OrderServiceImpl.java:84-93 | a new order lists exactly its default milestone, which is next to start, has none approved, and would be refunded in full |
| Orders.NewOrderPending | makebang-backend/src/main/java/com/makebang/service/impl/OrderServiceImpl.java:84-93 | on a new order no milestone is approved and the default milestone is the next PENDING one |
| Orders.SubmitCheckKeepsLifecycle | makebang-backend/src/main/java/com/makebang/service/impl/OrderServiceImpl.java:299-317 | with the order-status guard every accepted submission is a lifecycle step, and the guard refuses exactly the submissions on orders that are not IN_PROGRESS or DELIVERED |
| Orders.SubmitAsWrittenReopensCancelledOrder | makebang-backend/src/main/java/com/makebang/service/impl/OrderServiceImpl.java:293-319 | as written, the developer's IN_PROGRESS milestone of a CANCELLED order passes every check and the order is set DELIVERED, which is not a lifecycle step |
| Orders.SubmitCheckAsWritten | makebang-backend/src/main/java/com/makebang/service/impl/OrderServiceImpl.java:299-307 | submitMilestone's checks as written: the developer, and a milestone IN_PROGRESS or REJECTED; `Orders.SubmitAsWrittenReopensCancelledOrder` shows what it lets through |
| Orders.SubmitCheck | makebang-backend/src/main/java/com/makebang/service/impl/OrderServiceImpl.java:299-317 | the same checks with the order-status guard; `Orders.SubmitCheckKeepsLifecycle` proves it keeps the lifecycle |
| Orders.OrderService.CreateOrderFromBid | makebang-backend/src/main/java/com/makebang/service/impl/OrderServiceImpl.java:48-98 | only an ACCEPTED live bid on an existing project without an order succeeds; it appends a PENDING_PAYMENT order for the bid's price and one PENDING milestone of sequence 1 for that amount; each failure names its error and changes nothing |
| Orders.OrderService.CancelOrder | makebang-backend/src/main/java/com/makebang/service/impl/OrderServiceImpl.java:152-183 | only the employer cancels, and only a PENDING_PAYMENT order or an IN_PROGRESS one whose unapproved remainder can be refunded; the order becomes CANCELLED, the project OPEN, the refund is made for a paid order, milestones stay; failures change nothing |
| Orders.OrderService.ConfirmPayment | makebang-backend/src/main/java/com/makebang/service/impl/OrderServiceImpl.java:187-218 | only the employer pays, only a PENDING_PAYMENT order, only with enough balance; the amount is frozen and recorded, the order goes IN_PROGRESS and its next PENDING milestone starts; failures change nothing |
| Orders.OrderService.AddMilestone | makebang-backend/src/main/java/com/makebang/service/impl/OrderServiceImpl.java:222-259 | only the employer of an IN_PROGRESS order adds a milestone; it is appended PENDING after the highest sequence and the order's milestone count rises by one; no money moves; failures change nothing |
| Orders.OrderService.StartMilestone | makebang-backend/src/main/java/com/makebang/service/impl/OrderServiceImpl.java:271-289 | only the order's developer starts a milestone, and only a PENDING one, which becomes IN_PROGRESS; failures change nothing |
| Orders.OrderService.SubmitMilestoneAsWritten | makebang-backend/src/main/java/com/makebang/service/impl/OrderServiceImpl.java:293-319 | the developer submits an IN_PROGRESS or REJECTED milestone with its note, and the order becomes DELIVERED whatever its status was; a missing milestone is NOT_FOUND, a missing order ORDER_NOT_FOUND, and otherwise the refusal is the one `Orders.SubmitCheckAsWritten` names; failures change nothing |
| Orders.OrderService.SubmitMilestone | makebang-backend/src/main/java/com/makebang/service/impl/OrderServiceImpl.java:293-319 | the same submission, refused unless the order is IN_PROGRESS or DELIVERED, so the order's move to DELIVERED is always a lifecycle step; the errors are NOT_FOUND, ORDER_NOT_FOUND, then the one `Orders.SubmitCheck` names; failures change nothing |
| Orders.OrderService.CompleteOrder | makebang-backend/src/main/java/com/makebang/service/impl/OrderServiceImpl.java:377-394 | any live order becomes COMPLETED and its project, if found, COMPLETED; a missing order is ORDER_NOT_FOUND and changes nothing |
| Orders.OrderService.Approve | makebang-backend/src/main/java/com/makebang/service/impl/OrderServiceImpl.java:339-362 | approval succeeds exactly when the escrow can release the milestone amount; it pays the developer net of the fee, then completes the order or restarts it; a failed release is "托管金额不足或操作失败" and changes nothing |
| Orders.OrderService.FinishApproval | makebang-backend/src/main/java/com/makebang/service/impl/OrderServiceImpl.java:346-362 | an approval reaching the milestone count completes the order and its project; otherwise the order goes back IN_PROGRESS and the next PENDING milestone starts; the reviewed milestone ends APPROVED with the review note |
| Orders.OrderService.ApproveLast | makebang-backend/src/main/java/com/makebang/service/impl/OrderServiceImpl.java:348-350 | the approval that reaches the milestone count completes the order and, when selectById finds it, its project, and the milestone becomes APPROVED with the review note when one is given |
| Orders.OrderService.ApproveAndRestart | makebang-backend/src/main/java/com/makebang/service/impl/OrderServiceImpl.java:351-361 | an approval that leaves milestones to do sets the order IN_PROGRESS whatever its status, starts the next PENDING milestone of lowest sequence if there is one, and makes the approved milestone APPROVED |
| Orders.OrderService.ReviewMilestone | makebang-backend/src/main/java/com/makebang/service/impl/OrderServiceImpl.java:323-373 | only the employer reviews, only a SUBMITTED milestone; approval releases the payment and completes or restarts the order, rejection sets the milestone REJECTED and the order IN_PROGRESS with no money moved; the errors are NOT_FOUND, ORDER_NOT_FOUND, FORBIDDEN, BAD_REQUEST in that order, then the release's "托管金额不足或操作失败"; failures change nothing |
| Bids.CountMeansHasBid | makebang-backend/src/main/java/com/makebang/repository/BidRepository.java:44-50 | countByProjectAndDeveloper is positive exactly when the developer has a live bid on the project, in any status |
| Bids.RejectedOthers | makebang-backend/src/main/java/com/makebang/service/impl/BidServiceImpl.java:251-261 | the reject UPDATE sets exactly the other live PENDING bids of the project REJECTED and changes no other row or field |
| Bids.RejectedOthersSettles | makebang-backend/src/main/java/com/makebang/service/impl/BidServiceImpl.java:251-261 | after the UPDATE no rival bid is PENDING, and a second UPDATE changes nothing |
| Bids.AfterAcceptSpec | makebang-backend/src/main/java/com/makebang/service/impl/BidServiceImpl.java:166-172 | acceptBid makes the chosen bid ACCEPTED and every other live PENDING bid of the project REJECTED, leaves no live rival PENDING and changes nothing else |
| Bids.Updated | makebang-backend/src/main/java/com/makebang/service/impl/BidServiceImpl.java:104-113 | updateBid copies the supplied price and days and a proposal with text; project, developer, status and liveness never change, and an empty request changes nothing |
| Bids.BidService.CreateBid | makebang-backend/src/main/java/com/makebang/service/impl/BidServiceImpl.java:45-86 | an employer-only account, a missing project, a project that is not OPEN, the owner's own project and a second bid are refused in that order with their own errors and change nothing; otherwise a PENDING bid is appended and the project's bid count rises by one |
| Bids.BidService.UpdateBid | makebang-backend/src/main/java/com/makebang/service/impl/BidServiceImpl.java:90-118 | only the bid's developer edits it, and only while PENDING; the stored bid becomes the field copy and every failure changes nothing |
| Bids.BidService.WithdrawBid | makebang-backend/src/main/java/com/makebang/service/impl/BidServiceImpl.java:122-143 | only the bid's developer withdraws it, and only while PENDING; it becomes WITHDRAWN and the project's bid count falls by one but not below 0 |
| Bids.BidService.RejectOtherBids | makebang-backend/src/main/java/com/makebang/service/impl/BidServiceImpl.java:251-261 | the bid table becomes the one where every other live PENDING bid of the project is REJECTED |
| Bids.BidService.AcceptBid | makebang-backend/src/main/java/com/makebang/service/impl/BidServiceImpl.java:147-183 | only the owner of an OPEN project accepts, and only a PENDING bid; the bid becomes ACCEPTED, its rivals REJECTED and the project IN_PROGRESS; each failure names its error and changes nothing |
| Bids.BidService.RejectBid | makebang-backend/src/main/java/com/makebang/service/impl/BidServiceImpl.java:187-206 | only the project owner rejects, and only a PENDING bid, whatever the project's status; the bid becomes REJECTED and failures change nothing |
| Bids.SettledBidsStay | makebang-backend/src/main/java/com/makebang/service/impl/BidServiceImpl.java:251-261 | accepting a bid never changes a bid that has left PENDING |
| Projects.OrKeep | makebang-backend/src/main/java/com/makebang/service/impl/ProjectServiceImpl.java:100-117 | a supplied field replaces the stored one and an absent one keeps it |
| Projects.TextOrKeep | makebang-backend/src/main/java/com/makebang/service/impl/ProjectServiceImpl.java:94-99 | a supplied title or description replaces the stored one only when it has text |
| Projects.Edited | makebang-backend/src/main/java/com/makebang/service/impl/ProjectServiceImpl.java:93-117 | updateProject's copy never touches the owner, status, counters or liveness, and an empty request changes nothing |
| Projects.EditedIdempotent | makebang-backend/src/main/java/com/makebang/service/impl/ProjectServiceImpl.java:93-117 | applying the same update twice gives the same project as applying it once |
| Projects.EditCanInvertBudget | makebang-backend/src/main/java/com/makebang/service/impl/ProjectServiceImpl.java:103-108 | a valid update lowering only the maximum budget below the stored minimum is accepted, unlike the create check |
| Projects.NewProject | makebang-backend/src/main/java/com/makebang/service/impl/ProjectServiceImpl.java:55-68 | the inserted project belongs to the caller, holds the request's fields, is DRAFT exactly when draft is true and OPEN otherwise, and starts with both counters at 0 |
| Projects.ChildrenOf | makebang-backend/src/main/java/com/makebang/service/impl/ProjectServiceImpl.java:287-289 | the categories grouped under a parent id are exactly those naming it as parent |
| Projects.ChildrenOfAppend | makebang-backend/src/main/java/com/makebang/service/impl/ProjectServiceImpl.java:287-289 | grouping keeps input order: the children of a concatenation are the children of each part in turn |
| Projects.BuildTreePlaced | makebang-backend/src/main/java/com/makebang/service/impl/ProjectServiceImpl.java:321-338 | every node the tree builder makes sits under the parent it was built for, all the way down |
| Projects.CategoryTree | makebang-backend/src/main/java/com/makebang/service/impl/ProjectServiceImpl.java:284-292 | the category tree has one root per category of parent 0 and every node is placed under its parent |
| Projects.CategoryTreeExample | makebang-backend/src/main/java/com/makebang/service/impl/ProjectServiceImpl.java:321-338 | two roots and one child of the first root give a two-node forest whose first node has that one child |
| Projects.BuildTree | makebang-backend/src/main/java/com/makebang/service/impl/ProjectServiceImpl.java:321-338 | buildCategoryTree, down to a given number of levels; its properties are `Projects.BuildTreePlaced` and `Projects.CategoryTreeComplete` |
| Projects.CategoryTreeComplete | makebang-backend/src/main/java/com/makebang/service/impl/ProjectServiceImpl.java:284-338 | a category appears in the tree exactly when a chain of parent links leads from root 0 down to it, so the level bound cuts nothing off |
| Projects.TreeNodeHasChain | makebang-backend/src/main/java/com/makebang/service/impl/ProjectServiceImpl.java:321-338 | every category in a built forest is reached by a chain of parent links from the parent it was built for |
| Projects.ChainInTree | makebang-backend/src/main/java/com/makebang/service/impl/ProjectServiceImpl.java:321-338 | a chain of parent links no longer than the level bound ends at a category of the built forest |
| Projects.ShortestChain | makebang-backend/src/main/java/com/makebang/service/impl/ProjectServiceImpl.java:321-338 | a chain to a category can be shortened to one without repeated categories, so of at most as many links as there are categories |
| Projects.DistinctBelow | makebang-backend/src/main/java/com/makebang/service/impl/ProjectServiceImpl.java:321-338 | distinct indexes below n number at most n, the pigeonhole step of `Projects.ShortestChain` |
| Projects.ProjectService.CreateProject | makebang-backend/src/main/java/com/makebang/service/impl/ProjectServiceImpl.java:47-75 | a maximum budget below the minimum is BAD_REQUEST and changes nothing; otherwise the new project is appended |
| Projects.ProjectService.UpdateProject | makebang-backend/src/main/java/com/makebang/service/impl/ProjectServiceImpl.java:79-122 | only the owner edits, and only a DRAFT or OPEN project; the stored project becomes the field copy and failures change nothing |
| Projects.ProjectService.CheckOwnDraft | makebang-backend/src/main/java/com/makebang/service/impl/ProjectServiceImpl.java:127-137 | the shared check passes exactly for a live DRAFT project of the caller, and names PROJECT_NOT_FOUND, FORBIDDEN or INVALID_PROJECT_STATUS in that order otherwise |
| Projects.ProjectService.DeleteProject | makebang-backend/src/main/java/com/makebang/service/impl/ProjectServiceImpl.java:126-140 | only the owner deletes, and only a DRAFT project; the row is removed, so selectById finds it no more and every later lookup, including the moderation calls, answers PROJECT_NOT_FOUND; failures change nothing |
| Projects.ProjectService.PublishProject | makebang-backend/src/main/java/com/makebang/service/impl/ProjectServiceImpl.java:144-160 | only the owner publishes, and only a DRAFT project, which becomes OPEN; failures change nothing |
| Projects.ProjectService.CloseProject | makebang-backend/src/main/java/com/makebang/service/impl/ProjectServiceImpl.java:164-178 | only the owner closes, and only an OPEN project, which becomes CLOSED; failures change nothing |
| Projects.ProjectService.GetProjectDetail | makebang-backend/src/main/java/com/makebang/service/impl/ProjectServiceImpl.java:187-195 | any live project can be viewed by anyone, and the stored and shown view counts both rise by exactly one |
| Admin.TotalsNonNegative | makebang-backend/src/main/java/com/makebang/service/impl/AdminServiceImpl.java:373-403 | the turnover and the fee income are never negative when the summed amounts are not |
| Admin.PlatformIncomeAppend | makebang-backend/src/main/java/com/makebang/service/impl/AdminServiceImpl.java:394-403 | the fee income of appended records is the sum of the income of each part |
| Admin.ReleaseRaisesIncomeByFee | makebang-backend/src/main/java/com/makebang/service/impl/WalletServiceImpl.java:213-260 | the records one milestone release writes raise the platform income by exactly the service fee on the milestone amount |
| Admin.CompletingRaisesTotal | makebang-backend/src/main/java/com/makebang/service/impl/AdminServiceImpl.java:373-381 | completing a live order that was not COMPLETED raises the turnover by exactly its amount |
| Admin.Refunded | makebang-backend/src/main/java/com/makebang/service/impl/AdminServiceImpl.java:350-351 | addBalance returns the record's amount to the record's wallet |
| Admin.RejectedRecord | makebang-backend/src/main/java/com/makebang/service/impl/AdminServiceImpl.java:353-354 | the rejected record is FAILED and keeps its amount, wallet and type, with the reason appended after its remark |
| Admin.WithdrawThenRejectRestores | makebang-backend/src/main/java/com/makebang/service/impl/AdminServiceImpl.java:340-369 | a withdrawal request refused by the administrator gives the user back exactly the wallet they had before the request |
| Admin.AdminService.DashboardTotals | makebang-backend/src/main/java/com/makebang/service/impl/AdminServiceImpl.java:373-403 | the dashboard's totals are the turnover of live COMPLETED orders and the income of live successful fee records, both non-negative |
| Admin.AdminService.DisableUser | makebang-backend/src/main/java/com/makebang/service/impl/AdminServiceImpl.java:136-147 | a user with a row gets status 0 and nothing else changes; a missing one is USER_NOT_FOUND |
| Admin.AdminService.EnableUser | makebang-backend/src/main/java/com/makebang/service/impl/AdminServiceImpl.java:151-162 | a user with a row gets status 1 and nothing else changes; a missing one is USER_NOT_FOUND |
| Admin.AdminService.SetUserRole | makebang-backend/src/main/java/com/makebang/service/impl/AdminServiceImpl.java:166-177 | the request's role, which validation keeps to 0..2 and never null, is stored with no further check; a missing user is USER_NOT_FOUND and changes nothing |
| Admin.AdminService.SetProjectStatus | makebang-backend/src/main/java/com/makebang/service/impl/AdminServiceImpl.java:201-272 | any project selectById finds gets the new status, whatever its old one; a missing or removed project is PROJECT_NOT_FOUND and changes nothing |
| Admin.AdminService.ApproveProject | makebang-backend/src/main/java/com/makebang/service/impl/AdminServiceImpl.java:201-222 | the project becomes OPEN whatever its status; a missing project, or one deleteProject removed, is PROJECT_NOT_FOUND and changes nothing |
| Admin.AdminService.RejectProject | makebang-backend/src/main/java/com/makebang/service/impl/AdminServiceImpl.java:226-247 | the project becomes CLOSED whatever its status; a missing project, or one deleteProject removed, is PROJECT_NOT_FOUND and changes nothing |
| Admin.AdminService.TakedownProject | makebang-backend/src/main/java/com/makebang/service/impl/AdminServiceImpl.java:251-272 | the project becomes CLOSED whatever its status; a missing project, or one deleteProject removed, is PROJECT_NOT_FOUND and changes nothing |
| Admin.AdminService.ApproveWithdrawal | makebang-backend/src/main/java/com/makebang/service/impl/AdminServiceImpl.java:311-336 | only a PROCESSING record is approved, becoming SUCCESS with the wallet untouched; a missing record is NOT_FOUND, a reviewed one BAD_REQUEST, and neither changes |
| Admin.AdminService.RejectWithdrawal | makebang-backend/src/main/java/com/makebang/service/impl/AdminServiceImpl.java:340-369 | only a PROCESSING record is rejected: it becomes FAILED with the reason in its remark and its amount goes back to its wallet; a missing record is NOT_FOUND, a reviewed one BAD_REQUEST, and neither changes anything |
| Reviews.NewReview | makebang-backend/src/main/java/com/makebang/service/impl/ReviewServiceImpl.java:86-114 | the inserted review names the order, its project and the reviewer; the employer reviews the developer and the developer the employer; each missing sub-rating is the overall rating; anonymity only when requested; no reply yet |
| Reviews.CanReviewMatchesCreate | makebang-backend/src/main/java/com/makebang/service/impl/ReviewServiceImpl.java:152-169 | on a live order, canReviewOrder answers true exactly when createReview's checks would pass |
| Reviews.CanReviewOrder | makebang-backend/src/main/java/com/makebang/service/impl/ReviewServiceImpl.java:152-169 | canReviewOrder: a COMPLETED order, the user takes part in it and has not reviewed it; `Reviews.CanReviewMatchesCreate` relates it to createReview |
| Reviews.CreateCheck | makebang-backend/src/main/java/com/makebang/service/impl/ReviewServiceImpl.java:62-84 | createReview's checks in order (missing or deleted order, not COMPLETED, not a party, already reviewed) as the error they raise; `Reviews.ReviewService.CreateReview` is stated with it |
| Reviews.CanReviewDeletedOrder | makebang-backend/src/main/java/com/makebang/service/impl/ReviewServiceImpl.java:155-157 | for a deleted COMPLETED order canReviewOrder says yes while createReview answers ORDER_NOT_FOUND |
| Reviews.PositiveAtMostReceived | makebang-backend/src/main/java/com/makebang/repository/ReviewRepository.java:69-75 | the positive-review count never exceeds the received-review count |
| Reviews.PositiveRateSpec | makebang-backend/src/main/java/com/makebang/service/impl/ReviewServiceImpl.java:238-243 | the positive rate is 100 times positive over count rounded half-up to a whole percent, and lies in 0..100 while positive does not exceed count |
| Reviews.PositiveRateExamples | makebang-backend/src/main/java/com/makebang/service/impl/ReviewServiceImpl.java:240-242 | 2 of 3 is 67, 1 of 3 is 33, 1 of 8 is 13, 0 of 5 is 0, 5 of 5 is 100, and no reviews is 0 |
| Reviews.PositiveRate | makebang-backend/src/main/java/com/makebang/service/impl/ReviewServiceImpl.java:238-243 | the positive rate in whole percent; its properties are `Reviews.PositiveRateSpec` |
| Reviews.ReviewStats | makebang-backend/src/main/java/com/makebang/service/impl/ReviewServiceImpl.java:224-243 | the positive count is at most the review count, the rate lies in 0..100, and no reviews gives rate 0 |
| Reviews.ShownReviewer | makebang-backend/src/main/java/com/makebang/service/impl/ReviewServiceImpl.java:303-311 | an anonymous review shows reviewer id 0 named "匿名用户"; otherwise the reviewer's own id and name, or none when the reviewer has no row |
| Reviews.ReviewService.CreateReview | makebang-backend/src/main/java/com/makebang/service/impl/ReviewServiceImpl.java:57-134 | a missing or deleted order, an order not COMPLETED, a caller who is not a party and a second review are refused in that order and change nothing; otherwise one review is appended and the one-review-per-reviewer rule still holds |
| Reviews.ReviewService.ReplyReview | makebang-backend/src/main/java/com/makebang/service/impl/ReviewServiceImpl.java:173-198 | only the reviewee replies, to a live review without a non-empty reply; the reply is stored and failures change nothing |
| Reviews.ReplyOnlyOnce | makebang-backend/src/main/java/com/makebang/service/impl/ReviewServiceImpl.java:186-191 | a stored reply is non-empty, so a second reply is refused |
| Messages.Preview | makebang-backend/src/main/java/com/makebang/service/impl/MessageServiceImpl.java:76-79 | the stored preview is the content itself when its Java length is at most 100 UTF-16 units, else its longest prefix of at most 100 units (exactly the first 100 characters for text inside the Basic Multilingual Plane) followed by "..." |
| Messages.FindPrivateFrom | makebang-backend/src/main/java/com/makebang/repository/ConversationRepository.java:28-32 | the lookup returns the first live private conversation of the two users in either order, and none exactly when there is none |
| Messages.FindPrivateSymmetric | makebang-backend/src/main/java/com/makebang/repository/ConversationRepository.java:29-30 | the private-conversation lookup gives the same answer whichever of the two users asks |
| Messages.FindByOrderFrom | makebang-backend/src/main/java/com/makebang/repository/ConversationRepository.java:37-38 | the lookup returns a live order conversation of the order, and none exactly when there is none |
| Messages.NewPrivate | makebang-backend/src/main/java/com/makebang/service/impl/MessageServiceImpl.java:258-268 | a new private conversation has the two users in the given order, both counters at 0, no order and no last message |
| Messages.NewOrderChat | makebang-backend/src/main/java/com/makebang/service/impl/MessageServiceImpl.java:283-294 | a new order conversation has the employer first and the developer second, the order and its project, both counters at 0 |
| Messages.Inc | makebang-backend/src/main/java/com/makebang/repository/ConversationRepository.java:43-52 | incrementing an unread counter adds one, and a NULL counter stays NULL |
| Messages.UnreadFor | makebang-backend/src/main/java/com/makebang/service/impl/MessageServiceImpl.java:332-334 | the unread count shown is the caller's slot when the caller is first, else the second slot, with NULL shown as 0 |
| Messages.OtherUser | makebang-backend/src/main/java/com/makebang/service/impl/MessageServiceImpl.java:325-327 | the other user shown is a participant, and not the caller when the caller is one of two distinct participants |
| Messages.ToView | makebang-backend/src/main/java/com/makebang/service/impl/MessageServiceImpl.java:323-334 | the conversation view carries the row's id, type, order and preview, the other user and the caller's unread count |
| Messages.BumpedRaisesOnlyReceiver | makebang-backend/src/main/java/com/makebang/service/impl/MessageServiceImpl.java:83-87 | a message raises the receiver's unread count by one and leaves the sender's and every other field alone |
| Messages.ClearedZeroesOnlyReader | makebang-backend/src/main/java/com/makebang/service/impl/MessageServiceImpl.java:194-198 | reading a conversation zeroes the reader's count and leaves the other participant's alone |
| Messages.ClearedOutsider | makebang-backend/src/main/java/com/makebang/service/impl/MessageServiceImpl.java:194-198 | a deleted conversation, or one the reader is not in, is left unchanged |
| Messages.MarkedRead | makebang-backend/src/main/java/com/makebang/repository/MessageRepository.java:41-44 | markAsReadByConversation marks exactly the user's unread live messages of the conversation read and leaves every other row as it was |
| Messages.CountUnread | makebang-backend/src/main/java/com/makebang/repository/MessageRepository.java:28-29 | the unread count is zero exactly when the user has no unread live message |
| Messages.MarkedReadCount | makebang-backend/src/main/java/com/makebang/repository/MessageRepository.java:41-44 | reading a conversation lowers the user's unread count by exactly that conversation's unread messages, leaves none of them unread, and clears the count when all the user's messages are in that conversation |
| Messages.NewestFirst | makebang-backend/src/main/java/com/makebang/repository/MessageRepository.java:21-23 | the listed messages are live messages of the conversation, newest first with no repeats |
| Messages.NewestFirstComplete | makebang-backend/src/main/java/com/makebang/repository/MessageRepository.java:21-23 | every live message of the conversation is listed |
| Messages.Opened | makebang-backend/src/main/java/com/makebang/service/impl/MessageServiceImpl.java:52-58 | sendMessage uses the order's conversation when an order is named, created for an existing order when missing, else the users' private conversation, created when missing; an unknown order without a conversation is ORDER_NOT_FOUND |
| Messages.Delivered | makebang-backend/src/main/java/com/makebang/service/impl/MessageServiceImpl.java:75-87 | the conversation records the message and its preview and keeps its participants |
| Messages.DeliveredRaisesOnlyReceiver | makebang-backend/src/main/java/com/makebang/service/impl/MessageServiceImpl.java:75-87 | after delivery the receiver's unread count is one higher and the sender's unchanged |
| Messages.MessageService.GetOrCreatePrivate | makebang-backend/src/main/java/com/makebang/service/impl/MessageServiceImpl.java:255-272 | the users' private conversation is reused when one exists, else exactly one is appended, and the result is theirs |
| Messages.MessageService.GetOrCreateOrderChat | makebang-backend/src/main/java/com/makebang/service/impl/MessageServiceImpl.java:274-298 | the order's conversation is reused when one exists, else one is appended for an existing order; an unknown order is ORDER_NOT_FOUND and changes nothing |
| Messages.MessageService.OpenConversation | makebang-backend/src/main/java/com/makebang/service/impl/MessageServiceImpl.java:52-58 | the message goes into the order's conversation when it names an order and otherwise into the private conversation of the two users, created with zero counts when missing; an unknown order is ORDER_NOT_FOUND and changes nothing |
| Messages.MessageService.SendMessage | makebang-backend/src/main/java/com/makebang/service/impl/MessageServiceImpl.java:43-92 | a message to oneself is BAD_REQUEST; otherwise exactly one unread message is appended, the conversation records it and the receiver's count rises; failures change nothing |
| Messages.MessageService.Post | makebang-backend/src/main/java/com/makebang/service/impl/MessageServiceImpl.java:73-87 | the message is appended with the next id, and only its conversation changes, to carry that id, the preview and the receiver's raised unread count; the counts stay non-negative |
| Messages.MessageService.CheckParticipant | makebang-backend/src/main/java/com/makebang/service/impl/MessageServiceImpl.java:99-107 | the check passes exactly for a participant of an existing conversation, NOT_FOUND before FORBIDDEN otherwise |
| Messages.MessageService.GetConversationMessages | makebang-backend/src/main/java/com/makebang/service/impl/MessageServiceImpl.java:95-113 | a participant gets the conversation's live messages newest first; others get NOT_FOUND or FORBIDDEN |
| Messages.MessageService.GetConversation | makebang-backend/src/main/java/com/makebang/service/impl/MessageServiceImpl.java:134-148 | a participant gets the conversation's view; others get NOT_FOUND or FORBIDDEN |
| Messages.MessageService.GetOrderConversation | makebang-backend/src/main/java/com/makebang/service/impl/MessageServiceImpl.java:164-178 | a participant gets the order conversation's view; a missing one is NOT_FOUND and a non-participant FORBIDDEN; nothing is created |
| Messages.MessageService.GetOrCreatePrivateConversation | makebang-backend/src/main/java/com/makebang/service/impl/MessageServiceImpl.java:152-161 | a conversation with oneself is BAD_REQUEST and changes nothing; otherwise the view shows the other user of a private conversation, with a fresh one at 0 unread |
| Messages.MessageService.GetUnreadCount | makebang-backend/src/main/java/com/makebang/service/impl/MessageServiceImpl.java:116-119 | the count is that of the caller's unread live messages, zero exactly when there are none |
| Messages.MessageService.MarkConversationAsRead | makebang-backend/src/main/java/com/makebang/service/impl/MessageServiceImpl.java:182-199 | a missing conversation changes nothing; otherwise the caller's messages in it become read and the caller's counter is cleared |
| Messages.SendThenReadClears | makebang-backend/src/main/java/com/makebang/service/impl/MessageServiceImpl.java:182-199 | reading a conversation after receiving a message in it leaves the reader's count at zero |
| Search.UseHybridExamples | makebang-backend/src/main/java/com/makebang/service/impl/SearchServiceImpl.java:61-63 | hybrid search needs embeddings and a keyword with text longer than 5 UTF-16 units: "react native" qualifies, "react", a blank keyword, no keyword do not, and three characters outside the Basic Multilingual Plane (6 units) do |
| Search.CategoryFilterRejectsEveryHit | makebang-backend/src/main/java/com/makebang/service/impl/SearchServiceImpl.java:395-397 | as written, any category filter rejects every hit, since a Long never equals the hit's Integer category |
| Search.CategoryFilterExample | makebang-backend/src/main/java/com/makebang/service/impl/SearchServiceImpl.java:395 | a hit of category 3 is dropped by the filter for category 3 |
| Search.MatchesFiltersAsWritten | makebang-backend/src/main/java/com/makebang/service/impl/SearchServiceImpl.java:393-405 | matchesFilters as written; `Search.CategoryFilterRejectsEveryHit` shows its category test fails for every hit |
| Search.MatchesFilters | makebang-backend/src/main/java/com/makebang/service/impl/SearchServiceImpl.java:393-405 | matchesFilters as evidently intended; `Search.MatchesFiltersAgreeWithoutCategory` shows the two agree without a category filter |
| Search.Passes | makebang-backend/src/main/java/com/makebang/service/impl/SearchServiceImpl.java:343 | the filter check the first loop runs: matchesFilters as written, or as intended, so each property of the merge is stated for both |
| Search.AsWrittenCategoryPutsNothing | makebang-backend/src/main/java/com/makebang/service/impl/SearchServiceImpl.java:342-346 | under a category filter the as-written first loop puts no semantic hit |
| Search.PutAbsentDistinct | makebang-backend/src/main/java/com/makebang/service/impl/SearchServiceImpl.java:349-351 | into an empty map the second loop puts hits with distinct ids unchanged and in order |
| Search.MergedUnderCategoryFilter | makebang-backend/src/main/java/com/makebang/service/impl/SearchServiceImpl.java:339-354 | as written, under a category filter the merge is just the keyword hits put if absent, and the keyword hits themselves when their ids are distinct |
| Search.HybridCategoryExample | makebang-backend/src/main/java/com/makebang/service/impl/SearchServiceImpl.java:339-354 | a semantic hit in category 3 under the filter for category 3 is merged by the corrected check and dropped by the as-written one |
| Search.MatchesFiltersAgreeWithoutCategory | makebang-backend/src/main/java/com/makebang/service/impl/SearchServiceImpl.java:393-405 | without a category filter the as-written and the corrected checks agree |
| Search.KeywordHitsPassFilters | makebang-backend/src/main/java/com/makebang/service/impl/SearchServiceImpl.java:288-318 | every keyword-query hit passes the corrected filter check, while the as-written check rejects it whenever a category is requested |
| Search.KeywordMatch | makebang-backend/src/main/java/com/makebang/service/impl/SearchServiceImpl.java:288-318 | the rows keywordSearch selects; `Search.KeywordHitsPassFilters` shows they pass the corrected filter check |
| Search.FindIdFrom | makebang-backend/src/main/java/com/makebang/service/impl/SearchServiceImpl.java:339-350 | the merge's lookup finds the first entry for a project id, and none exactly when there is none |
| Search.Put | makebang-backend/src/main/java/com/makebang/service/impl/SearchServiceImpl.java:344 | map.put replaces an existing entry for the id in place, else appends the hit |
| Search.PutIfAbsent | makebang-backend/src/main/java/com/makebang/service/impl/SearchServiceImpl.java:350 | map.putIfAbsent keeps an existing entry for the id, else appends the hit |
| Search.PutAbsent | makebang-backend/src/main/java/com/makebang/service/impl/SearchServiceImpl.java:349-351 | the second loop keeps every earlier entry in place and appends only keyword hits for new projects |
| Search.PutMatching | makebang-backend/src/main/java/com/makebang/service/impl/SearchServiceImpl.java:342-346 | the first loop of hybridSearch; its properties are `Search.PutMatchingIds`, `Search.PutMatchingUnique`, `Search.PutMatchingDistinct` and `Search.Kept` |
| Search.Merged | makebang-backend/src/main/java/com/makebang/service/impl/SearchServiceImpl.java:339-354 | the merged map of hybridSearch; its properties are `Search.MergedIds`, `Search.MergedUnique`, `Search.SemanticFirst` and `Search.MergedUnderCategoryFilter` |
| Search.HasIdPut | makebang-backend/src/main/java/com/makebang/service/impl/SearchServiceImpl.java:344-350 | after put or putIfAbsent the map holds exactly the earlier ids and the hit's id |
| Search.UniquePut | makebang-backend/src/main/java/com/makebang/service/impl/SearchServiceImpl.java:339-350 | put and putIfAbsent keep at most one entry per project |
| Search.MergedUnique | makebang-backend/src/main/java/com/makebang/service/impl/SearchServiceImpl.java:339-354 | the merged results hold at most one entry per project |
| Search.PutMatchingUnique | makebang-backend/src/main/java/com/makebang/service/impl/SearchServiceImpl.java:342-346 | the first loop keeps at most one entry per project |
| Search.PutAbsentUnique | makebang-backend/src/main/java/com/makebang/service/impl/SearchServiceImpl.java:349-351 | the second loop keeps at most one entry per project |
| Search.MergedIds | makebang-backend/src/main/java/com/makebang/service/impl/SearchServiceImpl.java:339-354 | a project is merged exactly when a semantic hit for it passes the filter check or a keyword hit names it, for the as-written and the corrected filter check alike |
| Search.PutMatchingIds | makebang-backend/src/main/java/com/makebang/service/impl/SearchServiceImpl.java:342-346 | after the first loop the map holds exactly the earlier ids and those of the semantic hits that pass the filter check, for the as-written and the corrected filter check alike |
| Search.PutAbsentIds | makebang-backend/src/main/java/com/makebang/service/impl/SearchServiceImpl.java:349-351 | after the second loop the map holds exactly the earlier ids and those of the keyword hits |
| Search.Kept | makebang-backend/src/main/java/com/makebang/service/impl/SearchServiceImpl.java:342-346 | the kept semantic hits are semantic hits that pass the filter check, for the as-written and the corrected filter check alike |
| Search.PutMatchingDistinct | makebang-backend/src/main/java/com/makebang/service/impl/SearchServiceImpl.java:342-346 | with distinct semantic hits the first loop yields exactly the semantic hits that pass the filter check, in order, for the as-written and the corrected filter check alike |
| Search.SemanticFirst | makebang-backend/src/main/java/com/makebang/service/impl/SearchServiceImpl.java:341-351 | the merge starts with the kept semantic hits, and every later entry is a keyword hit for a project not among them, for the as-written and the corrected filter check alike |
| Search.PageOf | makebang-backend/src/main/java/com/makebang/service/impl/SearchServiceImpl.java:354-362 | the page has at most size entries, is a run of the merged results from (current - 1) * size, is full when the results reach past its end; it fails exactly when the start is before the end and the start or the size is negative, with IndexOutOfBoundsException for a negative start and IllegalArgumentException otherwise |
| Search.PagesTile | makebang-backend/src/main/java/com/makebang/service/impl/SearchServiceImpl.java:354-362 | merged entry j is on page j / size + 1 at position j mod size |
| Search.ShortPageTotal | makebang-backend/src/main/java/com/makebang/service/impl/SearchServiceImpl.java:69-70 | a short non-empty page reports the merge's size as total, and a page past the end reports its start |
| Search.SearchTotal | makebang-backend/src/main/java/com/makebang/service/impl/SearchServiceImpl.java:69-70 | the hybrid total: derived from a short page, else the counted matches; its properties are `Search.ShortPageTotal` |
| Search.UseHybrid | makebang-backend/src/main/java/com/makebang/service/impl/SearchServiceImpl.java:61-63 | the hybrid choice; its properties are `Search.UseHybridExamples` |
| Search.AddAll | makebang-backend/src/main/java/com/makebang/service/impl/SearchServiceImpl.java:173-175 | LinkedHashSet.addAll keeps the earlier entries first, adds exactly the new values and repeats none |
| Search.AddAllAppend | makebang-backend/src/main/java/com/makebang/service/impl/SearchServiceImpl.java:173-174 | adding two lists one after another is adding their concatenation |
| Search.AddAllFresh | makebang-backend/src/main/java/com/makebang/service/impl/SearchServiceImpl.java:173 | adding distinct new values appends them in order |
| Search.Completions | makebang-backend/src/main/java/com/makebang/service/impl/SearchServiceImpl.java:166-177 | no completions for a prefix without text; every completion is a hot or history suggestion; every hot suggestion is listed |
| Search.HotFirst | makebang-backend/src/main/java/com/makebang/service/impl/SearchServiceImpl.java:167-176 | the hot suggestions come first in their order, and when history is merged no completion repeats |
| Search.SearchHistory.Record | makebang-backend/src/main/java/com/makebang/service/impl/SearchServiceImpl.java:410-431 | a keyword without text records nothing; otherwise the trimmed keyword is stored with the user and the type, and counted once as hot |
| Search.StoredKeyword | makebang-backend/src/main/java/com/makebang/service/impl/SearchServiceImpl.java:421 | a keyword with a visible character is stored non-empty, while a keyword of one control character has text yet is stored empty |
| Search.SearchService.HybridSearch | makebang-backend/src/main/java/com/makebang/service/impl/SearchServiceImpl.java:323-363 | the two loops, with matchesFilters as written, build exactly the as-written merge, and the result is its page |
| Search.SearchService.Search | makebang-backend/src/main/java/com/makebang/service/impl/SearchServiceImpl.java:50-92 | the history is recorded under type "keyword" first; a non-hybrid search returns the keyword page and total; a hybrid one returns the page of the as-written merge with the derived total, and a failing page fails the search |
| Files.IsImageIgnoresCase | makebang-backend/src/main/java/com/makebang/service/impl/FileServiceImpl.java:318-320 | the image check ignores the case of the type, accepts "IMAGE/PNG", and rejects an SVG type and a missing type |
| Files.IsAllowedType | makebang-backend/src/main/java/com/makebang/service/impl/FileServiceImpl.java:309-316 | the search loop answers true exactly when some configured type equals the content type ignoring case |
| Files.FileRejection | makebang-backend/src/main/java/com/makebang/service/impl/FileServiceImpl.java:275-291 | an upload passes exactly when it is present and non-empty, within the size limit, and of an allowed type when it declares one |
| Files.ImageRejection | makebang-backend/src/main/java/com/makebang/service/impl/FileServiceImpl.java:293-307 | an image passes exactly when it passes the file checks, is within the image size limit and is of an image type; a file-check failure is reported first |
| Files.ValidateFile | makebang-backend/src/main/java/com/makebang/service/impl/FileServiceImpl.java:275-291 | validateFile throws IllegalArgumentException exactly when the file checks fail |
| Files.ValidateImageFile | makebang-backend/src/main/java/com/makebang/service/impl/FileServiceImpl.java:293-307 | validateImageFile throws IllegalArgumentException exactly when the image checks fail |
| Files.DefaultConfigRejectsBmp | makebang-backend/src/main/java/com/makebang/config/StorageConfig.java:53-61 | the default allowed types leave out image/bmp, so a BMP upload is refused although the image check accepts the type |
| Files.NotBmp | makebang-backend/src/main/java/com/makebang/config/StorageConfig.java:53-61 | a configured type of another length, or with another letter where bmp has its b, never equals image/bmp ignoring case |
| Files.CheckUpload | makebang-backend/src/main/java/com/makebang/service/impl/FileServiceImpl.java:49-65 | upload passes exactly the files that pass the file checks and, when they are images, the image checks too, and takes the image path exactly for images |
| Files.LastIndexOf | makebang-backend/src/main/java/com/makebang/service/impl/FileServiceImpl.java:326 | lastIndexOf finds the last occurrence of the character, and none exactly when it does not occur |
| Files.GetFileExtension | makebang-backend/src/main/java/com/makebang/service/impl/FileServiceImpl.java:322-327 | the extension is the lower-cased text after the last dot, with no dot in it, and "" for a missing name or one without a dot |
| Files.GetFileExtensionExamples | makebang-backend/src/main/java/com/makebang/service/impl/FileServiceImpl.java:322-327 | "report.final.PDF" gives "pdf"; "README", "archive." and a missing name give "" |
| Files.Without | makebang-backend/src/main/java/com/makebang/service/impl/FileServiceImpl.java:330 | removing the hyphens keeps every other character and leaves no hyphen |
| Files.GenerateStoredName | makebang-backend/src/main/java/com/makebang/service/impl/FileServiceImpl.java:329-332 | the stored name is the UUID without hyphens, followed by a dot and the extension when the extension has text |
| Files.ExtensionAfterLastDot | makebang-backend/src/main/java/com/makebang/service/impl/FileServiceImpl.java:322-327 | the extension of a name ending in a dot and a dot-free tail is that tail lower-cased |
| Files.StoredNameKeepsExtension | makebang-backend/src/main/java/com/makebang/service/impl/FileServiceImpl.java:322-332 | the extension read back from a stored name is the one it was made with, or "" for an extension without text |
| Files.GenerateFilePath | makebang-backend/src/main/java/com/makebang/service/impl/FileServiceImpl.java:334-340 | the path is the business type, or "other" when it has no text, then the date path and the stored name, joined by slashes |
| Files.ThumbnailNoDot | makebang-backend/src/main/java/com/makebang/service/impl/FileServiceImpl.java:94 | the thumbnail path of a path without a dot is the path itself |
| Files.ThumbnailAppend | makebang-backend/src/main/java/com/makebang/service/impl/FileServiceImpl.java:94 | the replacement works piecewise over a concatenation |
| Files.ThumbnailOneDot | makebang-backend/src/main/java/com/makebang/service/impl/FileServiceImpl.java:94 | a path with one dot gets "_thumb" before its extension |
| Files.ThumbnailEveryDot | makebang-backend/src/main/java/com/makebang/service/impl/FileServiceImpl.java:94 | every dot gets the suffix, a dot in the directory part included |
| Files.ThumbnailPath | makebang-backend/src/main/java/com/makebang/service/impl/FileServiceImpl.java:94 | replace(".", "_thumb."); its properties are `Files.ThumbnailNoDot`, `Files.ThumbnailAppend`, `Files.ThumbnailOneDot` and `Files.ThumbnailEveryDot` |
| Files.IsImage | makebang-backend/src/main/java/com/makebang/service/impl/FileServiceImpl.java:318-320 | isImage; its properties are `Files.IsImageIgnoresCase` |
| Files.FileService.Delete | makebang-backend/src/main/java/com/makebang/service/impl/FileServiceImpl.java:77-103 | a missing or already deleted record gives false and changes nothing; a signed-in user who is neither owner nor administrator is refused; otherwise the file and, when recorded, its thumbnail are deleted from storage and the record is marked deleted |
| Security.Authorities | makebang-backend/src/main/java/com/makebang/security/UserDetailsServiceImpl.java:43-57 | ROLE_USER always and first, ROLE_ADMIN exactly from role 1, ROLE_SUPER_ADMIN exactly from role 2, nothing more for a null role, and no authority twice |
| Security.GetAuthorities | makebang-backend/src/main/java/com/makebang/security/UserDetailsServiceImpl.java:43-57 | the appends build exactly the authority list of the role |
| Security.IsAdminIffRole | makebang-backend/src/main/java/com/makebang/util/SecurityUtils.java:99-107 | a user passes the administrator test exactly when the role is at least 1, and a super administrator always passes it |
| Security.Enabled | makebang-backend/src/main/java/com/makebang/security/UserDetailsServiceImpl.java:32 | the account is enabled exactly when its status is 1, and a null status throws NullPointerException |
| Security.FindByUsernameFrom | makebang-backend/src/main/java/com/makebang/repository/UserRepository.java:20-21 | the lookup returns the first live user with the username, and none exactly when there is none |
| Security.LoadUserByUsername | makebang-backend/src/main/java/com/makebang/security/UserDetailsServiceImpl.java:25-38 | a missing user throws UsernameNotFoundException and a null status NullPointerException; otherwise the account has the username, is enabled exactly for status 1 and carries the role's authorities |
| Security.LoadedAdmin | makebang-backend/src/main/java/com/makebang/util/SecurityUtils.java:99-107 | a loaded account passes the administrator test exactly when its user's role is at least 1 |
| Security.IsAdmin | makebang-backend/src/main/java/com/makebang/util/SecurityUtils.java:99-107 | isAdmin; its properties are `Security.IsAdminIffRole` and `Security.LoadedAdmin` |
| Security.FindByUsername | makebang-backend/src/main/java/com/makebang/repository/UserRepository.java:20-21 | findByUsername; its properties are `Security.FindByUsernameFrom` |
| UserView.UserTypeDesc | makebang-backend/src/main/java/com/makebang/vo/UserVO.java:66-74 | a null type has no description, and a code other than 0, 1 and 2 reads "未知" |
| UserView.UserTypeDescDistinct | makebang-backend/src/main/java/com/makebang/vo/UserVO.java:68-73 | the three known types have three different descriptions, none of them "未知" |
| UserView.MaskPhone | makebang-backend/src/main/java/com/makebang/vo/UserVO.java:79-82 | an 11-character number keeps its first 3 and last 4 characters with the middle 4 starred; null or another length is returned as is |
| UserView.MaskPhoneIdempotent | makebang-backend/src/main/java/com/makebang/vo/UserVO.java:79-82 | masking a masked number changes nothing |
| UserView.MaskPhoneCollides | makebang-backend/src/main/java/com/makebang/vo/UserVO.java:79-82 | two 11-character numbers mask alike exactly when they agree outside the middle 4 characters |
| UserView.MaskPhoneExample | makebang-backend/src/test/java/com/makebang/service/UserServiceTest.java:484 | 13800138000 masks to 138****8000 |
| UserView.AtFrom | makebang-backend/src/main/java/com/makebang/vo/UserVO.java:89 | indexOf finds the first '@', and none exactly when there is none |
| UserView.MaskEmail | makebang-backend/src/main/java/com/makebang/vo/UserVO.java:87-92 | null, an address without '@' or with its first '@' at index 2 or before is returned as is; otherwise the first 2 characters, 3 stars and everything from the first '@' on |
| UserView.MaskedAtFive | makebang-backend/src/main/java/com/makebang/vo/UserVO.java:87-92 | in a masked address the first '@' is at index 5, so the domain is kept whole |
| UserView.AtFromFirst | makebang-backend/src/main/java/com/makebang/vo/UserVO.java:89 | indexOf from a position finds an '@' with none before it |
| UserView.MaskEmailIdempotent | makebang-backend/src/main/java/com/makebang/vo/UserVO.java:87-92 | masking a masked address changes nothing |
| UserView.MaskEmailExample | makebang-backend/src/test/java/com/makebang/service/UserServiceTest.java:485 | test@example.com masks to te***@example.com |
| ProjectView.Pow10Add | makebang-backend/src/main/java/com/makebang/vo/ProjectVO.java:96-97 | powers of ten multiply by adding exponents |
| ProjectView.SameValueTrans | makebang-backend/src/main/java/com/makebang/vo/ProjectVO.java:96 | numeric equality of decimals is transitive |
| ProjectView.Strip | makebang-backend/src/main/java/com/makebang/vo/ProjectVO.java:97-99 | stripTrailingZeros leaves no trailing zero in the fraction and never raises the scale |
| ProjectView.StripSameValue | makebang-backend/src/main/java/com/makebang/vo/ProjectVO.java:97-99 | stripTrailingZeros keeps the number |
| ProjectView.StrippedUnique | makebang-backend/src/main/java/com/makebang/vo/ProjectVO.java:97-99 | two stripped decimals of the same number are the same representation |
| ProjectView.StripCanonical | makebang-backend/src/main/java/com/makebang/vo/ProjectVO.java:97-99 | stripping depends on the number only, not on its scale |
| ProjectView.Digits | makebang-backend/src/main/java/com/makebang/vo/ProjectVO.java:97-99 | the numeral has only digits and ends with the number's last digit |
| ProjectView.PadLeft | makebang-backend/src/main/java/com/makebang/vo/ProjectVO.java:97-99 | zero padding reaches the width and keeps the string as its suffix |
| ProjectView.RenderEnding | makebang-backend/src/main/java/com/makebang/vo/ProjectVO.java:97-99 | toPlainString ends with the last digit of the unscaled value |
| ProjectView.PlainEnding | makebang-backend/src/main/java/com/makebang/vo/ProjectVO.java:97-99 | the plain text ends in a digit, and in a non-zero one when a fraction is shown |
| ProjectView.DivTenThousand | makebang-backend/src/main/java/com/makebang/vo/ProjectVO.java:97 | dividing by 10000 is exact: the same digits with the scale raised by four |
| ProjectView.StripKeepsThreshold | makebang-backend/src/main/java/com/makebang/vo/ProjectVO.java:96-99 | stripping never moves a number across the 10000 threshold |
| ProjectView.DivKeepsSameValue | makebang-backend/src/main/java/com/makebang/vo/ProjectVO.java:97 | dividing equal numbers by 10000 gives equal numbers |
| ProjectView.FormatMoneyByValue | makebang-backend/src/main/java/com/makebang/vo/ProjectVO.java:94-100 | the money text depends on the number only, so 5000, 5000.0 and 5000.00 read the same |
| ProjectView.FormatMoneyEnding | makebang-backend/src/main/java/com/makebang/vo/ProjectVO.java:94-100 | the money text ends in 万 exactly from 10000 up and otherwise in a digit |
| ProjectView.FormatMoneyExamples | makebang-backend/src/main/java/com/makebang/vo/ProjectVO.java:94-100 | no amount reads "0", 5000.00 reads "5000" and 12500.00 reads "1.25万" |
| ProjectView.RenderExample | makebang-backend/src/main/java/com/makebang/vo/ProjectVO.java:99 | 1.25 at scale 2 renders as 1.25 |
| ProjectView.BudgetTextShowsBounds | makebang-backend/src/main/java/com/makebang/vo/ProjectVO.java:74-85 | the budget text is 面议 exactly without bounds, starts with ¥ exactly with a lower bound, and ends with 起 exactly with only a lower bound |
| ProjectView.StatusText | makebang-backend/src/main/java/com/makebang/vo/ProjectVO.java:90-92 | a null status reads as the draft description, any other code as the status description of that code |
| ProjectView.StatusTextOfStatus | makebang-backend/src/main/java/com/makebang/vo/ProjectVO.java:90-92 | each status reads as its own description |
| ProjectView.Render | makebang-backend/src/main/java/com/makebang/vo/ProjectVO.java:97-99 | toPlainString of an unscaled value and scale; its properties are `ProjectView.RenderEnding` and `ProjectView.RenderExample` |
| ProjectView.Plain | makebang-backend/src/main/java/com/makebang/vo/ProjectVO.java:97-99 | stripTrailingZeros().toPlainString(); its properties are `ProjectView.PlainEnding` |
| ProjectView.FormatMoney | makebang-backend/src/main/java/com/makebang/vo/ProjectVO.java:94-100 | formatMoney; its properties are `ProjectView.FormatMoneyByValue`, `ProjectView.FormatMoneyEnding` and `ProjectView.FormatMoneyExamples` |
| ProjectView.BudgetText | makebang-backend/src/main/java/com/makebang/vo/ProjectVO.java:74-85 | getBudgetText; its properties are `ProjectView.BudgetTextShowsBounds` |
| PageResults.JavaDiv | makebang-backend/src/main/java/com/makebang/common/result/PageResult.java:49 | long division truncates toward zero: floor division for non-negative operands, with the sign of the operands |
| PageResults.PageCountIsCeiling | makebang-backend/src/main/java/com/makebang/common/result/PageResult.java:49 | for a positive size and non-negative total the page count is the least number of pages that hold every record, and 0 for no records |
| PageResults.RecordOnSomePage | makebang-backend/src/main/java/com/makebang/common/result/PageResult.java:49 | every record index falls on a page between 1 and the page count |
| PageResults.NewPageResult | makebang-backend/src/main/java/com/makebang/common/result/PageResult.java:45-51 | size 0 throws ArithmeticException; otherwise the fields are copied and the page count is the ceiling of total over size |
| PageResults.Of | makebang-backend/src/main/java/com/makebang/common/result/PageResult.java:56-64 | every field is copied from the query's page, its page count included |
| PageResults.OfRecords | makebang-backend/src/main/java/com/makebang/common/result/PageResult.java:69-77 | the paging numbers are copied from the query's page, with the converted records |
| PageResults.OfRecordsAgreesWithOf | makebang-backend/src/main/java/com/makebang/common/result/PageResult.java:56-77 | converting the records never changes the paging numbers, and keeping the page's records gives the plain copy |
| PageResults.OfMatchesConstructor | makebang-backend/src/main/java/com/makebang/common/result/PageResult.java:45-64 | a page whose count was computed correctly copies to the same result the constructor builds |
| PageResults.PageCount | makebang-backend/src/main/java/com/makebang/common/result/PageResult.java:49 | (total + size - 1) / size; its properties are `PageResults.PageCountIsCeiling` and `PageResults.RecordOnSomePage` |
| Text.HasTextExamples | makebang-backend/src/main/java/com/makebang/service/impl/SearchServiceImpl.java:411 | the empty and all-blank strings have no text, and " a " has |
| Text.Trim | makebang-backend/src/main/java/com/makebang/service/impl/SearchServiceImpl.java:421 | trim yields a slice of the input that neither starts nor ends with a character up to U+0020 |
| Text.TrimIdempotent | makebang-backend/src/main/java/com/makebang/service/impl/SearchServiceImpl.java:421 | trimming a trimmed keyword changes nothing |
| Text.ToLower | makebang-backend/src/main/java/com/makebang/service/impl/FileServiceImpl.java:319 | lower-casing keeps the length and lower-cases each ASCII letter |
| Text.ToLowerIdempotent | makebang-backend/src/main/java/com/makebang/service/impl/FileServiceImpl.java:319 | lower-casing twice is lower-casing once |
| Text.IsWhitespace | makebang-backend/src/main/java/com/makebang/service/impl/SearchServiceImpl.java:411 | Character.isWhitespace, on which hasText and trim's blank test rest |
| Text.HasText | makebang-backend/src/main/java/com/makebang/service/impl/SearchServiceImpl.java:411 | StringUtils.hasText; its properties are `Text.HasTextExamples` |
| Text.NotBlankTrim | makebang-backend/src/main/java/com/makebang/dto/bid/CreateBidRequest.java:26 | `@NotBlank` holds exactly when String.trim leaves a non-empty string, which is how every `@NotBlank` request field is required |
| Text.NotBlankIsNotHasText | makebang-backend/src/main/java/com/makebang/dto/project/CreateProjectRequest.java:16-20 | `@NotBlank` is not hasText: an ideographic space passes `@NotBlank` and fails hasText, a lone U+0001 fails `@NotBlank` and passes hasText |
| Text.JavaLength | makebang-backend/src/main/java/com/makebang/service/impl/MessageServiceImpl.java:76 | String.length() counts UTF-16 units: one per character up to U+FFFF, two above; between the number of characters and twice it, and equal to it inside the Basic Multilingual Plane |
| Text.JavaPrefix | makebang-backend/src/main/java/com/makebang/service/impl/MessageServiceImpl.java:77 | the longest prefix of at most n UTF-16 units: a prefix of the text, within n units, one unit short of n at most when the text is longer, and the whole text when it fits |
| Text.JavaPrefixPlain | makebang-backend/src/main/java/com/makebang/service/impl/MessageServiceImpl.java:77 | inside the Basic Multilingual Plane the cut is substring(0, n) |

## Left out

- Controllers, the security configuration, the JWT filter and the
  SecurityUtils context lookup are HTTP wiring; the current user is the `actor` argument instead.
- UserServiceImpl (registration, login and token refresh over Redis, BCrypt and JWT) is a set of foreign calls and is not part of this model.
- The frontend and administrator clients are UI code and are not part of this model, so the frontend's copies of the status codes are not compared.
- Embedding work is left out: semantic similarity search, embedding storage and the scheduled embedding task are network and floating-point code. Semantic results and the embedding service's availability are parameters of `Search.SearchService.HybridSearch`, and so is the hybrid result count (`counted`).
- The semantic-search page count computed with `Math.ceil` on doubles is floating point and is not modelled.
- `getRelatedSuggestions` is not modelled.
- Upload I/O is left out. `doUpload`, thumbnail rendering (ImageIO and double scale factors), MD5 hashing and storage deletes are file and SDK I/O. The upload date and the UUID used in stored names are parameters.
- Paged list queries are not modelled: `getUserList`, `queryProjects`, `getProjectList`, `getMyOrders`, `getTransactions`, `getConversations` and message paging. They are query-builder plumbing. Only the filters the services rely on are modelled.
- The dashboard's date-based counts and trends, and `calculateTodayAmount`, depend on the clock and are not modelled. The lifetime totals are modelled.
- Order numbers, transaction numbers, timestamps and logging are opaque and are not modelled.
- Notifications (`sendNotification`) are fire-and-forget and are not modelled.
- Concurrency, row locks and transaction isolation are not modelled. Each service call is one atomic step.
- Java `long` and `int` overflow is not modelled, in `PageResult` and in the search offsets.
- GlobalExceptionHandler, which turns exceptions into HTTP responses, is not part of this model.
- `toUserVO` and the other plain field copies into view objects are not modelled.
- The password hash of the loaded account is not modelled.
- SQL `LIKE` wildcards in keyword search are not modelled. The keyword hits are a parameter.
- `Wallets.WalletService.ReleaseMilestonePayment`: the five-percent fee is exact rational arithmetic. The model does not round it to the scale of the database column.
- `ProjectView.Strip`: BigDecimal values are modelled with a non-negative scale, so stripping trailing zeros stops at scale 0. The positive-exponent forms that `stripTrailingZeros` can produce (for example `1E+1`) are not modelled.
- `Text.ToLower` folds ASCII letters only, wherever file names and MIME types are lower-cased. Java's locale-aware lower-casing of other letters is not modelled.
- `UserView.MaskPhone`: the 11-character test and the cut positions count characters, not UTF-16 units, so a number holding characters outside the Basic Multilingual Plane masks differently from Java.
- `UserView.MaskEmail`: the position of '@' and the two kept characters count characters, not UTF-16 units, so an address with characters outside the Basic Multilingual Plane masks differently from Java.
- `Wallets.MaskAccount`: the length test and the kept ends count characters, not UTF-16 units, so an account with characters outside the Basic Multilingual Plane masks differently from Java.
- `Messages.Preview`: when unit 100 falls inside a surrogate pair, Java keeps half of the pair while the model, whose strings hold whole characters, stops one unit earlier.
- `Projects.BuildTree`: the model descends at most one level per category plus one. The source recurses without a bound, so a cycle of parent links reachable from root 0 (such as a category with id 0) makes it overflow the stack, while the model cuts the cycle off. `Projects.CategoryTreeComplete` shows that the bound cuts off nothing reachable by a chain.

## Behaviour kept as written

Some behaviour may surprise a reader, but it is how the code behaves, so the model keeps it:

- `Reviews.CanReviewDeletedOrder`: `canReviewOrder` does not look at the order's deletion flag.
- `Orders.OrderService.AddMilestone`: a new milestone changes neither the order amount nor the escrow.
- Admin project approval, rejection and takedown accept any prior status. `setUserRole` stores any role value.
- `Messages.MessageService.SendMessage`: a message with an order id does not check that the sender takes part in that order.
- `Files.DefaultConfigRejectsBmp`: under the default configuration an image type (`image/bmp`) is still refused, because it is missing from the allowed-types list.
- `Files.ThumbnailEveryDot`: the thumbnail path replaces every dot in the path, not just the one before the extension.
- `Search.SearchHistory.Record` stores every entry with the type "keyword". A keyword made only of control characters is trimmed to the empty string and stored.
- `Search.PageOf`: a page past the end of the merged results is empty. Before the end, a negative offset throws IndexOutOfBoundsException and a negative size IllegalArgumentException, as ArrayList.subList does.
- `Orders.OrderService.CompleteOrder`: completeOrder, reachable as POST /v1/orders/{id}/complete, checks neither the caller nor the order's status. It turns any live order COMPLETED, a CANCELLED one included (`Orders.UncheckedStatusWrites`).
- `Orders.OrderService.ReviewMilestone`: the reject branch sets the order IN_PROGRESS whatever its status. An order cancelled while a milestone was SUBMITTED becomes IN_PROGRESS again when that milestone is rejected (`Orders.UncheckedStatusWrites`).
- `Orders.OrderService.ReviewMilestone` and `Orders.OrderService.ApproveAndRestart`: when the approve branch leaves milestones to do, it sets the order IN_PROGRESS whatever its status. Take an order with two SUBMITTED milestones and other escrow held by the employer. Reject the second milestone, cancel the order, then approve the first: the release succeeds and the CANCELLED order becomes IN_PROGRESS (`Orders.UncheckedStatusWrites`).
- `Search.SearchService.HybridSearch` runs matchesFilters as written, so under a category filter no semantic hit is merged and the result is the keyword hits alone (`Search.MergedUnderCategoryFilter`).

## Findings

| source | as written | input that shows it | evidently intended | confidence | as-written member | corrected member |
|---|---|---|---|---|---|---|
| makebang-backend/src/main/java/com/makebang/service/impl/OrderServiceImpl.java:293-319 | `submitMilestone` checks the actor and the milestone status, but never the order status. It always sets the order to DELIVERED. | A CANCELLED order with an IN_PROGRESS milestone, submitted by its developer: the order becomes DELIVERED again | Submitting is refused unless the order is IN_PROGRESS or DELIVERED, so a cancelled or completed order never reopens | not executed | Orders.SubmitAsWrittenReopensCancelledOrder | Orders.SubmitCheckKeepsLifecycle |
| makebang-backend/src/main/java/com/makebang/service/impl/SearchServiceImpl.java:395 | `matchesFilters` tests `categoryId.equals(vo.getCategoryId())`, comparing a Long filter with an Integer field. That is false for every hit. | A category filter of 3 and a semantic hit in category 3: the hit is dropped, and the hybrid result holds only the keyword hits (`Search.HybridCategoryExample`, `Search.MergedUnderCategoryFilter`) | A hit passes the category filter when its category equals the filter; the service methods keep the check as written, and every merge property is proved for both checks | not executed | Search.CategoryFilterRejectsEveryHit | Search.KeywordHitsPassFilters |
