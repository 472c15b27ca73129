/** The `transaction` table row and its Type and Status enum tables
    (entity/Transaction.java). */
module TransactionEntity {

  import opened Wrappers

  /** Transaction.Type in declaration order. */
  datatype Type = Recharge | Withdraw | Payment | Income | Refund | ServiceFee
  {
    function Code(): int
    {
      match this
      case Recharge => 1
      case Withdraw => 2
      case Payment => 3
      case Income => 4
      case Refund => 5
      case ServiceFee => 6
    }

    function Desc(): string
    {
      match this
      case Recharge => "充值"
      case Withdraw => "提现"
      case Payment => "支付"
      case Income => "收入"
      case Refund => "退款"
      case ServiceFee => "平台服务费"
    }
  }

  /** Transaction.Status in declaration order. */
  datatype Status = Processing | Success | Failed
  {
    function Code(): int
    {
      match this
      case Processing => 0
      case Success => 1
      case Failed => 2
    }

    function Desc(): string
    {
      match this
      case Processing => "处理中"
      case Success => "成功"
      case Failed => "失败"
    }
  }

  /** Type.values(), the order the fromCode loop visits. */
  const TypeValues: seq<Type> := [Recharge, Withdraw, Payment, Income, Refund, ServiceFee]

  /** The fromCode loop over a list of types: the first one whose code matches,
      or null. */
  function FromCodeIn(ts: seq<Type>, code: int): Option<Type>
  {
    if ts == [] then None
    else if ts[0].Code() == code then Some(ts[0])
    else FromCodeIn(ts[1..], code)
  }

  /** Type.fromCode(code). */
  function FromCode(code: int): Option<Type>
  {
    FromCodeIn(TypeValues, code)
  }

  /** The type codes are 1..6 in declaration order. */
  lemma TypeCodesInDeclaredOrder()
    ensures |TypeValues| == 6
    ensures forall i :: 0 <= i < |TypeValues| ==> TypeValues[i].Code() == i + 1
  {
  }

  lemma TypeInValues(t: Type)
    ensures t in TypeValues
  {
  }

  lemma TypeCodeInjective(s: Type, t: Type)
    ensures s.Code() == t.Code() <==> s == t
  {
  }

  lemma StatusCodeInjective(s: Status, t: Status)
    ensures s.Code() == t.Code() <==> s == t
  {
  }

  /** Whatever fromCode returns carries the code it was asked for. */
  lemma {:induction false} FromCodeInSound(ts: seq<Type>, code: int)
    ensures FromCodeIn(ts, code).Some? ==> FromCodeIn(ts, code).value.Code() == code
    ensures FromCodeIn(ts, code).None? <==> forall i :: 0 <= i < |ts| ==> ts[i].Code() != code
  {
    if ts != [] {
      FromCodeInSound(ts[1..], code);
      if ts[0].Code() != code {
        assert forall i :: 1 <= i < |ts| ==> ts[i] == ts[1..][i - 1];
      }
    }
  }

  /** fromCode inverts Type.getCode. */
  lemma FromCodeRoundTrip(t: Type)
    ensures FromCode(t.Code()) == Some(t)
  {
    TypeInValues(t);
    FromCodeInSound(TypeValues, t.Code());
    TypeCodeInjective(FromCode(t.Code()).value, t);
  }

  /** getCode inverts fromCode wherever fromCode succeeds. */
  lemma CodeRoundTrip(code: int)
    requires FromCode(code).Some?
    ensures FromCode(code).value.Code() == code
  {
    FromCodeInSound(TypeValues, code);
  }

  /** Codes outside 1..6 have no type. */
  lemma FromCodeUnknown(code: int)
    ensures FromCode(code) == None <==> (code < 1 || code > 6)
  {
    FromCodeInSound(TypeValues, code);
    if 1 <= code <= 6 {
      assert TypeValues[code - 1].Code() == code;
    }
  }

  /** One `transaction` row. The generated transactionNo, outTradeNo and the
      timestamps are not modelled; `deleted` stands for a non-null deletedAt. */
  datatype Transaction = Transaction(
    walletId: nat,
    userId: nat,
    txType: Type,
    amount: real,
    balanceBefore: real,
    balanceAfter: real,
    orderId: Option<nat>,
    milestoneId: Option<nat>,
    status: Status,
    remark: string,
    deleted: bool)
}
