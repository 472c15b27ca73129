/** The `order` table row and its Status enum table (entity/Order.java). */
module OrderEntity {

  /** Order.Status in declaration order. */
  datatype Status = PendingPayment | InProgress | Delivered | Completed | Cancelled | Disputed
  {
    function Code(): int
    {
      match this
      case PendingPayment => 0
      case InProgress => 1
      case Delivered => 2
      case Completed => 3
      case Cancelled => 4
      case Disputed => 5
    }

    function Desc(): string
    {
      match this
      case PendingPayment => "待付款"
      case InProgress => "进行中"
      case Delivered => "已交付"
      case Completed => "已完成"
      case Cancelled => "已取消"
      case Disputed => "争议中"
    }
  }

  /** Status.values(), the order the getDesc loop visits. */
  const Values: seq<Status> := [PendingPayment, InProgress, Delivered, Completed, Cancelled, Disputed]

  /** The getDesc loop over a list of statuses: the description of the first one
      whose code matches, or "未知" when none does. */
  function DescIn(vs: seq<Status>, code: int): string
  {
    if vs == [] then "未知"
    else if vs[0].Code() == code then vs[0].Desc()
    else DescIn(vs[1..], code)
  }

  /** Status.getDesc(code). */
  function GetDesc(code: int): string
  {
    DescIn(Values, code)
  }

  /** The six codes are 0..5 in declaration order, so they are pairwise distinct. */
  lemma CodesInDeclaredOrder()
    ensures |Values| == 6
    ensures forall i :: 0 <= i < |Values| ==> Values[i].Code() == i
  {
  }

  /** Every status is visited by the loop. */
  lemma InValues(s: Status)
    ensures s in Values
  {
  }

  lemma CodeInjective(s: Status, t: Status)
    ensures s.Code() == t.Code() <==> s == t
  {
  }

  /** The search finds the status a code belongs to, wherever it sits in the list. */
  lemma {:induction false} DescInFinds(vs: seq<Status>, s: Status)
    requires s in vs
    ensures DescIn(vs, s.Code()) == s.Desc()
  {
    if vs[0] != s {
      CodeInjective(vs[0], s);
      DescInFinds(vs[1..], s);
    }
  }

  /** A code no status carries is described as unknown. */
  lemma {:induction false} DescInMisses(vs: seq<Status>, code: int)
    requires forall i :: 0 <= i < |vs| ==> vs[i].Code() != code
    ensures DescIn(vs, code) == "未知"
  {
    if vs != [] {
      DescInMisses(vs[1..], code);
    }
  }

  lemma GetDescOfCode(s: Status)
    ensures GetDesc(s.Code()) == s.Desc()
  {
    InValues(s);
    DescInFinds(Values, s);
  }

  lemma GetDescUnknown(code: int)
    requires code < 0 || code > 5
    ensures GetDesc(code) == "未知"
  {
    DescInMisses(Values, code);
  }

  /** One `order` row. The generated orderNo, the timestamps and the remark are not
      modelled; `deleted` stands for a non-null deletedAt. */
  datatype Order = Order(
    projectId: nat,
    bidId: nat,
    employerId: nat,
    developerId: nat,
    amount: real,
    status: Status,
    milestoneCount: int,
    deadline: int,
    deleted: bool)
}
