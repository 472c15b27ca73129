/** The `bid` table row and its Status enum table (entity/Bid.java). */
module BidEntity {

  /** Bid.Status in declaration order. */
  datatype Status = Pending | Accepted | Rejected | Withdrawn
  {
    function Code(): int
    {
      match this
      case Pending => 0
      case Accepted => 1
      case Rejected => 2
      case Withdrawn => 3
    }

    function Desc(): string
    {
      match this
      case Pending => "待处理"
      case Accepted => "已接受"
      case Rejected => "已拒绝"
      case Withdrawn => "已撤回"
    }
  }

  /** Status.values(), the order the getDesc loop visits. */
  const Values: seq<Status> := [Pending, Accepted, Rejected, Withdrawn]

  /** The getDesc loop over a list of statuses: the description of the first one
      whose code matches, or "未知" when none does. */
  function DescIn(vs: seq<Status>, code: int): string
  {
    if vs == [] then "未知"
    else if vs[0].Code() == code then vs[0].Desc()
    else DescIn(vs[1..], code)
  }

  /** Status.getDesc(code). */
  function GetDesc(code: int): string
  {
    DescIn(Values, code)
  }

  /** The 4 codes are 0..3 in declaration order, so they are pairwise distinct. */
  lemma CodesInDeclaredOrder()
    ensures |Values| == 4
    ensures forall i :: 0 <= i < |Values| ==> Values[i].Code() == i
  {
  }

  /** Every status is visited by the loop. */
  lemma InValues(s: Status)
    ensures s in Values
  {
  }

  lemma CodeInjective(s: Status, t: Status)
    ensures s.Code() == t.Code() <==> s == t
  {
  }

  /** The search finds the status a code belongs to, wherever it sits in the list. */
  lemma {:induction false} DescInFinds(vs: seq<Status>, s: Status)
    requires s in vs
    ensures DescIn(vs, s.Code()) == s.Desc()
  {
    if vs[0] != s {
      CodeInjective(vs[0], s);
      DescInFinds(vs[1..], s);
    }
  }

  /** A code no status carries is described as unknown. */
  lemma {:induction false} DescInMisses(vs: seq<Status>, code: int)
    requires forall i :: 0 <= i < |vs| ==> vs[i].Code() != code
    ensures DescIn(vs, code) == "未知"
  {
    if vs != [] {
      DescInMisses(vs[1..], code);
    }
  }

  lemma GetDescOfCode(s: Status)
    ensures GetDesc(s.Code()) == s.Desc()
  {
    InValues(s);
    DescInFinds(Values, s);
  }

  lemma GetDescUnknown(code: int)
    requires code < 0 || code > 3
    ensures GetDesc(code) == "未知"
  {
    DescInMisses(Values, code);
  }

  /** One `bid` row; `deleted` stands for a non-null deletedAt. */
  datatype Bid = Bid(
    projectId: nat,
    developerId: nat,
    proposedPrice: real,
    proposedDays: int,
    proposal: string,
    status: Status,
    deleted: bool)
}
