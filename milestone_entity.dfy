/** The `milestone` table row and its Status enum table (entity/Milestone.java). */
module MilestoneEntity {

  import opened Wrappers

  /** Milestone.Status in declaration order. */
  datatype Status = Pending | InProgress | Submitted | Approved | Rejected
  {
    function Code(): int
    {
      match this
      case Pending => 0
      case InProgress => 1
      case Submitted => 2
      case Approved => 3
      case Rejected => 4
    }

    function Desc(): string
    {
      match this
      case Pending => "待开始"
      case InProgress => "进行中"
      case Submitted => "已提交"
      case Approved => "已验收"
      case Rejected => "已驳回"
    }
  }

  /** Status.values(), the order the getDesc loop visits. */
  const Values: seq<Status> := [Pending, InProgress, Submitted, Approved, Rejected]

  /** The getDesc loop over a list of statuses: the description of the first one
      whose code matches, or "未知" when none does. */
  function DescIn(vs: seq<Status>, code: int): string
  {
    if vs == [] then "未知"
    else if vs[0].Code() == code then vs[0].Desc()
    else DescIn(vs[1..], code)
  }

  /** Status.getDesc(code). */
  function GetDesc(code: int): string
  {
    DescIn(Values, code)
  }

  /** The 5 codes are 0..4 in declaration order, so they are pairwise distinct. */
  lemma CodesInDeclaredOrder()
    ensures |Values| == 5
    ensures forall i :: 0 <= i < |Values| ==> Values[i].Code() == i
  {
  }

  /** Every status is visited by the loop. */
  lemma InValues(s: Status)
    ensures s in Values
  {
  }

  lemma CodeInjective(s: Status, t: Status)
    ensures s.Code() == t.Code() <==> s == t
  {
  }

  /** The search finds the status a code belongs to, wherever it sits in the list. */
  lemma {:induction false} DescInFinds(vs: seq<Status>, s: Status)
    requires s in vs
    ensures DescIn(vs, s.Code()) == s.Desc()
  {
    if vs[0] != s {
      CodeInjective(vs[0], s);
      DescInFinds(vs[1..], s);
    }
  }

  /** A code no status carries is described as unknown. */
  lemma {:induction false} DescInMisses(vs: seq<Status>, code: int)
    requires forall i :: 0 <= i < |vs| ==> vs[i].Code() != code
    ensures DescIn(vs, code) == "未知"
  {
    if vs != [] {
      DescInMisses(vs[1..], code);
    }
  }

  lemma GetDescOfCode(s: Status)
    ensures GetDesc(s.Code()) == s.Desc()
  {
    InValues(s);
    DescInFinds(Values, s);
  }

  lemma GetDescUnknown(code: int)
    requires code < 0 || code > 4
    ensures GetDesc(code) == "未知"
  {
    DescInMisses(Values, code);
  }

  /** One `milestone` row. Timestamps are not modelled; the optional texts are
      null until set, and `deleted` stands for a non-null deletedAt. */
  datatype Milestone = Milestone(
    orderId: nat,
    title: string,
    description: Option<string>,
    amount: real,
    sequence: int,
    status: Status,
    dueDate: int,
    submitNote: Option<string>,
    reviewNote: Option<string>,
    deleted: bool)
}
