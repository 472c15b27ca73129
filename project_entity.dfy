/** The `project` table row and its Status enum table (entity/Project.java). */
module ProjectEntity {

  import opened Wrappers

  /** Project.Status in declaration order. */
  datatype Status = Draft | Open | InProgress | Completed | Cancelled | Closed
  {
    function Code(): int
    {
      match this
      case Draft => 0
      case Open => 1
      case InProgress => 2
      case Completed => 3
      case Cancelled => 4
      case Closed => 5
    }

    function Desc(): string
    {
      match this
      case Draft => "草稿"
      case Open => "开放中"
      case InProgress => "进行中"
      case Completed => "已完成"
      case Cancelled => "已取消"
      case Closed => "已关闭"
    }
  }

  /** Status.values(), the order the getDesc loop visits. */
  const Values: seq<Status> := [Draft, Open, InProgress, Completed, Cancelled, Closed]

  /** The getDesc loop over a list of statuses: the description of the first one
      whose code matches, or "未知" when none does. */
  function DescIn(vs: seq<Status>, code: int): string
  {
    if vs == [] then "未知"
    else if vs[0].Code() == code then vs[0].Desc()
    else DescIn(vs[1..], code)
  }

  /** Status.getDesc(code). */
  function GetDesc(code: int): string
  {
    DescIn(Values, code)
  }

  /** The 6 codes are 0..5 in declaration order, so they are pairwise distinct. */
  lemma CodesInDeclaredOrder()
    ensures |Values| == 6
    ensures forall i :: 0 <= i < |Values| ==> Values[i].Code() == i
  {
  }

  /** Every status is visited by the loop. */
  lemma InValues(s: Status)
    ensures s in Values
  {
  }

  lemma CodeInjective(s: Status, t: Status)
    ensures s.Code() == t.Code() <==> s == t
  {
  }

  /** The search finds the status a code belongs to, wherever it sits in the list. */
  lemma {:induction false} DescInFinds(vs: seq<Status>, s: Status)
    requires s in vs
    ensures DescIn(vs, s.Code()) == s.Desc()
  {
    if vs[0] != s {
      CodeInjective(vs[0], s);
      DescInFinds(vs[1..], s);
    }
  }

  /** A code no status carries is described as unknown. */
  lemma {:induction false} DescInMisses(vs: seq<Status>, code: int)
    requires forall i :: 0 <= i < |vs| ==> vs[i].Code() != code
    ensures DescIn(vs, code) == "未知"
  {
    if vs != [] {
      DescInMisses(vs[1..], code);
    }
  }

  lemma GetDescOfCode(s: Status)
    ensures GetDesc(s.Code()) == s.Desc()
  {
    InValues(s);
    DescInFinds(Values, s);
  }

  lemma GetDescUnknown(code: int)
    requires code < 0 || code > 5
    ensures GetDesc(code) == "未知"
  {
    DescInMisses(Values, code);
  }

  /** One `project` row. Every field the create request demands is present, so
      the budget bounds and the deadline are plain values here; `attachmentUrls`
      may be absent. `deleted` stands for a non-null deletedAt; `removed` marks a
      row deleteById has taken out of the table, which selectById no longer finds. */
  datatype Project = Project(
    userId: nat,
    title: string,
    description: string,
    categoryId: int,
    budgetMin: real,
    budgetMax: real,
    deadline: int,
    skillRequirements: seq<string>,
    attachmentUrls: Option<seq<string>>,
    status: Status,
    viewCount: int,
    bidCount: int,
    deleted: bool,
    removed: bool)
}
