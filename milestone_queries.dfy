/** The select-only queries of MilestoneRepository, as functions over the rows of
    the `milestone` table. A row's id is its position in the table. */
module MilestoneQueries {

  import opened Wrappers
  import opened MilestoneEntity

  /** Every milestone status; the filter of a query without a status condition. */
  const AnyStatus: set<Status> := {Pending, InProgress, Submitted, Approved, Rejected}

  /** Every id in `ids` names a row of `ms`. */
  predicate ValidIds(ms: seq<Milestone>, ids: seq<nat>)
  {
    forall k :: 0 <= k < |ids| ==> ids[k] < |ms|
  }

  /** No id occurs twice. */
  predicate DistinctIds(ids: seq<nat>)
  {
    forall j, k :: 0 <= j < k < |ids| ==> ids[j] != ids[k]
  }

  /** `WHERE order_id = orderId AND status IN st AND deleted_at IS NULL`, scanning the
      first n rows: the matching ids in table order. */
  function Select(ms: seq<Milestone>, orderId: nat, st: set<Status>, n: nat): (r: seq<nat>)
    requires n <= |ms|
    ensures ValidIds(ms, r)
    ensures forall i: nat :: i in r <==> i < n && ms[i].orderId == orderId && ms[i].status in st && !ms[i].deleted
  {
    if n == 0 then []
    else
      var m := ms[n - 1];
      Select(ms, orderId, st, n - 1)
      + (if m.orderId == orderId && m.status in st && !m.deleted then [n - 1] else [])
  }

  /** The scan lists ids below n in strictly increasing order, so none twice. */
  lemma {:induction false} SelectIncreasing(ms: seq<Milestone>, orderId: nat, st: set<Status>, n: nat)
    requires n <= |ms|
    ensures forall k :: 0 <= k < |Select(ms, orderId, st, n)| ==> Select(ms, orderId, st, n)[k] < n
    ensures DistinctIds(Select(ms, orderId, st, n))
  {
    if n > 0 {
      SelectIncreasing(ms, orderId, st, n - 1);
      var prev := Select(ms, orderId, st, n - 1);
      var r := Select(ms, orderId, st, n);
      forall j, k | 0 <= j < k < |r| ensures r[j] != r[k] {
        if k >= |prev| {
          assert r[k] == n - 1 && r[j] == prev[j];
        } else {
          assert r[j] == prev[j] && r[k] == prev[k];
        }
      }
      forall k | 0 <= k < |r| ensures r[k] < n {
        if k < |prev| {
          assert r[k] == prev[k];
        }
      }
    }
  }

  /** The live milestones of an order whose status is in `st`, in table order. */
  function Matching(ms: seq<Milestone>, orderId: nat, st: set<Status>): seq<nat>
  {
    Select(ms, orderId, st, |ms|)
  }

  lemma InAnyStatus(s: Status)
    ensures s in AnyStatus
  {
    match s
    case Pending =>
    case InProgress =>
    case Submitted =>
    case Approved =>
    case Rejected =>
  }

  /** Ascending by sequence. */
  predicate SortedBySequence(ms: seq<Milestone>, ids: seq<nat>)
    requires ValidIds(ms, ids)
  {
    forall j, k :: 0 <= j < k < |ids| ==> ms[ids[j]].sequence <= ms[ids[k]].sequence
  }

  /** Inserts one id before the first id of a strictly larger sequence. */
  function InsertBySequence(ms: seq<Milestone>, id: nat, ids: seq<nat>): (r: seq<nat>)
    requires id < |ms| && ValidIds(ms, ids)
    ensures ValidIds(ms, r)
  {
    if ids == [] then [id]
    else if ms[id].sequence <= ms[ids[0]].sequence then [id] + ids
    else [ids[0]] + InsertBySequence(ms, id, ids[1..])
  }

  /** `ORDER BY sequence ASC`, as an insertion sort that keeps table order among
      equal sequences. */
  function SortBySequence(ms: seq<Milestone>, ids: seq<nat>): (r: seq<nat>)
    requires ValidIds(ms, ids)
    ensures ValidIds(ms, r)
  {
    if ids == [] then [] else InsertBySequence(ms, ids[0], SortBySequence(ms, ids[1..]))
  }

  /** A list stays sorted when an id no larger than all its elements is put in front. */
  lemma SortedCons(ms: seq<Milestone>, id: nat, ids: seq<nat>)
    requires id < |ms| && ValidIds(ms, ids) && SortedBySequence(ms, ids)
    requires forall k :: 0 <= k < |ids| ==> ms[id].sequence <= ms[ids[k]].sequence
    ensures SortedBySequence(ms, [id] + ids)
  {
    var r := [id] + ids;
    forall j, k | 0 <= j < k < |r| ensures ms[r[j]].sequence <= ms[r[k]].sequence {
      assert r[k] == ids[k - 1];
      if j > 0 {
        assert r[j] == ids[j - 1];
      }
    }
  }

  lemma {:induction false} InsertBySequencePerm(ms: seq<Milestone>, id: nat, ids: seq<nat>)
    requires id < |ms| && ValidIds(ms, ids)
    ensures multiset(InsertBySequence(ms, id, ids)) == multiset(ids) + multiset{id}
  {
    if ids != [] && ms[id].sequence > ms[ids[0]].sequence {
      InsertBySequencePerm(ms, id, ids[1..]);
      assert ids == [ids[0]] + ids[1..];
    }
  }

  lemma SortedTail(ms: seq<Milestone>, ids: seq<nat>)
    requires ValidIds(ms, ids) && SortedBySequence(ms, ids) && ids != []
    ensures SortedBySequence(ms, ids[1..])
    ensures forall k :: 0 <= k < |ids| - 1 ==> ms[ids[0]].sequence <= ms[ids[1..][k]].sequence
  {
    var tail := ids[1..];
    forall j, k | 0 <= j < k < |tail| ensures ms[tail[j]].sequence <= ms[tail[k]].sequence {
      assert tail[j] == ids[j + 1] && tail[k] == ids[k + 1];
    }
    forall k | 0 <= k < |tail| ensures ms[ids[0]].sequence <= ms[tail[k]].sequence {
      assert tail[k] == ids[k + 1];
    }
  }

  lemma {:induction false} InsertBySequenceSorted(ms: seq<Milestone>, id: nat, ids: seq<nat>)
    requires id < |ms| && ValidIds(ms, ids) && SortedBySequence(ms, ids)
    ensures SortedBySequence(ms, InsertBySequence(ms, id, ids))
  {
    if ids == [] {
    } else if ms[id].sequence <= ms[ids[0]].sequence {
      SortedCons(ms, id, ids);
    } else {
      var head, tail := ids[0], ids[1..];
      SortedTail(ms, ids);
      InsertBySequenceSorted(ms, id, tail);
      InsertBySequencePerm(ms, id, tail);
      var rest := InsertBySequence(ms, id, tail);
      forall k | 0 <= k < |rest| ensures ms[head].sequence <= ms[rest[k]].sequence {
        var x := rest[k];
        assert x in multiset(rest);
        if x != id {
          assert x in multiset(tail);
          var t :| 0 <= t < |tail| && tail[t] == x;
        }
      }
      SortedCons(ms, head, rest);
    }
  }

  /** findByOrderId sorts its rows: the result is ascending by sequence and holds
      exactly the ids it was given. */
  lemma {:induction false} SortBySequenceCorrect(ms: seq<Milestone>, ids: seq<nat>)
    requires ValidIds(ms, ids)
    ensures SortedBySequence(ms, SortBySequence(ms, ids))
    ensures multiset(SortBySequence(ms, ids)) == multiset(ids)
  {
    if ids != [] {
      var tail := ids[1..];
      var sortedTail := SortBySequence(ms, tail);
      SortBySequenceCorrect(ms, tail);
      InsertBySequenceSorted(ms, ids[0], sortedTail);
      InsertBySequencePerm(ms, ids[0], sortedTail);
      assert SortBySequence(ms, ids) == InsertBySequence(ms, ids[0], sortedTail);
      assert multiset(ids) == multiset(tail) + multiset{ids[0]} by {
        assert ids == [ids[0]] + tail;
      }
    }
  }

  /** An id occurs at most once in a list without repeats. */
  lemma {:induction false} DistinctCount(ids: seq<nat>, x: nat)
    requires DistinctIds(ids)
    ensures multiset(ids)[x] <= 1
  {
    if ids != [] {
      var tail := ids[1..];
      assert ids == [ids[0]] + tail;
      assert DistinctIds(tail) by {
        forall j, k | 0 <= j < k < |tail| ensures tail[j] != tail[k] {
          assert tail[j] == ids[j + 1] && tail[k] == ids[k + 1];
        }
      }
      DistinctCount(tail, x);
      if x == ids[0] {
        forall k | 0 <= k < |tail| ensures tail[k] != x {
          assert tail[k] == ids[k + 1];
        }
        assert x !in tail;
        assert multiset(tail)[x] == 0;
      }
    }
  }

  /** Reordering a list without repeats gives a list without repeats. */
  lemma PermutationKeepsDistinct(a: seq<nat>, b: seq<nat>)
    requires DistinctIds(a) && multiset(a) == multiset(b)
    ensures DistinctIds(b)
  {
    forall j, k | 0 <= j < k < |b| ensures b[j] != b[k] {
      if b[j] == b[k] {
        var x := b[j];
        assert b == b[..j] + [x] + b[j + 1..k] + [x] + b[k + 1..];
        assert multiset(b)[x] >= 2;
        DistinctCount(a, x);
        assert false;
      }
    }
  }

  /** MilestoneRepository.findByOrderId. */
  function FindByOrderId(ms: seq<Milestone>, orderId: nat): seq<nat>
  {
    SortBySequence(ms, Matching(ms, orderId, AnyStatus))
  }

  /** findByOrderId returns the order's live milestones, each once, ascending by
      sequence. */
  lemma FindByOrderIdSpec(ms: seq<Milestone>, orderId: nat)
    ensures ValidIds(ms, FindByOrderId(ms, orderId))
    ensures SortedBySequence(ms, FindByOrderId(ms, orderId))
    ensures DistinctIds(FindByOrderId(ms, orderId))
    ensures forall i: nat :: i in FindByOrderId(ms, orderId) <==> i < |ms| && ms[i].orderId == orderId && !ms[i].deleted
  {
    var live := Matching(ms, orderId, AnyStatus);
    SortBySequenceCorrect(ms, live);
    SelectIncreasing(ms, orderId, AnyStatus, |ms|);
    PermutationKeepsDistinct(live, FindByOrderId(ms, orderId));
    forall i: nat ensures i in FindByOrderId(ms, orderId) <==> i in live {
      assert i in FindByOrderId(ms, orderId) <==> i in multiset(FindByOrderId(ms, orderId));
      assert i in live <==> i in multiset(live);
    }
    forall i: nat | i < |ms| ensures ms[i].status in AnyStatus {
      InAnyStatus(ms[i].status);
    }
  }

  /** The id of the lowest sequence among `ids` (the first one on a tie), i.e.
      `ORDER BY sequence ASC LIMIT 1`. */
  function Lowest(ms: seq<Milestone>, ids: seq<nat>): (r: Option<nat>)
    requires ValidIds(ms, ids)
    ensures r.None? <==> ids == []
    ensures r.Some? ==> r.value in ids
    ensures r.Some? ==> forall k :: 0 <= k < |ids| ==> ms[r.value].sequence <= ms[ids[k]].sequence
  {
    if ids == [] then None
    else match Lowest(ms, ids[1..])
      case None => Some(ids[0])
      case Some(j) => if ms[ids[0]].sequence <= ms[j].sequence then Some(ids[0]) else Some(j)
  }

  /** countCompletedByOrderId: the live APPROVED (code 3) milestones of the order. */
  function CountCompleted(ms: seq<Milestone>, orderId: nat): nat
  {
    |Matching(ms, orderId, {Approved})|
  }

  /** findCurrentByOrderId: status IN (1, 2), i.e. IN_PROGRESS or SUBMITTED. */
  function FindCurrent(ms: seq<Milestone>, orderId: nat): Option<nat>
  {
    Lowest(ms, Matching(ms, orderId, {InProgress, Submitted}))
  }

  /** findNextPendingByOrderId: status = 0, i.e. PENDING. */
  function FindNextPending(ms: seq<Milestone>, orderId: nat): Option<nat>
  {
    Lowest(ms, Matching(ms, orderId, {Pending}))
  }

  /** The repository literals 3, {1, 2} and 0 are the codes of APPROVED,
      IN_PROGRESS/SUBMITTED and PENDING. */
  lemma RepositoryLiterals()
    ensures Approved.Code() == 3
    ensures InProgress.Code() == 1 && Submitted.Code() == 2
    ensures Pending.Code() == 0
  {
  }

  /** findNextPendingByOrderId returns a live PENDING milestone of the order with no
      live PENDING milestone of a lower sequence, and none only when there is no
      live PENDING milestone at all. findCurrentByOrderId behaves alike. */
  lemma FindNextPendingSpec(ms: seq<Milestone>, orderId: nat)
    ensures FindNextPending(ms, orderId).Some? ==>
      var k := FindNextPending(ms, orderId).value;
      k < |ms| && ms[k].orderId == orderId && ms[k].status == Pending && !ms[k].deleted
      && forall i :: 0 <= i < |ms| && ms[i].orderId == orderId && ms[i].status == Pending && !ms[i].deleted
           ==> ms[k].sequence <= ms[i].sequence
    ensures FindNextPending(ms, orderId).None? <==>
      forall i :: 0 <= i < |ms| ==> !(ms[i].orderId == orderId && ms[i].status == Pending && !ms[i].deleted)
  {
    var ids := Matching(ms, orderId, {Pending});
    forall i | 0 <= i < |ms| && ms[i].orderId == orderId && ms[i].status == Pending && !ms[i].deleted
      ensures exists k :: 0 <= k < |ids| && ids[k] == i
    {
      assert i in ids;
    }
  }

  lemma FindCurrentSpec(ms: seq<Milestone>, orderId: nat)
    ensures FindCurrent(ms, orderId).Some? ==>
      var k := FindCurrent(ms, orderId).value;
      k < |ms| && ms[k].orderId == orderId && ms[k].status in {InProgress, Submitted} && !ms[k].deleted
      && forall i :: 0 <= i < |ms| && ms[i].orderId == orderId && ms[i].status in {InProgress, Submitted} && !ms[i].deleted
           ==> ms[k].sequence <= ms[i].sequence
    ensures FindCurrent(ms, orderId).None? <==>
      forall i :: 0 <= i < |ms| ==> !(ms[i].orderId == orderId && ms[i].status in {InProgress, Submitted} && !ms[i].deleted)
  {
    var ids := Matching(ms, orderId, {InProgress, Submitted});
    forall i | 0 <= i < |ms| && ms[i].orderId == orderId && ms[i].status in {InProgress, Submitted} && !ms[i].deleted
      ensures exists k :: 0 <= k < |ids| && ids[k] == i
    {
      assert i in ids;
    }
  }

  /** Narrowing the status filter never yields more rows. */
  lemma {:induction false} SelectNarrower(ms: seq<Milestone>, orderId: nat, st: set<Status>, wide: set<Status>, n: nat)
    requires n <= |ms| && st <= wide
    ensures |Select(ms, orderId, st, n)| <= |Select(ms, orderId, wide, n)|
  {
    if n > 0 {
      SelectNarrower(ms, orderId, st, wide, n - 1);
      if ms[n - 1].status in st {
        assert ms[n - 1].status in wide;
      }
    }
  }

  /** Approved milestones are among the order's live milestones. */
  lemma CountCompletedBound(ms: seq<Milestone>, orderId: nat)
    ensures CountCompleted(ms, orderId) <= |FindByOrderId(ms, orderId)|
  {
    var live := Matching(ms, orderId, AnyStatus);
    SortBySequenceCorrect(ms, live);
    SelectNarrower(ms, orderId, {Approved}, AnyStatus, |ms|);
    assert |multiset(FindByOrderId(ms, orderId))| == |multiset(live)|;
  }
}
