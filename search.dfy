/** SearchServiceImpl: the choice between keyword and hybrid search, the hybrid
    merge of semantic and keyword hits with its paging, the completion list and
    the search-history guard. The semantic and keyword database queries stay
    outside the model: their results are parameters. */
module Search {

  import opened Wrappers
  import P = ProjectEntity
  import opened Text

  /** The project fields of a ProjectVO that the search logic reads. */
  datatype ProjectHit = ProjectHit(id: nat, categoryId: Option<int>, budgetMin: Option<real>, budgetMax: Option<real>)

  /** The optional request filters: a `Long` category id and `Integer` budgets. */
  datatype Filter = Filter(categoryId: Option<int>, minBudget: Option<int>, maxBudget: Option<int>)

  /** The hit toProjectVO makes of project row `id`. */
  function HitOf(id: nat, p: P.Project): ProjectHit
  {
    ProjectHit(id, Some(p.categoryId), Some(p.budgetMin), Some(p.budgetMax))
  }

  /** Hybrid search is chosen when embeddings are available and the keyword has
      text and more than five UTF-16 units. */
  predicate UseHybrid(embeddingAvailable: bool, keyword: Option<string>)
  {
    embeddingAvailable && keyword.Some? && HasText(keyword.value) && JavaLength(keyword.value) > 5
  }

  lemma UseHybridExamples()
    ensures !UseHybrid(true, Some("react"))
    ensures UseHybrid(true, Some("react native"))
    ensures !UseHybrid(false, Some("react native"))
    ensures !UseHybrid(true, Some("       "))
    ensures !UseHybrid(true, None)
    ensures UseHybrid(true, Some("\U{1F600}\U{1F600}\U{1F600}"))
  {
    assert !IsWhitespace("react native"[0]);
    assert forall i :: 0 <= i < |"       "| ==> "       "[i] == ' ';
    assert !HasText("       ");
  }

  // ---------------------------------------------------------------------------
  // Filters

  /** A boxed Java number, as far as `equals` sees it: its class and its value. */
  datatype Boxed = JLong(v: int) | JInteger(v: int)

  /** `Long.equals(obj)`: true only for another Long of the same value. */
  predicate LongEquals(a: int, obj: Option<Boxed>)
  {
    obj.Some? && obj.value.JLong? && obj.value.v == a
  }

  /** matchesFilters as written: the request's Long category id is compared with
      the hit's Integer category id by `Long.equals`. */
  predicate MatchesFiltersAsWritten(vo: ProjectHit, f: Filter)
  {
    var boxedCategory := if vo.categoryId.Some? then Some(JInteger(vo.categoryId.value)) else None;
    !(f.categoryId.Some? && !LongEquals(f.categoryId.value, boxedCategory))
    && !(f.minBudget.Some? && vo.budgetMax.Some? && vo.budgetMax.value < f.minBudget.value as real)
    && !(f.maxBudget.Some? && vo.budgetMin.Some? && vo.budgetMin.value > f.maxBudget.value as real)
  }

  /** A category filter makes the as-written check reject every hit, even one of
      exactly that category. */
  lemma CategoryFilterRejectsEveryHit(vo: ProjectHit, f: Filter)
    requires f.categoryId.Some?
    ensures !MatchesFiltersAsWritten(vo, f)
  {
  }

  lemma CategoryFilterExample()
    ensures !MatchesFiltersAsWritten(ProjectHit(7, Some(3), Some(100.0), Some(500.0)), Filter(Some(3), None, None))
  {
  }

  /** matchesFilters as evidently intended: a hit passes when it has the requested
      category, its maximum budget reaches the requested minimum and its minimum
      budget stays within the requested maximum; a missing filter or a missing
      budget passes. */
  predicate MatchesFilters(vo: ProjectHit, f: Filter)
  {
    (f.categoryId.None? || vo.categoryId == f.categoryId)
    && (f.minBudget.None? || vo.budgetMax.None? || vo.budgetMax.value >= f.minBudget.value as real)
    && (f.maxBudget.None? || vo.budgetMin.None? || vo.budgetMin.value <= f.maxBudget.value as real)
  }

  /** Without a category filter the two checks agree. */
  lemma MatchesFiltersAgreeWithoutCategory(vo: ProjectHit, f: Filter)
    requires f.categoryId.None?
    ensures MatchesFiltersAsWritten(vo, f) <==> MatchesFilters(vo, f)
  {
  }

  /** Which check hybridSearch's first loop runs: matchesFilters as written, or
      as evidently intended. */
  datatype FilterCheck = AsWritten | Intended

  predicate Passes(check: FilterCheck, vo: ProjectHit, f: Filter)
  {
    if check.AsWritten? then MatchesFiltersAsWritten(vo, f) else MatchesFilters(vo, f)
  }

  /** "a LIKE '%t%'": `t` occurs in `s` (wildcards inside `t` are not modelled). */
  predicate OccursAt(s: string, t: string, i: nat)
  {
    i + |t| <= |s| && s[i..i + |t|] == t
  }

  predicate Contains(s: string, t: string)
  {
    exists i: nat :: i <= |s| && OccursAt(s, t, i)
  }

  /** The rows keywordSearch selects: live, OPEN or IN_PROGRESS, the keyword (when
      it has text) in the title or the description, and the category and budget
      conditions the request sets. */
  predicate KeywordMatch(p: P.Project, keyword: Option<string>, f: Filter)
  {
    !p.removed && !p.deleted && (p.status == P.Open || p.status == P.InProgress)
    && (keyword.Some? && HasText(keyword.value) ==> Contains(p.title, keyword.value) || Contains(p.description, keyword.value))
    && (f.categoryId.Some? ==> p.categoryId == f.categoryId.value)
    && (f.minBudget.Some? ==> p.budgetMax >= f.minBudget.value as real)
    && (f.maxBudget.Some? ==> p.budgetMin <= f.maxBudget.value as real)
  }

  /** Every keyword result passes the intended filter check; under the as-written
      check a keyword result of the requested category would fail it. */
  lemma KeywordHitsPassFilters(id: nat, p: P.Project, keyword: Option<string>, f: Filter)
    requires KeywordMatch(p, keyword, f)
    ensures MatchesFilters(HitOf(id, p), f)
    ensures f.categoryId.Some? ==> !MatchesFiltersAsWritten(HitOf(id, p), f)
  {
  }

  // ---------------------------------------------------------------------------
  // The hybrid merge: a LinkedHashMap from project id to hit, kept as the
  // sequence of its entries in insertion order.

  predicate HasId(m: seq<ProjectHit>, id: nat)
  {
    exists k :: 0 <= k < |m| && m[k].id == id
  }

  predicate UniqueIds(m: seq<ProjectHit>)
  {
    forall k, l :: 0 <= k < l < |m| ==> m[k].id != m[l].id
  }

  /** The position of the entry for `id` in m[i..], if any. */
  function FindIdFrom(m: seq<ProjectHit>, id: nat, i: nat): (r: Option<nat>)
    requires i <= |m|
    ensures r.Some? ==> i <= r.value < |m| && m[r.value].id == id
    ensures r.Some? ==> forall k :: i <= k < r.value ==> m[k].id != id
    ensures r.None? <==> forall k :: i <= k < |m| ==> m[k].id != id
    decreases |m| - i
  {
    if i == |m| then None
    else if m[i].id == id then Some(i)
    else FindIdFrom(m, id, i + 1)
  }

  /** `map.put(vo.id, vo)`: an existing entry gets the new value in its old place,
      a new key goes last. */
  function Put(m: seq<ProjectHit>, vo: ProjectHit): (r: seq<ProjectHit>)
    ensures HasId(m, vo.id) ==> |r| == |m| && forall k :: 0 <= k < |m| ==> r[k] == (if m[k].id == vo.id && !HasId(m[..k], vo.id) then vo else m[k])
    ensures !HasId(m, vo.id) ==> r == m + [vo]
  {
    var at := FindIdFrom(m, vo.id, 0);
    if at.Some? then
      assert forall k :: 0 <= k < at.value ==> m[k].id != vo.id;
      assert forall k :: at.value < k < |m| && m[k].id == vo.id ==> HasId(m[..k], vo.id) by {
        forall k | at.value < k < |m| && m[k].id == vo.id ensures HasId(m[..k], vo.id) {
          assert m[..k][at.value].id == vo.id;
        }
      }
      m[at.value := vo]
    else m + [vo]
  }

  /** `map.putIfAbsent(vo.id, vo)`. */
  function PutIfAbsent(m: seq<ProjectHit>, vo: ProjectHit): (r: seq<ProjectHit>)
    ensures HasId(m, vo.id) ==> r == m
    ensures !HasId(m, vo.id) ==> r == m + [vo]
  {
    if FindIdFrom(m, vo.id, 0).Some? then m else m + [vo]
  }

  /** The first loop of hybridSearch over s: every hit that passes the check is
      put. */
  function PutMatching(m: seq<ProjectHit>, s: seq<ProjectHit>, f: Filter, check: FilterCheck): seq<ProjectHit>
  {
    if s == [] then m
    else
      var acc := PutMatching(m, s[..|s| - 1], f, check);
      if Passes(check, s[|s| - 1], f) then Put(acc, s[|s| - 1]) else acc
  }

  /** The second loop: every hit is put if absent. The existing entries stay in
      front and each added one is new. */
  function PutAbsent(m: seq<ProjectHit>, s: seq<ProjectHit>): (r: seq<ProjectHit>)
    ensures |m| <= |r| && r[..|m|] == m
    ensures forall k :: |m| <= k < |r| ==> r[k] in s && !HasId(m, r[k].id)
  {
    if s == [] then m
    else
      var acc := PutAbsent(m, s[..|s| - 1]);
      var vo := s[|s| - 1];
      var r := PutIfAbsent(acc, vo);
      assert forall k :: |m| <= k < |acc| ==> acc[k] in s by {
        forall k | |m| <= k < |acc| ensures acc[k] in s {
          assert acc[k] in s[..|s| - 1];
        }
      }
      assert HasId(m, vo.id) ==> HasId(acc, vo.id) by {
        if HasId(m, vo.id) {
          var k :| 0 <= k < |m| && m[k].id == vo.id;
          assert acc[k] == m[k];
        }
      }
      r
  }

  /** The merged map of hybridSearch, in insertion order. */
  function Merged(semantic: seq<ProjectHit>, keyword: seq<ProjectHit>, f: Filter, check: FilterCheck): seq<ProjectHit>
  {
    PutAbsent(PutMatching([], semantic, f, check), keyword)
  }

  lemma HasIdPut(m: seq<ProjectHit>, vo: ProjectHit, id: nat)
    ensures HasId(Put(m, vo), id) <==> HasId(m, id) || id == vo.id
    ensures HasId(PutIfAbsent(m, vo), id) <==> HasId(m, id) || id == vo.id
  {
    var r := Put(m, vo);
    if HasId(m, vo.id) {
      var j :| 0 <= j < |m| && m[j].id == vo.id;
      if HasId(m, id) {
        var k :| 0 <= k < |m| && m[k].id == id;
        assert r[k].id == id;
      }
      if HasId(r, id) {
        var k :| 0 <= k < |r| && r[k].id == id;
        assert m[k].id == id || id == vo.id;
      }
    } else {
      assert r[|m|] == vo;
      if HasId(m, id) {
        var k :| 0 <= k < |m| && m[k].id == id;
        assert r[k] == m[k];
      }
    }
  }

  lemma UniquePut(m: seq<ProjectHit>, vo: ProjectHit)
    requires UniqueIds(m)
    ensures UniqueIds(Put(m, vo)) && UniqueIds(PutIfAbsent(m, vo))
  {
  }

  /** The merge never holds two entries for one project. */
  lemma {:induction false} MergedUnique(semantic: seq<ProjectHit>, keyword: seq<ProjectHit>, f: Filter, check: FilterCheck)
    ensures UniqueIds(PutMatching([], semantic, f, check))
    ensures UniqueIds(Merged(semantic, keyword, f, check))
  {
    PutMatchingUnique([], semantic, f, check);
    PutAbsentUnique(PutMatching([], semantic, f, check), keyword);
  }

  lemma {:induction false} PutMatchingUnique(m: seq<ProjectHit>, s: seq<ProjectHit>, f: Filter, check: FilterCheck)
    requires UniqueIds(m)
    ensures UniqueIds(PutMatching(m, s, f, check))
  {
    if s != [] {
      PutMatchingUnique(m, s[..|s| - 1], f, check);
      UniquePut(PutMatching(m, s[..|s| - 1], f, check), s[|s| - 1]);
    }
  }

  lemma {:induction false} PutAbsentUnique(m: seq<ProjectHit>, s: seq<ProjectHit>)
    requires UniqueIds(m)
    ensures UniqueIds(PutAbsent(m, s))
  {
    if s != [] {
      PutAbsentUnique(m, s[..|s| - 1]);
      UniquePut(PutAbsent(m, s[..|s| - 1]), s[|s| - 1]);
    }
  }

  /** A project is in the merge exactly when a semantic hit for it passes the
      check or a keyword hit for it exists. */
  lemma {:induction false} MergedIds(semantic: seq<ProjectHit>, keyword: seq<ProjectHit>, f: Filter, check: FilterCheck, id: nat)
    ensures HasId(Merged(semantic, keyword, f, check), id) <==>
      (exists k :: 0 <= k < |semantic| && semantic[k].id == id && Passes(check, semantic[k], f))
      || (exists k :: 0 <= k < |keyword| && keyword[k].id == id)
  {
    PutMatchingIds([], semantic, f, check, id);
    PutAbsentIds(PutMatching([], semantic, f, check), keyword, id);
  }

  lemma {:induction false} PutMatchingIds(m: seq<ProjectHit>, s: seq<ProjectHit>, f: Filter, check: FilterCheck, id: nat)
    ensures HasId(PutMatching(m, s, f, check), id) <==>
      HasId(m, id) || exists k :: 0 <= k < |s| && s[k].id == id && Passes(check, s[k], f)
  {
    if s != [] {
      var init := s[..|s| - 1];
      PutMatchingIds(m, init, f, check, id);
      HasIdPut(PutMatching(m, init, f, check), s[|s| - 1], id);
      if exists k :: 0 <= k < |s| && s[k].id == id && Passes(check, s[k], f) {
        var k :| 0 <= k < |s| && s[k].id == id && Passes(check, s[k], f);
        if k < |s| - 1 {
          assert init[k] == s[k];
        }
      }
      if exists k :: 0 <= k < |init| && init[k].id == id && Passes(check, init[k], f) {
        var k :| 0 <= k < |init| && init[k].id == id && Passes(check, init[k], f);
        assert s[k] == init[k];
      }
    }
  }

  lemma {:induction false} PutAbsentIds(m: seq<ProjectHit>, s: seq<ProjectHit>, id: nat)
    ensures HasId(PutAbsent(m, s), id) <==> HasId(m, id) || HasId(s, id)
  {
    if s != [] {
      var init := s[..|s| - 1];
      assert PutAbsent(m, s) == PutIfAbsent(PutAbsent(m, init), s[|s| - 1]);
      PutAbsentIds(m, init, id);
      HasIdPut(PutAbsent(m, init), s[|s| - 1], id);
      HasIdSnoc(s, id);
    }
  }

  /** A list has an id when its front has it or its last entry does. */
  lemma HasIdSnoc(s: seq<ProjectHit>, id: nat)
    requires s != []
    ensures HasId(s, id) <==> HasId(s[..|s| - 1], id) || s[|s| - 1].id == id
  {
    var init := s[..|s| - 1];
    if HasId(s, id) {
      var k :| 0 <= k < |s| && s[k].id == id;
      if k < |s| - 1 {
        assert init[k] == s[k];
      }
    }
    if HasId(init, id) {
      var k :| 0 <= k < |init| && init[k].id == id;
      assert s[k] == init[k];
    }
  }

  /** The semantic hits that pass the check, in order. */
  function Kept(s: seq<ProjectHit>, f: Filter, check: FilterCheck): (r: seq<ProjectHit>)
    ensures forall k :: 0 <= k < |r| ==> r[k] in s && Passes(check, r[k], f)
  {
    if s == [] then []
    else
      var init := Kept(s[..|s| - 1], f, check);
      assert forall k :: 0 <= k < |init| ==> init[k] in s by {
        forall k | 0 <= k < |init| ensures init[k] in s {
          assert init[k] in s[..|s| - 1];
        }
      }
      init + (if Passes(check, s[|s| - 1], f) then [s[|s| - 1]] else [])
  }

  /** With distinct semantic hits (the query returns each project once), the first
      loop leaves exactly the hits that pass the check, in their order. */
  lemma {:induction false} PutMatchingDistinct(s: seq<ProjectHit>, f: Filter, check: FilterCheck)
    requires UniqueIds(s)
    ensures PutMatching([], s, f, check) == Kept(s, f, check)
  {
    if s != [] {
      var init := s[..|s| - 1];
      var last := s[|s| - 1];
      PutMatchingDistinct(init, f, check);
    }
  }

  /** The merge starts with the kept semantic hits, and every later entry is a
      keyword hit for a project not among them. */
  lemma SemanticFirst(semantic: seq<ProjectHit>, keyword: seq<ProjectHit>, f: Filter, check: FilterCheck)
    requires UniqueIds(semantic)
    ensures var m := Merged(semantic, keyword, f, check);
      var kept := Kept(semantic, f, check);
      |kept| <= |m| && m[..|kept|] == kept
      && forall k :: |kept| <= k < |m| ==> m[k] in keyword && !HasId(kept, m[k].id)
  {
    PutMatchingDistinct(semantic, f, check);
  }

  /** As written, a category filter lets no semantic hit through the first loop. */
  lemma {:induction false} AsWrittenCategoryPutsNothing(m: seq<ProjectHit>, s: seq<ProjectHit>, f: Filter)
    requires f.categoryId.Some?
    ensures PutMatching(m, s, f, AsWritten) == m
  {
    if s != [] {
      AsWrittenCategoryPutsNothing(m, s[..|s| - 1], f);
      CategoryFilterRejectsEveryHit(s[|s| - 1], f);
    }
  }

  /** The second loop alone over distinct keyword hits keeps them all, in order. */
  lemma {:induction false} PutAbsentDistinct(s: seq<ProjectHit>)
    requires UniqueIds(s)
    ensures PutAbsent([], s) == s
  {
    if s != [] {
      var init := s[..|s| - 1];
      var last := s[|s| - 1];
      assert UniqueIds(init) by {
        forall k, l | 0 <= k < l < |init| ensures init[k].id != init[l].id {
          assert init[k] == s[k] && init[l] == s[l];
        }
      }
      PutAbsentDistinct(init);
      assert !HasId(init, last.id);
      assert PutAbsent([], s) == PutIfAbsent(init, last);
      assert init + [last] == s;
    }
  }

  /** So under a category filter the hybrid merge as written is the keyword hits
      without repeats, the semantic hits dropped whatever their category. */
  lemma MergedUnderCategoryFilter(semantic: seq<ProjectHit>, keyword: seq<ProjectHit>, f: Filter)
    requires f.categoryId.Some?
    ensures Merged(semantic, keyword, f, AsWritten) == PutAbsent([], keyword)
    ensures UniqueIds(keyword) ==> Merged(semantic, keyword, f, AsWritten) == keyword
  {
    AsWrittenCategoryPutsNothing([], semantic, f);
    if UniqueIds(keyword) {
      PutAbsentDistinct(keyword);
    }
  }

  /** A hybrid search for category 3 with one semantic hit of category 3 and no
      keyword hit: the page as written is empty, the intended one holds the hit. */
  lemma HybridCategoryExample()
    ensures var hit := ProjectHit(7, Some(3), Some(100.0), Some(500.0));
      var f := Filter(Some(3), None, None);
      PageOf(Merged([hit], [], f, AsWritten), 1, 10) == Ok([])
      && PageOf(Merged([hit], [], f, Intended), 1, 10) == Ok([hit])
  {
    var hit := ProjectHit(7, Some(3), Some(100.0), Some(500.0));
    var f := Filter(Some(3), None, None);
    MergedUnderCategoryFilter([hit], [], f);
    assert [hit][..0] == [];
    assert PutMatching([], [hit], f, Intended) == [hit];
  }

  // ---------------------------------------------------------------------------
  // Paging

  function Min(a: int, b: int): int
  {
    if a <= b then a else b
  }

  /** hybridSearch's page of `all`: empty from a start at or past the end,
      otherwise `subList(start, min(start + size, n))`. ArrayList.subList throws
      IndexOutOfBoundsException for a negative start, and otherwise
      IllegalArgumentException when a negative size puts the end before the
      start. */
  function PageOf(all: seq<ProjectHit>, current: int, size: int): (r: Result<seq<ProjectHit>>)
    ensures current >= 1 && size >= 0 ==> r.Ok?
    ensures r.Err? <==> (current - 1) * size < |all| && ((current - 1) * size < 0 || size < 0)
    ensures r.Err? ==> r.error == Uncaught(if (current - 1) * size < 0 then "IndexOutOfBoundsException"
                                           else "IllegalArgumentException")
    ensures r.Ok? && size >= 0 ==> |r.value| <= size
    ensures r.Ok? ==> forall k :: 0 <= k < |r.value| ==>
      0 <= (current - 1) * size + k < |all| && r.value[k] == all[(current - 1) * size + k]
    ensures r.Ok? && 0 <= (current - 1) * size && 0 <= size && (current - 1) * size + size <= |all| ==> |r.value| == size
  {
    var start := (current - 1) * size;
    if start >= |all| then Ok([])
    else if start < 0 then Err(Uncaught("IndexOutOfBoundsException"))
    else if size < 0 then Err(Uncaught("IllegalArgumentException"))
    else Ok(all[start..Min(start + size, |all|)])
  }

  /** The pages tile the results: entry j is on page j / size + 1, at position
      j % size. */
  lemma PagesTile(all: seq<ProjectHit>, size: int, j: nat)
    requires size > 0 && j < |all|
    ensures var page := PageOf(all, j / size + 1, size);
      page.Ok? && j % size < |page.value| && page.value[j % size] == all[j]
  {
    var start := (j / size) * size;
    assert start + j % size == j;
    assert start <= j < start + size;
    assert (j / size + 1 - 1) * size == start;
  }

  /** The total reported for a hybrid page: computed from the page when it is
      short, otherwise the keyword match count. */
  function SearchTotal(current: int, size: int, pageLength: nat, counted: int): int
  {
    if pageLength < size then (current - 1) * size + pageLength else counted
  }

  /** A short, non-empty page ends the results, so its total is the merge's size;
      a page past the end reports its start as the total. */
  lemma ShortPageTotal(all: seq<ProjectHit>, current: int, size: int, counted: int)
    requires current >= 1 && size > 0
    ensures var page := PageOf(all, current, size).value;
      var start := (current - 1) * size;
      (0 < |page| < size ==> SearchTotal(current, size, |page|, counted) == |all|)
      && (start >= |all| ==> SearchTotal(current, size, |page|, counted) == start)
  {
    var start := (current - 1) * size;
    assert start >= 0;
  }

  // ---------------------------------------------------------------------------
  // Completions

  predicate Distinct(s: seq<string>)
  {
    forall k, l :: 0 <= k < l < |s| ==> s[k] != s[l]
  }

  /** `LinkedHashSet.addAll(s)` onto the set `acc`, as a list in insertion order. */
  function AddAll(acc: seq<string>, s: seq<string>): (r: seq<string>)
    ensures |acc| <= |r| && r[..|acc|] == acc
    ensures Distinct(acc) ==> Distinct(r)
    ensures forall x :: x in r <==> x in acc || x in s
    decreases |s|
  {
    if s == [] then acc
    else AddAll(if s[0] in acc then acc else acc + [s[0]], s[1..])
  }

  lemma {:induction false} AddAllAppend(acc: seq<string>, a: seq<string>, b: seq<string>)
    ensures AddAll(acc, a + b) == AddAll(AddAll(acc, a), b)
    decreases |a|
  {
    if a != [] {
      var next := if a[0] in acc then acc else acc + [a[0]];
      assert (a + b)[0] == a[0];
      assert (a + b)[1..] == a[1..] + b;
      assert AddAll(acc, a + b) == AddAll(next, a[1..] + b);
      AddAllAppend(next, a[1..], b);
      assert AddAll(acc, a) == AddAll(next, a[1..]);
    } else {
      assert a + b == b;
    }
  }

  lemma {:induction false} AddAllFresh(acc: seq<string>, s: seq<string>)
    requires Distinct(s) && forall x :: x in s ==> x !in acc
    ensures AddAll(acc, s) == acc + s
    decreases |s|
  {
    if s != [] {
      var next := acc + [s[0]];
      assert s[0] in s;
      AddAllStep(acc, s);
      DistinctTail(s);
      forall x | x in s[1..] ensures x !in next {
        assert x != s[0];
      }
      AddAllFresh(next, s[1..]);
      ConsTail(acc, s);
    }
  }

  /** Adding a new head first, then the rest. */
  lemma AddAllStep(acc: seq<string>, s: seq<string>)
    requires s != [] && s[0] !in acc
    ensures AddAll(acc, s) == AddAll(acc + [s[0]], s[1..])
  {
  }

  lemma ConsTail(acc: seq<string>, s: seq<string>)
    requires s != []
    ensures acc + [s[0]] + s[1..] == acc + s
  {
    assert [s[0]] + s[1..] == s;
  }

  /** The tail of a list without repeats has none, and does not hold its head. */
  lemma DistinctTail(s: seq<string>)
    requires s != [] && Distinct(s)
    ensures Distinct(s[1..]) && s[0] !in s[1..]
  {
    forall k, l | 0 <= k < l < |s| - 1
      ensures s[1..][k] != s[1..][l]
    {
      assert s[1..][k] == s[k + 1] && s[1..][l] == s[l + 1];
    }
    forall k | 0 <= k < |s| - 1
      ensures s[1..][k] != s[0]
    {
      assert s[1..][k] == s[k + 1];
    }
  }

  /** getSuggestions' completion list from the hot-keyword matches and the
      user's own history matches: nothing for a blank prefix; the hot matches
      alone when there is no user or they already fill the limit; else both,
      without repeats. */
  function Completions(prefix: Option<string>, loggedIn: bool, limit: int,
                       hot: seq<string>, history: seq<string>): (r: seq<string>)
    ensures prefix.None? || !HasText(prefix.value) ==> r == []
    ensures forall x :: x in r ==> x in hot || x in history
    ensures forall x :: x in hot && prefix.Some? && HasText(prefix.value) ==> x in r
  {
    if prefix.None? || !HasText(prefix.value) then []
    else if loggedIn && |hot| < limit then AddAll([], hot + history)
    else hot
  }

  /** The hot matches come first, in their order, and on the merging path no
      completion repeats. */
  lemma HotFirst(prefix: Option<string>, loggedIn: bool, limit: int, hot: seq<string>, history: seq<string>)
    requires prefix.Some? && HasText(prefix.value) && Distinct(hot)
    ensures var r := Completions(prefix, loggedIn, limit, hot, history);
      |hot| <= |r| && r[..|hot|] == hot && (loggedIn && |hot| < limit ==> Distinct(r))
  {
    if loggedIn && |hot| < limit {
      AddAllAppend([], hot, history);
      AddAllFresh([], hot);
      assert [] + hot == hot;
    }
  }

  // ---------------------------------------------------------------------------
  // Search history and the search entry point

  datatype HistoryEntry = HistoryEntry(userId: Option<nat>, keyword: string, searchType: string)

  /** What search returns, without the page count (a floating-point ceiling), the
      timing and the related suggestions. */
  datatype SearchResult = SearchResult(projects: seq<ProjectHit>, total: int, searchType: string)

  /** The `search_history` rows and the keywords handed to the database function
      `update_hot_keyword`, whose body is not part of this model. */
  class SearchHistory {
    var entries: seq<HistoryEntry>
    var hotKeywordUpdates: seq<string>

    constructor()
      ensures entries == [] && hotKeywordUpdates == []
    {
      entries := [];
      hotKeywordUpdates := [];
    }

    /** recordSearchHistory: a keyword without text is not recorded; otherwise the
        trimmed keyword is stored and counted. */
    method Record(keyword: Option<string>, userId: Option<nat>, searchType: string)
      modifies this
      ensures keyword.None? || !HasText(keyword.value) ==>
        entries == old(entries) && hotKeywordUpdates == old(hotKeywordUpdates)
      ensures keyword.Some? && HasText(keyword.value) ==>
        entries == old(entries) + [HistoryEntry(userId, Trim(keyword.value), searchType)]
        && hotKeywordUpdates == old(hotKeywordUpdates) + [Trim(keyword.value)]
    {
      if keyword.None? || !HasText(keyword.value) {
        return;
      }
      var trimmed := Trim(keyword.value);
      entries := entries + [HistoryEntry(userId, trimmed, searchType)];
      hotKeywordUpdates := hotKeywordUpdates + [trimmed];
    }
  }

  /** The stored keyword is not empty when the keyword has a character that is
      neither whitespace nor a control character; a keyword of control characters
      alone passes the text check and is stored empty. */
  lemma StoredKeyword(s: string)
    ensures (exists i :: 0 <= i < |s| && !IsWhitespace(s[i]) && s[i] > ' ') ==> Trim(s) != []
    ensures HasText("\U{0}") && Trim("\U{0}") == []
  {
    assert !IsWhitespace("\U{0}"[0]);
  }

  class SearchService {
    const history: SearchHistory

    constructor(history: SearchHistory)
      ensures this.history == history
    {
      this.history := history;
    }

    /** The two loops of hybridSearch and its page; the first loop runs
        matchesFilters as written. */
    method HybridSearch(semantic: seq<ProjectHit>, keyword: seq<ProjectHit>, f: Filter,
                        current: int, size: int) returns (r: Result<seq<ProjectHit>>)
      ensures r == PageOf(Merged(semantic, keyword, f, AsWritten), current, size)
    {
      var merged: seq<ProjectHit> := [];
      var i := 0;
      while i < |semantic|
        invariant 0 <= i <= |semantic|
        invariant merged == PutMatching([], semantic[..i], f, AsWritten)
      {
        assert semantic[..i + 1][..i] == semantic[..i];
        if MatchesFiltersAsWritten(semantic[i], f) {
          merged := Put(merged, semantic[i]);
        }
        i := i + 1;
      }
      assert semantic[..|semantic|] == semantic;
      ghost var first := merged;
      var j := 0;
      while j < |keyword|
        invariant 0 <= j <= |keyword|
        invariant merged == PutAbsent(first, keyword[..j])
      {
        assert keyword[..j + 1][..j] == keyword[..j];
        merged := PutIfAbsent(merged, keyword[j]);
        j := j + 1;
      }
      assert keyword[..|keyword|] == keyword;
      r := PageOf(merged, current, size);
    }

    /** search. The history is recorded first, under the type "keyword" that the
        variable still holds at that point. `semantic` is what semanticSearch
        returned, `keywordPage` the keyword query's page (page 1 of size * 2 for a
        hybrid search), `keywordTotal` its total and `counted` the hybrid count
        query's result. */
    method Search(keyword: Option<string>, userId: Option<nat>, f: Filter, current: int, size: int,
                  embeddingAvailable: bool, semantic: seq<ProjectHit>, keywordPage: seq<ProjectHit>,
                  keywordTotal: int, counted: int) returns (r: Result<SearchResult>)
      modifies history
      ensures keyword.None? || !HasText(keyword.value) ==>
        history.entries == old(history.entries) && history.hotKeywordUpdates == old(history.hotKeywordUpdates)
      ensures keyword.Some? && HasText(keyword.value) ==>
        history.entries == old(history.entries) + [HistoryEntry(userId, Trim(keyword.value), "keyword")]
        && history.hotKeywordUpdates == old(history.hotKeywordUpdates) + [Trim(keyword.value)]
      ensures !UseHybrid(embeddingAvailable, keyword) ==> r == Ok(SearchResult(keywordPage, keywordTotal, "keyword"))
      ensures UseHybrid(embeddingAvailable, keyword) ==>
        var page := PageOf(Merged(semantic, keywordPage, f, AsWritten), current, size);
        (r.Ok? <==> page.Ok?)
        && (r.Err? ==> r.error == page.error)
        && (r.Ok? ==> r.value == SearchResult(page.value, SearchTotal(current, size, |page.value|, counted), "hybrid"))
    {
      history.Record(keyword, userId, "keyword");
      if UseHybrid(embeddingAvailable, keyword) {
        var page := HybridSearch(semantic, keywordPage, f, current, size);
        if page.Err? {
          return Err(page.error);
        }
        r := Ok(SearchResult(page.value, SearchTotal(current, size, |page.value|, counted), "hybrid"));
      } else {
        r := Ok(SearchResult(keywordPage, keywordTotal, "keyword"));
      }
    }
  }
}
