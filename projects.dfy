/** The project service: an employer creates a project (as a draft or open for
    bids), edits it while it is DRAFT or OPEN, deletes or publishes a draft,
    closes an open project; viewing the detail page counts a view. The category
    tree is built from the flat category list. */
module Projects {

  import opened Wrappers
  import P = ProjectEntity
  import opened Tables
  import opened Text

  /** The fields of an update request; each is absent when not supplied. */
  datatype ProjectEdit = ProjectEdit(
    title: Option<string>,
    description: Option<string>,
    categoryId: Option<int>,
    budgetMin: Option<real>,
    budgetMax: Option<real>,
    deadline: Option<int>,
    skillRequirements: Option<seq<string>>,
    attachmentUrls: Option<seq<string>>)

  const NoEdit := ProjectEdit(None, None, None, None, None, None, None, None)

  /** The bean-validation constraints of the update request. */
  predicate ValidEdit(e: ProjectEdit)
  {
    (e.title.Some? ==> JavaLength(e.title.value) <= 200)
    && (e.description.Some? ==> JavaLength(e.description.value) >= 50)
    && (e.budgetMin.Some? ==> e.budgetMin.value >= 100.0)
  }

  /** A supplied value replaces the stored one. */
  function OrKeep<V>(o: Option<V>, v: V): (r: V)
    ensures o.None? ==> r == v
    ensures o.Some? ==> r == o.value
  {
    if o.Some? then o.value else v
  }

  /** A supplied text replaces the stored one only when it has text. */
  function TextOrKeep(o: Option<string>, v: string): (r: string)
    ensures (o.Some? && HasText(o.value)) ==> r == o.value
    ensures !(o.Some? && HasText(o.value)) ==> r == v
  {
    if o.Some? && HasText(o.value) then o.value else v
  }

  /** updateProject's field copy. The owner, status, counters and liveness are
      never touched, and a request with nothing in it changes nothing. */
  function Edited(p: P.Project, e: ProjectEdit): (r: P.Project)
    ensures r.userId == p.userId && r.status == p.status && r.viewCount == p.viewCount
            && r.bidCount == p.bidCount && r.deleted == p.deleted && r.removed == p.removed
    ensures e == NoEdit ==> r == p
  {
    p.(title := TextOrKeep(e.title, p.title),
       description := TextOrKeep(e.description, p.description),
       categoryId := OrKeep(e.categoryId, p.categoryId),
       budgetMin := OrKeep(e.budgetMin, p.budgetMin),
       budgetMax := OrKeep(e.budgetMax, p.budgetMax),
       deadline := OrKeep(e.deadline, p.deadline),
       skillRequirements := OrKeep(e.skillRequirements, p.skillRequirements),
       attachmentUrls := if e.attachmentUrls.Some? then Some(e.attachmentUrls.value) else p.attachmentUrls)
  }

  /** Applying the same edit twice is the same as applying it once. */
  lemma EditedIdempotent(p: P.Project, e: ProjectEdit)
    ensures Edited(Edited(p, e), e) == Edited(p, e)
  {
  }

  /** Unlike createProject, updateProject does not compare the two budget
      bounds: lowering only the maximum below the stored minimum is accepted. */
  lemma EditCanInvertBudget(p: P.Project)
    requires p.budgetMin == 200.0
    ensures var e := NoEdit.(budgetMax := Some(150.0));
      ValidEdit(e) && Edited(p, e).budgetMax < Edited(p, e).budgetMin
  {
  }

  /** The row createProject inserts: DRAFT exactly when `draft` is true, else
      OPEN; both counters at 0. */
  function NewProject(owner: nat, title: string, description: string, categoryId: int,
                      budgetMin: real, budgetMax: real, deadline: int,
                      skillRequirements: seq<string>, attachmentUrls: Option<seq<string>>,
                      draft: Option<bool>): (r: P.Project)
    ensures r.userId == owner && !r.deleted && !r.removed
    ensures r.status == (if draft == Some(true) then P.Draft else P.Open)
    ensures r.viewCount == 0 && r.bidCount == 0
    ensures r.title == title && r.description == description && r.budgetMin == budgetMin && r.budgetMax == budgetMax
  {
    P.Project(owner, title, description, categoryId, budgetMin, budgetMax, deadline,
              skillRequirements, attachmentUrls, if draft == Some(true) then P.Draft else P.Open, 0, 0, false, false)
  }

  /** One `category` row as findAll returns it. */
  datatype Category = Category(id: int, name: string, parentId: int, icon: Option<string>, sort: int)

  /** One node of the category tree. */
  datatype CategoryNode = CategoryNode(category: Category, children: seq<CategoryNode>)

  /** groupingBy(parentId).get(parentId): the categories under `parentId`, in
      input order. */
  function ChildrenOf(cats: seq<Category>, parentId: int): (r: seq<Category>)
    ensures forall i :: 0 <= i < |r| ==> r[i].parentId == parentId
    ensures forall c :: c in r <==> c in cats && c.parentId == parentId
  {
    if cats == [] then []
    else if cats[0].parentId == parentId then [cats[0]] + ChildrenOf(cats[1..], parentId)
    else ChildrenOf(cats[1..], parentId)
  }

  /** A category list contributes its children in order: the children of a
      concatenation are the children of each part, concatenated. */
  lemma {:induction false} ChildrenOfAppend(a: seq<Category>, b: seq<Category>, parentId: int)
    ensures ChildrenOf(a + b, parentId) == ChildrenOf(a, parentId) + ChildrenOf(b, parentId)
  {
    if a == [] {
      assert a + b == b;
    } else {
      assert (a + b)[1..] == a[1..] + b;
      ChildrenOfAppend(a[1..], b, parentId);
    }
  }

  /** buildCategoryTree(groupByParent, parentId), down to `fuel` levels. The source
      has no such bound; CategoryTreeComplete shows the bound |cats| + 1 loses no
      category that a chain of parent links reaches. */
  function BuildTree(cats: seq<Category>, parentId: int, fuel: nat): (r: seq<CategoryNode>)
    decreases fuel
  {
    if fuel == 0 then []
    else
      var kids := ChildrenOf(cats, parentId);
      seq(|kids|, i requires 0 <= i < |kids| => CategoryNode(kids[i], BuildTree(cats, kids[i].id, fuel - 1)))
  }

  /** Every node's children name it as their parent. */
  predicate Placed(n: CategoryNode)
    decreases n
  {
    forall k :: 0 <= k < |n.children| ==> n.children[k].category.parentId == n.category.id && Placed(n.children[k])
  }

  /** Every node of a forest sits under `parentId`, and is placed below. */
  predicate AllPlaced(ns: seq<CategoryNode>, parentId: int)
  {
    forall i :: 0 <= i < |ns| ==> ns[i].category.parentId == parentId && Placed(ns[i])
  }

  /** Each node the builder makes sits under its parentId, all the way down. */
  lemma {:induction false} BuildTreePlaced(cats: seq<Category>, parentId: int, fuel: nat)
    ensures AllPlaced(BuildTree(cats, parentId, fuel), parentId)
    decreases fuel
  {
    if fuel > 0 {
      var r := BuildTree(cats, parentId, fuel);
      forall i | 0 <= i < |r|
        ensures r[i].category.parentId == parentId && Placed(r[i])
      {
        var c := BuildTreeNode(cats, parentId, fuel, i);
        BuildTreePlaced(cats, c.id, fuel - 1);
        PlacedNode(c, BuildTree(cats, c.id, fuel - 1));
      }
    }
  }

  /** The i-th node the builder makes: the i-th child category, with the forest
      built one level further down below it. */
  lemma BuildTreeNode(cats: seq<Category>, parentId: int, fuel: nat, i: int) returns (c: Category)
    requires fuel > 0 && 0 <= i < |BuildTree(cats, parentId, fuel)|
    ensures c.parentId == parentId && c in cats
    ensures BuildTree(cats, parentId, fuel)[i] == CategoryNode(c, BuildTree(cats, c.id, fuel - 1))
  {
    var kids := ChildrenOf(cats, parentId);
    c := kids[i];
  }

  /** A node whose forest sits under it and is placed below is placed. */
  lemma PlacedNode(c: Category, ch: seq<CategoryNode>)
    requires AllPlaced(ch, c.id)
    ensures Placed(CategoryNode(c, ch))
  {
  }

  /** getAllCategories: the tree rooted at parentId 0. A parent chain can be at
      most |cats| long without a cycle, so |cats| + 1 levels reach every
      category below a root (CategoryTreeComplete). */
  function CategoryTree(cats: seq<Category>): (r: seq<CategoryNode>)
    ensures AllPlaced(r, 0)
    ensures |r| == |ChildrenOf(cats, 0)|
  {
    BuildTreePlaced(cats, 0, |cats| + 1);
    BuildTree(cats, 0, |cats| + 1)
  }

  /** A chain of category rows below `parentId`, given by their positions: the
      first names parentId as its parent, and each next one names the one
      before it. */
  predicate ChainFrom(cats: seq<Category>, parentId: int, path: seq<nat>)
  {
    |path| > 0 && (forall k :: 0 <= k < |path| ==> path[k] < |cats|)
    && cats[path[0]].parentId == parentId
    && (forall k :: 0 < k < |path| ==> cats[path[k]].parentId == cats[path[k - 1]].id)
  }

  /** The category appears somewhere in the forest. */
  predicate InForest(ns: seq<CategoryNode>, c: Category)
    decreases ns
  {
    exists k :: 0 <= k < |ns| && (ns[k].category == c || InForest(ns[k].children, c))
  }

  /** The tree holds exactly the categories a chain from the root reaches: every
      node is such a category, and the depth bound cuts none of them off. */
  lemma CategoryTreeComplete(cats: seq<Category>, c: Category)
    ensures InForest(CategoryTree(cats), c) <==>
      exists path :: ChainFrom(cats, 0, path) && cats[path[|path| - 1]] == c
  {
    if InForest(CategoryTree(cats), c) {
      var path := TreeNodeHasChain(cats, 0, |cats| + 1, c);
    }
    if exists path :: ChainFrom(cats, 0, path) && cats[path[|path| - 1]] == c {
      var path :| ChainFrom(cats, 0, path) && cats[path[|path| - 1]] == c;
      var q := ShortestChain(cats, 0, path);
      DistinctBelow(q, |cats|);
      ChainInTree(cats, 0, q, |cats| + 1);
    }
  }

  /** Every node the builder makes ends a chain below parentId no longer than
      the depth bound. */
  lemma {:induction false} TreeNodeHasChain(cats: seq<Category>, parentId: int, fuel: nat, c: Category)
    returns (path: seq<nat>)
    requires InForest(BuildTree(cats, parentId, fuel), c)
    ensures ChainFrom(cats, parentId, path) && cats[path[|path| - 1]] == c && |path| <= fuel
    decreases fuel
  {
    var d, i, deeper := PickNode(cats, parentId, fuel, c);
    if deeper {
      var rest := TreeNodeHasChain(cats, d.id, fuel - 1, c);
      path := ConsChain(cats, parentId, i, rest);
    } else {
      path := [i];
    }
  }

  /** A category in the built forest is one of the top nodes, row i of the table,
      or lies in the forest built below one of them. */
  lemma PickNode(cats: seq<Category>, parentId: int, fuel: nat, c: Category) returns (d: Category, i: nat, deeper: bool)
    requires InForest(BuildTree(cats, parentId, fuel), c)
    ensures fuel > 0 && i < |cats| && cats[i] == d && d.parentId == parentId
    ensures !deeper ==> d == c
    ensures deeper ==> InForest(BuildTree(cats, d.id, fuel - 1), c)
  {
    var t := BuildTree(cats, parentId, fuel);
    var k :| 0 <= k < |t| && (t[k].category == c || InForest(t[k].children, c));
    d := BuildTreeNode(cats, parentId, fuel, k);
    i :| i < |cats| && cats[i] == d;
    deeper := t[k].category != c;
  }

  /** A row under parentId followed by a chain below it is a chain below parentId. */
  lemma ConsChain(cats: seq<Category>, parentId: int, i: nat, rest: seq<nat>) returns (path: seq<nat>)
    requires i < |cats| && cats[i].parentId == parentId && ChainFrom(cats, cats[i].id, rest)
    ensures path == [i] + rest
    ensures ChainFrom(cats, parentId, path) && path[|path| - 1] == rest[|rest| - 1] && |path| == |rest| + 1
  {
    path := [i] + rest;
    forall j | 0 < j < |path|
      ensures cats[path[j]].parentId == cats[path[j - 1]].id
    {
      assert path[j] == rest[j - 1];
      if j > 1 {
        assert path[j - 1] == rest[j - 2];
      }
    }
  }

  /** The last category of a chain of at most `fuel` rows below parentId appears
      in the forest built down to `fuel` levels. */
  lemma {:induction false} ChainInTree(cats: seq<Category>, parentId: int, path: seq<nat>, fuel: nat)
    requires ChainFrom(cats, parentId, path) && |path| <= fuel
    ensures InForest(BuildTree(cats, parentId, fuel), cats[path[|path| - 1]])
    decreases |path|
  {
    var c := cats[path[0]];
    var kids := ChildrenOf(cats, parentId);
    assert c in kids;
    var j :| 0 <= j < |kids| && kids[j] == c;
    var t := BuildTree(cats, parentId, fuel);
    var d := BuildTreeNode(cats, parentId, fuel, j);
    if |path| == 1 {
      assert t[j].category == cats[path[|path| - 1]];
    } else {
      var rest := path[1..];
      forall k | 0 < k < |rest|
        ensures cats[rest[k]].parentId == cats[rest[k - 1]].id
      {
        assert rest[k] == path[k + 1] && rest[k - 1] == path[k];
      }
      assert ChainFrom(cats, c.id, rest);
      ChainInTree(cats, c.id, rest, fuel - 1);
      assert rest[|rest| - 1] == path[|path| - 1];
      assert InForest(t[j].children, cats[path[|path| - 1]]);
    }
  }

  /** A chain that visits a row twice can skip the loop between the visits, so
      every chain's end is also the end of a chain without repeats. */
  lemma {:induction false} ShortestChain(cats: seq<Category>, parentId: int, path: seq<nat>) returns (q: seq<nat>)
    requires ChainFrom(cats, parentId, path)
    ensures ChainFrom(cats, parentId, q) && q[|q| - 1] == path[|path| - 1] && |q| <= |path|
    ensures forall k, l :: 0 <= k < l < |q| ==> q[k] != q[l]
    decreases |path|
  {
    if exists k, l :: 0 <= k < l < |path| && path[k] == path[l] {
      var k, l :| 0 <= k < l < |path| && path[k] == path[l];
      var shorter := SkipLoop(cats, parentId, path, k, l);
      q := ShortestChain(cats, parentId, shorter);
    } else {
      q := path;
    }
  }

  /** Skipping the rows after the first of two visits to one row, up to the
      second visit, leaves a shorter chain with the same end. */
  lemma SkipLoop(cats: seq<Category>, parentId: int, path: seq<nat>, k: nat, l: nat) returns (shorter: seq<nat>)
    requires ChainFrom(cats, parentId, path) && k < l < |path| && path[k] == path[l]
    ensures ChainFrom(cats, parentId, shorter) && shorter[|shorter| - 1] == path[|path| - 1]
    ensures |shorter| < |path|
  {
    shorter := path[..k] + path[l..];
    assert |shorter| == |path| - (l - k);
    forall m | 0 <= m < |shorter|
      ensures shorter[m] == if m < k then path[m] else path[m - k + l]
    {
    }
    forall m | 0 < m < |shorter|
      ensures cats[shorter[m]].parentId == cats[shorter[m - 1]].id
    {
      if m > k {
        assert shorter[m - 1] == path[m - 1 - k + l];
      } else if m == k {
        assert shorter[m] == path[k];
      }
    }
    assert cats[shorter[0]].parentId == parentId by {
      if k == 0 {
        assert shorter[0] == path[l];
      }
    }
  }

  /** A list of distinct positions below n is at most n long. */
  lemma {:induction false} DistinctBelow(q: seq<nat>, n: nat)
    requires forall k :: 0 <= k < |q| ==> q[k] < n
    requires forall k, l :: 0 <= k < l < |q| ==> q[k] != q[l]
    ensures |q| <= n
    decreases n
  {
    if |q| > 0 {
      assert q[0] < n;
    }
    if n > 0 {
      if exists k :: 0 <= k < |q| && q[k] == n - 1 {
        var k :| 0 <= k < |q| && q[k] == n - 1;
        var rest := q[..k] + q[k + 1..];
        assert |rest| == |q| - 1;
        forall m | 0 <= m < |rest|
          ensures rest[m] == q[if m < k then m else m + 1]
        {
        }
        assert forall m :: 0 <= m < |rest| ==> rest[m] < n - 1;
        DistinctBelow(rest, n - 1);
      } else {
        assert forall m :: 0 <= m < |q| ==> q[m] < n - 1;
        DistinctBelow(q, n - 1);
      }
    }
  }

  lemma CategoryTreeExample()
    ensures var a := Category(1, "开发", 0, None, 1);
            var b := Category(2, "设计", 0, None, 2);
            var c := Category(3, "前端", 1, None, 1);
            var t := CategoryTree([a, b, c]);
            |t| == 2 && t[0].category == a && t[1].category == b
            && |t[0].children| == 1 && t[0].children[0].category == c
  {
    var a := Category(1, "开发", 0, None, 1);
    var b := Category(2, "设计", 0, None, 2);
    var c := Category(3, "前端", 1, None, 1);
    var cats := [a, b, c];
    assert ChildrenOf(cats, 0) == [a, b] by {
      assert cats[1..] == [b, c] && cats[1..][1..] == [c] && [c][1..] == [];
      assert ChildrenOf([c], 0) == [];
      assert ChildrenOf([b, c], 0) == [b];
    }
    assert ChildrenOf(cats, 1) == [c] by {
      assert cats[1..] == [b, c] && cats[1..][1..] == [c] && [c][1..] == [];
      assert ChildrenOf([c], 1) == [c];
      assert ChildrenOf([b, c], 1) == [c];
    }
    var sub := BuildTree(cats, 1, 3);
    assert |sub| == 1 && sub[0].category == c;
    var t := BuildTree(cats, 0, 4);
    assert |t| == 2 && t[0] == CategoryNode(a, sub) && t[1].category == b;
  }

  class ProjectService {
    const projects: ProjectRepository

    ghost predicate Valid()
      reads this, projects
    {
      projects.Valid()
    }

    constructor(projects: ProjectRepository)
      requires projects.Valid()
      ensures this.projects == projects && Valid()
    {
      this.projects := projects;
    }

    /** createProject by `actor`. The request is validated before the call: a
        title with text of at most 200 UTF-16 units, a description with text of
        at least 50, a minimum budget of at least 100, some skills. */
    method CreateProject(actor: nat, title: string, description: string, categoryId: int,
                         budgetMin: real, budgetMax: real, deadline: int,
                         skillRequirements: seq<string>, attachmentUrls: Option<seq<string>>,
                         draft: Option<bool>) returns (r: Result<nat>)
      requires Valid()
      requires NotBlank(title) && JavaLength(title) <= 200 && NotBlank(description) && JavaLength(description) >= 50
      requires budgetMin >= 100.0 && |skillRequirements| > 0
      modifies projects
      ensures Valid()
      ensures r.Ok? <==> budgetMax >= budgetMin
      ensures r.Err? ==> r.error == BadRequest && projects.rows == old(projects.rows)
      ensures r.Ok? ==>
        r.value == |old(projects.rows)|
        && projects.rows == old(projects.rows)
           + [NewProject(actor, title, description, categoryId, budgetMin, budgetMax, deadline,
                         skillRequirements, attachmentUrls, draft)]
    {
      if budgetMax < budgetMin {
        return Err(BadRequest);
      }
      var id := |projects.rows|;
      projects.rows := projects.rows + [NewProject(actor, title, description, categoryId, budgetMin, budgetMax, deadline,
                                                   skillRequirements, attachmentUrls, draft)];
      r := Ok(id);
    }

    /** updateProject: the owner edits a DRAFT or OPEN project. */
    method UpdateProject(actor: nat, id: nat, e: ProjectEdit) returns (r: Result<P.Project>)
      requires Valid() && ValidEdit(e)
      modifies projects
      ensures Valid()
      ensures r.Ok? <==>
        LiveProject(old(projects.rows), id) && old(projects.rows)[id].userId == actor
        && old(projects.rows)[id].status in {P.Draft, P.Open}
      ensures r.Err? ==> projects.rows == old(projects.rows)
      ensures r.Err? ==>
        r.error == if !LiveProject(old(projects.rows), id) then ProjectNotFound
                   else if old(projects.rows)[id].userId != actor then Forbidden
                   else InvalidProjectStatus
      ensures r.Ok? ==> r.value == Edited(old(projects.rows)[id], e) && projects.rows == old(projects.rows)[id := r.value]
    {
      if !LiveProject(projects.rows, id) {
        return Err(ProjectNotFound);
      }
      var project := projects.rows[id];
      if project.userId != actor {
        return Err(Forbidden);
      }
      if project.status != P.Draft && project.status != P.Open {
        return Err(InvalidProjectStatus);
      }
      var edited := Edited(project, e);
      projects.rows := projects.rows[id := edited];
      r := Ok(edited);
    }

    /** The checks deleteProject and publishProject share: a live project of the
        actor's in DRAFT. */
    method CheckOwnDraft(actor: nat, id: nat) returns (r: Option<ErrorCode>)
      ensures r.None? <==>
        LiveProject(projects.rows, id) && projects.rows[id].userId == actor && projects.rows[id].status == P.Draft
      ensures r.Some? ==>
        r.value == if !LiveProject(projects.rows, id) then ProjectNotFound
                   else if projects.rows[id].userId != actor then Forbidden
                   else InvalidProjectStatus
    {
      if !LiveProject(projects.rows, id) {
        return Some(ProjectNotFound);
      }
      if projects.rows[id].userId != actor {
        return Some(Forbidden);
      }
      if projects.rows[id].status != P.Draft {
        return Some(InvalidProjectStatus);
      }
      r := None;
    }

    /** deleteProject: the owner deletes a DRAFT project. deleteById removes the
        row, so selectById finds it no more: the slot stays, marked removed. */
    method DeleteProject(actor: nat, id: nat) returns (r: Result<()>)
      requires Valid()
      modifies projects
      ensures Valid()
      ensures r.Ok? <==>
        LiveProject(old(projects.rows), id) && old(projects.rows)[id].userId == actor
        && old(projects.rows)[id].status == P.Draft
      ensures r.Err? ==> projects.rows == old(projects.rows)
      ensures r.Err? ==>
        r.error == if !LiveProject(old(projects.rows), id) then ProjectNotFound
                   else if old(projects.rows)[id].userId != actor then Forbidden
                   else InvalidProjectStatus
      ensures r.Ok? ==> projects.rows == old(projects.rows)[id := old(projects.rows)[id].(removed := true)]
                        && !FoundProject(projects.rows, id) && !LiveProject(projects.rows, id)
    {
      var failure := CheckOwnDraft(actor, id);
      if failure.Some? {
        return Err(failure.value);
      }
      projects.rows := projects.rows[id := projects.rows[id].(removed := true)];
      r := Ok(());
    }

    /** publishProject: the owner opens a DRAFT project for bids. */
    method PublishProject(actor: nat, id: nat) returns (r: Result<P.Project>)
      requires Valid()
      modifies projects
      ensures Valid()
      ensures r.Ok? <==>
        LiveProject(old(projects.rows), id) && old(projects.rows)[id].userId == actor
        && old(projects.rows)[id].status == P.Draft
      ensures r.Err? ==> projects.rows == old(projects.rows)
      ensures r.Err? ==>
        r.error == if !LiveProject(old(projects.rows), id) then ProjectNotFound
                   else if old(projects.rows)[id].userId != actor then Forbidden
                   else InvalidProjectStatus
      ensures r.Ok? ==> r.value == old(projects.rows)[id].(status := P.Open) && projects.rows == old(projects.rows)[id := r.value]
    {
      var failure := CheckOwnDraft(actor, id);
      if failure.Some? {
        return Err(failure.value);
      }
      var published := projects.rows[id].(status := P.Open);
      projects.rows := projects.rows[id := published];
      r := Ok(published);
    }

    /** closeProject: the owner closes an OPEN project. */
    method CloseProject(actor: nat, id: nat) returns (r: Result<()>)
      requires Valid()
      modifies projects
      ensures Valid()
      ensures r.Ok? <==>
        LiveProject(old(projects.rows), id) && old(projects.rows)[id].userId == actor
        && old(projects.rows)[id].status == P.Open
      ensures r.Err? ==> projects.rows == old(projects.rows)
      ensures r.Err? ==>
        r.error == if !LiveProject(old(projects.rows), id) then ProjectNotFound
                   else if old(projects.rows)[id].userId != actor then Forbidden
                   else InvalidProjectStatus
      ensures r.Ok? ==> projects.rows == old(projects.rows)[id := old(projects.rows)[id].(status := P.Closed)]
    {
      if !LiveProject(projects.rows, id) {
        return Err(ProjectNotFound);
      }
      var project := projects.rows[id];
      if project.userId != actor {
        return Err(Forbidden);
      }
      if project.status != P.Open {
        return Err(InvalidProjectStatus);
      }
      projects.rows := projects.rows[id := project.(status := P.Closed)];
      r := Ok(());
    }

    /** getProjectDetail: any live project can be viewed, by anyone; the stored
        view count and the one shown both go up by exactly one. */
    method GetProjectDetail(id: nat) returns (r: Result<P.Project>)
      requires Valid()
      modifies projects
      ensures Valid()
      ensures r.Ok? <==> LiveProject(old(projects.rows), id)
      ensures r.Err? ==> r.error == ProjectNotFound && projects.rows == old(projects.rows)
      ensures r.Ok? ==>
        r.value == old(projects.rows)[id].(viewCount := old(projects.rows)[id].viewCount + 1)
        && projects.rows == old(projects.rows)[id := r.value]
    {
      if !LiveProject(projects.rows, id) {
        return Err(ProjectNotFound);
      }
      var project := projects.rows[id];
      projects.IncrementViewCount(id);
      r := Ok(project.(viewCount := project.viewCount + 1));
    }
  }
}
