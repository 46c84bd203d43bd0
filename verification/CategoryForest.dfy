/**
 Categories under built-in or same-workspace parents.  The check against cycles walks the ancestors
 of the new parent, and that walk ends only because there has never been a cycle.
 */
module CategoryForest {
  import opened Outcomes

  /** `workspace` is None for a built-in category. */
  datatype Category = Category(workspace: Option<nat>, parent: Option<nat>, active: bool)

  type Categories = map<nat, Category>

  datatype CategoryError = NotFound | SelfParent | ParentNotVisible | WouldCycle | StillReferenced | IdTaken

  /** `parent` is None when the update leaves the parent alone. */
  datatype Change = Change(parent: Option<Option<nat>>, active: Option<bool>)

  // ---- the forest ----

  /** Parents exist and lie strictly lower. */
  ghost predicate Ranked(c: Categories, rank: map<nat, nat>) {
    && rank.Keys == c.Keys
    && forall x :: x in c && c[x].parent.Some? ==> c[x].parent.value in c && rank[c[x].parent.value] < rank[x]
  }

  /** A built-in has a built-in parent; a workspace category's parent is built in or its own workspace's. */
  ghost predicate Scoped(c: Categories) {
    forall x :: x in c && c[x].parent.Some? && c[x].parent.value in c ==>
      c[c[x].parent.value].workspace.None? || c[c[x].parent.value].workspace == c[x].workspace
  }

  ghost predicate Forest(c: Categories) {
    Scoped(c) && exists rank :: Ranked(c, rank)
  }

  /** Child to parent, step by step. */
  ghost predicate Path(c: Categories, p: seq<nat>) {
    p != [] && (forall i :: 0 <= i < |p| ==> p[i] in c) && forall i :: 0 <= i < |p| - 1 ==>
        c[p[i]].parent == Some(p[i + 1])
  }

  ghost predicate Acyclic(c: Categories) {
    forall p :: Path(c, p) && |p| > 1 ==> p[0] != p[|p| - 1]
  }

  /** `a` is `x` or one of its ancestors. */
  ghost predicate Ancestor(c: Categories, a: nat, x: nat) {
    exists p :: Path(c, p) && p[0] == x && p[|p| - 1] == a
  }

  lemma {:induction false} PathDescends(c: Categories, rank: map<nat, nat>, p: seq<nat>)
    requires Ranked(c, rank) && Path(c, p)
    ensures rank[p[|p| - 1]] + |p| - 1 <= rank[p[0]]
  {
    if |p| > 1 {
      PathTail(c, p);
      PathDescends(c, rank, p[1..]);
    }
  }

  lemma PathTail(c: Categories, p: seq<nat>)
    requires Path(c, p) && |p| > 1
    ensures Path(c, p[1..]) && c[p[0]].parent == Some(p[1]) && p[1..][|p[1..]| - 1] == p[|p| - 1]
  {
    forall i | 0 <= i < |p[1..]| - 1
      ensures c[p[1..][i]].parent == Some(p[1..][i + 1])
    {
      assert c[p[i + 1]].parent == Some(p[i + 2]);
    }
  }

  /** A forest has no cycle. */
  lemma ForestIsAcyclic(c: Categories)
    requires Forest(c)
    ensures Acyclic(c)
  {
    var rank :| Ranked(c, rank);
    forall p | Path(c, p) && |p| > 1
      ensures p[0] != p[|p| - 1]
    {
      PathDescends(c, rank, p);
    }
  }

  /** One step of the walk. */
  lemma AncestorStep(c: Categories, a: nat, x: nat)
    requires x in c
    ensures Ancestor(c, a, x)
            <==> x == a || (c[x].parent.Some? && c[x].parent.value in c && Ancestor(c, a, c[x].parent.value))
  {
    if x == a {
      assert Path(c, [x]) && [x][|[x]| - 1] == a;
    }
    if c[x].parent.Some? && Ancestor(c, a, c[x].parent.value) {
      var p :| Path(c, p) && p[0] == c[x].parent.value && p[|p| - 1] == a;
      assert ([x] + p)[0] == x && ([x] + p)[|[x] + p| - 1] == a;
    }
    if Ancestor(c, a, x) && x != a {
      var p :| Path(c, p) && p[0] == x && p[|p| - 1] == a;
      PathTail(c, p);
      assert p[1..][0] == c[x].parent.value;
    }
  }

  // ---- moving a category ----

  function Moved(c: Categories, x: nat, parent: Option<nat>): Categories
    requires x in c
  {
    c[x := c[x].(parent := parent)]
  }

  /** Ranks after a move: the moved subtree is lifted above its new parent. */
  lemma MoveIsRanked(c: Categories, rank: map<nat, nat>, x: nat, parent: nat) returns (lifted: map<nat, nat>)
    requires Ranked(c, rank) && x in c && parent in c && !Ancestor(c, x, parent)
    ensures Ranked(Moved(c, x, Some(parent)), lifted)
  {
    lifted := map y | y in c :: if Ancestor(c, x, y) then rank[y] + rank[parent] + 1 else rank[y];
    var moved := Moved(c, x, Some(parent));
    forall y | y in moved && moved[y].parent.Some?
      ensures moved[y].parent.value in moved && lifted[moved[y].parent.value] < lifted[y]
    {
      AncestorStep(c, x, y);
    }
  }

  /** The first time a path reaches `x`. */
  lemma {:induction false} FirstArrival(c: Categories, x: nat, p: seq<nat>) returns (q: seq<nat>)
    requires Path(c, p) && p[|p| - 1] == x
    ensures Path(c, q) && q[0] == p[0] && q[|q| - 1] == x && forall i :: 0 <= i < |q| - 1 ==> q[i] != x
  {
    if p[0] == x {
      q := [x];
    } else {
      PathTail(c, p);
      var rest := FirstArrival(c, x, p[1..]);
      q := [p[0]] + rest;
    }
  }

  /** A move closes a cycle exactly when the new parent already descends from the moved category. */
  lemma MoveClosesCycle(c: Categories, x: nat, parent: nat)
    requires Forest(c) && x in c && parent in c
    ensures Acyclic(Moved(c, x, Some(parent))) <==> !Ancestor(c, x, parent)
  {
    var moved := Moved(c, x, Some(parent));
    if Ancestor(c, x, parent) {
      var p :| Path(c, p) && p[0] == parent && p[|p| - 1] == x;
      var q := FirstArrival(c, x, p);
      var cycle := [x] + q;
      assert Path(moved, cycle) && |cycle| > 1 && cycle[0] == cycle[|cycle| - 1];
    } else {
      var rank :| Ranked(c, rank);
      var lifted := MoveIsRanked(c, rank, x, parent);
      forall p | Path(moved, p) && |p| > 1
        ensures p[0] != p[|p| - 1]
      {
        PathDescends(moved, lifted, p);
      }
    }
  }

  // ---- the operations ----

  predicate Visible(c: Categories, workspace: nat, id: nat) {
    id in c && c[id].active && (c[id].workspace.None? || c[id].workspace == Some(workspace))
  }

  /** createCategory with the identifier it draws. */
  function Created(c: Categories, workspace: nat, id: nat, parent: Option<nat>): Result<Categories, CategoryError> {
    if parent.Some? && !Visible(c, workspace, parent.value) then Err(ParentNotVisible)
    else if id in c then Err(IdTaken)
    else Ok(c[id := Category(Some(workspace), parent, true)])
  }

  predicate HasActiveChild(c: Categories, id: nat) {
    exists x :: x in c && c[x].parent == Some(id) && c[x].active
  }

  ghost function ParentError(c: Categories, workspace: nat, id: nat,
                             parent: Option<Option<nat>>): Option<CategoryError> {
    match parent
    case None => None
    case Some(None) => None
    case Some(Some(p)) =>
      if p == id then Some(SelfParent)
      else if !Visible(c, workspace, p) then Some(ParentNotVisible)
      else if Ancestor(c, id, p) then Some(WouldCycle)
      else None
  }

  function Applied(old': Category, change: Change): Category {
    old'.(parent := if change.parent.Some? then change.parent.value else old'.parent,
          active := if change.active.Some? then change.active.value else old'.active)
  }

  /** updateCategory; `referenced` says whether a merchant or an active rule names the category. */
  ghost function Updated(c: Categories, workspace: nat, id: nat, change: Change,
                         referenced: bool): Result<Categories, CategoryError> {
    if id !in c || c[id].workspace != Some(workspace) then Err(NotFound)
    else
      var error := ParentError(c, workspace, id, change.parent);
      if error.Some? then Err(error.value)
      else if change.active == Some(false) && (HasActiveChild(c, id) || referenced) then Err(StillReferenced)
      else Ok(c[id := Applied(c[id], change)])
  }

  /** An accepted update leaves a forest. */
  lemma UpdateIsRanked(c: Categories, rank: map<nat, nat>, workspace: nat, id: nat, change: Change, referenced: bool)
    returns (lifted: map<nat, nat>)
    requires Ranked(c, rank) && Scoped(c) && Updated(c, workspace, id, change, referenced).Ok?
    ensures Ranked(Updated(c, workspace, id, change, referenced).value, lifted)
    ensures Scoped(Updated(c, workspace, id, change, referenced).value)
  {
    var after := Updated(c, workspace, id, change, referenced).value;
    lifted := rank;
    if change.parent.Some? && change.parent.value.Some? {
      lifted := MoveIsRanked(c, rank, id, change.parent.value.value);
      var moved := Moved(c, id, change.parent.value);
      assert forall x :: x in after ==> after[x].parent == moved[x].parent;
    }
  }

  class CategoryRepository {
    var categories: Categories
    ghost var rank: map<nat, nat>

    ghost predicate Valid()
      reads this
    {
      Ranked(categories, rank) && Scoped(categories)
    }

    /** The recursive query: is `id` the parent or one of its ancestors? */
    method ClosesCycle(id: nat, parent: nat) returns (found: bool)
      requires Valid() && parent in categories
      ensures found <==> Ancestor(categories, id, parent)
    {
      var current := Some(parent);
      found := false;
      while current.Some?
        invariant current.Some? ==> current.value in categories
        invariant Ancestor(categories, id, parent)
                  <==> found || (current.Some? && Ancestor(categories, id, current.value))
        decreases if current.Some? then rank[current.value] + 1 else 0
      {
        AncestorStep(categories, id, current.value);
        if current.value == id {
          found := true;
        }
        current := categories[current.value].parent;
      }
    }

    method CreateCategory(workspace: nat, id: nat, parent: Option<nat>) returns (r: Result<(), CategoryError>)
      requires Valid()
      modifies this
      ensures Valid()
      ensures match Created(old(categories), workspace, id, parent)
              case Ok(after) => r == Ok(()) && categories == after
              case Err(error) => r == Err(error) && categories == old(categories)
    {
      if parent.Some? && !Visible(categories, workspace, parent.value) {
        return Err(ParentNotVisible);
      }
      if id in categories {
        return Err(IdTaken);
      }
      rank := rank[id := if parent.Some? then rank[parent.value] + 1 else 0];
      categories := categories[id := Category(Some(workspace), parent, true)];
      r := Ok(());
    }

    method UpdateCategory(workspace: nat, id: nat, change: Change, referenced: bool)
      returns (r: Result<(), CategoryError>)
      requires Valid()
      modifies this
      ensures Valid()
      ensures match Updated(old(categories), workspace, id, change, referenced)
              case Ok(after) => r == Ok(()) && categories == after
              case Err(error) => r == Err(error) && categories == old(categories)
    {
      if id !in categories || categories[id].workspace != Some(workspace) {
        return Err(NotFound);
      }
      if change.parent.Some? && change.parent.value.Some? {
        var parent := change.parent.value.value;
        if parent == id {
          return Err(SelfParent);
        }
        if !Visible(categories, workspace, parent) {
          return Err(ParentNotVisible);
        }
        var cycle := ClosesCycle(id, parent);
        if cycle {
          return Err(WouldCycle);
        }
      }
      if change.active == Some(false) && (HasActiveChild(categories, id) || referenced) {
        return Err(StillReferenced);
      }
      ghost var lifted := UpdateIsRanked(categories, rank, workspace, id, change, referenced);
      rank := lifted;
      categories := categories[id := Applied(categories[id], change)];
      r := Ok(());
    }
  }

  // ---- over any sequence of operations ----

  datatype Event =
    | Create(workspace: nat, id: nat, parent: Option<nat>)
    | Update(workspace: nat, id: nat, change: Change, referenced: bool)

  ghost function Step(c: Categories, e: Event): Categories {
    match e
    case Create(workspace, id, parent) =>
      (match Created(c, workspace, id, parent) case Ok(after) => after case Err(_) => c)
    case Update(workspace, id, change, referenced) =>
      (match Updated(c, workspace, id, change, referenced) case Ok(after) => after case Err(_) => c)
  }

  /** From the seeded categories on, one operation after another. */
  ghost function Run(seeded: Categories, events: seq<Event>): Categories {
    if events == [] then seeded else Step(Run(seeded, events[..|events| - 1]), events[|events| - 1])
  }

  lemma CreateKeepsForest(c: Categories, workspace: nat, id: nat, parent: Option<nat>)
    requires Forest(c) && Created(c, workspace, id, parent).Ok?
    ensures Forest(Created(c, workspace, id, parent).value)
  {
    var rank :| Ranked(c, rank);
    var after := Created(c, workspace, id, parent).value;
    assert Ranked(after, rank[id := if parent.Some? then rank[parent.value] + 1 else 0]);
  }

  lemma UpdateKeepsForest(c: Categories, workspace: nat, id: nat, change: Change, referenced: bool)
    requires Forest(c) && Updated(c, workspace, id, change, referenced).Ok?
    ensures Forest(Updated(c, workspace, id, change, referenced).value)
  {
    var rank :| Ranked(c, rank);
    var lifted := UpdateIsRanked(c, rank, workspace, id, change, referenced);
  }

  lemma {:induction false} EveryRunIsAForest(seeded: Categories, events: seq<Event>)
    requires Forest(seeded)
    ensures Forest(Run(seeded, events)) && Acyclic(Run(seeded, events))
  {
    if events != [] {
      var c, e := Run(seeded, events[..|events| - 1]), events[|events| - 1];
      EveryRunIsAForest(seeded, events[..|events| - 1]);
      match e
      case Create(workspace, id, parent) =>
        if Created(c, workspace, id, parent).Ok? {
          CreateKeepsForest(c, workspace, id, parent);
        }
      case Update(workspace, id, change, referenced) =>
        if Updated(c, workspace, id, change, referenced).Ok? {
          UpdateKeepsForest(c, workspace, id, change, referenced);
        }
    }
    ForestIsAcyclic(Run(seeded, events));
  }

  /** Reparenting alone is refused exactly when the parent is not visible and active or the move closes a cycle. */
  lemma ReparentRefusedExactly(c: Categories, workspace: nat, id: nat, parent: nat, referenced: bool)
    requires Forest(c) && id in c && c[id].workspace == Some(workspace)
    ensures Updated(c, workspace, id, Change(Some(Some(parent)), None), referenced).Err? <==>
            !Visible(c, workspace, parent) || !Acyclic(Moved(c, id, Some(parent)))
  {
    if parent in c {
      MoveClosesCycle(c, id, parent);
      AncestorStep(c, id, parent);
    }
  }

  /** From any category, walking up ends at a root within as many steps as there are ranks. */
  lemma {:induction false} WalkEndsAtRoot(c: Categories, rank: map<nat, nat>, x: nat) returns (p: seq<nat>)
    requires Ranked(c, rank) && x in c
    ensures Path(c, p) && p[0] == x && c[p[|p| - 1]].parent.None? && |p| <= rank[x] + 1
    decreases rank[x]
  {
    if c[x].parent.None? {
      p := [x];
    } else {
      var rest := WalkEndsAtRoot(c, rank, c[x].parent.value);
      p := [x] + rest;
    }
  }
}
