/** Cleaning up a directory tree: what is removed, and why the directories to remove are empty by then. */
module RepairClean {
  import opened Basics
  import opened Slashes
  import opened RepairDirs
  import opened RepairWalk

  /** A file that a repair leaves when it keeps entries `kept`. */
  ghost predicate Survives(r: Naming, tree: Tree, kept: set<string>, f: string) {
    && f in tree && !tree[f].Folder?
    && match r.FateOf(f, tree[f])
       case Stays => true
       case OfEntry => Up(f) in kept
       case HintLink => tree[f].Link? && Up(f) + tree[f].target + "/" in kept
       case Goes => false
  }

  lemma {:induction false} SurvivesIff(r: Naming, tree: Tree, measure: string -> nat, w: Sorting, c: Choice, f: string)
    requires Sorted(r, tree, tree.Keys, w) && Chosen(r, tree, measure, w.entries.Keys, w.hints.Keys, c)
    requires f in tree && !tree[f].Folder?
    ensures Survives(r, tree, c.kept.Keys, f) <==> f !in c.toUnlnk
  {
  }

  // ----- directories that hold something -----

  lemma {:induction false} PrefixIsAncestor(d: string, e: string)
    requires IsDir(d) && IsDir(e) && d <= e
    ensures d in Ancestors(e)
    decreases |e|
  {
    if d != e {
      var s := e[..|e| - 1];
      assert d <= s;
      if d != "" && AfterSlash(s) < |d| {
        assert s[|d| - 1] == d[|d| - 1] == '/';
      }
      assert d <= Parent(e);
      PrefixIsAncestor(d, Parent(e));
    }
  }

  lemma {:induction false} PrefixOfUp(d: string, f: string)
    requires IsDir(d) && d <= f
    ensures d <= Up(f)
  {
    if d != "" {
      assert f[|d| - 1] == '/';
    }
  }

  lemma {:induction false} AncestorsKept(kept: set<string>, dirs: Dirs, d: string, e: string)
    requires Closed(dirs) && (forall x :: x in Keep(dirs) <==> KeptDir(kept, x))
    requires IsDir(d) && IsDir(e) && d <= e && KeptDir(kept, e)
    ensures KeptDir(kept, d)
  {
    PrefixIsAncestor(d, e);
    ClosedHasAncestors(Keep(dirs), e);
  }

  lemma {:induction false} SurvivorsHeld(r: Naming, tree: Tree, kept: set<string>, f: string)
    requires r.Valid() && Survives(r, tree, kept, f) && (forall d :: d in kept ==> IsDir(d))
    ensures KeptDir(kept, Up(f))
  {
    match r.FateOf(f, tree[f])
    case Stays =>
    case OfEntry => assert Up(f) in Ancestors(Up(f));
    case HintLink => ChildOfLink(Up(f), tree[f].target);
  }

  /** No file that survives lies in a directory that is not kept. */
  lemma {:induction false} NothingInside(r: Naming, tree: Tree, kept: set<string>, dirs: Dirs, d: string, f: string)
    requires r.Valid() && DirsOk(tree, kept, dirs) && Survives(r, tree, kept, f) && (forall x :: x in kept ==> IsDir(x))
    requires IsDir(d) && !KeptDir(kept, d)
    ensures !(d <= f)
  {
    if d <= f {
      PrefixOfUp(d, f);
      SurvivorsHeld(r, tree, kept, f);
      AncestorsKept(kept, dirs, d, Up(f));
    }
  }

  // ----- the order of removal -----

  lemma {:induction false} LessTransitive(a: string, b: string, c: string)
    requires !Less(a, b) && !Less(b, c)
    ensures !Less(a, c)
  {
    if a != "" && b != "" && c != "" && a[0] == b[0] == c[0] {
      LessTransitive(a[1..], b[1..], c[1..]);
    }
  }

  lemma {:induction false} LessOneWay(a: string, b: string)
    ensures !(Less(a, b) && Less(b, a))
  {
    if a != "" && b != "" && a[0] == b[0] {
      LessOneWay(a[1..], b[1..]);
    }
  }

  lemma {:induction false} GreatestExists(s: set<string>) returns (d: string)
    requires s != {}
    ensures d in s && forall e :: e in s ==> !Less(d, e)
  {
    d :| d in s;
    LessOneWay(d, d);
    if s != {d} {
      var m := GreatestExists(s - {d});
      if Less(d, m) {
        LessOneWay(d, m);
        d := m;
      } else {
        forall e | e in s - {d}
          ensures !Less(d, e)
        {
          LessTransitive(d, m, e);
        }
      }
    }
  }

  ghost predicate Decreasing(order: seq<string>) { forall a, b :: 0 <= a < b < |order| ==> !Less(order[a], order[b]) }

  /** In decreasing order. */
  method SortDown(s: set<string>) returns (order: seq<string>)
    ensures Decreasing(order) && forall d :: d in order <==> d in s
  {
    order := [];
    var left := s;
    while left != {}
      invariant left <= s && Decreasing(order) && forall d :: d in order <==> d in s - left
      invariant forall i, e :: 0 <= i < |order| && e in left ==> !Less(order[i], e)
      decreases left
    {
      ghost var w := GreatestExists(left);
      var d :| d in left && forall e :: e in left ==> !Less(d, e);
      order := order + [d];
      left := left - {d};
    }
  }

  // ----- removal -----

  /** A directory is removed if it is empty. */
  method RemoveDir(tree: Tree, d: string) returns (tree': Tree)
    requires d != ""
    ensures tree' == if exists g :: g in tree && d <= g then tree else tree - {d[..|d| - 1]}
  {
    if exists g :: g in tree && d <= g { return tree; }
    return tree - {d[..|d| - 1]};
  }

  /** What is left once directories `removed` are gone. */
  ghost predicate Remaining(r: Naming, tree: Tree, kept: set<string>, removed: seq<string>, t: Tree) {
    && (forall f :: f in t <==> f in tree && (if tree[f].Folder? then f + "/" !in removed else Survives(r, tree, kept, f)))
    && (forall f :: f in t ==> t[f] == tree[f])
  }

  /** The directories to remove, in the order of removal. */
  ghost predicate ToRemove(dirs: Dirs, order: seq<string>) {
    Decreasing(order) && forall d :: d in order <==> d in dirs && !dirs[d]
  }

  lemma {:induction false} Unkept(tree: Tree, kept: set<string>, dirs: Dirs, d: string)
    requires DirsOk(tree, kept, dirs) && d in dirs
    ensures !dirs[d] <==> !KeptDir(kept, d)
  {
    assert d in Keep(dirs) <==> dirs[d];
  }

  lemma {:induction false} FolderGoesFirst(tree: Tree, kept: set<string>, dirs: Dirs, order: seq<string>, i: nat, g: string)
    requires DirsOk(tree, kept, dirs) && IsTree(tree) && ToRemove(dirs, order) && i < |order|
    requires g in tree && tree[g].Folder? && order[i] <= g
    ensures g + "/" in order[..i]
  {
    var d, e := order[i], g + "/";
    assert d in order;
    Unkept(tree, kept, dirs, d);
    Unkept(tree, kept, dirs, e);
    if KeptDir(kept, e) {
      AncestorsKept(kept, dirs, d, e);
    }
    assert e in order;
    var j :| 0 <= j < |order| && order[j] == e;
    assert d < e;
    RemovalOrder(dirs, order, i, j);
    assert order[..i][j] == e;
  }

  /** By the time its turn comes, a directory to remove is empty. */
  lemma {:induction false} EmptyByThen(r: Naming, tree: Tree, kept: set<string>, dirs: Dirs, order: seq<string>, i: nat, t: Tree, g: string)
    requires r.Valid() && DirsOk(tree, kept, dirs) && IsTree(tree) && (forall x :: x in kept ==> IsDir(x))
    requires ToRemove(dirs, order) && i < |order| && Remaining(r, tree, kept, order[..i], t) && g in t
    ensures !(order[i] <= g)
  {
    assert order[i] in order;
    if tree[g].Folder? {
      if order[i] <= g {
        FolderGoesFirst(tree, kept, dirs, order, i, g);
      }
    } else {
      Unkept(tree, kept, dirs, order[i]);
      NothingInside(r, tree, kept, dirs, order[i], g);
    }
  }

  lemma {:induction false} OneRemoved(r: Naming, tree: Tree, kept: set<string>, removed: seq<string>, t: Tree, d: string)
    requires Remaining(r, tree, kept, removed, t) && IsFolder(tree, d) && IsDir(d)
    ensures Remaining(r, tree, kept, removed + [d], t - {d[..|d| - 1]})
  {
    var f := d[..|d| - 1];
    assert f + "/" == d;
    forall g | g + "/" == d
      ensures g == f
    {
      assert (g + "/")[..|g|] == g;
    }
  }

  lemma {:induction false} RemovedNext(r: Naming, tree: Tree, kept: set<string>, dirs: Dirs, order: seq<string>, i: nat, t: Tree)
    requires r.Valid() && DirsOk(tree, kept, dirs) && IsTree(tree) && (forall x :: x in kept ==> IsDir(x))
    requires ToRemove(dirs, order) && i < |order| && Remaining(r, tree, kept, order[..i], t)
    ensures order[i] != "" && !exists g :: g in t && order[i] <= g
    ensures Remaining(r, tree, kept, order[..i + 1], t - {order[i][..|order[i]| - 1]})
  {
    assert order[..i + 1] == order[..i] + [order[i]] && order[i] in order;
    forall g | g in t
      ensures !(order[i] <= g)
    {
      EmptyByThen(r, tree, kept, dirs, order, i, t, g);
    }
    OneRemoved(r, tree, kept, order[..i], t, order[i]);
  }

  method RemoveDirs(r: Naming, tree: Tree, ghost kept: set<string>, dirs: Dirs, order: seq<string>, t: Tree) returns (t': Tree)
    requires r.Valid() && DirsOk(tree, kept, dirs) && IsTree(tree) && (forall x :: x in kept ==> IsDir(x))
    requires ToRemove(dirs, order) && Remaining(r, tree, kept, [], t)
    ensures Remaining(r, tree, kept, order, t')
  {
    t' := t;
    for i := 0 to |order|
      invariant Remaining(r, tree, kept, order[..i], t')
    {
      RemovedNext(r, tree, kept, dirs, order, i, t');
      t' := RemoveDir(t', order[i]);
    }
    assert order[..|order|] == order;
  }

  /** The tree after a repair that keeps entries `kept`. */
  ghost predicate Clean(r: Naming, tree: Tree, kept: set<string>, t: Tree) {
    && (forall f :: f in t <==> f in tree && (if tree[f].Folder? then KeptDir(kept, f + "/") else Survives(r, tree, kept, f)))
    && (forall f :: f in t ==> t[f] == tree[f])
  }

  lemma {:induction false} AllRemoved(r: Naming, tree: Tree, kept: set<string>, dirs: Dirs, order: seq<string>, t: Tree)
    requires DirsOk(tree, kept, dirs) && ToRemove(dirs, order) && Remaining(r, tree, kept, order, t)
    ensures Clean(r, tree, kept, t)
  {
    forall f | f in tree && tree[f].Folder?
      ensures f + "/" !in order <==> KeptDir(kept, f + "/")
    {
      Unkept(tree, kept, dirs, f + "/");
    }
  }

  lemma {:induction false} AllChosen(r: Naming, tree: Tree, measure: string -> nat, w: Sorting, c: Choice)
    requires r.Valid() && Sorted(r, tree, tree.Keys, w) && Chosen(r, tree, measure, w.entries.Keys, w.hints.Keys, c)
    ensures forall d :: d in c.kept <==> Qualifies(r, tree, measure, d)
    ensures forall d :: d in c.kept ==> c.kept[d] == measure(d) && IsDir(d)
    ensures forall f :: f in tree && !tree[f].Folder? ==> (f in c.toUnlnk <==> !Survives(r, tree, c.kept.Keys, f))
    ensures DirsOk(tree, c.kept.Keys, c.dirs)
  {
    forall d
      ensures d in c.kept <==> Qualifies(r, tree, measure, d)
    {
      QualifiesIff(r, tree, measure, w.entries, d);
    }
    forall f | f in tree && !tree[f].Folder?
      ensures f in c.toUnlnk <==> !Survives(r, tree, c.kept.Keys, f)
    {
      SurvivesIff(r, tree, measure, w, c, f);
    }
  }

  /** Removes all files that are not to be kept, then the directories that hold none, which are empty by then. */
  method CleanUp(r: Naming, tree: Tree, measure: string -> nat) returns (t: Tree, kept: map<string, nat>)
    requires r.Valid() && IsTree(tree)
    ensures forall d :: d in kept <==> Qualifies(r, tree, measure, d)
    ensures forall d :: d in kept ==> kept[d] == measure(d)
    ensures Clean(r, tree, kept.Keys, t)
  {
    var w := SortFiles(r, tree);
    var c := ChooseEntries(r, tree, measure, w);
    c := ChooseLinks(r, tree, measure, w.hints, c, w.entries.Keys);
    AllChosen(r, tree, measure, w, c);
    kept := c.kept;
    t := map f | f in tree && (tree[f].Folder? || f !in c.toUnlnk) :: tree[f];
    var order := SortDown(set d | d in c.dirs && !c.dirs[d]);
    t := RemoveDirs(r, tree, kept.Keys, c.dirs, order, t);
    AllRemoved(r, tree, kept.Keys, c.dirs, order, t);
  }

  /** A regular file that is left belongs to an entry that is kept, administrative files apart. */
  lemma {:induction false} FileLeft(r: Naming, tree: Tree, kept: set<string>, t: Tree, f: string)
    requires Clean(r, tree, kept, t) && f in t && tree[f].Regular? && !r.admin(f)
    ensures Up(f) in kept
  {
  }

  /** A link that is left leads to an entry that is kept. */
  lemma {:induction false} LinkLeft(r: Naming, tree: Tree, kept: set<string>, t: Tree, f: string)
    requires Clean(r, tree, kept, t) && f in t && tree[f].Link?
    ensures r.keyName(tree[f].target) && Up(f) + tree[f].target + "/" in kept
  {
  }

  lemma {:induction false} NotLeft(r: Naming, tree: Tree, kept: set<string>, t: Tree, f: string)
    requires Clean(r, tree, kept, t) && f in tree && !tree[f].Folder? && r.FateOf(f, tree[f]) == Goes
    ensures f !in t
  {
  }
}
