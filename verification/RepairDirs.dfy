/** Which directories a repair keeps, and in which order it removes the others. */
module RepairDirs {
  import opened Slashes

  function Parent(d: string): (p: string)
    requires d != "" && IsDir(d)
    ensures IsDir(p) && p < d
  {
    d[..AfterSlash(d[..|d| - 1])]
  }

  function Ancestors(d: string): (s: set<string>)
    requires IsDir(d)
    ensures d in s && forall a :: a in s ==> IsDir(a) && a <= d
    decreases |d|
  {
    if d == "" then {d} else {d} + Ancestors(Parent(d))
  }

  /** true for the directories to be kept. */
  type Dirs = map<string, bool>

  ghost function Keep(dirs: Dirs): set<string> {
    set d | d in dirs && dirs[d]
  }

  ghost predicate ParentKept(keep: set<string>, d: string) {
    d in keep && d != "" ==> IsDir(d) && Parent(d) in keep
  }

  /** The kept directories include the root and the parents of all of them. */
  ghost predicate ClosedSet(keep: set<string>) {
    "" in keep && forall d {:trigger ParentKept(keep, d)} :: ParentKept(keep, d)
  }

  ghost predicate Closed(dirs: Dirs) {
    (forall d :: d in dirs ==> IsDir(d)) && ClosedSet(Keep(dirs))
  }

  lemma {:induction false} ClosedHasAncestors(keep: set<string>, d: string)
    requires ClosedSet(keep) && d in keep && IsDir(d)
    ensures Ancestors(d) <= keep
    decreases |d|
  {
    if d != "" {
      assert ParentKept(keep, d);
      ClosedHasAncestors(keep, Parent(d));
    }
  }

  lemma {:induction false} AncestorsClosed(d: string)
    requires IsDir(d)
    ensures ClosedSet(Ancestors(d))
    decreases |d|
  {
    if d != "" {
      AncestorsClosed(Parent(d));
      forall e {:trigger ParentKept(Ancestors(d), e)}
        ensures ParentKept(Ancestors(d), e)
      {
        assert ParentKept(Ancestors(Parent(d)), e);
      }
    }
  }

  lemma {:induction false} UnionClosed(a: set<string>, b: set<string>)
    requires ClosedSet(a) && ClosedSet(b)
    ensures ClosedSet(a + b)
  {
    forall d {:trigger ParentKept(a + b, d)}
      ensures ParentKept(a + b, d)
    {
      assert ParentKept(a, d) && ParentKept(b, d);
    }
  }

  lemma {:induction false} MarkKept(dirs: Dirs, u: string)
    ensures Keep(dirs[u := true]) == Keep(dirs) + {u}
  {
  }

  lemma {:induction false} UphillDone(keep: set<string>, marked: set<string>, u: string, d: string)
    requires ClosedSet(keep) && IsDir(u) && IsDir(d) && u in keep && marked + Ancestors(u) == Ancestors(d)
    ensures keep + marked == keep + Ancestors(d) && ClosedSet(keep + marked)
  {
    ClosedHasAncestors(keep, u);
    AncestorsClosed(d);
    UnionClosed(keep, Ancestors(d));
  }

  /** On the way up from `d`, at `u`. */
  ghost predicate Climbing(dirs: Dirs, dirs': Dirs, marked: set<string>, u: string, d: string) {
    && IsDir(u) && IsDir(d) && dirs'.Keys == dirs.Keys + marked && (forall e :: e in dirs' ==> IsDir(e))
    && Keep(dirs') == Keep(dirs) + marked && marked + Ancestors(u) == Ancestors(d)
    && forall e :: e in marked ==> |u| < |e|
  }

  lemma {:induction false} ClimbOne(dirs: Dirs, dirs': Dirs, marked: set<string>, u: string, d: string)
    requires Climbing(dirs, dirs', marked, u, d) && u != ""
    ensures Climbing(dirs, dirs'[u := true], marked + {u}, Parent(u), d)
  {
    MarkKept(dirs', u);
    assert Ancestors(u) == {u} + Ancestors(Parent(u));
  }

  lemma {:induction false} ClimbDone(dirs: Dirs, dirs': Dirs, marked: set<string>, u: string, d: string)
    requires Closed(dirs) && Climbing(dirs, dirs', marked, u, d) && u in dirs' && dirs'[u]
    ensures Closed(dirs') && Keep(dirs') == Keep(dirs) + Ancestors(d)
    ensures dirs.Keys <= dirs'.Keys <= dirs.Keys + Ancestors(d)
  {
    assert u in Keep(dirs') && u !in marked;
    UphillDone(Keep(dirs), marked, u, d);
  }

  /** Marks a directory and its ancestors, stopping at the first one already kept. */
  method Uphill(dirs: Dirs, d: string) returns (dirs': Dirs)
    requires Closed(dirs) && IsDir(d)
    ensures Closed(dirs') && Keep(dirs') == Keep(dirs) + Ancestors(d)
    ensures dirs.Keys <= dirs'.Keys <= dirs.Keys + Ancestors(d)
  {
    dirs' := dirs;
    var u := d;
    ghost var marked: set<string> := {};
    while !(u in dirs' && dirs'[u])
      invariant Climbing(dirs, dirs', marked, u, d)
      decreases |u|
    {
      assert u != "" by { assert "" in Keep(dirs'); }
      ClimbOne(dirs, dirs', marked, u, d);
      marked := marked + {u};
      dirs' := dirs'[u := true];
      u := Parent(u);
    }
    ClimbDone(dirs, dirs', marked, u, d);
  }

  /** The parent of a directory is what comes before its own name. */
  lemma {:induction false} LastName(p: string, name: string)
    requires IsDir(p) && '/' !in name && name != ""
    ensures IsDir(p + name + "/") && Parent(p + name + "/") == p
  {
    var d := p + name + "/";
    assert d[..|d| - 1] == p + name && (p + name)[..|p|] == p;
    AfterSlashIs(p + name, |p|);
  }

  /** The administrative directory. */
  const HEAD_S: string := "LMAKE/"

  const RESERVED_S: string := HEAD_S + "reserved/"

  ghost function StartKeep(): set<string> { {"", HEAD_S, RESERVED_S} }

  lemma {:induction false} StartIsClosed()
    ensures IsDir(HEAD_S) && IsDir(RESERVED_S) && Parent(HEAD_S) == "" && Parent(RESERVED_S) == HEAD_S
    ensures ClosedSet(StartKeep())
  {
    LastName("", "LMAKE");
    assert "" + "LMAKE" + "/" == HEAD_S;
    LastName(HEAD_S, "reserved");
    assert HEAD_S + "reserved" + "/" == RESERVED_S;
  }

  /** Where a repair starts: the administrative directories are kept. */
  method StartDirs() returns (dirs: Dirs)
    ensures Closed(dirs) && Keep(dirs) == StartKeep() && dirs.Keys == StartKeep()
  {
    StartIsClosed();
    dirs := map["" := true, HEAD_S := true, RESERVED_S := true];
    assert Keep(dirs) == StartKeep();
  }

  /** A directory that is met is not kept for that. */
  method MeetDir(dirs: Dirs, d: string) returns (dirs': Dirs)
    requires Closed(dirs) && IsDir(d)
    ensures Closed(dirs') && Keep(dirs') == Keep(dirs) && dirs'.Keys == dirs.Keys + {d}
  {
    dirs' := dirs;
    if d !in dirs {
      dirs' := dirs[d := false];
      assert Keep(dirs') == Keep(dirs);
    }
  }

  // ----- removal order -----

  predicate Less(a: string, b: string) {
    if b == "" then false
    else if a == "" then true
    else a[0] < b[0] || (a[0] == b[0] && Less(a[1..], b[1..]))
  }

  lemma {:induction false} PrefixIsLess(a: string, b: string)
    requires a < b
    ensures Less(a, b) && !Less(b, a)
  {
    if a != "" {
      PrefixIsLess(a[1..], b[1..]);
    }
  }

  /** In decreasing order, a directory is removed before the one that holds it, and nothing that is
      kept lies in a removed one. */
  lemma {:induction false} RemovalOrder(dirs: Dirs, order: seq<string>, i: nat, j: nat)
    requires Closed(dirs)
    requires forall a, b :: 0 <= a < b < |order| ==> !Less(order[a], order[b])
    requires i < |order| && j < |order| && order[i] < order[j]
    requires order[i] in dirs && !dirs[order[i]]
    ensures j < i
    ensures forall d :: d in Keep(dirs) ==> order[i] !in Ancestors(d)
  {
    PrefixIsLess(order[i], order[j]);
    forall d | d in Keep(dirs)
      ensures order[i] !in Ancestors(d)
    {
      ClosedHasAncestors(Keep(dirs), d);
    }
  }
}
