/** What a repair keeps of a directory tree: files are recognised by their names, entries that do not qualify go
    with their files, links go with their entries, and so do the directories that are left empty. */
module RepairWalk {
  import opened Basics
  import opened Slashes
  import opened RepairDirs

  datatype Node = Folder | Regular | Link(target: string) | Special

  type Tree = map<string, Node>

  /** Paths have no slash at their end. */
  ghost predicate IsTree(tree: Tree) { forall f :: f in tree ==> f != "" && f[|f| - 1] != '/' }

  /** What follows the last slash, and what comes before. */
  function Last(s: string): string { s[AfterSlash(s)..] }

  function Up(s: string): (d: string)
    ensures IsDir(d) && d <= s
  {
    s[..AfterSlash(s)]
  }

  lemma {:induction false} UpOf(d: string, name: string)
    requires IsDir(d) && '/' !in name
    ensures Up(d + name) == d && Last(d + name) == name
  {
    assert (d + name)[..|d|] == d;
    AfterSlashIs(d + name, |d|);
  }

  /** How names are recognised: the administrative files, the directories of entries with the files in them, the
      links and what they may lead to. */
  datatype Naming = Naming(admin: string -> bool, entryDir: string -> bool, tags: set<string>,
                         hintFile: string -> bool, keyName: string -> bool)
  {
    predicate EntryFile(f: string) { Last(f) in tags && entryDir(Up(f)) }

    ghost predicate Valid() {
      && (forall t :: t in tags ==> '/' !in t) && tags != {}
      && (forall d :: entryDir(d) ==> IsDir(d) && d != "")
      && (forall f :: admin(f) ==> !EntryFile(f) && f != "" && Up(f) in StartKeep())
      && (forall k :: keyName(k) ==> k != "" && '/' !in k)
    }

    function FateOf(f: string, n: Node): Fate {
      match n
      case Folder => Stays
      case Regular => if admin(f) then Stays else if EntryFile(f) then OfEntry else Goes
      case Link(k) => if hintFile(f) && keyName(k) then HintLink else Goes
      case Special => Goes
    }

    /** The recognised files of an entry among those that have been seen. */
    ghost function FilesOf(tree: Tree, seen: set<string>, d: string): set<string> {
      set f | f in seen && f in tree && FateOf(f, tree[f]) == OfEntry && Up(f) == d
    }
  }

  /** What is decided of a file by its name. */
  datatype Fate = Stays | OfEntry | HintLink | Goes

  /** The directories of entries, each with the files that are there. */
  type Entries = map<string, set<string>>

  // ----- sorting files by their names -----

  ghost predicate EntriesOk(r: Naming, tree: Tree, seen: set<string>, entries: Entries) {
    && (forall d :: d in entries ==> entries[d] == r.FilesOf(tree, seen, d) != {})
    && (forall f :: f in seen && f in tree && r.FateOf(f, tree[f]) == OfEntry ==> Up(f) in entries)
  }

  lemma {:induction false} SameFiles(r: Naming, tree: Tree, seen: set<string>, f: string, d: string)
    requires f in tree && !(r.FateOf(f, tree[f]) == OfEntry && Up(f) == d)
    ensures r.FilesOf(tree, seen + {f}, d) == r.FilesOf(tree, seen, d)
  {
  }

  lemma {:induction false} OtherFile(r: Naming, tree: Tree, seen: set<string>, entries: Entries, f: string)
    requires EntriesOk(r, tree, seen, entries) && f in tree && r.FateOf(f, tree[f]) != OfEntry
    ensures EntriesOk(r, tree, seen + {f}, entries)
  {
    forall d | d in entries
      ensures entries[d] == r.FilesOf(tree, seen + {f}, d)
    {
      SameFiles(r, tree, seen, f, d);
    }
  }

  lemma {:induction false} OneMoreFile(r: Naming, tree: Tree, seen: set<string>, entries: Entries, f: string)
    requires EntriesOk(r, tree, seen, entries) && f in tree && r.FateOf(f, tree[f]) == OfEntry
    ensures r.FilesOf(tree, seen + {f}, Up(f)) == (if Up(f) in entries then entries[Up(f)] else {}) + {f}
  {
    assert Up(f) !in entries ==> r.FilesOf(tree, seen, Up(f)) == {};
  }

  lemma {:induction false} EntrySeen(r: Naming, tree: Tree, seen: set<string>, entries: Entries, f: string, entries': Entries)
    requires EntriesOk(r, tree, seen, entries) && f in tree && r.FateOf(f, tree[f]) == OfEntry
    requires entries' == entries[Up(f) := (if Up(f) in entries then entries[Up(f)] else {}) + {f}]
    ensures EntriesOk(r, tree, seen + {f}, entries')
  {
    OneMoreFile(r, tree, seen, entries, f);
    assert f in entries'[Up(f)];
    forall d | d in entries'
      ensures entries'[d] == r.FilesOf(tree, seen + {f}, d) != {}
    {
      if d != Up(f) {
        SameFiles(r, tree, seen, f, d);
      }
    }
  }

  /** Links in the right form, each with the entry it should lead to. */
  ghost predicate LinksOk(r: Naming, tree: Tree, seen: set<string>, hints: map<string, string>) {
    && (forall f :: f in hints <==> f in seen && f in tree && r.FateOf(f, tree[f]) == HintLink)
    && (forall f :: f in hints ==> hints[f] == Up(f) + tree[f].target + "/")
  }

  /** The directories of the tree are known, and no other ones. */
  ghost predicate DirsMet(tree: Tree, seen: set<string>, dirs: Dirs) {
    && Closed(dirs) && Keep(dirs) == StartKeep()
    && (forall f :: f in seen && f in tree && tree[f].Folder? ==> f + "/" in dirs)
    && (forall d :: d in dirs && !dirs[d] ==> IsFolder(tree, d))
  }

  ghost predicate IsFolder(tree: Tree, d: string) { d != "" && d[..|d| - 1] in tree && tree[d[..|d| - 1]].Folder? }

  lemma {:induction false} DirMet(tree: Tree, seen: set<string>, dirs: Dirs, f: string, dirs': Dirs)
    requires DirsMet(tree, seen, dirs) && f in tree && tree[f].Folder?
    requires Closed(dirs') && Keep(dirs') == Keep(dirs) && dirs'.Keys == dirs.Keys + {f + "/"}
    ensures DirsMet(tree, seen + {f}, dirs')
  {
    assert (f + "/")[..|f + "/"| - 1] == f;
    forall d | d in dirs' && !dirs'[d]
      ensures IsFolder(tree, d)
    {
      assert d !in Keep(dirs');
    }
  }

  /** What has been found so far. */
  datatype Sorting = Sorting(entries: Entries, hints: map<string, string>, toUnlnk: set<string>, dirs: Dirs)

  ghost predicate Sorted(r: Naming, tree: Tree, seen: set<string>, w: Sorting) {
    match w
    case Sorting(entries, hints, toUnlnk, dirs) =>
      && EntriesOk(r, tree, seen, entries) && LinksOk(r, tree, seen, hints) && DirsMet(tree, seen, dirs)
      && forall f :: f in toUnlnk <==> f in seen && f in tree && r.FateOf(f, tree[f]) == Goes
  }

  lemma {:induction false} NothingSeen(r: Naming, tree: Tree, dirs: Dirs)
    requires Closed(dirs) && Keep(dirs) == StartKeep() && dirs.Keys == StartKeep()
    ensures Sorted(r, tree, {}, Sorting(map[], map[], {}, dirs))
  {
    forall d | d in dirs
      ensures dirs[d]
    {
      assert d in Keep(dirs);
    }
  }

  /** Sorts what is met by its name. */
  method SortFiles(r: Naming, tree: Tree) returns (w: Sorting)
    ensures Sorted(r, tree, tree.Keys, w)
  {
    var dirs := StartDirs();
    NothingSeen(r, tree, dirs);
    w := Sorting(map[], map[], {}, dirs);
    var left := tree.Keys;
    NoneOrAllDone(tree.Keys);
    while left != {}
      invariant left <= tree.Keys && Sorted(r, tree, tree.Keys - left, w)
      decreases left
    {
      var f :| f in left;
      w := SortFile(r, tree, f, w, tree.Keys - left);
      OneDone(tree.Keys, left, f);
      left := left - {f};
    }
  }

  method SortFile(r: Naming, tree: Tree, f: string, w: Sorting, ghost seen: set<string>) returns (w': Sorting)
    requires f in tree && f !in seen && Sorted(r, tree, seen, w)
    ensures Sorted(r, tree, seen + {f}, w')
  {
    var entries, hints, toUnlnk, dirs := w.entries, w.hints, w.toUnlnk, w.dirs;
    var fate := r.FateOf(f, tree[f]);
    if fate == OfEntry {
      entries := entries[Up(f) := (if Up(f) in entries then entries[Up(f)] else {}) + {f}];
      EntrySeen(r, tree, seen, w.entries, f, entries);
    } else {
      OtherFile(r, tree, seen, entries, f);
      if fate == HintLink {
        hints := hints[f := Up(f) + tree[f].target + "/"];
      } else if fate == Goes {
        toUnlnk := toUnlnk + {f};
      } else if tree[f].Folder? {
        dirs := MeetDir(dirs, f + "/");
        DirMet(tree, seen, w.dirs, f, dirs);
      }
    }
    w' := Sorting(entries, hints, toUnlnk, dirs);
  }

  // ----- entries that qualify -----

  /** All files of the entry are there, and it passes the other tests, which give its size. */
  ghost predicate Qualifies(r: Naming, tree: Tree, measure: string -> nat, d: string) {
    r.entryDir(d) && measure(d) > 0 && forall t :: t in r.tags ==> d + t in tree && tree[d + t].Regular?
  }

  predicate Complete(r: Naming, d: string, files: set<string>) { forall t :: t in r.tags ==> d + t in files }

  lemma {:induction false} FileOfEntry(r: Naming, tree: Tree, d: string, t: string)
    requires r.Valid() && r.entryDir(d) && t in r.tags && d + t in tree && tree[d + t].Regular?
    ensures r.FateOf(d + t, tree[d + t]) == OfEntry && Up(d + t) == d
  {
    UpOf(d, t);
  }

  lemma {:induction false} QualifiesIff(r: Naming, tree: Tree, measure: string -> nat, entries: Entries, d: string)
    requires r.Valid() && EntriesOk(r, tree, tree.Keys, entries)
    ensures Qualifies(r, tree, measure, d) <==> d in entries && Complete(r, d, entries[d]) && measure(d) > 0
  {
    if Qualifies(r, tree, measure, d) {
      forall t | t in r.tags
        ensures d in entries && d + t in entries[d]
      {
        FileOfEntry(r, tree, d, t);
      }
    }
    if d in entries && Complete(r, d, entries[d]) {
      var t :| t in r.tags;
      assert d + t in entries[d];
    }
  }

  /** Directories to keep for entries `kept`. */
  ghost predicate KeptDir(kept: set<string>, e: string) {
    e in StartKeep() || exists d :: d in kept && IsDir(d) && e in Ancestors(d)
  }

  ghost predicate DirsOk(tree: Tree, kept: set<string>, dirs: Dirs) {
    && Closed(dirs) && (forall e :: e in Keep(dirs) <==> KeptDir(kept, e))
    && (forall f :: f in tree && tree[f].Folder? ==> f + "/" in dirs)
    && (forall d :: d in dirs && !dirs[d] ==> IsFolder(tree, d))
  }

  lemma {:induction false} DirsStart(tree: Tree, dirs: Dirs)
    requires DirsMet(tree, tree.Keys, dirs)
    ensures DirsOk(tree, {}, dirs)
  {
  }

  lemma {:induction false} DirsMore(tree: Tree, kept: set<string>, dirs: Dirs, d: string, dirs': Dirs)
    requires DirsOk(tree, kept, dirs) && IsDir(d) && Closed(dirs') && Keep(dirs') == Keep(dirs) + Ancestors(d)
    requires dirs.Keys <= dirs'.Keys <= dirs.Keys + Ancestors(d)
    ensures DirsOk(tree, kept + {d}, dirs')
  {
    forall e | e in dirs' && !dirs'[e]
      ensures IsFolder(tree, e)
    {
      assert e !in Keep(dirs');
    }
  }

  lemma {:induction false} DirsSame(tree: Tree, kept: set<string>, dirs: Dirs, h: string, d: string, dirs': Dirs)
    requires DirsOk(tree, kept, dirs) && IsDir(d) && Closed(dirs') && Keep(dirs') == Keep(dirs) + Ancestors(d)
    requires dirs.Keys <= dirs'.Keys <= dirs.Keys + Ancestors(d)
    requires h in kept && IsDir(h) && d in Ancestors(h)
    ensures DirsOk(tree, kept, dirs')
  {
    ClosedHasAncestors(Keep(dirs), d);
    forall e | e in dirs' && !dirs'[e]
      ensures IsFolder(tree, e)
    {
      assert e !in Keep(dirs');
    }
  }

  datatype Choice = Choice(kept: map<string, nat>, toUnlnk: set<string>, dirs: Dirs)

  /** Once entries `done` and links `linked` have been looked at: what is kept, and what is to be removed. */
  ghost predicate Chosen(r: Naming, tree: Tree, measure: string -> nat, done: set<string>, linked: set<string>, c: Choice) {
    match c
    case Choice(kept, toUnlnk, dirs) =>
      && (forall d :: d in kept <==> d in done && Qualifies(r, tree, measure, d))
      && (forall d :: d in kept ==> kept[d] == measure(d))
      && (forall f :: f in toUnlnk <==> f in tree && Dropped(r, tree, done, linked, kept.Keys, f))
      && DirsOk(tree, kept.Keys, dirs)
  }

  ghost predicate Dropped(r: Naming, tree: Tree, done: set<string>, linked: set<string>, kept: set<string>, f: string)
    requires f in tree
  {
    match r.FateOf(f, tree[f])
    case Stays => false
    case OfEntry => Up(f) in done && Up(f) !in kept
    case HintLink => f in linked && !(tree[f].Link? && Up(f) + tree[f].target + "/" in kept)
    case Goes => true
  }

  lemma {:induction false} NothingChosen(r: Naming, tree: Tree, measure: string -> nat, w: Sorting)
    requires Sorted(r, tree, tree.Keys, w)
    ensures Chosen(r, tree, measure, {}, {}, Choice(map[], w.toUnlnk, w.dirs))
  {
    DirsStart(tree, w.dirs);
    var none: map<string, nat> := map[];
    assert none.Keys == {};
  }

  lemma {:induction false} KeepOne(r: Naming, tree: Tree, measure: string -> nat, done: set<string>, c: Choice, d: string, dirs: Dirs)
    requires Chosen(r, tree, measure, done, {}, c) && d !in done && Qualifies(r, tree, measure, d)
    requires DirsOk(tree, c.kept.Keys + {d}, dirs)
    ensures Chosen(r, tree, measure, done + {d}, {}, Choice(c.kept[d := measure(d)], c.toUnlnk, dirs))
  {
    var kept := c.kept[d := measure(d)];
    assert kept.Keys == c.kept.Keys + {d};
  }

  lemma {:induction false} DropOne(r: Naming, tree: Tree, measure: string -> nat, done: set<string>, c: Choice, d: string, files: set<string>)
    requires Chosen(r, tree, measure, done, {}, c) && d !in done && !Qualifies(r, tree, measure, d)
    requires files == r.FilesOf(tree, tree.Keys, d)
    ensures Chosen(r, tree, measure, done + {d}, {}, Choice(c.kept, c.toUnlnk + files, c.dirs))
  {
  }

  /** Keeps the entries that qualify and the directories that hold them, and drops the files of the others. */
  method ChooseEntries(r: Naming, tree: Tree, measure: string -> nat, w: Sorting) returns (c: Choice)
    requires r.Valid() && Sorted(r, tree, tree.Keys, w)
    ensures Chosen(r, tree, measure, w.entries.Keys, {}, c)
  {
    NothingChosen(r, tree, measure, w);
    c := Choice(map[], w.toUnlnk, w.dirs);
    var all := w.entries.Keys;
    var left := all;
    NoneOrAllDone(all);
    while left != {}
      invariant left <= all && Chosen(r, tree, measure, all - left, {}, c)
      decreases left
    {
      var d :| d in left;
      c := ChooseEntry(r, tree, measure, w.entries, c, d, all - left);
      OneDone(all, left, d);
      left := left - {d};
    }
  }

  method ChooseEntry(r: Naming, tree: Tree, measure: string -> nat, entries: Entries, c: Choice, d: string, ghost done: set<string>)
    returns (c': Choice)
    requires r.Valid() && EntriesOk(r, tree, tree.Keys, entries) && d in entries && d !in done
    requires Chosen(r, tree, measure, done, {}, c)
    ensures Chosen(r, tree, measure, done + {d}, {}, c')
  {
    QualifiesIff(r, tree, measure, entries, d);
    if Complete(r, d, entries[d]) && measure(d) > 0 {
      var dirs := Uphill(c.dirs, d);
      DirsMore(tree, c.kept.Keys, c.dirs, d, dirs);
      KeepOne(r, tree, measure, done, c, d, dirs);
      c' := Choice(c.kept[d := measure(d)], c.toUnlnk, dirs);
    } else {
      DropOne(r, tree, measure, done, c, d, entries[d]);
      c' := c.(toUnlnk := c.toUnlnk + entries[d]);
    }
  }

  lemma {:induction false} ChildOfLink(d: string, k: string)
    requires IsDir(d) && k != "" && '/' !in k
    ensures IsDir(d + k + "/") && d in Ancestors(d + k + "/")
  {
    LastName(d, k);
  }

  lemma {:induction false} LinkOne(r: Naming, tree: Tree, measure: string -> nat, done: set<string>, linked: set<string>, c: Choice, f: string, dirs: Dirs)
    requires Chosen(r, tree, measure, done, linked, c) && f in tree && r.FateOf(f, tree[f]) == HintLink && f !in linked
    requires DirsOk(tree, c.kept.Keys, dirs)
    ensures Chosen(r, tree, measure, done, linked + {f},
              if Up(f) + tree[f].target + "/" in c.kept then c.(dirs := dirs) else c.(toUnlnk := c.toUnlnk + {f}))
  {
  }

  /** Keeps the links that lead to entries that are kept. */
  method ChooseLinks(r: Naming, tree: Tree, measure: string -> nat, hints: map<string, string>, c: Choice, ghost done: set<string>)
    returns (c': Choice)
    requires r.Valid() && LinksOk(r, tree, tree.Keys, hints) && Chosen(r, tree, measure, done, {}, c)
    ensures Chosen(r, tree, measure, done, hints.Keys, c') && c'.kept == c.kept
  {
    c' := c;
    var left := hints.Keys;
    NoneOrAllDone(hints.Keys);
    while left != {}
      invariant left <= hints.Keys && c'.kept == c.kept
      invariant Chosen(r, tree, measure, done, hints.Keys - left, c')
      decreases left
    {
      var f :| f in left;
      c' := ChooseLink(r, tree, measure, f, hints[f], c', done, hints.Keys - left);
      OneDone(hints.Keys, left, f);
      left := left - {f};
    }
  }

  method ChooseLink(r: Naming, tree: Tree, measure: string -> nat, f: string, h: string, c: Choice, ghost done: set<string>, ghost linked: set<string>)
    returns (c': Choice)
    requires r.Valid() && f in tree && r.FateOf(f, tree[f]) == HintLink && f !in linked && h == Up(f) + tree[f].target + "/"
    requires Chosen(r, tree, measure, done, linked, c)
    ensures Chosen(r, tree, measure, done, linked + {f}, c') && c'.kept == c.kept
  {
    if h in c.kept {
      ChildOfLink(Up(f), tree[f].target);
      var dirs := Uphill(c.dirs, Up(f));
      DirsSame(tree, c.kept.Keys, c.dirs, h, Up(f), dirs);
      LinkOne(r, tree, measure, done, linked, c, f, dirs);
      c' := c.(dirs := dirs);
    } else {
      LinkOne(r, tree, measure, done, linked, c, f, c.dirs);
      c' := c.(toUnlnk := c.toUnlnk + {f});
    }
  }
}
