/** Rebuilding the ring of LRU records from whatever is left on disk. */
module CacheRepair {
  import opened LruRing
  import opened CacheRuns
  import opened CacheRecency

  /** What reading a record file gives. */
  datatype Content = Garbled | Readable(lru: Lru)

  type Disk = map<Name, Content>

  /** The record in a file; nothing is kept of a file that cannot be read. */
  function OldLru(disk: Disk, n: Name): Lru {
    if n in disk && disk[n].Readable? then disk[n].lru else DEFAULT_LRU
  }

  function Records(disk: Disk): Files {
    map n | n in disk && disk[n].Readable? :: disk[n].lru
  }

  function ItemOf(disk: Disk, sizes: map<Name, nat>, n: Name): Item
    requires n in sizes
  {
    Item(n, sizes[n], OldLru(disk, n).lastAccess)
  }

  ghost predicate AllOf(q: seq<Item>, disk: Disk, sizes: map<Name, nat>, names: set<Name>) {
    && Distinct(q) && Names(q) == names && names <= sizes.Keys
    && forall i :: 0 <= i < |q| ==> q[i].name in sizes && q[i] == ItemOf(disk, sizes, q[i].name)
  }

  lemma {:induction false} NewestExists(disk: Disk, names: set<Name>) returns (n: Name)
    requires names != {}
    ensures n in names && forall m :: m in names ==> OldLru(disk, m).lastAccess <= OldLru(disk, n).lastAccess
  {
    n :| n in names;
    if names != {n} {
      var m := NewestExists(disk, names - {n});
      if OldLru(disk, n).lastAccess < OldLru(disk, m).lastAccess {
        n := m;
      }
    }
  }

  /** Newest first; entries accessed at the same time come in any order. */
  method SortNewestFirst(disk: Disk, sizes: map<Name, nat>) returns (q: seq<Item>)
    requires forall n :: n in sizes ==> n.Entry?
    ensures AllOf(q, disk, sizes, sizes.Keys) && Recent(q)
  {
    q := [];
    var left := sizes.Keys;
    while left != {}
      invariant left <= sizes.Keys
      invariant AllOf(q, disk, sizes, sizes.Keys - left) && Recent(q)
      invariant forall i, n :: 0 <= i < |q| && n in left ==> OldLru(disk, n).lastAccess <= q[i].lastAccess
      decreases left
    {
      ghost var w := NewestExists(disk, left);
      var n :| n in left && forall m :: m in left ==> OldLru(disk, m).lastAccess <= OldLru(disk, n).lastAccess;
      AppendItem(q, disk, sizes, sizes.Keys - left, n);
      assert sizes.Keys - (left - {n}) == sizes.Keys - left + {n};
      q := q + [ItemOf(disk, sizes, n)];
      left := left - {n};
    }
    assert sizes.Keys - {} == sizes.Keys;
  }

  lemma {:induction false} AppendItem(q: seq<Item>, disk: Disk, sizes: map<Name, nat>, names: set<Name>, n: Name)
    requires AllOf(q, disk, sizes, names) && n in sizes && n.Entry? && n !in names
    ensures AllOf(q + [ItemOf(disk, sizes, n)], disk, sizes, names + {n})
  {
    var r := q + [ItemOf(disk, sizes, n)];
    assert forall i :: 0 <= i < |q| ==> r[i] == q[i] && q[i].name in Names(q);
    assert r[|q|].name == n;
    forall m | m in names
      ensures m in Names(r)
    {
      var i :| 0 <= i < |q| && q[i].name == m;
      assert r[i].name == m;
    }
  }

  ghost predicate Rebuilt(disk: Disk, q: seq<Item>, i: int)
    requires 0 <= i < |q|
  {
    q[i].name in disk && disk[q[i].name] == Readable(RecordAt(q, i))
  }

  /** Record files before they are rewritten: entries are listed once and not empty. */
  ghost predicate Rebuildable(disk: Disk, q: seq<Item>) {
    Distinct(q) && Positive(q) && forall i :: 0 <= i < |q| ==> q[i].name in disk
  }

  /** Rewrites the records that differ; whatever they held, each ends up with its place in the ring. */
  method RebuildRecords(disk: Disk, q: seq<Item>) returns (disk': Disk)
    requires Rebuildable(disk, q)
    ensures forall i {:trigger Rebuilt(disk', q, i)} :: 0 <= i < |q| ==> Rebuilt(disk', q, i)
    ensures disk'.Keys == disk.Keys && (Head in disk ==> disk'[Head] == disk[Head])
  {
    disk' := disk;
    for i := 0 to |q|
      invariant disk'.Keys == disk.Keys && (Head in disk ==> disk'[Head] == disk[Head])
      invariant forall j {:trigger Rebuilt(disk', q, j)} :: 0 <= j < i ==> Rebuilt(disk', q, j)
      invariant forall j :: i <= j < |q| ==> disk'[q[j].name] == disk[q[j].name]
    {
      var n, newLru := q[i].name, RecordAt(q, i);
      ghost var before := disk';
      if newLru != OldLru(disk, n) {
        disk' := disk'[n := Readable(newLru)];
      }
      assert Rebuilt(disk', q, i);
      forall j | 0 <= j < i
        ensures Rebuilt(disk', q, j)
      {
        assert Rebuilt(before, q, j) && q[j].name != n;
      }
    }
  }

  method Total(q: seq<Item>) returns (total: nat)
    ensures total == Sum(q)
  {
    total := 0;
    for i := 0 to |q|
      invariant total == Sum(q[..i])
    {
      SumConcat(q[..i], [q[i]]);
      assert q[..i + 1] == q[..i] + [q[i]];
      total := total + q[i].sz;
    }
    assert q[..|q|] == q;
  }

  /** Erases the records of entries that do not qualify, then rewrites the records that differ.
      `sizes` gives the size of each entry that qualifies, whatever its record holds.  The head is not
      created when it is missing, and a head that cannot be read is left alone in an empty cache. */
  method Repair(disk: Disk, sizes: map<Name, nat>, dryRun: bool)
    returns (ok: bool, disk': Disk, q: seq<Item>)
    requires forall n :: n in sizes ==> n.Entry? && n in disk && sizes[n] > 0
    ensures AllOf(q, disk, sizes, sizes.Keys) && Recent(q)
    ensures dryRun ==> ok && disk' == disk
    ensures !dryRun ==> (ok <==> Head in disk || sizes == map[])
    ensures !dryRun && ok ==> Linked(Records(disk'), q) && HeadOf(Records(disk')).sz == Sum(q)
    ensures !dryRun ==> disk'.Keys == sizes.Keys + (if Head in disk then {Head} else {})
    ensures !dryRun && Head in disk ==> (disk'[Head].Readable? <==> !(disk[Head].Garbled? && sizes == map[]))
  {
    q := SortNewestFirst(disk, sizes);
    EmptyIff(q, disk, sizes);
    if dryRun { return true, disk, q; }
    disk' := map n | n in disk && (n in sizes || n == Head) :: disk[n];
    assert disk'.Keys == sizes.Keys + (if Head in disk then {Head} else {});
    QualifiedRebuildable(q, disk, disk', sizes);
    disk' := RebuildRecords(disk', q);
    var total := Total(q);
    var newHead := Lru(NameAt(q, |q| - 1), NameAt(q, 0), total, 0);
    ok := true;
    if newHead != OldLru(disk', Head) {
      if Head !in disk' { return false, disk', q; }
      ghost var before := disk';
      disk' := disk'[Head := Readable(newHead)];
      HeadApart(before, disk', q);
    }
    RebuiltIsLinked(disk', q);
  }

  lemma {:induction false} EmptyIff(q: seq<Item>, disk: Disk, sizes: map<Name, nat>)
    requires AllOf(q, disk, sizes, sizes.Keys)
    ensures q == [] <==> sizes == map[]
  {
    if q == [] {
      assert Names(q) == {};
    } else {
      assert q[0].name in Names(q);
    }
  }

  lemma {:induction false} QualifiedRebuildable(q: seq<Item>, disk: Disk, kept: Disk, sizes: map<Name, nat>)
    requires AllOf(q, disk, sizes, sizes.Keys) && sizes.Keys <= kept.Keys
    requires forall n :: n in sizes ==> sizes[n] > 0
    ensures Rebuildable(kept, q)
  {
    forall i | 0 <= i < |q|
      ensures q[i].name in kept && q[i].sz > 0
    {
      assert q[i].name in sizes;
    }
  }

  lemma {:induction false} HeadApart(disk: Disk, disk': Disk, q: seq<Item>)
    requires Distinct(q) && Head in disk' && disk' == disk[Head := disk'[Head]]
    requires forall i {:trigger Rebuilt(disk, q, i)} :: 0 <= i < |q| ==> Rebuilt(disk, q, i)
    ensures forall i {:trigger Rebuilt(disk', q, i)} :: 0 <= i < |q| ==> Rebuilt(disk', q, i)
  {
    forall i {:trigger Rebuilt(disk', q, i)} | 0 <= i < |q|
      ensures Rebuilt(disk', q, i)
    {
      assert Rebuilt(disk, q, i);
    }
  }

  lemma {:induction false} RebuiltIsLinked(disk: Disk, q: seq<Item>)
    requires Distinct(q)
    requires forall i {:trigger Rebuilt(disk, q, i)} :: 0 <= i < |q| ==> Rebuilt(disk, q, i)
    requires OldLru(disk, Head) == Lru(NameAt(q, |q| - 1), NameAt(q, 0), Sum(q), 0)
    ensures Linked(Records(disk), q) && HeadOf(Records(disk)).sz == Sum(q)
  {
    forall i | 0 <= i < |q|
      ensures RecordOk(Records(disk), q, i)
    {
      assert Rebuilt(disk, q, i);
    }
  }
}
