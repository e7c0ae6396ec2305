/** The debug walk over the ring of LRU records, and what it establishes. */
module LruCheck {
  import opened LruRing

  /** The links at position `i` of a walk that has reached `next`; the last one leads to `next`. */
  ghost predicate StepOk(files: Files, q: seq<Item>, next: Name, i: int)
    requires 0 <= i < |q|
  {
    && q[i].name in files
    && files[q[i].name] == Lru(NameAt(q, i - 1), if i + 1 < |q| then q[i + 1].name else next, q[i].sz, q[i].lastAccess)
  }

  /** `q` has been visited from the head and `next` comes after it. */
  ghost predicate Walked(files: Files, q: seq<Item>, next: Name) {
    && Distinct(q)
    && HeadOf(files).older == (if q == [] then next else q[0].name)
    && (forall i {:trigger StepOk(files, q, next, i)} :: 0 <= i < |q| ==> StepOk(files, q, next, i))
  }

  /** Whatever ring the records form, the walk follows it. */
  lemma {:induction false} WalkFollowsRing(files: Files, q: seq<Item>, next: Name, r: seq<Item>, n: nat)
    requires Walked(files, q, next) && Linked(files, r) && n <= |q|
    ensures n <= |r| && q[..n] == r[..n]
    ensures NameAt(r, n) == if n < |q| then q[n].name else next
  {
    if n > 0 {
      WalkFollowsRing(files, q, next, r, n - 1);
      assert StepOk(files, q, next, n - 1);
      assert r[n - 1].name == q[n - 1].name;
      assert RecordOk(files, r, n - 1);
      assert q[..n] == q[..n - 1] + [q[n - 1]];
      assert r[..n] == r[..n - 1] + [r[n - 1]];
    }
  }

  /** While the records form a ring, none of the tests of the walk fails. */
  lemma {:induction false} WalkMayContinue(files: Files, q: seq<Item>, next: Name, r: seq<Item>)
    requires Walked(files, q, next) && Linked(files, r) && next.Entry?
    ensures next in files && next !in Names(q) && files[next].newer == NameAt(q, |q| - 1)
  {
    WalkFollowsRing(files, q, next, r, |q|);
    assert RecordOk(files, r, |q|);
    assert q == r[..|q|];
  }

  lemma {:induction false} RingIsWalked(files: Files, q: seq<Item>)
    requires Linked(files, q)
    ensures Walked(files, q, Head)
  {
    forall i | 0 <= i < |q|
      ensures StepOk(files, q, Head, i)
    {
      assert RecordOk(files, q, i);
    }
  }

  lemma {:induction false} WalkedIsRing(files: Files, q: seq<Item>)
    requires Walked(files, q, Head) && HeadOf(files).newer == NameAt(q, |q| - 1)
    ensures Linked(files, q)
  {
    forall i | 0 <= i < |q|
      ensures RecordOk(files, q, i)
    {
      assert StepOk(files, q, Head, i);
    }
  }

  /** The records determine the sequence they represent. */
  lemma {:induction false} RingUnique(files: Files, q: seq<Item>, r: seq<Item>)
    requires Linked(files, q) && Linked(files, r)
    ensures q == r
  {
    RingIsWalked(files, q);
    WalkFollowsRing(files, q, Head, r, |q|);
  }

  lemma {:induction false} WalkExtends(files: Files, q: seq<Item>, e: Name)
    requires Walked(files, q, e) && e.Entry? && e in files && e !in Names(q)
    requires files[e].newer == NameAt(q, |q| - 1)
    ensures Walked(files, q + [Item(e, files[e].sz, files[e].lastAccess)], files[e].older)
  {
    var r := q + [Item(e, files[e].sz, files[e].lastAccess)];
    forall i | 0 <= i < |r|
      ensures StepOk(files, r, files[e].older, i)
    {
      assert i < |q| ==> StepOk(files, q, e, i);
    }
    forall i, j | 0 <= i < j < |r|
      ensures r[i].name != r[j].name
    {
      assert q[i].name in Names(q);
    }
  }

  /** The walk passes exactly when the records form a ring whose sizes add up to the head's,
      less `delta`. */
  method Chk(files: Files, delta: int) returns (ok: bool)
    ensures ok <==> exists q :: Linked(files, q) && HeadOf(files).sz == Sum(q) + delta
  {
    var head := HeadOf(files);
    var seen: set<Name> := {};
    var expectedNewer := Head;
    var total := 0;
    var entry := head.older;
    ghost var q: seq<Item> := [];
    while entry != Head
      invariant Walked(files, q, entry)
      invariant seen == Names(q) <= files.Keys
      invariant expectedNewer == NameAt(q, |q| - 1)
      invariant total == Sum(q)
      decreases files.Keys - seen
    {
      forall r | Linked(files, r)
        ensures entry in files && entry !in seen && files[entry].newer == expectedNewer
      {
        WalkMayContinue(files, q, entry, r);
      }
      if entry !in files || entry in seen || files[entry].newer != expectedNewer {
        return false;
      }
      var here := files[entry];
      WalkExtends(files, q, entry);
      SumConcat(q, [Item(entry, here.sz, here.lastAccess)]);
      ghost var p := q;
      q := q + [Item(entry, here.sz, here.lastAccess)];
      NamesAppend(p, Item(entry, here.sz, here.lastAccess));
      seen := seen + {entry};
      total := total + here.sz;
      expectedNewer := entry;
      entry := here.older;
    }
    ok := head.newer == expectedNewer && head.sz == total + delta;
    forall r | Linked(files, r)
      ensures r == q
    {
      WalkFollowsRing(files, q, Head, r, |q|);
    }
    if head.newer == expectedNewer {
      WalkedIsRing(files, q);
    }
  }

  lemma {:induction false} NamesAppend(q: seq<Item>, x: Item)
    ensures Names(q + [x]) == Names(q) + {x.name}
  {
    assert (q + [x])[|q|] == x;
    assert forall i :: 0 <= i < |q| ==> (q + [x])[i] == q[i];
    forall n | n in Names(q)
      ensures n in Names(q + [x])
    {
      var i :| 0 <= i < |q| && q[i].name == n;
      assert (q + [x])[i].name == n;
    }
  }
}
