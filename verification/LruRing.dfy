/** The ring of LRU records of the directory cache: one record file per entry plus one
    for the head.  The records refine a plain sequence of items, newest first. */
module LruRing {

  /** The name under which a record is stored: the administrative directory for the head,
      otherwise the directory `<job>/<key>/` of a cache entry. */
  datatype Name = Head | Entry(job: string, key: string)

  /** One record file.  In the head, `older` is the newest entry, `newer` is the oldest one
      and `sz` is the total number of bytes accounted for. */
  datatype Lru = Lru(newer: Name, older: Name, sz: nat, lastAccess: int)

  const DEFAULT_LRU: Lru := Lru(Head, Head, 0, 0)

  type Files = map<Name, Lru>

  /** What the ring means for an entry, position apart. */
  datatype Item = Item(name: Name, sz: nat, lastAccess: int)

  /** The head record; a head file not yet written counts as a default record. */
  function HeadOf(files: Files): Lru {
    if Head in files then files[Head] else DEFAULT_LRU
  }

  /** The name at position `i`; both ends are closed by the head. */
  function NameAt(q: seq<Item>, i: int): Name {
    if 0 <= i < |q| then q[i].name else Head
  }

  function RecordAt(q: seq<Item>, i: int): Lru
    requires 0 <= i < |q|
  {
    Lru(NameAt(q, i - 1), NameAt(q, i + 1), q[i].sz, q[i].lastAccess)
  }

  ghost predicate Distinct(q: seq<Item>) {
    && (forall i :: 0 <= i < |q| ==> q[i].name.Entry?)
    && (forall i, j :: 0 <= i < j < |q| ==> q[i].name != q[j].name)
  }

  ghost function Names(q: seq<Item>): set<Name> {
    set i | 0 <= i < |q| :: q[i].name
  }

  ghost predicate RecordOk(files: Files, q: seq<Item>, i: int)
    requires 0 <= i < |q|
  {
    q[i].name in files && files[q[i].name] == RecordAt(q, i)
  }

  /** The record files form a doubly linked ring whose walk from the head is `q`. */
  ghost predicate Linked(files: Files, q: seq<Item>) {
    match HeadOf(files)
    case Lru(oldest, newest, _, _) =>
      && Distinct(q) && newest == NameAt(q, 0) && oldest == NameAt(q, |q| - 1)
      && (forall i {:trigger RecordOk(files, q, i)} :: 0 <= i < |q| ==> RecordOk(files, q, i))
  }

  function Sum(q: seq<Item>): nat {
    if q == [] then 0 else q[0].sz + Sum(q[1..])
  }

  lemma {:induction false} SumConcat(a: seq<Item>, b: seq<Item>)
    ensures Sum(a + b) == Sum(a) + Sum(b)
  {
    if a == [] {
      assert a + b == b;
    } else {
      SumConcat(a[1..], b);
      assert (a + b)[1..] == a[1..] + b;
    }
  }

  lemma {:induction false} SumRemove(q: seq<Item>, i: nat)
    requires i < |q|
    ensures Sum(Cut(q, i)) == Sum(q) - q[i].sz
  {
    SumConcat(q[..i], q[i..]);
    assert q[..i] + q[i..] == q;
    SumConcat(q[..i], q[i + 1..]);
    assert q[i..][1..] == q[i + 1..];
  }

  // ----- removal of one element -----

  /** Position of entry `e`, or |q| when it is not listed. */
  function Find(q: seq<Item>, e: Name): (i: nat)
    ensures i <= |q|
    ensures i < |q| ==> q[i].name == e
    ensures forall j :: 0 <= j < i ==> q[j].name != e
  {
    if q == [] then 0 else if q[0].name == e then 0 else 1 + Find(q[1..], e)
  }

  function SizeOf(q: seq<Item>, e: Name): nat {
    var i := Find(q, e);
    if i < |q| then q[i].sz else 0
  }

  function Without(q: seq<Item>, e: Name): (r: seq<Item>) {
    var i := Find(q, e);
    if i < |q| then Cut(q, i) else q
  }

  /** The record files once the neighbours of `e` point to each other. */
  function Unlink(files: Files, e: Name): Files
    requires e in files && files[e].newer in files && files[e].older in files
  {
    var here := files[e];
    if here.newer == here.older then
      files[here.newer := files[here.newer].(older := here.older, newer := here.newer)]
    else
      files[here.newer := files[here.newer].(older := here.older)]
           [here.older := files[here.older].(newer := here.newer)]
  }

  function Cut(q: seq<Item>, i: nat): seq<Item>
    requires i < |q|
  {
    q[..i] + q[i + 1..]
  }

  lemma {:induction false} CutNames(q: seq<Item>, i: nat, j: int)
    requires i < |q|
    ensures NameAt(Cut(q, i), j) == NameAt(q, if j < i then j else j + 1)
  {
  }

  lemma {:induction false} CutDistinct(q: seq<Item>, i: nat)
    requires Distinct(q) && i < |q|
    ensures Distinct(Cut(q, i))
    ensures forall j :: 0 <= j < |Cut(q, i)| ==> Cut(q, i)[j].name != q[i].name
  {
  }

  ghost predicate Unlinkable(files: Files, q: seq<Item>, i: nat)
    requires i < |q|
  {
    RecordOk(files, q, i) && Head in files && files[q[i].name].newer in files && files[q[i].name].older in files
  }

  lemma {:induction false} NeighboursStored(files: Files, q: seq<Item>, i: nat)
    requires Linked(files, q) && i < |q|
    ensures Unlinkable(files, q, i)
  {
    assert HeadOf(files).older == q[0].name;
    assert RecordOk(files, q, i);
    assert i > 0 ==> RecordOk(files, q, i - 1);
    assert i + 1 < |q| ==> RecordOk(files, q, i + 1);
  }

  /** The record left at position `k` once the entry at position `i` is unlinked. */
  lemma {:induction false} UnlinkedRecord(files: Files, q: seq<Item>, i: nat, k: nat)
    requires Linked(files, q) && i < |q| && k < |q| && k != i
    requires Unlinkable(files, q, i)
    ensures q[k].name in Unlink(files, q[i].name)
    ensures Unlink(files, q[i].name)[q[k].name]
         == RecordAt(q, k).(newer := if k == i + 1 then NameAt(q, i - 1) else NameAt(q, k - 1),
                            older := if k + 1 == i then NameAt(q, i + 1) else NameAt(q, k + 1))
  {
    var here := files[q[i].name];
    assert RecordOk(files, q, i) && RecordOk(files, q, k);
    assert here.newer == q[k].name <==> k + 1 == i;
    assert here.older == q[k].name <==> k == i + 1;
  }

  /** Unlinking a listed entry deletes exactly that element, including from a ring of one. */
  lemma {:induction false} UnlinkRemoves(files: Files, q: seq<Item>, i: nat)
    requires Linked(files, q) && i < |q|
    ensures Unlinkable(files, q, i)
    ensures Linked(Unlink(files, q[i].name), Cut(q, i))
    ensures HeadOf(Unlink(files, q[i].name)).sz == HeadOf(files).sz
  {
    NeighboursStored(files, q, i);
    var f := Unlink(files, q[i].name);
    forall j | 0 <= j < |Cut(q, i)|
      ensures RecordOk(f, Cut(q, i), j)
    {
      UnlinkedCutRecord(files, q, i, j);
    }
    CutDistinct(q, i);
    UnlinkedHead(files, q, i);
    CutNames(q, i, 0);
    CutNames(q, i, |q| - 2);
  }

  lemma {:induction false} UnlinkedCutRecord(files: Files, q: seq<Item>, i: nat, j: nat)
    requires Linked(files, q) && i < |q| && j < |Cut(q, i)|
    requires Unlinkable(files, q, i)
    ensures RecordOk(Unlink(files, q[i].name), Cut(q, i), j)
  {
    var k := if j < i then j else j + 1;
    UnlinkedRecord(files, q, i, k);
    assert Cut(q, i)[j] == q[k];
    CutNames(q, i, j - 1);
    CutNames(q, i, j + 1);
  }

  lemma {:induction false} UnlinkedHead(files: Files, q: seq<Item>, i: nat)
    requires Linked(files, q) && i < |q|
    requires Unlinkable(files, q, i)
    ensures Head in Unlink(files, q[i].name)
    ensures Unlink(files, q[i].name)[Head]
         == files[Head].(older := if i == 0 then NameAt(q, 1) else NameAt(q, 0),
                         newer := if i == |q| - 1 then NameAt(q, i - 1) else NameAt(q, |q| - 1))
  {
    assert RecordOk(files, q, i);
  }

  // ----- insertion as newest -----

  /** The record files once `e` has been put in front. */
  function Link(files: Files, e: Name, sz: nat, now: int): Files
    requires Head in files
    requires files[Head].older in files
  {
    var head := files[Head];
    var here := Lru(Head, head.older, sz, now);
    if head.older == Head then
      files[Head := head.(older := e, newer := e)][e := here]
    else
      files[head.older := files[head.older].(newer := e)][Head := head.(older := e)][e := here]
  }

  lemma {:induction false} LinkedRecord(files: Files, q: seq<Item>, e: Name, sz: nat, now: int, k: nat)
    requires Linked(files, q) && Head in files && files[Head].older in files
    requires e.Entry? && e !in Names(q) && k < |q|
    ensures q[k].name in Link(files, e, sz, now)
    ensures Link(files, e, sz, now)[q[k].name]
         == RecordAt(q, k).(newer := if k == 0 then e else NameAt(q, k - 1))
  {
    assert RecordOk(files, q, k);
    assert q[k].name in Names(q);
  }

  /** Linking an unlisted entry prepends exactly that element. */
  lemma {:induction false} LinkPrepends(files: Files, q: seq<Item>, e: Name, sz: nat, now: int)
    requires Linked(files, q) && Head in files && e.Entry? && e !in Names(q)
    ensures files[Head].older in files
    ensures Linked(Link(files, e, sz, now), [Item(e, sz, now)] + q)
    ensures HeadOf(Link(files, e, sz, now)).sz == HeadOf(files).sz
  {
    var r := [Item(e, sz, now)] + q;
    if q != [] {
      assert RecordOk(files, q, 0);
    }
    var f := Link(files, e, sz, now);
    forall j | 0 <= j < |r|
      ensures RecordOk(f, r, j)
    {
      if j > 0 {
        LinkedRecord(files, q, e, sz, now, j - 1);
      }
    }
    forall i, j | 0 <= i < j < |r|
      ensures r[i].name != r[j].name
    {
      assert q[j - 1].name in Names(q);
    }
  }

  // ----- dropping the oldest elements -----

  /** The record files once all entries from position `k` on have been erased. */
  ghost function Truncate(files: Files, q: seq<Item>, k: nat, sz: nat): Files
    requires k <= |q|
    requires k > 0 ==> q[k - 1].name in files
  {
    var head := HeadOf(files).(newer := NameAt(q, k - 1), sz := sz);
    var kept := files - Names(q[k..]);
    if k == |q| then files[Head := head]
    else if k == 0 then kept[Head := head.(older := Head)]
    else kept[q[k - 1].name := files[q[k - 1].name].(older := Head)][Head := head]
  }

  lemma {:induction false} TruncatedRecord(files: Files, q: seq<Item>, k: nat, sz: nat, j: nat)
    requires Linked(files, q) && j < k <= |q| && q[k - 1].name in files
    ensures RecordOk(Truncate(files, q, k, sz), q[..k], j)
  {
    assert RecordOk(files, q, j) && RecordOk(files, q, k - 1);
    assert q[j].name !in Names(q[k..]) && q[k - 1].name !in Names(q[k..]);
    assert q[k - 1].name == q[j].name <==> k - 1 == j;
  }

  /** Truncating drops exactly a suffix. */
  lemma {:induction false} TruncateDrops(files: Files, q: seq<Item>, k: nat, sz: nat)
    requires Linked(files, q) && k <= |q|
    ensures k > 0 ==> q[k - 1].name in files
    ensures Linked(Truncate(files, q, k, sz), q[..k])
    ensures HeadOf(Truncate(files, q, k, sz)).sz == sz
  {
    if k > 0 {
      assert RecordOk(files, q, k - 1);
    }
    assert Head !in Names(q[k..]);
    forall j | 0 <= j < k
      ensures RecordOk(Truncate(files, q, k, sz), q[..k], j)
    {
      TruncatedRecord(files, q, k, sz, j);
    }
  }

  // ----- how much to keep -----

  /** The longest newest-first prefix that fits in `room` bytes. */
  function Kept(q: seq<Item>, room: nat): (k: nat)
    ensures k <= |q| && Sum(q[..k]) <= room
  {
    KeptBelow(q, room, |q|)
  }

  function KeptBelow(q: seq<Item>, room: nat, n: nat): (k: nat)
    requires n <= |q|
    ensures k <= n && Sum(q[..k]) <= room
  {
    if n == 0 || Sum(q[..n]) <= room then n else KeptBelow(q, room, n - 1)
  }

  /** No more entries fit. */
  lemma {:induction false} KeptIsMost(q: seq<Item>, room: nat, n: nat, j: nat)
    requires n <= |q| && KeptBelow(q, room, n) < j <= n
    ensures Sum(q[..j]) > room
  {
    if j < n {
      KeptIsMost(q, room, n - 1, j);
    }
  }

  lemma {:induction false} KeptAll(q: seq<Item>, room: nat)
    requires Sum(q) <= room
    ensures Kept(q, room) == |q|
  {
    assert q[..|q|] == q;
  }

  lemma {:induction false} KeptUnique(q: seq<Item>, room: nat, k: nat)
    requires k <= |q| && Sum(q[..k]) <= room
    requires k < |q| ==> Sum(q[..k + 1]) > room
    ensures k == Kept(q, room)
  {
    var n := Kept(q, room);
    SumMonotone(q);
    if n < k {
      KeptIsMost(q, room, |q|, k);
    }
  }

  lemma {:induction false} SumMonotone(q: seq<Item>)
    ensures forall i, j :: 0 <= i <= j <= |q| ==> Sum(q[..i]) <= Sum(q[..j])
  {
    forall i, j | 0 <= i <= j <= |q|
      ensures Sum(q[..i]) <= Sum(q[..j])
    {
      SumConcat(q[..i], q[i..j]);
      assert q[..i] + q[i..j] == q[..j];
    }
  }
}
