/** The directory cache seen as a plain sequence of entries, and what every run of requests keeps. */
module CacheRuns {
  import opened Basics
  import opened LruRing
  import opened Checksum
  import opened CacheMatch

  /** The size in each reservation file, by upload key. */
  type Reserved = map<nat, nat>

  /** Room granted to an upload that has not written its reservation file yet. */
  datatype Grant = Grant(key: nat, sz: nat)

  /** `ring` is ordered newest first and `infos` holds the readable deps files of entry directories.
      `held` counts the bytes that are accounted for besides the entries, and `lost` those of them that
      nothing holds any more. */
  datatype State = State(
    ring: seq<Item>, infos: map<Name, Deps>, grants: seq<Grant>, reserved: Reserved, held: nat, lost: nat)

  const EMPTY_CACHE: State := State([], map[], [], map[], 0, 0)

  // ----- reserved bytes -----

  ghost function TotalOf(m: Reserved): nat
    decreases m.Keys
  {
    if m == map[] then 0 else var k :| k in m; m[k] + TotalOf(m - {k})
  }

  lemma {:induction false} TotalWithout(m: Reserved, k: nat)
    requires k in m
    ensures TotalOf(m) == m[k] + TotalOf(m - {k})
    decreases m.Keys
  {
    var j :| j in m && TotalOf(m) == m[j] + TotalOf(m - {j});
    if j != k {
      TotalWithout(m - {j}, k);
      TotalWithout(m - {k}, j);
      assert m - {j} - {k} == m - {k} - {j};
    }
  }

  lemma {:induction false} TotalWith(m: Reserved, k: nat, v: nat)
    ensures TotalOf(m[k := v]) == TotalOf(m - {k}) + v
  {
    TotalWithout(m[k := v], k);
    assert m[k := v] - {k} == m - {k};
  }

  /** Bytes of an outstanding reservation. */
  function Outstanding(m: Reserved, k: nat): nat { if k in m then m[k] else 0 }

  lemma {:induction false} Overwrite(m: Reserved, k: nat, v: nat)
    ensures TotalOf(m[k := v]) + Outstanding(m, k) == TotalOf(m) + v
  {
    TotalWith(m, k, v);
    if k in m {
      TotalWithout(m, k);
    } else {
      assert m - {k} == m;
    }
  }

  function Granted(g: seq<Grant>): nat {
    if g == [] then 0 else g[0].sz + Granted(g[1..])
  }

  /** The grants without one that is equal to `x`. */
  function Used(g: seq<Grant>, x: Grant): seq<Grant> {
    if g == [] then [] else if g[0] == x then g[1..] else [g[0]] + Used(g[1..], x)
  }

  lemma {:induction false} UsedBytes(g: seq<Grant>, x: Grant)
    requires x in g
    ensures Granted(g) == x.sz + Granted(Used(g, x))
  {
    if g[0] != x {
      UsedBytes(g[1..], x);
      assert ([g[0]] + Used(g[1..], x))[1..] == Used(g[1..], x);
    }
  }

  lemma {:induction false} OneMoreGrant(g: seq<Grant>, x: Grant)
    ensures Granted([x] + g) == x.sz + Granted(g)
  {
    assert ([x] + g)[1..] == g;
  }

  /** What is held is what is granted, reserved or lost. */
  ghost predicate Exact(s: State) { s.held == Granted(s.grants) + TotalOf(s.reserved) + s.lost }

  /** Bytes the head record accounts for. */
  ghost function Accounted(s: State): nat { Sum(s.ring) + s.held }

  // ----- requests -----

  /** Where a commit may fail once room has been made, with the deps its info file reads as afterwards:
      None when there is no such file or it cannot be decoded. */
  datatype Fault = NoFault(read: Option<Deps>) | InfoFault(read: Option<Deps>) | RenameFault(read: Option<Deps>)

  /** A request together with what its environment decided: the answer of the match, the clock,
      whether a hit differs from what was uploaded, the sizes of the files, the faults.  Write is the
      uploader writing its reservation file. */
  datatype Event =
    | Upload(key: nat, sz: nat)
    | Write(key: nat, sz: nat)
    | Dismiss(key: nat)
    | Download(job: string, deps: Deps, answer: Answer, now: int)
    | Commit(key: nat, job: string, repoKey: string, deps: Deps, dataSz: nat, infoSz: nat,
             answer: Answer, differs: bool, fault: Fault, now: int)

  datatype Outcome = Done | Refused | NoUpload | NoEntry | Faulted | Differs | Stopped

  /** An estimate of the size of the record file is part of the size of an entry. */
  const SIZEOF_LRU: nat := 80

  function EntrySz(e: Name, dataSz: nat, infoSz: nat): (sz: nat)
    requires e.Entry?
    ensures sz > dataSz + infoSz
  {
    dataSz + infoSz + SIZEOF_LRU + 2 * (|e.job| + |e.key| + 2)
  }

  predicate Listed(q: seq<Item>, e: Name) { Find(q, e) < |q| }

  function FirstKey(repoKey: string): string { "key-" + repoKey + "-first" }

  function LastKey(repoKey: string): string { "key-" + repoKey + "-last" }

  /** The entry a commit writes: the first one of the repo key, or the last one when a first exists. */
  function CommitTarget(q: seq<Item>, job: string, repoKey: string): Name {
    if Listed(q, Entry(job, FirstKey(repoKey))) then Entry(job, LastKey(repoKey))
    else Entry(job, FirstKey(repoKey))
  }

  /** Keep only the newest entries that fit in `room` bytes. */
  ghost function Evict(s: State, room: nat): State {
    var n := Kept(s.ring, room);
    s.(ring := s.ring[..n], infos := s.infos - Names(s.ring[n..]))
  }

  ghost function Erase(s: State, e: Name): State {
    s.(ring := Without(s.ring, e), infos := s.infos - {e})
  }

  function Minus(a: nat, b: nat): nat { if b <= a then a - b else 0 }

  /** The reservation and the bytes it held. */
  ghost function Forget(s: State, key: nat): State {
    s.(reserved := s.reserved - {key}, held := Minus(s.held, Outstanding(s.reserved, key)))
  }

  ghost function Put(m: map<Name, Deps>, e: Name, read: Option<Deps>): map<Name, Deps> {
    if read.Some? then m[e := read.value] else m
  }

  ghost function Store(s: State, e: Name, sz: nat, read: Option<Deps>, now: int): State {
    s.(ring := [Item(e, sz, now)] + s.ring, infos := Put(s.infos, e, read))
  }

  /** Giving back a reservation looks for room as everything else: it evicts what does not fit, and
      fails when the other reservations do not fit by themselves. */
  ghost function Dismissed(s: State, max: nat, key: nat): State {
    var t := Forget(s, key);
    if t.held > max then s else Evict(t, max - t.held)
  }

  ghost function Apply(s: State, max: nat, ev: Event): State {
    match ev
    case Upload(key, sz) =>
      if s.held + sz > max then s
      else Evict(s, max - s.held - sz).(grants := [Grant(key, sz)] + s.grants, held := s.held + sz)
    case Write(key, sz) =>
      if Grant(key, sz) !in s.grants then s
      else s.(grants := Used(s.grants, Grant(key, sz)), reserved := s.reserved[key := sz],
              lost := s.lost + Outstanding(s.reserved, key))
    case Dismiss(key) => if key in s.reserved then Dismissed(s, max, key) else s
    case Download(job, _, answer, now) =>
      if answer.Hit? && Listed(s.ring, Entry(job, answer.key)) then
        var e := Entry(job, answer.key);
        s.(ring := [Item(e, SizeOf(s.ring, e), now)] + Without(s.ring, e))
      else s
    case Commit(key, job, repoKey, _, dataSz, infoSz, answer, _, fault, now) =>
      if key !in s.reserved || answer.Clash? then s
      else if answer.Hit? then Dismissed(s, max, key)
      else CommitAt(s, max, key, CommitTarget(s.ring, job, repoKey), dataSz, infoSz, fault, now)
  }

  ghost function CommitAt(s: State, max: nat, key: nat, e: Name, dataSz: nat, infoSz: nat, fault: Fault, now: int): State
    requires e.Entry?
  {
    CommitInto(s, max, key, e, EntrySz(e, dataSz, infoSz), fault, now)
  }

  /** What the entry held is erased first; its bytes are given back with the reservation. */
  ghost function CommitInto(s: State, max: nat, key: nat, e: Name, sz: nat, fault: Fault, now: int): State {
    var t := Forget(Erase(s, e), key);
    if t.held + sz <= max then CommitRoomMade(Evict(t, max - t.held - sz), e, sz, fault, now)
    else if t.held <= max then Evict(t, max - t.held)
    else Stranded(s, e)
  }

  /** The bytes of an erased entry stay in the account. */
  ghost function Stranded(s: State, e: Name): State {
    Erase(s, e).(held := s.held + SizeOf(s.ring, e), lost := s.lost + SizeOf(s.ring, e))
  }

  /** What a failed commit leaves of its info: the directory has been erased before, so that it is not
      erased again. */
  function Leftover(fault: Fault): Option<Deps> {
    if fault.NoFault? then None else fault.read
  }

  ghost function CommitRoomMade(s: State, e: Name, sz: nat, fault: Fault, now: int): State {
    if fault.NoFault? then Store(s, e, sz, fault.read, now)
    else s.(infos := Put(s.infos, e, fault.read))
  }

  function JobInfos(infos: map<Name, Deps>, job: string): Infos {
    map n | n in infos && n.Entry? && n.job == job :: n.key := infos[n]
  }

  /** The answer of the event is one the match may give in this state. */
  ghost predicate Honest(s: State, ev: Event) {
    && (ev.Download? ==> Answered(JobInfos(s.infos, ev.job), ev.deps, false, ev.answer))
    && (ev.Commit? && ev.key in s.reserved ==> Answered(JobInfos(s.infos, ev.job), ev.deps, true, ev.answer))
  }

  ghost function Run(s: State, max: nat, evs: seq<Event>): State
    decreases |evs|
  {
    if evs == [] then s else Run(Apply(s, max, evs[0]), max, evs[1..])
  }

  lemma {:induction false} RunAppend(s: State, max: nat, evs: seq<Event>, ev: Event)
    ensures Run(s, max, evs + [ev]) == Apply(Run(s, max, evs), max, ev)
    decreases |evs|
  {
    if evs == [] {
      assert ([ev])[1..] == [];
      assert Run(Apply(s, max, ev), max, []) == Apply(s, max, ev);
      assert evs + [ev] == [ev];
    } else {
      RunAppend(Apply(s, max, evs[0]), max, evs[1..], ev);
      assert (evs + [ev])[1..] == evs[1..] + [ev];
    }
  }

  ghost predicate HonestRun(s: State, max: nat, evs: seq<Event>)
    decreases |evs|
  {
    evs == [] || (Honest(s, evs[0]) && HonestRun(Apply(s, max, evs[0]), max, evs[1..]))
  }

  lemma {:induction false} HonestAppend(s: State, max: nat, evs: seq<Event>, ev: Event)
    requires HonestRun(s, max, evs) && Honest(Run(s, max, evs), ev)
    ensures HonestRun(s, max, evs + [ev])
    decreases |evs|
  {
    if evs == [] {
      assert [] + [ev] == [ev] && [ev][1..] == [];
    } else {
      HonestAppend(Apply(s, max, evs[0]), max, evs[1..], ev);
      assert (evs + [ev])[1..] == evs[1..] + [ev];
    }
  }

  // ----- invariant -----

  ghost predicate Positive(q: seq<Item>) {
    forall i :: 0 <= i < |q| ==> q[i].sz > 0
  }

  ghost predicate Good(s: State) {
    match s case State(ring, _, _, _, _, _) => Distinct(ring) && Positive(ring)
  }

  ghost predicate Inv(s: State, max: nat) { Good(s) && Accounted(s) <= max }

  /** The entries whose deps can be read although they are not listed, with these deps. */
  ghost function Orphans(s: State): map<Name, Deps> { s.infos - Names(s.ring) }

  lemma {:induction false} WithoutFacts(q: seq<Item>, e: Name)
    requires Distinct(q) && Positive(q)
    ensures Distinct(Without(q, e)) && Positive(Without(q, e))
    ensures Sum(Without(q, e)) == Sum(q) - SizeOf(q, e)
    ensures Names(Without(q, e)) == Names(q) - {e}
    ensures Listed(q, e) <==> SizeOf(q, e) > 0
    ensures Listed(q, e) <==> e in Names(q)
  {
    var i := Find(q, e);
    if i < |q| {
      SumRemove(q, i);
      CutDistinct(q, i);
      CutNameSet(q, i);
    }
  }

  lemma {:induction false} CutNameSet(q: seq<Item>, i: nat)
    requires Distinct(q) && i < |q|
    ensures Names(Cut(q, i)) == Names(q) - {q[i].name}
  {
    var r := Cut(q, i);
    forall n | n in Names(q) && n != q[i].name
      ensures n in Names(r)
    {
      var k :| 0 <= k < |q| && q[k].name == n;
      assert r[if k < i then k else k - 1] == q[k];
    }
    forall j | 0 <= j < |r|
      ensures r[j].name in Names(q) && r[j].name != q[i].name
    {
      assert r[j] == q[if j < i then j else j + 1];
    }
  }

  lemma {:induction false} PrependFacts(q: seq<Item>, x: Item)
    requires Distinct(q) && Positive(q) && x.name.Entry? && x.name !in Names(q) && x.sz > 0
    ensures Distinct([x] + q) && Positive([x] + q)
    ensures Sum([x] + q) == x.sz + Sum(q)
    ensures Names([x] + q) == Names(q) + {x.name}
  {
    var r := [x] + q;
    assert r[1..] == q;
    forall i, j | 0 <= i < j < |r|
      ensures r[i].name != r[j].name
    {
      assert q[j - 1].name in Names(q);
    }
    assert r[0].name in Names(r);
    assert forall i :: 0 <= i < |q| ==> r[i + 1] == q[i];
    forall n | n in Names(q)
      ensures n in Names(r)
    {
      var i :| 0 <= i < |q| && q[i].name == n;
      assert r[i + 1].name == n;
    }
  }

  lemma {:induction false} PrefixFacts(q: seq<Item>, n: nat)
    requires Distinct(q) && Positive(q) && n <= |q|
    ensures Distinct(q[..n]) && Positive(q[..n])
    ensures Names(q[..n]) == Names(q) - Names(q[n..])
  {
    assert q == q[..n] + q[n..];
    forall i | 0 <= i < n
      ensures q[i].name !in Names(q[n..])
    {
      assert forall j :: 0 <= j < |q[n..]| ==> q[n..][j] == q[n + j];
    }
  }

  lemma {:induction false} EvictFacts(s: State, room: nat)
    requires Good(s)
    ensures var t := Evict(s, room);
      && Good(t) && Sum(t.ring) <= room && t.ring <= s.ring && t.held == s.held
      && Names(t.ring) <= Names(s.ring)
      && Orphans(t) == Orphans(s)
      && (Sum(s.ring) <= room ==> t == s)
  {
    var n := Kept(s.ring, room);
    PrefixFacts(s.ring, n);
    if Sum(s.ring) <= room {
      KeptAll(s.ring, room);
      assert n == |s.ring| && s.ring[..n] == s.ring && s.ring[n..] == [];
      assert s.infos - {} == s.infos;
    }
  }

  lemma {:induction false} EraseOrphans(s: State, t: State, e: Name)
    requires Names(t.ring) == Names(s.ring) - {e} && t.infos == s.infos - {e}
    ensures Orphans(t) == Orphans(s) - {e}
  {
  }

  lemma {:induction false} EraseFacts(s: State, e: Name)
    requires Good(s)
    ensures var t := Erase(s, e);
      && Good(t) && Names(t.ring) == Names(s.ring) - {e} && Sum(t.ring) == Sum(s.ring) - SizeOf(s.ring, e)
      && Orphans(t) == Orphans(s) - {e}
      && (SizeOf(s.ring, e) > 0 <==> e in Names(s.ring))
  {
    WithoutFacts(s.ring, e);
    EraseOrphans(s, Erase(s, e), e);
  }

  lemma {:induction false} ForgetFacts(s: State, key: nat)
    requires Good(s)
    ensures var t := Forget(s, key); Good(t) && t.ring == s.ring && Orphans(t) == Orphans(s) && t.held <= s.held
  {
  }

  /** What a dismissal may do: nothing, or bring the cache within the maximum. */
  lemma {:induction false} DismissedFacts(s: State, max: nat, key: nat)
    requires Good(s) && key in s.reserved
    ensures var t := Dismissed(s, max, key);
      && Good(t) && Names(t.ring) <= Names(s.ring)
      && Orphans(t) == Orphans(s)
      && (Forget(s, key).held <= max ==> Accounted(t) <= max)
      && (Forget(s, key).held > max ==> t == s)
      && (Accounted(s) <= max ==> t == Forget(s, key))
  {
    ForgetFacts(s, key);
    if Forget(s, key).held <= max {
      EvictFacts(Forget(s, key), max - Forget(s, key).held);
    }
  }

  /** A dismissal fails exactly when the other reservations exceed the maximum, and evicts something exactly
      when they fit and the entries do not fit with them. */
  lemma {:induction false} DismissalOutcome(s: State, max: nat, key: nat)
    requires Good(s) && key in s.reserved
    ensures var t := Dismissed(s, max, key); var others := Forget(s, key).held;
      && (key in t.reserved <==> others > max)
      && (t.ring != s.ring <==> others <= max < others + Sum(s.ring))
  {
    var others := Forget(s, key).held;
    if others <= max {
      EvictFacts(Forget(s, key), max - others);
    }
  }

  /** Entry `e` aside, what can be read without being listed stays the same. */
  ghost predicate Rewritten(s: State, t: State, e: Name, left: Option<Deps>) {
    match t
    case State(ring, _, _, _, _, _) =>
      Good(t) && Names(ring) <= Names(s.ring) + {e} && Orphans(t) == Put(Orphans(s) - {e}, e, left)
  }

  lemma {:induction false} RoomMadeFacts(s: State, max: nat, e: Name, sz: nat, fault: Fault, now: int)
    requires Good(s) && Accounted(s) + sz <= max && e.Entry? && e !in Names(s.ring) && e !in s.infos && sz > 0
    ensures var t := CommitRoomMade(s, e, sz, fault, now);
      Inv(t, max) && Rewritten(s, t, e, Leftover(fault)) && t.lost == s.lost
  {
    PrependFacts(s.ring, Item(e, sz, now));
  }

  lemma {:induction false} ErasedFacts(s: State, key: nat, e: Name)
    requires Good(s)
    ensures var t := Forget(Erase(s, e), key);
      && Rewritten(s, t, e, None) && e !in Names(t.ring) && e !in t.infos
      && t.held == Forget(s, key).held && t.lost == s.lost
  {
    EraseFacts(s, e);
  }

  lemma {:induction false} EvictAfter(s: State, t: State, e: Name, room: nat)
    requires Good(s) && Rewritten(s, t, e, None) && e !in Names(t.ring) && e !in t.infos
    ensures var u := Evict(t, room);
      && Rewritten(s, u, e, None) && e !in Names(u.ring) && e !in u.infos && Sum(u.ring) <= room
      && u.held == t.held && u.lost == t.lost
  {
    EvictFacts(t, room);
  }

  /** The commit finds room for its entry. */
  ghost predicate Fits(s: State, max: nat, key: nat, sz: nat) { Forget(s, key).held + sz <= max }

  lemma {:induction false} RewrittenThen(s: State, u: State, t: State, e: Name, left: Option<Deps>)
    requires Rewritten(s, u, e, None) && Rewritten(u, t, e, left)
    ensures Rewritten(s, t, e, left)
  {
  }

  lemma {:induction false} FittingIsRoomMade(s: State, max: nat, key: nat, e: Name, sz: nat, u: State)
    requires Fits(s, max, key, sz) && u == Evict(Forget(Erase(s, e), key), max - Forget(s, key).held - sz)
    ensures forall fault, now :: CommitInto(s, max, key, e, sz, fault, now) == CommitRoomMade(u, e, sz, fault, now)
  {
    assert Forget(Erase(s, e), key).held == Forget(s, key).held;
  }

  /** What a commit that fits goes through. */
  lemma {:induction false} FittingSteps(s: State, max: nat, key: nat, e: Name, sz: nat) returns (u: State)
    requires Good(s) && e.Entry? && sz > 0 && Fits(s, max, key, sz)
    ensures forall fault, now :: CommitInto(s, max, key, e, sz, fault, now) == CommitRoomMade(u, e, sz, fault, now)
    ensures Rewritten(s, u, e, None) && e !in Names(u.ring) && e !in u.infos && Accounted(u) + sz <= max && u.lost == s.lost
  {
    var room := max - Forget(s, key).held - sz;
    u := Evict(Forget(Erase(s, e), key), room);
    FittingIsRoomMade(s, max, key, e, sz, u);
    ErasedFacts(s, key, e);
    EvictAfter(s, Forget(Erase(s, e), key), e, room);
  }

  lemma {:induction false} FittingCommit(s: State, max: nat, key: nat, e: Name, sz: nat, fault: Fault, now: int) returns (t: State)
    requires Good(s) && e.Entry? && sz > 0 && Fits(s, max, key, sz)
    ensures t == CommitInto(s, max, key, e, sz, fault, now)
    ensures Inv(t, max) && Rewritten(s, t, e, Leftover(fault)) && t.lost == s.lost
  {
    var u := FittingSteps(s, max, key, e, sz);
    t := CommitRoomMade(u, e, sz, fault, now);
    RoomMadeFacts(u, max, e, sz, fault, now);
    RewrittenThen(s, u, t, e, Leftover(fault));
  }

  /** The commit is refused, and what it held is given back. */
  lemma {:induction false} RefusedCommit(s: State, max: nat, key: nat, e: Name, sz: nat, fault: Fault, now: int)
    requires Good(s) && !Fits(s, max, key, sz) && Forget(s, key).held <= max
    ensures var t := CommitInto(s, max, key, e, sz, fault, now);
      Rewritten(s, t, e, None) && Accounted(t) <= max && t.lost == s.lost
  {
    var t := Forget(Erase(s, e), key);
    ErasedFacts(s, key, e);
    EvictAfter(s, t, e, max - t.held);
  }

  /** The commit is refused, and what it held cannot be given back. */
  lemma {:induction false} StrandedCommit(s: State, max: nat, key: nat, e: Name, sz: nat, fault: Fault, now: int)
    requires Good(s) && Forget(s, key).held > max
    ensures var t := CommitInto(s, max, key, e, sz, fault, now);
      Rewritten(s, t, e, None) && Accounted(t) == Accounted(s) && t.lost == s.lost + SizeOf(s.ring, e)
  {
    StrandedIs(s, max, key, e, sz, fault, now);
    EraseFacts(s, e);
  }

  lemma {:induction false} StrandedIs(s: State, max: nat, key: nat, e: Name, sz: nat, fault: Fault, now: int)
    requires Forget(s, key).held > max
    ensures CommitInto(s, max, key, e, sz, fault, now) == Stranded(s, e)
  {
    assert Forget(Erase(s, e), key).held == Forget(s, key).held;
  }

  /** The event is a commit that goes as far as writing its entry, or trying to. */
  ghost predicate Populates(s: State, ev: Event) {
    ev.Commit? && ev.key in s.reserved && !ev.answer.Clash? && !ev.answer.Hit?
  }

  function TargetOf(s: State, ev: Event): (e: Name)
    requires ev.Commit?
    ensures e.Entry? && e.job == ev.job
  {
    CommitTarget(s.ring, ev.job, ev.repoKey)
  }

  /** What a commit reports. */
  ghost function OutcomeOf(s: State, max: nat, ev: Event): Outcome
    requires ev.Commit?
  {
    var others := Forget(s, ev.key).held;
    if ev.key !in s.reserved then NoUpload
    else if ev.answer.Clash? then Stopped
    else if ev.answer.Hit? then (if others > max then Refused else if ev.differs then Differs else Done)
    else if others + EntrySz(TargetOf(s, ev), ev.dataSz, ev.infoSz) > max then Refused
    else if ev.fault.NoFault? then Done else Faulted
  }

  /** The key of the entry that has the content after a commit that is done. */
  function WrittenBy(s: State, ev: Event): string
    requires ev.Commit?
  {
    if ev.answer.Hit? then ev.answer.key else TargetOf(s, ev).key
  }

  /** What the event leaves of the info of its entry without listing it. */
  ghost function LeftBy(s: State, max: nat, ev: Event): Option<Deps>
    requires ev.Commit?
  {
    if Fits(s, max, ev.key, EntrySz(TargetOf(s, ev), ev.dataSz, ev.infoSz)) then Leftover(ev.fault) else None
  }

  lemma {:induction false} CommitFacts(s: State, max: nat, ev: Event)
    requires Good(s) && Populates(s, ev)
    ensures var t := Apply(s, max, ev);
      && Rewritten(s, t, TargetOf(s, ev), LeftBy(s, max, ev))
      && (Forget(s, ev.key).held <= max ==> Accounted(t) <= max && t.lost == s.lost)
      && (Forget(s, ev.key).held > max ==> Accounted(t) == Accounted(s) && t.lost == s.lost + SizeOf(s.ring, TargetOf(s, ev)))
  {
    var e := TargetOf(s, ev);
    var sz := EntrySz(e, ev.dataSz, ev.infoSz);
    if Fits(s, max, ev.key, sz) {
      var _ := FittingCommit(s, max, ev.key, e, sz, ev.fault, ev.now);
    } else if Forget(s, ev.key).held <= max {
      RefusedCommit(s, max, ev.key, e, sz, ev.fault, ev.now);
    } else {
      StrandedCommit(s, max, ev.key, e, sz, ev.fault, ev.now);
    }
  }

  /** A commit that writes reports that it is done exactly when its entry is listed; it is then the newest one,
      with the deps its info reads as. */
  lemma {:induction false} DoneIffStored(s: State, max: nat, ev: Event)
    requires Good(s) && Populates(s, ev)
    ensures var t := Apply(s, max, ev); var e := TargetOf(s, ev);
      && (OutcomeOf(s, max, ev) == Done <==> e in Names(t.ring))
      && (OutcomeOf(s, max, ev) == Done ==> t.ring[0].name == e)
      && (OutcomeOf(s, max, ev) == Done ==> ev.fault.read == if e in t.infos then Some(t.infos[e]) else None)
  {
    var t, e, u := Apply(s, max, ev), TargetOf(s, ev), Forget(Erase(s, TargetOf(s, ev)), ev.key);
    ErasedFacts(s, ev.key, e);
    if OutcomeOf(s, max, ev) == Done {
      assert t.ring[0].name == e;
    } else if u.held <= max {
      EvictNames(u, if OutcomeOf(s, max, ev) == Refused then max - u.held
                    else max - u.held - EntrySz(e, ev.dataSz, ev.infoSz));
    }
  }

  lemma {:induction false} EvictNames(s: State, room: nat)
    requires Good(s)
    ensures Names(Evict(s, room).ring) <= Names(s.ring)
  {
    EvictFacts(s, room);
  }

  lemma {:induction false} EvictForget(s: State, room: nat, key: nat)
    ensures Evict(Forget(s, key), room) == Forget(Evict(s, room), key)
  {
  }

  /** The commit evicts before the reservation is forgotten. */
  lemma {:induction false} FittingIs(s: State, max: nat, key: nat, e: Name, sz: nat, fault: Fault, now: int, others: nat)
    requires others == Forget(s, key).held && others + sz <= max
    ensures CommitInto(s, max, key, e, sz, fault, now)
         == CommitRoomMade(Forget(Evict(Erase(s, e), max - others - sz), key), e, sz, fault, now)
  {
    assert Forget(Erase(s, e), key).held == others;
    EvictForget(Erase(s, e), max - others - sz, key);
  }

  lemma {:induction false} RefusedIs(s: State, max: nat, key: nat, e: Name, sz: nat, fault: Fault, now: int, others: nat, t: State)
    requires others == Forget(s, key).held && others <= max < others + sz
    requires t == Evict(Erase(s, e), max - others).(reserved := s.reserved - {key}, held := others)
    ensures CommitInto(s, max, key, e, sz, fault, now) == t
  {
    assert Forget(Erase(s, e), key).held == others;
    EvictForget(Erase(s, e), max - others, key);
  }

  lemma {:induction false} DownloadFacts(s: State, max: nat, ev: Event)
    requires Good(s) && ev.Download?
    ensures var t := Apply(s, max, ev);
      Good(t) && Accounted(t) == Accounted(s) && Names(t.ring) == Names(s.ring) && t.infos == s.infos && t.lost == s.lost
  {
    if ev.answer.Hit? && Listed(s.ring, Entry(ev.job, ev.answer.key)) {
      var e := Entry(ev.job, ev.answer.key);
      WithoutFacts(s.ring, e);
      PrependFacts(Without(s.ring, e), Item(e, SizeOf(s.ring, e), ev.now));
    }
  }

  lemma {:induction false} UploadFacts(s: State, max: nat, ev: Event)
    requires Good(s) && ev.Upload? && s.held + ev.sz <= max
    ensures var t := Apply(s, max, ev);
      && Inv(t, max) && Names(t.ring) <= Names(s.ring) && t.lost == s.lost
      && Orphans(t) == Orphans(s)
  {
    var u := Evict(s, max - s.held - ev.sz);
    EvictFacts(s, max - s.held - ev.sz);
    assert Apply(s, max, ev) == u.(grants := [Grant(ev.key, ev.sz)] + u.grants, held := u.held + ev.sz);
  }

  /** The request looks for room and finds it. */
  ghost predicate MakesRoom(s: State, max: nat, ev: Event) {
    match ev
    case Upload(_, sz) => s.held + sz <= max
    case Dismiss(key) => key in s.reserved && Forget(s, key).held <= max
    case Commit(key, _, _, _, _, _, answer, _, _, _) =>
      key in s.reserved && !answer.Clash? && Forget(s, key).held <= max
    case _ => false
  }

  /** A request leaves the total alone unless it makes room, and then the cache fits: a cache above the
      maximum, after the maximum was lowered, never grows. */
  lemma {:induction false} StepBounds(s: State, max: nat, ev: Event)
    requires Good(s)
    ensures var t := Apply(s, max, ev);
      Good(t) && Accounted(t) <= if MakesRoom(s, max, ev) then max else Accounted(s)
  {
    match ev
    case Upload(_, sz) =>
      if s.held + sz <= max {
        UploadFacts(s, max, ev);
      }
    case Write(_, _) =>
    case Download(_, _, _, _) => DownloadFacts(s, max, ev);
    case Dismiss(key) =>
      if key in s.reserved {
        DismissedFacts(s, max, key);
      }
    case Commit(key, _, _, _, _, _, _, _, _, _) =>
      if Populates(s, ev) {
        CommitFacts(s, max, ev);
      } else if key in s.reserved && ev.answer.Hit? {
        DismissedFacts(s, max, key);
      }
  }

  lemma {:induction false} StepKeepsInv(s: State, max: nat, ev: Event)
    requires Inv(s, max)
    ensures Inv(Apply(s, max, ev), max)
  {
    StepBounds(s, max, ev);
  }

  /** Over every run, entries and reservations together never exceed the maximum size, or what they were
      at the start. */
  lemma {:induction false} RunKeepsInv(s: State, max: nat, evs: seq<Event>)
    requires Good(s)
    ensures Good(Run(s, max, evs)) && (Inv(s, max) ==> Inv(Run(s, max, evs), max))
    ensures Accounted(Run(s, max, evs)) <= max || Accounted(Run(s, max, evs)) <= Accounted(s)
    decreases |evs|
  {
    if evs != [] {
      StepBounds(s, max, evs[0]);
      RunKeepsInv(Apply(s, max, evs[0]), max, evs[1..]);
    }
  }

  // ----- what is held is granted, reserved or lost -----

  lemma {:induction false} ForgetKeepsExact(s: State, key: nat)
    requires Exact(s)
    ensures Exact(Forget(s, key)) && Outstanding(s.reserved, key) <= s.held
  {
    if key in s.reserved {
      TotalWithout(s.reserved, key);
    } else {
      assert s.reserved - {key} == s.reserved;
    }
  }

  lemma {:induction false} CommitHolds(s: State, max: nat, key: nat, e: Name, sz: nat, fault: Fault, now: int)
    ensures var t := CommitInto(s, max, key, e, sz, fault, now); var u := Forget(s, key);
      && t.grants == s.grants
      && (u.held <= max ==> t.reserved == u.reserved && t.held == u.held && t.lost == s.lost)
      && (u.held > max ==> t == Stranded(s, e))
  {
  }

  lemma {:induction false} CommitKeepsExact(s: State, max: nat, key: nat, e: Name, sz: nat, fault: Fault, now: int)
    requires Exact(s)
    ensures Exact(CommitInto(s, max, key, e, sz, fault, now))
  {
    ForgetKeepsExact(s, key);
    CommitHolds(s, max, key, e, sz, fault, now);
  }

  /** Every request keeps the account of what is held exact. */
  lemma {:induction false} StepKeepsExact(s: State, max: nat, ev: Event)
    requires Exact(s)
    ensures Exact(Apply(s, max, ev))
  {
    match ev
    case Upload(key, sz) => OneMoreGrant(s.grants, Grant(key, sz));
    case Write(key, sz) =>
      if Grant(key, sz) in s.grants {
        UsedBytes(s.grants, Grant(key, sz));
        Overwrite(s.reserved, key, sz);
      }
    case Dismiss(key) => ForgetKeepsExact(s, key);
    case Download(_, _, _, _) =>
    case Commit(key, _, _, _, _, _, answer, _, fault, now) =>
      if Populates(s, ev) {
        var e := TargetOf(s, ev);
        CommitKeepsExact(s, max, key, e, EntrySz(e, ev.dataSz, ev.infoSz), fault, now);
      } else {
        ForgetKeepsExact(s, key);
      }
  }

  lemma {:induction false} RunKeepsExact(s: State, max: nat, evs: seq<Event>)
    requires Exact(s)
    ensures Exact(Run(s, max, evs))
    decreases |evs|
  {
    if evs != [] {
      StepKeepsExact(s, max, evs[0]);
      RunKeepsExact(Apply(s, max, evs[0]), max, evs[1..]);
    }
  }

  // ----- when something is lost -----

  /** A reservation that holds some bytes is overwritten. */
  ghost predicate Clobbers(s: State, ev: Event) {
    ev.Write? && Grant(ev.key, ev.sz) in s.grants && Outstanding(s.reserved, ev.key) > 0
  }

  /** The commit erases a listed entry, then finds that it cannot even give its bytes back. */
  ghost predicate Strands(s: State, max: nat, ev: Event) {
    Populates(s, ev) && Forget(s, ev.key).held > max && TargetOf(s, ev) in Names(s.ring)
  }

  ghost predicate NoLoss(s: State, max: nat, evs: seq<Event>)
    decreases |evs|
  {
    evs == [] || (!Clobbers(s, evs[0]) && !Strands(s, max, evs[0]) && NoLoss(Apply(s, max, evs[0]), max, evs[1..]))
  }

  lemma {:induction false} StepLoses(s: State, max: nat, ev: Event)
    requires Good(s)
    ensures Apply(s, max, ev).lost >= s.lost
    ensures Apply(s, max, ev).lost == s.lost <==> !Clobbers(s, ev) && !Strands(s, max, ev)
  {
    match ev
    case Upload(_, sz) =>
      if s.held + sz <= max {
        UploadFacts(s, max, ev);
      }
    case Write(_, _) =>
    case Download(_, _, _, _) => DownloadFacts(s, max, ev);
    case Dismiss(_) =>
    case Commit(_, _, _, _, _, _, _, _, _, _) =>
      if Populates(s, ev) {
        EraseFacts(s, TargetOf(s, ev));
        CommitFacts(s, max, ev);
      }
  }

  /** A cache within its maximum strands nothing. */
  lemma {:induction false} FittingNeverStrands(s: State, max: nat, ev: Event)
    requires Inv(s, max)
    ensures !Strands(s, max, ev)
  {
  }

  /** Bytes are lost over a run exactly when one of its events overwrites a reservation in use, or
      strands an entry. */
  lemma {:induction false} RunLosesNothingIff(s: State, max: nat, evs: seq<Event>)
    requires Good(s)
    ensures Run(s, max, evs).lost >= s.lost
    ensures Run(s, max, evs).lost == s.lost <==> NoLoss(s, max, evs)
    decreases |evs|
  {
    if evs != [] {
      StepLoses(s, max, evs[0]);
      StepBounds(s, max, evs[0]);
      RunLosesNothingIff(Apply(s, max, evs[0]), max, evs[1..]);
    }
  }

  lemma {:induction false} FirstUpload(max: nat, key: nat, sz: nat)
    requires sz <= max
    ensures Run(EMPTY_CACHE, max, [Upload(key, sz)]) == State([], map[], [Grant(key, sz)], map[], sz, 0)
  {
    RunAppend(EMPTY_CACHE, max, [], Upload(key, sz));
    assert [] + [Upload(key, sz)] == [Upload(key, sz)];
    assert [Grant(key, sz)] + [] == [Grant(key, sz)];
  }

  lemma {:induction false} FirstReservation(max: nat, key: nat, sz: nat)
    requires sz <= max
    ensures Run(EMPTY_CACHE, max, [Upload(key, sz), Write(key, sz)]) == State([], map[], [], map[key := sz], sz, 0)
  {
    FirstUpload(max, key, sz);
    RunAppend(EMPTY_CACHE, max, [Upload(key, sz)], Write(key, sz));
    assert [Upload(key, sz)] + [Write(key, sz)] == [Upload(key, sz), Write(key, sz)];
    assert [Grant(key, sz)][1..] == [];
  }

  /** An upload that is dismissed before it has written its reservation is not given back. */
  lemma {:induction false} EarlyDismiss(max: nat, key: nat, sz: nat)
    requires sz <= max
    ensures var t := Run(EMPTY_CACHE, max, [Upload(key, sz), Dismiss(key)]);
      t.reserved == map[] && t.grants == [Grant(key, sz)] && t.held == sz
  {
    FirstUpload(max, key, sz);
    RunAppend(EMPTY_CACHE, max, [Upload(key, sz)], Dismiss(key));
    assert [Upload(key, sz)] + [Dismiss(key)] == [Upload(key, sz), Dismiss(key)];
  }

  /** Two uploads that draw the same key: the bytes of the first one are never given back. */
  lemma {:induction false} SameKeyTwice(max: nat, key: nat, a: nat, b: nat)
    requires a + b <= max
    ensures Run(EMPTY_CACHE, max, [Upload(key, a), Write(key, a), Upload(key, b), Write(key, b)]).lost == a
  {
    var two := [Upload(key, a), Write(key, a)];
    FirstReservation(max, key, a);
    RunAppend(EMPTY_CACHE, max, two, Upload(key, b));
    RunAppend(EMPTY_CACHE, max, two + [Upload(key, b)], Write(key, b));
    assert two + [Upload(key, b)] + [Write(key, b)] == [Upload(key, a), Write(key, a), Upload(key, b), Write(key, b)];
  }
}
