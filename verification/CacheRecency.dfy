/** The ring is in order of last access, so that eviction is by least recent access. */
module CacheRecency {
  import opened Basics
  import opened LruRing
  import opened CacheMatch
  import opened CacheRuns

  ghost predicate Recent(q: seq<Item>) {
    forall i, j :: 0 <= i < j < |q| ==> q[i].lastAccess >= q[j].lastAccess
  }

  ghost predicate Before(q: seq<Item>, t: int) {
    forall i :: 0 <= i < |q| ==> q[i].lastAccess <= t
  }

  predicate Timed(ev: Event) { ev.Download? || ev.Commit? }

  /** The clock never goes backward. */
  ghost predicate Ticking(t: int, evs: seq<Event>)
    decreases |evs|
  {
    evs == [] ||
    if Timed(evs[0]) then t <= evs[0].now && Ticking(evs[0].now, evs[1..]) else Ticking(t, evs[1..])
  }

  lemma {:induction false} CutRecent(q: seq<Item>, e: Name, t: int)
    requires Recent(q) && Before(q, t)
    ensures Recent(Without(q, e)) && Before(Without(q, e), t)
  {
  }

  lemma {:induction false} PrependRecent(q: seq<Item>, x: Item, t: int)
    requires Recent(q) && Before(q, t) && t <= x.lastAccess
    ensures Recent([x] + q) && Before([x] + q, x.lastAccess)
  {
  }

  lemma {:induction false} EvictRecent(s: State, room: nat, t: int)
    requires Recent(s.ring) && Before(s.ring, t)
    ensures Recent(Evict(s, room).ring) && Before(Evict(s, room).ring, t)
  {
  }

  lemma {:induction false} DismissKeepsRecency(s: State, max: nat, key: nat, t: int)
    requires Recent(s.ring) && Before(s.ring, t)
    ensures Recent(Dismissed(s, max, key).ring) && Before(Dismissed(s, max, key).ring, t)
  {
    var u := Forget(s, key);
    if u.held <= max {
      EvictRecent(u, max - u.held, t);
    }
  }

  ghost predicate RecentUpTo(q: seq<Item>, t: int) { Recent(q) && Before(q, t) }

  /** The ring of a commit before its entry is listed. */
  lemma {:induction false} RingBefore(s: State, e: Name, key: nat, room: nat, t: int) returns (q: seq<Item>)
    requires RecentUpTo(s.ring, t)
    ensures q == Evict(Forget(Erase(s, e), key), room).ring && RecentUpTo(q, t)
  {
    q := Evict(Forget(Erase(s, e), key), room).ring;
    CutRecent(s.ring, e, t);
    EvictRecent(Forget(Erase(s, e), key), room, t);
  }

  lemma {:induction false} FittingRing(s: State, max: nat, key: nat, e: Name, sz: nat, fault: Fault, now: int, t: int)
    returns (q: seq<Item>)
    requires RecentUpTo(s.ring, t) && t <= now && Fits(s, max, key, sz)
    ensures q == CommitInto(s, max, key, e, sz, fault, now).ring && RecentUpTo(q, now)
  {
    q := RingBefore(s, e, key, max - Forget(s, key).held - sz, t);
    PrependRecent(q, Item(e, sz, now), t);
    if fault.NoFault? {
      q := [Item(e, sz, now)] + q;
    }
  }

  lemma {:induction false} RefusedRing(s: State, max: nat, key: nat, e: Name, sz: nat, fault: Fault, now: int, t: int)
    returns (q: seq<Item>)
    requires RecentUpTo(s.ring, t) && t <= now && !Fits(s, max, key, sz)
    ensures q == CommitInto(s, max, key, e, sz, fault, now).ring && RecentUpTo(q, now)
  {
    if Forget(s, key).held <= max {
      q := RingBefore(s, e, key, max - Forget(s, key).held, t);
    } else {
      q := Without(s.ring, e);
      CutRecent(s.ring, e, t);
    }
  }

  lemma {:induction false} CommitKeepsRecency(s: State, max: nat, ev: Event, t: int)
    requires RecentUpTo(s.ring, t) && Populates(s, ev) && t <= ev.now
    ensures RecentUpTo(Apply(s, max, ev).ring, ev.now)
  {
    var e := TargetOf(s, ev);
    var sz := EntrySz(e, ev.dataSz, ev.infoSz);
    if Fits(s, max, ev.key, sz) {
      var _ := FittingRing(s, max, ev.key, e, sz, ev.fault, ev.now, t);
    } else {
      var _ := RefusedRing(s, max, ev.key, e, sz, ev.fault, ev.now, t);
    }
  }

  lemma {:induction false} StepKeepsRecency(s: State, max: nat, ev: Event, t: int)
    requires Recent(s.ring) && Before(s.ring, t) && (Timed(ev) ==> t <= ev.now)
    ensures Recent(Apply(s, max, ev).ring)
    ensures Before(Apply(s, max, ev).ring, if Timed(ev) then ev.now else t)
  {
    match ev
    case Upload(key, sz) =>
      if s.held + sz <= max {
        EvictRecent(s, max - s.held - sz, t);
      }
    case Write(_, _) =>
    case Dismiss(key) => DismissKeepsRecency(s, max, key, t);
    case Download(job, _, answer, now) =>
      if answer.Hit? && Listed(s.ring, Entry(job, answer.key)) {
        var e := Entry(job, answer.key);
        CutRecent(s.ring, e, t);
        PrependRecent(Without(s.ring, e), Item(e, SizeOf(s.ring, e), now), t);
      }
    case Commit(key, _, _, _, _, _, _, _, _, _) =>
      if Populates(s, ev) {
        CommitKeepsRecency(s, max, ev, t);
      } else {
        DismissKeepsRecency(s, max, key, t);
      }
  }

  /** What is evicted was accessed no later than anything that is kept. */
  ghost predicate EvictsOldest(s: State) {
    forall room, i, j {:trigger Kept(s.ring, room), s.ring[i], s.ring[j]} ::
      0 <= i < Kept(s.ring, room) <= j < |s.ring| ==> s.ring[j].lastAccess <= s.ring[i].lastAccess
  }

  /** With a clock that never goes backward, eviction is by least recent access over every run. */
  lemma {:induction false} RunKeepsRecency(s: State, max: nat, evs: seq<Event>, t: int)
    requires Recent(s.ring) && Before(s.ring, t) && Ticking(t, evs)
    ensures Recent(Run(s, max, evs).ring) && EvictsOldest(Run(s, max, evs))
    decreases |evs|
  {
    if evs != [] {
      StepKeepsRecency(s, max, evs[0], t);
      RunKeepsRecency(Apply(s, max, evs[0]), max, evs[1..], if Timed(evs[0]) then evs[0].now else t);
    }
  }
}
