/** Whole sessions of the directory cache: every sequence of requests refines the reference, and the head
    accounts for what is there. */
module CacheSession {
  import opened Basics
  import opened Bytes
  import opened LruRing
  import opened LruCheck
  import opened Checksum
  import opened CacheMatch
  import opened CacheRuns
  import opened CacheInfo
  import opened DirCaches

  datatype Request =
    | AskUpload(key: nat, sz: nat)
    | AskWrite(key: nat, sz: nat)
    | AskDismiss(key: nat)
    | AskDownload(job: string, deps: Deps, now: int)
    | AskCommit(key: nat, job: string, repoKey: string, deps: Deps, jobInfo: bytes, dataSz: nat, differs: bool,
                io: Io, now: int)

  /** A request as callers may make it; repo keys are hexadecimal numbers. */
  ghost predicate Proper(r: Request) {
    && ((r.AskDownload? || r.AskCommit?) ==> DistinctNames(r.deps))
    && (r.AskCommit? ==> '/' !in r.repoKey)
  }

  /** The size of an info counts the place of a key in front of the messages. */
  const KEY_SZ: nat := 8

  /** The event is the request, together with what the environment decided; the fault of a commit comes from the
      writes of its info. */
  predicate Realizes(f: Format, r: Request, ev: Event) {
    match r
    case AskUpload(key, sz) => ev == Upload(key, sz)
    case AskWrite(key, sz) => ev == Write(key, sz)
    case AskDismiss(key) => ev == Dismiss(key)
    case AskDownload(job, deps, now) => ev.Download? && ev == Download(job, deps, ev.answer, now)
    case AskCommit(key, job, repoKey, deps, jobInfo, dataSz, differs, io, now) =>
      ev.Commit? && ev == Commit(key, job, repoKey, deps, dataSz, KEY_SZ + |InfoBytes(f, deps, jobInfo)|, ev.answer,
                                 differs, FaultOf(f, deps, jobInfo, io), now)
  }

  /** The directory is listed in any order. */
  method ListDir(keys: set<string>) returns (listing: seq<string>)
    ensures forall k :: k in keys ==> k in listing
  {
    listing := [];
    var left := keys;
    while left != {}
      invariant left <= keys
      invariant forall k :: k in keys ==> k in left || k in listing
      decreases left
    {
      var k :| k in left;
      listing := listing + [k];
      left := left - {k};
    }
  }

  method Step(c: DirCache, f: Format, r: Request) returns (ghost ev: Event)
    requires c.Valid() && c.Hinted() && Proper(r)
    requires (r.AskDismiss? || r.AskCommit?) ==> Outstanding(c.reserved, r.key) <= c.held
    modifies c
    ensures c.Valid() && c.Hinted() && Realizes(f, r, ev) && Honest(old(c.Abs()), ev)
    ensures c.Abs() == Apply(old(c.Abs()), c.maxSz, ev)
  {
    match r {
      case AskUpload(key, sz) =>
        ev := Upload(key, sz);
        StepKeepsNames(c.Abs(), c.maxSz, ev);
        var _ := c.SubUpload(key, sz);
      case AskWrite(key, sz) =>
        ev := Write(key, sz);
        c.WriteReservation(key, sz);
      case AskDismiss(key) =>
        ev := Dismiss(key);
        StepKeepsNames(c.Abs(), c.maxSz, ev);
        var _ := c.SubDismiss(key);
      case AskDownload(job, deps, now) =>
        var listing := ListDir(JobInfos(c.infos, job).Keys);
        var _, answer := c.SubDownload(job, deps, listing, now);
        ev := Download(job, deps, answer, now);
      case AskCommit(_, _, _, _, _, _, _, _, _) => ev := StepCommit(c, f, r);
    }
  }

  method StepCommit(c: DirCache, f: Format, r: Request) returns (ghost ev: Event)
    requires c.Valid() && c.Hinted() && Proper(r) && r.AskCommit? && Outstanding(c.reserved, r.key) <= c.held
    modifies c
    ensures c.Valid() && c.Hinted() && Realizes(f, r, ev) && Honest(old(c.Abs()), ev)
    ensures c.Abs() == Apply(old(c.Abs()), c.maxSz, ev)
  {
    var listing := ListDir(JobInfos(c.infos, r.job).Keys);
    var infoSz := KEY_SZ + |InfoBytes(f, r.deps, r.jobInfo)|;
    var fault := WriteInfo(f, r.deps, r.jobInfo, r.io, _ => 0, _ => 0);
    var _, answer := c.SubCommit(r.key, r.job, r.repoKey, r.deps, r.dataSz, infoSz, listing, r.differs, fault, r.now);
    ev := Commit(r.key, r.job, r.repoKey, r.deps, r.dataSz, infoSz, answer, r.differs, fault, r.now);
  }

  lemma {:induction false} StepKeepsNames(s: State, max: nat, ev: Event)
    requires !ev.Commit? && NoSlash(s.infos.Keys)
    ensures NoSlash(Apply(s, max, ev).infos.Keys)
  {
    InfosAfter(s, max, ev);
  }

  /** After any session the head accounts for the listed entries and for all that was granted, reserved or
      lost; nothing is lost exactly when no reservation in use is overwritten and no entry is stranded; and
      the total is within the maximum, or at least has not grown. */
  method Session(c: DirCache, f: Format, rs: seq<Request>) returns (ghost evs: seq<Event>)
    requires c.Valid() && c.Hinted() && Exact(c.Abs()) && (forall i :: 0 <= i < |rs| ==> Proper(rs[i]))
    modifies c
    ensures c.Valid() && c.Hinted()
    ensures HeadOf(c.files).sz == Sum(c.ring) + Granted(c.grants) + TotalOf(c.reserved) + c.lost
    ensures HeadOf(c.files).sz <= c.maxSz || HeadOf(c.files).sz <= old(HeadOf(c.files).sz)
    ensures RealizesAll(f, rs, evs) && HonestRun(old(c.Abs()), c.maxSz, evs) && c.Abs() == Run(old(c.Abs()), c.maxSz, evs)
    ensures c.lost == old(c.lost) <==> NoLoss(old(c.Abs()), c.maxSz, evs)
  {
    evs := [];
    ghost var start := c.Abs();
    assert Run(start, c.maxSz, []) == start;
    for n := 0 to |rs|
      invariant c.Valid() && c.Hinted()
      invariant RealizesAll(f, rs[..n], evs) && HonestRun(start, c.maxSz, evs)
      invariant c.Abs() == Run(start, c.maxSz, evs)
    {
      Covered(start, c.maxSz, evs, if rs[n].AskDismiss? || rs[n].AskCommit? then rs[n].key else 0);
      ghost var ev := Step(c, f, rs[n]);
      RunAppend(start, c.maxSz, evs, ev);
      HonestAppend(start, c.maxSz, evs, ev);
      NextEvent(f, rs, n, evs, ev);
      evs := evs + [ev];
    }
    assert rs[..|rs|] == rs;
    RunLosesNothingIff(start, c.maxSz, evs);
    RunKeepsInv(start, c.maxSz, evs);
    RunKeepsExact(start, c.maxSz, evs);
  }

  /** Each reservation is part of what is held. */
  lemma {:induction false} Covered(s: State, max: nat, evs: seq<Event>, key: nat)
    requires Exact(s)
    ensures Outstanding(Run(s, max, evs).reserved, key) <= Run(s, max, evs).held
  {
    RunKeepsExact(s, max, evs);
    ForgetKeepsExact(Run(s, max, evs), key);
  }

  ghost predicate RealizesAll(f: Format, rs: seq<Request>, evs: seq<Event>) {
    |evs| == |rs| && forall i :: 0 <= i < |rs| ==> Realizes(f, rs[i], evs[i])
  }

  lemma {:induction false} NextEvent(f: Format, rs: seq<Request>, n: nat, evs: seq<Event>, ev: Event)
    requires n < |rs| && RealizesAll(f, rs[..n], evs) && Realizes(f, rs[n], ev)
    ensures RealizesAll(f, rs[..n + 1], evs + [ev])
  {
    assert forall i :: 0 <= i < n ==> rs[..n + 1][i] == rs[..n][i];
  }

  /** The walk over the records of a valid cache passes for exactly one difference. */
  lemma {:induction false} CheckPasses(c: DirCache, delta: int)
    requires c.Valid()
    ensures (exists q :: Linked(c.files, q) && HeadOf(c.files).sz == Sum(q) + delta) <==> delta == c.held
  {
    forall q | Linked(c.files, q)
      ensures q == c.ring
    {
      RingUnique(c.files, q, c.ring);
    }
  }
}
