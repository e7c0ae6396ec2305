/** Entries that can be read without being listed: where they come from, what they do to matches, and
    how long they last. */
module CacheOrphans {
  import opened Basics
  import opened LruRing
  import opened Checksum
  import opened CacheMatch
  import opened CacheRuns

  // ----- where they come from -----

  /** The commit gets as far as writing its info or renaming its data, that fails, and some info is left
      that can be read. */
  ghost predicate LeavesInfo(s: State, max: nat, ev: Event) {
    Populates(s, ev) && LeftBy(s, max, ev).Some?
  }

  /** A request changes the orphans only by writing the entry of a commit. */
  lemma {:induction false} OrphansAfter(s: State, max: nat, ev: Event)
    requires Good(s)
    ensures Orphans(Apply(s, max, ev))
         == if Populates(s, ev) then Put(Orphans(s) - {TargetOf(s, ev)}, TargetOf(s, ev), LeftBy(s, max, ev)) else Orphans(s)
    ensures Names(Apply(s, max, ev).ring) <= Names(s.ring) + (if Populates(s, ev) then {TargetOf(s, ev)} else {})
  {
    match ev
    case Upload(_, sz) =>
      if s.held + sz <= max {
        UploadFacts(s, max, ev);
      }
    case Write(_, _) =>
    case Download(_, _, _, _) => DownloadFacts(s, max, ev);
    case Dismiss(key) =>
      if key in s.reserved {
        DismissedFacts(s, max, key);
      }
    case Commit(key, _, _, _, _, _, _, _, _, _) =>
      if Populates(s, ev) {
        CommitFacts(s, max, ev);
      } else if key in s.reserved && ev.answer.Hit? {
        DismissedFacts(s, max, key);
      }
  }

  /** In a cache without orphan, a request creates one exactly when it is a commit that fails and leaves
      its info. */
  lemma {:induction false} OrphansComeFromFaults(s: State, max: nat, ev: Event)
    requires Good(s) && Orphans(s) == map[]
    ensures Orphans(Apply(s, max, ev)) == map[] <==> !LeavesInfo(s, max, ev)
  {
    OrphansAfter(s, max, ev);
    if LeavesInfo(s, max, ev) {
      assert TargetOf(s, ev) in Orphans(Apply(s, max, ev));
    } else {
      assert Orphans(Apply(s, max, ev)).Keys == {};
    }
  }

  /** An upload and a commit that fails, from an empty cache. */
  lemma {:induction false} FaultScenario(max: nat, sz: nat, ev: Event)
    requires ev.Commit? && ev.answer.Miss? && sz <= max && Leftover(ev.fault).Some?
    requires EntrySz(CommitTarget([], ev.job, ev.repoKey), ev.dataSz, ev.infoSz) <= max
    ensures var t := Run(EMPTY_CACHE, max, [Upload(ev.key, sz), Write(ev.key, sz), ev]);
      t.ring == [] && t.infos == map[CommitTarget([], ev.job, ev.repoKey) := Leftover(ev.fault).value]
  {
    var two := [Upload(ev.key, sz), Write(ev.key, sz)];
    FirstReservation(max, ev.key, sz);
    var s := Run(EMPTY_CACHE, max, two);
    RunAppend(EMPTY_CACHE, max, two, ev);
    assert two + [ev] == [Upload(ev.key, sz), Write(ev.key, sz), ev];
    CommitFacts(s, max, ev);
    var t := Apply(s, max, ev);
    assert Names(s.ring) == {} && Orphans(s) == map[];
    NoNewRing(s, max, ev);
    assert Orphans(t) == t.infos;
  }

  /** A commit that fails lists nothing. */
  lemma {:induction false} NoNewRing(s: State, max: nat, ev: Event)
    requires Populates(s, ev) && !ev.fault.NoFault? && s.ring == []
    ensures Apply(s, max, ev).ring == []
  {
  }

  // ----- what they do to matches -----

  lemma {:induction false} FullAnswers(infos: Infos, key: string, repo: Deps, forCommit: bool, a: Answer)
    requires key in infos && IsKey(key) && Full(infos[key], repo) && Answered(infos, repo, forCommit, a)
    ensures a.Hit? || a.Clash?
    ensures (forall k :: k in Candidates(infos) && Full(infos[k], repo) ==> k == key) ==> a == Hit(key) || a.Clash?
  {
    assert key in Candidates(infos);
    assert AnyFull(infos, Candidates(infos), repo);
  }

  /** The entry is the only one of its job whose deps are all there and match. */
  ghost predicate OnlyFull(s: State, job: string, key: string, repo: Deps) {
    && Entry(job, key) in s.infos && IsKey(key) && Full(s.infos[Entry(job, key)], repo)
    && forall k :: k in Candidates(JobInfos(s.infos, job)) && Full(JobInfos(s.infos, job)[k], repo) ==> k == key
  }

  /** An orphan whose deps match answers the query, is not served, and makes commits drop their upload. */
  lemma {:induction false} OrphanBlocks(s: State, max: nat, job: string, key: string, ev: Event)
    requires Inv(s, max) && Entry(job, key) in Orphans(s) && Honest(s, ev)
    requires (ev.Download? || (ev.Commit? && ev.key in s.reserved)) && ev.job == job && OnlyFull(s, job, key, ev.deps)
    ensures ev.answer == Hit(key) || ev.answer.Clash?
    ensures ev.Download? ==> Apply(s, max, ev) == s
    ensures ev.Commit? && !ev.answer.Clash? ==> Apply(s, max, ev) == Forget(s, ev.key)
  {
    FullAnswers(JobInfos(s.infos, job), key, ev.deps, ev.Commit?, ev.answer);
    WithoutFacts(s.ring, Entry(job, key));
    if ev.Commit? {
      DismissedFacts(s, max, ev.key);
    }
  }

  lemma {:induction false} OneEmptyInfo(job: string, key: string, repo: Deps, forCommit: bool, a: Answer)
    requires IsKey(key) && Answered(JobInfos(map[Entry(job, key) := []], job), repo, forCommit, a)
    ensures a == Hit(key)
  {
    assert JobInfos(map[Entry(job, key) := []], job) == map[key := []];
    FullAnswers(map[key := []], key, repo, forCommit, a);
  }

  /** An info that was cut before the end of its deps answers every query of its job. */
  lemma {:induction false} DiskFullScenario(max: nat, sz: nat, ev: Event, repo: Deps, forCommit: bool, a: Answer)
    requires ev.Commit? && ev.answer.Miss? && sz <= max && !ev.fault.NoFault? && ev.fault.read == Some([])
    requires EntrySz(CommitTarget([], ev.job, ev.repoKey), ev.dataSz, ev.infoSz) <= max
    requires Answered(JobInfos(Run(EMPTY_CACHE, max, [Upload(ev.key, sz), Write(ev.key, sz), ev]).infos, ev.job), repo, forCommit, a)
    ensures a == Hit(FirstKey(ev.repoKey))
  {
    FaultScenario(max, sz, ev);
    assert CommitTarget([], ev.job, ev.repoKey) == Entry(ev.job, FirstKey(ev.repoKey));
    FirstIsKey(ev.repoKey);
    OneEmptyInfo(ev.job, FirstKey(ev.repoKey), repo, forCommit, a);
  }

  lemma {:induction false} FirstIsKey(repoKey: string)
    ensures IsKey(FirstKey(repoKey)) && IsKey(LastKey(repoKey))
  {
  }

  // ----- how long they last -----

  /** An orphan stays as it is exactly until a commit that does not hit writes its entry, unless that
      fails and leaves the same info. */
  lemma {:induction false} OrphanStaysIff(s: State, max: nat, ev: Event, e: Name)
    requires Good(s) && e in Orphans(s)
    ensures (e in Orphans(Apply(s, max, ev)) && Orphans(Apply(s, max, ev))[e] == Orphans(s)[e])
       <==> !(Populates(s, ev) && TargetOf(s, ev) == e) || LeftBy(s, max, ev) == Some(Orphans(s)[e])
  {
    OrphansAfter(s, max, ev);
  }

  /** No commit of the run writes entry `e`. */
  ghost predicate NeverWritten(s: State, max: nat, evs: seq<Event>, e: Name)
    decreases |evs|
  {
    evs == [] ||
    (!(Populates(s, evs[0]) && TargetOf(s, evs[0]) == e) && NeverWritten(Apply(s, max, evs[0]), max, evs[1..], e))
  }

  /** Eviction never reaches an orphan. */
  lemma {:induction false} OrphanLasts(s: State, max: nat, evs: seq<Event>, e: Name)
    requires Good(s) && e in Orphans(s) && NeverWritten(s, max, evs, e)
    ensures var t := Run(s, max, evs); e in Orphans(t) && Orphans(t)[e] == Orphans(s)[e]
    decreases |evs|
  {
    if evs != [] {
      OrphanStaysIff(s, max, evs[0], e);
      StepBounds(s, max, evs[0]);
      OrphanLasts(Apply(s, max, evs[0]), max, evs[1..], e);
    }
  }

  ghost function JobEntries(s: State, job: string): set<Name> {
    set n | n in Names(s.ring) && n.Entry? && n.job == job
  }

  /** With an entry without deps, no commit of its job writes anything. */
  lemma {:induction false} EmptyDepsHit(s: State, ev: Event, job: string, key: string)
    requires Honest(s, ev) && Entry(job, key) in s.infos && IsKey(key) && s.infos[Entry(job, key)] == []
    ensures !(Populates(s, ev) && ev.job == job)
  {
    if Populates(s, ev) && ev.job == job {
      FullAnswers(JobInfos(s.infos, job), key, ev.deps, true, ev.answer);
    }
  }

  /** Once an info has been cut before the end of its deps, the job never gets another entry, over every
      run in which the match answers as it does. */
  lemma {:induction false} JobIsFrozen(s: State, max: nat, evs: seq<Event>, job: string, key: string)
    requires Good(s) && HonestRun(s, max, evs)
    requires Entry(job, key) in Orphans(s) && IsKey(key) && Orphans(s)[Entry(job, key)] == []
    ensures var t := Run(s, max, evs);
      && Entry(job, key) in Orphans(t) && Orphans(t)[Entry(job, key)] == []
      && JobEntries(t, job) <= JobEntries(s, job)
    decreases |evs|
  {
    if evs != [] {
      var u := Apply(s, max, evs[0]);
      EmptyDepsHit(s, evs[0], job, key);
      OrphanStaysIff(s, max, evs[0], Entry(job, key));
      OrphansAfter(s, max, evs[0]);
      StepBounds(s, max, evs[0]);
      assert JobEntries(u, job) <= JobEntries(s, job);
      JobIsFrozen(u, max, evs[1..], job, key);
    }
  }
}
