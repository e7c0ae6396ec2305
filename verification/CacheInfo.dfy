/** The info file of an entry: what a commit finds or leaves in it, from the writes that made it. */
module CacheInfo {
  import opened Basics
  import opened Bytes
  import opened LruRing
  import opened Checksum
  import opened CacheMatch
  import opened CacheRuns
  import opened CacheOrphans
  import opened MsgFile

  /** How deps are serialized; None when bytes cannot be decoded. */
  datatype Format = Format(codec: Codec, enc: Deps -> bytes, dec: bytes -> Option<Deps>)
  {
    ghost predicate Valid() {
      codec.Valid() && forall d :: IsMsg(enc(d)) ==> dec(enc(d)) == Some(d)
    }
  }

  /** What the environment does to the last part of a commit: the info file is created or not, its writes, and
      the data is moved or not. */
  datatype Io = Io(created: bool, writes: seq<Write>, moved: bool)

  /** Deps come first, to ease matching. */
  function InfoBytes(f: Format, deps: Deps, jobInfo: bytes): bytes {
    Frame(f.codec, f.enc(deps)) + Frame(f.codec, jobInfo)
  }

  /** The deps a file reads as: none at the end of the file. */
  function ReadAs(f: Format, file: bytes): Option<Deps> {
    match MsgAt(f.codec, file, 0)
    case Msg(m) => f.dec(m)
    case AtEnd => Some([])
    case Stopped => None
  }

  function FaultOf(f: Format, deps: Deps, jobInfo: bytes, io: Io): Fault {
    if !io.created then InfoFault(None)
    else
      var all := InfoBytes(f, deps, jobInfo);
      var read := ReadAs(f, Sent(all, io.writes));
      if !SentAll(all, io.writes) then InfoFault(read) else if io.moved then NoFault(read) else RenameFault(read)
  }

  /** Writes the info and reads it back, in any pieces. */
  method WriteInfo(f: Format, deps: Deps, jobInfo: bytes, io: Io, mores: nat -> nat, hints: nat -> nat) returns (fault: Fault)
    ensures fault == FaultOf(f, deps, jobInfo, io)
  {
    if !io.created { return InfoFault(None); }
    var ok, file := Send(InfoBytes(f, deps, jobInfo), io.writes);
    var buf := new IMsgBuf(f.codec, file);
    var received := buf.Receive(mores, hints);
    var read := match received case Msg(m) => f.dec(m) case AtEnd => Some([]) case Stopped => None;
    return if !ok then InfoFault(read) else if io.moved then NoFault(read) else RenameFault(read);
  }

  /** One write that does all stores the deps. */
  lemma {:induction false} OneWriteStores(f: Format, deps: Deps, jobInfo: bytes, io: Io)
    requires f.Valid() && IsMsg(f.enc(deps)) && io.created && io.moved
    requires io.writes != [] && io.writes[0].Wrote? && io.writes[0].cnt >= |InfoBytes(f, deps, jobInfo)|
    ensures FaultOf(f, deps, jobInfo, io) == NoFault(Some(deps))
  {
    var frame := Frame(f.codec, f.enc(deps));
    assert frame <= InfoBytes(f, deps, jobInfo) && |frame| > 0;
    ReadsBackIff(f.codec, f.enc(deps), InfoBytes(f, deps, jobInfo), io.writes);
  }

  /** Writes that fail after `n` bytes, none included: no dep is read when they do not reach the end of the
      deps, and all of them otherwise. */
  lemma {:induction false} CutInfo(f: Format, deps: Deps, jobInfo: bytes, n: nat, more: seq<Write>, moved: bool)
    requires f.Valid() && IsMsg(f.enc(deps)) && n < |InfoBytes(f, deps, jobInfo)|
    ensures FaultOf(f, deps, jobInfo, Io(true, CutAfter(n) + more, moved))
         == InfoFault(Some(if n < |Frame(f.codec, f.enc(deps))| then [] else deps))
  {
    FailureCuts(InfoBytes(f, deps, jobInfo), n, more);
    CutAnywhere(f.codec, f.enc(deps), Frame(f.codec, jobInfo), n);
  }

  /** A commit reports that it is done, although its entry does not hold what was sent: the length of the deps
      went in one write and all of the info in the next. */
  lemma {:induction false} GarbledEntry(s: State, max: nat, ev: Event, f: Format, jobInfo: bytes) returns (m: bytes)
    requires Good(s) && Populates(s, ev) && f.Valid() && IsMsg(f.enc(ev.deps))
    requires f.enc(ev.deps)[0] != f.codec.enc(|f.enc(ev.deps)|)[0]
    requires ev.fault == FaultOf(f, ev.deps, jobInfo, Io(true, [Wrote(LEN_SZ), Wrote(|InfoBytes(f, ev.deps, jobInfo)|)], true))
    requires Fits(s, max, ev.key, EntrySz(TargetOf(s, ev), ev.dataSz, ev.infoSz))
    ensures m != f.enc(ev.deps) && OutcomeOf(s, max, ev) == Done
    ensures var t := Apply(s, max, ev); var e := TargetOf(s, ev);
      && e in Names(t.ring) && f.dec(m) == if e in t.infos then Some(t.infos[e]) else None
  {
    m := SecondWriteGarbles(f.codec, f.enc(ev.deps), InfoBytes(f, ev.deps, jobInfo));
    DoneIffStored(s, max, ev);
  }

  /** A disk that is full when the info is written: from the empty cache, every query of the job hits an entry
      that is not listed. */
  lemma {:induction false} FullDisk(max: nat, sz: nat, ev: Event, f: Format, jobInfo: bytes, n: nat, repo: Deps, forCommit: bool, a: Answer)
    requires ev.Commit? && ev.answer.Miss? && sz <= max && f.Valid() && IsMsg(f.enc(ev.deps))
    requires n < |Frame(f.codec, f.enc(ev.deps))|
    requires ev.fault == FaultOf(f, ev.deps, jobInfo, Io(true, CutAfter(n), true))
    requires EntrySz(CommitTarget([], ev.job, ev.repoKey), ev.dataSz, ev.infoSz) <= max
    requires Answered(JobInfos(Run(EMPTY_CACHE, max, [Upload(ev.key, sz), Write(ev.key, sz), ev]).infos, ev.job), repo, forCommit, a)
    ensures a == Hit(FirstKey(ev.repoKey))
  {
    assert CutAfter(n) + [] == CutAfter(n);
    CutInfo(f, ev.deps, jobInfo, n, [], true);
    DiskFullScenario(max, sz, ev, repo, forCommit, a);
  }
}
