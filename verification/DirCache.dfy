/** The directory cache: record files, deps files and reservations updated in place, one atomic
    step per request. */
module DirCaches {
  import opened Basics
  import opened LruRing
  import opened Checksum
  import opened CacheMatch
  import opened CacheRuns

  /** Unsigned 64-bit addition. */
  function Plus64(a: nat, b: nat): nat
    requires a < TWO_64 && b < TWO_64
  {
    if a + b < TWO_64 then a + b else a + b - TWO_64
  }

  /** The comparison made to find room is the real one for all sizes exactly when the maximum is
      below half the range. */
  lemma {:induction false} RoomGuardIff(max: nat)
    requires max < TWO_64
    ensures (forall a: nat, b: nat :: a <= max && b <= max ==> (Plus64(a, b) > max <==> a + b > max)) <==> 2 * max < TWO_64
  {
    if 2 * max >= TWO_64 {
      assert Plus64(max, max) <= max;
    }
  }

  function ToUnlinkSet(names: seq<Name>): set<Name> { set n | n in names }

  /** Accounted bytes that belong neither to a listed entry nor to the `oldSz` to be replaced; negative when
      the head accounts for less than these. */
  function Others(files: Files, q: seq<Item>, oldSz: nat): int {
    HeadOf(files).sz - oldSz - Sum(q)
  }

  /** Room was made, there is none, or an assertion on the account fails. */
  datatype Room = Made | NoRoom | Broken

  /** What looking for room gives, whatever the head accounts for. */
  function RoomFor(q: seq<Item>, others: int, max: nat, newSz: nat): Room {
    if newSz > max then NoRoom
    else if others + Sum(q) < 0 then Broken
    else if others + newSz > max then NoRoom
    else
      var k := Kept(q, max - others - newSz);
      if k < |q| && others + Sum(q[..k]) < 0 then Broken else Made
  }

  /** An account that covers the entries never breaks. */
  lemma {:induction false} CoveredNeverBreaks(q: seq<Item>, others: nat, max: nat, newSz: nat)
    ensures RoomFor(q, others, max, newSz) == if others + newSz <= max then Made else NoRoom
  {
  }

  lemma {:induction false} UnlinkSetGrows(names: seq<Name>, i: nat)
    requires i < |names|
    ensures ToUnlinkSet(names[..i + 1]) == ToUnlinkSet(names[..i]) + {names[i]}
  {
    assert names[..i + 1] == names[..i] + [names[i]];
  }

  type Hints = map<(string, string), string>

  ghost predicate HintsOk(hints: Hints) { forall x :: x in hints ==> IsHint(hints[x]) }

  ghost predicate NoSlash(names: set<Name>) { forall n :: n in names && n.Entry? ==> '/' !in n.key }

  class DirCache {
    const maxSz: nat
    /** Of the deps of a job, as in the name of the link that leads to its last entry. */
    const digest: Deps -> string
    var files: Files
    var infos: map<Name, Deps>
    var hints: Hints
    var reserved: Reserved
    /** The uploads that have been granted room and have not written their reservation. */
    var grants: seq<Grant>
    ghost var held: nat
    ghost var lost: nat
    ghost var ring: seq<Item>

    ghost function Abs(): State
      reads this
    {
      State(ring, infos, grants, reserved, held, lost)
    }

    /** The records refine `ring`, and nothing else is recorded. */
    ghost predicate Shape()
      reads this`files, this`ring
    {
      && 2 * maxSz < TWO_64 && HeadOf(files).sz + maxSz < TWO_64
      && Linked(files, ring) && Positive(ring)
      && files.Keys <= Names(ring) + {Head}
    }

    /** The total may exceed the maximum, for instance after the maximum was lowered. */
    ghost predicate Valid()
      reads this`files, this`ring, this`held
    {
      Shape() && HeadOf(files).sz == Sum(ring) + held
    }

    /** What links lead to has the form of an entry key, as the match expects. */
    ghost predicate Hinted()
      reads this`hints, this`infos
    {
      HintsOk(hints) && NoSlash(infos.Keys)
    }

    constructor (maxSz: nat, digest: Deps -> string)
      requires 2 * maxSz < TWO_64
      ensures Valid() && Hinted() && Abs() == EMPTY_CACHE && this.maxSz == maxSz && this.digest == digest
    {
      this.maxSz, this.digest := maxSz, digest;
      files, infos, hints, reserved, grants := map[], map[], map[], map[], [];
      ring, held, lost := [], 0, 0;
      new;
      EmptyShape(files, ring);
    }

    /** Opens what a repair has left: record files that form the ring `q` with its total in the head, which
        accounts for nothing else.  Uploads that had been granted room may still be writing their reservation. */
    constructor Reopen(maxSz: nat, digest: Deps -> string, files: Files, infos: map<Name, Deps>, hints: Hints,
                       reserved: Reserved, grants: seq<Grant>, ghost q: seq<Item>)
      requires 2 * maxSz < TWO_64 && Sum(q) + maxSz < TWO_64
      requires Linked(files, q) && Positive(q) && files.Keys <= Names(q) + {Head} && HeadOf(files).sz == Sum(q)
      requires HintsOk(hints) && NoSlash(infos.Keys)
      ensures Valid() && Hinted() && this.maxSz == maxSz && this.hints == hints
      ensures Abs() == State(q, infos, grants, reserved, 0, 0)
    {
      this.maxSz, this.digest, this.files, this.infos, this.hints := maxSz, digest, files, infos, hints;
      this.reserved, this.grants, ring, held, lost := reserved, grants, q, 0, 0;
    }

    /** Takes the entry out of the ring; its own record file is left as it is. */
    method LruRemove(e: Name) returns (sz: nat)
      requires Shape() && e.Entry?
      modifies this`files, this`ring
      ensures Linked(files, ring) && Positive(ring)
      ensures ring == Without(old(ring), e) && sz == SizeOf(old(ring), e)
      ensures files.Keys == old(files.Keys) && HeadOf(files).sz == old(HeadOf(files).sz)
      ensures sz > 0 <==> e in old(files)
      ensures sz > 0 ==> Head in files
    {
      WithoutFacts(ring, e);
      RingStored(files, ring);
      if e !in files {
        return 0;
      }
      ghost var unlinked := AfterRemoval(files, ring, e);
      var here := files[e];
      if here.newer == here.older {
        var newerOlder := files[here.newer];
        newerOlder := newerOlder.(older := here.older, newer := here.newer);
        files := files[here.newer := newerOlder];
      } else {
        var newer, older := files[here.newer], files[here.older];
        newer := newer.(older := here.older);
        older := older.(newer := here.newer);
        files := files[here.newer := newer];
        files := files[here.older := older];
      }
      assert files == unlinked;
      ring := Without(ring, e);
      sz := here.sz;
    }

    /** Puts the entry in front of the ring. */
    method LruMkNewest(e: Name, sz: nat, now: int)
      requires Linked(files, ring) && Positive(ring) && Head in files
      requires e.Entry? && e !in Names(ring) && sz > 0
      modifies this`files, this`ring
      ensures Linked(files, ring) && Positive(ring)
      ensures ring == [Item(e, sz, now)] + old(ring)
      ensures files.Keys == old(files.Keys) + {e} && HeadOf(files).sz == old(HeadOf(files).sz)
    {
      PrependFacts(ring, Item(e, sz, now));
      LinkPrepends(files, ring, e, sz, now);
      var head := files[Head];
      var here := Lru(Head, head.older, sz, now);
      if head.older == Head {
        head := head.(older := e, newer := e);
      } else {
        var newestName := head.older;
        var newest := files[newestName];
        head := head.(older := e);
        newest := newest.(newer := e);
        files := files[newestName := newest];
      }
      files := files[Head := head];
      files := files[e := here];
      ring := [Item(e, sz, now)] + ring;
    }

    /** Replaces `oldSz` accounted bytes by `newSz`, erasing the shortest oldest-first run of entries
        that makes the total fit. */
    method MakeRoom(oldSz: nat, newSz: nat) returns (r: Room)
      requires Shape()
      modifies this`files, this`infos, this`ring
      ensures r == RoomFor(old(ring), Others(old(files), old(ring), oldSz), maxSz, newSz)
      ensures r != Made ==> unchanged(this)
      ensures r == Made ==> Shape() && Head in files && HeadOf(files).sz <= maxSz
      ensures r == Made ==> HeadOf(files).sz == Others(old(files), old(ring), oldSz) + newSz + Sum(ring)
      ensures r == Made ==> Abs() == Evict(old(Abs()), maxSz - Others(old(files), old(ring), oldSz) - newSz)
    {
      var head, toUnlnk;
      ghost var k;
      r, head, toUnlnk, k := PlanRoom(files, ring, maxSz, oldSz, newSz);
      if r == Made {
        EraseOldest(head, toUnlnk, k);
      }
    }

    /** The same when the head accounts for the entries and for `oldSz`: refuses exactly when erasing all
        entries would not be enough. */
    method MkRoom(oldSz: nat, newSz: nat) returns (ok: bool)
      requires Shape() && Sum(ring) + oldSz <= HeadOf(files).sz
      modifies this`files, this`infos, this`ring
      ensures ok <==> Others(old(files), old(ring), oldSz) + newSz <= maxSz
      ensures !ok ==> unchanged(this)
      ensures ok ==> Shape() && Head in files && HeadOf(files).sz <= maxSz
      ensures ok ==> HeadOf(files).sz == Others(old(files), old(ring), oldSz) + newSz + Sum(ring)
      ensures ok ==> Abs() == Evict(old(Abs()), maxSz - Others(old(files), old(ring), oldSz) - newSz)
    {
      ghost var q, others: nat := ring, Others(files, ring, oldSz);
      var r := MakeRoom(oldSz, newSz);
      ok := r == Made;
      assert ok <==> others + newSz <= maxSz by { CoveredNeverBreaks(q, others, maxSz, newSz); }
    }

    /** Erases the entries to be evicted, then closes the ring and writes the head. */
    method EraseOldest(head: Lru, toUnlnk: seq<Name>, ghost k: nat)
      requires Shape() && k <= |ring| && OldestNames(toUnlnk, ring, k) && head.sz <= maxSz
      requires head == HeadOf(files).(sz := head.sz, newer := NameAt(ring, k - 1))
      modifies this`files, this`infos, this`ring
      ensures Shape() && Head in files && HeadOf(files).sz == head.sz
      ensures ring == old(ring)[..k] && infos == old(infos) - Names(old(ring)[k..])
    {
      ghost var truncated := AfterEviction(files, ring, k, head.sz);
      OldestNamesSet(toUnlnk, ring, k);
      var newHead := head;
      if toUnlnk != [] {
        EraseDirs(toUnlnk);
        if head.newer == Head {
          newHead := head.(older := Head);
        } else {
          var last := files[head.newer];
          last := last.(older := Head);
          files := files[head.newer := last];
        }
      }
      files := files[Head := newHead];
      assert files == truncated;
      ring := ring[..k];
    }

    method EraseDirs(toUnlnk: seq<Name>)
      modifies this`files, this`infos
      ensures files == old(files) - ToUnlinkSet(toUnlnk) && infos == old(infos) - ToUnlinkSet(toUnlnk)
    {
      for i := 0 to |toUnlnk|
        invariant files == old(files) - ToUnlinkSet(toUnlnk[..i])
        invariant infos == old(infos) - ToUnlinkSet(toUnlnk[..i])
      {
        UnlinkSetGrows(toUnlnk, i);
        files := files - {toUnlnk[i]};
        infos := infos - {toUnlnk[i]};
      }
      assert toUnlnk[..|toUnlnk|] == toUnlnk;
    }

    /** Gives back `sz` accounted bytes together with the reservation.  This looks for room for nothing: it
        evicts what does not fit in the maximum, and fails exactly when eviction cannot be enough. */
    method DismissReservation(key: nat, sz: nat) returns (ok: bool)
      requires Shape() && Sum(ring) + sz <= HeadOf(files).sz
      modifies this`files, this`infos, this`ring, this`reserved, this`held
      ensures ok <==> Others(old(files), old(ring), sz) <= maxSz
      ensures !ok ==> unchanged(this)
      ensures ok ==> Shape() && held == Others(old(files), old(ring), sz) && HeadOf(files).sz == held + Sum(ring) <= maxSz
      ensures ok ==> Abs() == Evict(old(Abs()), maxSz - held).(reserved := old(reserved) - {key}, held := held)
    {
      ghost var others := Others(files, ring, sz);
      ok := MkRoom(sz, 0);
      if !ok { return; }
      reserved := reserved - {key};
      held := others;
    }

    /** Gives back all of a reservation. */
    method DropUpload(key: nat) returns (ok: bool)
      requires Valid() && key in reserved && reserved[key] <= held
      modifies this`files, this`infos, this`ring, this`reserved, this`held
      ensures Valid() && Abs() == Dismissed(old(Abs()), maxSz, key)
      ensures ok <==> Forget(old(Abs()), key).held <= maxSz
    {
      ghost var s, others := Abs(), held - reserved[key];
      DismissedIs(s, maxSz, key, others);
      ok := DismissReservation(key, reserved[key]);
    }

    /** Reserves room for an upload, whose reservation is still to be written. */
    method SubUpload(key: nat, sz: nat) returns (r: Outcome)
      requires Valid()
      modifies this`files, this`infos, this`ring, this`grants, this`held
      ensures r == if old(held) + sz <= maxSz then Done else Refused
      ensures Abs() == Apply(old(Abs()), maxSz, Upload(key, sz))
      ensures Valid()
    {
      var ok := MkRoom(0, sz);
      if !ok { return Refused; }
      grants := [Grant(key, sz)] + grants;
      held := held + sz;
      r := Done;
    }

    /** An uploader writes its reservation, over the one that already has its key if there is one. */
    method WriteReservation(key: nat, sz: nat)
      requires Valid()
      modifies this`grants, this`reserved, this`lost
      ensures Abs() == Apply(old(Abs()), maxSz, Write(key, sz))
      ensures Valid()
    {
      if Grant(key, sz) !in grants { return; }
      lost := lost + Outstanding(reserved, key);
      grants := Used(grants, Grant(key, sz));
      reserved := reserved[key := sz];
    }

    method SubDismiss(key: nat) returns (r: Outcome)
      requires Valid() && Outstanding(reserved, key) <= held
      modifies this`files, this`infos, this`ring, this`reserved, this`held
      ensures r == if key !in old(reserved) then NoUpload else if Forget(old(Abs()), key).held > maxSz then Refused else Done
      ensures Abs() == Apply(old(Abs()), maxSz, Dismiss(key))
      ensures Valid()
    {
      if key !in reserved { return NoUpload; }
      var ok := DropUpload(key);
      r := if ok then Done else Refused;
    }

    function HintFor(job: string, deps: Deps): (r: Option<string>)
      requires HintsOk(hints)
      reads this`hints
      ensures r.Some? ==> IsHint(r.value)
    {
      var x := (job, digest(deps));
      if x in hints then Some(hints[x]) else None
    }

    /** A hit makes the entry the newest one; a hit on an entry that is not listed is an error. */
    method SubDownload(job: string, repo: Deps, listing: seq<string>, now: int)
      returns (r: Outcome, answer: Answer)
      requires Valid() && Hinted() && DistinctNames(repo)
      requires forall k :: k in JobInfos(infos, job) ==> k in listing
      modifies this`files, this`ring
      ensures Answered(JobInfos(old(infos), job), repo, false, answer)
      ensures r == (if answer.Clash? then Stopped
                    else if answer.Hit? && Entry(job, answer.key) !in Names(old(ring)) then NoEntry
                    else Done)
      ensures Abs() == Apply(old(Abs()), maxSz, Download(job, repo, answer, now))
      ensures Valid() && Hinted()
    {
      answer := SubMatch(JobInfos(infos, job), listing, HintFor(job, repo), repo, false);
      r := Serve(job, repo, answer, now);
    }

    /** The part of a download that follows the match. */
    method Serve(job: string, ghost repo: Deps, answer: Answer, now: int) returns (r: Outcome)
      requires Valid()
      modifies this`files, this`ring
      ensures r == (if answer.Clash? then Stopped
                    else if answer.Hit? && Entry(job, answer.key) !in Names(old(ring)) then NoEntry
                    else Done)
      ensures Abs() == Apply(old(Abs()), maxSz, Download(job, repo, answer, now))
      ensures Valid()
    {
      if answer.Clash? { return Stopped; }
      if answer.Hit? {
        var found := Touch(Entry(job, answer.key), now);
        if !found { return NoEntry; }
      }
      return Done;
    }

    /** Makes the entry the most recent one, if it is listed. */
    method Touch(e: Name, now: int) returns (found: bool)
      requires Valid() && e.Entry?
      modifies this`files, this`ring
      ensures found == Listed(old(ring), e) == (e in Names(old(ring)))
      ensures ring == if found then [Item(e, SizeOf(old(ring), e), now)] + Without(old(ring), e) else old(ring)
      ensures Valid()
    {
      TouchedFacts(ring, e, now);
      var sz := LruRemove(e);
      found := sz > 0;
      if found {
        LruMkNewest(e, sz, now);
      }
    }

    /** Moves an upload into the cache, unless a matching entry has appeared meanwhile; a link then leads from
        the deps to the entry. */
    method SubCommit(key: nat, job: string, repoKey: string, deps: Deps, dataSz: nat, infoSz: nat,
                     listing: seq<string>, differs: bool, fault: Fault, now: int)
      returns (r: Outcome, answer: Answer)
      requires Valid() && Hinted() && Outstanding(reserved, key) <= held && DistinctNames(deps) && '/' !in repoKey
      requires forall k :: k in JobInfos(infos, job) ==> k in listing
      modifies this`files, this`infos, this`ring, this`reserved, this`held, this`lost, this`hints
      ensures key in old(reserved) ==> Answered(JobInfos(old(infos), job), deps, true, answer)
      ensures var ev := Commit(key, job, repoKey, deps, dataSz, infoSz, answer, differs, fault, now);
        && Abs() == Apply(old(Abs()), maxSz, ev)
        && r == OutcomeOf(old(Abs()), maxSz, ev)
        && hints == if r == Done then old(hints)[(job, digest(deps)) := WrittenBy(old(Abs()), ev)] else old(hints)
      ensures Valid() && Hinted()
    {
      if key !in reserved { return NoUpload, Miss(NoRule); }
      r, answer := CommitAndLink(key, job, repoKey, deps, dataSz, infoSz, listing, differs, fault, now);
    }

    /** The commit of a reservation that is there. */
    method CommitAndLink(key: nat, job: string, repoKey: string, deps: Deps, dataSz: nat, infoSz: nat,
                         listing: seq<string>, differs: bool, fault: Fault, now: int)
      returns (r: Outcome, answer: Answer)
      requires Valid() && Hinted() && key in reserved && reserved[key] <= held && DistinctNames(deps) && '/' !in repoKey
      requires forall k :: k in JobInfos(infos, job) ==> k in listing
      modifies this`files, this`infos, this`ring, this`reserved, this`held, this`lost, this`hints
      ensures Answered(JobInfos(old(infos), job), deps, true, answer)
      ensures var ev := Commit(key, job, repoKey, deps, dataSz, infoSz, answer, differs, fault, now);
        && Abs() == Apply(old(Abs()), maxSz, ev)
        && r == OutcomeOf(old(Abs()), maxSz, ev)
        && hints == if r == Done then old(hints)[(job, digest(deps)) := WrittenBy(old(Abs()), ev)] else old(hints)
      ensures Valid() && Hinted()
    {
      var written;
      r, answer, written := MatchAndSettle(key, job, repoKey, deps, dataSz, infoSz, listing, HintFor(job, deps), differs, fault, now);
      if r == Done {
        MoreHints(hints, (job, digest(deps)), written);
        hints := hints[(job, digest(deps)) := written];
      }
    }

    /** The same, links apart. */
    method MatchAndSettle(key: nat, job: string, repoKey: string, deps: Deps, dataSz: nat, infoSz: nat,
                          listing: seq<string>, hint: Option<string>, differs: bool, fault: Fault, now: int)
      returns (r: Outcome, answer: Answer, written: string)
      requires Valid() && key in reserved && reserved[key] <= held && NoSlash(infos.Keys) && '/' !in repoKey
      requires DistinctNames(deps) && (hint.Some? ==> IsHint(hint.value))
      requires forall k :: k in JobInfos(infos, job) ==> k in listing
      modifies this`files, this`infos, this`ring, this`reserved, this`held, this`lost
      ensures Answered(JobInfos(old(infos), job), deps, true, answer)
      ensures var ev := Commit(key, job, repoKey, deps, dataSz, infoSz, answer, differs, fault, now);
        && Abs() == Apply(old(Abs()), maxSz, ev)
        && r == OutcomeOf(old(Abs()), maxSz, ev)
        && (r == Done ==> written == WrittenBy(old(Abs()), ev) && IsHint(written))
      ensures Valid() && NoSlash(infos.Keys)
    {
      answer := SubMatch(JobInfos(infos, job), listing, hint, deps, true);
      StaysHinted(Abs(), maxSz, Commit(key, job, repoKey, deps, dataSz, infoSz, answer, differs, fault, now));
      r, written := Settle(key, job, repoKey, deps, dataSz, infoSz, answer, differs, fault, now);
    }

    /** The part of a commit that follows the match. */
    method Settle(key: nat, job: string, repoKey: string, deps: Deps, dataSz: nat, infoSz: nat,
                  answer: Answer, differs: bool, fault: Fault, now: int)
      returns (r: Outcome, written: string)
      requires Valid() && key in reserved && reserved[key] <= held
      modifies this`files, this`infos, this`ring, this`reserved, this`held, this`lost
      ensures var ev := Commit(key, job, repoKey, deps, dataSz, infoSz, answer, differs, fault, now);
        && Abs() == Apply(old(Abs()), maxSz, ev)
        && r == OutcomeOf(old(Abs()), maxSz, ev)
        && (r == Done ==> written == WrittenBy(old(Abs()), ev))
      ensures Valid()
    {
      if answer.Clash? { return Stopped, FirstKey(repoKey); }
      if answer.Hit? {
        var ok := DropUpload(key);
        return if !ok then Refused else if differs then Differs else Done, answer.key;
      }
      r, written := Place(key, job, repoKey, dataSz, infoSz, fault, now);
    }

    /** The first entry of the repo key is written, or the last one when there is a first one. */
    method Place(key: nat, job: string, repoKey: string, dataSz: nat, infoSz: nat, fault: Fault, now: int)
      returns (r: Outcome, written: string)
      requires Valid() && key in reserved && reserved[key] <= held
      modifies this`files, this`infos, this`ring, this`reserved, this`held, this`lost
      ensures Entry(job, written) == CommitTarget(old(ring), job, repoKey)
      ensures r == if Forget(old(Abs()), key).held + EntrySz(Entry(job, written), dataSz, infoSz) > maxSz then Refused
                   else if fault.NoFault? then Done else Faulted
      ensures Abs() == CommitAt(old(Abs()), maxSz, key, CommitTarget(old(ring), job, repoKey), dataSz, infoSz, fault, now)
      ensures Valid()
    {
      written := FirstKey(repoKey);
      ListedIffStored(files, ring, Entry(job, written));
      if Entry(job, written) in files {
        written := LastKey(repoKey);
      }
      var e := Entry(job, written);
      r := Populate(key, e, EntrySz(e, dataSz, infoSz), fault, now);
    }

    /** The part of a commit that writes the entry, with its clean-up on failure. */
    method Populate(key: nat, e: Name, newSz: nat, fault: Fault, now: int) returns (r: Outcome)
      requires Valid() && key in reserved && reserved[key] <= held && e.Entry? && newSz > 0
      modifies this`files, this`infos, this`ring, this`reserved, this`held, this`lost
      ensures r == if Forget(old(Abs()), key).held + newSz > maxSz then Refused
                   else if fault.NoFault? then Done else Faulted
      ensures Abs() == CommitInto(old(Abs()), maxSz, key, e, newSz, fault, now)
      ensures Valid()
    {
      ghost var s := Abs();
      var madeRoom, removed := ReplaceEntry(key, e, newSz, held - reserved[key]);
      if madeRoom {
        r := Finish(key, e, newSz, fault, now, s);
      } else {
        Refuse(key, e, newSz, fault, now, removed, s);
        r := Refused;
      }
    }

    /** The part of a commit that comes when there is no room. */
    method Refuse(key: nat, e: Name, newSz: nat, fault: Fault, now: int, removed: nat, ghost s: State)
      requires Shape() && HeadOf(files).sz == Sum(ring) + held + removed && key in reserved && reserved[key] <= held
      requires !Fits(s, maxSz, key, newSz) && Abs() == Erase(s, e) && removed == SizeOf(s.ring, e)
      modifies this`files, this`infos, this`ring, this`reserved, this`held, this`lost
      ensures Abs() == CommitInto(s, maxSz, key, e, newSz, fault, now)
      ensures Valid()
    {
      GiveUp(key, removed);
      GivenUpIs(s, maxSz, key, e, newSz, fault, now, Abs());
    }

    /** A commit that is refused gives back its reservation and what its entry held, if it can. */
    method GiveUp(key: nat, removed: nat)
      requires Shape() && HeadOf(files).sz == Sum(ring) + held + removed && key in reserved && reserved[key] <= held
      modifies this`files, this`infos, this`ring, this`reserved, this`held, this`lost
      ensures GivenUp(old(Abs()), maxSz, key, removed, Abs())
      ensures Valid()
    {
      ghost var s, others := Abs(), held - reserved[key];
      assert Others(files, ring, reserved[key] + removed) == others;
      var ok := DismissReservation(key, reserved[key] + removed);
      if ok {
        GivesBack(s, maxSz, key, removed, others, Abs());
      } else {
        held, lost := held + removed, lost + removed;
        GivesNothingBack(s, maxSz, key, removed, others, Abs());
      }
    }

    /** The part of a commit that comes once room has been made. */
    method Finish(key: nat, e: Name, newSz: nat, fault: Fault, now: int, ghost s: State) returns (r: Outcome)
      requires Shape() && Head in files && e.Entry? && e !in Names(ring) && newSz > 0 && Fits(s, maxSz, key, newSz)
      requires Abs() == Evict(Erase(s, e), maxSz - Forget(s, key).held - newSz)
      requires HeadOf(files).sz == Forget(s, key).held + newSz + Sum(ring) <= maxSz
      modifies this`files, this`infos, this`ring, this`reserved, this`held
      ensures r == if fault.NoFault? then Done else Faulted
      ensures Abs() == CommitInto(s, maxSz, key, e, newSz, fault, now)
      ensures Valid()
    {
      FittingIs(s, maxSz, key, e, newSz, fault, now, Forget(s, key).held);
      if fault.read.Some? {
        infos := infos[e := fault.read.value];
      }
      if fault.NoFault? {
        Publish(key, e, newSz, now);
        return Done;
      }
      Abandon(key, newSz);
      return Faulted;
    }

    /** A commit that fails once it has room gives back what it has in the account. */
    method Abandon(key: nat, sz: nat)
      requires Shape() && HeadOf(files).sz == Forget(Abs(), key).held + sz + Sum(ring) <= maxSz
      modifies this`files, this`infos, this`ring, this`reserved, this`held
      ensures Abs() == Forget(old(Abs()), key)
      ensures Valid()
    {
      KeptAll(ring, maxSz - Forget(Abs(), key).held);
      assert ring[..|ring|] == ring && ring[|ring|..] == [];
      assert infos - {} == infos;
      var _ := DismissReservation(key, sz);
    }

    /** Moves the reserved data and lists the entry. */
    method Publish(key: nat, e: Name, newSz: nat, now: int)
      requires Shape() && Head in files && e.Entry? && e !in Names(ring) && newSz > 0
      requires HeadOf(files).sz == Forget(Abs(), key).held + newSz + Sum(ring)
      modifies this`files, this`ring, this`reserved, this`held
      ensures Abs() == Store(Forget(old(Abs()), key), e, newSz, None, now)
      ensures Valid()
    {
      held := Minus(held, Outstanding(reserved, key));
      reserved := reserved - {key};
      OneMoreListed(ring, Item(e, newSz, now), files.Keys);
      LruMkNewest(e, newSz, now);
    }

    /** Erases what the entry held and makes room for its new content. */
    method ReplaceEntry(key: nat, e: Name, newSz: nat, ghost others: nat) returns (madeRoom: bool, removed: nat)
      requires Valid() && key in reserved && held == others + reserved[key] && e.Entry?
      modifies this`files, this`infos, this`ring
      ensures Shape() && e !in Names(ring)
      ensures madeRoom <==> others + newSz <= maxSz
      ensures madeRoom ==> Head in files && HeadOf(files).sz == others + newSz + Sum(ring) <= maxSz
      ensures madeRoom ==> Abs() == Evict(Erase(old(Abs()), e), maxSz - others - newSz)
      ensures !madeRoom ==> HeadOf(files).sz == Sum(ring) + held + removed && removed == SizeOf(old(ring), e)
      ensures !madeRoom ==> Abs() == Erase(old(Abs()), e)
    {
      removed := EraseEntry(e);
      var oldSz := reserved[key] + removed;
      assert Others(files, ring, oldSz) == others;
      madeRoom := MkRoomFor(oldSz, newSz, others);
    }

    /** Makes room; no entry appears. */
    method MkRoomFor(oldSz: nat, newSz: nat, ghost others: nat) returns (ok: bool)
      requires Shape() && Sum(ring) + oldSz <= HeadOf(files).sz && others == Others(files, ring, oldSz)
      modifies this`files, this`infos, this`ring
      ensures ok <==> others + newSz <= maxSz
      ensures !ok ==> unchanged(this)
      ensures ok ==> Head in files && HeadOf(files).sz == others + newSz + Sum(ring) <= maxSz
      ensures ok ==> Abs() == Evict(old(Abs()), maxSz - others - newSz) && Names(ring) <= Names(old(ring))
      ensures Shape()
    {
      ghost var s := Abs();
      ok := MkRoom(oldSz, newSz);
      if ok {
        EvictNames(s, maxSz - others - newSz);
      }
    }

    /** Takes the entry out of the ring and empties its directory. */
    method EraseEntry(e: Name) returns (sz: nat)
      requires Shape() && e.Entry?
      modifies this`files, this`infos, this`ring
      ensures Shape() && Abs() == Erase(old(Abs()), e) && e !in Names(ring)
      ensures sz == SizeOf(old(ring), e) && Sum(ring) == Sum(old(ring)) - sz
      ensures HeadOf(files).sz == old(HeadOf(files).sz)
    {
      OneRecordMore(ring, e, files.Keys);
      sz := LruRemove(e);
      StrayErased(files, ring, e);
      files := files - {e};
      infos := infos - {e};
    }
  }

  lemma {:induction false} OneMoreListed(q: seq<Item>, x: Item, recorded: set<Name>)
    requires Distinct(q) && Positive(q) && x.name.Entry? && x.name !in Names(q) && x.sz > 0 && recorded <= Names(q) + {Head}
    ensures Sum([x] + q) == x.sz + Sum(q) && recorded + {x.name} <= Names([x] + q) + {Head}
  {
    PrependFacts(q, x);
  }

  lemma {:induction false} OneRecordMore(q: seq<Item>, e: Name, recorded: set<Name>)
    requires Distinct(q) && Positive(q) && recorded <= Names(q) + {Head}
    ensures Sum(Without(q, e)) == Sum(q) - SizeOf(q, e)
    ensures e !in Names(Without(q, e)) && recorded <= Names(Without(q, e)) + {e, Head}
  {
    WithoutFacts(q, e);
  }

  lemma {:induction false} TouchedFacts(q: seq<Item>, e: Name, now: int)
    requires Distinct(q) && Positive(q) && e.Entry?
    ensures Listed(q, e) == (SizeOf(q, e) > 0) == (e in Names(q)) && e !in Names(Without(q, e))
    ensures var r := [Item(e, SizeOf(q, e), now)] + Without(q, e); Listed(q, e) ==> Sum(r) == Sum(q) && Names(r) == Names(q)
  {
    WithoutFacts(q, e);
    if Listed(q, e) {
      PrependFacts(Without(q, e), Item(e, SizeOf(q, e), now));
    }
  }

  ghost predicate GivenUp(s: State, max: nat, key: nat, removed: nat, t: State)
    requires key in s.reserved && s.reserved[key] <= s.held
  {
    match s
    case State(_, _, _, reserved, held, lost) =>
      var others := held - reserved[key];
      if others <= max then t == Evict(s, max - others).(reserved := reserved - {key}, held := others)
      else t == s.(held := held + removed, lost := lost + removed)
  }

  lemma {:induction false} DismissedIs(s: State, max: nat, key: nat, others: nat)
    requires key in s.reserved && s.held == others + s.reserved[key]
    ensures Forget(s, key).held == others
    ensures Dismissed(s, max, key)
         == if others <= max then Evict(s, max - others).(reserved := s.reserved - {key}, held := others) else s
  {
    if others <= max {
      EvictForget(s, max - others, key);
    }
  }

  lemma {:induction false} GivesBack(s: State, max: nat, key: nat, removed: nat, others: nat, t: State)
    requires key in s.reserved && s.held == others + s.reserved[key] && others <= max
    requires t == Evict(s, max - others).(reserved := s.reserved - {key}, held := others)
    ensures GivenUp(s, max, key, removed, t)
  {
  }

  lemma {:induction false} GivesNothingBack(s: State, max: nat, key: nat, removed: nat, others: nat, t: State)
    requires key in s.reserved && s.held == others + s.reserved[key] && others > max
    requires t == s.(held := s.held + removed, lost := s.lost + removed)
    ensures GivenUp(s, max, key, removed, t)
  {
  }

  lemma {:induction false} GivenUpIs(s: State, max: nat, key: nat, e: Name, sz: nat, fault: Fault, now: int, t: State)
    requires key in s.reserved && s.reserved[key] <= s.held && !Fits(s, max, key, sz)
    requires GivenUp(Erase(s, e), max, key, SizeOf(s.ring, e), t)
    ensures t == CommitInto(s, max, key, e, sz, fault, now)
  {
    var others := Forget(s, key).held;
    if others <= max {
      RefusedIs(s, max, key, e, sz, fault, now, others, t);
    } else {
      StrandedIs(s, max, key, e, sz, fault, now);
    }
  }

  lemma {:induction false} InfosAfter(s: State, max: nat, ev: Event)
    ensures Apply(s, max, ev).infos.Keys <= s.infos.Keys + (if Populates(s, ev) then {TargetOf(s, ev)} else {})
  {
  }

  lemma {:induction false} KeysHaveNoSlash(repoKey: string)
    requires '/' !in repoKey
    ensures IsHint(FirstKey(repoKey)) && IsHint(LastKey(repoKey))
  {
  }

  lemma {:induction false} MoreHints(hints: Hints, x: (string, string), k: string)
    requires HintsOk(hints) && IsHint(k)
    ensures HintsOk(hints[x := k])
  {
  }

  /** The key of a commit has the form of an entry key, whether it comes from the match or from the repo. */
  lemma {:induction false} StaysHinted(s: State, max: nat, ev: Event)
    requires ev.Commit? && NoSlash(s.infos.Keys) && '/' !in ev.repoKey
    requires Answers(JobInfos(s.infos, ev.job), ev.deps, true, ev.answer)
    ensures NoSlash(Apply(s, max, ev).infos.Keys)
    ensures IsHint(WrittenBy(s, ev))
  {
    InfosAfter(s, max, ev);
    KeysHaveNoSlash(ev.repoKey);
    if ev.answer.Hit? {
      assert Entry(ev.job, ev.answer.key) in s.infos;
    }
  }

  /** The entry to evict next is more than what is left in the account. */
  lemma {:induction false} BreaksAt(q: seq<Item>, others: int, max: nat, newSz: nat, k: nat)
    requires newSz <= max && others + newSz <= max && others + Sum(q) >= 0 && k < |q|
    requires others + Sum(q[..k + 1]) + newSz > max && others + Sum(q[..k]) < 0
    ensures RoomFor(q, others, max, newSz) == Broken
  {
    SumMonotone(q);
    var n := Kept(q, max - others - newSz);
    assert n <= k && Sum(q[..n]) <= Sum(q[..k]);
  }

  /** Decides which entries to evict, oldest first, without touching anything. */
  method PlanRoom(files: Files, ghost q: seq<Item>, maxSz: nat, oldSz: nat, newSz: nat)
    returns (r: Room, head: Lru, toUnlnk: seq<Name>, ghost k: nat)
    requires Linked(files, q) && HeadOf(files).sz + maxSz < TWO_64
    ensures r == RoomFor(q, Others(files, q, oldSz), maxSz, newSz)
    ensures r == Made ==> k == Kept(q, maxSz - Others(files, q, oldSz) - newSz) && OldestNames(toUnlnk, q, k)
    ensures r == Made ==> head.sz == Others(files, q, oldSz) + newSz + Sum(q[..k])
    ensures r == Made ==> head == HeadOf(files).(sz := head.sz, newer := NameAt(q, k - 1))
  {
    head, toUnlnk, k := HeadOf(files), [], |q|;
    if newSz > maxSz { return NoRoom, head, toUnlnk, k; }
    if head.sz < oldSz { return Broken, head, toUnlnk, k; }
    head := head.(sz := head.sz - oldSz);
    ghost var others := Others(files, q, oldSz);
    assert q[..k] == q;
    while Plus64(head.sz, newSz) > maxSz
      invariant 0 <= k <= |q| && OldestNames(toUnlnk, q, k)
      invariant others + Sum(q[..k]) >= 0
      invariant head == HeadOf(files).(sz := others + Sum(q[..k]), newer := NameAt(q, k - 1))
      invariant head.sz <= HeadOf(files).sz
      invariant k < |q| ==> others + Sum(q[..k + 1]) + newSz > maxSz
      decreases k
    {
      if head.newer == Head { return NoRoom, head, toUnlnk, k; }
      k := k - 1;
      RecordOf(files, q, k);
      var here := files[head.newer];
      SumPrefix(q, k);
      assert here.older == if toUnlnk == [] then Head else toUnlnk[|toUnlnk| - 1];
      if head.sz < here.sz {
        BreaksAt(q, others, maxSz, newSz, k);
        return Broken, head, toUnlnk, k;
      }
      OneMoreOldest(toUnlnk, q, k);
      toUnlnk := toUnlnk + [head.newer];
      head := head.(sz := head.sz - here.sz, newer := here.newer);
    }
    KeptUnique(q, maxSz - others - newSz, k);
    head := head.(sz := Plus64(head.sz, newSz));
    assert head.sz <= maxSz;
    r := Made;
  }

  /** The record files after eviction, with the facts about them. */
  ghost function AfterEviction(files: Files, q: seq<Item>, k: nat, sz: nat): (f: Files)
    requires Linked(files, q) && Positive(q) && k <= |q| && files.Keys <= Names(q) + {Head}
    ensures k > 0 ==> q[k - 1].name in files
    ensures f == Truncate(files, q, k, sz)
    ensures Linked(f, q[..k]) && Positive(q[..k]) && Head in f && HeadOf(f).sz == sz
    ensures f.Keys <= Names(q[..k]) + {Head}
    ensures k > 0 ==> q[k - 1].name !in Names(q[k..])
  {
    TruncateDrops(files, q, k, sz);
    PrefixFacts(q, k);
    assert k > 0 ==> q[..k][k - 1].name in Names(q[..k]);
    Truncate(files, q, k, sz)
  }

  lemma {:induction false} RingStored(files: Files, q: seq<Item>)
    requires Linked(files, q)
    ensures Names(q) <= files.Keys
    ensures q != [] ==> Head in files
  {
    forall i | 0 <= i < |q|
      ensures q[i].name in files
    {
      assert RecordOk(files, q, i);
    }
  }

  /** The record files after removal of one entry, with the facts about them. */
  ghost function AfterRemoval(files: Files, q: seq<Item>, e: Name): (f: Files)
    requires Linked(files, q) && e in files && e in Names(q)
    ensures Head in files && files[e].newer in files && files[e].older in files && files[e].sz == SizeOf(q, e)
    ensures f == Unlink(files, e)
    ensures Linked(f, Without(q, e)) && f.Keys == files.Keys && HeadOf(f).sz == HeadOf(files).sz
  {
    var i := Find(q, e);
    UnlinkRemoves(files, q, i);
    UnlinkKeepsFiles(files, e);
    Unlink(files, e)
  }

  lemma {:induction false} ListedIffStored(files: Files, q: seq<Item>, e: Name)
    requires Linked(files, q) && Positive(q) && files.Keys <= Names(q) + {Head} && e.Entry?
    ensures Listed(q, e) <==> e in files
  {
    RingStored(files, q);
    WithoutFacts(q, e);
  }

  lemma {:induction false} UnlinkKeepsFiles(files: Files, e: Name)
    requires e in files && files[e].newer in files && files[e].older in files
    ensures Unlink(files, e).Keys == files.Keys
  {
  }

  lemma {:induction false} StrayErased(files: Files, q: seq<Item>, e: Name)
    requires Linked(files, q) && e.Entry? && e !in Names(q) && files.Keys <= Names(q) + {e, Head}
    ensures Linked(files - {e}, q) && HeadOf(files - {e}) == HeadOf(files)
    ensures (files - {e}).Keys <= Names(q) + {Head}
  {
    forall i | 0 <= i < |q|
      ensures RecordOk(files - {e}, q, i)
    {
      assert RecordOk(files, q, i);
      assert q[i].name in Names(q);
    }
  }

  lemma {:induction false} EmptyShape(files: Files, q: seq<Item>)
    requires files == map[] && q == []
    ensures Linked(files, q) && Positive(q) && HeadOf(files).sz == 0 == Sum(q)
  {
  }

  /** The oldest names, oldest first, are those of a suffix of the ring. */
  ghost predicate OldestNames(names: seq<Name>, q: seq<Item>, k: nat)
    requires k <= |q|
  {
    |names| == |q| - k && forall i :: 0 <= i < |names| ==> names[i] == q[|q| - 1 - i].name
  }

  lemma {:induction false} RecordOf(files: Files, q: seq<Item>, k: nat)
    requires Linked(files, q) && k < |q|
    ensures NameAt(q, k) == q[k].name != Head && q[k].name in files && files[q[k].name] == RecordAt(q, k)
  {
    assert RecordOk(files, q, k);
  }

  lemma {:induction false} OneMoreOldest(names: seq<Name>, q: seq<Item>, k: nat)
    requires k < |q| && OldestNames(names, q, k + 1)
    ensures OldestNames(names + [q[k].name], q, k)
  {
  }

  lemma {:induction false} SumPrefix(q: seq<Item>, k: nat)
    requires k < |q|
    ensures Sum(q[..k + 1]) == Sum(q[..k]) + q[k].sz
  {
    assert q[..k + 1] == q[..k] + [q[k]];
    SumConcat(q[..k], [q[k]]);
  }

  lemma {:induction false} OldestNamesSet(names: seq<Name>, q: seq<Item>, k: nat)
    requires k <= |q| && OldestNames(names, q, k)
    ensures ToUnlinkSet(names) == Names(q[k..])
  {
    forall n | n in Names(q[k..])
      ensures n in names
    {
      var i :| 0 <= i < |q[k..]| && q[k..][i].name == n;
      assert names[|q| - 1 - k - i] == n;
    }
    forall i | 0 <= i < |names|
      ensures names[i] in Names(q[k..])
    {
      assert names[i] == q[k..][|q| - 1 - k - i].name;
    }
  }
}
