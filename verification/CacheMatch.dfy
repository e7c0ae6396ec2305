/** Matching the deps of a job against the entries the cache holds for it. */
module CacheMatch {
  import opened Basics
  import opened Checksum

  datatype Dep = Dep(name: string, crc: Crc, accesses: Accesses, critical: bool)

  type Deps = seq<Dep>

  datatype MissKind = NoRule | BadDeps

  /** Clash is the case where the program stops on two suspiciously close checksums. */
  datatype Answer = Hit(key: string) | Partial(deps: Deps) | Miss(kind: MissKind) | Clash

  predicate IsKey(k: string) { "key-" <= k }

  /** What the match demands of a key it is led to by a link. */
  predicate IsHint(k: string) { IsKey(k) && '/' !in k }

  ghost predicate DistinctNames(ds: Deps) {
    forall i, j :: 0 <= i < j < |ds| ==> ds[i].name != ds[j].name
  }

  ghost function NamesOf(ds: Deps): set<string> {
    set d | d in ds :: d.name
  }

  // ----- reference: plain search by name -----

  /** The first dep of that name. */
  function Lookup(repo: Deps, name: string): (r: Option<Dep>)
    ensures r.Some? ==> r.value in repo && r.value.name == name
    ensures r.None? <==> forall d :: d in repo ==> d.name != name
  {
    if repo == [] then None
    else if repo[0].name == name then Some(repo[0])
    else
      assert forall d :: d in repo <==> d == repo[0] || d in repo[1..];
      Lookup(repo[1..], name)
  }

  predicate Known(repo: Deps, d: Dep) { Lookup(repo, d.name).Some? }

  /** Comparison with the dep of the same name; None when there is none. */
  function Compare(repo: Deps, d: Dep): Option<Option<bool>> {
    match Lookup(repo, d.name)
    case None => None
    case Some(r) => Some(Match(d.crc, r.crc, d.accesses))
  }

  predicate Agrees(repo: Deps, d: Dep) { Compare(repo, d) == Some(Some(true)) }

  predicate Clashes(repo: Deps, d: Dep) { Compare(repo, d) == Some(None) }

  /** All deps are in the repo and match. */
  ghost predicate Full(ds: Deps, repo: Deps) {
    forall d :: d in ds ==> Agrees(repo, d)
  }

  /** All deps that are in the repo match, but some are not there. */
  ghost predicate Compatible(ds: Deps, repo: Deps) {
    && (forall d :: d in ds && Known(repo, d) ==> Agrees(repo, d))
    && (exists d :: d in ds && !Known(repo, d))
  }

  /** The deps up to and including the first critical one that is not in the repo. */
  function Truncated(ds: Deps, repo: Deps): Deps {
    if ds == [] then []
    else if ds[0].critical && !Known(repo, ds[0]) then [ds[0]]
    else [ds[0]] + Truncated(ds[1..], repo)
  }

  lemma {:induction false} TruncatedIs(ds: Deps, repo: Deps, i: nat)
    requires i < |ds| && ds[i].critical && !Known(repo, ds[i])
    requires forall j :: 0 <= j < i ==> !ds[j].critical || Known(repo, ds[j])
    ensures Truncated(ds, repo) == ds[..i + 1]
  {
    if i > 0 {
      TruncatedIs(ds[1..], repo, i - 1);
      assert ds[..i + 1] == [ds[0]] + ds[1..][..i];
    } else {
      assert ds[..1] == [ds[0]];
    }
  }

  lemma {:induction false} NotTruncated(ds: Deps, repo: Deps)
    requires forall j :: 0 <= j < |ds| ==> !ds[j].critical || Known(repo, ds[j])
    ensures Truncated(ds, repo) == ds
  {
    if ds != [] {
      NotTruncated(ds[1..], repo);
    }
  }

  // ----- one candidate -----

  datatype Scan = ScanHit | ScanMiss | ScanClash | ScanPartial(dvg: nat)

  /** First index of a dep that is not in the repo. */
  ghost predicate Diverges(ds: Deps, repo: Deps, dvg: nat) {
    dvg < |ds| && !Known(repo, ds[dvg]) && forall j :: 0 <= j < dvg ==> Known(repo, ds[j])
  }

  lemma {:induction false} LookupAt(repo: Deps, i: nat)
    requires DistinctNames(repo) && i < |repo|
    ensures Lookup(repo, repo[i].name) == Some(repo[i])
  {
  }

  /** In-order comparison that falls back to a search by name: the outcome is the one of the
      search by name alone. */
  method ScanDeps(cached: Deps, repo: Deps) returns (r: Scan, inOrder: bool)
    requires DistinctNames(repo)
    ensures r == ScanClash ==> exists d :: d in cached && Clashes(repo, d)
    ensures r == ScanMiss ==> exists d :: d in cached && Compare(repo, d) == Some(Some(false))
    ensures r == ScanHit <==> Full(cached, repo)
    ensures r.ScanPartial? <==> Compatible(cached, repo)
    ensures r.ScanPartial? ==> Diverges(cached, repo, r.dvg) && !inOrder
  {
    inOrder := true;
    var idx, hit, dvg := 0, true, 0;
    for n := 0 to |cached|
      invariant forall j :: 0 <= j < n && Known(repo, cached[j]) ==> Agrees(repo, cached[j])
      invariant hit ==> dvg == n && forall j :: 0 <= j < n ==> Known(repo, cached[j])
      invariant !hit ==> Diverges(cached, repo, dvg) && dvg < n && !inOrder
      invariant inOrder ==> idx == n && hit
    {
      var d := cached[n];
      assert d in cached;
      var found: Option<Dep>;
      if inOrder && idx < |repo| && d.name == repo[idx].name {
        LookupAt(repo, idx);
        found := Some(repo[idx]);
      } else {
        inOrder := false;
        found := Lookup(repo, d.name);
      }
      if found.None? {
        hit := false;
        continue;
      }
      var m := Match(d.crc, found.value.crc, d.accesses);
      if m == None { return ScanClash, inOrder; }
      if m == Some(false) { return ScanMiss, inOrder; }
      idx := idx + 1;
      if hit { dvg := dvg + 1; }
    }
    if hit {
      r := ScanHit;
    } else {
      r := ScanPartial(dvg);
      assert cached[dvg] in cached;
    }
  }

  /** Drop what follows the first critical dep that is not in the repo. */
  method TruncateDeps(cached: Deps, repo: Deps, dvg: nat) returns (r: Deps)
    requires Diverges(cached, repo, dvg)
    ensures r == Truncated(cached, repo)
    ensures cached[dvg] in r && (forall d :: d in r ==> d in cached)
  {
    for i := dvg to |cached|
      invariant forall j :: 0 <= j < i ==> !cached[j].critical || Known(repo, cached[j])
    {
      if cached[i].critical && Lookup(repo, cached[i].name).None? {
        TruncatedIs(cached, repo, i);
        assert cached[..i + 1][dvg] == cached[dvg];
        return cached[..i + 1];
      }
    }
    NotTruncated(cached, repo);
    r := cached;
  }

  // ----- intersection over candidates -----

  function Restricted(ds: Deps, names: set<string>): (r: Deps)
    ensures NamesOf(r) == NamesOf(ds) * names
    ensures |r| <= |ds|
    ensures |r| == |ds| ==> r == ds
    ensures forall d :: d in r ==> d in ds
  {
    if ds == [] then []
    else
      NamesCons(ds[0], ds[1..]);
      assert [ds[0]] + ds[1..] == ds;
      var r := Restricted(ds[1..], names);
      NamesCons(ds[0], r);
      if ds[0].name in names then [ds[0]] + r else r
  }

  lemma {:induction false} NamesCons(d: Dep, ds: Deps)
    ensures NamesOf([d] + ds) == {d.name} + NamesOf(ds)
  {
    assert forall x :: x in [d] + ds <==> x == d || x in ds;
  }

  function NameSet(ds: Deps): (r: set<string>)
    ensures r == NamesOf(ds)
  {
    set d | d in ds :: d.name
  }

  /** The crc is of no use when the job is to be rerun. */
  function Bare(ds: Deps): (r: Deps)
    ensures NamesOf(r) == NamesOf(ds)
    ensures forall d :: d in r ==> exists x :: x in ds && d == x.(crc := UNKNOWN)
  {
    var r := seq(|ds|, i requires 0 <= i < |ds| => ds[i].(crc := UNKNOWN));
    assert forall i :: 0 <= i < |ds| ==> r[i] in r && ds[i] in ds && r[i] == ds[i].(crc := UNKNOWN);
    r
  }

  type Infos = map<string, Deps>

  ghost function Candidates(infos: Infos): set<string> {
    set k | k in infos && IsKey(k)
  }

  ghost predicate AnyFull(infos: Infos, ks: set<string>, repo: Deps) {
    exists k :: k in ks && k in infos && Full(infos[k], repo)
  }

  ghost predicate AnyCompatible(infos: Infos, ks: set<string>, repo: Deps) {
    exists k :: k in ks && k in infos && Compatible(infos[k], repo)
  }

  /** The name is needed by every compatible candidate of `ks`. */
  ghost predicate Common(infos: Infos, ks: set<string>, repo: Deps, name: string) {
    forall k :: k in ks && k in infos && Compatible(infos[k], repo) ==> name in NamesOf(Truncated(infos[k], repo))
  }

  ghost predicate IsCommon(infos: Infos, ks: set<string>, repo: Deps, names: set<string>) {
    forall n :: n in names <==> Common(infos, ks, repo, n)
  }

  ghost predicate HasNew(names: set<string>, repo: Deps) {
    exists n :: n in names && n !in NamesOf(repo)
  }

  /** Every dep comes from a compatible candidate, without its crc. */
  ghost predicate Sourced(infos: Infos, ks: set<string>, repo: Deps, ds: Deps) {
    forall d :: d in ds ==>
      exists k, x :: k in ks && k in infos && Compatible(infos[k], repo) && x in infos[k] && d == x.(crc := UNKNOWN)
  }

  lemma {:induction false} UnknownIsNew(repo: Deps, d: Dep, names: set<string>)
    requires !Known(repo, d) && d.name in names
    ensures HasNew(names, repo)
  {
    assert d.name !in NamesOf(repo);
  }

  lemma {:induction false} CommonGrows(infos: Infos, ks: set<string>, repo: Deps, k: string, names: set<string>)
    requires k in infos && AnyCompatible(infos, ks, repo) && IsCommon(infos, ks, repo, names)
    ensures Compatible(infos[k], repo)
        ==> IsCommon(infos, ks + {k}, repo, names * NamesOf(Truncated(infos[k], repo)))
    ensures !Compatible(infos[k], repo) ==> IsCommon(infos, ks + {k}, repo, names)
  {
  }

  /** What the caller of a query is told, whatever the order in which candidates are listed. */
  ghost predicate Answers(infos: Infos, repo: Deps, forCommit: bool, a: Answer) {
    var ks := Candidates(infos);
    match a
    case Clash => exists k, d :: k in ks && d in infos[k] && Clashes(repo, d)
    case Hit(key) => key in ks && Full(infos[key], repo)
    case Partial(deps) =>
      && !forCommit && !AnyFull(infos, ks, repo) && AnyCompatible(infos, ks, repo)
      && IsCommon(infos, ks, repo, NamesOf(deps)) && HasNew(NamesOf(deps), repo)
      && Sourced(infos, ks, repo, deps)
    case Miss(kind) =>
      && !AnyFull(infos, ks, repo)
      && (!forCommit ==> (kind == NoRule <==> ks == {}))
      && (!forCommit && AnyCompatible(infos, ks, repo) ==>
            forall names :: IsCommon(infos, ks, repo, names) ==> !HasNew(names, repo))
  }

  /** All that is known of the answer of a query. */
  ghost predicate Answered(infos: Infos, repo: Deps, forCommit: bool, answer: Answer) {
    && Answers(infos, repo, forCommit, answer)
    && (!answer.Clash? ==> (answer.Hit? <==> AnyFull(infos, Candidates(infos), repo)))
  }

  /** One candidate: what has been learnt from `ks` extends to `ks + {k}`. */
  ghost predicate Learnt(infos: Infos, ks: set<string>, repo: Deps, forCommit: bool,
                         matching: Option<Deps>, truncated: bool, mapBuilt: bool, miss: MissKind)
  {
    && (matching.Some? ==> mapBuilt)
    && !AnyFull(infos, ks, repo)
    && (miss == NoRule <==> ks == {})
    && (!forCommit ==> (matching.Some? <==> AnyCompatible(infos, ks, repo)))
    && (matching.Some? ==> IsCommon(infos, ks, repo, NamesOf(matching.value)))
    && (matching.Some? ==> Sourced(infos, ks, repo, matching.value))
    && (matching.Some? && !truncated ==> HasNew(NamesOf(matching.value), repo))
  }

  method Merge(infos: Infos, ghost ks: set<string>, repo: Deps, k: string, dvg: nat,
               matching: Option<Deps>, truncated: bool, ghost mapBuilt: bool, ghost miss: MissKind)
    returns (matching': Option<Deps>, truncated': bool)
    requires k in infos && Compatible(infos[k], repo) && Diverges(infos[k], repo, dvg)
    requires Learnt(infos, ks, repo, false, matching, truncated, mapBuilt, miss)
    ensures Learnt(infos, ks + {k}, repo, false, matching', truncated', true, BadDeps)
  {
    var ds := TruncateDeps(infos[k], repo, dvg);
    assert AnyCompatible(infos, ks + {k}, repo);
    assert !AnyFull(infos, ks + {k}, repo) by {
      assert exists d :: d in infos[k] && !Known(repo, d);
    }
    if matching.Some? {
      CommonGrows(infos, ks, repo, k, NamesOf(matching.value));
      var kept := Restricted(matching.value, NameSet(ds));
      truncated' := truncated || |kept| < |matching.value|;
      matching' := Some(kept);
    } else {
      matching', truncated' := Some(Bare(ds)), truncated;
      assert infos[k][dvg].name in NamesOf(ds);
      UnknownIsNew(repo, infos[k][dvg], NamesOf(ds));
      assert IsCommon(infos, ks + {k}, repo, NamesOf(ds));
    }
  }

  lemma {:induction false} SkipCandidate(infos: Infos, ks: set<string>, repo: Deps, forCommit: bool, k: string,
                      matching: Option<Deps>, truncated: bool, mapBuilt: bool, mapBuilt': bool, miss: MissKind)
    requires mapBuilt ==> mapBuilt'
    requires k in infos && !Full(infos[k], repo)
    requires !Compatible(infos[k], repo) || forCommit
    requires forCommit ==> matching.None?
    requires Learnt(infos, ks, repo, forCommit, matching, truncated, mapBuilt, miss)
    ensures Learnt(infos, ks + {k}, repo, forCommit, matching, truncated, mapBuilt', BadDeps)
  {
    if matching.Some? {
      CommonGrows(infos, ks, repo, k, NamesOf(matching.value));
    }
  }

  /** The query proper.  `listing` is the content of the job directory in any order, `hint` a key
      that a previous commit with the same deps may have left behind. */
  method SubMatch(infos: Infos, listing: seq<string>, hint: Option<string>, repo: Deps, forCommit: bool)
    returns (a: Answer)
    requires DistinctNames(repo)
    requires forall k :: k in infos ==> k in listing
    requires hint.Some? ==> IsHint(hint.value)
    ensures Answers(infos, repo, forCommit, a)
    ensures !a.Clash? ==> (a.Hit? <==> AnyFull(infos, Candidates(infos), repo))
  {
    var matching: Option<Deps> := None;
    var truncated, mapBuilt, miss := false, false, NoRule;
    ghost var ks: set<string> := {};
    var candidate := -1;
    while candidate < |listing|
      invariant -1 <= candidate <= |listing|
      invariant ks <= Candidates(infos)
      invariant candidate >= 0 && hint.Some? && hint.value in infos ==> hint.value in ks
      invariant forall i :: 0 <= i < candidate && listing[i] in Candidates(infos) ==> listing[i] in ks
      invariant forCommit ==> matching.None?
      invariant Learnt(infos, ks, repo, forCommit, matching, truncated, mapBuilt, miss)
    {
      var key := if candidate >= 0 then Some(listing[candidate]) else hint;
      candidate := candidate + 1;
      if key.None? || !IsKey(key.value) || (candidate > 0 && key == hint) || key.value !in infos {
        continue;
      }
      var k := key.value;
      var scan, inOrder := ScanDeps(infos[k], repo);
      if scan == ScanClash { return Clash; }
      if scan == ScanHit { return Hit(k); }
      if scan.ScanPartial? && !forCommit {
        matching, truncated := Merge(infos, ks, repo, k, scan.dvg, matching, truncated, mapBuilt, miss);
      } else {
        SkipCandidate(infos, ks, repo, forCommit, k, matching, truncated, mapBuilt, mapBuilt || !inOrder, miss);
      }
      mapBuilt, miss := mapBuilt || !inOrder, BadDeps;
      ks := ks + {k};
    }
    assert ks == Candidates(infos);
    a := Conclude(infos, repo, forCommit, matching, truncated, mapBuilt, miss);
  }

  method Conclude(ghost infos: Infos, repo: Deps, forCommit: bool,
                  matching: Option<Deps>, truncated: bool, mapBuilt: bool, miss: MissKind) returns (a: Answer)
    requires forCommit ==> matching.None?
    requires Learnt(infos, Candidates(infos), repo, forCommit, matching, truncated, mapBuilt, miss)
    ensures Answers(infos, repo, forCommit, a) && !a.Hit? && !a.Clash?
  {
    if forCommit { return Miss(BadDeps); }
    if matching.Some? {
      var unseen := set d | d in matching.value && Lookup(repo, d.name).None? :: d.name;
      if !truncated || !mapBuilt || unseen != {} {
        assert HasNew(NamesOf(matching.value), repo) by {
          if truncated {
            var d :| d in matching.value && Lookup(repo, d.name).None?;
            UnknownIsNew(repo, d, NamesOf(matching.value));
          }
        }
        return Partial(matching.value);
      }
      assert forall d :: d in matching.value && !Known(repo, d) ==> d.name in unseen;
      forall names | IsCommon(infos, Candidates(infos), repo, names)
        ensures !HasNew(names, repo)
      {
        NoneIsNew(repo, matching.value, names);
      }
    }
    a := Miss(miss);
  }

  lemma {:induction false} NoneIsNew(repo: Deps, ds: Deps, names: set<string>)
    requires forall d :: d in ds ==> Known(repo, d)
    requires forall n :: n in names <==> n in NamesOf(ds)
    ensures !HasNew(names, repo)
  {
  }

  // ----- consequences -----

  lemma {:induction false} TruncatedShrinks(ds: Deps, repo: Deps)
    ensures forall d :: d in Truncated(ds, repo) ==> d in ds
  {
    if ds != [] {
      TruncatedShrinks(ds[1..], repo);
    }
  }

  /** Two queries over the same entries agree on everything but which hit is taken, whatever the
      listing order and the hint. */
  lemma {:induction false} AnswersAgree(infos: Infos, repo: Deps, a: Answer, b: Answer)
    requires Answers(infos, repo, false, a) && Answers(infos, repo, false, b)
    requires !a.Clash? && !b.Clash?
    requires a.Hit? <==> AnyFull(infos, Candidates(infos), repo)
    requires b.Hit? <==> AnyFull(infos, Candidates(infos), repo)
    ensures a.Hit? <==> b.Hit?
    ensures a.Partial? ==> b.Partial? && NamesOf(a.deps) == NamesOf(b.deps)
    ensures a.Miss? ==> a == b
  {
    if a.Partial? && b.Partial? {
      assert forall n :: n in NamesOf(a.deps) <==> n in NamesOf(b.deps);
    }
  }

  /** What the job of a hit entry saw when it ran is what it would see now. */
  lemma {:induction false} HitSeesTheSame(h: File -> Crc, u: set<File>, infos: Infos, repo: Deps, key: string,
                       before: map<string, File>, now: map<string, File>, d: Dep, x: Access)
    requires Answers(infos, repo, false, Hit(key))
    requires d in infos[key] && x in d.accesses && x in FULL_ACCESSES
    requires before.Values <= u && now.Values <= u && CollisionFree(h, u)
    requires forall e :: e in infos[key] ==> e.name in before && Describes(h, e.crc, before[e.name])
    requires forall e :: e in repo ==> e.name in now && Describes(h, e.crc, now[e.name])
    ensures d.name in now && See(x, before[d.name]) == See(x, now[d.name])
  {
    var r := Lookup(repo, d.name).value;
    assert Agrees(repo, d);
    assert r in repo;
    MatchHidesDifferences(h, u, d.crc, r.crc, before[d.name], now[d.name], d.accesses);
  }

  ghost function AllNames(infos: Infos): set<string> {
    set k, d | k in infos && d in infos[k] :: d.name
  }

  lemma {:induction false} PartialAnswersAreNames(infos: Infos, repo: Deps, ds: Deps)
    requires Answers(infos, repo, false, Partial(ds))
    ensures NamesOf(ds) <= AllNames(infos) && HasNew(NamesOf(ds), repo)
  {
    var ks := Candidates(infos);
    var k :| k in ks && k in infos && Compatible(infos[k], repo);
    TruncatedShrinks(infos[k], repo);
    forall n | n in NamesOf(ds)
      ensures n in AllNames(infos)
    {
      assert Common(infos, ks, repo, n);
    }
  }

  /** The caller knows the returned deps when it asks again. */
  ghost predicate Turn(infos: Infos, repo: Deps, answer: Deps, next: Deps) {
    Answers(infos, repo, false, Partial(answer)) && NamesOf(repo) + NamesOf(answer) <= NamesOf(next)
  }

  lemma {:induction false} FewerLeft(all: set<string>, known: set<string>, learnt: set<string>, next: set<string>, n: string)
    requires learnt <= all && n in learnt && n !in known && known + learnt <= next
    ensures |all - next| < |all - known|
  {
    SubsetSmaller(all - next, all - known - {n});
  }

  /** Adding the deps of a partial answer leaves strictly fewer names to discover. */
  lemma {:induction false} PartialAnswerProgresses(infos: Infos, repo: Deps, answer: Deps, next: Deps)
    requires Turn(infos, repo, answer, next)
    ensures |AllNames(infos) - NamesOf(next)| < |AllNames(infos) - NamesOf(repo)|
  {
    PartialAnswersAreNames(infos, repo, answer);
    var n :| n in NamesOf(answer) && n !in NamesOf(repo);
    FewerLeft(AllNames(infos), NamesOf(repo), NamesOf(answer), NamesOf(next), n);
  }

  lemma {:induction false} SubsetSmaller(a: set<string>, b: set<string>)
    requires a <= b
    ensures |a| <= |b|
  {
    if x :| x in a {
      SubsetSmaller(a - {x}, b - {x});
    }
  }

  /** Each query is answered partially and the next one knows the deps that were returned. */
  ghost predicate Dialogue(infos: Infos, repos: seq<Deps>, answers: seq<Deps>) {
    && |repos| == |answers| + 1
    && forall i {:trigger answers[i]} :: 0 <= i < |answers| ==> Turn(infos, repos[i], answers[i], repos[i + 1])
  }

  /** Repeated queries cannot loop. */
  lemma {:induction false} DialogueIsBounded(infos: Infos, repos: seq<Deps>, answers: seq<Deps>)
    requires Dialogue(infos, repos, answers)
    ensures |answers| <= |AllNames(infos) - NamesOf(repos[0])|
    decreases |answers|
  {
    if answers != [] {
      assert Turn(infos, repos[0], answers[0], repos[0 + 1]);
      PartialAnswerProgresses(infos, repos[0], answers[0], repos[1]);
      forall i | 0 <= i < |answers[1..]|
        ensures Turn(infos, repos[1..][i], answers[1..][i], repos[1..][i + 1])
      {
        assert Turn(infos, repos[i + 1], answers[i + 1], repos[(i + 1) + 1]);
      }
      DialogueIsBounded(infos, repos[1..], answers[1..]);
    }
  }
}
