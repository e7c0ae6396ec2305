/** Paths seen from a directory, and back. */
module LocalPath {
  import opened Basics
  import opened Slashes
  import opened CanonPath
  import opened CanonMeaning

  // ----- reference -----

  /** Length of the directories that start both, the comparison having reached `i`. */
  function CommonFrom(path: string, dir: string, i: nat, last: nat): (k: nat)
    requires last <= i <= |path| && i <= |dir| && path[..i] == dir[..i] && IsDir(path[..last])
    ensures last <= k <= |path| && k <= |dir| && path[..k] == dir[..k] && IsDir(path[..k])
    decreases |path| - i
  {
    if i == |path| || i == |dir| || path[i] != dir[i] then
      assert path[..last] == path[..i][..last] == dir[..last];
      last
    else
      assert path[..i + 1] == path[..i] + [path[i]] == dir[..i + 1];
      CommonFrom(path, dir, i + 1, if path[i] == '/' then i + 1 else last)
  }

  function Common(path: string, dir: string): (k: nat)
    ensures k <= |path| && k <= |dir| && path[..k] == dir[..k] && IsDir(path[..k])
  {
    CommonFrom(path, dir, 0, 0)
  }

  /** No longer run of directories starts both. */
  lemma {:induction false} CommonIsLongest(path: string, dir: string, i: nat, last: nat, j: nat)
    requires last <= i <= |path| && i <= |dir| && path[..i] == dir[..i] && IsDir(path[..last])
    requires forall x :: last <= x < i ==> path[x] != '/'
    requires j <= |path| && j <= |dir| && path[..j] == dir[..j] && IsDir(path[..j])
    ensures j <= CommonFrom(path, dir, i, last)
    decreases |path| - i
  {
    assert j > 0 ==> path[..j][j - 1] == path[j - 1];
    if j > i {
      assert path[i] == path[..j][i] == dir[..j][i] == dir[i];
      assert path[..i + 1] == path[..j][..i + 1] == dir[..j][..i + 1] == dir[..i + 1];
      CommonIsLongest(path, dir, i + 1, if path[i] == '/' then i + 1 else last, j);
    }
  }

  function Count(s: string): nat {
    if s == "" then 0 else Count(s[..|s| - 1]) + (if s[|s| - 1] == '/' then 1 else 0)
  }

  /** `path` as seen from `dir`. */
  function Lcl(path: string, dir: string): string {
    Ups(Count(dir[Common(path, dir)..])) + path[Common(path, dir)..]
  }

  /** The directory above; None when there is none, which the program refuses. */
  function Above(d: string): Option<string>
    requires d != ""
  {
    if |d| == 1 then None else Some(d[..AfterSlash(d[..|d| - 1])])
  }

  /** Leading ".." are taken as long as there is a directory to leave. */
  function GlbFrom(p: string, d: string): Option<string>
    decreases |p|
  {
    if "../" <= p && d != "" then
      match Above(d)
      case None => None
      case Some(up) => GlbFrom(p[3..], up)
    else Some(d + p)
  }

  /** `path`, given as seen from `dir`, as seen from where `dir` starts. */
  function Glb(path: string, dir: string): Option<string> {
    if IsAbs(path) then Some(path) else GlbFrom(path, dir)
  }

  // ----- the program -----

  /** None stands for the failure of the assertions on the arguments. */
  method MkLcl(path: string, dir: string) returns (r: Option<string>)
    ensures r == if IsDir(dir) && IsAbs(path) == IsAbs(dir) then Some(Lcl(path, dir)) else None
  {
    if !IsDir(dir) || IsAbs(path) != IsAbs(dir) { return None; }
    var lastSlash1, i := 0, 0;
    while i < |path|
      invariant 0 <= lastSlash1 <= i <= |path| && i <= |dir| && path[..i] == dir[..i] && IsDir(path[..lastSlash1])
      invariant Common(path, dir) == CommonFrom(path, dir, i, lastSlash1)
    {
      if i == |dir| || path[i] != dir[i] { break; }
      assert path[..i + 1] == path[..i] + [path[i]] == dir[..i + 1];
      if path[i] == '/' { lastSlash1 := i + 1; }
      i := i + 1;
    }
    var res := WayUp(dir[lastSlash1..]);
    r := Some(res + path[lastSlash1..]);
  }

  /** One ".." for each directory to leave. */
  method WayUp(rest: string) returns (res: string)
    ensures res == Ups(Count(rest))
  {
    res := "";
    for j := 0 to |rest|
      invariant res == Ups(Count(rest[..j]))
    {
      assert rest[..j + 1][..j] == rest[..j];
      if rest[j] == '/' { res := res + "../"; }
    }
    assert rest[..|rest|] == rest;
  }

  method MkGlb(path: string, dir: string) returns (r: Option<string>)
    ensures r == Glb(path, dir)
  {
    if IsAbs(path) { return Some(path); }
    var d, p := dir, path;
    while "../" <= p
      invariant GlbFrom(p, d) == GlbFrom(path, dir)
      decreases |p|
    {
      if d == "" { break; }
      p := p[3..];
      ghost var below := d;
      d := d[..|d| - 1];
      var pos := AfterSlash(d);
      if pos == 0 {
        if d == "" { return None; }
        d := "";
      } else {
        d := d[..pos];
      }
      assert Above(below) == Some(d) by { assert below[..pos] == below[..|below| - 1][..pos]; }
    }
    r := Some(d + p);
  }

  // ----- round trip -----

  lemma {:induction false} CountConcat(a: string, b: string)
    ensures Count(a + b) == Count(a) + Count(b)
  {
    if b == "" {
      assert a + b == a;
    } else {
      CountConcat(a, b[..|b| - 1]);
      assert (a + b)[..|a + b| - 1] == a + b[..|b| - 1];
    }
  }

  lemma {:induction false} CountNone(s: string)
    requires '/' !in s
    ensures Count(s) == 0
  {
    if s != "" {
      CountNone(s[..|s| - 1]);
    }
  }

  /** A directory is made of the one above, a name and a slash. */
  lemma {:induction false} SplitLast(e: string) returns (up: string, name: string)
    requires e != "" && IsDir(e)
    ensures e == up + name + "/" && IsDir(up) && '/' !in name && Count(e) == Count(up) + 1
  {
    var t := e[..|e| - 1];
    var n := AfterSlash(t);
    up, name := t[..n], t[n..];
    assert t == up + name && e == t + "/";
    CountConcat(t, "/");
    CountConcat(up, name);
    CountNone(name);
    assert Count("/") == Count("") + 1;
  }

  /** Leaving a directory removes one slash and does not go beyond where it started. */
  lemma {:induction false} AboveStep(c: string, e: string) returns (e': string)
    requires IsDir(c) && e != "" && IsDir(e) && c + e != "/"
    ensures Above(c + e) == Some(c + e') && IsDir(e') && Count(e) == Count(e') + 1
  {
    var name;
    e', name := SplitLast(e);
    var d, up := c + e, c + e';
    assert d == up + name + "/";
    assert d[..|d| - 1] == up + name;
    JoinDirs(c, e');
    LastSlash(up, name);
    assert d[..|up|] == up;
  }

  lemma {:induction false} JoinDirs(a: string, b: string)
    requires IsDir(a) && IsDir(b)
    ensures IsDir(a + b)
  {
  }

  /** Going up as many times as there are directories after `c` gives `c` back. */
  lemma {:induction false} UpsLeave(c: string, e: string, rest: string, n: nat)
    requires IsDir(c) && IsDir(e) && Count(e) == n && (IsAbs(c + e) ==> c != "")
    ensures GlbFrom(Ups(n) + rest, c + e) == GlbFrom(rest, c)
    decreases n
  {
    if e == "" {
      assert n == 0 && c + e == c && Ups(n) + rest == rest;
    } else {
      var e' := AboveStep(c, e);
      UpsFront(n);
      assert Ups(n) + rest == "../" + (Ups(n - 1) + rest);
      assert (Ups(n) + rest)[3..] == Ups(n - 1) + rest;
      assert IsAbs(c + e') ==> c != "" by { StartsAlike(c, e, e'); }
      UpsLeave(c, e', rest, n - 1);
    }
  }

  lemma {:induction false} StartsAlike(c: string, e: string, e': string)
    requires c + e != "" && Above(c + e) == Some(c + e')
    ensures IsAbs(c + e') ==> IsAbs(c + e)
  {
  }

  lemma {:induction false} UpsFront(n: nat)
    requires n > 0
    ensures Ups(n) == "../" + Ups(n - 1)
  {
    if n > 1 {
      UpsFront(n - 1);
    }
  }

  lemma {:induction false} GlbWithin(p: string, d: string)
    ensures GlbFrom(p, d).Some? ==> |GlbFrom(p, d).value| <= |d| + |p|
    decreases |p|
  {
    if "../" <= p && d != "" && Above(d).Some? {
      GlbWithin(p[3..], Above(d).value);
    }
  }

  lemma {:induction false} AbsShare(path: string, dir: string)
    requires IsAbs(path) && IsAbs(dir)
    ensures Common(path, dir) > 0
  {
    assert path[..1] == dir[..1];
    assert Common(path, dir) == CommonFrom(path, dir, 1, 1);
  }

  lemma {:induction false} CountZero(e: string)
    requires IsDir(e)
    ensures Count(e) == 0 <==> e == ""
  {
  }

  /** What remains after the common directories does not start by leaving one of them, nor with a
      second slash. */
  predicate Restorable(path: string, dir: string) {
    var k := Common(path, dir);
    k > 0 ==> !("../" <= path[k..]) && !(k == |dir| && IsAbs(path[k..]))
  }

  /** Coming back from a directory restores exactly the paths above. */
  lemma {:induction false} RoundTripIff(path: string, dir: string)
    requires IsDir(dir) && IsAbs(path) == IsAbs(dir)
    ensures Glb(Lcl(path, dir), dir) == Some(path) <==> Restorable(path, dir)
  {
    var k := Common(path, dir);
    var c, e, rest := dir[..k], dir[k..], path[k..];
    var n := Count(e);
    assert dir == c + e && path == c + rest;
    if IsAbs(path) {
      AbsShare(path, dir);
    }
    CountZero(e);
    if n > 0 {
      UpsFront(n);
    } else {
      assert Ups(n) + rest == rest;
    }
    UpsLeave(c, e, rest, n);
    assert Glb(Lcl(path, dir), dir) == if n == 0 && IsAbs(rest) then Some(rest) else GlbFrom(rest, c);
    if k > 0 && "../" <= rest && Above(c).Some? {
      GlbWithin(rest[3..], Above(c).value);
    }
  }

  // ----- canonical paths -----

  const INSIDE: Action := DEFAULT_ACTION.(externOk := false)

  /** The component that ends at `k` is "..". */
  predicate UpBefore(s: string, k: nat) {
    3 <= k <= |s| && s[k - 3] == '.' && s[k - 2] == '.' && s[k - 1] == '/' && (k == 3 || s[k - 4] == '/')
  }

  /** A ".." that follows a slash in an accepted path follows another "..". */
  lemma {:induction false} UpFollowsUp(path: string, k: nat)
    requires Accepted(path, DEFAULT_ACTION) && 0 < k <= |path| && path[k - 1] == '/' && "../" <= path[k..]
    ensures UpBefore(path, k)
  {
    assert path[k..][..3] == "../";
    assert path[k] == path[k..][0] && path[k + 1] == path[k..][1] && path[k + 2] == path[k..][2];
    var s := path[..k + 2];
    assert SlashOk(s, DEFAULT_ACTION);
    assert s[k - 1] == '/' && s[k] == '.' && s[k + 1] == '.';
  }

  lemma {:induction false} UpRefused(dir: string, k: nat)
    requires UpBefore(dir, k)
    ensures dir[k - 1] == '/' && !SlashOk(dir[..k - 1], INSIDE)
  {
    var t := dir[..k - 1];
    assert t[|t| - 1] == '.' && t[|t| - 2] == '.';
  }

  lemma {:induction false} SamePrefix(a: string, b: string, k: nat)
    requires k <= |a| && k <= |b| && a[..k] == b[..k] && UpBefore(a, k)
    ensures UpBefore(b, k)
  {
    assert forall i :: 0 <= i < k ==> a[i] == a[..k][i] == b[..k][i] == b[i];
  }

  lemma {:induction false} NoDoubleSlash(path: string, k: nat)
    requires Accepted(path, DEFAULT_ACTION) && 0 < k <= |path| && path[k - 1] == '/'
    ensures !IsAbs(path[k..])
  {
    assert !SlashOk(path[..k], DEFAULT_ACTION);
  }

  /** A path that goes up right where it leaves the directory does not come back. */
  lemma {:induction false} UpDoesNotComeBack()
    ensures Lcl("a/../b", "a/") == "../b" && Glb("../b", "a/") == Some("b")
  {
    var path, dir := "a/../b", "a/";
    assert path[..1] == dir[..1] && path[..2] == dir[..2];
    assert Common(path, dir) == CommonFrom(path, dir, 1, 0) == CommonFrom(path, dir, 2, 2) == 2;
    AfterSlashIs("a", 0);
    assert Above(dir) == Some("") && "../b"[3..] == "b" && "" + "b" == "b";
    assert GlbFrom("../b", dir) == GlbFrom("b", "");
  }

  /** Every canonical path comes back from every canonical directory that does not leave its start. */
  lemma {:induction false} RoundTrip(path: string, dir: string)
    requires Accepted(path, DEFAULT_ACTION) && IsDir(dir) && (dir == "" || Accepted(dir, INSIDE))
    requires IsAbs(path) == IsAbs(dir)
    ensures Glb(Lcl(path, dir), dir) == Some(path)
  {
    RoundTripIff(path, dir);
    var k := Common(path, dir);
    if k > 0 {
      assert path[k - 1] == path[..k][k - 1] == '/';
      NoDoubleSlash(path, k);
      if "../" <= path[k..] {
        UpFollowsUp(path, k);
        SamePrefix(path, dir, k);
        UpRefused(dir, k);
      }
    }
  }
}
