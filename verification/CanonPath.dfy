/** Canonical path names: the in-place canonicaliser, the independent checker, and what they mean. */
module CanonPath {
  import opened Basics
  import opened Slashes

  // ----- the canonicaliser -----

  /** `s` up to the slash before its last but one component. */
  function DropParent(s: string): (r: string)
    requires |s| >= 3
    ensures |r| <= |s| - 3
  {
    s[..AfterSlash(s[..|s| - 3])]
  }

  /** The buffer once a slash has been pushed after `s` and useless components have been removed. */
  function PushSlash(s: string, isAbs: bool): (r: string)
    ensures r == s + "/" || |r| <= |s|
  {
    var n := |s|;
    if n == 0 then if isAbs then s + "/" else s
    else if s[n - 1] == '/' then s
    else if s[n - 1] != '.' then s + "/"
    else if n == 1 then s[..n - 1]
    else if s[n - 2] == '/' then s[..n - 1]
    else if s[n - 2] != '.' then s + "/"
    else if n == 2 then s + "/"
    else if s[n - 3] != '/' then s + "/"
    else if n == 3 then s[..n - 2]
    else if s[n - 4] != '.' then DropParent(s)
    else if n == 4 then DropParent(s)
    else if s[n - 5] != '.' then DropParent(s)
    else if n == 5 then s + "/"
    else if s[n - 6] == '/' then s + "/"
    else DropParent(s)
  }

  function Push(s: string, c: char, isAbs: bool): (r: string)
    ensures r == s + [c] || |r| <= |s|
  {
    if c == '/' then PushSlash(s, isAbs) else s + [c]
  }

  function IsAbs(path: string): bool { path != "" && path[0] == '/' }

  /** The buffer after the first `i` characters. */
  function Pushed(path: string, i: nat): string
    requires i <= |path|
  {
    if i == 0 then "" else Push(Pushed(path, i - 1), path[i - 1], IsAbs(path))
  }

  function Canon(path: string): string {
    var res := Pushed(path, |path|);
    if IsDir(path) then res
    else
      var r := PushSlash(res, IsAbs(path));
      if r == "" then "." else r[..|r| - 1]
  }

  /** None stands for the exception raised on a nul character. */
  method MkCanon(path: string) returns (r: Option<string>)
    ensures r == if '\0' in path then None else Some(Canon(path))
  {
    if path == "" { return Some(""); }
    var res, isAbs := "", path[0] == '/';
    for i := 0 to |path|
      invariant '\0' !in path[..i] && res == Pushed(path, i)
    {
      if path[i] == '\0' { return None; }
      res := Push(res, path[i], isAbs);
    }
    assert path[..|path|] == path;
    if path[|path| - 1] != '/' {
      res := PushSlash(res, isAbs);
      if res != "" { res := res[..|res| - 1]; } else { res := "."; }
    }
    r := Some(res);
  }

  // ----- the checker -----

  datatype Action = Action(externOk: bool, emptyOk: bool, dotOk: bool, hasPfx: bool, hasSfx: bool)

  const DEFAULT_ACTION: Action := Action(true, false, false, false, false)

  /** The part of a path before a slash, or before its end, may stand as it is. */
  predicate SlashOk(s: string, a: Action) {
    var n := |s|;
    if n == 0 then true
    else if s[n - 1] == '/' then false
    else if s[n - 1] != '.' then true
    else if n == 1 then a.dotOk || a.hasPfx
    else if s[n - 2] == '/' then false
    else if s[n - 2] != '.' then true
    else if n == 2 then a.externOk
    else if s[n - 3] != '/' then true
    else if n == 3 then a.hasPfx && a.externOk
    else if s[n - 4] != '.' then false
    else if n == 4 then a.hasPfx && a.externOk
    else if s[n - 5] != '.' then false
    else if n == 5 then a.externOk
    else if s[n - 6] == '/' then a.externOk
    else false
  }

  ghost predicate AllSlashesOk(path: string, a: Action, n: nat)
    requires n <= |path|
  {
    forall i :: 0 <= i < n && path[i] == '/' ==> SlashOk(path[..i], a)
  }

  ghost predicate Accepted(path: string, a: Action) {
    if path == "" then a.emptyOk
    else AllSlashesOk(path, a, |path|) && (IsDir(path) || a.hasSfx || SlashOk(path, a))
  }

  /** Position of the first nul character, or the end. */
  function FirstNul(path: string): (n: nat)
    ensures n <= |path| && (n < |path| ==> path[n] == '\0') && forall i :: 0 <= i < n ==> path[i] != '\0'
  {
    if path == "" || path[0] == '\0' then 0 else 1 + FirstNul(path[1..])
  }

  /** Scans the path; None stands for the exception raised on a nul character. */
  method IsCanon(path: string, a: Action) returns (r: Option<bool>)
    ensures '\0' !in path ==> r == Some(Accepted(path, a))
    ensures '\0' in path ==> r == if AllSlashesOk(path, a, FirstNul(path)) then None else Some(false)
  {
    if path == "" { return Some(a.emptyOk); }
    for p := 0 to |path|
      invariant p <= FirstNul(path) && AllSlashesOk(path, a, p)
    {
      var c := path[p];
      if c == '\0' { return None; }
      if c == '/' && !SlashOk(path[..p], a) { return Some(false); }
    }
    r := Some(path[|path| - 1] == '/' || a.hasSfx || SlashOk(path, a));
  }

  // ----- accepted paths are the fixed points -----

  predicate NoFragment(a: Action) { !a.dotOk && !a.hasPfx && !a.hasSfx }

  /** The checker accepts exactly what the canonicaliser leaves alone. */
  lemma {:induction false} SlashOkIff(s: string, isAbs: bool, a: Action)
    requires NoFragment(a) && a.externOk && (s == "" ==> isAbs)
    ensures SlashOk(s, a) <==> PushSlash(s, isAbs) == s + "/"
  {
  }

  lemma {:induction false} PushedWithin(path: string, i: nat)
    requires i <= |path|
    ensures |Pushed(path, i)| <= i
    ensures |Pushed(path, i)| == i ==> Pushed(path, i) == path[..i]
  {
    if i > 0 {
      PushedWithin(path, i - 1);
      assert path[..i] == path[..i - 1] + [path[i - 1]];
    }
  }

  lemma {:induction false} AcceptedUnchanged(path: string, a: Action, i: nat)
    requires NoFragment(a) && a.externOk && i <= |path| && AllSlashesOk(path, a, i)
    ensures Pushed(path, i) == path[..i]
  {
    if i > 0 {
      AcceptedUnchanged(path, a, i - 1);
      assert path[..i] == path[..i - 1] + [path[i - 1]];
      if path[i - 1] == '/' {
        SlashOkIff(path[..i - 1], IsAbs(path), a);
      }
    }
  }

  lemma {:induction false} UnchangedAccepted(path: string, a: Action, i: nat)
    requires NoFragment(a) && a.externOk && i <= |path| && |Pushed(path, i)| == i
    ensures AllSlashesOk(path, a, i)
  {
    if i > 0 {
      PushedWithin(path, i);
      PushedWithin(path, i - 1);
      UnchangedAccepted(path, a, i - 1);
      if path[i - 1] == '/' {
        SlashOkIff(path[..i - 1], IsAbs(path), a);
        assert path[..i] == path[..i - 1] + "/";
      }
    }
  }

  /** A path is accepted exactly when it is neither empty nor a dot and the canonicaliser returns it
      unchanged. */
  lemma {:induction false} AcceptedIffFixed(path: string)
    ensures Accepted(path, DEFAULT_ACTION) <==> path != "" && path != "." && Canon(path) == path
  {
    var a, n := DEFAULT_ACTION, |path|;
    assert path[..n] == path;
    if Accepted(path, a) {
      AcceptedUnchanged(path, a, n);
      if !IsDir(path) {
        SlashOkIff(path, IsAbs(path), a);
      }
    }
    PushedWithin(path, n);
    if path != "" && path != "." && Canon(path) == path {
      UnchangedAccepted(path, a, n);
      if !IsDir(path) {
        SlashOkIff(path, IsAbs(path), a);
      }
    }
  }

  /** Accepting a leading dot lets through paths that are not left alone. */
  lemma {:induction false} DotOkIsLaxer()
    ensures Accepted("./a", DEFAULT_ACTION.(dotOk := true)) && Canon("./a") == "a"
  {
    var p := "./a";
    assert p[..1] == "." && p[..3] == p;
    assert Pushed(p, 1) == ".";
    assert Pushed(p, 2) == "";
    assert Pushed(p, 3) == "a";
  }
}
