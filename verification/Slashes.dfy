/** Slashes in path names. */
module Slashes {

  /** Directory names end with a slash, except the empty one. */
  predicate IsDir(d: string) { d == "" || d[|d| - 1] == '/' }

  /** Position just after the last slash, or 0. */
  function AfterSlash(s: string): (n: nat)
    ensures n <= |s| && IsDir(s[..n])
    ensures forall i :: n <= i < |s| ==> s[i] != '/'
  {
    if s == "" then 0
    else if s[|s| - 1] == '/' then |s|
    else
      var n := AfterSlash(s[..|s| - 1]);
      assert s[..|s| - 1][..n] == s[..n];
      n
  }

  lemma {:induction false} AfterSlashIs(s: string, n: nat)
    requires n <= |s| && IsDir(s[..n]) && forall i :: n <= i < |s| ==> s[i] != '/'
    ensures AfterSlash(s) == n
  {
    if n < |s| {
      assert s[..|s| - 1][..n] == s[..n];
      AfterSlashIs(s[..|s| - 1], n);
    } else {
      assert s[..n] == s;
    }
  }
}
