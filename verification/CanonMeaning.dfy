/** What a path name means, and that canonicalising keeps it. */
module CanonMeaning {
  import opened Slashes
  import opened CanonPath

  /** From the root or from the current directory, go up `ups` times, then down along `names`. */
  datatype Meaning = Meaning(abs: bool, ups: nat, names: seq<string>)

  predicate IsName(c: string) { c != "" && c != "." && c != ".." && '/' !in c }

  /** There is nothing above the root. */
  ghost predicate Proper(m: Meaning) {
    (m.abs ==> m.ups == 0) && forall i :: 0 <= i < |m.names| ==> IsName(m.names[i])
  }

  function Start(abs: bool): Meaning { Meaning(abs, 0, []) }

  /** One component. */
  function Enter(m: Meaning, c: string): Meaning {
    if c == "" || c == "." then m
    else if c != ".." then m.(names := m.names + [c])
    else if m.names != [] then m.(names := m.names[..|m.names| - 1])
    else if m.abs then m
    else m.(ups := m.ups + 1)
  }

  /** The components already complete and the current one. */
  datatype Scan = Scan(m: Meaning, cur: string)

  function ScanStep(p: Scan, c: char): Scan {
    if c == '/' then Scan(Enter(p.m, p.cur), "") else Scan(p.m, p.cur + [c])
  }

  function ScanOf(abs: bool, s: string): Scan {
    if s == "" then Scan(Start(abs), "") else ScanStep(ScanOf(abs, s[..|s| - 1]), s[|s| - 1])
  }

  function MeaningOf(path: string): Meaning {
    var p := ScanOf(IsAbs(path), path);
    Enter(p.m, p.cur)
  }

  // ----- printed form -----

  function Ups(n: nat): string { if n == 0 then "" else Ups(n - 1) + "../" }

  function Down(names: seq<string>): string {
    if names == [] then "" else Down(names[..|names| - 1]) + names[|names| - 1] + "/"
  }

  function Prefix(m: Meaning): string { (if m.abs then "/" else "") + Ups(m.ups) + Down(m.names) }

  /** The printed form; the root without its slash is empty. */
  function Render(m: Meaning, dir: bool): string {
    var p := Prefix(m);
    if dir then p else if p == "" then "." else p[..|p| - 1]
  }

  // ----- canonicalising prints the meaning -----

  lemma {:induction false} ScanProper(abs: bool, s: string)
    ensures Proper(ScanOf(abs, s).m) && '/' !in ScanOf(abs, s).cur && ScanOf(abs, s).m.abs == abs
  {
    if s != "" {
      ScanProper(abs, s[..|s| - 1]);
    }
  }

  lemma {:induction false} EnterProper(m: Meaning, c: string)
    requires Proper(m) && '/' !in c
    ensures Proper(Enter(m, c))
  {
  }

  lemma {:induction false} PrefixEnds(m: Meaning)
    ensures IsDir(Prefix(m))
    ensures Prefix(m) == "" <==> !m.abs && m.ups == 0 && m.names == []
  {
  }

  lemma {:induction false} PushName(p: string, c: string, isAbs: bool)
    requires IsDir(p) && IsName(c)
    ensures PushSlash(p + c, isAbs) == p + c + "/"
  {
    var s := p + c;
    assert s[|s| - 1] == c[|c| - 1];
    assert |c| >= 2 ==> s[|s| - 2] == c[|c| - 2];
    assert |c| >= 3 ==> s[|s| - 3] == c[|c| - 3];
  }

  /** Going up from a plain name removes it. */
  lemma {:induction false} PushUpFromName(p: string, c: string, isAbs: bool)
    requires IsDir(p) && IsName(c)
    ensures PushSlash(p + c + "/" + "..", isAbs) == p
  {
    var s := p + c + "/" + "..";
    var n := |s|;
    assert s[n - 1] == '.' && s[n - 2] == '.' && s[n - 3] == '/';
    assert s[n - 4] == c[|c| - 1];
    assert |c| >= 2 ==> s[n - 5] == c[|c| - 2];
    assert |c| >= 3 ==> s[n - 6] == c[|c| - 3];
    assert s[..n - 3] == p + c;
    LastSlash(p, c);
    assert (p + c)[..|p|] == p && s[..|p|] == p;
  }

  lemma {:induction false} LastSlash(p: string, c: string)
    requires IsDir(p) && '/' !in c
    ensures AfterSlash(p + c) == |p|
  {
    if c == "" {
      assert p + c == p;
    } else {
      LastSlash(p, c[..|c| - 1]);
      assert (p + c)[..|p + c| - 1] == p + c[..|c| - 1];
    }
  }

  /** The meaning without its last name. */
  function Up(m: Meaning): Meaning
    requires m.names != []
  {
    m.(names := m.names[..|m.names| - 1])
  }

  function LastName(m: Meaning): string
    requires m.names != []
  {
    m.names[|m.names| - 1]
  }

  lemma {:induction false} PrefixLast(m: Meaning)
    requires m.names != []
    ensures Prefix(m) == Prefix(Up(m)) + LastName(m) + "/"
    ensures m.names == Up(m).names + [LastName(m)]
  {
    var start := (if m.abs then "/" else "") + Ups(m.ups);
    var d := Down(Up(m).names);
    assert start + (d + LastName(m) + "/") == (start + d) + LastName(m) + "/";
  }

  lemma {:induction false} PrefixAdd(m: Meaning, c: string)
    ensures Prefix(m.(names := m.names + [c])) == Prefix(m) + c + "/"
  {
    var n := m.(names := m.names + [c]);
    PrefixLast(n);
    assert Up(n).names == m.names;
  }

  lemma {:induction false} PrefixNoName(m: Meaning)
    requires Proper(m) && m.names == []
    ensures Prefix(m) == if m.abs then "/" else Ups(m.ups)
  {
  }

  lemma {:induction false} PushUpFromUps(n: nat)
    requires n > 0
    ensures PushSlash(Ups(n) + "..", false) == Ups(n) + "../"
  {
    var s := Ups(n) + "..";
    assert Ups(n) == Ups(n - 1) + "../";
    assert s == Ups(n - 1) + "../..";
    if n > 1 {
      assert Ups(n - 1) == Ups(n - 2) + "../";
    }
  }

  lemma {:induction false} SlashEntersUp(m: Meaning)
    requires Proper(m)
    ensures PushSlash(Prefix(m) + "..", m.abs) == Prefix(Enter(m, ".."))
  {
    if m.names != [] {
      PrefixLast(m);
      PrefixEnds(Up(m));
      PushUpFromName(Prefix(Up(m)), LastName(m), m.abs);
    } else {
      PrefixNoName(m);
      PrefixNoName(Enter(m, ".."));
      if m.abs {
        assert Prefix(m) + ".." == "/.." && "/.."[..1] == "/";
      } else if m.ups > 0 {
        PushUpFromUps(m.ups);
      } else {
        assert Prefix(m) + ".." == "..";
        assert Ups(1) == Ups(0) + "../" == "../";
      }
    }
  }

  lemma {:induction false} SlashEnters(m: Meaning, c: string)
    requires Proper(m) && '/' !in c
    ensures PushSlash(Prefix(m) + c, m.abs) == Prefix(Enter(m, c))
  {
    PrefixEnds(m);
    var p := Prefix(m);
    if c == "" {
      assert p + c == p;
    } else if c == "." {
      assert (p + c)[..|p|] == p;
    } else if c == ".." {
      SlashEntersUp(m);
    } else {
      PushName(p, c, m.abs);
      PrefixAdd(m, c);
    }
  }

  function Printed(s: Scan): string { Prefix(s.m) + s.cur }

  lemma {:induction false} PushedStep(s: Scan, c: char)
    requires Proper(s.m) && '/' !in s.cur
    ensures Push(Printed(s), c, s.m.abs) == Printed(ScanStep(s, c))
  {
    if c == '/' {
      SlashEnters(s.m, s.cur);
      assert Prefix(Enter(s.m, s.cur)) + "" == Prefix(Enter(s.m, s.cur));
    } else {
      assert Prefix(s.m) + s.cur + [c] == Prefix(s.m) + (s.cur + [c]);
    }
  }

  /** The slash of the root is pushed, not entered. */
  lemma {:induction false} PushedRoot(path: string)
    requires IsAbs(path)
    ensures Pushed(path, 1) == Printed(ScanOf(true, path[..1]))
  {
    assert path[..1][..0] == "";
    assert Pushed(path, 1) == PushSlash("", true);
  }

  lemma {:induction false} ScanNext(abs: bool, path: string, i: nat)
    requires 0 < i <= |path|
    ensures ScanOf(abs, path[..i]) == ScanStep(ScanOf(abs, path[..i - 1]), path[i - 1])
  {
    assert path[..i][..i - 1] == path[..i - 1];
  }

  lemma {:induction false} PushedIsScan(path: string, i: nat)
    requires i <= |path| && (IsAbs(path) ==> i > 0)
    ensures Pushed(path, i) == Printed(ScanOf(IsAbs(path), path[..i]))
  {
    if i > 0 {
      if IsAbs(path) && i == 1 {
        PushedRoot(path);
      } else {
        PushedIsScan(path, i - 1);
        ScanNext(IsAbs(path), path, i);
        ScanProper(IsAbs(path), path[..i - 1]);
        PushedStep(ScanOf(IsAbs(path), path[..i - 1]), path[i - 1]);
      }
    }
  }

  /** The canonical form is the printed meaning. */
  lemma {:induction false} CanonIsRender(path: string)
    requires path != ""
    ensures Canon(path) == Render(MeaningOf(path), IsDir(path))
  {
    PushedIsScan(path, |path|);
    assert path[..|path|] == path;
    var s := ScanOf(IsAbs(path), path);
    ScanProper(IsAbs(path), path);
    if IsDir(path) {
      assert s.cur == "";
    } else {
      SlashEnters(s.m, s.cur);
    }
  }

  // ----- the printed meaning has that meaning -----

  lemma {:induction false} ScanComponent(abs: bool, s: string, c: string, t: string)
    requires '/' !in c && t == s + c
    ensures ScanOf(abs, t) == Scan(ScanOf(abs, s).m, ScanOf(abs, s).cur + c)
  {
    if c == "" {
      assert t == s;
      assert ScanOf(abs, s).cur + "" == ScanOf(abs, s).cur;
    } else {
      var d, last := c[..|c| - 1], c[|c| - 1];
      ScanComponent(abs, s, d, t[..|t| - 1]);
      AppendLast(ScanOf(abs, s).cur, c);
      assert ScanOf(abs, t) == ScanStep(ScanOf(abs, t[..|t| - 1]), last);
    }
  }

  lemma {:induction false} AppendLast(s: string, c: string)
    requires c != ""
    ensures s + c[..|c| - 1] + [c[|c| - 1]] == s + c
  {
  }

  lemma {:induction false} ScanWithSlash(abs: bool, s: string, c: string)
    requires '/' !in c && ScanOf(abs, s).cur == ""
    ensures ScanOf(abs, s + c) == Scan(ScanOf(abs, s).m, c)
    ensures ScanOf(abs, s + c + "/") == Scan(Enter(ScanOf(abs, s).m, c), "")
  {
    ScanComponent(abs, s, c, s + c);
    assert (s + c + "/")[..|s + c|] == s + c;
  }

  lemma {:induction false} UpsSplit(n: nat)
    requires n > 0
    ensures Ups(n) == Ups(n - 1) + ".." + "/" && Ups(n)[..|Ups(n)| - 1] == Ups(n - 1) + ".."
  {
    var u := Ups(n - 1);
    assert u + "../" == u + ".." + "/";
  }

  lemma {:induction false} ScanOneUp(u: string, n: nat)
    requires ScanOf(false, u) == Scan(Meaning(false, n, []), "")
    ensures ScanOf(false, u + "..") == Scan(Meaning(false, n, []), "..")
    ensures ScanOf(false, u + ".." + "/") == Scan(Meaning(false, n + 1, []), "")
  {
    ScanWithSlash(false, u, "..");
  }

  lemma {:induction false} ScanUps(n: nat)
    ensures ScanOf(false, Ups(n)) == Scan(Meaning(false, n, []), "")
  {
    if n > 0 {
      ScanUps(n - 1);
      UpsSplit(n);
      ScanOneUp(Ups(n - 1), n - 1);
    }
  }

  lemma {:induction false} ScanPrefix(m: Meaning)
    requires Proper(m)
    ensures ScanOf(m.abs, Prefix(m)) == Scan(m, "")
    decreases |m.names|
  {
    if m.names != [] {
      ScanPrefix(Up(m));
      ScanWithSlash(m.abs, Prefix(Up(m)), LastName(m));
      PrefixLast(m);
    } else {
      PrefixNoName(m);
      if m.abs {
        ScanWithSlash(true, "", "");
        assert "" + "" + "/" == "/";
      } else {
        ScanUps(m.ups);
      }
    }
  }

  lemma {:induction false} PrefixIsAbs(m: Meaning)
    requires Proper(m)
    ensures IsAbs(Prefix(m)) == m.abs
  {
    if !m.abs {
      DownStart(m.names);
      UpsStart(m.ups);
    }
  }

  lemma {:induction false} DownStart(names: seq<string>)
    requires forall i :: 0 <= i < |names| ==> IsName(names[i])
    ensures !IsAbs(Down(names))
  {
    if names != [] {
      DownStart(names[..|names| - 1]);
    }
  }

  lemma {:induction false} UpsStart(n: nat)
    ensures n > 0 ==> Ups(n) != "" && Ups(n)[0] == '.'
  {
    if n > 0 {
      UpsStart(n - 1);
    }
  }

  ghost predicate ReadsAs(p: string, m: Meaning) {
    p != "" && !IsDir(p) && Enter(ScanOf(m.abs, p).m, ScanOf(m.abs, p).cur) == m
  }

  lemma {:induction false} NameReadsAs(m: Meaning)
    requires Proper(m) && m.names != []
    ensures ReadsAs(Prefix(m)[..|Prefix(m)| - 1], m)
  {
    ScanPrefix(Up(m));
    ScanWithSlash(m.abs, Prefix(Up(m)), LastName(m));
    PrefixLast(m);
    assert Prefix(m)[..|Prefix(m)| - 1] == Prefix(Up(m)) + LastName(m);
  }

  lemma {:induction false} UpsReadAs(n: nat)
    requires n > 0
    ensures ReadsAs(Ups(n)[..|Ups(n)| - 1], Meaning(false, n, []))
  {
    UpsSplit(n);
    ScanUps(n - 1);
    ScanOneUp(Ups(n - 1), n - 1);
  }

  lemma {:induction false} WithoutSlash(m: Meaning)
    requires Proper(m) && Prefix(m) != "" && m != Start(true)
    ensures var p := Prefix(m)[..|Prefix(m)| - 1]; ReadsAs(p, m) && IsAbs(p) == m.abs
  {
    PrefixIsAbs(m);
    if m.names != [] {
      NameReadsAs(m);
    } else {
      PrefixNoName(m);
      UpsReadAs(m.ups);
    }
  }

  /** A meaning is read back from its printed form, except that the root cannot be printed without a
      slash. */
  lemma {:induction false} ReadBack(m: Meaning, dir: bool)
    requires Proper(m)
    ensures MeaningOf(Render(m, dir)) == m <==> !(m == Start(true) && !dir)
    ensures Render(m, dir) != "" ==> IsDir(Render(m, dir)) == dir
    ensures m == Start(true) && !dir ==> Render(m, dir) == ""
  {
    PrefixIsAbs(m);
    ScanPrefix(m);
    PrefixEnds(m);
    if !dir {
      if Prefix(m) == "" {
        ScanWithSlash(false, "", ".");
        assert "" + "." == ".";
      } else if m == Start(true) {
        PrefixNoName(m);
      } else {
        WithoutSlash(m);
      }
    }
  }

  lemma {:induction false} MeaningProper(path: string)
    ensures Proper(MeaningOf(path)) && MeaningOf(path).abs == IsAbs(path)
  {
    ScanProper(IsAbs(path), path);
    var s := ScanOf(IsAbs(path), path);
    EnterProper(s.m, s.cur);
  }

  /** Canonicalising keeps the meaning of every path, except an absolute one that reduces to the root
      and does not end with a slash, which becomes empty. */
  lemma {:induction false} CanonKeepsMeaning(path: string)
    ensures MeaningOf(Canon(path)) == MeaningOf(path)
       <==> !(IsAbs(path) && !IsDir(path) && MeaningOf(path) == Start(true))
  {
    if path == "" {
    } else {
      CanonIsRender(path);
      MeaningProper(path);
      ReadBack(MeaningOf(path), IsDir(path));
    }
  }

  /** Above the root is the root, which is lost. */
  lemma {:induction false} RootIsLost()
    ensures MeaningOf("/..") == Start(true) && Canon("/..") == "" && MeaningOf("") == Start(false)
  {
    var path := "/..";
    ScanWithSlash(true, "", "");
    assert "" + "" + "/" == "/";
    ScanComponent(true, "/", "..", path);
    CanonIsRender(path);
    PrefixNoName(Start(true));
  }

  /** The result is empty, a dot, or accepted by the checker; it is left alone in all cases. */
  lemma {:induction false} CanonIsCanonical(path: string)
    ensures Canon(Canon(path)) == Canon(path)
    ensures Canon(path) == "" || Canon(path) == "." || Accepted(Canon(path), DEFAULT_ACTION)
  {
    var r := Canon(path);
    if r != "" {
      CanonIsRender(path);
      MeaningProper(path);
      ReadBack(MeaningOf(path), IsDir(path));
      CanonIsRender(r);
    }
    AcceptedIffFixed(r);
  }

  /** Two paths with the same meaning and the same kind have the same canonical form. */
  lemma {:induction false} CanonIsUnique(p: string, q: string)
    requires p != "" && q != "" && MeaningOf(p) == MeaningOf(q) && IsDir(p) == IsDir(q)
    ensures Canon(p) == Canon(q)
  {
    CanonIsRender(p);
    CanonIsRender(q);
  }
}
