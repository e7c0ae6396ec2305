/** The stems named in a job name, found by a scan of its characters. */
module StaticStems {
  import opened Basics

  // ----- grammar of job names -----

  /** A plain character, a doubled brace, or a stem with an optional regular expression. */
  datatype Token = Lit(c: char) | OpenBrace | CloseBrace | Stem(key: string, re: Option<string>)

  /** Number of braces left open, or None when one is closed too many. */
  function DepthOf(re: string): Option<nat> {
    if re == "" then Some(0)
    else
      var d, c := DepthOf(re[..|re| - 1]), re[|re| - 1];
      if d.None? then None
      else if c == '{' then Some(d.value + 1)
      else if c != '}' then d
      else if d.value == 0 then None
      else Some(d.value - 1)
  }

  ghost predicate KeyOk(key: string) { '}' !in key && ':' !in key && (key == "" || key[0] != '{') }

  ghost predicate TokenOk(t: Token) {
    match t
    case Lit(c) => c != '{' && c != '}'
    case Stem(key, re) => KeyOk(key) && (re.Some? ==> DepthOf(re.value) == Some(0))
    case _ => true
  }

  ghost predicate TokensOk(ts: seq<Token>) { forall i :: 0 <= i < |ts| ==> TokenOk(ts[i]) }

  function PrintToken(t: Token): string {
    match t
    case Lit(c) => [c]
    case OpenBrace => "{{"
    case CloseBrace => "}}"
    case Stem(key, None) => "{" + key + "}"
    case Stem(key, Some(re)) => "{" + key + ":" + re + "}"
  }

  function Print(ts: seq<Token>): string {
    if ts == [] then "" else Print(ts[..|ts| - 1]) + PrintToken(ts[|ts| - 1])
  }

  function KeyOf(t: Token): seq<string> { if t.Stem? then [t.key] else [] }

  /** The keys of the stems, in order. */
  function Keys(ts: seq<Token>): seq<string> {
    if ts == [] then [] else Keys(ts[..|ts| - 1]) + KeyOf(ts[|ts| - 1])
  }

  // ----- the scan -----

  datatype Phase = Literal | SeenStop | SeenStart | InKey | InRe

  /** `broken` once a lone closing brace has been seen; `keys` are the keys completed so far. */
  datatype Scan = Scan(broken: bool, phase: Phase, key: string, depth: nat, keys: seq<string>)

  const START: Scan := Scan(false, Literal, "", 0, [])

  function Complete(s: Scan): Scan { s.(phase := Literal, key := "", keys := s.keys + [s.key]) }

  function StepKey(s: Scan, c: char): Scan {
    if c == '}' then Complete(s)
    else if c == ':' then s.(phase := InRe)
    else s.(phase := InKey, key := s.key + [c])
  }

  function Step(s: Scan, c: char): Scan {
    if s.broken then s
    else match s.phase
      case Literal => if c == '{' then s.(phase := SeenStart) else if c == '}' then s.(phase := SeenStop) else s
      case SeenStop => if c != '}' then s.(broken := true) else s.(phase := Literal)
      case SeenStart => if c == '{' then s.(phase := Literal) else StepKey(s, c)
      case InKey => StepKey(s, c)
      case InRe =>
        if c == '}' && s.depth == 0 then Complete(s)
        else if c == '{' then s.(depth := s.depth + 1)
        else if c == '}' then s.(depth := s.depth - 1)
        else s
  }

  function ScanFrom(s: Scan, name: string): Scan {
    if name == "" then s else Step(ScanFrom(s, name[..|name| - 1]), name[|name| - 1])
  }

  lemma {:induction false} ScanConcat(s: Scan, a: string, b: string)
    ensures ScanFrom(s, a + b) == ScanFrom(ScanFrom(s, a), b)
  {
    if b == "" {
      assert a + b == a;
    } else {
      ScanConcat(s, a, b[..|b| - 1]);
      assert (a + b)[..|a + b| - 1] == a + b[..|b| - 1];
    }
  }

  lemma {:induction false} ScanOne(s: Scan, c: char)
    ensures ScanFrom(s, [c]) == Step(s, c)
  {
    assert [c][..0] == "";
  }

  // ----- printed names are scanned back -----

  lemma {:induction false} ScanKey(s: Scan, key: string)
    requires !s.broken && s.phase == SeenStart && s.key == "" && s.depth == 0 && KeyOk(key)
    ensures ScanFrom(s, key) == if key == "" then s else s.(phase := InKey, key := key)
  {
    if key != "" {
      var k := key[..|key| - 1];
      ScanKey(s, k);
      assert k + [key[|key| - 1]] == key;
    }
  }

  lemma {:induction false} ScanRe(s: Scan, re: string)
    requires !s.broken && s.phase == InRe && s.depth == 0 && DepthOf(re).Some?
    ensures ScanFrom(s, re) == s.(depth := DepthOf(re).value)
  {
    if re != "" {
      ScanRe(s, re[..|re| - 1]);
    }
  }

  lemma {:induction false} ScanStem(s: Scan, key: string, re: Option<string>)
    requires !s.broken && s.phase == Literal && s.key == "" && s.depth == 0 && TokenOk(Stem(key, re))
    ensures ScanFrom(s, PrintToken(Stem(key, re))) == s.(keys := s.keys + [key])
  {
    var s1 := s.(phase := SeenStart);
    ScanOne(s, '{');
    ScanKey(s1, key);
    ScanConcat(s, "{", key);
    var s2 := ScanFrom(s, "{" + key);
    if re.None? {
      ScanConcat(s, "{" + key, "}");
      ScanOne(s2, '}');
    } else {
      ScanConcat(s, "{" + key, ":");
      ScanOne(s2, ':');
      var s3 := s.(phase := InRe, key := key);
      assert ScanFrom(s, "{" + key + ":") == s3;
      ScanRe(s3, re.value);
      ScanConcat(s, "{" + key + ":", re.value);
      ScanConcat(s, "{" + key + ":" + re.value, "}");
      ScanOne(s3, '}');
    }
  }

  lemma {:induction false} ScanToken(s: Scan, t: Token)
    requires !s.broken && s.phase == Literal && s.key == "" && s.depth == 0 && TokenOk(t)
    ensures ScanFrom(s, PrintToken(t)) == s.(keys := s.keys + KeyOf(t))
  {
    match t
    case Lit(c) => ScanOne(s, c);
    case OpenBrace => ScanTwo(s, '{', '{');
    case CloseBrace => ScanTwo(s, '}', '}');
    case Stem(key, re) => ScanStem(s, key, re);
  }

  lemma {:induction false} ScanTwo(s: Scan, a: char, b: char)
    ensures ScanFrom(s, [a, b]) == Step(Step(s, a), b)
  {
    assert [a, b][..1] == [a];
    ScanOne(s, a);
  }

  lemma {:induction false} ScanPrinted(ts: seq<Token>)
    requires TokensOk(ts)
    ensures ScanFrom(START, Print(ts)) == START.(keys := Keys(ts))
  {
    if ts != [] {
      var front, last := ts[..|ts| - 1], ts[|ts| - 1];
      ScanPrinted(front);
      ScanConcat(START, Print(front), PrintToken(last));
      ScanToken(START.(keys := Keys(front)), last);
    }
  }

  // ----- and only those -----

  /** What has been read of a token that is not complete. */
  ghost predicate Pending(s: Scan, rest: string, re: string) {
    match s.phase
    case Literal => rest == "" && s.key == "" && s.depth == 0
    case SeenStop => rest == "}" && s.key == "" && s.depth == 0
    case SeenStart => rest == "{" && s.key == "" && s.depth == 0
    case InKey => rest == "{" + s.key && s.key != "" && KeyOk(s.key) && s.depth == 0
    case InRe => rest == "{" + s.key + ":" + re && KeyOk(s.key) && DepthOf(re) == Some(s.depth)
  }

  lemma {:induction false} AppendToken(ts: seq<Token>, t: Token)
    requires TokensOk(ts) && TokenOk(t)
    ensures TokensOk(ts + [t]) && Print(ts + [t]) == Print(ts) + PrintToken(t) && Keys(ts + [t]) == Keys(ts) + KeyOf(t)
  {
    assert (ts + [t])[..|ts|] == ts;
  }

  /** The token completed by `c`, if any. */
  ghost function Finished(s: Scan, re: string, c: char): Option<Token> {
    match s.phase
    case Literal => if c != '{' && c != '}' then Some(Lit(c)) else None
    case SeenStop => if c == '}' then Some(CloseBrace) else None
    case SeenStart => if c == '{' then Some(OpenBrace) else if c == '}' then Some(Stem("", None)) else None
    case InKey => if c == '}' then Some(Stem(s.key, None)) else None
    case InRe => if c == '}' && s.depth == 0 then Some(Stem(s.key, Some(re))) else None
  }

  lemma {:induction false} FinishedStep(s: Scan, rest: string, re: string, c: char)
    requires !s.broken && Pending(s, rest, re) && Finished(s, re, c).Some?
    ensures var t := Finished(s, re, c).value;
      && TokenOk(t) && rest + [c] == PrintToken(t)
      && Step(s, c) == Scan(false, Literal, "", 0, s.keys + KeyOf(t))
  {
    if s.phase == SeenStart && c == '}' {
      assert PrintToken(Stem("", None)) == "{}";
    }
  }

  lemma {:induction false} PendingStep(s: Scan, rest: string, re: string, c: char) returns (re': string)
    requires !s.broken && Pending(s, rest, re) && Finished(s, re, c).None? && !Step(s, c).broken
    ensures Pending(Step(s, c), rest + [c], re') && Step(s, c).keys == s.keys
  {
    re' := "";
    if s.phase == SeenStart {
      if c == ':' { assert "{" + "" + ":" + "" == "{:"; } else { assert [c][0] == c; }
    } else if s.phase == InKey {
      if c == ':' {
        assert "{" + s.key + ":" + "" == "{" + s.key + ":";
      } else {
        assert "{" + (s.key + [c]) == "{" + s.key + [c];
      }
    } else if s.phase == InRe {
      re' := re + [c];
      assert re'[..|re|] == re;
      assert "{" + s.key + ":" + re' == rest + [c];
    }
  }

  ghost predicate ParsedAs(name: string, s: Scan, ts: seq<Token>, rest: string, re: string) {
    match s case Scan(_, _, _, _, keys) => TokensOk(ts) && name == Print(ts) + rest && Keys(ts) == keys && Pending(s, rest, re)
  }

  lemma {:induction false} ParsedStep(name: string, s: Scan, ts0: seq<Token>, rest0: string, re0: string, c: char)
    returns (ts: seq<Token>, rest: string, re: string)
    requires !s.broken && !Step(s, c).broken && ParsedAs(name, s, ts0, rest0, re0)
    ensures ParsedAs(name + [c], Step(s, c), ts, rest, re)
  {
    var done := Finished(s, re0, c);
    assert name + [c] == Print(ts0) + (rest0 + [c]);
    if done.Some? {
      FinishedStep(s, rest0, re0, c);
      AppendToken(ts0, done.value);
      ts, rest, re := ts0 + [done.value], "", "";
      assert Print(ts) + "" == Print(ts);
    } else {
      ts, rest := ts0, rest0 + [c];
      re := PendingStep(s, rest0, re0, c);
    }
  }

  /** Whatever is scanned is a sequence of tokens and the beginning of one. */
  lemma {:induction false} Parsed(name: string, s: Scan) returns (ts: seq<Token>, rest: string, re: string)
    requires s == ScanFrom(START, name) && !s.broken
    ensures ParsedAs(name, s, ts, rest, re)
    decreases |name|
  {
    if name == "" {
      ts, rest, re := [], "", "";
      assert Print(ts) + rest == "";
    } else {
      var front, c := name[..|name| - 1], name[|name| - 1];
      assert front + [c] == name;
      var before := ScanFrom(START, front);
      ts, rest, re := Parsed(front, before);
      ts, rest, re := ParsedStep(front, before, ts, rest, re, c);
    }
  }

  ghost predicate WellFormed(name: string) {
    exists ts :: TokensOk(ts) && name == Print(ts)
  }

  /** The scan ends between two tokens exactly on the printed forms. */
  lemma {:induction false} ScanAccepts(name: string)
    ensures var s := ScanFrom(START, name); !s.broken && s.phase == Literal <==> WellFormed(name)
  {
    var s := ScanFrom(START, name);
    if !s.broken && s.phase == Literal {
      var ts, rest, re := Parsed(name, ScanFrom(START, name));
      assert Print(ts) + "" == Print(ts);
    }
    if WellFormed(name) {
      var ts :| TokensOk(ts) && name == Print(ts);
      ScanPrinted(ts);
    }
  }

  /** A closing brace where a token should begin, not followed by another one. */
  ghost predicate ClosesAfter(name: string, ts: seq<Token>, rest: string) {
    TokensOk(ts) && name == Print(ts) + "}" + rest && (rest == "" || rest[0] != '}')
  }

  ghost predicate LoneClose(name: string) { exists ts, rest :: ClosesAfter(name, ts, rest) }

  lemma {:induction false} BrokenStays(s: Scan, rest: string)
    requires s.broken
    ensures ScanFrom(s, rest) == s
  {
    if rest != "" {
      BrokenStays(s, rest[..|rest| - 1]);
    }
  }

  lemma {:induction false} ScanLoneClose(name: string, ts: seq<Token>, rest: string)
    requires ClosesAfter(name, ts, rest)
    ensures var s := ScanFrom(START, name); s.phase == SeenStop && s.keys == Keys(ts)
  {
    ScanPrinted(ts);
    var s := START.(keys := Keys(ts));
    ScanConcat(START, Print(ts), "}");
    ScanOne(s, '}');
    ScanConcat(START, Print(ts) + "}", rest);
    if rest != "" {
      var stop := s.(phase := SeenStop);
      assert rest == [rest[0]] + rest[1..];
      ScanConcat(stop, [rest[0]], rest[1..]);
      ScanOne(stop, rest[0]);
      BrokenStays(Step(stop, rest[0]), rest[1..]);
    }
  }

  lemma {:induction false} FindLoneClose(name: string) returns (ts: seq<Token>, rest: string)
    requires var s := ScanFrom(START, name); s.broken || s.phase == SeenStop
    ensures ClosesAfter(name, ts, rest) && (rest == "" <==> !ScanFrom(START, name).broken)
  {
    var re;
    if !ScanFrom(START, name).broken {
      ts, rest, re := Parsed(name, ScanFrom(START, name));
      rest := "";
      assert name == Print(ts) + "}" + "";
    } else {
      var front, c := name[..|name| - 1], name[|name| - 1];
      assert name == front + [c];
      ts, rest := FindLoneClose(front);
      assert Print(ts) + "}" + rest + [c] == Print(ts) + "}" + (rest + [c]);
      rest := rest + [c];
    }
  }

  /** The scan stops at a closing brace exactly when there is a lone one. */
  lemma {:induction false} ScanRejects(name: string)
    ensures var s := ScanFrom(START, name);
      (s.phase == SeenStop <==> LoneClose(name)) && (s.broken ==> s.phase == SeenStop)
  {
    var s := ScanFrom(START, name);
    if s.broken || s.phase == SeenStop {
      var ts, rest := FindLoneClose(name);
      ScanLoneClose(name, ts, rest);
    }
    if LoneClose(name) {
      var ts, rest :| ClosesAfter(name, ts, rest);
      ScanLoneClose(name, ts, rest);
    }
  }

  /** A stem that is begun and not ended. */
  ghost predicate OpensAfter(name: string, ts: seq<Token>, key: string, re: Option<string>) {
    && TokensOk(ts) && KeyOk(key) && (re.Some? ==> DepthOf(re.value).Some?)
    && name == Print(ts) + (if re.None? then "{" + key else "{" + key + ":" + re.value)
  }

  ghost predicate LeftOpen(name: string) { exists ts, key, re :: OpensAfter(name, ts, key, re) }

  lemma {:induction false} ScanOpen(name: string, ts: seq<Token>, key: string, re: Option<string>)
    requires OpensAfter(name, ts, key, re)
    ensures var s := ScanFrom(START, name); s.phase != Literal && s.phase != SeenStop && s.keys == Keys(ts)
  {
    ScanPrinted(ts);
    var s := START.(keys := Keys(ts));
    ScanOne(s, '{');
    ScanKey(s.(phase := SeenStart), key);
    ScanConcat(s, "{", key);
    var s1 := ScanFrom(s, "{" + key);
    if re.None? {
      ScanConcat(START, Print(ts), "{" + key);
    } else {
      ScanConcat(s, "{" + key, ":");
      ScanOne(s1, ':');
      ScanRe(s1.(phase := InRe), re.value);
      ScanConcat(s, "{" + key + ":", re.value);
      ScanConcat(START, Print(ts), "{" + key + ":" + re.value);
    }
  }

  /** A name is well formed, or holds a lone closing brace, or ends inside a stem, and only one of these. */
  lemma {:induction false} ThreeWays(name: string)
    ensures var phase := ScanFrom(START, name).phase;
      && (WellFormed(name) <==> phase == Literal)
      && (LoneClose(name) <==> phase == SeenStop)
      && (LeftOpen(name) <==> phase != Literal && phase != SeenStop)
  {
    ScanAccepts(name);
    ScanRejects(name);
    var s := ScanFrom(START, name);
    if s.phase != Literal && s.phase != SeenStop {
      var ts, rest, re := Parsed(name, ScanFrom(START, name));
      assert "{" + "" == "{";
      assert OpensAfter(name, ts, s.key, if s.phase == InRe then Some(re) else None);
    }
    if LeftOpen(name) {
      var ts, key, re :| OpensAfter(name, ts, key, re);
      ScanOpen(name, ts, key, re);
    }
  }

  // ----- the stems -----

  function DropLeft(s: string, isSpace: char -> bool): string {
    if s != "" && isSpace(s[0]) then DropLeft(s[1..], isSpace) else s
  }

  function DropRight(s: string, isSpace: char -> bool): string {
    if s != "" && isSpace(s[|s| - 1]) then DropRight(s[..|s| - 1], isSpace) else s
  }

  function Strip(s: string, isSpace: char -> bool): string { DropRight(DropLeft(s, isSpace), isSpace) }

  /** Whether a stripped key names a static stem. */
  predicate IsStatic(key: string) { key != "" && key[|key| - 1] != '*' }

  /** The static stems among the keys. */
  function StemsOf(keys: seq<string>, isSpace: char -> bool): set<string> {
    if keys == [] then {}
    else
      var key := Strip(keys[|keys| - 1], isSpace);
      StemsOf(keys[..|keys| - 1], isSpace) + if IsStatic(key) then {key} else {}
  }

  /** The first static stem that is not an identifier. */
  function FirstBad(keys: seq<string>, isSpace: char -> bool, isIdentifier: string -> bool): Option<string> {
    if keys == [] then None
    else
      var before := FirstBad(keys[..|keys| - 1], isSpace, isIdentifier);
      var key := Strip(keys[|keys| - 1], isSpace);
      if before.Some? || !IsStatic(key) || isIdentifier(key) then before else Some(key)
  }

  lemma {:induction false} StemsAreStatic(keys: seq<string>, isSpace: char -> bool, s: string)
    ensures s in StemsOf(keys, isSpace) <==>
      IsStatic(s) && exists i :: 0 <= i < |keys| && s == Strip(keys[i], isSpace)
  {
    if keys != [] {
      StemsAreStatic(keys[..|keys| - 1], isSpace, s);
    }
  }

  lemma {:induction false} FirstBadIsBad(keys: seq<string>, isSpace: char -> bool, isIdentifier: string -> bool)
    ensures var r := FirstBad(keys, isSpace, isIdentifier);
      && (r.Some? ==> r.value in StemsOf(keys, isSpace) && !isIdentifier(r.value))
      && (r.None? ==> forall s :: s in StemsOf(keys, isSpace) ==> isIdentifier(s))
  {
    if keys != [] {
      FirstBadIsBad(keys[..|keys| - 1], isSpace, isIdentifier);
    }
  }

  lemma {:induction false} AppendKey(keys: seq<string>, key: string, isSpace: char -> bool, isIdentifier: string -> bool)
    ensures var k := Strip(key, isSpace);
      && StemsOf(keys + [key], isSpace) == StemsOf(keys, isSpace) + (if IsStatic(k) then {k} else {})
      && FirstBad(keys + [key], isSpace, isIdentifier) ==
           var before := FirstBad(keys, isSpace, isIdentifier);
           if before.Some? || !IsStatic(k) || isIdentifier(k) then before else Some(k)
  {
    assert (keys + [key])[..|keys|] == keys;
  }

  datatype Outcome = Stems(stems: set<string>) | BadKey(key: string) | SpuriousClose | SpuriousOpen

  /** A key that is not an identifier is reported before anything that comes after it. */
  function Verdict(keys: seq<string>, isSpace: char -> bool, isIdentifier: string -> bool, otherwise: Outcome): Outcome {
    var bad := FirstBad(keys, isSpace, isIdentifier);
    if bad.Some? then BadKey(bad.value) else otherwise
  }

  /** Outcome of the scan, told by the grammar alone. */
  ghost predicate IsOutcome(name: string, isSpace: char -> bool, isIdentifier: string -> bool, r: Outcome) {
    && (forall ts :: TokensOk(ts) && name == Print(ts) ==>
          r == Verdict(Keys(ts), isSpace, isIdentifier, Stems(StemsOf(Keys(ts), isSpace))))
    && (forall ts, rest :: ClosesAfter(name, ts, rest) ==>
          r == Verdict(Keys(ts), isSpace, isIdentifier, SpuriousClose))
    && (forall ts, key, re :: OpensAfter(name, ts, key, re) ==>
          r == Verdict(Keys(ts), isSpace, isIdentifier, SpuriousOpen))
    && (WellFormed(name) || LoneClose(name) || LeftOpen(name))
  }

  /** What the state reached by the scan tells. */
  function ScanVerdict(s: Scan, isSpace: char -> bool, isIdentifier: string -> bool): Outcome {
    Verdict(s.keys, isSpace, isIdentifier,
      if s.phase == Literal then Stems(StemsOf(s.keys, isSpace))
      else if s.phase == SeenStop then SpuriousClose else SpuriousOpen)
  }

  lemma {:induction false} ScanGivesOutcome(name: string, isSpace: char -> bool, isIdentifier: string -> bool, r: Outcome)
    requires r == ScanVerdict(ScanFrom(START, name), isSpace, isIdentifier)
    ensures IsOutcome(name, isSpace, isIdentifier, r)
  {
    forall ts | TokensOk(ts) && name == Print(ts)
      ensures r == Verdict(Keys(ts), isSpace, isIdentifier, Stems(StemsOf(Keys(ts), isSpace)))
    {
      ScanPrinted(ts);
    }
    forall ts, rest | ClosesAfter(name, ts, rest)
      ensures r == Verdict(Keys(ts), isSpace, isIdentifier, SpuriousClose)
    {
      ScanLoneClose(name, ts, rest);
    }
    forall ts, key, re | OpensAfter(name, ts, key, re)
      ensures r == Verdict(Keys(ts), isSpace, isIdentifier, SpuriousOpen)
    {
      ScanOpen(name, ts, key, re);
    }
    ThreeWays(name);
  }

  /** The state after the first `i` characters. */
  ghost predicate Reached(name: string, i: nat, scan: Scan)
    requires i <= |name|
  {
    match scan case Scan(_, _, _, _, _) => scan == ScanFrom(START, name[..i])
  }

  lemma {:induction false} ReachNext(name: string, i: nat, scan: Scan)
    requires i < |name| && Reached(name, i, scan)
    ensures Reached(name, i + 1, Step(scan, name[i]))
  {
    assert name[..i + 1][..i] == name[..i];
  }

  lemma {:induction false} ReachEnd(name: string, scan: Scan, isSpace: char -> bool, isIdentifier: string -> bool)
    requires Reached(name, |name|, scan)
    ensures ScanVerdict(ScanFrom(START, name), isSpace, isIdentifier) == ScanVerdict(scan, isSpace, isIdentifier)
  {
    assert name[..|name|] == name;
  }

  lemma {:induction false} BreakStops(name: string, i: nat, scan: Scan)
    requires i <= |name| && Reached(name, i, scan) && scan.broken
    ensures ScanFrom(START, name) == scan
  {
    assert name == name[..i] + name[i..];
    ScanConcat(START, name[..i], name[i..]);
    BrokenStays(scan, name[i..]);
  }

  lemma {:induction false} BadKeyStays(s: Scan, rest: string, isSpace: char -> bool, isIdentifier: string -> bool)
    requires FirstBad(s.keys, isSpace, isIdentifier).Some?
    ensures FirstBad(ScanFrom(s, rest).keys, isSpace, isIdentifier) == FirstBad(s.keys, isSpace, isIdentifier)
  {
    if rest != "" {
      var before := ScanFrom(s, rest[..|rest| - 1]);
      BadKeyStays(s, rest[..|rest| - 1], isSpace, isIdentifier);
      AppendKey(before.keys, before.key, isSpace, isIdentifier);
    }
  }

  lemma {:induction false} BadKeyStops(name: string, i: nat, scan: Scan, isSpace: char -> bool, isIdentifier: string -> bool)
    requires i <= |name| && Reached(name, i, scan) && FirstBad(scan.keys, isSpace, isIdentifier).Some?
    ensures ScanVerdict(ScanFrom(START, name), isSpace, isIdentifier) == BadKey(FirstBad(scan.keys, isSpace, isIdentifier).value)
  {
    assert name == name[..i] + name[i..];
    ScanConcat(START, name[..i], name[i..]);
    BadKeyStays(scan, name[i..], isSpace, isIdentifier);
  }

  /** The stems a job name mentions outside of their regular expressions. */
  method FindStaticStems(name: string, isSpace: char -> bool, isIdentifier: string -> bool) returns (r: Outcome)
    ensures IsOutcome(name, isSpace, isIdentifier, r)
  {
    r := ScanStems(name, isSpace, isIdentifier);
    ScanGivesOutcome(name, isSpace, isIdentifier, r);
  }

  /** Adds a key to the stems if it names one; None when it should be an identifier and is not. */
  method TakeKey(stems: set<string>, key: string, ghost keys: seq<string>, isSpace: char -> bool, isIdentifier: string -> bool)
    returns (r: Option<set<string>>)
    requires stems == StemsOf(keys, isSpace) && FirstBad(keys, isSpace, isIdentifier).None?
    ensures FirstBad(keys + [key], isSpace, isIdentifier) == if r.Some? then None else Some(Strip(key, isSpace))
    ensures r.Some? ==> r.value == StemsOf(keys + [key], isSpace)
  {
    AppendKey(keys, key, isSpace, isIdentifier);
    var stem := Strip(key, isSpace);
    if !IsStatic(stem) { return Some(stems); }
    if !isIdentifier(stem) { return None; }
    return Some(stems + {stem});
  }

  method ScanStems(name: string, isSpace: char -> bool, isIdentifier: string -> bool) returns (r: Outcome)
    ensures r == ScanVerdict(ScanFrom(START, name), isSpace, isIdentifier)
  {
    var stems: set<string> := {};
    var phase, key, depth: nat := Literal, "", 0;
    ghost var scan := START;
    assert name[..0] == "";
    var i := 0;
    while i < |name|
      invariant i <= |name| && Reached(name, i, scan) && !scan.broken
      invariant phase == scan.phase && key == scan.key && depth == scan.depth
      invariant stems == StemsOf(scan.keys, isSpace) && FirstBad(scan.keys, isSpace, isIdentifier).None?
    {
      var c := name[i];
      ReachNext(name, i, scan);
      ghost var next := Step(scan, c);
      i := i + 1;
      if phase == Literal {
        if c == '{' { phase := SeenStart; } else if c == '}' { phase := SeenStop; }
      } else if phase == SeenStop {
        if c != '}' {
          BreakStops(name, i, next);
          return SpuriousClose;
        }
        phase := Literal;
      } else if phase == SeenStart && c == '{' {
        phase := Literal;
      } else if phase != InRe && c != '}' {
        if c == ':' { phase := InRe; } else { phase, key := InKey, key + [c]; }
      } else if phase == InRe && !(c == '}' && depth == 0) {
        if c == '{' { depth := depth + 1; } else if c == '}' { depth := depth - 1; }
      } else {
        var more := TakeKey(stems, key, scan.keys, isSpace, isIdentifier);
        if more.None? {
          BadKeyStops(name, i, next, isSpace, isIdentifier);
          return BadKey(Strip(key, isSpace));
        }
        stems, phase, key := more.value, Literal, "";
      }
      scan := next;
    }
    ReachEnd(name, scan, isSpace, isIdentifier);
    r := if phase == Literal then Stems(stems) else if phase == SeenStop then SpuriousClose else SpuriousOpen;
  }
}
