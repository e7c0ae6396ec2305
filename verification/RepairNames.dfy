/** The names by which a repair recognises the files of a cache. */
module RepairNames {
  import opened Slashes
  import opened RepairDirs
  import opened RepairWalk

  // ----- names -----

  function OwnName(d: string): (s: string)
    requires d != "" && IsDir(d)
    ensures d == Parent(d) + s + "/" && '/' !in s
  {
    var s := d[..|d| - 1];
    assert d == s[..AfterSlash(s)] + s[AfterSlash(s)..] + "/";
    Last(s)
  }

  predicate IsDigit(c: char) { '0' <= c <= '9' }

  predicate IsHex16(s: string) { |s| == 16 && forall i :: 0 <= i < 16 ==> IsDigit(s[i]) || 'a' <= s[i] <= 'f' }

  /** Number of leading digits. */
  function Digits(s: string): (n: nat)
    ensures n <= |s| && forall i :: 0 <= i < n ==> IsDigit(s[i])
  {
    if s == "" || !IsDigit(s[0]) then 0 else 1 + Digits(s[1..])
  }

  /** Pairs of numbers such as 12-34, each followed by a plus sign. */
  predicate IsRanges(s: string)
    decreases |s|
  {
    s == "" ||
    var a := Digits(s);
    0 < a < |s| && s[a] == '-' &&
    var rest := s[a + 1..];
    var b := Digits(rest);
    0 < b < |rest| && rest[b] == '+' && IsRanges(rest[b + 1..])
  }

  predicate IsRuleName(s: string) {
    |s| >= 21 && IsRanges(s[..|s| - 21]) && s[|s| - 21..|s| - 16] == "rule-" && IsHex16(s[|s| - 16..])
  }

  predicate IsKeyName(s: string) {
    |s| >= 20 && s[..4] == "key-" && IsHex16(s[4..20]) && (s[20..] == "-first" || s[20..] == "-last")
  }

  /** The directory of a job. */
  predicate IsRuleDir(d: string) { d != "" && IsDir(d) && IsRuleName(OwnName(d)) && Parent(d) != "" }

  predicate IsEntryDir(d: string) { d != "" && IsDir(d) && IsKeyName(OwnName(d)) && IsRuleDir(Parent(d)) }

  const TAGS: set<string> := {"sz_data", "info", "lru"}

  predicate IsEntryFile(f: string) { Last(f) in TAGS && IsEntryDir(Up(f)) }

  predicate IsHintFile(f: string) {
    |Last(f)| == 26 && Last(f)[..10] == "deps_hint-" && IsHex16(Last(f)[10..]) && IsRuleDir(Up(f))
  }

  /** The files of the administrative directory that are never removed. */
  predicate IsAdminFile(f: string) {
    HEAD_S <= f && f[|HEAD_S|..] in {"config.py", "lru", "size", "version"}
  }

  const CACHE_NAMES: Naming := Naming(IsAdminFile, IsEntryDir, TAGS, IsHintFile, IsKeyName)

  function EntryPath(base: string, rule: string, key: string): string { base + rule + "/" + key + "/" }

  /** As the regular expression tells. */
  ghost predicate EntryForm(f: string, x: string, ranges: string, rule: string, key: string, kind: string, tag: string) {
    && f == EntryPath(x + "/", ranges + "rule-" + rule, "key-" + key + kind) + tag
    && IsRanges(ranges) && IsHex16(rule) && IsHex16(key) && (kind == "-first" || kind == "-last") && tag in TAGS
  }

  lemma {:induction false} TagsHaveNoSlash()
    ensures forall t :: t in TAGS ==> '/' !in t && t != ""
  {
  }

  lemma {:induction false} OwnNameOf(p: string, name: string)
    requires IsDir(p) && '/' !in name && name != ""
    ensures IsDir(p + name + "/") && Parent(p + name + "/") == p && OwnName(p + name + "/") == name
  {
    LastName(p, name);
    var d := p + name + "/";
    assert d[..|d| - 1] == p + name;
    UpOf(p, name);
  }

  lemma {:induction false} RangesHaveNoSlash(s: string)
    requires IsRanges(s)
    ensures '/' !in s
    decreases |s|
  {
    if s != "" {
      var a := Digits(s);
      var rest := s[a + 1..];
      var b := Digits(rest);
      RangesHaveNoSlash(rest[b + 1..]);
      assert rest == rest[..b] + "+" + rest[b + 1..];
      assert s == s[..a] + "-" + rest;
    }
  }

  lemma {:induction false} RuleNameOf(ranges: string, rule: string)
    requires IsRanges(ranges) && IsHex16(rule)
    ensures var s := ranges + "rule-" + rule; IsRuleName(s) && '/' !in s
  {
    RangesHaveNoSlash(ranges);
    var s := ranges + "rule-" + rule;
    assert s[..|s| - 21] == ranges && s[|s| - 21..|s| - 16] == "rule-" && s[|s| - 16..] == rule;
  }

  lemma {:induction false} KeyNameOf(key: string, kind: string)
    requires IsHex16(key) && (kind == "-first" || kind == "-last")
    ensures var s := "key-" + key + kind; IsKeyName(s) && '/' !in s
  {
    var s := "key-" + key + kind;
    assert s[..4] == "key-" && s[4..20] == key && s[20..] == kind;
  }

  lemma {:induction false} RuleNameParts(s: string) returns (ranges: string, rule: string)
    requires IsRuleName(s)
    ensures s == ranges + "rule-" + rule && IsRanges(ranges) && IsHex16(rule)
  {
    ranges, rule := s[..|s| - 21], s[|s| - 16..];
    assert s == s[..|s| - 21] + s[|s| - 21..|s| - 16] + s[|s| - 16..];
  }

  lemma {:induction false} KeyNameParts(s: string) returns (key: string, kind: string)
    requires IsKeyName(s)
    ensures s == "key-" + key + kind && IsHex16(key) && (kind == "-first" || kind == "-last")
  {
    key, kind := s[4..20], s[20..];
    assert s == s[..4] + s[4..20] + s[20..];
  }

  lemma {:induction false} EntryDirParts(d: string) returns (x: string, s: string, k: string)
    requires IsEntryDir(d)
    ensures d == EntryPath(x + "/", s, k) && IsRuleName(s) && IsKeyName(k)
  {
    var j := Parent(d);
    var base := Parent(j);
    x, s, k := base[..|base| - 1], OwnName(j), OwnName(d);
    assert base == x + "/";
  }

  lemma {:induction false} EntryFileHasForm(f: string)
    requires IsEntryFile(f)
    ensures exists x, ranges, rule, key, kind, tag :: EntryForm(f, x, ranges, rule, key, kind, tag)
  {
    assert f == Up(f) + Last(f);
    var x, s, k := EntryDirParts(Up(f));
    var ranges, rule := RuleNameParts(s);
    var key, kind := KeyNameParts(k);
    assert EntryForm(f, x, ranges, rule, key, kind, Last(f));
  }

  lemma {:induction false} EntryPathIsDir(base: string, rule: string, key: string)
    requires IsDir(base) && base != "" && IsRuleName(rule) && '/' !in rule && IsKeyName(key) && '/' !in key
    ensures IsEntryDir(EntryPath(base, rule, key)) && Parent(EntryPath(base, rule, key)) == base + rule + "/"
  {
    OwnNameOf(base, rule);
    OwnNameOf(base + rule + "/", key);
  }

  lemma {:induction false} FormIsEntryFile(f: string, x: string, ranges: string, rule: string, key: string, kind: string, tag: string)
    requires EntryForm(f, x, ranges, rule, key, kind, tag)
    ensures IsEntryFile(f)
  {
    TagsHaveNoSlash();
    RuleNameOf(ranges, rule);
    KeyNameOf(key, kind);
    EntryPathIsDir(x + "/", ranges + "rule-" + rule, "key-" + key + kind);
    UpOf(EntryPath(x + "/", ranges + "rule-" + rule, "key-" + key + kind), tag);
  }

  /** The files of entries are exactly those of the form of the regular expression. */
  lemma {:induction false} EntryFileIff(f: string)
    ensures IsEntryFile(f) <==> exists x, ranges, rule, key, kind, tag :: EntryForm(f, x, ranges, rule, key, kind, tag)
  {
    if IsEntryFile(f) {
      EntryFileHasForm(f);
    }
    if x, ranges, rule, key, kind, tag :| EntryForm(f, x, ranges, rule, key, kind, tag) {
      FormIsEntryFile(f, x, ranges, rule, key, kind, tag);
    }
  }

  // ----- these names are as the walk expects -----

  lemma {:induction false} KeyHasNoSlash(k: string)
    requires IsKeyName(k)
    ensures '/' !in k
  {
    var key, kind := KeyNameParts(k);
    KeyNameOf(key, kind);
  }

  lemma {:induction false} AdminUp(f: string)
    requires IsAdminFile(f)
    ensures Up(f) == HEAD_S && !IsEntryFile(f)
  {
    var name := f[|HEAD_S|..];
    assert f == HEAD_S + name;
    UpOf(HEAD_S, name);
    OwnNameOf("", "LMAKE");
    assert "" + "LMAKE" + "/" == HEAD_S;
  }

  lemma {:induction false} CacheNamesValid()
    ensures CACHE_NAMES.Valid()
  {
    TagsHaveNoSlash();
    forall f | IsAdminFile(f)
      ensures !CACHE_NAMES.EntryFile(f) && f != "" && Up(f) in StartKeep()
    {
      AdminUp(f);
    }
    forall k | IsKeyName(k)
      ensures k != "" && '/' !in k
    {
      KeyHasNoSlash(k);
    }
  }

  // ----- reservations -----

  /** The file of a reservation. */
  function ReservedPath(hex: nat -> string, key: nat): string { RESERVED_S + (hex(key) + ".sz_data") }

  /** A reservation has the name of nothing that is kept: a repair removes it. */
  lemma {:induction false} ReservationsGo(hex: nat -> string, key: nat, n: Node)
    requires '/' !in hex(key) && !n.Folder?
    ensures CACHE_NAMES.FateOf(ReservedPath(hex, key), n) == Goes
  {
    var name := hex(key) + ".sz_data";
    StartIsClosed();
    UpOf(RESERVED_S, name);
    OwnNameOf(HEAD_S, "reserved");
    assert HEAD_S + "reserved" + "/" == RESERVED_S;
    var f := ReservedPath(hex, key);
    if IsAdminFile(f) {
      AdminUp(f);
    }
    OwnNameOf("", "LMAKE");
    assert "" + "LMAKE" + "/" == HEAD_S;
  }
}
