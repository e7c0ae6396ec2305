/** File names embedded in text, and their localisation when the text is shown. */
module FileMarker {
  import opened Basics
  import opened CanonPath
  import opened LocalPath

  const MARKER: char := '\0'

  datatype Display = Plain | Printable | Shell | Py

  const TWO_16: nat := 0x1_0000

  function Code(d: Display): nat {
    match d case Plain => 0 case Printable => 1 case Shell => 2 case Py => 3
  }

  function DisplayOf(c: char): Option<Display> {
    if c == 0 as char then Some(Plain)
    else if c == 1 as char then Some(Printable)
    else if c == 2 as char then Some(Shell)
    else if c == 3 as char then Some(Py)
    else None
  }

  /** Two bytes, least significant first; longer lengths lose their upper part. */
  function EncodeLen(n: nat): (s: string)
    ensures |s| == 2
  {
    [(n % 256) as char, (n / 256 % 256) as char]
  }

  function DecodeLen(a: char, b: char): nat { a as int + 256 * (b as int) }

  /** Marker, display, length and name; the display and the length may look like markers. */
  function MkFile(f: string, d: Display): string {
    [MARKER, Code(d) as char] + EncodeLen(|f|) + f
  }

  datatype Exists = Yes | No | Maybe

  /** The name preceded by a remark when its existence is not the expected one. */
  function MkFileExists(f: string, d: Display, expected: Exists, actual: bool): string {
    (if expected == Yes && !actual then "(not existing) "
     else if expected == No && actual then "(existing) "
     else "") + MkFile(f, d)
  }

  // ----- reference: text and names -----

  datatype Segment = Text(text: string) | File(name: string, display: Display)

  ghost predicate Proper(segs: seq<Segment>) {
    forall i :: 0 <= i < |segs| ==>
      match segs[i] case Text(t) => MARKER !in t case File(f, _) => |f| < TWO_16
  }

  function Encoded(segs: seq<Segment>): string {
    if segs == [] then ""
    else (match segs[0] case Text(t) => t case File(f, d) => MkFile(f, d)) + Encoded(segs[1..])
  }

  /** How a quoting style shows a name. */
  type Shower = (Display, string) -> string

  function Relative(f: string, dir: string): string {
    if f == "" then "" else if IsAbs(f) == IsAbs(dir) then Lcl(f, dir) else f
  }

  function Rendered(show: Shower, dir: string, segs: seq<Segment>): string {
    if segs == [] then ""
    else (match segs[0] case Text(t) => t case File(f, d) => show(d, Relative(f, dir))) + Rendered(show, dir, segs[1..])
  }

  // ----- decoding -----

  /** The first marker at or after `pos`, or the end of the text. */
  function NextMark(txt: string, pos: nat): (r: nat)
    requires pos <= |txt|
    ensures pos <= r <= |txt| && (r < |txt| ==> txt[r] == MARKER)
    ensures forall i :: pos <= i < r ==> txt[i] != MARKER
    decreases |txt| - pos
  {
    if pos == |txt| || txt[pos] == MARKER then pos else NextMark(txt, pos + 1)
  }

  /** A name found in the text: how to display it and where it lies. */
  datatype Mark = Mark(display: Display, start: nat, end: nat)

  /** The name whose marker is at `pos`; None when it is malformed. */
  function MarkAt(txt: string, pos: nat): (m: Option<Mark>)
    requires pos < |txt|
    ensures m.Some? ==> m.value.start == pos + 4 <= m.value.end <= |txt|
  {
    if pos + 4 > |txt| then None
    else
      var end := pos + 4 + DecodeLen(txt[pos + 2], txt[pos + 3]);
      if end > |txt| || DisplayOf(txt[pos + 1]).None? then None
      else Some(Mark(DisplayOf(txt[pos + 1]).value, pos + 4, end))
  }

  function Shown(show: Shower, dir: string, txt: string, m: Mark): string
    requires m.start <= m.end <= |txt|
  {
    show(m.display, Relative(txt[m.start..m.end], dir))
  }

  /** A text that starts with a marker; None when the program stops on a malformed name. */
  function Decoded(show: Shower, dir: string, s: string): Option<string>
    decreases |s|, 0
  {
    if s == "" then Some("")
    else
      match MarkAt(s, 0)
      case None => None
      case Some(m) => Prepend(Shown(show, dir, s, m), Localized(show, dir, s[m.end..]))
  }

  function Localized(show: Shower, dir: string, txt: string): Option<string>
    decreases |txt|, 1
  {
    var first := NextMark(txt, 0);
    Prepend(txt[..first], Decoded(show, dir, txt[first..]))
  }

  lemma {:induction false} MarkShift(a: string, b: string, pos: nat)
    requires pos <= |b|
    ensures NextMark(a + b, |a| + pos) == |a| + NextMark(b, pos)
    decreases |b| - pos
  {
    if pos < |b| && b[pos] != MARKER {
      MarkShift(a, b, pos + 1);
    }
  }

  lemma {:induction false} MarkAtShift(a: string, b: string)
    requires b != ""
    ensures MarkAt(a + b, |a|)
         == match MarkAt(b, 0)
            case None => None
            case Some(m) => Some(Mark(m.display, |a| + m.start, |a| + m.end))
  {
    var t, p := a + b, |a|;
    if 4 <= |b| {
      assert t[p + 1] == b[1] && t[p + 2] == b[2] && t[p + 3] == b[3];
    }
  }

  lemma {:induction false} SliceShift(a: string, b: string, i: nat, j: nat)
    requires i <= j <= |b|
    ensures (a + b)[|a| + i..|a| + j] == b[i..j] && (a + b)[|a| + j..] == b[j..]
  {
  }

  /** What follows a name, up to the next one. */
  lemma {:induction false} TextStep(show: Shower, dir: string, txt: string, pos: nat)
    requires pos <= |txt|
    ensures var next := NextMark(txt, pos);
      Localized(show, dir, txt[pos..]) == Prepend(txt[pos..next], Decoded(show, dir, txt[next..]))
  {
    var a, b := txt[..pos], txt[pos..];
    assert a + b == txt;
    MarkShift(a, b, 0);
    SliceShift(a, b, 0, NextMark(b, 0));
  }

  lemma {:induction false} SameMark(txt: string, pos: nat, m: Mark)
    requires pos < |txt| && MarkAt(txt, pos) == Some(m)
    ensures MarkAt(txt[pos..], 0) == Some(Mark(m.display, m.start - pos, m.end - pos))
    ensures txt[pos..][m.start - pos..m.end - pos] == txt[m.start..m.end] && txt[pos..][m.end - pos..] == txt[m.end..]
  {
    var a, b := txt[..pos], txt[pos..];
    assert a + b == txt;
    MarkAtShift(a, b);
    SliceShift(a, b, m.start - pos, m.end - pos);
  }

  lemma {:induction false} NameStep(show: Shower, dir: string, txt: string, pos: nat, m: Mark)
    requires pos < |txt| && MarkAt(txt, pos) == Some(m)
    ensures Decoded(show, dir, txt[pos..]) == Prepend(Shown(show, dir, txt, m), Localized(show, dir, txt[m.end..]))
  {
    SameMark(txt, pos, m);
  }

  lemma {:induction false} DecodeStops(show: Shower, dir: string, txt: string, pos: nat)
    requires pos < |txt| && MarkAt(txt, pos).None?
    ensures Decoded(show, dir, txt[pos..]).None?
  {
    assert txt[..pos] + txt[pos..] == txt;
    MarkAtShift(txt[..pos], txt[pos..]);
  }

  /** A name and the text after it, once something has been decoded. */
  lemma {:induction false} NextPiece(show: Shower, dir: string, txt: string, pos: nat, m: Mark, res: string)
    requires pos < |txt| && MarkAt(txt, pos) == Some(m)
    ensures var next := NextMark(txt, m.end);
      Prepend(res, Decoded(show, dir, txt[pos..]))
      == Prepend(res + Shown(show, dir, txt, m) + txt[m.end..next], Decoded(show, dir, txt[next..]))
  {
    var shown, next := Shown(show, dir, txt, m), NextMark(txt, m.end);
    NameStep(show, dir, txt, pos, m);
    PrependTwice(res, shown, Localized(show, dir, txt[m.end..]));
    TextStep(show, dir, txt, m.end);
    PrependTwice(res + shown, txt[m.end..next], Decoded(show, dir, txt[next..]));
  }

  /** The decoding loop. */
  method Localize(show: Shower, dir: string, txt: string) returns (r: Option<string>)
    ensures r == Localized(show, dir, txt)
  {
    var pos := NextMark(txt, 0);
    var res := txt[..pos];
    while pos != |txt|
      invariant pos <= |txt|
      invariant Localized(show, dir, txt) == Prepend(res, Decoded(show, dir, txt[pos..]))
      decreases |txt| - pos
    {
      var m := MarkAt(txt, pos);
      if m.None? {
        DecodeStops(show, dir, txt, pos);
        return None;
      }
      var f := if m.value.end > m.value.start then Relative(txt[m.value.start..m.value.end], dir) else "";
      var shown := show(m.value.display, f);
      var next := NextMark(txt, m.value.end);
      NextPiece(show, dir, txt, pos, m.value, res);
      res := res + shown;
      res := res + txt[m.value.end..next];
      pos := next;
    }
    assert txt[pos..] == "" && res + "" == res;
    r := Some(res);
  }

  // ----- localisation undoes the encoding -----

  lemma {:induction false} MarkAfterText(t: string, rest: string, pos: nat)
    requires MARKER !in t && pos <= |t|
    ensures NextMark(t + rest, pos) == |t| + NextMark(rest, 0)
    decreases |t| - pos
  {
    if pos < |t| {
      MarkAfterText(t, rest, pos + 1);
    } else {
      MarkShift(t, rest, 0);
    }
  }

  lemma {:induction false} TextStays(show: Shower, dir: string, t: string, rest: string)
    requires MARKER !in t
    ensures Localized(show, dir, t + rest) == Prepend(t, Localized(show, dir, rest))
  {
    MarkAfterText(t, rest, 0);
    var first := NextMark(rest, 0);
    SliceShift(t, rest, 0, first);
    assert (t + rest)[..|t| + first] == t + rest[..first];
    PrependTwice(t, rest[..first], Decoded(show, dir, rest[first..]));
  }

  /** A length is read back exactly when it fits in two bytes. */
  lemma {:induction false} LenRoundTrip(n: nat)
    ensures DecodeLen(EncodeLen(n)[0], EncodeLen(n)[1]) == n <==> n < TWO_16
  {
    assert EncodeLen(n)[0] as int < 256 && EncodeLen(n)[1] as int < 256;
  }

  lemma {:induction false} FileMark(f: string, d: Display, rest: string)
    requires |f| < TWO_16
    ensures var t := MkFile(f, d) + rest;
      && MarkAt(t, 0) == Some(Mark(d, 4, 4 + |f|)) && t[4..4 + |f|] == f && NextMark(t, 0) == 0
  {
    var t := MkFile(f, d) + rest;
    LenRoundTrip(|f|);
    assert t[0] == MARKER && t[1] == Code(d) as char && t[2] == EncodeLen(|f|)[0] && t[3] == EncodeLen(|f|)[1];
    assert DisplayOf(t[1]) == Some(d);
  }

  lemma {:induction false} FileDecoded(show: Shower, dir: string, f: string, d: Display, rest: string)
    requires |f| < TWO_16
    ensures Localized(show, dir, MkFile(f, d) + rest) == Prepend(show(d, Relative(f, dir)), Localized(show, dir, rest))
  {
    var t := MkFile(f, d) + rest;
    FileMark(f, d, rest);
    assert t[..0] == "" && t[0..] == t && t[4 + |f|..] == rest;
    PrependNothing(Decoded(show, dir, t));
  }

  /** Any interleaving of text and names is shown with each name in its relative form. */
  lemma {:induction false} LocalizeUndoesEncoding(show: Shower, dir: string, segs: seq<Segment>)
    requires Proper(segs)
    ensures Localized(show, dir, Encoded(segs)) == Some(Rendered(show, dir, segs))
  {
    if segs == [] {
      assert Decoded(show, dir, "") == Some("");
      assert "" + "" == "";
    } else {
      LocalizeUndoesEncoding(show, dir, segs[1..]);
      var rest := Encoded(segs[1..]);
      match segs[0]
      case Text(t) => TextStays(show, dir, t, rest);
      case File(f, d) => FileDecoded(show, dir, f, d, rest);
    }
  }

  /** The remark about existence is plain text. */
  lemma {:induction false} RemarkIsText(f: string, d: Display, expected: Exists, actual: bool) returns (segs: seq<Segment>)
    requires |f| < TWO_16
    ensures Proper(segs) && MkFileExists(f, d, expected, actual) == Encoded(segs)
    ensures segs[|segs| - 1] == File(f, d) && |segs| == if (expected == Yes && !actual) || (expected == No && actual) then 2 else 1
  {
    var file := File(f, d);
    assert Encoded([file]) == MkFile(f, d) + Encoded([]) == MkFile(f, d);
    if expected == Yes && !actual {
      segs := [Text("(not existing) "), file];
      assert segs[1..] == [file];
    } else if expected == No && actual {
      segs := [Text("(existing) "), file];
      assert segs[1..] == [file];
    } else {
      segs := [file];
    }
  }
}
