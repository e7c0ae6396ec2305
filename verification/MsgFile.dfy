/** Messages in a file: how the info of an entry is written and read back, whole or cut. */
module MsgFile {
  import opened Basics
  import opened Bytes

  const LEN_SZ: nat := 4

  /** How the length in front of a message is stored. */
  datatype Codec = Codec(enc: nat -> bytes, dec: bytes -> nat)
  {
    ghost predicate Valid() {
      && (forall n :: 0 < n < TWO_32 ==> |enc(n)| == LEN_SZ && dec(enc(n)) == n)
      && (forall b :: |b| == LEN_SZ && dec(b) > 0 ==> enc(dec(b)) == b)
    }
  }

  ghost predicate IsMsg(msg: bytes) { 0 < |msg| < TWO_32 }

  function Frame(c: Codec, msg: bytes): bytes { c.enc(|msg|) + msg }

  /** What reading a message gives: nothing at the end of the file, even in the middle of a message. */
  datatype Received = Msg(msg: bytes) | AtEnd | Stopped

  /** The message that starts at `p`; a length of zero stops the program. */
  function MsgAt(c: Codec, file: bytes, p: nat): Received
    requires p <= |file|
  {
    if |file| < p + LEN_SZ then AtEnd
    else
      var start, n := p + LEN_SZ, c.dec(file[p..p + LEN_SZ]);
      if n == 0 then Stopped else if |file| < start + n then AtEnd else Msg(file[start..start + n])
  }

  // ----- reading -----

  /** A read gives some of what remains, and nothing only at the end; `hint` decides how much. */
  method Read(file: bytes, pos: nat, max: nat, hint: nat) returns (cnt: nat)
    requires pos <= |file| && 0 < max
    ensures cnt <= max && pos + cnt <= |file| && (cnt == 0 <==> pos == |file|)
  {
    cnt := if hint == 0 then 1 else hint;
    if cnt > max { cnt := max; }
    if cnt > |file| - pos { cnt := |file| - pos; }
  }

  lemma {:induction false} SliceOf(buf: bytes, file: bytes, base: nat, i: nat, j: nat)
    requires base + |buf| <= |file| && buf == file[base..base + |buf|] && i <= j <= |buf|
    ensures buf[i..j] == file[base + i..base + j]
  {
    forall k | 0 <= k < j - i
      ensures buf[i..j][k] == file[base + i..base + j][k]
    {
      assert buf[i..j][k] == buf[i + k] == file[base + i + k];
    }
  }

  /** The reading buffer over a file. */
  class IMsgBuf {
    const c: Codec
    const file: bytes
    /** Position of the file descriptor. */
    var pos: nat
    var buf: bytes
    var msgStart: nat
    var msgLen: nat
    /** Position in the file of the start of the buffer. */
    ghost var base: nat

    ghost predicate Valid()
      reads this
    {
      && base + |buf| == pos <= |file| && buf == file[base..pos] && msgStart <= |buf|
      && (msgLen > 0 ==> base + msgStart >= LEN_SZ
                         && c.dec(file[base + msgStart - LEN_SZ..base + msgStart]) == msgLen)
    }

    /** Where the next message starts. */
    ghost function Next(): nat
      requires Valid()
      reads this
    {
      if msgLen > 0 then base + msgStart - LEN_SZ else base + msgStart
    }

    constructor (c: Codec, file: bytes)
      ensures Valid() && Next() == 0 && this.c == c && this.file == file
    {
      this.c, this.file := c, file;
      pos, buf, msgStart, msgLen, base := 0, [], 0, 0, 0;
    }

    /** Makes `sz` bytes available after the start of the message, with at most one read. */
    method Advance(sz: nat, canRead: bool, more: nat, hint: nat) returns (ok: bool, canRead': bool, atEnd: bool)
      requires Valid()
      modifies this`buf, this`pos
      ensures Valid() && old(buf) <= buf
      ensures ok <==> msgStart + sz <= |buf|
      ensures atEnd ==> !ok && pos == |file|
      ensures pos >= old(pos) && (canRead && !ok && !atEnd ==> pos > old(pos))
      ensures canRead && !canRead' && !atEnd ==> pos > old(pos)
    {
      var end := msgStart + sz;
      if |buf| >= end { return true, canRead, false; }
      if !canRead { return false, false, false; }
      var cnt := Read(file, pos, end + more - |buf|, hint);
      if cnt == 0 { return false, false, true; }
      assert file[base..pos] + file[pos..pos + cnt] == file[base..pos + cnt];
      buf, pos := buf + file[pos..pos + cnt], pos + cnt;
      return |buf| >= end, false, false;
    }

    /** One step: the message, the end of the file, or not yet. */
    method ReceiveStep(more: nat, hint: nat) returns (res: Option<Received>)
      requires Valid()
      modifies this
      ensures Valid() && pos >= old(pos)
      ensures res.Some? ==> res.value == MsgAt(c, file, old(Next()))
      ensures res.Some? && res.value.Msg? ==> Next() == old(Next()) + LEN_SZ + |res.value.msg|
      ensures res.None? ==> Next() == old(Next()) && pos > old(pos)
    {
      var canRead := true;
      if msgLen == 0 {
        res, canRead := ReceiveLen(more, hint);
        if res.Some? || msgLen == 0 { return; }
      }
      res := ReceiveData(canRead, more, hint);
    }

    /** The length in front of the message; `msgLen` is still zero when it is not there yet. */
    method ReceiveLen(more: nat, hint: nat) returns (res: Option<Received>, canRead: bool)
      requires Valid() && msgLen == 0
      modifies this`buf, this`pos, this`msgStart, this`msgLen
      ensures Valid() && pos >= old(pos) && Next() == old(Next())
      ensures res.Some? ==> !res.value.Msg? && res.value == MsgAt(c, file, Next())
      ensures res.None? && (msgLen == 0 || !canRead) ==> pos > old(pos)
    {
      var ok, atEnd;
      ok, canRead, atEnd := Advance(LEN_SZ, true, more, hint);
      if !ok { return if atEnd then Some(AtEnd) else None, canRead; }
      SliceOf(buf, file, base, msgStart, msgStart + LEN_SZ);
      var n := c.dec(buf[msgStart..msgStart + LEN_SZ]);
      if n == 0 { return Some(Stopped), canRead; }
      msgLen, msgStart := n, msgStart + LEN_SZ;
      res := None;
    }

    method ReceiveData(canRead: bool, more: nat, hint: nat) returns (res: Option<Received>)
      requires Valid() && msgLen > 0
      modifies this
      ensures Valid() && pos >= old(pos)
      ensures res.Some? ==> res.value == MsgAt(c, file, old(Next()))
      ensures res.Some? && res.value.Msg? ==> Next() == old(Next()) + LEN_SZ + |res.value.msg|
      ensures res.None? ==> Next() == old(Next()) && (canRead ==> pos > old(pos))
    {
      ghost var p := Next();
      var ok, canRead', atEnd := Advance(msgLen, canRead, more, hint);
      if !ok { return if atEnd then Some(AtEnd) else None; }
      var msg := buf[msgStart..msgStart + msgLen];
      assert MsgAt(c, file, p) == Msg(msg) by { SliceOf(buf, file, base, msgStart, msgStart + msgLen); }
      Consume();
      res := Some(Msg(msg));
    }

    /** Goes past the message and forgets old ones once in a while. */
    method Consume()
      requires Valid() && msgLen > 0 && msgStart + msgLen <= |buf|
      modifies this
      ensures Valid() && Next() == old(Next()) + LEN_SZ + old(msgLen) && pos == old(pos)
    {
      msgStart, msgLen := msgStart + msgLen, 0;
      if |buf| - msgStart <= msgStart {
        buf, base := buf[msgStart..], base + msgStart;
        msgStart := 0;
      }
    }

    /** However the file is read, the next message is received, or the end of the file. */
    method Receive(mores: nat -> nat, hints: nat -> nat) returns (r: Received)
      requires Valid()
      modifies this
      ensures Valid() && r == MsgAt(c, file, old(Next()))
      ensures r.Msg? ==> Next() == old(Next()) + LEN_SZ + |r.msg|
    {
      ghost var p := Next();
      var i := 0;
      while true
        invariant Valid() && Next() == p
        decreases |file| - pos
      {
        var res := ReceiveStep(mores(i), hints(i));
        if res.Some? { return res.value; }
        i := i + 1;
      }
    }
  }

  lemma {:induction false} CutSlice(a: bytes, b: bytes, n: nat, i: nat, j: nat)
    requires i <= j <= n <= |a + b| && j <= |a|
    ensures (a + b)[..n][i..j] == a[i..j]
  {
  }

  /** A file cut anywhere: the first message is received exactly when the cut comes after it. */
  lemma {:induction false} CutAnywhere(c: Codec, first: bytes, rest: bytes, n: nat)
    requires c.Valid() && IsMsg(first) && n <= |Frame(c, first) + rest|
    ensures MsgAt(c, (Frame(c, first) + rest)[..n], 0)
         == if n < |Frame(c, first)| then AtEnd else Msg(first)
  {
    var frame := Frame(c, first);
    assert frame[0..LEN_SZ] == c.enc(|first|) && frame[LEN_SZ..] == first;
    if LEN_SZ <= n {
      CutSlice(frame, rest, n, 0, LEN_SZ);
      if |frame| <= n {
        CutSlice(frame, rest, n, LEN_SZ, |frame|);
      }
    }
  }

  /** The second message follows. */
  lemma {:induction false} SecondMessage(c: Codec, first: bytes, second: bytes)
    requires c.Valid() && IsMsg(first) && IsMsg(second)
    ensures MsgAt(c, Frame(c, first) + Frame(c, second), |Frame(c, first)|) == Msg(second)
  {
    var all, p := Frame(c, first) + Frame(c, second), |Frame(c, first)|;
    assert all[p..p + LEN_SZ] == c.enc(|second|);
    assert all[p + LEN_SZ..p + LEN_SZ + |second|] == second;
  }

  // ----- writing -----

  /** The result of one write: a number of bytes, or a failure. */
  datatype Write = Wrote(cnt: nat) | Failed

  /** What the file holds after a message has been sent: each write starts the message again. */
  function Sent(msg: bytes, ws: seq<Write>): bytes {
    if ws == [] || ws[0].Failed? || ws[0].cnt == 0 then []
    else if ws[0].cnt >= |msg| then msg
    else msg[..ws[0].cnt] + Sent(msg, ws[1..])
  }

  predicate SentAll(msg: bytes, ws: seq<Write>) {
    ws != [] && ws[0].Wrote? && ws[0].cnt > 0 && (ws[0].cnt >= |msg| || SentAll(msg, ws[1..]))
  }

  method Send(msg: bytes, ws: seq<Write>) returns (ok: bool, file: bytes)
    ensures ok == SentAll(msg, ws) && file == Sent(msg, ws)
  {
    file := [];
    var i := 0;
    while i < |ws|
      invariant i <= |ws| && SentAll(msg, ws) == SentAll(msg, ws[i..]) && Sent(msg, ws) == file + Sent(msg, ws[i..])
    {
      assert ws[i..][0] == ws[i] && ws[i..][1..] == ws[i + 1..];
      if ws[i].Failed? || ws[i].cnt == 0 {
        assert file + [] == file;
        return false, file;
      }
      if ws[i].cnt >= |msg| { return true, file + msg; }
      assert file + (msg[..ws[i].cnt] + Sent(msg, ws[i + 1..])) == file + msg[..ws[i].cnt] + Sent(msg, ws[i + 1..]);
      file := file + msg[..ws[i].cnt];
      i := i + 1;
    }
    assert file + [] == file;
    ok := false;
  }

  /** A message that has been sent is in the file as it is exactly when one write was enough. */
  lemma {:induction false} IntactIff(msg: bytes, ws: seq<Write>)
    requires SentAll(msg, ws)
    ensures Sent(msg, ws) == msg <==> ws[0].cnt >= |msg|
  {
    SentIsLong(msg, ws);
    if ws[0].cnt < |msg| {
      SentIsLong(msg, ws[1..]);
    }
  }

  lemma {:induction false} SentIsLong(msg: bytes, ws: seq<Write>)
    requires SentAll(msg, ws)
    ensures |Sent(msg, ws)| >= |msg|
  {
    if ws[0].cnt < |msg| {
      SentIsLong(msg, ws[1..]);
    }
  }

  /** Writes that fail after `n` bytes. */
  function CutAfter(n: nat): seq<Write> { if n == 0 then [Failed] else [Wrote(n), Failed] }

  /** They leave the beginning of the message. */
  lemma {:induction false} FailureCuts(msg: bytes, n: nat, ws: seq<Write>)
    requires n < |msg|
    ensures Sent(msg, CutAfter(n) + ws) == msg[..n] && !SentAll(msg, CutAfter(n) + ws)
  {
    var all := CutAfter(n) + ws;
    if n > 0 {
      assert all[0] == Wrote(n) && all[1..][0] == Failed;
    }
  }

  // ----- reading back what was sent -----

  /** A message is received exactly when the file starts with it. */
  lemma {:induction false} ReceivedIff(c: Codec, msg: bytes, file: bytes)
    requires c.Valid() && IsMsg(msg)
    ensures MsgAt(c, file, 0) == Msg(msg) <==> Frame(c, msg) <= file
  {
    var frame := Frame(c, msg);
    if frame <= file {
      assert file == frame + file[|frame|..] && file[..|file|] == file;
      CutAnywhere(c, msg, file[|frame|..], |file|);
    }
    if MsgAt(c, file, 0) == Msg(msg) {
      assert file[0..LEN_SZ] == c.enc(|msg|) && file[LEN_SZ..LEN_SZ + |msg|] == msg;
      assert file == file[0..LEN_SZ] + file[LEN_SZ..LEN_SZ + |msg|] + file[LEN_SZ + |msg|..];
    }
  }

  /** What was sent reads back as its first message exactly when the first write went beyond that message, or
      what the next ones start again with happens to be what was missing. */
  lemma {:induction false} ReadsBackIff(c: Codec, first: bytes, all: bytes, ws: seq<Write>)
    requires c.Valid() && IsMsg(first) && Frame(c, first) <= all
    ensures MsgAt(c, Sent(all, ws), 0) == Msg(first) <==>
      && ws != [] && ws[0].Wrote? && ws[0].cnt > 0
      && (ws[0].cnt >= |Frame(c, first)| || Frame(c, first)[ws[0].cnt..] <= Sent(all, ws[1..]))
  {
    var frame := Frame(c, first);
    ReceivedIff(c, first, Sent(all, ws));
    if ws != [] && ws[0].Wrote? && 0 < ws[0].cnt < |all| {
      AfterCut(frame, all, ws[0].cnt, Sent(all, ws[1..]));
    }
  }

  lemma {:induction false} AfterCut(frame: bytes, all: bytes, n: nat, more: bytes)
    requires frame <= all && n <= |all|
    ensures frame <= all[..n] + more <==> n >= |frame| || frame[n..] <= more
  {
    var file := all[..n] + more;
    if n < |frame| {
      assert all[..n] == frame[..n] && frame == frame[..n] + frame[n..];
      if frame <= file {
        assert file[n..] == more && frame[n..] == file[n..|frame|];
      }
      if frame[n..] <= more {
        assert more == frame[n..] + more[|frame| - n..];
        assert file == frame + more[|frame| - n..];
      }
    }
  }

  /** A write that ends with the length of the first message, and a second one that does all: other bytes are
      received in place of the message, as many of them. */
  lemma {:induction false} SecondWriteGarbles(c: Codec, first: bytes, all: bytes) returns (m: bytes)
    requires c.Valid() && IsMsg(first) && Frame(c, first) <= all && first[0] != c.enc(|first|)[0]
    ensures SentAll(all, [Wrote(LEN_SZ), Wrote(|all|)])
    ensures MsgAt(c, Sent(all, [Wrote(LEN_SZ), Wrote(|all|)]), 0) == Msg(m) && |m| == |first| && m != first
  {
    var ws := [Wrote(LEN_SZ), Wrote(|all|)];
    assert ws[1..] == [Wrote(|all|)] && Sent(all, ws[1..]) == all;
    assert all[..LEN_SZ] == Frame(c, first)[..LEN_SZ] == c.enc(|first|);
    var file := Sent(all, ws);
    assert file == c.enc(|first|) + all;
    m := file[LEN_SZ..LEN_SZ + |first|];
    assert file[0..LEN_SZ] == c.enc(|first|);
    assert m[0] == all[0] == c.enc(|first|)[0];
  }
}
