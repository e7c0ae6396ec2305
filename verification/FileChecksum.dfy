/** The checksum of a file read piece by piece. */
module FileChecksum {
  import opened Basics
  import opened Bytes
  import opened Xxh3
  import opened Xxh3Stream

  /** What one call to read gives. */
  datatype Read = Data(piece: bytes) | EndOfFile | Interrupted | Failure

  /** The bytes that get hashed from the `i`th read on: up to `size` of them or a little more, or up to
      the end of the file if that comes first; None when a read fails. */
  function Collected(rs: seq<Read>, i: nat, size: nat): Option<bytes>
    requires i <= |rs|
    decreases |rs| - i
  {
    if i == |rs| then Some([])
    else match rs[i]
      case EndOfFile => Some([])
      case Failure => None
      case Interrupted => Collected(rs, i + 1, size)
      case Data(piece) =>
        if |piece| >= size then Some(piece) else Prepend(piece, Collected(rs, i + 1, size - |piece|))
  }

  /** From the `i`th read on, all of `content` is returned in order, in any pieces and with any
      interruptions, whatever happens after that. */
  ghost predicate Deliver(rs: seq<Read>, i: nat, content: bytes)
    requires i <= |rs|
    decreases |rs| - i
  {
    if content == [] then true
    else i < |rs| && match rs[i]
      case Interrupted => Deliver(rs, i + 1, content)
      case Data(piece) => piece != [] && piece <= content && Deliver(rs, i + 1, content[|piece|..])
      case _ => false
  }

  /** A file that does not change while it is read is hashed as a whole. */
  lemma {:induction false} StableFile(rs: seq<Read>, i: nat, content: bytes)
    requires i <= |rs| && Deliver(rs, i, content) && content != []
    ensures Collected(rs, i, |content|) == Some(content)
    decreases |rs| - i
  {
    match rs[i]
    case Interrupted => StableFile(rs, i + 1, content);
    case Data(piece) =>
      if |piece| < |content| {
        StableFile(rs, i + 1, content[|piece|..]);
        assert piece + content[|piece|..] == content;
      } else {
        assert piece == content;
      }
  }

  /** The reading loop. */
  method HashFile<A, H>(h: Hasher<A, H>, rs: seq<Read>, size0: nat) returns (r: Option<H>)
    requires h.Valid()
    requires match Collected(rs, 0, size0) case Some(all) => |all| < TWO_64 case None => true
    ensures r == match Collected(rs, 0, size0)
                 case Some(all) => Some(OneShot(h, all))
                 case None => None
  {
    var ctx := new State<A, H>.Reset(h);
    var size: nat, i := size0, 0;
    ghost var goal := Collected(rs, 0, size0);
    PrependNothing(goal);
    while i < |rs|
      invariant 0 <= i <= |rs| && ctx.Valid() && ctx.h == h && fresh(ctx) && fresh(ctx.buffer)
      invariant goal == Prepend(ctx.fed, Collected(rs, i, size))
    {
      var read := rs[i];
      if read.EndOfFile? { break; }
      if read.Failure? { return None; }
      i := i + 1;
      if read.Interrupted? { continue; }
      ghost var before := ctx.fed;
      ctx.Update(read.piece);
      if |read.piece| >= size {
        assert goal == Some(ctx.fed);
        var d := ctx.Digest();
        return Some(d);
      }
      size := size - |read.piece|;
      PrependTwice(before, read.piece, Collected(rs, i, size));
    }
    assert ctx.fed + [] == ctx.fed;
    var d := ctx.Digest();
    r := Some(d);
  }
}
