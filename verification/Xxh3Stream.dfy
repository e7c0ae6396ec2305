/** The streaming state of XXH3: a 256-byte buffer in front of the stripe consumption. */
module Xxh3Stream {
  import opened Basics
  import opened Bytes
  import opened Xxh3

  /** All of `fed` has been consumed, in `k` stripes; the end of the buffer still holds the last one. */
  ghost predicate Drained<A, H>(h: Hasher<A, H>, fed: bytes, k: nat, s: Lane<A>, buf: bytes) {
    && h.Valid() && |buf| == BUFFER_SIZE && |fed| == STRIPE_LEN * k && s == Feed(h, Lane(h.init, 0), fed, k)
    && (k > 0 ==> k >= BUFFER_STRIPES && buf[BUFFER_SIZE - STRIPE_LEN..] == fed[|fed| - STRIPE_LEN..])
  }

  /** The first `k` stripes of `fed` have been consumed and the `size` remaining bytes are buffered;
      there is always some byte buffered, and while the end of the buffer is not overwritten it holds
      the last stripe consumed. */
  ghost predicate Buffered<A, H>(h: Hasher<A, H>, fed: bytes, k: nat, s: Lane<A>, buf: bytes, size: nat) {
    && h.Valid() && |buf| == BUFFER_SIZE && size <= BUFFER_SIZE && |fed| == STRIPE_LEN * k + size
    && s == Feed(h, Lane(h.init, 0), fed, k)
    && buf[..size] == fed[STRIPE_LEN * k..]
    && (fed != [] ==> size > 0)
    && (k > 0 ==> k >= BUFFER_STRIPES)
    && (k > 0 && size <= BUFFER_SIZE - STRIPE_LEN ==>
          buf[BUFFER_SIZE - STRIPE_LEN..] == fed[STRIPE_LEN * k - STRIPE_LEN..STRIPE_LEN * k])
  }

  /** The buffer with `data` copied at `offset`. */
  function Overwritten(buf: bytes, offset: nat, data: bytes): (r: bytes)
    requires offset + |data| <= |buf|
    ensures |r| == |buf|
  {
    buf[..offset] + data + buf[offset + |data|..]
  }

  lemma {:induction false} EmptyIsDrained<A, H>(h: Hasher<A, H>, fed: bytes, k: nat, s: Lane<A>, buf: bytes)
    requires Buffered(h, fed, k, s, buf, 0)
    ensures Drained(h, fed, k, s, buf) && k == 0
  {
  }

  lemma {:induction false} AppendSmall<A, H>(h: Hasher<A, H>, fed: bytes, k: nat, s: Lane<A>, buf: bytes, size: nat, input: bytes)
    requires Buffered(h, fed, k, s, buf, size) && size + |input| <= BUFFER_SIZE
    ensures Buffered(h, fed + input, k, s, Overwritten(buf, size, input), size + |input|)
  {
    FeedPrefix(h, Lane(h.init, 0), fed, fed + input, k);
    var b := Overwritten(buf, size, input);
    assert b[..size + |input|] == buf[..size] + input;
    assert (fed + input)[STRIPE_LEN * k..] == fed[STRIPE_LEN * k..] + input;
    if k > 0 && size + |input| <= BUFFER_SIZE - STRIPE_LEN {
      assert b[BUFFER_SIZE - STRIPE_LEN..] == buf[BUFFER_SIZE - STRIPE_LEN..];
    }
  }

  /** Feeding on from a stripe boundary. */
  lemma {:induction false} FeedOn<A, H>(h: Hasher<A, H>, fed: bytes, k: nat, s: Lane<A>, part: bytes, nb: nat)
    requires h.Valid() && STRIPE_LEN * k <= |fed| && s == Feed(h, Lane(h.init, 0), fed, k)
    requires STRIPE_LEN * nb <= |part| && part == (fed + part)[STRIPE_LEN * k..]
    ensures Feed(h, Lane(h.init, 0), fed + part, k + nb) == Feed(h, s, part, nb)
  {
    FeedPrefix(h, Lane(h.init, 0), fed, fed + part, k);
    FeedSplit(h, Lane(h.init, 0), fed + part, k, part, nb);
  }

  lemma {:induction false} ConsumeBuffer<A, H>(h: Hasher<A, H>, fed: bytes, k: nat, s: Lane<A>, buf: bytes, size: nat, load: bytes)
    requires Buffered(h, fed, k, s, buf, size) && size + |load| == BUFFER_SIZE
    ensures var b := Overwritten(buf, size, load);
      Drained(h, fed + load, k + BUFFER_STRIPES, Feed(h, s, b, BUFFER_STRIPES), b)
  {
    var all, b := fed + load, Overwritten(buf, size, load);
    FeedPrefix(h, Lane(h.init, 0), fed, all, k);
    assert all[STRIPE_LEN * k..] == fed[STRIPE_LEN * k..] + load == b;
    FeedSplit(h, Lane(h.init, 0), all, k, b, BUFFER_STRIPES);
    assert all[|all| - STRIPE_LEN..] == b[BUFFER_SIZE - STRIPE_LEN..];
  }

  lemma {:induction false} EndOf(fed: bytes, part: bytes, buf: bytes, last: bytes)
    requires |part| >= STRIPE_LEN && last == part[|part| - STRIPE_LEN..] && |buf| == BUFFER_SIZE
    ensures (fed + part)[|fed + part| - STRIPE_LEN..] == last
    ensures Overwritten(buf, BUFFER_SIZE - STRIPE_LEN, last)[BUFFER_SIZE - STRIPE_LEN..] == last
  {
  }

  lemma {:induction false} ConsumeBulk<A, H>(h: Hasher<A, H>, fed: bytes, k: nat, s: Lane<A>, buf: bytes, part: bytes, nb: nat)
    requires Drained(h, fed, k, s, buf) && nb >= BUFFER_STRIPES && STRIPE_LEN * nb == |part|
    ensures Drained(h, fed + part, k + nb, Feed(h, s, part, nb),
                    Overwritten(buf, BUFFER_SIZE - STRIPE_LEN, part[|part| - STRIPE_LEN..]))
  {
    FeedOn(h, fed, k, s, part, nb);
    EndOf(fed, part, buf, part[|part| - STRIPE_LEN..]);
  }

  lemma {:induction false} BufferTail<A, H>(h: Hasher<A, H>, fed: bytes, k: nat, s: Lane<A>, buf: bytes, rest: bytes)
    requires Drained(h, fed, k, s, buf) && 0 < |rest| <= BUFFER_SIZE
    ensures Buffered(h, fed + rest, k, s, Overwritten(buf, 0, rest), |rest|)
  {
    FeedPrefix(h, Lane(h.init, 0), fed, fed + rest, k);
    var b := Overwritten(buf, 0, rest);
    assert b[..|rest|] == rest == (fed + rest)[STRIPE_LEN * k..];
    if k > 0 && |rest| <= BUFFER_SIZE - STRIPE_LEN {
      assert b[BUFFER_SIZE - STRIPE_LEN..] == buf[BUFFER_SIZE - STRIPE_LEN..];
      assert (fed + rest)[STRIPE_LEN * k - STRIPE_LEN..STRIPE_LEN * k] == fed[|fed| - STRIPE_LEN..];
    }
  }

  /** The bytes of the last stripe, taken across the end of the buffer when few are buffered. */
  function LastStripe(buf: bytes, size: nat): bytes
    requires |buf| == BUFFER_SIZE && 0 < size <= BUFFER_SIZE
  {
    if size >= STRIPE_LEN then buf[size - STRIPE_LEN..size]
    else buf[BUFFER_SIZE - (STRIPE_LEN - size)..] + buf[..size]
  }

  lemma {:induction false} LastStripeIsLast<A, H>(h: Hasher<A, H>, fed: bytes, k: nat, s: Lane<A>, buf: bytes, size: nat)
    requires Buffered(h, fed, k, s, buf, size) && |fed| > MIDSIZE_MAX
    ensures size > 0 && LastStripe(buf, size) == fed[|fed| - STRIPE_LEN..]
  {
    var tail := fed[STRIPE_LEN * k..];
    if size >= STRIPE_LEN {
      assert buf[size - STRIPE_LEN..size] == buf[..size][size - STRIPE_LEN..];
      assert fed[|fed| - STRIPE_LEN..] == tail[size - STRIPE_LEN..];
    } else {
      var last := buf[BUFFER_SIZE - STRIPE_LEN..];
      assert last == fed[STRIPE_LEN * k - STRIPE_LEN..STRIPE_LEN * k];
      assert buf[BUFFER_SIZE - (STRIPE_LEN - size)..] == last[size..];
      assert fed[|fed| - STRIPE_LEN..] == last[size..] + tail;
    }
  }

  /** What a long digest has to compute. */
  lemma {:induction false} DigestIs<A, H>(h: Hasher<A, H>, fed: bytes, k: nat, s: Lane<A>, buf: bytes, size: nat)
    requires Buffered(h, fed, k, s, buf, size) && |fed| > MIDSIZE_MAX
    ensures size > 0
    ensures OneShot(h, fed)
         == h.finalizeLong(h.Last(Feed(h, s, buf, (size - 1) / STRIPE_LEN).acc, LastStripe(buf, size)), |fed|)
  {
    LastStripeIsLast(h, fed, k, s, buf, size);
    var m := (size - 1) / STRIPE_LEN;
    var tail := fed[STRIPE_LEN * k..];
    FeedSplit(h, Lane(h.init, 0), fed, k, tail, m);
    FeedPrefix(h, s, buf[..size], buf, m);
    LongHashIs(h, fed, k + m, Feed(h, s, buf, m));
  }

  /** A short input has never left the buffer. */
  lemma {:induction false} AllIsBuffered<A, H>(h: Hasher<A, H>, fed: bytes, k: nat, s: Lane<A>, buf: bytes, size: nat)
    requires Buffered(h, fed, k, s, buf, size) && |fed| <= MIDSIZE_MAX
    ensures buf[..|fed|] == fed
  {
    assert k == 0;
    assert fed[0..] == fed;
  }

  lemma {:induction false} NoWrap(n: nat)
    requires n < TWO_64
    ensures n % TWO_64 == n
  {
  }

  lemma {:induction false} CutAt(fed: bytes, input: bytes, n: nat)
    requires n <= |input|
    ensures fed + input[..n] + input[n..] == fed + input
  {
  }

  /** At least one byte is kept for later. */
  lemma {:induction false} WholeStripes(n: nat, k: nat)
    requires n > BUFFER_SIZE && k == (n - 1) / STRIPE_LEN
    ensures k >= BUFFER_STRIPES && STRIPE_LEN * k < n <= STRIPE_LEN * k + STRIPE_LEN
  {
  }

  lemma {:induction false} ModAdd(a: nat, b: nat)
    ensures (a % TWO_64 + b) % TWO_64 == (a + b) % TWO_64
  {
  }

  class State<A, H> {
    const h: Hasher<A, H>
    var acc: A
    const buffer: array<byte>
    var bufferedSize: nat
    var nbStripesSoFar: nat
    var totalLen: nat
    ghost var fed: bytes
    ghost var stripes: nat

    ghost predicate Valid()
      reads this, buffer
    {
      && Buffered(h, fed, stripes, Lane(acc, nbStripesSoFar), buffer[..], bufferedSize)
      && totalLen == |fed| % TWO_64
    }

    constructor Reset(h: Hasher<A, H>)
      requires h.Valid()
      ensures Valid() && fed == [] && this.h == h && fresh(buffer)
    {
      this.h := h;
      acc := h.init;
      buffer := new byte[BUFFER_SIZE](_ => 0);
      bufferedSize, nbStripesSoFar, totalLen := 0, 0, 0;
      fed, stripes := [], 0;
    }

    method CopyToBuffer(offset: nat, data: bytes)
      requires offset + |data| <= buffer.Length
      modifies buffer
      ensures buffer[..] == Overwritten(old(buffer[..]), offset, data)
    {
      forall i | 0 <= i < |data| {
        buffer[offset + i] := data[i];
      }
    }

    /** However the input is cut, the state stands for all the bytes fed so far. */
    method Update(input: bytes)
      requires Valid()
      modifies this, buffer
      ensures Valid() && fed == old(fed) + input
    {
      ModAdd(|fed|, |input|);
      totalLen := (totalLen + |input|) % TWO_64;
      Absorb(input);
    }

    method Absorb(input: bytes)
      requires Buffered(h, fed, stripes, Lane(acc, nbStripesSoFar), buffer[..], bufferedSize)
      modifies this`acc, this`nbStripesSoFar, this`bufferedSize, this`fed, this`stripes, buffer
      ensures Buffered(h, fed, stripes, Lane(acc, nbStripesSoFar), buffer[..], bufferedSize)
      ensures fed == old(fed) + input
    {
      if |input| <= BUFFER_SIZE - bufferedSize {
        AppendSmall(h, fed, stripes, Lane(acc, nbStripesSoFar), buffer[..], bufferedSize, input);
        CopyToBuffer(bufferedSize, input);
        bufferedSize := bufferedSize + |input|;
        fed := fed + input;
      } else {
        UpdateLong(input);
      }
    }

    /** The case where the input does not fit in the buffer. */
    method UpdateLong(input: bytes)
      requires Buffered(h, fed, stripes, Lane(acc, nbStripesSoFar), buffer[..], bufferedSize)
      requires |input| > BUFFER_SIZE - bufferedSize
      modifies this`acc, this`nbStripesSoFar, this`bufferedSize, this`fed, this`stripes, buffer
      ensures Buffered(h, fed, stripes, Lane(acc, nbStripesSoFar), buffer[..], bufferedSize)
      ensures fed == old(fed) + input
    {
      var rest := FlushBuffer(input);
      if |rest| > BUFFER_SIZE {
        rest := ConsumeLong(rest);
      }
      BufferTail(h, fed, stripes, Lane(acc, nbStripesSoFar), buffer[..], rest);
      CopyToBuffer(0, rest);
      bufferedSize := |rest|;
      fed := fed + rest;
    }

    /** Completes and consumes a buffer that is not empty. */
    method FlushBuffer(input: bytes) returns (rest: bytes)
      requires Buffered(h, fed, stripes, Lane(acc, nbStripesSoFar), buffer[..], bufferedSize)
      requires |input| > BUFFER_SIZE - bufferedSize
      modifies this`acc, this`nbStripesSoFar, this`bufferedSize, this`fed, this`stripes, buffer
      ensures Drained(h, fed, stripes, Lane(acc, nbStripesSoFar), buffer[..])
      ensures fed + rest == old(fed) + input && rest != [] && bufferedSize == 0
    {
      if bufferedSize == 0 {
        EmptyIsDrained(h, fed, stripes, Lane(acc, nbStripesSoFar), buffer[..]);
        return input;
      }
      var loadSize := BUFFER_SIZE - bufferedSize;
      ConsumeBuffer(h, fed, stripes, Lane(acc, nbStripesSoFar), buffer[..], bufferedSize, input[..loadSize]);
      CopyToBuffer(bufferedSize, input[..loadSize]);
      rest := input[loadSize..];
      acc, nbStripesSoFar := ConsumeStripes(h, acc, nbStripesSoFar, buffer[..], BUFFER_STRIPES);
      bufferedSize := 0;
      CutAt(fed, input, loadSize);
      fed, stripes := fed + input[..loadSize], stripes + BUFFER_STRIPES;
    }

    /** Consumes stripes directly from the input, all but the last bytes. */
    method ConsumeLong(input: bytes) returns (rest: bytes)
      requires Drained(h, fed, stripes, Lane(acc, nbStripesSoFar), buffer[..]) && |input| > BUFFER_SIZE
      modifies this`acc, this`nbStripesSoFar, this`fed, this`stripes, buffer
      ensures Drained(h, fed, stripes, Lane(acc, nbStripesSoFar), buffer[..])
      ensures fed + rest == old(fed) + input && 0 < |rest| <= STRIPE_LEN
    {
      var nbStripes := (|input| - 1) / STRIPE_LEN;
      WholeStripes(|input|, nbStripes);
      var part := input[..STRIPE_LEN * nbStripes];
      ConsumeBulk(h, fed, stripes, Lane(acc, nbStripesSoFar), buffer[..], part, nbStripes);
      acc, nbStripesSoFar := ConsumeStripes(h, acc, nbStripesSoFar, part, nbStripes);
      rest := input[STRIPE_LEN * nbStripes..];
      CopyToBuffer(BUFFER_SIZE - STRIPE_LEN, part[|part| - STRIPE_LEN..]);
      CutAt(fed, input, |part|);
      fed, stripes := fed + part, stripes + nbStripes;
    }

    /** The digest is the one-shot hash of what was fed, and leaves the state ready for more. */
    method Digest() returns (r: H)
      requires Valid() && |fed| < TWO_64
      ensures r == OneShot(h, fed)
    {
      NoWrap(|fed|);
      if totalLen > MIDSIZE_MAX {
        r := DigestLong();
      } else {
        AllIsBuffered(h, fed, stripes, Lane(acc, nbStripesSoFar), buffer[..], bufferedSize);
        r := h.hashShort(buffer[..totalLen]);
      }
    }

    /** Works on a copy of the accumulators. */
    method DigestLong() returns (r: H)
      requires Buffered(h, fed, stripes, Lane(acc, nbStripesSoFar), buffer[..], bufferedSize)
      requires totalLen == |fed| > MIDSIZE_MAX
      ensures r == OneShot(h, fed)
    {
      DigestIs(h, fed, stripes, Lane(acc, nbStripesSoFar), buffer[..], bufferedSize);
      var a, lastStripe := acc, LastStripe(buffer[..], bufferedSize);
      if bufferedSize >= STRIPE_LEN {
        var nbStripes := (bufferedSize - 1) / STRIPE_LEN;
        var soFar;
        a, soFar := ConsumeStripes(h, acc, nbStripesSoFar, buffer[..], nbStripes);
      }
      a := h.Last(a, lastStripe);
      r := h.finalizeLong(a, totalLen);
    }
  }

  /** Streaming in any chunks equals hashing in one go. */
  method HashChunks<A, H>(h: Hasher<A, H>, chunks: seq<bytes>) returns (r: H)
    requires h.Valid() && |Flatten(chunks)| < TWO_64
    ensures r == OneShot(h, Flatten(chunks))
  {
    var state := new State<A, H>.Reset(h);
    for i := 0 to |chunks|
      invariant state.Valid() && state.h == h && state.fed == Flatten(chunks[..i])
      invariant fresh(state) && fresh(state.buffer)
    {
      assert chunks[..i + 1][..i] == chunks[..i];
      state.Update(chunks[i]);
    }
    assert chunks[..|chunks|] == chunks;
    r := state.Digest();
  }
}
