/** XXH32 and XXH64: one-shot and streaming forms, for any lane round, merge and final mix. */
module Xxh {
  import opened Basics
  import opened Bytes

  /** The hash of 64-bit values when `wide`, otherwise the one of 32-bit values; the mixing functions
      and the primes do not matter here. */
  datatype Variant = Variant(
    wide: bool, prime1: nat, prime2: nat, prime5: nat,
    round: (nat, bytes) -> nat,
    merge: Lanes -> nat,
    finalize: (nat, bytes) -> nat)
  {
    function LaneLen(): nat { if wide then 8 else 4 }

    function StripeLen(): nat { if wide then 32 else 16 }

    function Modulus(): nat { if wide then TWO_64 else TWO_32 }

    function Wrap(a: int): (r: nat)
      ensures r < Modulus()
    {
      if wide then a % TWO_64 else a % TWO_32
    }

    function Add(a: nat, b: nat): nat { Wrap(a + b) }

    /** Length modulo the stripe length. */
    function Residue(n: nat): nat { if wide then n % 32 else n % 16 }

    function InitAccs(seed: nat): Lanes
    {
      Lanes(Wrap(seed + prime1 + prime2), Wrap(seed + prime2), seed, Wrap(seed - prime1))
    }

    /** One stripe: each lane takes its own bytes. */
    function Round(acc: Lanes, data: bytes): Lanes
      requires |data| >= StripeLen()
    {
      Lanes(
        round(acc.v1, data[..LaneLen()]),
        round(acc.v2, data[LaneLen()..2 * LaneLen()]),
        round(acc.v3, data[2 * LaneLen()..3 * LaneLen()]),
        round(acc.v4, data[3 * LaneLen()..4 * LaneLen()]))
    }
  }

  datatype Lanes = Lanes(v1: nat, v2: nat, v3: nat, v4: nat)

  // ----- reference -----

  /** All complete stripes of the data. */
  function Rounds(v: Variant, acc: Lanes, data: bytes): Lanes
    decreases |data|
  {
    if |data| < v.StripeLen() then acc
    else Rounds(v, v.Round(acc, data), data[v.StripeLen()..])
  }

  /** What remains after the complete stripes. */
  function Tail(v: Variant, data: bytes): (t: bytes)
    ensures |t| < v.StripeLen() && |t| <= |data|
    decreases |data|
  {
    if |data| < v.StripeLen() then data else Tail(v, data[v.StripeLen()..])
  }

  ghost function OneShot(v: Variant, seed: nat, input: bytes): nat
  {
    var start := if |input| >= v.StripeLen() then v.merge(Rounds(v, v.InitAccs(seed), input))
                 else v.Add(seed, v.prime5);
    v.finalize(v.Add(start, |input|), Tail(v, input))
  }

  lemma {:induction false} TailLength(v: Variant, data: bytes)
    ensures |Tail(v, data)| == v.Residue(|data|)
    decreases |data|
  {
    if |data| >= v.StripeLen() {
      TailLength(v, data[v.StripeLen()..]);
      OneStripeLess(v, |data|);
    } else {
      ShortResidue(v, |data|);
    }
  }

  lemma {:induction false} OneStripeLess(v: Variant, n: nat)
    requires n >= v.StripeLen()
    ensures v.Residue(n) == v.Residue(n - v.StripeLen())
  {
    if v.wide {
      Less32(n);
    } else {
      Less16(n);
    }
  }

  lemma {:induction false} Less32(n: nat)
    requires n >= 32
    ensures n % 32 == (n - 32) % 32
  {
  }

  lemma {:induction false} Less16(n: nat)
    requires n >= 16
    ensures n % 16 == (n - 16) % 16
  {
  }

  lemma {:induction false} ShortResidue(v: Variant, n: nat)
    requires n < v.StripeLen()
    ensures v.Residue(n) == n
  {
  }

  lemma {:induction false} RoundsAppend(v: Variant, acc: Lanes, data: bytes, more: bytes)
    ensures Rounds(v, acc, data + more) == Rounds(v, Rounds(v, acc, data), Tail(v, data) + more)
    ensures Tail(v, data + more) == Tail(v, Tail(v, data) + more)
    decreases |data|
  {
    if |data| >= v.StripeLen() {
      var s := v.StripeLen();
      assert (data + more)[s..] == data[s..] + more;
      RoundSame(v, acc, data, data + more);
      RoundsAppend(v, v.Round(acc, data), data[s..], more);
    }
  }

  lemma {:induction false} RoundSame(v: Variant, acc: Lanes, data: bytes, more: bytes)
    requires data <= more && |data| >= v.StripeLen()
    ensures v.Round(acc, data) == v.Round(acc, more)
  {
    var n := v.LaneLen();
    assert data[..n] == more[..n] && data[n..2 * n] == more[n..2 * n];
    assert data[2 * n..3 * n] == more[2 * n..3 * n] && data[3 * n..4 * n] == more[3 * n..4 * n];
  }

  // ----- one-shot -----

  /** The loop over stripes; it is entered only when there is one. */
  method ConsumeLong(v: Variant, acc0: Lanes, data: bytes) returns (acc: Lanes, rest: bytes)
    requires |data| >= v.StripeLen()
    ensures acc == Rounds(v, acc0, data) && rest == Tail(v, data)
  {
    acc, rest := acc0, data;
    var first := true;
    while first || |rest| >= v.StripeLen()
      invariant first ==> |rest| >= v.StripeLen()
      invariant Rounds(v, acc, rest) == Rounds(v, acc0, data) && Tail(v, rest) == Tail(v, data)
      decreases |rest|
    {
      acc := v.Round(acc, rest);
      rest := rest[v.StripeLen()..];
      first := false;
    }
  }

  method Hash(v: Variant, seed: nat, input: bytes) returns (r: nat)
    ensures r == OneShot(v, seed, input)
  {
    var start, rest := v.Add(seed, v.prime5), input;
    if |input| >= v.StripeLen() {
      var acc;
      acc, rest := ConsumeLong(v, v.InitAccs(seed), input);
      start := v.merge(acc);
    }
    r := v.finalize(v.Add(start, |input|), rest);
  }

  // ----- streaming -----

  ghost predicate Stands(v: Variant, seed: nat, fed: bytes, acc: Lanes, buf: bytes, size: nat) {
    && |buf| == v.StripeLen() && size < v.StripeLen()
    && acc == Rounds(v, v.InitAccs(seed), fed)
    && buf[..size] == Tail(v, fed)
  }

  lemma {:induction false} AppendStands(v: Variant, seed: nat, fed: bytes, acc: Lanes, input: bytes, buf: bytes, size: nat)
    requires acc == Rounds(v, v.InitAccs(seed), fed) && |buf| == v.StripeLen() && size < v.StripeLen()
    requires buf[..size] == Tail(v, fed) + input
    ensures Stands(v, seed, fed + input, acc, buf, size)
  {
    assert |Tail(v, fed) + input| == size;
    RoundsAppend(v, v.InitAccs(seed), fed, input);
  }

  lemma {:induction false} RoundsStand(v: Variant, seed: nat, fed: bytes, acc0: Lanes, input: bytes, acc: Lanes, buf: bytes, size: nat)
    requires acc0 == Rounds(v, v.InitAccs(seed), fed) && |buf| == v.StripeLen() && size < v.StripeLen()
    requires acc == Rounds(v, acc0, Tail(v, fed) + input) && buf[..size] == Tail(v, Tail(v, fed) + input)
    ensures Stands(v, seed, fed + input, acc, buf, size)
  {
    RoundsAppend(v, v.InitAccs(seed), fed, input);
  }

  /** The recorded length of `n` bytes may have wrapped; the flag tells. */
  ghost predicate Counted(v: Variant, n: nat, totalLen: nat, largeLen: bool) {
    totalLen == v.Wrap(n) && (largeLen <==> n >= v.StripeLen())
  }

  /** The buffered bytes are those after the last complete stripe. */
  lemma {:induction false} StandsSize(v: Variant, seed: nat, fed: bytes, acc: Lanes, buf: bytes, size: nat)
    requires Stands(v, seed, fed, acc, buf, size)
    ensures size == v.Residue(|fed|)
  {
    TailLength(v, fed);
  }

  class State {
    const v: Variant
    const seed: nat
    var acc: Lanes
    const buffer: array<byte>
    var bufferedSize: nat
    var totalLen: nat
    var largeLen: bool
    ghost var fed: bytes

    ghost predicate Valid()
      reads this, buffer
    {
      && Stands(v, seed, fed, acc, buffer[..], bufferedSize)
      && Counted(v, |fed|, totalLen, largeLen)
    }

    constructor Reset(v: Variant, seed: nat)
        ensures Valid() && fed == [] && this.v == v && this.seed == seed && fresh(buffer)
    {
      this.v, this.seed := v, seed;
      acc := v.InitAccs(seed);
      buffer := new byte[v.StripeLen()](_ => 0);
      bufferedSize, totalLen, largeLen := 0, 0, false;
      fed := [];
    }

    method CopyToBuffer(offset: nat, data: bytes)
      requires offset + |data| <= buffer.Length
      modifies buffer
      ensures buffer[..offset + |data|] == old(buffer[..offset]) + data
    {
      forall i | 0 <= i < |data| {
        buffer[offset + i] := data[i];
      }
    }

    /** `largeLen` tells the real total apart although the recorded one wraps. */
    method Update(input: bytes)
      requires Valid()
      modifies this, buffer
      ensures Valid() && fed == old(fed) + input
    {
      Count(|input|);
      Take(input);
      assert |fed| == |old(fed)| + |input|;
    }

    method Count(len: nat)
      requires Counted(v, |fed|, totalLen, largeLen)
      modifies this`totalLen, this`largeLen
      ensures Counted(v, |fed| + len, totalLen, largeLen)
    {
      LengthUpdate(v, |fed|, len);
      totalLen := v.Add(totalLen, len);
      largeLen := largeLen || len >= v.StripeLen() || totalLen >= v.StripeLen();
    }

    method Take(input: bytes)
      requires Stands(v, seed, fed, acc, buffer[..], bufferedSize)
      modifies this`acc, this`bufferedSize, this`fed, buffer
      ensures Stands(v, seed, fed, acc, buffer[..], bufferedSize)
      ensures fed == old(fed) + input
    {
      ghost var tail := buffer[..bufferedSize];
      assert tail == buffer[..][..bufferedSize];
      if |input| < v.StripeLen() - bufferedSize {
        CopyToBuffer(bufferedSize, input);
        bufferedSize := bufferedSize + |input|;
        assert buffer[..][..bufferedSize] == tail + input;
        AppendStands(v, seed, fed, acc, input, buffer[..], bufferedSize);
      } else {
        ghost var acc0 := acc;
        TakeLong(input);
        RoundsStand(v, seed, fed, acc0, input, acc, buffer[..], bufferedSize);
      }
      fed := fed + input;
    }

    /** The case where at least one stripe is complete. */
    method TakeLong(input: bytes)
      requires buffer.Length == v.StripeLen() && bufferedSize < v.StripeLen() <= bufferedSize + |input|
      modifies this`acc, this`bufferedSize, buffer
      ensures acc == Rounds(v, old(acc), old(buffer[..bufferedSize]) + input)
      ensures bufferedSize < v.StripeLen()
      ensures buffer[..][..bufferedSize] == Tail(v, old(buffer[..bufferedSize]) + input)
    {
      var rest := CompleteBuffer(input);
      if |rest| >= v.StripeLen() {
        acc, rest := ConsumeLong(v, acc, rest);
      }
      if rest != [] {
        CopyToBuffer(0, rest);
        bufferedSize := |rest|;
      }
      assert buffer[..][..bufferedSize] == rest;
    }

    /** Completes and consumes a buffer that is not empty. */
    method CompleteBuffer(input: bytes) returns (rest: bytes)
      requires buffer.Length == v.StripeLen() && bufferedSize < v.StripeLen() <= bufferedSize + |input|
      modifies this`acc, this`bufferedSize, buffer
      ensures bufferedSize == 0 && |rest| <= |input|
      ensures Rounds(v, acc, rest) == Rounds(v, old(acc), old(buffer[..bufferedSize]) + input)
      ensures Tail(v, rest) == Tail(v, old(buffer[..bufferedSize]) + input)
    {
      if bufferedSize == 0 {
        assert buffer[..0] + input == input;
        return input;
      }
      var load := v.StripeLen() - bufferedSize;
      ghost var all := buffer[..bufferedSize] + input;
      CopyToBuffer(bufferedSize, input[..load]);
      assert all == buffer[..] + input[load..];
      RoundSame(v, acc, buffer[..], all);
      rest := input[load..];
      assert all[v.StripeLen()..] == rest;
      acc := OneRound(v, acc, buffer[..]);
      bufferedSize := 0;
    }

    /** XXH32: the flag decides whether the lanes are merged. */
    method Digest32() returns (r: nat)
      requires Valid()
      ensures r == OneShot(v, seed, fed)
    {
      var start := if largeLen then v.merge(acc) else v.Add(acc.v3, v.prime5);
      SumWraps(v, start, |fed|);
      r := v.finalize(v.Add(start, totalLen), buffer[..][..bufferedSize]);
    }

    /** XXH64: the recorded length decides, and also tells how many bytes are buffered. */
    method Digest64() returns (r: nat)
      requires Valid() && |fed| < v.Modulus()
      ensures r == OneShot(v, seed, fed)
    {
      StandsSize(v, seed, fed, acc, buffer[..], bufferedSize);
      NoWrap(v, |fed|);
      var start := if totalLen >= v.StripeLen() then v.merge(acc) else v.Add(acc.v3, v.prime5);
      r := v.finalize(v.Add(start, totalLen), buffer[..][..v.Residue(totalLen)]);
    }
  }

  /** Streaming in any chunks equals hashing in one go; a 32-bit total may wrap any number of times. */
  method HashChunks(v: Variant, seed: nat, chunks: seq<bytes>) returns (r: nat)
    requires v.wide ==> |Flatten(chunks)| < TWO_64
    ensures r == OneShot(v, seed, Flatten(chunks))
  {
    var state := new State.Reset(v, seed);
    for i := 0 to |chunks|
      invariant state.Valid() && state.v == v && state.seed == seed && state.fed == Flatten(chunks[..i])
      invariant fresh(state) && fresh(state.buffer)
    {
      assert chunks[..i + 1][..i] == chunks[..i];
      state.Update(chunks[i]);
    }
    assert chunks[..|chunks|] == chunks;
    if v.wide {
      r := state.Digest64();
    } else {
      r := state.Digest32();
    }
  }

  method OneRound(v: Variant, acc0: Lanes, data: bytes) returns (acc: Lanes)
    requires |data| == v.StripeLen()
    ensures acc == v.Round(acc0, data)
  {
    var rest;
    acc, rest := ConsumeLong(v, acc0, data);
    assert Rounds(v, v.Round(acc0, data), data[v.StripeLen()..]) == v.Round(acc0, data);
  }

  lemma {:induction false} NoWrap(v: Variant, n: nat)
    requires n < v.Modulus()
    ensures v.Wrap(n) == n
  {
  }

  lemma {:induction false} SumWraps(v: Variant, a: nat, n: nat)
    ensures v.Add(a, v.Wrap(n)) == v.Add(a, n)
  {
  }

  lemma {:induction false} WrapAdd(v: Variant, a: nat, b: nat)
    ensures v.Add(v.Wrap(a), b) == v.Wrap(a + b)
  {
  }

  lemma {:induction false} WrapBelow(v: Variant, n: nat)
    ensures v.Wrap(n) <= n
  {
  }

  /** How the recorded length and the flag follow the real length. */
  lemma {:induction false} LengthUpdate(v: Variant, before: nat, len: nat)
    ensures var total := v.Add(v.Wrap(before), len);
      && total == v.Wrap(before + len)
      && (before >= v.StripeLen() || len >= v.StripeLen() || total >= v.StripeLen() <==> before + len >= v.StripeLen())
  {
    WrapAdd(v, before, len);
    WrapBelow(v, before + len);
    if before + len < v.Modulus() {
      NoWrap(v, before + len);
    }
  }
}
