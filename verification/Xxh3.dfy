/** XXH3: the one-shot form for long inputs and the buffered streaming form, for arbitrary
    accumulate and scramble functions. */
module Xxh3 {
  import opened Bytes

  const STRIPE_LEN: nat := 64
  const CONSUME_RATE: nat := 8
  const SECRET_SIZE_MIN: nat := 136
  const BUFFER_SIZE: nat := 256
  const BUFFER_STRIPES: nat := 4
  const MIDSIZE_MAX: nat := 240
  const LASTACC_START: nat := 7

  /** The parts of the algorithm the bookkeeping does not depend on. */
  datatype Hasher<!A, !H> = Hasher(
    init: A,
    accumulate512: (A, bytes, bytes) -> A,
    scramble: (A, bytes) -> A,
    hashShort: bytes -> H,
    finalizeLong: (A, nat) -> H,
    secret: bytes)
  {
    ghost predicate Valid() { |secret| >= SECRET_SIZE_MIN }

    function SecretLimit(): nat
      requires Valid()
    {
      |secret| - STRIPE_LEN
    }

    function StripesPerBlock(): (n: nat)
      requires Valid()
      ensures n >= 9 && CONSUME_RATE * n <= SecretLimit()
    {
      SecretLimit() / CONSUME_RATE
    }

    /** One stripe with the secret at a position of the block. */
    function Mix(acc: A, stripe: bytes, pos: nat): A
      requires Valid() && pos < StripesPerBlock()
    {
      accumulate512(acc, stripe, secret[pos * CONSUME_RATE..pos * CONSUME_RATE + STRIPE_LEN])
    }

    function Scramble(acc: A): A
      requires Valid()
    {
      scramble(acc, secret[SecretLimit()..])
    }

    function Last(acc: A, stripe: bytes): A
      requires Valid()
    {
      accumulate512(acc, stripe, secret[SecretLimit() - LASTACC_START..SecretLimit() - LASTACC_START + STRIPE_LEN])
    }
  }

  /** The accumulators and the position in the current block. */
  datatype Lane<A> = Lane(acc: A, pos: nat)

  // ----- reference: stripe after stripe -----

  function Stripe(data: bytes, k: nat): bytes
    requires STRIPE_LEN * (k + 1) <= |data|
  {
    data[STRIPE_LEN * k..STRIPE_LEN * (k + 1)]
  }

  /** One stripe; the accumulators are scrambled as soon as a block is complete. */
  function Step<A, H>(h: Hasher<A, H>, s: Lane<A>, stripe: bytes): (r: Lane<A>)
    requires h.Valid() && s.pos < h.StripesPerBlock()
    ensures r.pos < h.StripesPerBlock()
  {
    var a := h.Mix(s.acc, stripe, s.pos);
    if s.pos + 1 == h.StripesPerBlock() then Lane(h.Scramble(a), 0) else Lane(a, s.pos + 1)
  }

  /** The first `m` stripes of `data`, one after the other. */
  function Feed<A, H>(h: Hasher<A, H>, s: Lane<A>, data: bytes, m: nat): (r: Lane<A>)
    requires h.Valid() && s.pos < h.StripesPerBlock() && STRIPE_LEN * m <= |data|
    ensures r.pos < h.StripesPerBlock()
  {
    if m == 0 then s else Step(h, Feed(h, s, data, m - 1), Stripe(data, m - 1))
  }

  /** All complete stripes but the last bytes, then the last stripe, which may overlap. */
  ghost function LongHash<A, H>(h: Hasher<A, H>, input: bytes): H
    requires h.Valid() && |input| > MIDSIZE_MAX
  {
    var k := (|input| - 1) / STRIPE_LEN;
    var s := Feed(h, Lane(h.init, 0), input, k);
    h.finalizeLong(h.Last(s.acc, input[|input| - STRIPE_LEN..]), |input|)
  }

  ghost function OneShot<A, H>(h: Hasher<A, H>, input: bytes): H
    requires h.Valid()
  {
    if |input| <= MIDSIZE_MAX then h.hashShort(input) else LongHash(h, input)
  }

  lemma {:induction false} FeedPrefix<A, H>(h: Hasher<A, H>, s: Lane<A>, data: bytes, more: bytes, m: nat)
    requires h.Valid() && s.pos < h.StripesPerBlock() && STRIPE_LEN * m <= |data|
    requires data <= more
    ensures Feed(h, s, data, m) == Feed(h, s, more, m)
  {
    if m > 0 {
      FeedPrefix(h, s, data, more, m - 1);
      assert Stripe(data, m - 1) == Stripe(more, m - 1);
    }
  }

  /** Feeding can be cut at any stripe. */
  lemma {:induction false} FeedSplit<A, H>(h: Hasher<A, H>, s: Lane<A>, data: bytes, m: nat, rest: bytes, n: nat)
    requires h.Valid() && s.pos < h.StripesPerBlock()
    requires STRIPE_LEN * m <= |data| && rest == data[STRIPE_LEN * m..] && STRIPE_LEN * n <= |rest|
    ensures Feed(h, s, data, m + n) == Feed(h, Feed(h, s, data, m), rest, n)
  {
    if n > 0 {
      FeedSplit(h, s, data, m, rest, n - 1);
      StripeShift(data, m, rest, n - 1);
    }
  }

  lemma {:induction false} StripeShift(data: bytes, m: nat, rest: bytes, n: nat)
    requires STRIPE_LEN * m <= |data| && rest == data[STRIPE_LEN * m..] && STRIPE_LEN * (n + 1) <= |rest|
    ensures STRIPE_LEN * (m + n + 1) <= |data| && Stripe(data, m + n) == Stripe(rest, n)
  {
  }

  // ----- accumulate -----

  /** Stripes of one block, without scrambling. */
  function Raw<A, H>(h: Hasher<A, H>, acc: A, pos: nat, data: bytes, m: nat): A
    requires h.Valid() && pos + m <= h.StripesPerBlock() && STRIPE_LEN * m <= |data|
  {
    if m == 0 then acc else h.Mix(Raw(h, acc, pos, data, m - 1), Stripe(data, m - 1), pos + m - 1)
  }

  lemma {:induction false} RawIsFeed<A, H>(h: Hasher<A, H>, acc: A, pos: nat, data: bytes, m: nat)
    requires h.Valid() && pos < h.StripesPerBlock() && pos + m <= h.StripesPerBlock() && STRIPE_LEN * m <= |data|
    ensures Feed(h, Lane(acc, pos), data, m)
         == if pos + m == h.StripesPerBlock() then Lane(h.Scramble(Raw(h, acc, pos, data, m)), 0)
            else Lane(Raw(h, acc, pos, data, m), pos + m)
  {
    if m > 0 {
      RawIsFeed(h, acc, pos, data, m - 1);
    }
  }

  /** Accumulating part of a block advances the feed; completing it also takes a scramble. */
  lemma {:induction false} Advance<A, H>(h: Hasher<A, H>, s: Lane<A>, data: bytes, done: nat, now: Lane<A>, rest: bytes, m: nat)
    requires h.Valid() && s.pos < h.StripesPerBlock() && STRIPE_LEN * done <= |data|
    requires now == Feed(h, s, data, done)
    requires rest == data[STRIPE_LEN * done..] && STRIPE_LEN * m <= |rest| && now.pos + m <= h.StripesPerBlock()
    ensures STRIPE_LEN * (done + m) <= |data| && rest[STRIPE_LEN * m..] == data[STRIPE_LEN * (done + m)..]
    ensures Feed(h, s, data, done + m)
         == if now.pos + m == h.StripesPerBlock() then Lane(h.Scramble(Raw(h, now.acc, now.pos, rest, m)), 0)
            else Lane(Raw(h, now.acc, now.pos, rest, m), now.pos + m)
  {
    RawIsFeed(h, now.acc, now.pos, rest, m);
    FeedSplit(h, s, data, done, rest, m);
  }

  /** The loop of the accumulate template. */
  method Accumulate<A, H>(h: Hasher<A, H>, acc0: A, data: bytes, pos: nat, nbStripes: nat) returns (acc: A)
    requires h.Valid() && pos + nbStripes <= h.StripesPerBlock() && STRIPE_LEN * nbStripes <= |data|
    ensures acc == Raw(h, acc0, pos, data, nbStripes)
  {
    acc := acc0;
    for n := 0 to nbStripes
      invariant acc == Raw(h, acc0, pos, data, n)
    {
      acc := h.Mix(acc, Stripe(data, n), pos + n);
    }
  }

  // ----- streaming consumption -----

  /** Completes the current block, then goes on as long as whole blocks remain. */
  method ConsumeBlocks<A, H>(h: Hasher<A, H>, acc0: A, soFar0: nat, data: bytes, nbStripes0: nat)
    returns (acc: A, input: bytes, nbStripes: nat, ghost done: nat)
    requires h.Valid() && soFar0 < h.StripesPerBlock() && STRIPE_LEN * nbStripes0 <= |data|
    requires h.StripesPerBlock() - soFar0 <= nbStripes0
    ensures nbStripes < h.StripesPerBlock() && done + nbStripes == nbStripes0
    ensures STRIPE_LEN * done <= |data| && input == data[STRIPE_LEN * done..]
    ensures Lane(acc, 0) == Feed(h, Lane(acc0, soFar0), data, done)
  {
    acc, nbStripes, input, done := acc0, nbStripes0, data, 0;
    ghost var start := Lane(acc0, soFar0);
    assert input == data[STRIPE_LEN * done..];
    var n := h.StripesPerBlock();
    var soFar, first := soFar0, true;
    while first || nbStripes >= n
      invariant first ==> soFar == soFar0 && n - soFar <= nbStripes
      invariant !first ==> soFar == 0
      invariant done + nbStripes == nbStripes0
      invariant STRIPE_LEN * done <= |data| && input == data[STRIPE_LEN * done..]
      invariant Lane(acc, soFar) == Feed(h, start, data, done)
      decreases nbStripes
    {
      var thisIter := n - soFar;
      Advance(h, start, data, done, Lane(acc, soFar), input, thisIter);
      acc := Accumulate(h, acc, input, soFar, thisIter);
      acc := h.Scramble(acc);
      input := input[STRIPE_LEN * thisIter..];
      nbStripes := nbStripes - thisIter;
      done := done + thisIter;
      first, soFar := false, 0;
    }
  }

  /** Stripes that do not complete the current block. */
  method ConsumeRest<A, H>(h: Hasher<A, H>, acc0: A, soFar: nat, input: bytes, nbStripes: nat,
                           ghost start: Lane<A>, ghost data: bytes, ghost done: nat) returns (acc: A)
    requires h.Valid() && start.pos < h.StripesPerBlock() && soFar + nbStripes < h.StripesPerBlock()
    requires STRIPE_LEN * (done + nbStripes) <= |data| && input == data[STRIPE_LEN * done..]
    requires Lane(acc0, soFar) == Feed(h, start, data, done)
    ensures Lane(acc, soFar + nbStripes) == Feed(h, start, data, done + nbStripes)
  {
    Advance(h, start, data, done, Lane(acc0, soFar), input, nbStripes);
    acc := Accumulate(h, acc0, input, soFar, nbStripes);
  }

  /** Stripes that may complete the current block and span others. */
  method ConsumeStripes<A, H>(h: Hasher<A, H>, acc0: A, soFar0: nat, data: bytes, nbStripes0: nat)
    returns (acc: A, soFar: nat)
    requires h.Valid() && soFar0 < h.StripesPerBlock() && STRIPE_LEN * nbStripes0 <= |data|
    ensures soFar < h.StripesPerBlock()
    ensures Lane(acc, soFar) == Feed(h, Lane(acc0, soFar0), data, nbStripes0)
  {
    acc, soFar := acc0, soFar0;
    var nbStripes: nat, input := nbStripes0, data;
    ghost var done := 0;
    assert input == data[STRIPE_LEN * done..];
    if nbStripes >= h.StripesPerBlock() - soFar {
      acc, input, nbStripes, done := ConsumeBlocks(h, acc, soFar, data, nbStripes);
      soFar := 0;
    }
    if nbStripes > 0 {
      acc := ConsumeRest(h, acc, soFar, input, nbStripes, Lane(acc0, soFar0), data, done);
      soFar := soFar + nbStripes;
    }
  }

  // ----- one-shot -----

  /** What whole blocks take of a long input. */
  lemma {:induction false} BlocksFit(len: nat, n: nat, blockLen: nat, blocks: nat, used: int)
    requires n > 0 && len > 0 && blockLen == STRIPE_LEN * n
    requires blocks == (len - 1) / blockLen && used == blockLen * blocks
    ensures 0 <= used <= len - 1 < used + blockLen
    ensures used == STRIPE_LEN * (blocks * n) == STRIPE_LEN * n * blocks
  {
    DivMod(len - 1, blockLen);
  }

  lemma {:induction false} StripesOfBlocks(len: nat, n: nat, k: nat, used: nat, rest: nat)
    requires used <= len - 1 < used + STRIPE_LEN * n && used == STRIPE_LEN * k
    requires rest == (len - 1 - used) / STRIPE_LEN
    ensures rest < n && k + rest == (len - 1) / STRIPE_LEN
  {
    SplitStripes(k, len - 1 - used);
  }

  lemma {:induction false} SplitStripes(k: nat, r: nat)
    ensures (STRIPE_LEN * k + r) / STRIPE_LEN == k + r / STRIPE_LEN
  {
  }

  lemma {:induction false} DivMod(a: nat, b: nat)
    requires b > 0
    ensures b * (a / b) <= a < b * (a / b) + b
  {
  }

  /** The whole blocks of a long input. */
  method HashBlocks<A, H>(h: Hasher<A, H>, input: bytes, nbBlocks: nat) returns (acc: A, done: nat)
    requires h.Valid() && STRIPE_LEN * h.StripesPerBlock() * nbBlocks <= |input|
    ensures done == nbBlocks * h.StripesPerBlock() && STRIPE_LEN * done <= |input|
    ensures Lane(acc, 0) == Feed(h, Lane(h.init, 0), input, done)
  {
    var n := h.StripesPerBlock();
    acc, done := h.init, 0;
    ghost var start := Lane(h.init, 0);
    for b := 0 to nbBlocks
      invariant done == b * n && STRIPE_LEN * done <= |input|
      invariant Lane(acc, 0) == Feed(h, start, input, done)
    {
      RoomForBlock(|input|, n, nbBlocks, b);
      var rest := input[STRIPE_LEN * done..];
      Advance(h, start, input, done, Lane(acc, 0), rest, n);
      acc := Accumulate(h, acc, rest, 0, n);
      acc := h.Scramble(acc);
      done := done + n;
    }
  }

  lemma {:induction false} RoomForBlock(len: nat, n: nat, blocks: nat, b: nat)
    requires b < blocks && STRIPE_LEN * n * blocks <= len
    ensures STRIPE_LEN * (b * n) + STRIPE_LEN * n <= len
    ensures (b + 1) * n == b * n + n
  {
    assert (b + 1) * n <= blocks * n;
  }

  lemma {:induction false} LongHashIs<A, H>(h: Hasher<A, H>, input: bytes, k: nat, s: Lane<A>)
    requires h.Valid() && MIDSIZE_MAX < |input| && k == (|input| - 1) / STRIPE_LEN && STRIPE_LEN * k <= |input|
    requires s == Feed(h, Lane(h.init, 0), input, k)
    ensures OneShot(h, input) == h.finalizeLong(h.Last(s.acc, input[|input| - STRIPE_LEN..]), |input|)
  {
  }

  /** How a long input is laid out in blocks and stripes. */
  method Layout(len: nat, n: nat) returns (nbBlocks: nat, nbStripes: nat)
    requires n > 0 && len > 0
    ensures nbStripes < n && STRIPE_LEN * n * nbBlocks <= len
    ensures nbBlocks * n + nbStripes == (len - 1) / STRIPE_LEN
  {
    var blockLen := STRIPE_LEN * n;
    nbBlocks := (len - 1) / blockLen;
    var used := blockLen * nbBlocks;
    BlocksFit(len, n, blockLen, nbBlocks, used);
    nbStripes := (len - 1 - used) / STRIPE_LEN;
    StripesOfBlocks(len, n, nbBlocks * n, used, nbStripes);
  }

  /** The one-shot form of a long input. */
  method HashLong<A, H>(h: Hasher<A, H>, input: bytes) returns (r: H)
    requires h.Valid() && MIDSIZE_MAX < |input|
    ensures r == OneShot(h, input)
  {
    var nbBlocks, nbStripes := Layout(|input|, h.StripesPerBlock());
    var acc, done := HashBlocks(h, input, nbBlocks);
    var rest := input[STRIPE_LEN * done..];
    Advance(h, Lane(h.init, 0), input, done, Lane(acc, 0), rest, nbStripes);
    acc := Accumulate(h, acc, rest, 0, nbStripes);
    LongHashIs(h, input, done + nbStripes, Lane(acc, nbStripes));
    acc := h.Last(acc, input[|input| - STRIPE_LEN..]);
    r := h.finalizeLong(acc, |input|);
  }
}
