/**
 XXH3's long-input schedule: which stripe is mixed with which window of the
 secret, and when the accumulators are scrambled. The mixing rounds themselves
 are parameters.
 */
module Xxh3 {
  import opened Prelude
  import opened Modular

  const STRIPE_LEN: nat := 64
  const CONSUME_RATE: nat := 8
  const SECRET_SIZE_MIN: nat := 136
  const MIDSIZE_MAX: nat := 240
  const BUFFER_SIZE: nat := 256
  const LASTACC_START: nat := 7
  const MERGEACCS_START: nat := 11
  const PRIME64_1: nat := 0x9E3779B185EBCA87

  /** The rounds: one stripe, one scramble, the final merge, and the hash of a short input. */
  datatype Rounds<!A, !H> = Rounds(
    init: A,
    accumulate: (A, seq<Byte>, seq<Byte>) -> A,
    scramble: (A, seq<Byte>) -> A,
    merge: (A, seq<Byte>, nat) -> H,
    short: (seq<Byte>, seq<Byte>) -> H)

  /** The accumulators and how many stripes of the current block they have taken. */
  datatype Progress<A> = Progress(acc: A, soFar: nat)

  predicate GoodSecret(secret: seq<Byte>) {
    |secret| >= SECRET_SIZE_MIN
  }

  function StripesPerBlock(secret: seq<Byte>): (n: nat)
    requires GoodSecret(secret)
    ensures n >= 9 && CONSUME_RATE * n + STRIPE_LEN <= |secret|
  {
    (|secret| - STRIPE_LEN) / CONSUME_RATE
  }

  /** The window of the secret that stripe `i` of a block is mixed with. */
  function Window(secret: seq<Byte>, i: nat): (w: seq<Byte>)
    requires GoodSecret(secret) && i < StripesPerBlock(secret)
    ensures |w| == STRIPE_LEN
  {
    secret[CONSUME_RATE * i..CONSUME_RATE * i + STRIPE_LEN]
  }

  function Stripe(input: seq<Byte>, i: nat): (s: seq<Byte>)
    requires STRIPE_LEN * (i + 1) <= |input|
    ensures |s| == STRIPE_LEN
  {
    input[STRIPE_LEN * i..STRIPE_LEN * (i + 1)]
  }

  /** One stripe: a block that is complete is scrambled at once. */
  function Next<A, H>(rounds: Rounds<A, H>, secret: seq<Byte>, p: Progress<A>, stripe: seq<Byte>): (q: Progress<A>)
    requires GoodSecret(secret) && p.soFar < StripesPerBlock(secret) && |stripe| == STRIPE_LEN
    ensures q.soFar < StripesPerBlock(secret)
  {
    var acc := rounds.accumulate(p.acc, stripe, Window(secret, p.soFar));
    if p.soFar + 1 == StripesPerBlock(secret) then
      Progress(rounds.scramble(acc, secret[|secret| - STRIPE_LEN..]), 0)
    else Progress(acc, p.soFar + 1)
  }

  /** The first `n` stripes of `input`, one after the other. */
  function Absorb<A, H>(rounds: Rounds<A, H>, secret: seq<Byte>, p: Progress<A>, input: seq<Byte>, n: nat): (q: Progress<A>)
    requires GoodSecret(secret) && p.soFar < StripesPerBlock(secret) && STRIPE_LEN * n <= |input|
    ensures q.soFar < StripesPerBlock(secret)
  {
    if n == 0 then p
    else Next(rounds, secret, Absorb(rounds, secret, p, input, n - 1), Stripe(input, n - 1))
  }

  /** The hash of `data`: every full stripe before the last byte in turn, then the last 64 bytes. */
  function Hash<A, H>(rounds: Rounds<A, H>, secret: seq<Byte>, data: seq<Byte>): H
    requires GoodSecret(secret)
  {
    if |data| <= MIDSIZE_MAX then rounds.short(data, secret)
    else
      var p := Absorb(rounds, secret, Progress(rounds.init, 0), data, (|data| - 1) / STRIPE_LEN);
      Finish(rounds, secret, p.acc, data[|data| - STRIPE_LEN..], |data|)
  }

  function Finish<A, H>(rounds: Rounds<A, H>, secret: seq<Byte>, acc: A, last: seq<Byte>, len: nat): H
    requires GoodSecret(secret)
  {
    var window := secret[|secret| - STRIPE_LEN - LASTACC_START..|secret| - LASTACC_START];
    rounds.merge(rounds.accumulate(acc, last, window),
                 secret[MERGEACCS_START..MERGEACCS_START + STRIPE_LEN],
                 (len * PRIME64_1) % 0x1_0000_0000_0000_0000)
  }

  // ----- Splitting the fold -----

  lemma AbsorbNone<A, H>(rounds: Rounds<A, H>, secret: seq<Byte>, p: Progress<A>, input: seq<Byte>)
    requires GoodSecret(secret) && p.soFar < StripesPerBlock(secret)
    ensures Absorb(rounds, secret, p, input, 0) == p
  {
  }

  lemma {:induction false} AbsorbSame<A, H>(rounds: Rounds<A, H>, secret: seq<Byte>, p: Progress<A>, a: seq<Byte>, b: seq<Byte>, n: nat)
    requires GoodSecret(secret) && p.soFar < StripesPerBlock(secret)
    requires STRIPE_LEN * n <= |a| && STRIPE_LEN * n <= |b| && a[..STRIPE_LEN * n] == b[..STRIPE_LEN * n]
    ensures Absorb(rounds, secret, p, a, n) == Absorb(rounds, secret, p, b, n)
  {
    if n > 0 {
      var m := STRIPE_LEN * (n - 1);
      assert a[..m] == a[..STRIPE_LEN * n][..m] && b[..m] == b[..STRIPE_LEN * n][..m];
      assert Stripe(a, n - 1) == a[..STRIPE_LEN * n][m..] && Stripe(b, n - 1) == b[..STRIPE_LEN * n][m..];
      AbsorbSame(rounds, secret, p, a, b, n - 1);
    }
  }

  /** Absorbing `m` stripes and then `n` more is absorbing `m + n`. */
  lemma {:induction false} AbsorbMore<A, H>(rounds: Rounds<A, H>, secret: seq<Byte>, p: Progress<A>, data: seq<Byte>, m: nat, input: seq<Byte>, n: nat)
    requires GoodSecret(secret) && p.soFar < StripesPerBlock(secret)
    requires STRIPE_LEN * (m + n) <= |data| && STRIPE_LEN * n <= |input|
    requires input[..STRIPE_LEN * n] == data[STRIPE_LEN * m..STRIPE_LEN * (m + n)]
    ensures Absorb(rounds, secret, p, data, m + n)
         == Absorb(rounds, secret, Absorb(rounds, secret, p, data, m), input, n)
  {
    if n > 0 {
      var k := STRIPE_LEN * (n - 1);
      var all := data[STRIPE_LEN * m..STRIPE_LEN * (m + n)];
      assert input[..k] == input[..STRIPE_LEN * n][..k] == all[..k];
      assert all[..k] == data[STRIPE_LEN * m..STRIPE_LEN * (m + n - 1)];
      assert Stripe(input, n - 1) == input[..STRIPE_LEN * n][k..];
      assert Stripe(data, m + n - 1) == all[k..];
      AbsorbMore(rounds, secret, p, data, m, input, n - 1);
    }
  }

  // ----- A run of stripes within one block -----

  /** `n` stripes against consecutive windows of the secret from window `from`, without scrambling. */
  function RunOfStripes<A, H>(rounds: Rounds<A, H>, secret: seq<Byte>, acc: A, input: seq<Byte>, from: nat, n: nat): A
    requires GoodSecret(secret) && from + n <= StripesPerBlock(secret) && STRIPE_LEN * n <= |input|
  {
    if n == 0 then acc
    else rounds.accumulate(RunOfStripes(rounds, secret, acc, input, from, n - 1), Stripe(input, n - 1), Window(secret, from + n - 1))
  }

  /** A run that does not fill the block leaves the accumulators as they are; one that fills it scrambles them. */
  lemma {:induction false} RunIsAbsorb<A, H>(rounds: Rounds<A, H>, secret: seq<Byte>, acc: A, input: seq<Byte>, from: nat, n: nat)
    requires GoodSecret(secret) && from < StripesPerBlock(secret)
    requires from + n <= StripesPerBlock(secret) && STRIPE_LEN * n <= |input|
    ensures from + n < StripesPerBlock(secret) ==>
      Absorb(rounds, secret, Progress(acc, from), input, n)
      == Progress(RunOfStripes(rounds, secret, acc, input, from, n), from + n)
    ensures from + n == StripesPerBlock(secret) ==>
      Absorb(rounds, secret, Progress(acc, from), input, n)
      == Progress(rounds.scramble(RunOfStripes(rounds, secret, acc, input, from, n), secret[|secret| - STRIPE_LEN..]), 0)
  {
    if n > 0 {
      RunIsAbsorb(rounds, secret, acc, input, from, n - 1);
    }
  }

  method Accumulate<A, H>(rounds: Rounds<A, H>, secret: seq<Byte>, acc0: A, input: seq<Byte>, from: nat, n: nat) returns (acc: A)
    requires GoodSecret(secret) && from + n <= StripesPerBlock(secret) && STRIPE_LEN * n <= |input|
    ensures acc == RunOfStripes(rounds, secret, acc0, input, from, n)
  {
    acc := acc0;
    for i := 0 to n
      invariant acc == RunOfStripes(rounds, secret, acc0, input, from, i)
    {
      acc := rounds.accumulate(acc, input[i * STRIPE_LEN..(i + 1) * STRIPE_LEN],
                               secret[(from + i) * CONSUME_RATE..(from + i) * CONSUME_RATE + STRIPE_LEN]);
    }
  }

  /** Stripes that complete the current block: accumulate, then scramble. `data` is what the fold runs over. */
  method FillBlock<A, H>(rounds: Rounds<A, H>, secret: seq<Byte>, acc0: A, input: seq<Byte>, from: nat, n: nat,
                         ghost p0: Progress<A>, ghost data: seq<Byte>, ghost m: nat) returns (acc: A)
    requires GoodSecret(secret) && from < StripesPerBlock(secret) == from + n && p0.soFar < StripesPerBlock(secret)
    requires STRIPE_LEN * (m + n) <= |data| && input == data[STRIPE_LEN * m..]
    requires Progress(acc0, from) == Absorb(rounds, secret, p0, data, m)
    ensures Progress(acc, 0) == Absorb(rounds, secret, p0, data, m + n)
  {
    AbsorbMore(rounds, secret, p0, data, m, input, n);
    RunIsAbsorb(rounds, secret, acc0, input, from, n);
    acc := Accumulate(rounds, secret, acc0, input, from, n);
    acc := rounds.scramble(acc, secret[|secret| - STRIPE_LEN..]);
  }

  /** Stripes that leave the current block unfinished: accumulate only. */
  method StartBlock<A, H>(rounds: Rounds<A, H>, secret: seq<Byte>, acc0: A, input: seq<Byte>, from: nat, n: nat,
                          ghost p0: Progress<A>, ghost data: seq<Byte>, ghost m: nat) returns (acc: A)
    requires GoodSecret(secret) && from + n < StripesPerBlock(secret) && p0.soFar < StripesPerBlock(secret)
    requires STRIPE_LEN * (m + n) <= |data| && input == data[STRIPE_LEN * m..]
    requires Progress(acc0, from) == Absorb(rounds, secret, p0, data, m)
    ensures Progress(acc, from + n) == Absorb(rounds, secret, p0, data, m + n)
  {
    AbsorbMore(rounds, secret, p0, data, m, input, n);
    RunIsAbsorb(rounds, secret, acc0, input, from, n);
    acc := Accumulate(rounds, secret, acc0, input, from, n);
  }

  // ----- One-shot -----

  lemma BlockArithmetic(len: nat, perBlock: nat)
    requires len > 0 && perBlock > 0
    ensures var blocks := (len - 1) / (STRIPE_LEN * perBlock);
      var rest := (len - 1) - (STRIPE_LEN * perBlock) * blocks;
      0 <= rest && rest / STRIPE_LEN < perBlock && blocks * perBlock + rest / STRIPE_LEN == (len - 1) / STRIPE_LEN
  {
    var bl := STRIPE_LEN * perBlock;
    var blocks := (len - 1) / bl;
    var rest := (len - 1) - bl * blocks;
    assert rest == (len - 1) % bl;
    assert bl * blocks == STRIPE_LEN * (blocks * perBlock);
    assert len - 1 == STRIPE_LEN * (blocks * perBlock) + rest;
  }

  /** Where block `n` begins. */
  function BlockAt(n: nat, perBlock: nat): nat {
    n * (STRIPE_LEN * perBlock)
  }

  lemma Stripes(n: nat, p: nat)
    ensures n * (STRIPE_LEN * p) == STRIPE_LEN * (n * p)
  {
  }

  lemma BlockEnd(n: nat, len: nat, perBlock: nat)
    requires len > 0 && perBlock > 0 && n < (len - 1) / (STRIPE_LEN * perBlock)
    ensures BlockAt(n, perBlock) == STRIPE_LEN * (n * perBlock)
    ensures BlockAt(n + 1, perBlock) == STRIPE_LEN * ((n + 1) * perBlock) < len
    ensures (n + 1) * perBlock == n * perBlock + perBlock
  {
    var bl := STRIPE_LEN * perBlock;
    MulUpTo(n + 1, (len - 1) / bl, bl);
    assert (len - 1) / bl * bl <= len - 1;
    Stripes(n, perBlock);
    Stripes(n + 1, perBlock);
    assert (n + 1) * perBlock == n * perBlock + perBlock;
  }

  lemma BlocksDone(len: nat, perBlock: nat, blocks: nat)
    requires len > 0 && perBlock > 0 && blocks == (len - 1) / (STRIPE_LEN * perBlock)
    ensures var rest := (len - 1) - BlockAt(blocks, perBlock);
      0 <= rest && rest / STRIPE_LEN < perBlock && BlockAt(blocks, perBlock) == STRIPE_LEN * (blocks * perBlock)
      && blocks * perBlock + rest / STRIPE_LEN == (len - 1) / STRIPE_LEN
  {
    hide BlockAt;
    BlockArithmetic(len, perBlock);
    BlockStart(blocks, perBlock);
  }

  lemma BlockStart(n: nat, perBlock: nat)
    ensures BlockAt(n, perBlock) == STRIPE_LEN * (n * perBlock) == (STRIPE_LEN * perBlock) * n
  {
    Stripes(n, perBlock);
  }

  /** The one-shot loop over whole blocks, the partial block and the last stripe. */
  method HashLong<A, H>(rounds: Rounds<A, H>, secret: seq<Byte>, data: seq<Byte>) returns (h: H)
    requires GoodSecret(secret) && |data| > MIDSIZE_MAX
    ensures h == Hash(rounds, secret, data)
  {
    hide Absorb, StripesPerBlock, BlockAt, Finish;
    var perBlock := StripesPerBlock(secret);
    var blocks := (|data| - 1) / (STRIPE_LEN * perBlock);
    ghost var p0 := Progress(rounds.init, 0);
    BlocksDone(|data|, perBlock, blocks);
    var acc := rounds.init;
    var n := 0;
    ghost var s := 0;
    AbsorbNone(rounds, secret, p0, data);
    NoBlocks(perBlock);
    while n < blocks
      invariant 0 <= n <= blocks && s == n * perBlock && BlockAt(n, perBlock) == STRIPE_LEN * s <= |data|
      invariant Progress(acc, 0) == Absorb(rounds, secret, p0, data, s)
    {
      BlockEnd(n, |data|, perBlock);
      acc := FillBlock(rounds, secret, acc, data[BlockAt(n, perBlock)..], 0, perBlock, p0, data, s);
      s := s + perBlock;
      n := n + 1;
    }
    var nbStripes := (|data| - 1 - BlockAt(blocks, perBlock)) / STRIPE_LEN;
    acc := StartBlock(rounds, secret, acc, data[BlockAt(blocks, perBlock)..], 0, nbStripes, p0, data, s);
    h := Finish(rounds, secret, acc, data[|data| - STRIPE_LEN..], |data|);
  }

  lemma NoBlocks(perBlock: nat)
    ensures BlockAt(0, perBlock) == 0
  {
  }

  method OneShot<A, H>(rounds: Rounds<A, H>, secret: seq<Byte>, data: seq<Byte>) returns (h: H)
    requires GoodSecret(secret)
    ensures h == Hash(rounds, secret, data)
  {
    if |data| <= MIDSIZE_MAX {
      h := rounds.short(data, secret);
    } else {
      h := HashLong(rounds, secret, data);
    }
  }

  // ----- Streaming -----

  /**
   Consumes stripes that may cross block boundaries: finish the current block,
   then whole blocks, then the start of the next one.
   */
  method ConsumeStripes<A, H>(rounds: Rounds<A, H>, secret: seq<Byte>, acc0: A, soFar0: nat, input: seq<Byte>, nbStripes: nat)
      returns (acc: A, soFar: nat)
    requires GoodSecret(secret) && soFar0 < StripesPerBlock(secret) && STRIPE_LEN * nbStripes <= |input|
    ensures Progress(acc, soFar) == Absorb(rounds, secret, Progress(acc0, soFar0), input, nbStripes)
  {
    hide Absorb, StripesPerBlock;
    var perBlock := StripesPerBlock(secret);
    ghost var p0 := Progress(acc0, soFar0);
    AbsorbNone(rounds, secret, p0, input);
    var left, done := nbStripes, 0;
    acc, soFar := acc0, soFar0;
    var from := soFar0;
    if left >= perBlock - soFar {
      var thisIter := perBlock - soFar;
      var first := true;
      while first || left >= perBlock
        invariant 0 <= left && 0 <= done && left + done == nbStripes && from < perBlock
        invariant first ==> from == soFar0 && thisIter == perBlock - soFar0 && left >= thisIter
        invariant !first ==> from == 0 && thisIter == perBlock
        invariant Progress(acc, from) == Absorb(rounds, secret, p0, input, done)
        decreases left
      {
        acc := FillBlock(rounds, secret, acc, input[STRIPE_LEN * done..], from, thisIter, p0, input, done);
        done := done + thisIter;
        left := left - thisIter;
        thisIter, from := perBlock, 0;
        first := false;
      }
      soFar := 0;
    }
    if left > 0 {
      acc := StartBlock(rounds, secret, acc, input[STRIPE_LEN * done..], from, left, p0, input, done);
      soFar := soFar + left;
    }
  }
}
