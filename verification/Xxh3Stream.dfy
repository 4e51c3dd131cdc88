/**
 XXH3's streaming state: a 256-byte buffer in front of the accumulators. The
 digest after any sequence of updates is the one-shot hash of all the bytes.
 */
module Xxh3Stream {
  import opened Prelude
  import opened Modular
  import opened Xxh3

  /** The total length is kept in 64 bits. */
  const WORD: nat := 0x1_0000_0000_0000_0000

  function Wrapped(n: nat): (r: nat)
    ensures r <= n && r < WORD
  {
    n % WORD
  }

  lemma WrappedAdd(n: nat, k: nat)
    ensures (Wrapped(n) + k) % WORD == Wrapped(n + k)
  {
    ModAdd(k, n, WORD);
  }

  /** A length whose wrapped form says whether the input was long. */
  predicate Telling(n: nat) {
    n <= MIDSIZE_MAX || Wrapped(n) > MIDSIZE_MAX
  }

  lemma NotWrapped(n: nat)
    requires n < WORD
    ensures Wrapped(n) == n && Telling(n)
  {
    ModUnique(n, WORD, 0, n);
  }

  /** The merge sees the length modulo a word, so a wrapped length does no harm there. */
  lemma FinishWrapped<A, H>(rounds: Rounds<A, H>, secret: seq<Byte>, acc: A, last: seq<Byte>, n: nat)
    requires GoodSecret(secret)
    ensures Finish(rounds, secret, acc, last, Wrapped(n)) == Finish(rounds, secret, acc, last, n)
  {
    ModTimes(n, PRIME64_1, WORD);
  }

  class State<A, H> {
    const rounds: Rounds<A, H>
    const secret: seq<Byte>
    var acc: A
    var buffer: array<Byte>
    var bufferedSize: nat
    var soFar: nat
    var totalLen: nat
    /** Everything hashed so far, and how many of its stripes have left the buffer. */
    ghost var data: seq<Byte>
    ghost var taken: nat

    ghost predicate Valid()
      reads this, buffer
    {
      && GoodSecret(secret) && buffer.Length == BUFFER_SIZE
      && totalLen == Wrapped(|data|) && |data| == STRIPE_LEN * taken + bufferedSize
      && bufferedSize <= BUFFER_SIZE
      && (bufferedSize == 0 ==> data == [])
      && (|data| <= BUFFER_SIZE ==> taken == 0)
      && soFar < StripesPerBlock(secret)
      && Progress(acc, soFar) == Absorb(rounds, secret, Progress(rounds.init, 0), data, taken)
      && buffer[..bufferedSize] == data[STRIPE_LEN * taken..]
      && (taken > 0 && bufferedSize <= BUFFER_SIZE - STRIPE_LEN ==>
            buffer[BUFFER_SIZE - STRIPE_LEN..] == data[STRIPE_LEN * (taken - 1)..STRIPE_LEN * taken])
    }

    constructor (rounds: Rounds<A, H>, secret: seq<Byte>)
      requires GoodSecret(secret)
      ensures Valid() && data == [] && fresh(buffer) && this.rounds == rounds && this.secret == secret
    {
      this.rounds, this.secret := rounds, secret;
      acc, bufferedSize, soFar, totalLen := rounds.init, 0, 0, 0;
      buffer := new Byte[BUFFER_SIZE](_ => 0);
      data, taken := [], 0;
    }

    /** Copies `input` into the buffer from `at` on. */
    method Store(at: nat, input: seq<Byte>)
      requires at + |input| <= buffer.Length
      modifies buffer
      ensures buffer[..] == old(buffer[..at]) + input + old(buffer[at + |input|..])
    {
      forall i | 0 <= i < |input| {
        buffer[at + i] := input[i];
      }
    }

    /** Puts input that fits behind what the buffer holds; the buffer's last stripe is kept unless it is reached. */
    method Enqueue(input: seq<Byte>)
      requires buffer.Length == BUFFER_SIZE && bufferedSize + |input| <= BUFFER_SIZE
      modifies `bufferedSize, buffer
      ensures bufferedSize == old(bufferedSize) + |input|
      ensures buffer[..bufferedSize] == old(buffer[..bufferedSize]) + input
      ensures bufferedSize <= BUFFER_SIZE - STRIPE_LEN ==>
                buffer[BUFFER_SIZE - STRIPE_LEN..] == old(buffer[BUFFER_SIZE - STRIPE_LEN..])
    {
      Store(bufferedSize, input);
      bufferedSize := bufferedSize + |input|;
    }

    /** Input that still fits is only buffered. */
    method FillBuffer(input: seq<Byte>)
      requires Valid() && |input| <= BUFFER_SIZE - bufferedSize
      modifies this, buffer
      ensures Valid() && data == old(data) + input && buffer == old(buffer)
    {
      hide Absorb, StripesPerBlock, Wrapped;
      ghost var all := data + input;
      Extended(data, input, STRIPE_LEN * taken);
      AbsorbSame(rounds, secret, Progress(rounds.init, 0), data, all, taken);
      if taken > 0 {
        ExtendedWithin(data, input, STRIPE_LEN * (taken - 1), STRIPE_LEN * taken);
      }
      Enqueue(input);
      WrappedAdd(|data|, |input|);
      totalLen := (totalLen + |input|) % WORD;
      data := all;
    }

    /** Mid-update: the buffer is drained and `rest` is what has not been consumed. */
    ghost predicate Drained(rest: seq<Byte>)
      reads this, buffer
    {
      && GoodSecret(secret) && buffer.Length == BUFFER_SIZE
      && totalLen == Wrapped(|data|) && |data| == STRIPE_LEN * taken + |rest|
      && bufferedSize == 0 && |data| > BUFFER_SIZE
      && soFar < StripesPerBlock(secret)
      && Progress(acc, soFar) == Absorb(rounds, secret, Progress(rounds.init, 0), data, taken)
      && rest == data[STRIPE_LEN * taken..] && rest != []
      && (taken > 0 ==> buffer[BUFFER_SIZE - STRIPE_LEN..] == data[STRIPE_LEN * (taken - 1)..STRIPE_LEN * taken])
    }

    /** Mid-update: the input is accounted for but neither buffered nor consumed. */
    ghost predicate Pending(input: seq<Byte>)
      reads this, buffer
    {
      && GoodSecret(secret) && buffer.Length == BUFFER_SIZE
      && totalLen == Wrapped(|data|) && |data| == STRIPE_LEN * taken + bufferedSize + |input|
      && bufferedSize <= BUFFER_SIZE < bufferedSize + |input|
      && (bufferedSize == 0 ==> taken == 0)
      && soFar < StripesPerBlock(secret)
      && Progress(acc, soFar) == Absorb(rounds, secret, Progress(rounds.init, 0), data, taken)
      && data[STRIPE_LEN * taken..] == buffer[..bufferedSize] + input
    }

    /** Completes the buffer from the input and consumes it. */
    method Drain(input: seq<Byte>) returns (rest: seq<Byte>)
      requires Valid() && |input| > BUFFER_SIZE - bufferedSize
      modifies this, buffer
      ensures Drained(rest) && data == old(data) + input && buffer == old(buffer)
    {
      hide Absorb, StripesPerBlock, Wrapped;
      ghost var all := data + input;
      Extended(data, input, STRIPE_LEN * taken);
      AbsorbSame(rounds, secret, Progress(rounds.init, 0), data, all, taken);
      WrappedAdd(|data|, |input|);
      totalLen := (totalLen + |input|) % WORD;
      data := all;
      if bufferedSize > 0 {
        rest := Complete(input);
      } else {
        assert buffer[..0] + input == input;
        rest := input;
      }
    }

    /** Fills up a buffer that holds something and consumes its four stripes. */
    method Complete(input: seq<Byte>) returns (rest: seq<Byte>)
      requires Pending(input) && bufferedSize > 0
      modifies this, buffer
      ensures Drained(rest) && data == old(data) && buffer == old(buffer)
    {
      hide Absorb, StripesPerBlock, Wrapped;
      var loadSize := BUFFER_SIZE - bufferedSize;
      Refilled(data, STRIPE_LEN * taken, buffer[..bufferedSize], input, loadSize);
      Enqueue(input[..loadSize]);
      rest := input[loadSize..];
      assert buffer[..bufferedSize] == buffer[..];
      AbsorbMore(rounds, secret, Progress(rounds.init, 0), data, taken, buffer[..], BUFFER_SIZE / STRIPE_LEN);
      acc, soFar := ConsumeStripes(rounds, secret, acc, soFar, buffer[..], BUFFER_SIZE / STRIPE_LEN);
      taken := taken + 4;
      bufferedSize := 0;
      assert buffer[BUFFER_SIZE - STRIPE_LEN..] == buffer[..][BUFFER_SIZE - STRIPE_LEN..];
    }

    /** The last stripe consumed goes to the end of the buffer, where the digest may need it. */
    method KeepLast(last: seq<Byte>)
      requires buffer.Length == BUFFER_SIZE && |last| == STRIPE_LEN
      modifies buffer
      ensures buffer[BUFFER_SIZE - STRIPE_LEN..] == last
    {
      Store(BUFFER_SIZE - STRIPE_LEN, last);
    }

    /** Consumes whole stripes straight from a long input, keeping the last one for the digest. */
    method ConsumeInput(input: seq<Byte>) returns (rest: seq<Byte>)
      requires Drained(input) && |input| > BUFFER_SIZE
      modifies this, buffer
      ensures Drained(rest) && |rest| <= STRIPE_LEN && taken > 0 && data == old(data) && buffer == old(buffer)
    {
      hide Absorb, StripesPerBlock, Wrapped;
      var nbStripes := (|input| - 1) / STRIPE_LEN;
      AbsorbMore(rounds, secret, Progress(rounds.init, 0), data, taken, input, nbStripes);
      acc, soFar := ConsumeStripes(rounds, secret, acc, soFar, input, nbStripes);
      var used := STRIPE_LEN * nbStripes;
      LaterParts(data, STRIPE_LEN * taken, input, used);
      KeepLast(input[used - STRIPE_LEN..used]);
      taken := taken + nbStripes;
      rest := input[used..];
    }

    method Update(input: seq<Byte>)
      requires Valid()
      modifies this, buffer
      ensures Valid() && data == old(data) + input && buffer == old(buffer)
    {
      hide Absorb, StripesPerBlock, Wrapped;
      if |input| <= BUFFER_SIZE - bufferedSize {
        FillBuffer(input);
        return;
      }
      var rest := Drain(input);
      if |rest| > BUFFER_SIZE {
        rest := ConsumeInput(rest);
      }
      Keep(rest);
    }

    /** What has not been consumed goes into the drained buffer. */
    method Keep(rest: seq<Byte>)
      requires Drained(rest) && |rest| <= BUFFER_SIZE
      modifies this, buffer
      ensures Valid() && data == old(data) && buffer == old(buffer)
    {
      hide Absorb, StripesPerBlock, Wrapped;
      Enqueue(rest);
      assert buffer[..bufferedSize] == rest;
    }

    /**
     The digest reads the state without changing it. A length that has wrapped to
     that of a short input has the start of the buffer hashed as one.
     */
    method Digest() returns (h: H)
      requires Valid()
      ensures Telling(|data|) ==> h == Hash(rounds, secret, data)
      ensures !Telling(|data|) ==> h == rounds.short(buffer[..Wrapped(|data|)], secret)
    {
      hide Absorb, StripesPerBlock, Finish, Wrapped;
      if totalLen > MIDSIZE_MAX {
        h := DigestLong();
      } else {
        if |data| <= MIDSIZE_MAX {
          NotWrapped(|data|);
          assert buffer[..totalLen] == data;
        }
        h := rounds.short(buffer[..totalLen], secret);
      }
    }

    /** The accumulators after the stripes still in the buffer, the last one excepted. */
    method DigestStripes() returns (a: A, s: nat)
      requires Valid() && totalLen > MIDSIZE_MAX
      ensures Progress(a, s) == Absorb(rounds, secret, Progress(rounds.init, 0), data, (|data| - 1) / STRIPE_LEN)
    {
      hide Absorb, StripesPerBlock, Wrapped;
      a, s := acc, soFar;
      if bufferedSize >= STRIPE_LEN {
        var nbStripes := (bufferedSize - 1) / STRIPE_LEN;
        AbsorbMore(rounds, secret, Progress(rounds.init, 0), data, taken, buffer[..bufferedSize], nbStripes);
        a, s := ConsumeStripes(rounds, secret, acc, soFar, buffer[..bufferedSize], nbStripes);
      }
    }

    /** The last 64 bytes, partly from the end of the buffer when fewer are waiting in it. */
    method LastStripe() returns (last: seq<Byte>)
      requires Valid() && totalLen > MIDSIZE_MAX
      ensures last == data[|data| - STRIPE_LEN..]
    {
      hide Absorb, StripesPerBlock, Wrapped;
      if bufferedSize >= STRIPE_LEN {
        last := buffer[bufferedSize - STRIPE_LEN..bufferedSize];
        LastOfBuffer(data, taken, buffer[..bufferedSize]);
        assert last == buffer[..bufferedSize][bufferedSize - STRIPE_LEN..];
      } else {
        var catchup := STRIPE_LEN - bufferedSize;
        last := buffer[BUFFER_SIZE - catchup..] + buffer[..bufferedSize];
        LastAcross(data, taken, buffer[BUFFER_SIZE - STRIPE_LEN..], buffer[..bufferedSize]);
        assert buffer[BUFFER_SIZE - catchup..] == buffer[BUFFER_SIZE - STRIPE_LEN..][bufferedSize..];
      }
    }

    method DigestLong() returns (h: H)
      requires Valid() && totalLen > MIDSIZE_MAX
      ensures h == Hash(rounds, secret, data)
    {
      hide Absorb, StripesPerBlock, Finish, Wrapped;
      var a, _ := DigestStripes();
      var last := LastStripe();
      FinishWrapped(rounds, secret, a, last, |data|);
      h := Finish(rounds, secret, a, last, totalLen);
    }
  }

  lemma Extended(data: seq<Byte>, input: seq<Byte>, at: nat)
    requires at <= |data|
    ensures (data + input)[..at] == data[..at] && (data + input)[at..] == data[at..] + input
  {
  }

  lemma ExtendedWithin(data: seq<Byte>, input: seq<Byte>, i: nat, j: nat)
    requires i <= j <= |data|
    ensures (data + input)[i..j] == data[i..j]
  {
  }

  /** Positions in what follows `at`. */
  lemma LaterParts(data: seq<Byte>, at: nat, input: seq<Byte>, used: nat)
    requires at <= |data| && data[at..] == input && STRIPE_LEN <= used <= |input|
    ensures input[used..] == data[at + used..]
    ensures input[used - STRIPE_LEN..used] == data[at + used - STRIPE_LEN..at + used]
  {
  }

  /** A buffer completed from the input holds the next 256 bytes, and the rest of the input follows them. */
  lemma Refilled(all: seq<Byte>, at: nat, start: seq<Byte>, input: seq<Byte>, n: nat)
    requires at <= |all| && all[at..] == start + input && n <= |input|
    ensures var m := at + |start| + n;
            && m <= |all| && all[at..m] == start + input[..n] && all[m..] == input[n..]
            && forall k :: 0 <= k <= |start| + n ==> all[at + k..m] == (start + input[..n])[k..]
  {
    var m := at + |start| + n;
    assert all[at..m] == all[at..][..m - at];
    assert all[m..] == all[at..][m - at..];
    assert start + input == (start + input[..n]) + input[n..];
  }

  /** A last stripe that is wholly in the buffer. */
  lemma LastOfBuffer(data: seq<Byte>, taken: nat, head: seq<Byte>)
    requires STRIPE_LEN <= |head| && |data| == STRIPE_LEN * taken + |head| && head == data[STRIPE_LEN * taken..]
    ensures head[|head| - STRIPE_LEN..] == data[|data| - STRIPE_LEN..]
  {
  }

  /** A last stripe that begins in the last stripe consumed. */
  lemma LastAcross(data: seq<Byte>, taken: nat, tail: seq<Byte>, head: seq<Byte>)
    requires |head| < STRIPE_LEN && taken > 0 && |data| == STRIPE_LEN * taken + |head|
    requires head == data[STRIPE_LEN * taken..] && tail == data[STRIPE_LEN * (taken - 1)..STRIPE_LEN * taken]
    ensures tail[|head|..] + head == data[|data| - STRIPE_LEN..]
  {
    assert tail[|head|..] == data[|data| - STRIPE_LEN..STRIPE_LEN * taken];
  }

  /** However the input is split into updates, the digest is the one-shot hash of the whole. */
  method StreamEqualsOneShot<A, H>(rounds: Rounds<A, H>, secret: seq<Byte>, chunks: seq<seq<Byte>>) returns (streamed: H, oneShot: H)
    requires GoodSecret(secret)
    ensures oneShot == Hash(rounds, secret, Concat(chunks))
    ensures Telling(|Concat(chunks)|) ==> streamed == oneShot
  {
    var s := new State(rounds, secret);
    var whole: seq<Byte> := [];
    for i := 0 to |chunks|
      invariant s.Valid() && fresh(s) && fresh(s.buffer) && s.rounds == rounds && s.secret == secret
      invariant s.data == whole == Concat(chunks[..i])
    {
      s.Update(chunks[i]);
      whole := whole + chunks[i];
      assert chunks[..i + 1][..i] == chunks[..i];
    }
    assert chunks[..|chunks|] == chunks;
    streamed := s.Digest();
    oneShot := OneShot(rounds, secret, whole);
  }
}
