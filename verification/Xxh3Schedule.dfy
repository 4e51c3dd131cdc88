/**
 What the XXH3 schedule comes to, written out: the rounds one after the other,
 each with its stripe of the input and its window of the secret.
 */
module Xxh3Schedule {
  import opened Prelude
  import opened Modular
  import opened Xxh3
  import opened Xxh3Stream

  /** One round on the accumulators. */
  datatype Event = Took(stripe: seq<Byte>, window: seq<Byte>) | Scrambled(window: seq<Byte>)

  /** The rounds for the first `n` stripes: the window moves on by 8 bytes a stripe, and a scramble follows the last one that fits. */
  function Taken(secret: seq<Byte>, data: seq<Byte>, n: nat): seq<Event>
    requires |secret| >= 136 && 64 * n <= |data|
  {
    if n == 0 then []
    else
      var perBlock := (|secret| - 64) / 8;
      var i := (n - 1) % perBlock;
      Taken(secret, data, n - 1)
      + [Took(data[64 * (n - 1)..64 * n], secret[8 * i..8 * i + 64])]
      + (if n % perBlock == 0 then [Scrambled(secret[|secret| - 64..])] else [])
  }

  /** All the rounds for a long input: the stripes before the last byte, then the last 64 bytes. */
  function Events(secret: seq<Byte>, data: seq<Byte>): seq<Event>
    requires |secret| >= 136 && |data| > 240
  {
    Taken(secret, data, (|data| - 1) / 64) + [Took(data[|data| - 64..], secret[|secret| - 71..|secret| - 7])]
  }

  function Play<A, H>(rounds: Rounds<A, H>, acc: A, events: seq<Event>): A {
    if events == [] then acc
    else
      var a := Play(rounds, acc, events[..|events| - 1]);
      match events[|events| - 1]
      case Took(stripe, window) => rounds.accumulate(a, stripe, window)
      case Scrambled(window) => rounds.scramble(a, window)
  }

  function Written<A, H>(rounds: Rounds<A, H>, secret: seq<Byte>, data: seq<Byte>): H
    requires |secret| >= 136
  {
    if |data| <= 240 then rounds.short(data, secret)
    else
      rounds.merge(Play(rounds, rounds.init, Events(secret, data)), secret[11..75],
                   (|data| * 0x9E3779B185EBCA87) % 0x1_0000_0000_0000_0000)
  }

  lemma PlayOne<A, H>(rounds: Rounds<A, H>, acc: A, events: seq<Event>, e: Event)
    ensures Play(rounds, acc, events + [e]) ==
            match e
            case Took(stripe, window) => rounds.accumulate(Play(rounds, acc, events), stripe, window)
            case Scrambled(window) => rounds.scramble(Play(rounds, acc, events), window)
  {
    assert (events + [e])[..|events|] == events;
  }

  /** The position in a block moves on by one, back to 0 at its end. */
  lemma InBlock(n: nat, perBlock: nat)
    requires n > 0 && perBlock > 0
    ensures n % perBlock == if (n - 1) % perBlock + 1 == perBlock then 0 else (n - 1) % perBlock + 1
  {
    var q, r := (n - 1) / perBlock, (n - 1) % perBlock;
    if r + 1 == perBlock {
      assert n == q * perBlock + perBlock == (q + 1) * perBlock;
      ModUnique(n, perBlock, q + 1, 0);
    } else {
      ModUnique(n, perBlock, q, r + 1);
    }
  }

  lemma NextWritten<A, H>(rounds: Rounds<A, H>, secret: seq<Byte>, acc: A, data: seq<Byte>, n: nat)
    requires GoodSecret(secret) && 0 < 64 * n <= |data|
    ensures var perBlock := (|secret| - 64) / 8;
            var i := (n - 1) % perBlock;
            var a := rounds.accumulate(acc, data[64 * (n - 1)..64 * n], secret[8 * i..8 * i + 64]);
            Next(rounds, secret, Progress(acc, i), Stripe(data, n - 1))
            == if n % perBlock == 0 then Progress(rounds.scramble(a, secret[|secret| - 64..]), 0) else Progress(a, n % perBlock)
  {
    InBlock(n, (|secret| - 64) / 8);
  }

  /** Absorbing stripes plays their rounds. */
  lemma {:induction false} AbsorbPlays<A, H>(rounds: Rounds<A, H>, secret: seq<Byte>, data: seq<Byte>, n: nat)
    requires GoodSecret(secret) && 64 * n <= |data|
    ensures Absorb(rounds, secret, Progress(rounds.init, 0), data, n)
         == Progress(Play(rounds, rounds.init, Taken(secret, data, n)), n % ((|secret| - 64) / 8))
  {
    hide Play, Next, Stripe, StripesPerBlock;
    var perBlock := (|secret| - 64) / 8;
    if n == 0 {
      ModUnique(0, perBlock, 0, 0);
      PlayNothing(rounds);
    } else {
      var i := (n - 1) % perBlock;
      AbsorbPlays(rounds, secret, data, n - 1);
      NextWritten(rounds, secret, Play(rounds, rounds.init, Taken(secret, data, n - 1)), data, n);
      var before := Taken(secret, data, n - 1);
      var took := Took(data[64 * (n - 1)..64 * n], secret[8 * i..8 * i + 64]);
      PlayOne(rounds, rounds.init, before, took);
      if n % perBlock == 0 {
        PlayOne(rounds, rounds.init, before + [took], Scrambled(secret[|secret| - 64..]));
      } else {
        assert Taken(secret, data, n) == before + [took];
      }
    }
  }

  lemma PlayNothing<A, H>(rounds: Rounds<A, H>)
    ensures Play(rounds, rounds.init, []) == rounds.init
  {
  }

  /** The hash is the written-out one, whatever the rounds do. */
  lemma HashIsWritten<A, H>(rounds: Rounds<A, H>, secret: seq<Byte>, data: seq<Byte>)
    requires GoodSecret(secret)
    ensures Hash(rounds, secret, data) == Written(rounds, secret, data)
  {
    hide Play, Absorb, Taken;
    if |data| > 240 {
      var n := (|data| - 1) / 64;
      AbsorbPlays(rounds, secret, data, n);
      PlayOne(rounds, rounds.init, Taken(secret, data, n), Took(data[|data| - 64..], secret[|secret| - 71..|secret| - 7]));
    }
  }

  lemma {:induction false} StripeTaken(secret: seq<Byte>, data: seq<Byte>, n: nat, i: nat) returns (j: nat)
    requires |secret| >= 136 && i < n && 64 * n <= |data|
    ensures j < |Taken(secret, data, n)| && Taken(secret, data, n)[j].Took?
    ensures Taken(secret, data, n)[j].stripe == data[64 * i..64 * i + 64]
  {
    if i == n - 1 {
      j := |Taken(secret, data, n - 1)|;
    } else {
      j := StripeTaken(secret, data, n - 1, i);
    }
  }

  /** Every byte of a long input is in a stripe of some round. */
  lemma EveryByte(secret: seq<Byte>, data: seq<Byte>, k: nat) returns (j: nat, at: nat)
    requires |secret| >= 136 && |data| > 240 && k < |data|
    ensures j < |Events(secret, data)| && Events(secret, data)[j].Took?
    ensures at <= k < at + 64 <= |data| && Events(secret, data)[j].stripe == data[at..at + 64]
  {
    var n := (|data| - 1) / 64;
    if k < 64 * n {
      at := k / 64 * 64;
      j := StripeTaken(secret, data, n, k / 64);
    } else {
      at := |data| - 64;
      j := |Taken(secret, data, n)|;
    }
  }

  /** However the input is split, the streaming state and the one-shot loop give the written-out hash. */
  method Hashed<A, H>(rounds: Rounds<A, H>, secret: seq<Byte>, chunks: seq<seq<Byte>>) returns (streamed: H, oneShot: H)
    requires |secret| >= 136
    ensures oneShot == Written(rounds, secret, Concat(chunks))
    ensures |Concat(chunks)| < 0x1_0000_0000_0000_0000 ==> streamed == oneShot
  {
    hide Hash, Written, Telling;
    streamed, oneShot := StreamEqualsOneShot(rounds, secret, chunks);
    HashIsWritten(rounds, secret, Concat(chunks));
    if |Concat(chunks)| < 0x1_0000_0000_0000_0000 {
      NotWrapped(|Concat(chunks)|);
    }
  }
}
