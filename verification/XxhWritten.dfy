/**
 What XXH32 and XXH64 come to, written out: each lane folds its own words of the
 input, and the rotations and bitwise sums of the rounds are what they should be.
 */
module XxhWritten {
  import opened Prelude
  import opened Modular
  import opened Bits
  import opened XxhLanes
  import opened XxhSchemes

  // ----- Lanes -----

  /** The words of one lane: one from each whole stripe, in order. */
  function LaneWords(word: nat, data: seq<Byte>, lane: nat): (ws: seq<nat>)
    requires word > 0 && lane < 4
    decreases |data|
  {
    if |data| < 4 * word then []
    else
      LaneInside(word, lane);
      [Word(data[word * lane..word * lane + word])] + LaneWords(word, data[4 * word..], lane)
  }

  lemma LaneInside(word: nat, lane: nat)
    requires lane < 4
    ensures word * lane + word <= 4 * word
  {
    MulUpTo(lane + 1, 4, word);
  }

  function Fold(round: (nat, nat) -> nat, start: nat, words: seq<nat>): nat
    decreases |words|
  {
    if words == [] then start else Fold(round, round(start, words[0]), words[1..])
  }

  /** The four lanes, each folding its own words. */
  function LanesOf(s: Scheme, v: Lanes, data: seq<Byte>): Lanes
    requires s.word > 0
  {
    Lanes(Fold(s.round, v.v1, LaneWords(s.word, data, 0)), Fold(s.round, v.v2, LaneWords(s.word, data, 1)),
          Fold(s.round, v.v3, LaneWords(s.word, data, 2)), Fold(s.round, v.v4, LaneWords(s.word, data, 3)))
  }

  lemma FoldFirst(round: (nat, nat) -> nat, start: nat, w: nat, words: seq<nat>)
    ensures Fold(round, start, [w] + words) == Fold(round, round(start, w), words)
  {
    assert ([w] + words)[1..] == words;
  }

  /** The first stripe of the input, lane by lane. */
  lemma LanesFirst(s: Scheme, v: Lanes, data: seq<Byte>)
    requires s.Valid() && s.stripe <= |data|
    ensures LanesOf(s, v, data) == LanesOf(s, s.AbsorbStripe(v, data[..s.stripe]), data[s.stripe..])
  {
    hide Fold, Word;
    var w, st, rest := s.word, data[..s.stripe], data[s.stripe..];
    assert st[..w] == data[w * 0..w * 0 + w] && st[w..2 * w] == data[w * 1..w * 1 + w];
    assert st[2 * w..3 * w] == data[w * 2..w * 2 + w] && st[3 * w..] == data[w * 3..w * 3 + w];
    FoldFirst(s.round, v.v1, Word(st[..w]), LaneWords(w, rest, 0));
    FoldFirst(s.round, v.v2, Word(st[w..2 * w]), LaneWords(w, rest, 1));
    FoldFirst(s.round, v.v3, Word(st[2 * w..3 * w]), LaneWords(w, rest, 2));
    FoldFirst(s.round, v.v4, Word(st[3 * w..]), LaneWords(w, rest, 3));
  }

  /** Absorbing folds the lanes. */
  lemma {:induction false} AbsorbIsLanes(s: Scheme, v: Lanes, data: seq<Byte>)
    requires s.Valid()
    ensures s.Absorb(v, data) == LanesOf(s, v, data)
    decreases |data|
  {
    if |data| >= s.stripe {
      hide LanesOf, Scheme.AbsorbStripe;
      LanesFirst(s, v, data);
      AbsorbIsLanes(s, s.AbsorbStripe(v, data[..s.stripe]), data[s.stripe..]);
    }
  }

  /** Whatever is behind the whole stripes is left for the end. */
  lemma {:induction false} TailIsRest(s: Scheme, data: seq<Byte>)
    requires s.Valid()
    ensures |data| % s.stripe <= |data| && s.Tail(data) == data[|data| - |data| % s.stripe..]
    decreases |data|
  {
    if |data| < s.stripe {
      ModUnique(|data|, s.stripe, 0, |data|);
    } else {
      TailIsRest(s, data[s.stripe..]);
      ModLess(|data|, s.stripe);
    }
  }

  /** The hash, written out. */
  lemma HashIsWritten(s: Scheme, seed: nat, data: seq<Byte>)
    requires s.Valid()
    ensures |data| % s.stripe <= |data|
    ensures var m := s.modulus;
            var start := Lanes((seed + s.prime1 + s.prime2) % m, (seed + s.prime2) % m, seed % m, (seed - s.prime1) % m);
            var h := if |data| < 4 * s.word then seed + s.prime5 else s.converge(LanesOf(s, start, data));
            s.Hash(seed, data) == s.finalize((h + |data|) % m, data[|data| - |data| % s.stripe..])
  {
    hide Scheme.Absorb, Scheme.Tail, LanesOf;
    AbsorbIsLanes(s, s.Init(seed), data);
    TailIsRest(s, data);
  }

  lemma SliceShift(data: seq<Byte>, d: nat, a: nat, n: nat)
    requires d + a + n <= |data|
    ensures data[d..][a..a + n] == data[d + a..d + a + n]
  {
  }

  /** The words of XXH32's lanes: four bytes of every sixteen. */
  lemma {:induction false} Words32(data: seq<Byte>, lane: nat, i: nat)
    requires lane < 4 && 16 * i + 16 <= |data|
    ensures i < |LaneWords(4, data, lane)|
    ensures LaneWords(4, data, lane)[i] == Word(data[16 * i + 4 * lane..16 * i + 4 * lane + 4])
  {
    hide Word;
    if i > 0 {
      Words32(data[16..], lane, i - 1);
      SliceShift(data, 16, 16 * (i - 1) + 4 * lane, 4);
    }
  }

  /** The words of XXH64's lanes: eight bytes of every thirty-two. */
  lemma {:induction false} Words64(data: seq<Byte>, lane: nat, i: nat)
    requires lane < 4 && 32 * i + 32 <= |data|
    ensures i < |LaneWords(8, data, lane)|
    ensures LaneWords(8, data, lane)[i] == Word(data[32 * i + 8 * lane..32 * i + 8 * lane + 8])
  {
    hide Word;
    if i > 0 {
      Words64(data[32..], lane, i - 1);
      SliceShift(data, 32, 32 * (i - 1) + 8 * lane, 8);
    }
  }

  /** A word of four bytes, least significant first, and of eight. */
  lemma WordsAre(a: Byte, b: Byte, c: Byte, d: Byte, e: Byte, f: Byte, g: Byte, h: Byte)
    ensures Word([a, b, c, d]) == a + 0x100 * b + 0x1_0000 * c + 0x100_0000 * d
    ensures Word([a, b, c, d, e, f, g, h]) == Word([a, b, c, d]) + 0x1_0000_0000 * Word([e, f, g, h])
  {
    WordMore(h, []);
    WordMore(g, [h]);
    WordMore(f, [g, h]);
    WordMore(e, [f, g, h]);
    WordMore(d, [e, f, g, h]);
    WordMore(c, [d, e, f, g, h]);
    WordMore(b, [c, d, e, f, g, h]);
    WordMore(a, [b, c, d, e, f, g, h]);
    WordMore(d, []);
    WordMore(c, [d]);
    WordMore(b, [c, d]);
    WordMore(a, [b, c, d]);
  }

  lemma WordMore(a: Byte, s: seq<Byte>)
    ensures Word([a] + s) == a + 0x100 * Word(s) && Word([]) == 0
  {
    assert ([a] + s)[1..] == s;
  }

  // ----- The operations of the rounds -----

  /** A rotation moves the low part up and brings the high part down. */
  lemma RotlIs(x: nat, power: nat, other: nat)
    requires power > 0 && other > 0 && x < power * other
    ensures Rotl(x, power, power * other) == x % other * power + x / other
  {
    var m := power * other;
    var high, low := x / other, x % other;
    assert x == high * other + low;
    assert high < power by {
      if high >= power {
        MulUpTo(power, high, other);
      }
    }
    assert x * power == high * m + low * power by {
      assert (high * other) * power == high * (other * power);
    }
    assert low * power < m by {
      MulUpTo(low + 1, other, power);
    }
    ModUnique(x * power, m, high, low * power);
  }

  /** The rounds: a rotation by 13 of 32 bits, and by 31 of 64. */
  lemma RoundsAre(acc: nat, input: nat)
    ensures var x := (acc + input * 2246822519) % 0x1_0000_0000;
            Round32(acc, input) == (x % 0x8_0000 * 0x2000 + x / 0x8_0000) * 2654435761 % 0x1_0000_0000
    ensures var x := (acc + input * 14029467366897019727) % 0x1_0000_0000_0000_0000;
            Round64(acc, input) == (x % 0x2_0000_0000 * 0x8000_0000 + x / 0x2_0000_0000) * 11400714785074694791 % 0x1_0000_0000_0000_0000
  {
    RotlIs((acc + input * 2246822519) % 0x1_0000_0000, 0x2000, 0x8_0000);
    RotlIs((acc + input * 14029467366897019727) % 0x1_0000_0000_0000_0000, 0x8000_0000, 0x2_0000_0000);
  }

  /** The lanes are rotated by 1, 7, 12 and 18 bits and summed; XXH64 then merges in each of them. */
  lemma ConvergeIs(v: Lanes)
    requires v.v1 < 0x1_0000_0000 && v.v2 < 0x1_0000_0000 && v.v3 < 0x1_0000_0000 && v.v4 < 0x1_0000_0000
    ensures Converge32(v) == ((v.v1 % 0x8000_0000 * 2 + v.v1 / 0x8000_0000) + (v.v2 % 0x200_0000 * 0x80 + v.v2 / 0x200_0000)
                              + (v.v3 % 0x10_0000 * 0x1000 + v.v3 / 0x10_0000) + (v.v4 % 0x4000 * 0x4_0000 + v.v4 / 0x4000)) % 0x1_0000_0000
  {
    RotlIs(v.v1, 2, 0x8000_0000);
    RotlIs(v.v2, 0x80, 0x200_0000);
    RotlIs(v.v3, 0x1000, 0x10_0000);
    RotlIs(v.v4, 0x4_0000, 0x4000);
  }

  function Bit(x: nat, i: nat): nat {
    if i == 0 then x % 2 else Bit(x / 2, i - 1)
  }

  lemma XorStep(a: nat, b: nat)
    ensures BitXor(a, b) == 2 * BitXor(a / 2, b / 2) + (a + b) % 2
  {
  }

  lemma TwicePlus(r: nat, d: nat)
    requires d < 2
    ensures (2 * r + d) % 2 == d && (2 * r + d) / 2 == r
  {
  }

  lemma Parity(a: nat, b: nat)
    ensures (a + b) % 2 == (a % 2 + b % 2) % 2
  {
  }

  lemma HalfSum(a: nat, b: nat)
    ensures BitXor(a, b) % 2 == (a % 2 + b % 2) % 2 && BitXor(a, b) / 2 == BitXor(a / 2, b / 2)
  {
    hide BitXor;
    XorStep(a, b);
    TwicePlus(BitXor(a / 2, b / 2), (a + b) % 2);
    Parity(a, b);
  }

  /** A bit of the bitwise sum is set when it is set in one of the two numbers. */
  lemma {:induction false} XorBit(a: nat, b: nat, i: nat)
    ensures Bit(BitXor(a, b), i) == if Bit(a, i) == Bit(b, i) then 0 else 1
    ensures Bit(a, i) < 2
    decreases i
  {
    hide BitXor;
    HalfSum(a, b);
    if i > 0 {
      XorBit(a / 2, b / 2, i - 1);
    }
  }

  /** The primes in decimal, as they are published. */
  lemma Primes()
    ensures Xxh32().prime1 == 2654435761 && Xxh32().prime2 == 2246822519 && P32_3 == 3266489917
    ensures P32_4 == 668265263 && Xxh32().prime5 == 374761393
    ensures Xxh64().prime1 == 11400714785074694791 && Xxh64().prime2 == 14029467366897019727 && P64_3 == 1609587929392839161
    ensures P64_4 == 9650029242287828579 && Xxh64().prime5 == 2870177450012600261
  {
  }
}
