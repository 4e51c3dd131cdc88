/** XXH32 and XXH64: the two schemes with their primes and rounds. */
module XxhSchemes {
  import opened Prelude
  import opened Modular
  import opened Bits
  import opened XxhLanes

  const WORD32 := 0x1_0000_0000
  const WORD64 := 0x1_0000_0000_0000_0000

  /** `x` rotated left in a word of modulus `m`, by as many bits as `power` is a power of two. */
  function Rotl(x: nat, power: nat, m: nat): nat
    requires m > 0
  {
    x * power % m + x * power / m
  }

  /** `x` with its own high bits folded in, `power` being the power of two of the shift. */
  function FoldHigh(x: nat, power: nat): nat
    requires power > 0
  {
    BitXor(x, x / power)
  }

  // ----- XXH32 -----

  const P32_1 := 0x9E3779B1
  const P32_2 := 0x85EBCA77
  const P32_3 := 0xC2B2AE3D
  const P32_4 := 0x27D4EB2F
  const P32_5 := 0x165667B1

  function Round32(acc: nat, input: nat): nat {
    Rotl((acc + input * P32_2) % WORD32, 0x2000, WORD32) * P32_1 % WORD32
  }

  function Converge32(v: Lanes): nat {
    (Rotl(v.v1, 2, WORD32) + Rotl(v.v2, 0x80, WORD32) + Rotl(v.v3, 0x1000, WORD32) + Rotl(v.v4, 0x4_0000, WORD32)) % WORD32
  }

  function Avalanche32(h: nat): nat {
    FoldHigh(FoldHigh(FoldHigh(h, 0x8000) * P32_2 % WORD32, 0x2000) * P32_3 % WORD32, 0x1_0000)
  }

  function MixWord32(h: nat, w: nat): nat {
    Rotl((h + w * P32_3) % WORD32, 0x2_0000, WORD32) * P32_4 % WORD32
  }

  function MixByte32(h: nat, b: Byte): nat {
    Rotl((h + b * P32_5) % WORD32, 0x800, WORD32) * P32_1 % WORD32
  }

  /** Whole words of the tail first, then its bytes. */
  function Finalize32(h: nat, tail: seq<Byte>): nat
    decreases |tail|
  {
    if |tail| >= 4 then Finalize32(MixWord32(h, Word(tail[..4])), tail[4..])
    else if tail != [] then Finalize32(MixByte32(h, tail[0]), tail[1..])
    else Avalanche32(h)
  }

  // ----- XXH64 -----

  const P64_1 := 0x9E3779B185EBCA87
  const P64_2 := 0xC2B2AE3D27D4EB4F
  const P64_3 := 0x165667B19E3779F9
  const P64_4 := 0x85EBCA77C2B2AE63
  const P64_5 := 0x27D4EB2F165667C5

  function Round64(acc: nat, input: nat): nat {
    Rotl((acc + input * P64_2) % WORD64, 0x8000_0000, WORD64) * P64_1 % WORD64
  }

  function Merge64(acc: nat, lane: nat): nat {
    (BitXor(acc, Round64(0, lane)) * P64_1 + P64_4) % WORD64
  }

  function Converge64(v: Lanes): nat {
    var h := (Rotl(v.v1, 2, WORD64) + Rotl(v.v2, 0x80, WORD64) + Rotl(v.v3, 0x1000, WORD64) + Rotl(v.v4, 0x4_0000, WORD64)) % WORD64;
    Merge64(Merge64(Merge64(Merge64(h, v.v1), v.v2), v.v3), v.v4)
  }

  function Avalanche64(h: nat): nat {
    FoldHigh(FoldHigh(FoldHigh(h, 0x2_0000_0000) * P64_2 % WORD64, 0x2000_0000) * P64_3 % WORD64, 0x1_0000_0000)
  }

  function MixWord64(h: nat, w: nat): nat {
    (Rotl(BitXor(h, Round64(0, w)), 0x800_0000, WORD64) * P64_1 + P64_4) % WORD64
  }

  function MixHalf64(h: nat, w: nat): nat {
    (Rotl(BitXor(h, w * P64_1 % WORD64), 0x80_0000, WORD64) * P64_2 + P64_3) % WORD64
  }

  function MixByte64(h: nat, b: Byte): nat {
    Rotl(BitXor(h, b * P64_5 % WORD64), 0x800, WORD64) * P64_1 % WORD64
  }

  /** Whole words of the tail, then half a word, then its bytes. */
  function Finalize64(h: nat, tail: seq<Byte>): nat
    decreases |tail|
  {
    if |tail| >= 8 then Finalize64(MixWord64(h, Word(tail[..8])), tail[8..])
    else if |tail| >= 4 then Finalize64(MixHalf64(h, Word(tail[..4])), tail[4..])
    else if tail != [] then Finalize64(MixByte64(h, tail[0]), tail[1..])
    else Avalanche64(h)
  }

  // ----- The schemes -----

  function Xxh32(): (s: Scheme)
    ensures s.Valid() && s.stripe == 16 && s.modulus == WORD32
  {
    Scheme(4, WORD32, P32_1, P32_2, P32_5, Round32, Converge32, Finalize32)
  }

  function Xxh64(): (s: Scheme)
    ensures s.Valid() && s.stripe == 32 && s.modulus == WORD64
  {
    Scheme(8, WORD64, P64_1, P64_2, P64_5, Round64, Converge64, Finalize64)
  }

  /** However the input is split, both streaming states give the hash of the whole; below 2^64 bytes that needs no proviso. */
  method Streamed(seed32: nat, seed64: nat, chunks: seq<seq<Byte>>) returns (h32: nat, h64: nat)
    requires seed32 < WORD32 && seed64 < WORD64
    ensures h32 == Xxh32().Hash(seed32, Concat(chunks))
    ensures |Concat(chunks)| < WORD64 ==> h64 == Xxh64().Hash(seed64, Concat(chunks))
  {
    hide *;
    var d32, _, _ := StreamEqualsOneShot(Xxh32(), seed32, chunks);
    var _, d64, _ := StreamEqualsOneShot(Xxh64(), seed64, chunks);
    if |Concat(chunks)| < WORD64 {
      Unwrapped(|Concat(chunks)|, Xxh64());
    }
    h32, h64 := d32, d64;
  }

  lemma Unwrapped(n: nat, s: Scheme)
    requires n < s.modulus
    ensures Telling(n, s)
  {
    ModUnique(n, s.modulus, 0, n);
  }
}
