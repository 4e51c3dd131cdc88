/** The portable 64-by-64-bit multiply of XXH3, in 64-bit words that wrap. */
module Mult64 {
  import opened Modular

  const B32: nat := 0x1_0000_0000
  const B64: nat := 0x1_0000_0000_0000_0000

  type U64 = x: int | 0 <= x < 0x1_0000_0000_0000_0000

  function Low(x: nat): (r: nat)
    ensures r < B32
  {
    x % B32
  }

  function High(x: nat): (r: nat)
    ensures x < B64 ==> r < B32
    ensures x <= (B32 - 1) * (B32 - 1) ==> r < B32 - 1
  {
    x / B32
  }

  /** A product of two half words, with half a word to spare for the sums. */
  lemma HalfProduct(a: nat, b: nat)
    requires a < B32 && b < B32
    ensures a * b <= (B32 - 1) * (B32 - 1)
  {
    MulUpTo(a, B32 - 1, b);
    MulUpTo(b, B32 - 1, B32 - 1);
  }

  /** The four cross products, and the two sums that carry between them. */
  lemma CrossProducts(x: U64, y: U64, ll: nat, hl: nat, lh: nat, hh: nat)
    requires ll == Low(x) * Low(y) && hl == High(x) * Low(y) && lh == Low(x) * High(y) && hh == High(x) * High(y)
    ensures x * y == ll + B32 * (hl + lh) + B64 * hh
    ensures ll <= (B32 - 1) * (B32 - 1) && hl <= (B32 - 1) * (B32 - 1)
    ensures lh <= (B32 - 1) * (B32 - 1) && hh <= (B32 - 1) * (B32 - 1)
  {
    var a, b, c, d := High(x), Low(x), High(y), Low(y);
    assert x == B32 * a + b && y == B32 * c + d;
    HalfProduct(b, d);
    HalfProduct(a, d);
    HalfProduct(b, c);
    HalfProduct(a, c);
    Expand(a, b, c, d);
  }

  lemma Expand(a: nat, b: nat, c: nat, d: nat)
    ensures (B32 * a + b) * (B32 * c + d) == b * d + B32 * (a * d + b * c) + B64 * (a * c)
  {
    var p := B32 * a;
    assert (p + b) * (B32 * c + d) == p * (B32 * c + d) + b * (B32 * c + d);
    assert p * (B32 * c + d) == p * (B32 * c) + p * d;
    assert b * (B32 * c + d) == b * (B32 * c) + b * d;
    assert p * (B32 * c) == B64 * (a * c);
    assert p * d == B32 * (a * d);
    assert b * (B32 * c) == B32 * (b * c);
  }

  /** Shifting a word left by half of it drops its high half. */
  lemma ShiftLeft(c: U64)
    ensures (c * B32) % B64 == Low(c) * B32
  {
    ModUnique(c * B32, B64, High(c), Low(c) * B32);
  }

  /** Adding the products column by column gives the two words of the whole product. */
  lemma Columns(ll: nat, hl: nat, lh: nat, hh: nat, cross: nat, upper: nat)
    requires cross == High(ll) + Low(hl) + lh
    requires upper == High(hl) + High(cross) + hh
    ensures upper * B64 + (Low(cross) * B32 + Low(ll)) == ll + B32 * (hl + lh) + B64 * hh
  {
    assert ll == B32 * High(ll) + Low(ll);
    assert hl == B32 * High(hl) + Low(hl);
    assert cross == B32 * High(cross) + Low(cross);
  }

  /** The multiply, every intermediate in a 64-bit word: nothing overflows, and the two words are the product. */
  method Mult64To128(lhs: U64, rhs: U64) returns (low: U64, high: U64)
    ensures high * B64 + low == lhs * rhs
  {
    CrossProducts(lhs, rhs, Low(lhs) * Low(rhs), High(lhs) * Low(rhs), Low(lhs) * High(rhs), High(lhs) * High(rhs));
    hide Low, High;
    var lo_lo: U64 := Low(lhs) * Low(rhs);
    var hi_lo: U64 := High(lhs) * Low(rhs);
    var lo_hi: U64 := Low(lhs) * High(rhs);
    var hi_hi: U64 := High(lhs) * High(rhs);
    var part: U64 := High(lo_lo) + Low(hi_lo);
    var cross: U64 := part + lo_hi;
    var carry: U64 := High(hi_lo) + High(cross);
    var upper: U64 := carry + hi_hi;
    ShiftLeft(cross);
    Columns(lo_lo, hi_lo, lo_hi, hi_hi, cross, upper);
    low := (cross * B32) % B64 + Low(lo_lo);
    high := upper;
  }
}
