/** Bitwise `and` on unbounded naturals, and the masks that stand for remainders. */
module Bits {
  import opened Modular

  predicate IsPowerOfTwo(c: nat) {
    c == 1 || (c > 1 && c % 2 == 0 && IsPowerOfTwo(c / 2))
  }

  lemma PowerPositive(c: nat)
    requires IsPowerOfTwo(c)
    ensures c >= 1
  {
  }

  /** A product with an even factor is halved by halving the factor. */
  lemma HalfTimes(a: nat, b: nat)
    requires a % 2 == 0
    ensures (a * b) % 2 == 0 && (a * b) / 2 == (a / 2) * b
  {
    var half := (a / 2) * b;
    assert a * b == 2 * half;
  }

  lemma {:induction false} PowerTimes(a: nat, b: nat)
    requires IsPowerOfTwo(a) && IsPowerOfTwo(b)
    ensures IsPowerOfTwo(a * b)
  {
    PowerPositive(b);
    if a > 1 {
      PowerTimes(a / 2, b);
      HalfTimes(a, b);
      MulUpTo(2, a, b);
    }
  }

  function BitAnd(a: nat, b: nat): nat {
    if a == 0 || b == 0 then 0 else 2 * BitAnd(a / 2, b / 2) + (a % 2) * (b % 2)
  }

  function BitXor(a: nat, b: nat): nat
    decreases a + b
  {
    if a == 0 && b == 0 then 0 else 2 * BitXor(a / 2, b / 2) + (a + b) % 2
  }

  lemma HalvesMod(a: nat, c: nat)
    requires c > 0 && c % 2 == 0
    ensures 2 * ((a / 2) % (c / 2)) + a % 2 == a % c
  {
    var h := c / 2;
    var q, r := (a / 2) / h, (a / 2) % h;
    assert a / 2 == q * h + r;
    assert a == q * c + (2 * r + a % 2) by {
      assert q * c == 2 * (q * h);
    }
    ModUnique(a, c, q, 2 * r + a % 2);
  }

  /** One bit of the `and`. */
  lemma BitAndBit(a: nat, b: nat)
    ensures b % 2 == 1 ==> BitAnd(a, b) == 2 * BitAnd(a / 2, b / 2) + a % 2
    ensures b % 2 == 0 ==> BitAnd(a, b) == 2 * BitAnd(a / 2, b / 2)
    ensures a == 0 || b == 0 ==> BitAnd(a, b) == 0
  {
  }

  lemma HalfMask(c: nat)
    requires c > 1 && c % 2 == 0
    ensures (c - 1) / 2 == c / 2 - 1 && (c - 1) % 2 == 1
  {
  }

  /** On a power-of-two capacity the mask is the remainder. */
  lemma {:induction false} MaskIsMod(a: nat, c: nat)
    requires IsPowerOfTwo(c)
    ensures BitAnd(a, c - 1) == a % c
  {
    hide BitAnd;
    BitAndBit(a, c - 1);
    if c > 1 {
      HalfMask(c);
      MaskIsMod(a / 2, c / 2);
      HalvesMod(a, c);
    }
  }

  /** Clearing the low bits rounds down to a multiple: `width - c` is the complement of `c - 1`. */
  lemma {:induction false} ClearLow(a: nat, c: nat, width: nat)
    requires IsPowerOfTwo(c) && IsPowerOfTwo(width) && c <= width && a < width
    ensures BitAnd(a, width - c) == a - a % c
  {
    hide BitAnd;
    if c == 1 {
      MaskIsMod(a, width);
      ModUnique(a, width, 0, a);
    } else if c < width {
      HalfGap(c, width);
      BitAndBit(a, width - c);
      ClearLow(a / 2, c / 2, width / 2);
      HalvesMod(a, c);
    } else {
      ModUnique(a, c, 0, a);
      BitAndBit(a, 0);
    }
  }

  lemma HalfGap(c: nat, width: nat)
    requires c % 2 == 0 && width % 2 == 0 && c <= width
    ensures (width - c) % 2 == 0 && (width - c) / 2 == width / 2 - c / 2
  {
  }
}
