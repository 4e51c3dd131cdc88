/**
 XXH32 and XXH64: four lanes fed one word each per stripe, a buffered tail, and
 the streaming state that must agree with the one-shot loop. The two hashes are
 one scheme at two word sizes; `XxhSchemes` has both.
 */
module XxhLanes {
  import opened Prelude
  import opened Modular

  datatype Lanes = Lanes(v1: nat, v2: nat, v3: nat, v4: nat)

  /** A little-endian word. */
  function Word(b: seq<Byte>): nat {
    if b == [] then 0 else b[0] + 0x100 * Word(b[1..])
  }

  /** Word size in bytes, the modulus of a word, the seed's primes, and the rounds. */
  datatype Scheme = Scheme(
    word: nat,
    modulus: nat,
    prime1: nat,
    prime2: nat,
    prime5: nat,
    round: (nat, nat) -> nat,
    converge: Lanes -> nat,
    finalize: (nat, seq<Byte>) -> nat)
  {
    const stripe: nat := 4 * word

    /** A word holds any length shorter than two stripes, and wraps at a whole stripe. */
    ghost predicate Valid() {
      0 < word && 2 * stripe <= modulus && modulus % stripe == 0
    }

    function Init(seed: nat): Lanes
      requires Valid()
    {
      Lanes((seed + prime1 + prime2) % modulus, (seed + prime2) % modulus, seed % modulus, (seed - prime1) % modulus)
    }

    function AbsorbStripe(v: Lanes, st: seq<Byte>): Lanes
      requires |st| == stripe
    {
      Lanes(round(v.v1, Word(st[..word])), round(v.v2, Word(st[word..2 * word])),
            round(v.v3, Word(st[2 * word..3 * word])), round(v.v4, Word(st[3 * word..])))
    }

    /** The lanes after every whole stripe of `data`. */
    function Absorb(v: Lanes, data: seq<Byte>): Lanes
      requires Valid()
      decreases |data|
    {
      if |data| < stripe then v else Absorb(AbsorbStripe(v, data[..stripe]), data[stripe..])
    }

    /** What is left of `data` after its whole stripes. */
    function Tail(data: seq<Byte>): (t: seq<Byte>)
      requires Valid()
      ensures |t| < stripe && |t| <= |data|
      decreases |data|
    {
      if |data| < stripe then data else Tail(data[stripe..])
    }

    /** The hash: whole stripes through the lanes (if there are any), the length, and the tail. */
    function Hash(seed: nat, data: seq<Byte>): nat
      requires Valid()
    {
      var h := if |data| >= stripe then converge(Absorb(Init(seed), data)) else seed + prime5;
      finalize((h + |data|) % modulus, Tail(data))
    }

    // ----- Laws of the split -----

    /** Whole stripes in front can be absorbed first. */
    lemma {:induction false} Split(v: Lanes, a: seq<Byte>, b: seq<Byte>)
      requires Valid() && Tail(a) == []
      ensures Absorb(v, a + b) == Absorb(Absorb(v, a), b)
      ensures Tail(a + b) == Tail(b)
      decreases |a|
    {
      if |a| < stripe {
        assert a + b == b;
      } else {
        assert (a + b)[..stripe] == a[..stripe] && (a + b)[stripe..] == a[stripe..] + b;
        Split(AbsorbStripe(v, a[..stripe]), a[stripe..], b);
      }
    }

    /** A whole stripe behind whole stripes. */
    lemma Append(v: Lanes, a: seq<Byte>, st: seq<Byte>)
      requires Valid() && Tail(a) == [] && |st| == stripe
      ensures Tail(a + st) == [] && Absorb(v, a + st) == AbsorbStripe(Absorb(v, a), st)
    {
      Split(v, a, st);
      assert st[..stripe] == st && st[stripe..] == [];
    }

    /** Less than a stripe behind whole stripes is the tail. */
    lemma Rest(v: Lanes, a: seq<Byte>, b: seq<Byte>)
      requires Valid() && Tail(a) == [] && |b| < stripe
      ensures Tail(a + b) == b && Absorb(v, a + b) == Absorb(v, a)
    {
      Split(v, a, b);
    }

    /** Less than a stripe without a tail is nothing at all. */
    lemma NothingAbsorbed(v: Lanes, a: seq<Byte>)
      requires Valid() && |a| < stripe && Tail(a) == []
      ensures a == [] && Absorb(v, a) == v
    {
    }

    /** The tail's length is the length modulo the stripe. */
    lemma {:induction false} TailLength(data: seq<Byte>)
      requires Valid()
      ensures |Tail(data)| == |data| % stripe
      decreases |data|
    {
      if |data| < stripe {
        ModUnique(|data|, stripe, 0, |data|);
      } else {
        TailLength(data[stripe..]);
        ModLess(|data|, stripe);
      }
    }
  }

  lemma NoStripes(s: Scheme, v: Lanes)
    requires s.Valid()
    ensures s.Tail([]) == [] && s.Absorb(v, []) == v
  {
  }

  /** The one-shot loop: stripes while a whole one is left, then the tail. */
  method OneShot(s: Scheme, seed: nat, data: seq<Byte>) returns (h: nat)
    requires s.Valid()
    ensures h == s.Hash(seed, data)
  {
    hide Scheme.Absorb, Scheme.AbsorbStripe, Scheme.Init, Scheme.Tail;
    var p := 0;
    ghost var lanes := s.Init(seed);
    NoStripes(s, lanes);
    if |data| >= s.stripe {
      var v := s.Init(seed);
      var limit := |data| - (s.stripe - 1);
      var first := true;
      while first || p < limit
        invariant 0 <= p <= |data| && (first ==> p == 0)
        invariant s.Tail(data[..p]) == [] && v == s.Absorb(s.Init(seed), data[..p])
        decreases |data| - p
      {
        s.Append(s.Init(seed), data[..p], data[p..p + s.stripe]);
        assert data[..p] + data[p..p + s.stripe] == data[..p + s.stripe];
        v := s.AbsorbStripe(v, data[p..p + s.stripe]);
        p := p + s.stripe;
        first := false;
      }
      h := s.converge(v);
    } else {
      h := seed + s.prime5;
    }
    s.Rest(s.Init(seed), data[..p], data[p..]);
    assert data[..p] + data[p..] == data;
    h := s.finalize((h + |data|) % s.modulus, data[p..]);
  }

  class State {
    const s: Scheme
    const seed: nat
    var v: Lanes
    var mem: array<Byte>
    var memsize: nat
    /** The length so far, in one word: it wraps. */
    var totalLen: nat
    /** Set once a stripe's worth of input has been seen, and never cleared. */
    var largeLen: bool
    ghost var data: seq<Byte>
    ghost var whole: seq<Byte>

    ghost predicate Valid()
      reads this, mem
    {
      && s.Valid() && seed < s.modulus && mem.Length == s.stripe
      && totalLen == |data| % s.modulus
      && (largeLen <==> |data| >= s.stripe)
      && memsize < s.stripe && data == whole + mem[..memsize]
      && s.Tail(whole) == [] && v == s.Absorb(s.Init(seed), whole)
    }

    constructor (s: Scheme, seed: nat)
      requires s.Valid() && seed < s.modulus
      ensures Valid() && data == [] && fresh(mem) && this.s == s && this.seed == seed
    {
      this.s, this.seed := s, seed;
      v := s.Init(seed);
      mem := new Byte[s.stripe](_ => 0);
      memsize, totalLen, largeLen := 0, 0, false;
      data, whole := [], [];
    }

    method Store(at: nat, input: seq<Byte>)
      requires at + |input| <= mem.Length
      modifies mem
      ensures mem[..] == old(mem[..at]) + input + old(mem[at + |input|..])
    {
      forall i | 0 <= i < |input| {
        mem[at + i] := input[i];
      }
    }

    /** Short input only fills the buffer. */
    method Fill(input: seq<Byte>)
      requires s.Valid() && mem.Length == s.stripe && memsize + |input| < s.stripe
      requires data == whole + mem[..memsize] + input
      modifies `memsize, mem
      ensures memsize < s.stripe && data == whole + mem[..memsize]
    {
      Store(memsize, input);
      assert mem[..memsize + |input|] == old(mem[..memsize]) + input;
      memsize := memsize + |input|;
    }

    /** Mid-update: `rest` is what neither the lanes nor the buffer have. */
    ghost predicate Drained(rest: seq<Byte>)
      reads `v, `mem, `memsize, `data, `whole
    {
      && s.Valid() && mem.Length == s.stripe && memsize == 0 && data == whole + rest
      && s.Tail(whole) == [] && v == s.Absorb(s.Init(seed), whole)
    }

    /** Fills up the buffer from the input. */
    method FillUp(input: seq<Byte>) returns (rest: seq<Byte>)
      requires memsize < mem.Length <= memsize + |input|
      modifies mem
      ensures mem[..] + rest == old(mem[..memsize]) + input
    {
      var p := mem.Length - memsize;
      Store(memsize, input[..p]);
      assert mem[..] == old(mem[..memsize]) + input[..p];
      rest := input[p..];
      assert input == input[..p] + rest;
    }

    /** Completes a partly filled buffer and feeds it to the lanes. */
    method Complete(input: seq<Byte>) returns (rest: seq<Byte>)
      requires s.Valid() && mem.Length == s.stripe && memsize < s.stripe <= memsize + |input|
      requires data == whole + mem[..memsize] + input
      requires s.Tail(whole) == [] && v == s.Absorb(s.Init(seed), whole)
      modifies `v, `memsize, `whole, mem
      ensures Drained(rest)
    {
      hide Scheme.Absorb, Scheme.AbsorbStripe, Scheme.Init, Scheme.Tail;
      rest := input;
      if memsize > 0 {
        Assoc(whole, mem[..memsize], input);
        rest := FillUp(input);
        Assoc(whole, mem[..], rest);
        s.Append(s.Init(seed), whole, mem[..]);
        v := s.AbsorbStripe(v, mem[..]);
        whole := whole + mem[..];
        memsize := 0;
      }
    }

    /** Feeds whole stripes to the lanes straight from the input. */
    method Consume(input: seq<Byte>) returns (rest: seq<Byte>)
      requires Drained(input)
      modifies `v, `whole
      ensures Drained(rest) && |rest| < s.stripe
    {
      hide Scheme.Absorb, Scheme.AbsorbStripe, Scheme.Init, Scheme.Tail;
      var p := 0;
      if |input| >= s.stripe {
        var limit := |input| - s.stripe;
        var first := true;
        while first || p <= limit
          invariant 0 <= p <= |input| && (first ==> p == 0)
          invariant Drained(input[p..])
          decreases |input| - p
        {
          var st := input[p..p + s.stripe];
          s.Append(s.Init(seed), whole, st);
          assert input[p..] == st + input[p + s.stripe..];
          v := s.AbsorbStripe(v, st);
          whole := whole + st;
          p := p + s.stripe;
          first := false;
        }
      }
      rest := input[p..];
    }

    method Update(input: seq<Byte>)
      requires Valid()
      modifies this, mem
      ensures Valid() && data == old(data) + input && mem == old(mem)
    {
      hide Scheme.Absorb, Scheme.AbsorbStripe, Scheme.Init, Scheme.Tail;
      LengthStep(|data|, |input|, s.stripe, s.modulus);
      totalLen := (totalLen + |input| % s.modulus) % s.modulus;
      largeLen := largeLen || |input| >= s.stripe || totalLen >= s.stripe;
      data := data + input;
      if memsize + |input| < s.stripe {
        Fill(input);
        return;
      }
      var rest := Complete(input);
      rest := Consume(rest);
      if rest != [] {
        Fill(rest);
      }
    }

    /** The 32-bit digest: lanes or seed according to the sticky flag, and the tail by the buffered size. */
    method Digest32() returns (h: nat)
      requires Valid()
      ensures h == s.Hash(seed, data)
    {
      hide Scheme.Absorb, Scheme.Init, Scheme.Tail;
      if largeLen {
        h := s.converge(v);
      } else {
        h := v.v3 + s.prime5;
        ShortSeed();
      }
      s.Rest(s.Init(seed), whole, mem[..memsize]);
      ModAdd(h, |data|, s.modulus);
      h := s.finalize((h + totalLen) % s.modulus, mem[..memsize]);
    }

    /**
     The 64-bit digest: lanes or seed by the length itself, and the tail by the
     length. A length that has wrapped to less than a stripe passes for short input.
     */
    method Digest64() returns (h: nat)
      requires Valid()
      ensures Telling(|data|, s) ==> h == s.Hash(seed, data)
      ensures !Telling(|data|, s) ==>
                h == s.finalize((s.Absorb(s.Init(seed), data).v3 + s.prime5 + |data|) % s.modulus, s.Tail(data))
    {
      hide Scheme.Absorb, Scheme.Init, Scheme.Tail;
      s.Rest(s.Init(seed), whole, mem[..memsize]);
      if totalLen >= s.stripe {
        h := s.converge(v);
        if |data| < s.stripe {
          ModUnique(|data|, s.modulus, 0, |data|);
        }
      } else {
        h := v.v3 + s.prime5;
        if |data| < s.stripe {
          ModUnique(|data|, s.modulus, 0, |data|);
          ShortSeed();
        }
      }
      s.TailLength(data);
      ModMod(|data|, s.modulus, s.stripe);
      ModAdd(h, |data|, s.modulus);
      var tail := totalLen % s.stripe;
      h := s.finalize((h + totalLen) % s.modulus, mem[..tail]);
    }

    /** Before the first stripe the third lane still holds the seed. */
    lemma ShortSeed()
      requires Valid() && |data| < s.stripe
      ensures v.v3 == seed
    {
      hide Scheme.Absorb, Scheme.Tail, Scheme.AbsorbStripe;
      s.NothingAbsorbed(s.Init(seed), whole);
      ModUnique(seed, s.modulus, 0, seed);
    }
  }

  /** A length whose wrapped form says whether there was a whole stripe. */
  predicate Telling(n: nat, s: Scheme)
    requires s.modulus > 0
  {
    n < s.stripe || n % s.modulus >= s.stripe
  }

  /** The wrapped length stays the length modulo a word, and the large-input flag stays exact. */
  lemma LengthStep(n: nat, k: nat, stripe: nat, m: nat)
    requires 0 < 2 * stripe <= m
    ensures (n % m + k % m) % m == (n + k) % m
    ensures n + k >= stripe <==> n >= stripe || k >= stripe || (n % m + k % m) % m >= stripe
  {
    ModAdd(n % m, k, m);
    ModAdd(k, n, m);
    if n < stripe && k < stripe {
      ModUnique(n + k, m, 0, n + k);
    }
    if n + k < m {
      ModUnique(n + k, m, 0, n + k);
    }
  }

  /** However the input is split into updates, both digests are the one-shot hash of the whole. */
  method StreamEqualsOneShot(s: Scheme, seed: nat, chunks: seq<seq<Byte>>) returns (d32: nat, d64: nat, oneShot: nat)
    requires s.Valid() && seed < s.modulus
    ensures d32 == oneShot == s.Hash(seed, Concat(chunks))
    ensures Telling(|Concat(chunks)|, s) ==> d64 == oneShot
  {
    var st := new State(s, seed);
    var all: seq<Byte> := [];
    for i := 0 to |chunks|
      invariant st.Valid() && fresh(st) && fresh(st.mem) && st.s == s && st.seed == seed
      invariant st.data == all == Concat(chunks[..i])
    {
      st.Update(chunks[i]);
      all := all + chunks[i];
      assert chunks[..i + 1][..i] == chunks[..i];
    }
    assert chunks[..|chunks|] == chunks;
    d32 := st.Digest32();
    d64 := st.Digest64();
    oneShot := OneShot(s, seed, all);
  }
}
