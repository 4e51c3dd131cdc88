/**
 The shape of the runtime's open-addressing table, on plain sequences: which
 distances and keys a bucket array may hold, and what each write to a bucket
 keeps. Keys are compared by the key kind's own equality, which may identify
 keys that are different values (0.0 and -0.0, or two strings at different
 addresses).
 */
module RobinHood {
  import opened Bits
  import opened Modular
  import opened Prelude

  /** What a key kind supplies: how keys are hashed and compared, and which pointers keys and values count. */
  datatype Kind<!K, !V> = Kind(
    hash: K -> nat,
    eq: (K, K) -> bool,
    keyCounted: bool,
    keyPtr: K -> nat,
    valueIsRef: bool,
    valPtr: V -> nat)

  /** The equality is an equivalence and equal keys hash alike. */
  ghost predicate Lawful<K(!new), V>(kind: Kind<K, V>) {
    && (forall a :: kind.eq(a, a))
    && (forall a, b :: kind.eq(a, b) ==> kind.eq(b, a))
    && (forall a, b, c :: kind.eq(a, b) && kind.eq(b, c) ==> kind.eq(a, c))
    && (forall a, b :: kind.eq(a, b) ==> kind.hash(a) == kind.hash(b))
  }

  lemma EqSelf<K(!new), V>(kind: Kind<K, V>, k: K)
    requires Lawful(kind)
    ensures kind.eq(k, k)
  {
  }

  /** The bucket a key hashes to: the low 32 bits of the hash, modulo the capacity. */
  function Home<K, V>(kind: Kind<K, V>, k: K, cap: nat): (h: nat)
    requires cap > 0
    ensures h < cap
  {
    (kind.hash(k) % 0x1_0000_0000) % cap
  }

  /** The bucket after `i`, cyclically. */
  function Next(i: nat, cap: nat): (j: nat)
    requires i < cap
    ensures j < cap
  {
    if i + 1 == cap then 0 else i + 1
  }

  /** The mask that steps to the next bucket wraps at the capacity. */
  lemma NextMask(pos: nat, cap: nat)
    requires IsPowerOfTwo(cap) && pos < cap
    ensures BitAnd(pos + 1, cap - 1) == Next(pos, cap)
  {
    MaskIsMod(pos + 1, cap);
    if pos + 1 == cap {
      ModUnique(pos + 1, cap, 1, 0);
    } else {
      ModUnique(pos + 1, cap, 0, pos + 1);
    }
  }

  function Prev(i: nat, cap: nat): (j: nat)
    requires i < cap
  {
    if i == 0 then cap - 1 else i - 1
  }

  /** How many steps lead from bucket `h` to bucket `i`. */
  function Gap(h: nat, i: nat, cap: nat): (g: nat)
    requires h < cap && i < cap
    ensures g < cap
  {
    if h <= i then i - h else i - h + cap
  }

  /** The step count is (i - h) modulo the capacity. */
  lemma GapIsMod(h: nat, i: nat, cap: nat)
    requires h < cap && i < cap
    ensures Gap(h, i, cap) == (i - h) % cap
  {
    ModUnique(i - h, cap, if h <= i then 0 else -1, Gap(h, i, cap));
  }

  // ----- The table invariant -----

  ghost predicate SameSize<K>(d: seq<Byte>, ks: seq<K>) {
    |d| == |ks| && |d| > 0
  }

  /** Every occupied bucket stores its probe distance plus one, at most 254. */
  ghost predicate Placed<K, V>(kind: Kind<K, V>, d: seq<Byte>, ks: seq<K>)
    requires SameSize(d, ks)
  {
    forall i :: 0 <= i < |d| && d[i] != 0 ==>
      d[i] == Gap(Home(kind, ks[i], |d|), i, |d|) + 1 && d[i] <= 254
  }

  /** Distances never rise by more than one from a bucket to the next, cyclically. */
  ghost predicate Gradual(d: seq<Byte>) {
    forall i :: 0 <= i < |d| ==> d[Next(i, |d|)] <= d[i] as int + 1
  }

  ghost predicate Distinct<K, V>(kind: Kind<K, V>, d: seq<Byte>, ks: seq<K>)
    requires |d| == |ks|
  {
    forall i, j :: 0 <= i < |d| && 0 <= j < |d| && d[i] != 0 && d[j] != 0 && kind.eq(ks[i], ks[j]) ==> i == j
  }

  ghost predicate Absent<K, V>(kind: Kind<K, V>, d: seq<Byte>, ks: seq<K>, k: K)
    requires |d| == |ks|
  {
    forall i :: 0 <= i < |d| && d[i] != 0 ==> !kind.eq(ks[i], k)
  }

  ghost predicate WellFormed<K, V>(kind: Kind<K, V>, d: seq<Byte>, ks: seq<K>) {
    SameSize(d, ks) && Placed(kind, d, ks) && Gradual(d) && Distinct(kind, d, ks)
  }

  // ----- Early exit -----

  /** A bucket at least as poor as a probe from `h` makes every bucket on the way from `h` just as poor. */
  lemma {:induction false} Climb(d: seq<Byte>, h: nat, i: nat, p: nat)
    requires |d| > 0 && Gradual(d)
    requires h < |d| && i < |d| && p < |d|
    requires d[i] >= Gap(h, i, |d|) + 1
    requires Gap(h, p, |d|) <= Gap(h, i, |d|)
    ensures d[p] >= Gap(h, p, |d|) + 1
    decreases Gap(h, i, |d|)
  {
    if p != i {
      var j := Prev(i, |d|);
      assert Next(j, |d|) == i;
      assert d[Next(j, |d|)] <= d[j] as int + 1;
      Climb(d, h, j, p);
    }
  }

  /** Robin Hood's early exit: at a bucket poorer than the probe, no key equal to `k` lies at or past it. */
  lemma EarlyExit<K(!new), V>(kind: Kind<K, V>, d: seq<Byte>, ks: seq<K>, k: K, p: nat, i: nat)
    requires Lawful(kind) && SameSize(d, ks) && Placed(kind, d, ks) && Gradual(d)
    requires p < |d| && i < |d|
    requires d[p] <= Gap(Home(kind, k, |d|), p, |d|)
    requires d[i] != 0 && kind.eq(ks[i], k)
    ensures Gap(Home(kind, k, |d|), i, |d|) < Gap(Home(kind, k, |d|), p, |d|)
  {
    var h := Home(kind, k, |d|);
    if Gap(h, p, |d|) <= Gap(h, i, |d|) {
      Climb(d, h, i, p);
    }
  }

  /** A probe that has not stopped is still short of the empty bucket `e`. */
  lemma ProbeStep(d: seq<Byte>, h: nat, pos: nat, e: nat)
    requires |d| > 0 && Gradual(d)
    requires h < |d| && pos < |d| && e < |d| && d[e] == 0
    requires d[pos] >= Gap(h, pos, |d|) + 1
    ensures Gap(h, Next(pos, |d|), |d|) == Gap(h, pos, |d|) + 1
    ensures forall i :: 0 <= i < |d| && Gap(h, i, |d|) <= Gap(h, pos, |d|) ==> i == pos || Gap(h, i, |d|) < Gap(h, pos, |d|)
  {
    if Gap(h, e, |d|) <= Gap(h, pos, |d|) {
      Climb(d, h, pos, e);
    }
  }

  // ----- Entries -----

  ghost function Cell<K, V>(d: seq<Byte>, ks: seq<K>, vs: seq<V>, i: nat): multiset<(K, V)>
    requires |d| == |ks| == |vs| && i < |d|
  {
    if d[i] == 0 then multiset{} else multiset{(ks[i], vs[i])}
  }

  /** The sum of the first `n` bags. */
  ghost function SumTo<T>(bags: seq<multiset<T>>, n: nat): multiset<T>
    requires n <= |bags|
  {
    if n == 0 then multiset{} else SumTo(bags, n - 1) + bags[n - 1]
  }

  lemma {:induction false} SumSame<T>(a: seq<multiset<T>>, b: seq<multiset<T>>, n: nat)
    requires n <= |a| && n <= |b|
    requires forall i :: 0 <= i < n ==> a[i] == b[i]
    ensures SumTo(a, n) == SumTo(b, n)
  {
    if n > 0 {
      SumSame(a, b, n - 1);
    }
  }

  lemma AddToBoth<T>(a: multiset<T>, b: multiset<T>, c: multiset<T>, d: multiset<T>, x: multiset<T>)
    requires a + b == c + d
    ensures (a + x) + b == (c + x) + d
  {
    assert (a + x) + b == (a + b) + x;
    assert (c + x) + d == (c + d) + x;
  }

  /** Exchanging one bag exchanges its members in the sum. */
  lemma {:induction false} SumDiffer<T>(a: seq<multiset<T>>, b: seq<multiset<T>>, n: nat, p: nat)
    requires p < n <= |a| && n <= |b|
    requires forall i :: 0 <= i < n && i != p ==> a[i] == b[i]
    ensures SumTo(b, n) + a[p] == SumTo(a, n) + b[p]
  {
    if p == n - 1 {
      SumSame(a, b, n - 1);
    } else {
      SumDiffer(a, b, n - 1, p);
      AddToBoth(SumTo(b, n - 1), a[p], SumTo(a, n - 1), b[p], a[n - 1]);
    }
  }

  lemma {:induction false} SumMember<T>(bags: seq<multiset<T>>, n: nat, e: T)
    requires n <= |bags|
    ensures e in SumTo(bags, n) <==> exists i :: 0 <= i < n && e in bags[i]
  {
    if n > 0 {
      SumMember(bags, n - 1, e);
    }
  }

  ghost function Cells<K, V>(d: seq<Byte>, ks: seq<K>, vs: seq<V>): (bags: seq<multiset<(K, V)>>)
    requires |d| == |ks| == |vs|
    ensures |bags| == |d|
  {
    seq(|d|, i requires 0 <= i < |d| => Cell(d, ks, vs, i))
  }

  /** The entries held by the first `n` buckets, with their multiplicity. */
  ghost function EntriesTo<K, V>(d: seq<Byte>, ks: seq<K>, vs: seq<V>, n: nat): multiset<(K, V)>
    requires |d| == |ks| == |vs| && n <= |d|
  {
    SumTo(Cells(d, ks, vs), n)
  }

  lemma EntriesNext<K, V>(d: seq<Byte>, ks: seq<K>, vs: seq<V>, i: nat)
    requires |d| == |ks| == |vs| && i < |d|
    ensures EntriesTo(d, ks, vs, i + 1)
         == if d[i] == 0 then EntriesTo(d, ks, vs, i) else EntriesTo(d, ks, vs, i) + multiset{(ks[i], vs[i])}
  {
  }

  ghost function Entries<K, V>(d: seq<Byte>, ks: seq<K>, vs: seq<V>): multiset<(K, V)>
    requires |d| == |ks| == |vs|
  {
    EntriesTo(d, ks, vs, |d|)
  }

  /** Writing one bucket exchanges that bucket's entry and no other. */
  lemma EntriesWrite<K, V>(d: seq<Byte>, ks: seq<K>, vs: seq<V>, p: nat, x: Byte, k: K, v: V)
    requires |d| == |ks| == |vs| && p < |d|
    ensures Entries(d[p := x], ks[p := k], vs[p := v]) + Cell(d, ks, vs, p)
         == Entries(d, ks, vs) + (if x == 0 then multiset{} else multiset{(k, v)})
  {
    SumDiffer(Cells(d, ks, vs), Cells(d[p := x], ks[p := k], vs[p := v]), |d|, p);
  }

  lemma TakeOut<T>(a: multiset<T>, b: multiset<T>, x: T)
    requires a + multiset{x} == b
    ensures x in b && a == b - multiset{x} && |a| == |b| - 1
  {
    assert |a + multiset{x}| == |a| + 1;
  }

  lemma Exchanged<T>(a: multiset<T>, b: multiset<T>, x: T, y: T)
    requires a + multiset{x} == b + multiset{y} && x in b
    ensures a == b - multiset{x} + multiset{y} && |a| == |b|
  {
    assert |a + multiset{x}| == |a| + 1;
    assert |b + multiset{y}| == |b| + 1;
    forall z
      ensures a[z] == (b - multiset{x} + multiset{y})[z]
    {
      assert (a + multiset{x})[z] == (b + multiset{y})[z];
    }
  }

  /** Filling an empty bucket adds an entry. */
  lemma EntryAdded<K, V>(d: seq<Byte>, ks: seq<K>, vs: seq<V>, p: nat, x: Byte, k: K, v: V)
    requires |d| == |ks| == |vs| && p < |d| && d[p] == 0 && x != 0
    ensures Entries(d[p := x], ks[p := k], vs[p := v]) == Entries(d, ks, vs) + multiset{(k, v)}
  {
    EntriesWrite(d, ks, vs, p, x, k, v);
  }

  /** Emptying a bucket takes its entry out. */
  lemma EntryRemoved<K, V>(d: seq<Byte>, ks: seq<K>, vs: seq<V>, p: nat, k: K, v: V)
    requires |d| == |ks| == |vs| && p < |d| && d[p] != 0
    ensures (ks[p], vs[p]) in Entries(d, ks, vs)
    ensures Entries(d[p := 0], ks[p := k], vs[p := v]) == Entries(d, ks, vs) - multiset{(ks[p], vs[p])}
    ensures |Entries(d[p := 0], ks[p := k], vs[p := v])| == |Entries(d, ks, vs)| - 1
  {
    EntriesWrite(d, ks, vs, p, 0, k, v);
    assert Entries(d, ks, vs) + multiset{} == Entries(d, ks, vs);
    TakeOut(Entries(d[p := 0], ks[p := k], vs[p := v]), Entries(d, ks, vs), (ks[p], vs[p]));
  }

  /** Overwriting a bucket exchanges its entry. */
  lemma EntryReplaced<K, V>(d: seq<Byte>, ks: seq<K>, vs: seq<V>, p: nat, x: Byte, k: K, v: V)
    requires |d| == |ks| == |vs| && p < |d| && d[p] != 0 && x != 0
    ensures (ks[p], vs[p]) in Entries(d, ks, vs)
    ensures Entries(d[p := x], ks[p := k], vs[p := v]) == Entries(d, ks, vs) - multiset{(ks[p], vs[p])} + multiset{(k, v)}
    ensures |Entries(d[p := x], ks[p := k], vs[p := v])| == |Entries(d, ks, vs)|
    ensures Entries(d[p := x], ks[p := k], vs[p := v]) + multiset{(ks[p], vs[p])} == Entries(d, ks, vs) + multiset{(k, v)}
  {
    EntriesMember(d, ks, vs, (ks[p], vs[p]));
    EntriesWrite(d, ks, vs, p, x, k, v);
    Exchanged(Entries(d[p := x], ks[p := k], vs[p := v]), Entries(d, ks, vs), (ks[p], vs[p]), (k, v));
  }

  /** Overwriting only the value of an occupied bucket. */
  lemma ValueReplaced<K, V>(d: seq<Byte>, ks: seq<K>, vs: seq<V>, p: nat, v: V)
    requires |d| == |ks| == |vs| && p < |d| && d[p] != 0
    ensures (ks[p], vs[p]) in Entries(d, ks, vs)
    ensures Entries(d, ks, vs[p := v]) == Entries(d, ks, vs) - multiset{(ks[p], vs[p])} + multiset{(ks[p], v)}
    ensures |Entries(d, ks, vs[p := v])| == |Entries(d, ks, vs)|
  {
    EntryReplaced(d, ks, vs, p, d[p], ks[p], v);
    assert d[p := d[p]] == d && ks[p := ks[p]] == ks;
  }

  lemma EntriesMember<K, V>(d: seq<Byte>, ks: seq<K>, vs: seq<V>, e: (K, V))
    requires |d| == |ks| == |vs|
    ensures e in Entries(d, ks, vs) <==> exists i :: 0 <= i < |d| && d[i] != 0 && (ks[i], vs[i]) == e
  {
    SumMember(Cells(d, ks, vs), |d|, e);
    if i :| 0 <= i < |d| && d[i] != 0 && (ks[i], vs[i]) == e {
      assert e in Cells(d, ks, vs)[i];
    }
  }

  /** Fewer entries than buckets leaves an empty bucket. */
  lemma {:induction false} SomeEmpty<K, V>(d: seq<Byte>, ks: seq<K>, vs: seq<V>, n: nat) returns (e: nat)
    requires |d| == |ks| == |vs| && n <= |d|
    requires |EntriesTo(d, ks, vs, n)| < n
    ensures e < n && d[e] == 0
  {
    if d[n - 1] == 0 {
      e := n - 1;
    } else {
      e := SomeEmpty(d, ks, vs, n - 1);
    }
  }

  // ----- One displacement step -----

  /** What the displacement loop keeps about the table and the entry it is carrying. */
  ghost predicate Carrying<K, V>(kind: Kind<K, V>, d: seq<Byte>, ks: seq<K>, pos: nat, dist: Byte, k: K) {
    && WellFormed(kind, d, ks)
    && Absent(kind, d, ks, k)
    && pos < |d|
    && dist == Gap(Home(kind, k, |d|), pos, |d|) + 1
    && dist <= 254
    && dist <= d[Prev(pos, |d|)] as int + 1
  }

  /** Putting the carried entry into a bucket that is empty or poorer keeps the table well formed. */
  lemma PutWellFormed<K(!new), V>(kind: Kind<K, V>, d: seq<Byte>, ks: seq<K>, pos: nat, dist: Byte, k: K)
    requires Lawful(kind) && Carrying(kind, d, ks, pos, dist, k)
    requires d[pos] < dist
    ensures WellFormed(kind, d[pos := dist], ks[pos := k])
    ensures d[pos] != 0 ==> Absent(kind, d[pos := dist], ks[pos := k], ks[pos])
  {
    var d', ks' := d[pos := dist], ks[pos := k];
    forall i | 0 <= i < |d'|
      ensures d'[Next(i, |d'|)] <= d'[i] as int + 1
    {
      assert d[Next(i, |d|)] <= d[i] as int + 1;
      if Next(i, |d|) == pos {
        assert i == Prev(pos, |d|);
      }
    }
  }

  /** Moving on past a bucket keeps the loop's invariant unless the byte trap fires. */
  lemma StepOn<K, V>(kind: Kind<K, V>, d: seq<Byte>, ks: seq<K>, pos: nat, dist: Byte, k: K, e: nat)
    requires WellFormed(kind, d, ks) && Absent(kind, d, ks, k)
    requires pos < |d| && e < |d| && d[e] == 0
    requires 0 < dist <= d[pos] && dist == Gap(Home(kind, k, |d|), pos, |d|) + 1
    ensures Gap(Next(pos, |d|), e, |d|) < Gap(pos, e, |d|)
    ensures dist + 1 <= |d|
    ensures dist < 254 ==> Carrying(kind, d, ks, Next(pos, |d|), dist + 1, k)
  {
    var h := Home(kind, k, |d|);
    if Gap(h, e, |d|) <= Gap(h, pos, |d|) {
      Climb(d, h, pos, e);
    }
  }

  // ----- When the displacement loop runs out of distance -----

  /** Some bucket holds an entry at the largest distance. */
  ghost predicate Saturated(d: seq<Byte>) {
    exists p :: 0 <= p < |d| && d[p] == 254
  }

  /**
   An insertion from `h` would carry an entry past the largest distance: an
   unbroken run leads from `h` to a bucket at that distance that the insertion
   has to push on.
   */
  ghost predicate Overlong(d: seq<Byte>, h: nat)
    requires h < |d|
  {
    exists p :: 0 <= p < |d| && d[p] == 254 && Blocks(d, h, p)
  }

  ghost predicate Blocks(d: seq<Byte>, h: nat, p: nat)
    requires h < |d| && p < |d|
  {
    && Gap(h, p, |d|) >= 253
    && forall i :: 0 <= i < |d| && Gap(h, i, |d|) < Gap(h, p, |d|) ==> d[i] != 0
  }

  /** The table was `d0` when the loop set out from `h`; it is at `pos` now, carrying a distance of `dist`. */
  ghost predicate Scanned(d0: seq<Byte>, h: nat, d: seq<Byte>, pos: nat, dist: nat) {
    && |d| == |d0| && h < |d| && pos < |d|
    && dist == (if pos == h then 1 else if Gap(h, pos, |d|) < d0[Prev(pos, |d|)] then Gap(h, pos, |d|) + 1 else d0[Prev(pos, |d|)] as int + 1)
    && (forall i :: 0 <= i < |d| && Gap(h, i, |d|) >= Gap(h, pos, |d|) ==> d[i] == d0[i])
    && (forall i :: 0 <= i < |d| && Gap(h, i, |d|) < Gap(h, pos, |d|) ==> d0[i] != 0 && (d0[i] == 254 ==> Gap(h, i, |d|) < 253))
  }

  /** One bucket further; the carried distance reaches 255 only at a blocking bucket. */
  lemma ScanStep(d0: seq<Byte>, h: nat, d: seq<Byte>, pos: nat, dist: nat, d': seq<Byte>, e: nat)
    requires |d0| > 0 && Gradual(d0) && (forall i :: 0 <= i < |d0| ==> d0[i] <= 254)
    requires Scanned(d0, h, d, pos, dist) && d[pos] != 0
    requires e < |d0| && d0[e] == 0
    requires |d'| == |d| && forall i :: 0 <= i < |d| && i != pos ==> d'[i] == d[i]
    requires dist <= 254 && d'[pos] == if d[pos] < dist then dist else d[pos]
    ensures var next := (if d[pos] < dist then d[pos] as int else dist) + 1;
            && next <= 255
            && (next == 255 ==> Overlong(d0, h) && d'[pos] == 254)
            && (next < 255 ==> Scanned(d0, h, d', Next(pos, |d|), next))
  {
    var n := |d|;
    var nx := Next(pos, n);
    assert Gap(h, e, n) > Gap(h, pos, n);
    assert Gap(h, nx, n) == Gap(h, pos, n) + 1;
    assert Prev(nx, n) == pos;
    if pos != h {
      assert Next(Prev(pos, n), n) == pos;
      assert d0[pos] <= d0[Prev(pos, n)] as int + 1;
    }
    if d[pos] == 254 && Gap(h, pos, n) >= 253 {
      assert Blocks(d0, h, pos);
      assert d'[pos] == 254;
    }
  }

  /** A loop that has reached an empty bucket met no blocking bucket, and there is none. */
  lemma ScanDone(d0: seq<Byte>, h: nat, d: seq<Byte>, pos: nat, dist: nat)
    requires Scanned(d0, h, d, pos, dist) && d[pos] == 0
    ensures !Overlong(d0, h)
  {
    forall p | 0 <= p < |d0| && d0[p] == 254
      ensures !Blocks(d0, h, p)
    {
      if Gap(h, p, |d|) > Gap(h, pos, |d|) {
        assert d0[pos] == 0;
      }
    }
  }

  // ----- A table that can run out of distance is long -----

  /** The bucket `m` steps before `p`. */
  function Back(p: nat, m: nat, cap: nat): (i: nat)
    requires p < cap && m < cap
    ensures i < cap && Gap(i, p, cap) == m
  {
    if m <= p then p - m else p - m + cap
  }

  /** The `m` buckets that end at `p`. */
  ghost function Ending(p: nat, m: nat, cap: nat): (s: set<nat>)
    requires p < cap && m <= cap
    ensures |s| == m
    ensures forall i :: i in s ==> i < cap && Gap(i, p, cap) < m
  {
    if m == 0 then {} else Ending(p, m - 1, cap) + {Back(p, m - 1, cap)}
  }

  /** Distances fall by at most one for each bucket walked back. */
  lemma {:induction false} RunBefore(d: seq<Byte>, i: nat, p: nat)
    requires |d| > 0 && Gradual(d) && i < |d| && p < |d|
    ensures d[i] >= d[p] as int - Gap(i, p, |d|)
    decreases Gap(i, p, |d|)
  {
    if i != p {
      assert d[Next(i, |d|)] <= d[i] as int + 1;
      RunBefore(d, Next(i, |d|), p);
    }
  }

  /** There are at least as many entries as occupied buckets in a set. */
  lemma {:induction false} EntriesAtLeast<K, V>(d: seq<Byte>, ks: seq<K>, vs: seq<V>, n: nat, s: set<nat>)
    requires |d| == |ks| == |vs| && n <= |d|
    requires forall i :: i in s ==> i < n && d[i] != 0
    ensures |EntriesTo(d, ks, vs, n)| >= |s|
  {
    if n == 0 {
      assert s == {};
    } else {
      EntriesAtLeast(d, ks, vs, n - 1, s - {n - 1});
    }
  }

  /** An entry at the largest distance ends an unbroken run of 254 buckets. */
  lemma SaturatedIsLong<K, V>(kind: Kind<K, V>, d: seq<Byte>, ks: seq<K>, vs: seq<V>)
    requires WellFormed(kind, d, ks) && |vs| == |d| && Saturated(d)
    ensures |Entries(d, ks, vs)| >= 254
  {
    var p :| 0 <= p < |d| && d[p] == 254;
    assert d[p] == Gap(Home(kind, ks[p], |d|), p, |d|) + 1;
    var s := Ending(p, 254, |d|);
    forall i | i in s
      ensures d[i] != 0
    {
      RunBefore(d, i, p);
    }
    EntriesAtLeast(d, ks, vs, |d|, s);
  }

  // ----- One backward shift step -----

  /** The table with bucket `pos` taken as vacated: its key no longer counts towards uniqueness. */
  ghost predicate Shifting<K, V>(kind: Kind<K, V>, d: seq<Byte>, ks: seq<K>, pos: nat) {
    && SameSize(d, ks) && Placed(kind, d, ks) && Gradual(d)
    && pos < |d| && d[pos] != 0
    && Distinct(kind, d[pos := 0], ks)
  }

  lemma ShiftStart<K, V>(kind: Kind<K, V>, d: seq<Byte>, ks: seq<K>, pos: nat)
    requires WellFormed(kind, d, ks) && pos < |d| && d[pos] != 0
    ensures Shifting(kind, d, ks, pos)
  {
  }

  /** Copying the next entry back exchanges which bucket is the spare one. */
  lemma ShiftEntries<K, V>(d: seq<Byte>, ks: seq<K>, vs: seq<V>, pos: nat, nx: nat)
    requires |d| == |ks| == |vs| && pos < |d| && nx < |d| && d[pos] != 0 && d[nx] > 1
    ensures Entries(d[pos := d[nx] - 1], ks[pos := ks[nx]], vs[pos := vs[nx]]) - multiset{(ks[nx], vs[nx])}
         == Entries(d, ks, vs) - multiset{(ks[pos], vs[pos])}
    ensures |Entries(d[pos := d[nx] - 1], ks[pos := ks[nx]], vs[pos := vs[nx]])| == |Entries(d, ks, vs)|
  {
    EntryReplaced(d, ks, vs, pos, d[nx] - 1, ks[nx], vs[nx]);
  }

  lemma ShiftDistinct<K(!new), V>(kind: Kind<K, V>, d: seq<Byte>, ks: seq<K>, pos: nat, nx: nat, x: Byte)
    requires |d| == |ks| && pos < |d| && nx < |d| && nx != pos && d[nx] != 0
    requires Distinct(kind, d[pos := 0], ks)
    ensures Distinct(kind, d[pos := x][nx := 0], ks[pos := ks[nx]])
  {
    var e, e', ks' := d[pos := 0], d[pos := x][nx := 0], ks[pos := ks[nx]];
    forall i, j | 0 <= i < |e'| && 0 <= j < |e'| && e'[i] != 0 && e'[j] != 0 && kind.eq(ks'[i], ks'[j])
      ensures i == j
    {
      var i0 := if i == pos then nx else i;
      var j0 := if j == pos then nx else j;
      assert e[i0] != 0 && e[j0] != 0 && kind.eq(ks[i0], ks[j0]);
    }
  }

  lemma ShiftGradual(d: seq<Byte>, pos: nat)
    requires Gradual(d) && pos < |d| && d[Next(pos, |d|)] > 1
    ensures Gradual(d[pos := d[Next(pos, |d|)] - 1])
  {
    var nx := Next(pos, |d|);
    var d' := d[pos := d[nx] - 1];
    assert d[nx] <= d[pos] as int + 1;
    forall i | 0 <= i < |d'|
      ensures d'[Next(i, |d'|)] <= d'[i] as int + 1
    {
      assert d[Next(i, |d|)] <= d[i] as int + 1;
    }
  }

  /** Moving the next entry back one bucket closes the gap and opens one after it. */
  lemma ShiftStep<K(!new), V>(kind: Kind<K, V>, d: seq<Byte>, ks: seq<K>, pos: nat)
    requires Shifting(kind, d, ks, pos)
    requires d[Next(pos, |d|)] > 1
    ensures Shifting(kind, d[pos := d[Next(pos, |d|)] - 1], ks[pos := ks[Next(pos, |d|)]], Next(pos, |d|))
  {
    var nx := Next(pos, |d|);
    assert nx != pos;
    ShiftDistinct(kind, d, ks, pos, nx, d[nx] - 1);
    ShiftGradual(d, pos);
  }

  lemma ShiftEnd<K, V>(kind: Kind<K, V>, d: seq<Byte>, ks: seq<K>, pos: nat, z: K)
    requires Shifting(kind, d, ks, pos)
    requires d[Next(pos, |d|)] <= 1
    ensures WellFormed(kind, d[pos := 0], ks[pos := z])
  {
    var d' := d[pos := 0];
    forall i | 0 <= i < |d'|
      ensures d'[Next(i, |d'|)] <= d'[i] as int + 1
    {
      assert d[Next(i, |d|)] <= d[i] as int + 1;
    }
  }
}
