/**
 When a table runs out of distance, told from the keys alone: a bucket can be
 pushed past the largest distance exactly when some arc of buckets is home to too
 many keys. Nothing here depends on the order in which the keys came.
 */
module Homes {
  import opened Prelude
  import opened RobinHood

  /** The keys whose home is one of the `m + 1` buckets from `a` on, cyclically. */
  ghost function Homed<K, V>(kind: Kind<K, V>, keys: set<K>, cap: nat, a: nat, m: nat): set<K>
    requires a < cap
  {
    set k | k in keys && Gap(a, Home(kind, k, cap), cap) <= m
  }

  /** More keys are at home in the arc than 254 distances can spread over its end. */
  ghost predicate Crams<K, V>(kind: Kind<K, V>, keys: set<K>, cap: nat, a: nat, m: nat) {
    a < cap && m < cap && |Homed(kind, keys, cap, a, m)| >= 255 + m
  }

  /** No Robin Hood table of `cap` buckets can hold the keys at distances up to 254. */
  ghost predicate Overfull<K, V>(kind: Kind<K, V>, keys: set<K>, cap: nat) {
    exists a, m :: Crams(kind, keys, cap, a, m)
  }

  // ----- Counting -----

  lemma {:induction false} SubsetSize<T>(a: set<T>, b: set<T>)
    requires a <= b
    ensures |a| <= |b|
  {
    if a != {} {
      var x :| x in a;
      SubsetSize(a - {x}, b - {x});
    }
  }

  lemma OverfullMore<K, V>(kind: Kind<K, V>, keys: set<K>, more: set<K>, cap: nat)
    requires keys <= more && Overfull(kind, keys, cap)
    ensures Overfull(kind, more, cap)
  {
    var a, m :| Crams(kind, keys, cap, a, m);
    SubsetSize(Homed(kind, keys, cap, a, m), Homed(kind, more, cap, a, m));
    assert Crams(kind, more, cap, a, m);
  }

  lemma OverfullIsLarge<K, V>(kind: Kind<K, V>, keys: set<K>, cap: nat)
    requires Overfull(kind, keys, cap)
    ensures |keys| >= 255
  {
    var a, m :| Crams(kind, keys, cap, a, m);
    SubsetSize(Homed(kind, keys, cap, a, m), keys);
  }

  /** The bucket `g` steps after `a`. */
  function Forward(a: nat, g: nat, cap: nat): (i: nat)
    requires a < cap && g < cap
    ensures i < cap && Gap(a, i, cap) == g
  {
    if a + g < cap then a + g else a + g - cap
  }

  /** The `n` buckets from `a` on. */
  ghost function Arc(a: nat, n: nat, cap: nat): (s: set<nat>)
    requires a < cap && n <= cap
    ensures |s| == n
    ensures forall i :: i in s <==> 0 <= i < cap && Gap(a, i, cap) < n
  {
    if n == 0 then {} else Arc(a, n - 1, cap) + {Forward(a, n - 1, cap)}
  }

  lemma {:induction false} ImageSize<K>(ks: seq<K>, s: set<nat>)
    requires forall i :: i in s ==> i < |ks|
    ensures |set i | i in s :: ks[i]| <= |s|
  {
    if s != {} {
      var x :| x in s;
      var rest := s - {x};
      ImageSize(ks, rest);
      assert (set i | i in s :: ks[i]) == (set i | i in rest :: ks[i]) + {ks[x]};
    }
  }

  // ----- A table within its distances is not overfull -----

  /** The keys in the buckets. */
  ghost function Stored<K>(d: seq<Byte>, ks: seq<K>): set<K>
    requires |d| == |ks|
  {
    set i | 0 <= i < |d| && d[i] != 0 :: ks[i]
  }

  lemma GapAdd(a: nat, h: nat, i: nat, cap: nat)
    requires a < cap && h < cap && i < cap
    ensures Gap(a, i, cap) <= Gap(a, h, cap) + Gap(h, i, cap)
    ensures Gap(a, h, cap) <= Gap(a, i, cap) ==> Gap(a, i, cap) == Gap(a, h, cap) + Gap(h, i, cap)
  {
  }

  /** Keys at home in an arc lie within 253 buckets of its end, so they are not too many. */
  lemma NotOverfull<K, V>(kind: Kind<K, V>, d: seq<Byte>, ks: seq<K>)
    requires SameSize(d, ks) && Placed(kind, d, ks)
    ensures !Overfull(kind, Stored(d, ks), |d|)
  {
    var cap := |d|;
    forall a, m | 0 <= a < cap && 0 <= m < cap
      ensures !Crams(kind, Stored(d, ks), cap, a, m)
    {
      var n := if m + 254 < cap then m + 254 else cap;
      var keys, arc := Homed(kind, Stored(d, ks), cap, a, m), Arc(a, n, cap);
      forall k | k in keys
        ensures exists i :: i in arc && ks[i] == k
      {
        var i :| 0 <= i < cap && d[i] != 0 && ks[i] == k;
        GapAdd(a, Home(kind, k, cap), i, cap);
      }
      ImageSize(ks, arc);
      SubsetSize(keys, set i | i in arc :: ks[i]);
    }
  }

  // ----- A table that has run out of distance is overfull -----

  /** Where the unbroken run through `p` begins. */
  lemma {:induction false} RunStart(d: seq<Byte>, p: nat, e: nat) returns (r: nat)
    requires p < |d| && e < |d| && d[p] != 0 && d[e] == 0
    ensures r < |d| && d[Prev(r, |d|)] == 0
    ensures forall j :: 0 <= j < |d| && Gap(r, j, |d|) <= Gap(r, p, |d|) ==> d[j] != 0
    decreases Gap(e, p, |d|)
  {
    var q := Prev(p, |d|);
    if d[q] == 0 {
      r := p;
    } else {
      r := RunStart(d, q, e);
      assert forall j :: 0 <= j < |d| && Gap(r, j, |d|) <= Gap(r, p, |d|) ==> j == p || Gap(r, j, |d|) <= Gap(r, q, |d|);
    }
  }

  /** In a run, homes do not go down: those up to `p` lie between the start of the run and the home of `p`. */
  lemma RunHome<K, V>(kind: Kind<K, V>, d: seq<Byte>, ks: seq<K>, r: nat, j: nat, p: nat)
    requires SameSize(d, ks) && Placed(kind, d, ks) && Gradual(d)
    requires r < |d| && j < |d| && p < |d| && d[Prev(r, |d|)] == 0 && d[j] != 0 && d[p] != 0
    requires Gap(r, j, |d|) <= Gap(r, p, |d|)
    ensures Gap(r, Home(kind, ks[j], |d|), |d|) == Gap(r, j, |d|) - (d[j] as int - 1)
    ensures Gap(r, Home(kind, ks[j], |d|), |d|) <= Gap(r, Home(kind, ks[p], |d|), |d|)
  {
    var cap := |d|;
    assert Next(Prev(r, cap), cap) == r;
    assert d[r] <= 1;
    RunBefore(d, r, j);
    RunBefore(d, r, p);
    RunBefore(d, j, p);
    GapAdd(r, j, p, cap);
    HomeInRun(kind, ks[j], r, j, d[j], cap);
    HomeInRun(kind, ks[p], r, p, d[p], cap);
  }

  lemma HomeInRun<K, V>(kind: Kind<K, V>, k: K, r: nat, j: nat, dist: Byte, cap: nat)
    requires r < cap && j < cap && 1 <= dist <= Gap(r, j, cap) + 1
    requires dist == Gap(Home(kind, k, cap), j, cap) + 1
    ensures Gap(r, Home(kind, k, cap), cap) == Gap(r, j, cap) - (dist as int - 1)
  {
  }

  /** The keys of the `n` buckets from `r` on. */
  ghost function KeysFrom<K>(ks: seq<K>, r: nat, n: nat): (s: set<K>)
    requires r < |ks|
  {
    set j | 0 <= j < |ks| && Gap(r, j, |ks|) < n :: ks[j]
  }

  lemma KeysFromNext<K>(ks: seq<K>, r: nat, n: nat)
    requires r < |ks| && n < |ks|
    ensures KeysFrom(ks, r, n + 1) == KeysFrom(ks, r, n) + {ks[Forward(r, n, |ks|)]}
  {
    var i := Forward(r, n, |ks|);
    forall j | 0 <= j < |ks| && Gap(r, j, |ks|) < n + 1
      ensures j == i || Gap(r, j, |ks|) < n
    {
    }
  }

  lemma {:induction false} KeysFromSize<K(!new), V>(kind: Kind<K, V>, d: seq<Byte>, ks: seq<K>, r: nat, n: nat)
    requires Lawful(kind) && SameSize(d, ks) && Distinct(kind, d, ks) && r < |d| && n <= |d|
    requires forall j :: 0 <= j < |d| && Gap(r, j, |d|) < n ==> d[j] != 0
    ensures |KeysFrom(ks, r, n)| == n
  {
    hide Lawful, Distinct;
    if n > 0 {
      KeysFromSize(kind, d, ks, r, n - 1);
      NotEarlier(kind, d, ks, r, n - 1);
      KeysFromNext(ks, r, n - 1);
    } else {
      assert KeysFrom(ks, r, 0) == {};
    }
  }

  /** The key of a bucket is in no earlier bucket of its run. */
  lemma NotEarlier<K(!new), V>(kind: Kind<K, V>, d: seq<Byte>, ks: seq<K>, r: nat, n: nat)
    requires Lawful(kind) && SameSize(d, ks) && Distinct(kind, d, ks) && r < |d| && n < |d|
    requires forall j :: 0 <= j < |d| && Gap(r, j, |d|) <= n ==> d[j] != 0
    ensures forall j :: 0 <= j < |d| && Gap(r, j, |d|) < n ==> ks[j] != ks[Forward(r, n, |d|)]
  {
    hide Lawful;
    EqSelf(kind, ks[Forward(r, n, |d|)]);
  }

  /** A key of the run is at home between the start of the run and the home of its last key. */
  lemma RunKey<K(!new), V>(kind: Kind<K, V>, d: seq<Byte>, ks: seq<K>, k: K, r: nat, p: nat, x: K)
    requires Lawful(kind) && WellFormed(kind, d, ks) && Absent(kind, d, ks, k)
    requires r < |d| && p < |d| && d[Prev(r, |d|)] == 0 && d[p] != 0
    requires forall j :: 0 <= j < |d| && Gap(r, j, |d|) <= Gap(r, p, |d|) ==> d[j] != 0
    requires exists j :: 0 <= j < |d| && Gap(r, j, |d|) <= Gap(r, p, |d|) && ks[j] == x
    ensures x in Stored(d, ks) && x != k
    ensures Gap(r, Home(kind, x, |d|), |d|) <= Gap(r, Home(kind, ks[p], |d|), |d|)
  {
    hide Lawful, Home;
    var j :| 0 <= j < |d| && Gap(r, j, |d|) <= Gap(r, p, |d|) && ks[j] == x;
    RunHome(kind, d, ks, r, j, p);
    EqSelf(kind, x);
  }

  /** A full run and one more key with the home of the bucket at the largest distance are too many. */
  lemma StuckOverfull<K(!new), V>(kind: Kind<K, V>, d: seq<Byte>, ks: seq<K>, k: K, p: nat, e: nat)
    requires Lawful(kind) && WellFormed(kind, d, ks) && Absent(kind, d, ks, k)
    requires p < |d| && e < |d| && d[p] == 254 && d[e] == 0
    requires Home(kind, k, |d|) == Home(kind, ks[p], |d|)
    ensures Overfull(kind, Stored(d, ks) + {k}, |d|)
  {
    hide Home, Lawful, Placed, Gradual, Distinct, Absent, Stored;
    var cap, keys := |d|, Stored(d, ks) + {k};
    var r := RunStart(d, p, e);
    RunHome(kind, d, ks, r, p, p);
    var m, n := Gap(r, Home(kind, k, cap), cap), Gap(r, p, cap) + 1;
    KeysFromSize(kind, d, ks, r, n);
    var run := KeysFrom(ks, r, n);
    forall x | x in run
      ensures x in Homed(kind, keys, cap, r, m) && x != k
    {
      RunKey(kind, d, ks, k, r, p, x);
    }
    SubsetSize(run + {k}, Homed(kind, keys, cap, r, m));
    assert Crams(kind, keys, cap, r, m);
  }

  // ----- Bags of entries -----

  ghost function KeysOf<K, V>(e: multiset<(K, V)>): set<K> {
    set x | x in e :: x.0
  }

  lemma StoredKeys<K, V>(d: seq<Byte>, ks: seq<K>, vs: seq<V>)
    requires |d| == |ks| == |vs|
    ensures KeysOf(Entries(d, ks, vs)) == Stored(d, ks)
  {
    hide Entries;
    forall k | k in KeysOf(Entries(d, ks, vs))
      ensures k in Stored(d, ks)
    {
      var x :| x in Entries(d, ks, vs) && x.0 == k;
      EntriesMember(d, ks, vs, x);
      var i :| 0 <= i < |d| && d[i] != 0 && (ks[i], vs[i]) == x;
      assert ks[i] == k;
    }
    forall k | k in Stored(d, ks)
      ensures k in KeysOf(Entries(d, ks, vs))
    {
      var i :| 0 <= i < |d| && d[i] != 0 && ks[i] == k;
      var x := (ks[i], vs[i]);
      EntriesMember(d, ks, vs, x);
      assert x in Entries(d, ks, vs) && x.0 == k;
    }
  }

  lemma KeysOfAdd<K, V>(e: multiset<(K, V)>, k: K, v: V)
    ensures KeysOf(e + multiset{(k, v)}) == KeysOf(e) + {k}
  {
    forall x
      ensures x in KeysOf(e + multiset{(k, v)}) <==> x in KeysOf(e) + {k}
    {
      if x == k {
        assert (k, v) in e + multiset{(k, v)};
      } else if x in KeysOf(e) {
        var y :| y in e && y.0 == x;
        assert y in e + multiset{(k, v)};
      }
    }
  }
}
