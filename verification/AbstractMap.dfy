/**
 The finite map a table stands for: at most one stored key of each equality
 class, with its value. Also the bridge from a bag of entries to that map.
 */
module AbstractMap {
  import opened Prelude
  import opened RobinHood

  /** Each entry occurs once, and no two entries have equal keys. */
  ghost predicate Unique<K, V>(kind: Kind<K, V>, e: multiset<(K, V)>) {
    && (forall a, b | a in e && b in e :: kind.eq(a.0, b.0) ==> a == b)
    && (forall a | a in e :: e[a] == 1)
  }

  ghost function AsMap<K(!new), V>(kind: Kind<K, V>, e: multiset<(K, V)>): map<K, V>
    requires Lawful(kind) && Unique(kind, e)
  {
    map a | a in e :: a.0 := a.1
  }

  /** The value stored under a key equal to `k`, if there is one. */
  ghost function Lookup<K, V>(kind: Kind<K, V>, m: map<K, V>, k: K): Option<V> {
    if exists k0 :: k0 in m && kind.eq(k0, k) then
      var k0 :| k0 in m && kind.eq(k0, k);
      Some(m[k0])
    else None
  }

  /** Map update: an equal stored key is kept and gets the new value, otherwise `k` is added. */
  ghost function Put<K, V>(kind: Kind<K, V>, m: map<K, V>, k: K, v: V): map<K, V> {
    if exists k0 :: k0 in m && kind.eq(k0, k) then
      var k0 :| k0 in m && kind.eq(k0, k);
      m[k0 := v]
    else m[k := v]
  }

  /** Map deletion: every key equal to `k` goes. */
  ghost function Drop<K, V>(kind: Kind<K, V>, m: map<K, V>, k: K): map<K, V> {
    map k0 | k0 in m && !kind.eq(k0, k) :: m[k0]
  }

  /** At most one stored key per equality class. */
  ghost predicate Proper<K, V>(kind: Kind<K, V>, m: map<K, V>) {
    forall a, b | a in m && b in m :: kind.eq(a, b) ==> a == b
  }

  /** Put and Drop obey the laws of a finite map over the classes of equal keys. */
  lemma MapLaws<K(!new), V>(kind: Kind<K, V>, m: map<K, V>, k: K, v: V, j: K)
    requires Lawful(kind) && Proper(kind, m)
    ensures Proper(kind, Put(kind, m, k, v)) && Proper(kind, Drop(kind, m, k))
    ensures Lookup(kind, Put(kind, m, k, v), j) == if kind.eq(j, k) then Some(v) else Lookup(kind, m, j)
    ensures Lookup(kind, Drop(kind, m, k), j) == if kind.eq(j, k) then None else Lookup(kind, m, j)
    ensures Lookup(kind, map[], j) == None
  {
    var p := Put(kind, m, k, v);
    if kind.eq(j, k) {
      if k0 :| k0 in m && kind.eq(k0, k) {
        assert k0 in p && kind.eq(k0, j);
      } else {
        assert k in p && kind.eq(k, j);
      }
    } else if k0 :| k0 in m && kind.eq(k0, j) {
      assert k0 in p && k0 in Drop(kind, m, k);
    }
  }

  // ----- Bags of entries -----

  /** `m` holds exactly the entries of the bag. */
  ghost predicate Represents<K, V>(m: map<K, V>, e: multiset<(K, V)>) {
    && (forall a | a in e :: a.0 in m && m[a.0] == a.1)
    && (forall k | k in m :: (k, m[k]) in e)
  }

  lemma AsMapRepresents<K(!new), V>(kind: Kind<K, V>, e: multiset<(K, V)>)
    requires Lawful(kind) && Unique(kind, e)
    ensures Represents(AsMap(kind, e), e) && Proper(kind, AsMap(kind, e))
  {
  }

  /** The items of the map are the entries of the bag. */
  lemma ItemsOf<K(!new), V>(kind: Kind<K, V>, e: multiset<(K, V)>)
    requires Lawful(kind) && Unique(kind, e)
    ensures multiset(AsMap(kind, e).Items) == e
  {
    var m := AsMap(kind, e);
    AsMapRepresents(kind, e);
    forall a
      ensures multiset(m.Items)[a] == e[a]
    {
      if a in e {
        assert a.0 in m && m[a.0] == a.1;
      }
      if a in m.Items {
        assert (a.0, m[a.0]) in e;
      }
    }
  }

  lemma SameMap<K, V>(m: map<K, V>, m': map<K, V>, e: multiset<(K, V)>)
    requires Represents(m, e) && Represents(m', e)
    ensures m == m'
  {
    forall k
      ensures k in m <==> k in m'
    {
      if k in m {
        assert (k, m[k]) in e;
      }
      if k in m' {
        assert (k, m'[k]) in e;
      }
    }
    forall k | k in m
      ensures m[k] == m'[k]
    {
      assert (k, m[k]) in e;
    }
  }

  /** Finding an entry with an equal key answers a lookup. */
  lemma LookupFound<K(!new), V>(kind: Kind<K, V>, e: multiset<(K, V)>, k: K, a: (K, V))
    requires Lawful(kind) && Unique(kind, e) && a in e && kind.eq(a.0, k)
    ensures Lookup(kind, AsMap(kind, e), k) == Some(a.1)
  {
    AsMapRepresents(kind, e);
    assert a.0 in AsMap(kind, e);
  }

  lemma LookupMissing<K(!new), V>(kind: Kind<K, V>, e: multiset<(K, V)>, k: K)
    requires Lawful(kind) && Unique(kind, e)
    requires forall a | a in e :: !kind.eq(a.0, k)
    ensures Lookup(kind, AsMap(kind, e), k) == None
  {
  }

  lemma Adding<T>(e: multiset<T>, b: T)
    ensures forall x :: x in e + multiset{b} <==> x in e || x == b
    ensures forall x | x != b :: (e + multiset{b})[x] == e[x]
    ensures (e + multiset{b})[b] == e[b] + 1
  {
  }

  lemma Removing<T>(e: multiset<T>, a: T)
    requires a in e && e[a] == 1
    ensures forall x :: x in e - multiset{a} <==> x in e && x != a
    ensures forall x | x != a :: (e - multiset{a})[x] == e[x]
  {
  }

  lemma UniqueAdd<K(!new), V>(kind: Kind<K, V>, e: multiset<(K, V)>, k: K, v: V)
    requires Lawful(kind) && Unique(kind, e)
    requires forall a | a in e :: !kind.eq(a.0, k)
    ensures Unique(kind, e + multiset{(k, v)})
  {
    Adding(e, (k, v));
    assert kind.eq(k, k);
  }

  lemma UniqueRemove<K, V>(kind: Kind<K, V>, e: multiset<(K, V)>, a: (K, V))
    requires Unique(kind, e) && a in e
    ensures Unique(kind, e - multiset{a})
  {
    Removing(e, a);
  }

  lemma RepresentsAdd<K, V>(m: map<K, V>, e: multiset<(K, V)>, k: K, v: V)
    requires Represents(m, e) && k !in m
    ensures Represents(m[k := v], e + multiset{(k, v)})
  {
    Adding(e, (k, v));
  }

  lemma RepresentsRemove<K, V>(m: map<K, V>, e: multiset<(K, V)>, a: (K, V))
    requires Represents(m, e) && a in e && e[a] == 1
    ensures Represents(m - {a.0}, e - multiset{a})
  {
    Removing(e, a);
  }

  lemma AsMapAdd<K(!new), V>(kind: Kind<K, V>, e: multiset<(K, V)>, k: K, v: V)
    requires Lawful(kind) && Unique(kind, e)
    requires forall a | a in e :: !kind.eq(a.0, k)
    ensures Unique(kind, e + multiset{(k, v)})
    ensures AsMap(kind, e + multiset{(k, v)}) == AsMap(kind, e)[k := v]
  {
    UniqueAdd(kind, e, k, v);
    AsMapRepresents(kind, e);
    AsMapRepresents(kind, e + multiset{(k, v)});
    assert kind.eq(k, k);
    RepresentsAdd(AsMap(kind, e), e, k, v);
    SameMap(AsMap(kind, e + multiset{(k, v)}), AsMap(kind, e)[k := v], e + multiset{(k, v)});
  }

  lemma AsMapRemove<K(!new), V>(kind: Kind<K, V>, e: multiset<(K, V)>, a: (K, V))
    requires Lawful(kind) && Unique(kind, e) && a in e
    ensures Unique(kind, e - multiset{a})
    ensures AsMap(kind, e - multiset{a}) == AsMap(kind, e) - {a.0}
  {
    UniqueRemove(kind, e, a);
    AsMapRepresents(kind, e);
    AsMapRepresents(kind, e - multiset{a});
    RepresentsRemove(AsMap(kind, e), e, a);
    SameMap(AsMap(kind, e - multiset{a}), AsMap(kind, e) - {a.0}, e - multiset{a});
  }

  /** A new entry is a map update. */
  lemma PutNew<K(!new), V>(kind: Kind<K, V>, e: multiset<(K, V)>, k: K, v: V)
    requires Lawful(kind) && Unique(kind, e)
    requires forall a | a in e :: !kind.eq(a.0, k)
    ensures Unique(kind, e + multiset{(k, v)})
    ensures AsMap(kind, e + multiset{(k, v)}) == Put(kind, AsMap(kind, e), k, v)
  {
    AsMapAdd(kind, e, k, v);
  }

  lemma PutAt<K(!new), V>(kind: Kind<K, V>, m: map<K, V>, k: K, v: V, k0: K)
    requires Lawful(kind) && Proper(kind, m) && k0 in m && kind.eq(k0, k)
    ensures Put(kind, m, k, v) == m[k0 := v]
    ensures Drop(kind, m, k) == m - {k0}
  {
  }

  lemma OthersDiffer<K(!new), V>(kind: Kind<K, V>, e: multiset<(K, V)>, a: (K, V))
    requires Lawful(kind) && Unique(kind, e) && a in e
    ensures forall b | b in e - multiset{a} :: !kind.eq(b.0, a.0)
  {
    Removing(e, a);
  }

  lemma AsMapReplace<K(!new), V>(kind: Kind<K, V>, e: multiset<(K, V)>, a: (K, V), v: V)
    requires Lawful(kind) && Unique(kind, e) && a in e
    ensures Unique(kind, e - multiset{a} + multiset{(a.0, v)})
    ensures AsMap(kind, e - multiset{a} + multiset{(a.0, v)}) == AsMap(kind, e)[a.0 := v]
  {
    var r := e - multiset{a};
    AsMapRemove(kind, e, a);
    OthersDiffer(kind, e, a);
    AsMapAdd(kind, r, a.0, v);
    Overwrite(AsMap(kind, e), a.0, v);
  }

  lemma Overwrite<K, V>(m: map<K, V>, k: K, v: V)
    ensures (m - {k})[k := v] == m[k := v]
  {
  }

  /** Exchanging the value of an entry whose key is equal is a map update. */
  lemma PutOver<K(!new), V>(kind: Kind<K, V>, e: multiset<(K, V)>, k: K, v: V, a: (K, V))
    requires Lawful(kind) && Unique(kind, e) && a in e && kind.eq(a.0, k)
    ensures Unique(kind, e - multiset{a} + multiset{(a.0, v)})
    ensures AsMap(kind, e - multiset{a} + multiset{(a.0, v)}) == Put(kind, AsMap(kind, e), k, v)
  {
    AsMapRepresents(kind, e);
    AsMapReplace(kind, e, a, v);
    PutAt(kind, AsMap(kind, e), k, v, a.0);
  }

  /** Taking out the entry whose key is equal is a map deletion. */
  lemma DropFound<K(!new), V>(kind: Kind<K, V>, e: multiset<(K, V)>, k: K, a: (K, V))
    requires Lawful(kind) && Unique(kind, e) && a in e && kind.eq(a.0, k)
    ensures Unique(kind, e - multiset{a})
    ensures AsMap(kind, e - multiset{a}) == Drop(kind, AsMap(kind, e), k)
  {
    AsMapRepresents(kind, e);
    AsMapRemove(kind, e, a);
    PutAt(kind, AsMap(kind, e), k, a.1, a.0);
  }

  lemma DropMissing<K(!new), V>(kind: Kind<K, V>, e: multiset<(K, V)>, k: K)
    requires Lawful(kind) && Unique(kind, e)
    requires forall a | a in e :: !kind.eq(a.0, k)
    ensures Drop(kind, AsMap(kind, e), k) == AsMap(kind, e)
  {
  }

  /** The map has one key per entry. */
  lemma {:induction false} AsMapSize<K(!new), V>(kind: Kind<K, V>, e: multiset<(K, V)>)
    requires Lawful(kind) && Unique(kind, e)
    ensures |AsMap(kind, e)| == |e|
    decreases |e|
  {
    if e == multiset{} {
      assert AsMap(kind, e) == map[];
    } else {
      var a :| a in e;
      AsMapRemove(kind, e, a);
      AsMapSize(kind, e - multiset{a});
      AsMapRepresents(kind, e);
      RemoveOne(AsMap(kind, e), a.0);
    }
  }

  lemma RemoveOne<K, V>(m: map<K, V>, k: K)
    requires k in m
    ensures |m - {k}| == |m| - 1
  {
    assert m.Keys == (m - {k}).Keys + {k};
    assert |m.Keys| == |m| && |(m - {k}).Keys| == |m - {k}|;
  }

  // ----- From buckets to bags -----

  /** A table without equal keys holds a bag without equal keys. */
  lemma {:induction false} TableUnique<K(!new), V>(kind: Kind<K, V>, d: seq<Byte>, ks: seq<K>, vs: seq<V>)
    requires Lawful(kind) && |d| == |ks| == |vs| && Distinct(kind, d, ks)
    ensures Unique(kind, Entries(d, ks, vs))
  {
    var e := Entries(d, ks, vs);
    forall a, b | a in e && b in e && kind.eq(a.0, b.0)
      ensures a == b
    {
      EntriesMember(d, ks, vs, a);
      EntriesMember(d, ks, vs, b);
    }
    forall a | a in e
      ensures e[a] == 1
    {
      AtMostOnce(kind, d, ks, vs, |d|, a);
    }
  }

  /** An entry stored in bucket `n` is in no earlier bucket. */
  lemma NotBefore<K(!new), V>(kind: Kind<K, V>, d: seq<Byte>, ks: seq<K>, vs: seq<V>, n: nat)
    requires Lawful(kind) && |d| == |ks| == |vs| && n < |d| && Distinct(kind, d, ks) && d[n] != 0
    ensures (ks[n], vs[n]) !in EntriesTo(d, ks, vs, n)
  {
    hide Lawful;
    EqSelf(kind, ks[n]);
    SumMember(Cells(d, ks, vs), n, (ks[n], vs[n]));
  }

  lemma NoEntries<K, V>(d: seq<Byte>, ks: seq<K>, vs: seq<V>)
    requires |d| == |ks| == |vs|
    ensures EntriesTo(d, ks, vs, 0) == multiset{}
  {
  }

  lemma {:induction false} AtMostOnce<K(!new), V>(kind: Kind<K, V>, d: seq<Byte>, ks: seq<K>, vs: seq<V>, n: nat, a: (K, V))
    requires Lawful(kind) && |d| == |ks| == |vs| && n <= |d| && Distinct(kind, d, ks)
    ensures EntriesTo(d, ks, vs, n)[a] <= 1
  {
    hide Lawful, Distinct, EntriesTo;
    if n == 0 {
      NoEntries(d, ks, vs);
    } else {
      EntriesNext(d, ks, vs, n - 1);
      AtMostOnce(kind, d, ks, vs, n - 1, a);
      if d[n - 1] != 0 {
        NotBefore(kind, d, ks, vs, n - 1);
      }
    }
  }

  lemma AbsentEntries<K, V>(kind: Kind<K, V>, d: seq<Byte>, ks: seq<K>, vs: seq<V>, k: K)
    requires |d| == |ks| == |vs|
    ensures Absent(kind, d, ks, k) <==> forall a | a in Entries(d, ks, vs) :: !kind.eq(a.0, k)
  {
    forall a | a in Entries(d, ks, vs)
      ensures exists i :: 0 <= i < |d| && d[i] != 0 && (ks[i], vs[i]) == a
    {
      EntriesMember(d, ks, vs, a);
    }
    forall i | 0 <= i < |d| && d[i] != 0
      ensures (ks[i], vs[i]) in Entries(d, ks, vs)
    {
      EntriesMember(d, ks, vs, (ks[i], vs[i]));
    }
    if (forall a | a in Entries(d, ks, vs) :: !kind.eq(a.0, k)) {
      forall i | 0 <= i < |d| && d[i] != 0
        ensures !kind.eq(ks[i], k)
      {
        assert (ks[i], vs[i]) in Entries(d, ks, vs);
      }
    }
  }
}
