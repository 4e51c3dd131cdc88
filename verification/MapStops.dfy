/**
 When insertions stop, written out in hashes and capacities; keys that are their
 own hash, which stop only at the largest capacity; and what the finite map is when
 equal keys are identical.
 */
module MapStops {
  import opened Prelude
  import opened Modular
  import opened Bits
  import opened RobinHood
  import opened AbstractMap
  import opened Homes
  import opened RoxyMap
  import opened MapRuns

  // ----- The condition, written out -----

  /** The keys whose low hash word is at most `m` past `a`, modulo the capacity. */
  ghost function Near<K, V>(kind: Kind<K, V>, keys: set<K>, cap: nat, a: nat, m: nat): set<K>
    requires cap > 0
  {
    set x | x in keys && (kind.hash(x) % 0x1_0000_0000 - a) % cap <= m
  }

  /** The distance of a home from the start of an arc is that of the low hash word. */
  lemma GapOfHash<K, V>(kind: Kind<K, V>, k: K, cap: nat, a: nat)
    requires a < cap
    ensures Gap(a, Home(kind, k, cap), cap) == (kind.hash(k) % 0x1_0000_0000 - a) % cap
  {
    var h := kind.hash(k) % 0x1_0000_0000;
    GapIsMod(a, h % cap, cap);
    ModAdd(-(a as int), h, cap);
  }

  lemma HomedIsNear<K, V>(kind: Kind<K, V>, keys: set<K>, cap: nat, a: nat, m: nat)
    requires a < cap
    ensures Homed(kind, keys, cap, a, m) == Near(kind, keys, cap, a, m)
  {
    forall k
      ensures k in Homed(kind, keys, cap, a, m) <==> k in Near(kind, keys, cap, a, m)
    {
      GapOfHash(kind, k, cap, a);
    }
  }

  lemma OverfullMeans<K, V>(kind: Kind<K, V>, keys: set<K>, cap: nat)
    requires cap > 0
    ensures Overfull(kind, keys, cap) <==> exists a, m :: 0 <= a < cap && 0 <= m < cap && |Near(kind, keys, cap, a, m)| >= 255 + m
  {
    if Overfull(kind, keys, cap) {
      var a, m :| Crams(kind, keys, cap, a, m);
      HomedIsNear(kind, keys, cap, a, m);
    }
    if a, m :| 0 <= a < cap && 0 <= m < cap && |Near(kind, keys, cap, a, m)| >= 255 + m {
      HomedIsNear(kind, keys, cap, a, m);
      assert Crams(kind, keys, cap, a, m);
    }
  }

  /** The capacity after an insertion: 8 at first, the same while at most four fifths are taken, else twice as many. From 2^30 buckets on, the product wraps and every insertion doubles. */
  lemma RoomMeans(length: nat, capacity: nat)
    requires capacity == 0 || 8 <= capacity <= 0x8000_0000
    ensures capacity == 0 ==> RoomFor(length, capacity) == 8
    ensures 0 < capacity < 0x4000_0000 && 5 * (length + 1) <= 4 * capacity ==> RoomFor(length, capacity) == capacity
    ensures 0 < capacity < 0x4000_0000 && 5 * (length + 1) > 4 * capacity ==> RoomFor(length, capacity) == 2 * capacity
    ensures capacity == 0x4000_0000 ==> RoomFor(length, capacity) == 0x8000_0000
    ensures capacity == 0x8000_0000 ==> RoomFor(length, capacity) == 0
  {
    if 0 < capacity < 0x4000_0000 {
      ModUnique(capacity * 4, 0x1_0000_0000, 0, capacity * 4);
      ModUnique(capacity * 2, 0x1_0000_0000, 0, capacity * 2);
    }
  }

  /** An insertion stops exactly when its key is new and either the map has 2^31 buckets or, at the capacity then in force, too many low hash words lie close together. */
  lemma InsertStops<K(!new), V>(kind: Kind<K, V>, s: State<K, V>, k: K, v: V)
    requires s.capacity == 0 || (IsPowerOfTwo(s.capacity) && 8 <= s.capacity <= 0x8000_0000)
    ensures Traps(kind, s, Insert(k, v)) <==>
            && s.pins == 0 && (forall x :: x in s.m ==> !kind.eq(x, k))
            && (s.capacity == 0x8000_0000 ||
                var cap := if s.capacity == 0 then 8
                           else if s.capacity < 0x4000_0000 && 5 * (|s.m| + 1) <= 4 * s.capacity then s.capacity
                           else 2 * s.capacity;
                exists a, m :: 0 <= a < cap && 0 <= m < cap && |Near(kind, s.m.Keys + {k}, cap, a, m)| >= 255 + m)
  {
    hide IsPowerOfTwo, Overfull, RoomFor, Near;
    RoomMeans(|s.m|, s.capacity);
    if 0x4000_0000 < s.capacity < 0x8000_0000 {
      PowersBelow(s.capacity);
    }
    var cap := RoomFor(|s.m|, s.capacity);
    if cap > 0 {
      OverfullMeans(kind, s.m.Keys + {k}, cap);
    }
  }

  // ----- Maps whose equal keys are identical -----

  /** Then the map is the plain finite map. */
  lemma PlainMap<K(!new), V>(kind: Kind<K, V>, m: map<K, V>, k: K, v: V)
    requires forall a, b :: kind.eq(a, b) <==> a == b
    ensures Lookup(kind, m, k) == if k in m then Some(m[k]) else None
    ensures Put(kind, m, k, v) == m[k := v]
    ensures Drop(kind, m, k) == m - {k}
  {
  }

  /** What every operation makes of the plain map. */
  lemma PlainSteps<K(!new), V>(kind: Kind<K, V>, s: State<K, V>, k: K, v: V)
    requires forall a, b :: kind.eq(a, b) <==> a == b
    ensures s.pins == 0 ==> StepState(kind, s, Insert(k, v)).m == s.m[k := v]
    ensures s.pins == 0 ==> StepState(kind, s, Remove(k)).m == s.m - {k} && StepState(kind, s, Clear).m == map[]
    ensures s.pins != 0 ==> StepState(kind, s, Insert(k, v)) == StepState(kind, s, Remove(k)) == StepState(kind, s, Clear) == s
    ensures StepState(kind, s, Contains(k)) == StepState(kind, s, Get(k)) == StepState(kind, s, GetOr(k, v)) == StepState(kind, s, Length) == s
  {
    hide Lookup, Put, Drop, RoomFor;
    PlainMap(kind, s.m, k, v);
  }

  /** What every operation answers. */
  lemma PlainAnswers<K(!new), V>(kind: Kind<K, V>, s: State<K, V>, k: K, v: V)
    requires forall a, b :: kind.eq(a, b) <==> a == b
    ensures StepAnswer(kind, s, Contains(k)) == Flag(k in s.m) && StepAnswer(kind, s, Length) == Size(|s.m|)
    ensures StepAnswer(kind, s, Get(k)) == Found(if k in s.m then Some(s.m[k]) else None)
    ensures StepAnswer(kind, s, GetOr(k, v)) == Value(if k in s.m then s.m[k] else v)
    ensures StepAnswer(kind, s, Remove(k)) == Flag(s.pins == 0 && k in s.m)
    ensures StepAnswer(kind, s, Insert(k, v)) == if s.pins == 0 then Unit else Refusal
  {
    hide Lookup, Put, Drop;
    PlainMap(kind, s.m, k, v);
  }

  // ----- Keys that are their own hash -----

  function Itself(): Kind<nat, nat> {
    Kind(k => k, (a, b) => a == b, false, _ => 0, false, _ => 0)
  }

  lemma ItselfLawful()
    ensures Lawful(Itself())
  {
  }

  /** Keys below the capacity have homes of their own. */
  lemma NumbersFit(keys: set<nat>, cap: nat)
    requires 0 < cap <= 0x8000_0000 && forall k :: k in keys ==> k < cap
    ensures !Overfull(Itself(), keys, cap)
  {
    forall a, m | 0 <= a < cap && 0 <= m < cap
      ensures !Crams(Itself(), keys, cap, a, m)
    {
      var s := Homed(Itself(), keys, cap, a, m);
      forall k | k in s
        ensures k in Arc(a, m + 1, cap)
      {
        HomeIsItself(k, cap);
      }
      SubsetSize(s, Arc(a, m + 1, cap));
    }
  }

  lemma HomeIsItself(k: nat, cap: nat)
    requires k < cap <= 0x8000_0000
    ensures Home(Itself(), k, cap) == k
  {
    ModUnique(k, 0x1_0000_0000, 0, k);
    ModUnique(k, cap, 0, k);
  }

  /** How the capacity goes on while 0, 1, 2 and so on are inserted. */
  ghost predicate Grows(n: nat, capacity: nat) {
    if n == 0 then capacity == 0
    else if n <= 429496729 then IsPowerOfTwo(capacity) && 8 <= capacity <= 0x2000_0000 && 5 * n <= 4 * capacity
    else if n == 429496730 then capacity == 0x4000_0000
    else capacity == 0x8000_0000
  }

  lemma LastCapacity(n: nat, capacity: nat)
    requires Grows(n, capacity)
    ensures n == 429496731 ==> capacity == 0x8000_0000
  {
  }

  lemma GrowsNext(n: nat, capacity: nat)
    requires n <= 429496730 && Grows(n, capacity)
    ensures RoomFor(n, capacity) > n && Grows(n + 1, RoomFor(n, capacity)) && RoomFor(n, capacity) <= 0x8000_0000
  {
    RoomMeans(n, capacity);
    EightIsPower();
    if 0 < n <= 429496729 {
      Pow29();
      if capacity < 0x2000_0000 {
        PowersApart(capacity, 29);
      }
      Doubled(capacity);
    }
  }

  lemma Pow29()
    ensures Pow(29) == 0x2000_0000
  {
    assert Pow(10) == 0x400;
    assert Pow(20) == 0x10_0000;
  }

  /** The run that inserts 0, 1, 2 and so on, each its own hash, into an empty map: the first 429496731 insertions succeed, and the next one meets a map of 2^31 buckets. */
  lemma {:induction false} AscendingRun(n: nat)
    requires n <= 429496731
    ensures Lawful(Itself())
    ensures var s := RunState(Itself(), State(map[], 0, 0), Inserts(n));
            && s.m.Keys == Below(n) && s.pins == 0 && Grows(n, s.capacity)
            && (Traps(Itself(), s, Insert(n, 0)) <==> n == 429496731)
  {
    hide StepState, Traps, Grows, RunState, Inserts, Below;
    var kind, s := Itself(), RunState(Itself(), State(map[], 0, 0), Inserts(n));
    if n == 0 {
      RunFirst(kind);
    } else {
      AscendingRun(n - 1);
      RunNext(kind, n);
      AscendingStep(RunState(kind, State(map[], 0, 0), Inserts(n - 1)), n - 1);
    }
    AscendingStep(s, n);
  }

  lemma RunFirst(kind: Kind<nat, nat>)
    ensures RunState(kind, State(map[], 0, 0), Inserts(0)) == State(map[], 0, 0)
    ensures Grows(0, 0) && Below(0) == {}
  {
  }

  lemma RunNext(kind: Kind<nat, nat>, n: nat)
    requires n > 0
    ensures RunState(kind, State(map[], 0, 0), Inserts(n))
         == StepState(kind, RunState(kind, State(map[], 0, 0), Inserts(n - 1)), Insert(n - 1, 0))
  {
    hide StepState;
    InsertsLength(n);
    InsertsLength(n - 1);
    assert Inserts(n)[..n - 1] == Inserts(n - 1);
  }

  lemma BelowNext(n: nat)
    ensures Below(n + 1) == Below(n) + {n}
  {
  }

  lemma NextKeys(m: map<nat, nat>, n: nat)
    requires n !in m
    ensures Lookup(Itself(), m, n).None? && Put(Itself(), m, n, 0).Keys == m.Keys + {n}
  {
    hide Lookup, Put;
    PlainMap(Itself(), m, n, 0);
    assert m[n := 0].Keys == m.Keys + {n};
  }

  lemma NextNumber(m: map<nat, nat>, n: nat)
    requires m.Keys == Below(n)
    ensures |m| == n && Lookup(Itself(), m, n).None? && Put(Itself(), m, n, 0).Keys == Below(n + 1)
    ensures forall k :: k in m.Keys + {n} ==> k <= n
  {
    hide Lookup, Put, Below;
    BelowSize(n);
    BelowNext(n);
    NextKeys(m, n);
    assert |m| == |m.Keys|;
  }

  lemma AscendingStep(s: State<nat, nat>, n: nat)
    requires s.m.Keys == Below(n) && s.pins == 0 && n <= 429496731 && Grows(n, s.capacity)
    ensures n < 429496731 ==>
              var t := StepState(Itself(), s, Insert(n, 0));
              t.m.Keys == Below(n + 1) && t.pins == 0 && Grows(n + 1, t.capacity)
    ensures Traps(Itself(), s, Insert(n, 0)) <==> n == 429496731
  {
    hide RoomFor, Overfull, Lookup, Put, Below, Grows;
    NextNumber(s.m, n);
    LastCapacity(n, s.capacity);
    if n < 429496731 {
      GrowsNext(n, s.capacity);
      NumbersFit(s.m.Keys + {n}, RoomFor(n, s.capacity));
    } else {
      RoomMeans(n, s.capacity);
    }
  }

  /** In a table of such keys below the capacity every key is in the bucket of its own number. */
  lemma {:induction false} OwnBuckets(d: seq<Byte>, ks: seq<nat>, e: nat, g: nat)
    requires WellFormed(Itself(), d, ks) && |d| <= 0x8000_0000
    requires forall i :: 0 <= i < |d| && d[i] != 0 ==> ks[i] < |d|
    requires e < |d| && d[e] == 0 && g < |d|
    ensures var i := Forward(e, g, |d|); d[i] != 0 ==> d[i] == 1 && ks[i] == i
  {
    var cap := |d|;
    var i := Forward(e, g, cap);
    if d[i] != 0 {
      assert g > 0;
      var p := Forward(e, g - 1, cap);
      OwnBuckets(d, ks, e, g - 1);
      assert Next(p, cap) == i;
      HomeIsItself(ks[i], cap);
      assert d[i] <= 2;
    }
  }

  lemma ForwardTo(a: nat, i: nat, cap: nat)
    requires a < cap && i < cap
    ensures Forward(a, Gap(a, i, cap), cap) == i
  {
  }

  lemma AllInOwnBuckets(d: seq<Byte>, ks: seq<nat>, e: nat)
    requires WellFormed(Itself(), d, ks) && |d| <= 0x8000_0000
    requires forall i :: 0 <= i < |d| && d[i] != 0 ==> ks[i] < |d|
    requires e < |d| && d[e] == 0
    ensures forall i :: 0 <= i < |d| && d[i] != 0 ==> ks[i] == i
  {
    forall i | 0 <= i < |d| && d[i] != 0
      ensures ks[i] == i
    {
      ForwardTo(e, i, |d|);
      OwnBuckets(d, ks, e, Gap(e, i, |d|));
    }
  }

  predicate Rising(l: seq<(nat, nat)>, n: nat) {
    && (forall i :: 0 <= i < |l| ==> l[i].0 < n)
    && (forall i, j :: 0 <= i < j < |l| ==> l[i].0 < l[j].0)
  }

  lemma RisingMore(l: seq<(nat, nat)>, n: nat, v: nat)
    requires Rising(l, n)
    ensures Rising(l, n + 1) && Rising(l + [(n, v)], n + 1)
  {
  }

  lemma {:induction false} Ascending(d: seq<Byte>, ks: seq<nat>, vs: seq<nat>, n: nat)
    requires |d| == |ks| == |vs| && n <= |d|
    requires forall i :: 0 <= i < |d| && d[i] != 0 ==> ks[i] == i
    ensures Rising(Items(d, ks, vs, n), n)
  {
    hide Rising;
    if n == 0 {
      assert Rising([], 0) by {
        RisingNothing();
      }
    } else {
      Ascending(d, ks, vs, n - 1);
      RisingMore(Items(d, ks, vs, n - 1), n - 1, vs[n - 1]);
      assert Items(d, ks, vs, n - 1) + [] == Items(d, ks, vs, n - 1);
    }
  }

  lemma RisingNothing()
    ensures Rising([], 0)
  {
  }

  lemma StoredKey<K(!new), V>(kind: Kind<K, V>, e: multiset<(K, V)>, k: K, v: V)
    requires Lawful(kind) && Unique(kind, e) && (k, v) in e
    ensures k in AsMap(kind, e)
  {
    assert (k, v).0 == k;
  }

  /** A map of such keys, all below the capacity, lists them in ascending order. */
  lemma ListedAscending(m: RoxyMap<nat, nat>)
    requires Lawful(m.kind) && m.kind == Itself() && m.Valid() && forall k :: k in m.Contents() ==> k < m.capacity
    ensures Rising(m.Listing(), m.capacity)
    ensures forall i, j :: 0 <= i < j < |m.Listing()| ==> m.Listing()[i].0 < m.Listing()[j].0
  {
    hide Items, AsMap, Entries, IsPowerOfTwo, WellFormed;
    var d, ks, vs := m.distances[..], m.keys[..], m.values[..];
    ItselfLawful();
    TableUnique<nat, nat>(m.kind, d, ks, vs);
    forall j | 0 <= j < |d| && d[j] != 0
      ensures ks[j] < |d|
    {
      EntriesMember<nat, nat>(d, ks, vs, (ks[j], vs[j]));
      StoredKey<nat, nat>(m.kind, m.Table(), ks[j], vs[j]);
      assert ks[j] in m.Contents();
    }
    if m.capacity > 0 {
      var e := m.EmptyBucket();
      AllInOwnBuckets(d, ks, e);
    }
    Ascending(d, ks, vs, m.capacity);
  }
}
