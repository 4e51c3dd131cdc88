/**
 The runtime's map: three parallel bucket arrays under Robin Hood hashing, with
 counted string keys and counted `ref` values.
 */
module RoxyMap {
  import opened Bits
  import opened Prelude
  import opened RoxyList
  import opened RobinHood
  import opened Counting
  import opened AbstractMap
  import opened Homes

  function KeyOf<K, V>(kind: Kind<K, V>): ((K, V)) -> nat {
    (e: (K, V)) => kind.keyPtr(e.0)
  }

  function ValueOf<K, V>(kind: Kind<K, V>): ((K, V)) -> nat {
    (e: (K, V)) => kind.valPtr(e.1)
  }

  /** The strings a bag of entries owns, one hold per entry. */
  ghost function HeldStrings<K, V>(kind: Kind<K, V>, e: multiset<(K, V)>): multiset<nat> {
    if kind.keyCounted then Image(e, KeyOf(kind)) else multiset{}
  }

  /** The objects a bag of entries borrows, one hold per entry. */
  ghost function HeldRefs<K, V>(kind: Kind<K, V>, e: multiset<(K, V)>): multiset<nat> {
    if kind.valueIsRef then Image(e, ValueOf(kind)) else multiset{}
  }

  /** What one more entry adds to the strings and the objects held. */
  lemma HeldAdd<K, V>(kind: Kind<K, V>, e: multiset<(K, V)>, k: K, v: V)
    ensures HeldStrings(kind, e + multiset{(k, v)}) == HeldStrings(kind, e) + Maybe(kind.keyCounted, kind.keyPtr(k))
    ensures HeldRefs(kind, e + multiset{(k, v)}) == HeldRefs(kind, e) + Maybe(kind.valueIsRef, kind.valPtr(v))
  {
    ImageAdd(e, KeyOf(kind), (k, v));
    ImageAdd(e, ValueOf(kind), (k, v));
  }

  lemma HeldRemove<K, V>(kind: Kind<K, V>, e: multiset<(K, V)>, k: K, v: V)
    requires (k, v) in e
    ensures HeldStrings(kind, e) == HeldStrings(kind, e - multiset{(k, v)}) + Maybe(kind.keyCounted, kind.keyPtr(k))
    ensures HeldRefs(kind, e) == HeldRefs(kind, e - multiset{(k, v)}) + Maybe(kind.valueIsRef, kind.valPtr(v))
  {
    assert e - multiset{(k, v)} + multiset{(k, v)} == e;
    HeldAdd(kind, e - multiset{(k, v)}, k, v);
  }

  // ----- What each change of entries does to the counts -----

  ghost predicate PaidFor<K, V>(kind: Kind<K, V>, c: Counts, e: multiset<(K, V)>) {
    Covers(c, HeldStrings(kind, e), HeldRefs(kind, e))
  }

  /** The counts moved from `c` to `c'` exactly as the entries moved from `e` to `e'`. */
  ghost predicate Moved<K, V>(kind: Kind<K, V>, c: Counts, e: multiset<(K, V)>, c': Counts, e': multiset<(K, V)>) {
    Balanced(c, HeldStrings(kind, e), HeldRefs(kind, e), c', HeldStrings(kind, e'), HeldRefs(kind, e'))
  }

  /** The key's string, if there is one, is alive. */
  predicate LiveKey<K, V>(kind: Kind<K, V>, c: Counts, k: K) {
    kind.keyCounted && kind.keyPtr(k) != 0 ==> kind.keyPtr(k) in c.strings
  }

  ghost function EntryIn<K, V>(kind: Kind<K, V>, c: Counts, k: K, v: V): Counts
    requires LiveKey(kind, c, k)
  {
    Acquire(c, kind.keyCounted, kind.keyPtr(k), kind.valueIsRef, kind.valPtr(v))
  }

  ghost function EntryOut<K, V>(kind: Kind<K, V>, c: Counts, k: K, v: V): Counts
    requires LiveKey(kind, c, k)
  {
    Relinquish(c, kind.keyCounted, kind.keyPtr(k), kind.valueIsRef, kind.valPtr(v))
  }

  ghost function EntrySwap<K, V>(kind: Kind<K, V>, c: Counts, v: V, w: V): Counts {
    Exchange(c, kind.valueIsRef, kind.valPtr(v), kind.valPtr(w))
  }

  lemma InMoves<K, V>(kind: Kind<K, V>, c: Counts, e: multiset<(K, V)>, k: K, v: V)
    requires PaidFor(kind, c, e) && LiveKey(kind, c, k)
    ensures Moved(kind, c, e, EntryIn(kind, c, k, v), e + multiset{(k, v)})
    ensures PaidFor(kind, EntryIn(kind, c, k, v), e + multiset{(k, v)})
  {
    HeldAdd(kind, e, k, v);
    AcquireMoves(c, HeldStrings(kind, e), HeldRefs(kind, e), kind.keyCounted, kind.keyPtr(k), kind.valueIsRef, kind.valPtr(v));
  }

  lemma OutMoves<K, V>(kind: Kind<K, V>, c: Counts, e: multiset<(K, V)>, k: K, v: V)
    requires PaidFor(kind, c, e) && (k, v) in e
    ensures LiveKey(kind, c, k)
    ensures kind.valueIsRef && kind.valPtr(v) != 0 ==> c.Ref(kind.valPtr(v)) > 0
    ensures Moved(kind, c, e, EntryOut(kind, c, k, v), e - multiset{(k, v)})
    ensures PaidFor(kind, EntryOut(kind, c, k, v), e - multiset{(k, v)})
  {
    HeldRemove(kind, e, k, v);
    var r := e - multiset{(k, v)};
    RelinquishMoves(c, HeldStrings(kind, r), HeldRefs(kind, r), kind.keyCounted, kind.keyPtr(k), kind.valueIsRef, kind.valPtr(v));
  }

  lemma SwapMoves<K, V>(kind: Kind<K, V>, c: Counts, e: multiset<(K, V)>, k: K, v: V, w: V)
    requires PaidFor(kind, c, e) && (k, v) in e
    ensures kind.valueIsRef && kind.valPtr(v) != 0 ==> c.Ref(kind.valPtr(v)) > 0
    ensures Moved(kind, c, e, EntrySwap(kind, c, v, w), e - multiset{(k, v)} + multiset{(k, w)})
    ensures PaidFor(kind, EntrySwap(kind, c, v, w), e - multiset{(k, v)} + multiset{(k, w)})
  {
    HeldRemove(kind, e, k, v);
    HeldAdd(kind, e - multiset{(k, v)}, k, w);
    ExchangeMoves(c, HeldStrings(kind, e), HeldRefs(kind, e - multiset{(k, v)}), kind.valueIsRef, kind.valPtr(v), kind.valPtr(w));
  }

  lemma NothingMoved<K, V>(kind: Kind<K, V>, c: Counts, e: multiset<(K, V)>)
    ensures Moved(kind, c, e, c, e)
  {
  }

  function Pow(n: nat): nat {
    if n == 0 then 1 else 2 * Pow(n - 1)
  }

  lemma {:induction false} PowersApart(c: nat, n: nat)
    requires IsPowerOfTwo(c) && c < Pow(n)
    ensures 2 * c <= Pow(n)
  {
    if c > 1 {
      PowersApart(c / 2, n - 1);
    }
  }

  lemma Pow31()
    ensures Pow(31) == 0x8000_0000
  {
    assert Pow(10) == 0x400;
    assert Pow(20) == 0x10_0000;
    assert Pow(30) == 0x4000_0000;
  }

  /** A power of two below 2^31 is at most 2^30. */
  lemma PowersBelow(c: nat)
    requires IsPowerOfTwo(c) && c < 0x8000_0000
    ensures c <= 0x4000_0000 && IsPowerOfTwo(2 * c)
  {
    hide IsPowerOfTwo;
    Pow31();
    PowersApart(c, 31);
    Doubled(c);
  }

  lemma Doubled(c: nat)
    requires IsPowerOfTwo(c)
    ensures IsPowerOfTwo(2 * c)
  {
    PowerPositive(c);
  }

  lemma EightIsPower()
    ensures IsPowerOfTwo(8)
  {
  }

  lemma EmptyWellFormed<K, V>(kind: Kind<K, V>, d: seq<Byte>, ks: seq<K>)
    requires SameSize(d, ks)
    requires forall i :: 0 <= i < |d| ==> d[i] == 0
    ensures WellFormed(kind, d, ks)
  {
  }

  lemma {:induction false} NothingStored<K, V>(d: seq<Byte>, ks: seq<K>, vs: seq<V>, n: nat)
    requires |d| == |ks| == |vs| && n <= |d|
    requires forall i :: 0 <= i < n ==> d[i] == 0
    ensures EntriesTo(d, ks, vs, n) == multiset{}
  {
    if n > 0 {
      NothingStored(d, ks, vs, n - 1);
    }
  }

  class RoxyMap<K(!new), V> {
    const kind: Kind<K, V>
    const zeroKey: K
    const zeroValue: V
    const heap: Heap
    var length: nat
    var capacity: nat
    var borrowCount: nat
    var distances: array<Byte>
    var keys: array<K>
    var values: array<V>

    ghost predicate Shaped()
      reads `capacity, `distances, `keys, `values
    {
      && distances.Length == keys.Length == values.Length == capacity
      && distances as object != keys as object
      && distances as object != values as object
      && keys as object != values as object
      && (capacity == 0 || (IsPowerOfTwo(capacity) && 8 <= capacity <= 0x8000_0000))
    }

    /** The entries in the buckets. */
    ghost function Table(): multiset<(K, V)>
      requires Shaped()
      reads `capacity, `distances, `keys, `values, distances, keys, values
    {
      Entries(distances[..], keys[..], values[..])
    }

    ghost predicate Sound()
      reads `capacity, `distances, `keys, `values, distances, keys, values
    {
      && Shaped()
      && Distinct(kind, distances[..], keys[..])
      && (capacity > 0 ==> WellFormed(kind, distances[..], keys[..]))
    }

    /** The table invariant: Robin Hood shape, exact length, and the 4/5 load bound. */
    ghost predicate Valid()
      reads this, distances, keys, values
    {
      && Sound()
      && length == |Table()|
      && 5 * length <= 4 * capacity
    }

    /** The finite map the table stands for. */
    ghost function Contents(): map<K, V>
      requires Lawful(kind) && Sound()
      reads `capacity, `distances, `keys, `values, distances, keys, values
    {
      TableUnique(kind, distances[..], keys[..], values[..]);
      AsMap(kind, Table())
    }

    /** Everything the map holds is paid for in the heap. */
    ghost predicate Paid()
      requires Shaped()
      reads `capacity, `distances, `keys, `values, distances, keys, values, heap
    {
      PaidFor(kind, heap.counts, Table())
    }

    /** The load bound leaves every probe an empty bucket to stop at. */
    lemma EmptyBucket() returns (e: nat)
      requires Valid() && capacity > 0
      ensures e < capacity && distances[e] == 0
    {
      e := SomeEmpty(distances[..], keys[..], values[..], capacity);
    }

    static method InitialCapacity(initial: int) returns (actual: nat)
      requires initial < 0x8000_0000
      ensures actual == 0 || (IsPowerOfTwo(actual) && 8 <= actual <= 0x8000_0000)
      ensures if initial <= 0 then actual == 0 else initial <= actual && (actual == 8 || actual < 2 * initial)
    {
      hide IsPowerOfTwo;
      actual := 0;
      if initial > 0 {
        EightIsPower();
        actual := 8;
        while actual < initial
          invariant IsPowerOfTwo(actual) && 8 <= actual <= 0x8000_0000 && (actual == 8 || actual < 2 * initial)
        {
          PowersBelow(actual);
          actual := 2 * actual;
        }
      }
    }

    /** An empty map with the smallest power of two of buckets that is at least 8 and at least `initial`. */
    constructor (kind: Kind<K, V>, zeroKey: K, zeroValue: V, heap: Heap, initial: int)
      requires Lawful(kind) && initial < 0x8000_0000
      ensures Valid() && fresh(distances) && fresh(keys) && fresh(values)
      ensures this.kind == kind && this.heap == heap && borrowCount == 0
      ensures Table() == multiset{} && Contents() == map[]
      ensures if initial <= 0 then capacity == 0 else initial <= capacity && (capacity == 8 || capacity < 2 * initial)
    {
      var actual := InitialCapacity(initial);
      this.kind, this.zeroKey, this.zeroValue, this.heap := kind, zeroKey, zeroValue, heap;
      length, capacity, borrowCount := 0, actual, 0;
      distances := new Byte[actual](_ => 0);
      keys := new K[actual](_ => zeroKey);
      values := new V[actual](_ => zeroValue);
      new;
      if actual > 0 {
        EmptyWellFormed(kind, distances[..], keys[..]);
      }
      NothingStored(distances[..], keys[..], values[..], actual);
    }

    /** The low half of the hash under the capacity's mask. */
    method HomeBucket(k: K) returns (pos: nat)
      requires Shaped() && capacity > 0
      ensures pos == Home(kind, k, capacity)
    {
      MaskIsMod(kind.hash(k) % 0x1_0000_0000, capacity);
      pos := BitAnd(kind.hash(k) % 0x1_0000_0000, capacity - 1);
    }

    method NextBucket(pos: nat) returns (next: nat)
      requires Shaped() && pos < capacity
      ensures next == Next(pos, capacity)
    {
      NextMask(pos, capacity);
      next := BitAnd(pos + 1, capacity - 1);
    }

    /** The probe shared by every lookup: stop at an empty or poorer bucket. */
    method Locate(k: K) returns (found: bool, pos: nat)
      requires Lawful(kind) && Valid() && capacity > 0
      ensures found ==> pos < capacity && distances[pos] != 0 && kind.eq(keys[pos], k)
      ensures !found ==> Absent(kind, distances[..], keys[..], k)
    {
      ghost var d, ks := distances[..], keys[..];
      ghost var e := SomeEmpty(d, ks, values[..], |d|);
      ghost var h := Home(kind, k, capacity);
      pos := HomeBucket(k);
      var dist: Byte := 1;
      while true
        invariant pos < capacity && dist == Gap(h, pos, capacity) + 1 && dist <= 255
        invariant forall i :: 0 <= i < capacity && Gap(h, i, capacity) < Gap(h, pos, capacity) && d[i] != 0
                    ==> !kind.eq(ks[i], k)
        decreases 255 - dist
      {
        if distances[pos] == 0 || distances[pos] < dist {
          forall i | 0 <= i < capacity && d[i] != 0
            ensures !kind.eq(ks[i], k)
          {
            if kind.eq(ks[i], k) {
              EarlyExit(kind, d, ks, k, pos, i);
            }
          }
          return false, 0;
        }
        if distances[pos] == dist && kind.eq(keys[pos], k) {
          return true, pos;
        }
        ProbeStep(d, h, pos, e);
        pos := NextBucket(pos);
        dist := dist + 1;
      }
    }

    method Contains(k: K) returns (b: bool)
      requires Lawful(kind) && Valid()
      ensures b == Lookup(kind, Contents(), k).Some?
    {
      if capacity == 0 || length == 0 {
        b := false;
        NoEntries(k);
        return;
      }
      var found, pos := Locate(k);
      b := found;
      Answer(k, found, pos);
    }

    lemma NoEntries(k: K)
      requires Lawful(kind) && Valid() && (capacity == 0 || length == 0)
      ensures Lookup(kind, Contents(), k) == None
    {
    }

    lemma Answer(k: K, found: bool, pos: nat)
      requires Lawful(kind) && Valid()
      requires found ==> pos < capacity && distances[pos] != 0 && kind.eq(keys[pos], k)
      requires !found ==> Absent(kind, distances[..], keys[..], k)
      ensures Lookup(kind, Contents(), k) == if found then Some(values[pos]) else None
    {
      var d, ks, vs := distances[..], keys[..], values[..];
      TableUnique(kind, d, ks, vs);
      if found {
        assert (ks[pos], vs[pos]) in Table() by {
          EntriesMember(d, ks, vs, (ks[pos], vs[pos]));
        }
        LookupFound(kind, Table(), k, (ks[pos], vs[pos]));
      } else {
        AbsentEntries(kind, d, ks, vs, k);
        LookupMissing(kind, Table(), k);
      }
    }

    /** The value stored under an equal key, if there is one. */
    method ProbeValue(k: K) returns (r: Option<V>)
      requires Lawful(kind) && Valid()
      ensures r == Lookup(kind, Contents(), k)
    {
      if capacity == 0 || length == 0 {
        NoEntries(k);
        return None;
      }
      var found, pos := Locate(k);
      Answer(k, found, pos);
      r := if found then Some(values[pos]) else None;
    }

    /** The lookup, and whether it stops at the assertion against an empty map. */
    /** The value under `k`, or nothing; the assertion fails on an empty map. */
    method Get(k: K) returns (r: Option<V>, asserts: bool)
      requires Lawful(kind) && Valid()
      ensures r == Lookup(kind, Contents(), k)
      ensures asserts <==> Contents() == map[]
    {
      TableUnique(kind, distances[..], keys[..], values[..]);
      MapKeys(kind, Table());
      r := ProbeValue(k);
      asserts := r.None? && (capacity == 0 || length == 0);
    }

    /** A value is borrowed, and entries must stay where they are. */
    method Pin()
      modifies `borrowCount
      ensures borrowCount == old(borrowCount) + 1
    {
      borrowCount := borrowCount + 1;
    }

    /** A borrow ends; the assertion fails when there is none. */
    method Unpin() returns (asserts: bool)
      modifies `borrowCount
      ensures asserts <==> old(borrowCount) == 0
      ensures borrowCount == if old(borrowCount) == 0 then 0 else old(borrowCount) - 1
    {
      asserts := !(borrowCount > 0);
      if borrowCount > 0 {
        borrowCount := borrowCount - 1;
      }
    }

    method GetOr(k: K, default: V) returns (v: V)
      requires Lawful(kind) && Valid()
      ensures v == match Lookup(kind, Contents(), k) case Some(x) => x case None => default
    {
      var r := ProbeValue(k);
      v := if r.Some? then r.value else default;
    }

    /** Where an insertion sets out from, and an empty bucket it cannot pass. */
    lemma SetOut(k: K) returns (d0: seq<Byte>, h: nat, e: nat)
      requires Lawful(kind) && Sound() && capacity > 0 && |Table()| < capacity
      requires Absent(kind, distances[..], keys[..], k)
      ensures d0 == distances[..] && h == Home(kind, k, capacity) && e < capacity && d0[e] == 0
      ensures Gradual(d0) && forall i :: 0 <= i < |d0| ==> d0[i] <= 254
      ensures Carrying(kind, d0, keys[..], h, 1, k) && Scanned(d0, h, d0, h, 1)
    {
      d0, h := distances[..], Home(kind, k, capacity);
      e := SomeEmpty(d0, keys[..], values[..], capacity);
    }

    method StoreBucket(pos: nat, dist: Byte, key: K, value: V)
      requires Shaped() && pos < capacity
      modifies distances, keys, values
      ensures distances[..] == old(distances[..])[pos := dist]
      ensures keys[..] == old(keys[..])[pos := key]
      ensures values[..] == old(values[..])[pos := value]
    {
      distances[pos] := dist;
      keys[pos] := key;
      values[pos] := value;
    }

    /** Puts the carried entry into an empty bucket. */
    method Settle(pos: nat, dist: Byte, key: K, value: V)
      requires Lawful(kind) && Sound() && capacity > 0
      requires Carrying(kind, distances[..], keys[..], pos, dist, key) && distances[pos] == 0
      modifies distances, keys, values
      ensures Sound() && Table() == old(Table()) + multiset{(key, value)}
    {
      hide Entries, Lawful;
      PutWellFormed(kind, distances[..], keys[..], pos, dist, key);
      EntryAdded(distances[..], keys[..], values[..], pos, dist, key, value);
      StoreBucket(pos, dist, key, value);
    }

    /** Puts the carried entry into a poorer bucket and takes up the one that was there. */
    method Displace(pos: nat, dist: Byte, key: K, value: V) returns (dist': Byte, key': K, value': V)
      requires Lawful(kind) && Sound() && capacity > 0
      requires Carrying(kind, distances[..], keys[..], pos, dist, key) && 0 < distances[pos] < dist
      modifies distances, keys, values
      ensures Sound() && Absent(kind, distances[..], keys[..], key')
      ensures Table() + multiset{(key', value')} == old(Table()) + multiset{(key, value)}
      ensures distances[..] == old(distances[..])[pos := dist]
      ensures dist' == old(distances[..])[pos] && dist' == Gap(Home(kind, key', capacity), pos, capacity) + 1
    {
      hide Entries, Lawful;
      PutWellFormed(kind, distances[..], keys[..], pos, dist, key);
      EntryReplaced(distances[..], keys[..], values[..], pos, dist, key, value);
      dist', key', value' := distances[pos], keys[pos], values[pos];
      StoreBucket(pos, dist, key, value);
    }

    /**
     Robin Hood insertion without a growth check: the poorer of the carried and
     the stored entry moves on. It fails exactly when the keys and the new one are
     too many for some arc of buckets, which is when an unbroken run leads from the
     key's home to an entry at the largest distance that would have to move.
     */
    method InsertInternal(k: K, v: V) returns (ok: bool)
      requires Lawful(kind) && Sound() && capacity > 0 && |Table()| < capacity
      requires Absent(kind, distances[..], keys[..], k)
      modifies distances, keys, values
      ensures ok ==> Sound() && Table() == old(Table()) + multiset{(k, v)}
      ensures ok <==> !Overlong(old(distances[..]), Home(kind, k, capacity))
      ensures ok <==> !Overfull(kind, KeysOf(old(Table())) + {k}, capacity)
    {
      hide Placed, Gradual, Distinct, Absent, Lawful, Entries, Overlong, Scanned, Home, Overfull, KeysOf, Gap, Next, Prev;
      ghost var d0, h, e := SetOut(k);
      ghost var all := Table() + multiset{(k, v)};
      KeysOfAdd(Table(), k, v);
      var pos := HomeBucket(k);
      var dist: Byte := 1;
      var key, value := k, v;
      while true
        invariant Sound() && Carrying(kind, distances[..], keys[..], pos, dist, key)
        invariant Table() + multiset{(key, value)} == all
        invariant Scanned(d0, h, distances[..], pos, dist)
        invariant distances[e] == 0
        decreases Gap(pos, e, capacity)
      {
        ghost var d, before, here := distances[..], dist, pos;
        if distances[pos] == 0 {
          ScanDone(d0, h, d, pos, dist);
          Settle(pos, dist, key, value);
          Held();
          return true;
        }
        if distances[pos] < dist {
          dist, key, value := Displace(pos, dist, key, value);
        }
        ScanStep(d0, h, d, pos, before, distances[..], e);
        StepOn(kind, distances[..], keys[..], pos, dist, key, e);
        pos := NextBucket(pos);
        dist := dist + 1;
        if !(dist < 255) {
          Stuck(all, key, value, here, e);
          return false;
        }
      }
    }

    /** A sound table's keys are not too many anywhere. */
    lemma Held()
      requires Lawful(kind) && Sound() && capacity > 0
      ensures !Overfull(kind, KeysOf(Table()), capacity)
    {
      NotOverfull(kind, distances[..], keys[..]);
      StoredKeys(distances[..], keys[..], values[..]);
    }

    /** An insertion that would push an entry past the largest distance has too many keys to place. */
    lemma Stuck(all: multiset<(K, V)>, key: K, value: V, p: nat, e: nat)
      requires Lawful(kind) && Sound() && p < capacity && e < capacity && distances[p] == 254 && distances[e] == 0
      requires Absent(kind, distances[..], keys[..], key) && Gap(Home(kind, key, capacity), p, capacity) == 253
      requires Table() + multiset{(key, value)} == all
      ensures Overfull(kind, KeysOf(all), capacity)
    {
      hide Home, Absent, Distinct, Gradual, Entries, Overfull, Stored, KeysOf, Lawful;
      var d, ks := distances[..], keys[..];
      assert Gap(Home(kind, ks[p], capacity), p, capacity) == 253;
      StuckOverfull(kind, d, ks, key, p, e);
      StoredKeys(d, ks, values[..]);
      KeysOfAdd(Table(), key, value);
    }

    /** Fresh empty buckets; a capacity of zero is the allocator's assertion failure. */
    method AllocBuckets(newCapacity: nat)
      requires IsPowerOfTwo(newCapacity) && 8 <= newCapacity <= 0x8000_0000
      modifies this
      ensures capacity == newCapacity && Sound() && Table() == multiset{}
      ensures length == old(length) && borrowCount == old(borrowCount)
      ensures fresh(distances) && fresh(keys) && fresh(values)
    {
      hide WellFormed, EntriesTo, IsPowerOfTwo;
      capacity := newCapacity;
      distances := new Byte[newCapacity](_ => 0);
      keys := new K[newCapacity](_ => zeroKey);
      values := new V[newCapacity](_ => zeroValue);
      EmptyWellFormed(kind, distances[..], keys[..]);
      NothingStored(distances[..], keys[..], values[..], newCapacity);
    }

    /** Places every entry of the old buckets, whose last contents are `d`, `ks` and `vs`, again. */
    method Rehash(d: seq<Byte>, ks: seq<K>, vs: seq<V>) returns (ok: bool)
      requires Lawful(kind) && Sound() && Table() == multiset{} && length == 0
      requires |d| == |ks| == |vs| < capacity && Distinct(kind, d, ks)
      modifies this`length, distances, keys, values
      ensures ok ==> Sound() && Table() == Entries(d, ks, vs) && length == |Table()|
      ensures ok <==> !Overfull(kind, KeysOf(Entries(d, ks, vs)), capacity)
    {
      hide Placed, Gradual, Distinct, Lawful, EntriesTo, Overfull, KeysOf, Overlong;
      NothingStored(d, ks, vs, 0);
      var i := 0;
      while i < |d|
        invariant 0 <= i <= |d|
        invariant Sound() && Table() == EntriesTo(d, ks, vs, i) && length == |Table()|
      {
        OneMore(d, ks, vs, i);
        if d[i] != 0 {
          LaterAbsent(kind, d, ks, vs, distances[..], keys[..], values[..], i);
          ok := InsertInternal(ks[i], vs[i]);
          if !ok {
            KeysOfAdd(EntriesTo(d, ks, vs, i), ks[i], vs[i]);
            PrefixKeys(d, ks, vs, i + 1, |d|);
            OverfullMore(kind, KeysOf(EntriesTo(d, ks, vs, i + 1)), KeysOf(Entries(d, ks, vs)), capacity);
            return;
          }
          length := length + 1;
        }
        i := i + 1;
      }
      ok := true;
      Held();
    }

    /** Twice the buckets, every entry placed again; a 33-bit capacity or a 255th probe step is a trap. */
    method Grow() returns (ok: bool)
      requires Lawful(kind) && Valid()
      modifies this
      ensures ok ==> Sound() && Table() == old(Table()) && length == old(length)
      ensures ok ==> capacity == GrownCapacity(old(capacity))
      ensures ok <==> GrownCapacity(old(capacity)) != 0 && !Overfull(kind, KeysOf(old(Table())), GrownCapacity(old(capacity)))
      ensures distances == old(distances) || fresh(distances)
      ensures keys == old(keys) || fresh(keys)
      ensures values == old(values) || fresh(values)
      ensures ok ==> fresh(distances) && fresh(keys) && fresh(values)
      ensures borrowCount == old(borrowCount)
    {
      var oldDistances, oldKeys, oldValues := distances[..], keys[..], values[..];
      var newCapacity := GrownCapacity(capacity);
      GrownCapacityIs(capacity);
      if !(newCapacity > 0) {
        return false;
      }
      AllocBuckets(newCapacity);
      length := 0;
      ok := Rehash(oldDistances, oldKeys, oldValues);
    }

    // ----- The counts an operation moves -----

    method CountIn(k: K, v: V)
      requires LiveKey(kind, heap.counts, k)
      modifies heap
      ensures heap.counts == EntryIn(kind, old(heap.counts), k, v) && heap.trapped == old(heap.trapped)
    {
      if kind.valueIsRef {
        heap.RefInc(kind.valPtr(v));
      }
      if kind.keyCounted {
        heap.StringRetain(kind.keyPtr(k));
      }
    }

    method CountOut(k: K, v: V)
      requires LiveKey(kind, heap.counts, k)
      requires kind.valueIsRef && kind.valPtr(v) != 0 ==> heap.counts.Ref(kind.valPtr(v)) > 0
      modifies heap
      ensures heap.counts == EntryOut(kind, old(heap.counts), k, v) && heap.trapped == old(heap.trapped)
    {
      if kind.valueIsRef {
        heap.RefDec(kind.valPtr(v));
      }
      if kind.keyCounted {
        heap.StringRelease(kind.keyPtr(k));
      }
    }

    method CountSwap(v: V, w: V)
      requires kind.valueIsRef && kind.valPtr(v) != 0 ==> heap.counts.Ref(kind.valPtr(v)) > 0
      modifies heap
      ensures heap.counts == EntrySwap(kind, old(heap.counts), v, w) && heap.trapped == old(heap.trapped)
    {
      if kind.valueIsRef {
        heap.RefDec(kind.valPtr(v));
        heap.RefInc(kind.valPtr(w));
      }
    }

    // ----- Mutation -----

    /** Overwrites the value of a located entry. */
    method SetValue(pos: nat, v: V)
      requires Valid() && pos < capacity && distances[pos] != 0
      modifies values
      ensures Valid()
      ensures old((keys[pos], values[pos]) in Table())
      ensures Table() == old(Table()) - multiset{old((keys[pos], values[pos]))} + multiset{old((keys[pos], v))}
    {
      ghost var d, ks, vs := distances[..], keys[..], values[..];
      ValueReplaced(d, ks, vs, pos, v);
      values[pos] := v;
      assert distances[..] == d && keys[..] == ks && values[..] == vs[pos := v];
    }

    /**
     Inserts or replaces. A new entry takes a count on its key and its value; a
     replacement keeps the stored key and only exchanges the value's borrow.
     */
    method Insert(k: K, v: V) returns (o: Outcome)
      requires Lawful(kind) && Valid() && Paid() && LiveKey(kind, heap.counts, k)
      modifies this, distances, keys, values, heap
      ensures o.Refused? <==> old(borrowCount) != 0
      ensures o.Refused? ==> Valid() && Table() == old(Table()) && capacity == old(capacity) && heap.counts == old(heap.counts)
      ensures o.Done? ==> Valid() && Contents() == Put(kind, old(Contents()), k, v)
      ensures o.Done? ==> Paid() && Moved(kind, old(heap.counts), old(Table()), heap.counts, Table())
      ensures old(borrowCount) == 0 && Lookup(kind, old(Contents()), k).Some? ==> o.Done? && capacity == old(capacity)
      ensures old(borrowCount) == 0 && Lookup(kind, old(Contents()), k).None? ==>
                && (o.Trap? <==> NoRoom(kind, old(Contents()).Keys, |old(Contents())|, old(capacity), k))
                && (o.Done? ==> capacity == RoomFor(|old(Contents())|, old(capacity)))
      ensures heap.trapped == old(heap.trapped)
      ensures distances == old(distances) || fresh(distances)
      ensures keys == old(keys) || fresh(keys)
      ensures values == old(values) || fresh(values)
      ensures borrowCount == old(borrowCount)
    {
      hide Placed, Gradual, Distinct, PaidFor, Moved, Entries, Lawful, Unique, AsMap, Put, Lookup, NoRoom, KeysOf, RoomFor;
      TableUnique(kind, distances[..], keys[..], values[..]);
      MapKeys(kind, Table());
      if borrowCount != 0 {
        return Refused;
      }
      if capacity > 0 && length > 0 {
        var found, pos := Locate(k);
        Answer(k, found, pos);
        if found {
          ReplaceAt(pos, k, v);
          return Done;
        }
      } else {
        NoKeys(kind, distances[..], keys[..], values[..], k);
        NoEntries(k);
      }
      o := AddNew(k, v);
    }

    /** The replacing branch of an insertion. */
    method ReplaceAt(pos: nat, k: K, v: V)
      requires Lawful(kind) && Valid() && Paid()
      requires pos < capacity && distances[pos] != 0 && kind.eq(keys[pos], k)
      modifies values, heap
      ensures Valid() && Contents() == Put(kind, old(Contents()), k, v)
      ensures Paid() && Moved(kind, old(heap.counts), old(Table()), heap.counts, Table())
      ensures heap.trapped == old(heap.trapped)
    {
      hide Placed, Gradual, Distinct, PaidFor, Moved, EntryIn, EntryOut, EntrySwap, Entries, Lawful, Unique, AsMap, Put, Drop, Lookup;
      ghost var e0, c0, a := Table(), heap.counts, (keys[pos], values[pos]);
      EntriesMember(distances[..], keys[..], values[..], a);
      assert a in e0;
      TableUnique(kind, distances[..], keys[..], values[..]);
      SwapMoves(kind, c0, e0, a.0, a.1, v);
      PutOver(kind, e0, k, v, a);
      CountSwap(values[pos], v);
      SetValue(pos, v);
    }

    /** The adding branch of an insertion: grow past the load bound, take the counts, place the entry. */
    method AddNew(k: K, v: V) returns (o: Outcome)
      requires Lawful(kind) && Valid() && Paid() && LiveKey(kind, heap.counts, k)
      requires Absent(kind, distances[..], keys[..], k)
      modifies this, distances, keys, values, heap
      ensures o != Refused
      ensures o.Done? ==> Valid() && Contents() == Put(kind, old(Contents()), k, v)
      ensures o.Done? ==> Paid() && Moved(kind, old(heap.counts), old(Table()), heap.counts, Table())
      ensures o.Trap? <==> NoRoom(kind, KeysOf(old(Table())), old(length), old(capacity), k)
      ensures o.Done? ==> capacity == RoomFor(old(length), old(capacity))
      ensures heap.trapped == old(heap.trapped)
      ensures distances == old(distances) || fresh(distances)
      ensures keys == old(keys) || fresh(keys)
      ensures values == old(values) || fresh(values)
      ensures borrowCount == old(borrowCount)
    {
      hide Placed, Gradual, Distinct, PaidFor, Moved, EntryIn, EntryOut, EntrySwap, Entries, Lawful, Unique, AsMap, Put, Drop, Lookup, Overfull, KeysOf;
      ghost var e0, c0 := Table(), heap.counts;
      TooManyAlready(kind, KeysOf(e0), k, GrownCapacity(capacity));
      TableUnique(kind, distances[..], keys[..], values[..]);
      AbsentEntries(kind, distances[..], keys[..], values[..], k);
      PutNew(kind, e0, k, v);
      InMoves(kind, c0, e0, k, v);
      var room := EnsureRoom();
      if !room {
        return Trap;
      }
      AbsentEntries(kind, distances[..], keys[..], values[..], k);
      CountIn(k, v);
      var ok := PlaceNew(k, v);
      o := if ok then Done else Trap;
    }

    /** Places a new entry and counts it in the length. */
    method PlaceNew(k: K, v: V) returns (ok: bool)
      requires Lawful(kind) && Valid() && Absent(kind, distances[..], keys[..], k)
      requires 5 * (length + 1) <= 4 * capacity
      modifies `length, distances, keys, values
      ensures ok ==> Valid() && Table() == old(Table()) + multiset{(k, v)}
      ensures ok <==> !Overfull(kind, KeysOf(old(Table())) + {k}, capacity)
    {
      hide Placed, Gradual, Distinct, Entries, Lawful, Overlong, Overfull, KeysOf;
      ok := InsertInternal(k, v);
      length := length + 1;
    }

    /** Grows the table when one more entry would pass four fifths of it; the product wraps at 32 bits. */
    method EnsureRoom() returns (ok: bool)
      requires Lawful(kind) && Valid()
      modifies this
      ensures ok ==> Valid() && Table() == old(Table()) && length == old(length) && 5 * (length + 1) <= 4 * capacity
      ensures ok ==> capacity == RoomFor(old(length), old(capacity))
      ensures !Crowded(old(length), old(capacity)) ==> ok
      ensures Crowded(old(length), old(capacity)) ==>
                (ok <==> GrownCapacity(old(capacity)) != 0 && !Overfull(kind, KeysOf(old(Table())), GrownCapacity(old(capacity))))
      ensures distances == old(distances) || fresh(distances)
      ensures keys == old(keys) || fresh(keys)
      ensures values == old(values) || fresh(values)
      ensures borrowCount == old(borrowCount)
    {
      hide Placed, Gradual, Distinct, Entries, Lawful, Overfull, KeysOf, GrownCapacity, IsPowerOfTwo;
      if capacity == 0 || length + 1 > (capacity * 4) % 0x1_0000_0000 / 5 {
        GrownRoom(length, capacity);
        ok := Grow();
      } else {
        LoadBound(length, capacity);
        ok := true;
      }
    }

    /** Deletes the entry with an equal key, releasing the stored key rather than the caller's, and shifts back. */
    method Remove(k: K) returns (removed: bool)
      requires Lawful(kind) && Valid() && Paid()
      modifies this, distances, keys, values, heap
      ensures Valid() && Paid()
      ensures removed <==> old(borrowCount) == 0 && Lookup(kind, old(Contents()), k).Some?
      ensures Contents() == if old(borrowCount) == 0 then Drop(kind, old(Contents()), k) else old(Contents())
      ensures Moved(kind, old(heap.counts), old(Table()), heap.counts, Table())
      ensures heap.trapped == old(heap.trapped) && borrowCount == old(borrowCount)
      ensures distances == old(distances) && keys == old(keys) && values == old(values) && capacity == old(capacity)
    {
      hide Placed, Gradual, Distinct, PaidFor, Moved, EntriesTo, Lawful, Unique, AsMap, Put, Drop, Lookup;
      NothingMoved(kind, heap.counts, Table());
      if borrowCount != 0 {
        return false;
      }
      if capacity == 0 || length == 0 {
        NoKeys(kind, distances[..], keys[..], values[..], k);
        Missing(k);
        return false;
      }
      var found, pos := Locate(k);
      if !found {
        Missing(k);
        return false;
      }
      RemoveAt(pos, k);
      removed := true;
    }

    lemma Missing(k: K)
      requires Lawful(kind) && Valid() && Absent(kind, distances[..], keys[..], k)
      ensures Lookup(kind, Contents(), k) == None && Drop(kind, Contents(), k) == Contents()
    {
      AbsentEntries(kind, distances[..], keys[..], values[..], k);
      TableUnique(kind, distances[..], keys[..], values[..]);
      LookupMissing(kind, Table(), k);
      DropMissing(kind, Table(), k);
    }

    method RemoveAt(pos: nat, k: K)
      requires Lawful(kind) && Valid() && Paid()
      requires pos < capacity && distances[pos] != 0 && kind.eq(keys[pos], k)
      modifies `length, distances, keys, values, heap
      ensures Valid() && Paid()
      ensures Lookup(kind, old(Contents()), k).Some? && Contents() == Drop(kind, old(Contents()), k)
      ensures Moved(kind, old(heap.counts), old(Table()), heap.counts, Table())
      ensures heap.trapped == old(heap.trapped)
    {
      hide Placed, Gradual, Distinct, PaidFor, Moved, EntryIn, EntryOut, EntrySwap, Entries, Lawful, Unique, AsMap, Put, Drop, Lookup;
      ghost var e0, c0, a := Table(), heap.counts, (keys[pos], values[pos]);
      EntriesMember(distances[..], keys[..], values[..], a);
      assert a in e0;
      TableUnique(kind, distances[..], keys[..], values[..]);
      LookupFound(kind, e0, k, a);
      OutMoves(kind, c0, e0, a.0, a.1);
      DropFound(kind, e0, k, a);
      CountOut(keys[pos], values[pos]);
      length := length - 1;
      ShiftBack(pos);
    }

    /** Backward-shift deletion of the entry at `start`. */
    method ShiftBack(start: nat)
      requires Sound() && start < capacity && distances[start] != 0
      requires |Table()| < capacity
      modifies distances, keys, values
      ensures Sound()
      ensures old((keys[start], values[start]) in Table())
      ensures Table() == old(Table()) - multiset{old((keys[start], values[start]))}
      ensures |Table()| == |old(Table())| - 1
    {
      hide Placed, Gradual, Distinct, Lawful, EntriesTo;
      ghost var e := SomeEmpty(distances[..], keys[..], values[..], capacity);
      ghost var left := Table() - multiset{(keys[start], values[start])};
      var pos := start;
      EntryRemoved(distances[..], keys[..], values[..], start, zeroKey, zeroValue);
      ShiftStart(kind, distances[..], keys[..], start);
      while true
        invariant pos < capacity && Shifting(kind, distances[..], keys[..], pos)
        invariant Table() - multiset{(keys[pos], values[pos])} == left
        invariant |Table()| == |old(Table())|
        invariant distances[e] == 0
        decreases Gap(pos, e, capacity)
      {
        var next := NextBucket(pos);
        if distances[next] <= 1 {
          Vacate(pos);
          return;
        }
        PullBack(pos, next);
        pos := next;
      }
    }

    /** Ends a backward shift: the spare bucket becomes empty. */
    method Vacate(pos: nat)
      requires Shaped() && pos < capacity && Shifting(kind, distances[..], keys[..], pos)
      requires distances[Next(pos, capacity)] <= 1
      modifies distances, keys, values
      ensures Sound()
      ensures Table() == old(Table()) - multiset{old((keys[pos], values[pos]))}
      ensures |Table()| == |old(Table())| - 1
    {
      hide Placed, Gradual, Distinct, EntriesTo;
      ghost var d, ks, vs := distances[..], keys[..], values[..];
      ShiftEnd(kind, d, ks, pos, zeroKey);
      EntryRemoved(d, ks, vs, pos, zeroKey, zeroValue);
      distances[pos] := 0;
      keys[pos] := zeroKey;
      values[pos] := zeroValue;
      assert distances[..] == d[pos := 0] && keys[..] == ks[pos := zeroKey] && values[..] == vs[pos := zeroValue];
    }

    /** One backward shift: the next entry moves into the spare bucket and leaves its own as the spare one. */
    method PullBack(pos: nat, next: nat)
      requires Shaped() && pos < capacity && Shifting(kind, distances[..], keys[..], pos)
      requires next == Next(pos, capacity) && distances[next] > 1
      modifies distances, keys, values
      ensures Shifting(kind, distances[..], keys[..], next)
      ensures Table() - multiset{(keys[next], values[next])} == old(Table()) - multiset{old((keys[pos], values[pos]))}
      ensures |Table()| == |old(Table())|
      ensures forall i :: 0 <= i < capacity && i != pos ==> distances[i] == old(distances[i])
    {
      hide Placed, Gradual, Distinct, EntriesTo;
      ghost var d, ks, vs := distances[..], keys[..], values[..];
      ShiftStep(kind, d, ks, pos);
      ShiftEntries(d, ks, vs, pos, next);
      distances[pos] := distances[next] - 1;
      keys[pos] := keys[next];
      values[pos] := values[next];
      assert distances[..] == d[pos := d[next] - 1];
      assert keys[..] == ks[pos := ks[next]];
      assert values[..] == vs[pos := vs[next]];
    }

    /** Empties every bucket, releasing every counted key and value first. */
    method Clear()
      requires Valid() && Paid()
      modifies this, distances, keys, values, heap
      ensures Valid() && Paid()
      ensures Table() == if old(borrowCount) == 0 then multiset{} else old(Table())
      ensures Moved(kind, old(heap.counts), old(Table()), heap.counts, Table())
      ensures heap.trapped == old(heap.trapped) && borrowCount == old(borrowCount)
      ensures distances == old(distances) && keys == old(keys) && values == old(values) && capacity == old(capacity)
    {
      hide PaidFor, Moved, EntriesTo, WellFormed, IsPowerOfTwo;
      NothingMoved(kind, heap.counts, Table());
      if borrowCount != 0 {
        return;
      }
      if kind.keyCounted || kind.valueIsRef {
        ReleaseAll();
      } else {
        Uncounted(kind, heap.counts, Table(), multiset{});
      }
      length := 0;
      EmptyBuckets();
    }

    method EmptyBuckets()
      requires Shaped()
      modifies distances, keys, values
      ensures Sound() && Table() == multiset{}
    {
      hide WellFormed, EntriesTo, IsPowerOfTwo;
      forall i | 0 <= i < capacity {
        distances[i] := 0;
      }
      forall i | 0 <= i < capacity {
        keys[i] := zeroKey;
      }
      forall i | 0 <= i < capacity {
        values[i] := zeroValue;
      }
      if capacity > 0 {
        EmptyWellFormed(kind, distances[..], keys[..]);
      }
      NothingStored(distances[..], keys[..], values[..], capacity);
    }

    method ReleaseAll()
      requires Valid() && Paid()
      modifies heap
      ensures PaidFor(kind, heap.counts, multiset{})
      ensures Moved(kind, old(heap.counts), Table(), heap.counts, multiset{})
      ensures heap.trapped == old(heap.trapped)
    {
      hide PaidFor, Moved, EntriesTo, EntryOut, Placed, Gradual, Distinct;
      ghost var d, ks, vs := distances[..], keys[..], values[..];
      ghost var all, c0 := Table(), heap.counts;
      NothingStored(d, ks, vs, 0);
      NothingMoved(kind, c0, all);
      assert all - EntriesTo(d, ks, vs, 0) == all;
      var i := 0;
      while i < capacity
        invariant 0 <= i <= capacity
        invariant PaidFor(kind, heap.counts, all - EntriesTo(d, ks, vs, i))
        invariant Moved(kind, c0, all, heap.counts, all - EntriesTo(d, ks, vs, i))
        invariant heap.trapped == old(heap.trapped)
      {
        OneMore(d, ks, vs, i);
        if distances[i] != 0 {
          ghost var c, e := heap.counts, all - EntriesTo(d, ks, vs, i);
          OneLess(d, ks, vs, i);
          OutMoves(kind, c, e, keys[i], values[i]);
          CountOut(keys[i], values[i]);
          MovedTwice(kind, c0, all, c, e, heap.counts, e - multiset{(ks[i], vs[i])});
        }
        i := i + 1;
      }
      assert all - EntriesTo(d, ks, vs, i) == multiset{};
    }

    // ----- Enumeration and copying -----

    /** The entries in bucket order. */
    ghost function Listing(): seq<(K, V)>
      requires Shaped()
      reads `capacity, `distances, `keys, `values, distances, keys, values
    {
      Items(distances[..], keys[..], values[..], capacity)
    }

    /** The listing has every entry of the map exactly once. */
    lemma ListingEnumerates()
      requires Lawful(kind) && Valid()
      ensures |Listing()| == length == |Contents()|
      ensures forall i :: 0 <= i < |Listing()| ==> Listing()[i].0 in Contents() && Contents()[Listing()[i].0] == Listing()[i].1
      ensures forall i, j :: 0 <= i < j < |Listing()| ==> !kind.eq(Listing()[i].0, Listing()[j].0)
      ensures forall k :: k in Contents() ==> exists i :: 0 <= i < |Listing()| && Listing()[i].0 == k
    {
      hide EntriesTo, Items, Placed, Gradual, Unique, Represents;
      var d, ks, vs := distances[..], keys[..], values[..];
      ItemsBag(d, ks, vs, capacity);
      TableUnique(kind, d, ks, vs);
      AsMapSize(kind, Table());
      AsMapRepresents(kind, Table());
      ListingOfBag(kind, Listing(), AsMap(kind, Table()), Table());
    }

    lemma CleanContents()
      requires Lawful(kind) && Valid()
      ensures Table() == multiset{} ==> Contents() == map[]
    {
    }

    /** A key put into a list is retained for it. */
    method ListedKey(k: K, ghost c0: Counts, ghost ss: multiset<nat>, ghost rs: multiset<nat>, ghost r: seq<K>)
      requires kind.keyCounted ==> kind.keyPtr(k) in ss
      requires Covers(heap.counts, ss + KeyHolds(kind, r), rs)
      requires Balanced(c0, ss, rs, heap.counts, ss + KeyHolds(kind, r), rs)
      modifies heap
      ensures Covers(heap.counts, ss + KeyHolds(kind, r + [k]), rs)
      ensures Balanced(c0, ss, rs, heap.counts, ss + KeyHolds(kind, r + [k]), rs)
      ensures heap.trapped == old(heap.trapped)
    {
      hide Balanced, Covers, Holds;
      ghost var c, b := heap.counts, KeyHolds(kind, r);
      HoldsAdd(r, kind.keyPtr, k);
      if kind.keyCounted {
        var p := kind.keyPtr(k);
        LiveHolder(c, ss, b, rs, p);
        RetainMoves(c, ss + b, rs, p);
        assert (ss + b) + multiset{p} == ss + KeyHolds(kind, r + [k]);
        heap.StringRetain(p);
        BalancedTrans(c0, ss, rs, c, ss + b, rs, heap.counts, ss + KeyHolds(kind, r + [k]), rs);
      }
    }

    /** A `ref` value put into a list is borrowed for it. */
    method ListedValue(v: V, ghost c0: Counts, ghost ss: multiset<nat>, ghost rs: multiset<nat>, ghost r: seq<V>)
      requires Covers(heap.counts, ss, rs + ValueHolds(kind, r))
      requires Balanced(c0, ss, rs, heap.counts, ss, rs + ValueHolds(kind, r))
      modifies heap
      ensures Covers(heap.counts, ss, rs + ValueHolds(kind, r + [v]))
      ensures Balanced(c0, ss, rs, heap.counts, ss, rs + ValueHolds(kind, r + [v]))
      ensures heap.trapped == old(heap.trapped)
    {
      hide Balanced, Covers, Holds;
      ghost var c, b := heap.counts, ValueHolds(kind, r);
      HoldsAdd(r, kind.valPtr, v);
      if kind.valueIsRef {
        var p := kind.valPtr(v);
        RefIncMoves(c, ss, rs + b, p);
        assert (rs + b) + multiset{p} == rs + ValueHolds(kind, r + [v]);
        heap.RefInc(p);
        BalancedTrans(c0, ss, rs, c, ss, rs + b, heap.counts, ss, rs + ValueHolds(kind, r + [v]));
      }
    }

    /** Mid-listing: the list holds the keys of the first `i` buckets, with its own count on every counted one. */
    ghost predicate KeysTaken(lst: RoxyList<K>, i: nat, c0: Counts)
      reads this, distances, keys, values, heap, lst, lst.elements
    {
      && Shaped() && i <= capacity
      && lst.Valid() && lst.heap == heap && lst.zero == zeroKey && lst.capacity == length
      && lst.borrowCount == 0 && !lst.elementIsRef
      && lst.Contents() == Firsts(Items(distances[..], keys[..], values[..], i))
      && Covers(heap.counts, HeldStrings(kind, Table()) + KeyHolds(kind, lst.Contents()), HeldRefs(kind, Table()))
      && Balanced(c0, HeldStrings(kind, Table()), HeldRefs(kind, Table()), heap.counts, HeldStrings(kind, Table()) + KeyHolds(kind, lst.Contents()), HeldRefs(kind, Table()))
    }

    /** One bucket of the listing. */
    method TakeKey(lst: RoxyList<K>, i: nat, ghost c0: Counts)
      requires Valid() && i < capacity && KeysTaken(lst, i, c0)
      requires lst.elements as object !in {distances as object, keys, values}
      modifies heap, lst, lst.elements
      ensures Valid() && KeysTaken(lst, i + 1, c0) && lst.elements == old(lst.elements)
      ensures heap.trapped == old(heap.trapped)
    {
      hide Balanced, Covers, HeldStrings, HeldRefs, WellFormed, Distinct, Entries, Items, Firsts, KeyHolds, IsPowerOfTwo;
      OneItem(distances[..], keys[..], values[..], i);
      if distances[i] != 0 {
        RoomLeft(distances[..], keys[..], values[..], i);
        ghost var r := lst.Contents();
        var pushed := lst.Push(keys[i]);
        EntriesMember(distances[..], keys[..], values[..], (keys[..][i], values[..][i]));
        HeldPointers(kind, Table(), keys[i], values[i]);
        ListedKey(keys[i], c0, HeldStrings(kind, Table()), HeldRefs(kind, Table()), r);
      }
    }

    /** A list of the keys; the list takes its own count on every counted key. */
    method Keys() returns (lst: RoxyList<K>)
      requires Valid() && Paid()
      modifies heap
      ensures fresh(lst) && fresh(lst.elements) && lst.Valid() && lst.heap == heap
      ensures lst.Contents() == Firsts(Listing()) && !lst.elementIsRef && lst.borrowCount == 0 && lst.capacity == length
      ensures Balanced(old(heap.counts), HeldStrings(kind, Table()), HeldRefs(kind, Table()),
                       heap.counts, HeldStrings(kind, Table()) + KeyHolds(kind, lst.Contents()), HeldRefs(kind, Table()))
      ensures Covers(heap.counts, HeldStrings(kind, Table()) + KeyHolds(kind, lst.Contents()), HeldRefs(kind, Table()))
      ensures heap.trapped == old(heap.trapped)
    {
      hide Balanced, Covers, HeldStrings, HeldRefs, WellFormed, Distinct, Entries, Items, Firsts, KeyHolds, IsPowerOfTwo;
      ghost var c0 := heap.counts;
      lst := new RoxyList(zeroKey, heap, length);
      ghost var buffer := lst.elements;
      StillBalanced(c0, HeldStrings(kind, Table()), HeldRefs(kind, Table()));
      NoItems(kind, distances[..], keys[..], values[..]);
      assert HeldStrings(kind, Table()) + KeyHolds(kind, []) == HeldStrings(kind, Table());
      var i := 0;
      while i < capacity
        invariant Valid() && KeysTaken(lst, i, c0) && lst.elements == buffer
        invariant heap.trapped == old(heap.trapped)
        modifies heap, lst, buffer
      {
        TakeKey(lst, i, c0);
        i := i + 1;
      }
    }

    /** Mid-listing: the list holds the values of the first `i` buckets, with its own borrow of every `ref` one. */
    ghost predicate ValuesTaken(lst: RoxyList<V>, i: nat, c0: Counts)
      reads this, distances, keys, values, heap, lst, lst.elements
    {
      && Shaped() && i <= capacity
      && lst.Valid() && lst.heap == heap && lst.zero == zeroValue && lst.capacity == length
      && lst.borrowCount == 0 && !lst.elementIsRef
      && lst.Contents() == Seconds(Items(distances[..], keys[..], values[..], i))
      && Covers(heap.counts, HeldStrings(kind, Table()), HeldRefs(kind, Table()) + ValueHolds(kind, lst.Contents()))
      && Balanced(c0, HeldStrings(kind, Table()), HeldRefs(kind, Table()), heap.counts, HeldStrings(kind, Table()), HeldRefs(kind, Table()) + ValueHolds(kind, lst.Contents()))
    }

    /** One bucket of the listing. */
    method TakeValue(lst: RoxyList<V>, i: nat, ghost c0: Counts)
      requires Valid() && i < capacity && ValuesTaken(lst, i, c0)
      requires lst.elements as object !in {distances as object, keys, values}
      modifies heap, lst, lst.elements
      ensures Valid() && ValuesTaken(lst, i + 1, c0) && lst.elements == old(lst.elements)
      ensures heap.trapped == old(heap.trapped)
    {
      hide Balanced, Covers, HeldStrings, HeldRefs, WellFormed, Distinct, Entries, Items, Seconds, ValueHolds, IsPowerOfTwo;
      OneItem(distances[..], keys[..], values[..], i);
      if distances[i] != 0 {
        RoomLeft(distances[..], keys[..], values[..], i);
        ghost var r := lst.Contents();
        var pushed := lst.Push(values[i]);
        ListedValue(values[i], c0, HeldStrings(kind, Table()), HeldRefs(kind, Table()), r);
      }
    }

    /** A list of the values, in the same order; the list takes its own borrow of every `ref` value. */
    method Values() returns (lst: RoxyList<V>)
      requires Valid() && Paid()
      modifies heap
      ensures fresh(lst) && fresh(lst.elements) && lst.Valid() && lst.heap == heap
      ensures lst.Contents() == Seconds(Listing()) && lst.elementIsRef == kind.valueIsRef && lst.borrowCount == 0 && lst.capacity == length
      ensures Balanced(old(heap.counts), HeldStrings(kind, Table()), HeldRefs(kind, Table()),
                       heap.counts, HeldStrings(kind, Table()), HeldRefs(kind, Table()) + ValueHolds(kind, lst.Contents()))
      ensures Covers(heap.counts, HeldStrings(kind, Table()), HeldRefs(kind, Table()) + ValueHolds(kind, lst.Contents()))
      ensures heap.trapped == old(heap.trapped)
    {
      hide Balanced, Covers, HeldStrings, HeldRefs, WellFormed, Distinct, Entries, Items, Seconds, ValueHolds, IsPowerOfTwo;
      ghost var c0 := heap.counts;
      lst := new RoxyList(zeroValue, heap, length);
      ghost var buffer := lst.elements;
      StillBalanced(c0, HeldStrings(kind, Table()), HeldRefs(kind, Table()));
      NoItems(kind, distances[..], keys[..], values[..]);
      assert HeldRefs(kind, Table()) + ValueHolds(kind, []) == HeldRefs(kind, Table());
      var i := 0;
      while i < capacity
        invariant Valid() && ValuesTaken(lst, i, c0) && lst.elements == buffer
        invariant heap.trapped == old(heap.trapped)
        modifies heap, lst, buffer
      {
        TakeValue(lst, i, c0);
        i := i + 1;
      }
      lst.elementIsRef := kind.valueIsRef;
    }

    /** An equal map in buckets of its own; the copy takes its own count on everything it holds. */
    method Copy() returns (dst: RoxyMap<K, V>)
      requires Lawful(kind) && Valid() && Paid()
      modifies heap
      ensures fresh(dst) && fresh(dst.distances) && fresh(dst.keys) && fresh(dst.values)
      ensures dst.kind == kind && dst.heap == heap && dst.borrowCount == 0 && dst.capacity == capacity
      ensures dst.Valid() && dst.Contents() == Contents() && dst.Listing() == Listing()
      ensures Shared(kind, old(heap.counts), Table(), heap.counts, dst.Table())
      ensures heap.trapped == old(heap.trapped)
    {
      hide Balanced, Covers, HeldStrings, HeldRefs, WellFormed, Distinct, Entries, Items, AsMap, Lawful;
      dst := new RoxyMap(kind, zeroKey, zeroValue, heap, 0);
      if capacity > 0 {
        dst.AllocBuckets(capacity);
      }
      dst.CopyBuckets(this);
      RetainAll();
    }

    /** Copies another map's buckets into buckets of the same number. */
    method CopyBuckets(src: RoxyMap<K, V>)
      requires src.Valid() && Shaped() && kind == src.kind && capacity == src.capacity
      requires {distances as object, keys, values} !! {src.distances as object, src.keys, src.values}
      requires this != src
      modifies `length, distances, keys, values
      ensures distances[..] == src.distances[..] && keys[..] == src.keys[..] && values[..] == src.values[..]
      ensures length == src.length
    {
      length := src.length;
      forall i | 0 <= i < capacity {
        distances[i] := src.distances[i];
      }
      forall i | 0 <= i < capacity {
        keys[i] := src.keys[i];
      }
      forall i | 0 <= i < capacity {
        values[i] := src.values[i];
      }
    }

    /** Takes a second count on everything in the table. */
    method RetainAll()
      requires Valid() && Paid()
      modifies heap
      ensures Shared(kind, old(heap.counts), Table(), heap.counts, Table())
      ensures heap.trapped == old(heap.trapped)
    {
      hide Shared, PaidFor, EntryIn, WellFormed, Distinct, EntriesTo, Entries, Lawful;
      ghost var d, ks, vs := distances[..], keys[..], values[..];
      ghost var c0 := heap.counts;
      NothingStored(d, ks, vs, 0);
      NothingShared(kind, c0, Table());
      WholeTable(d, ks, vs);
      var i := 0;
      while i < capacity
        invariant 0 <= i <= capacity && distances[..] == d && keys[..] == ks && values[..] == vs
        invariant Shared(kind, c0, Table(), heap.counts, EntriesTo(d, ks, vs, i))
        invariant heap.trapped == old(heap.trapped)
      {
        OneMore(d, ks, vs, i);
        if distances[i] != 0 {
          EntriesMember(d, ks, vs, (ks[i], vs[i]));
          RetainStep(kind, c0, Table(), heap.counts, EntriesTo(d, ks, vs, i), ks[i], vs[i]);
          CountIn(keys[i], values[i]);
        }
        i := i + 1;
      }
    }

    /** The capacity as generated code sees it. */
    method IterCapacity() returns (n: int)
      requires Shaped()
      ensures n == AsInt32(capacity)
    {
      n := AsInt32(capacity);
    }

    /** The first occupied bucket from `idx` on, or the signed capacity. */
    method NextOccupied(idx: nat) returns (i: int)
      requires Shaped()
      ensures i == AsInt32(capacity) || (idx <= i < AsInt32(capacity) && distances[i] != 0)
      ensures forall j :: idx <= j < i && j < AsInt32(capacity) ==> distances[j] == 0
    {
      i := idx;
      while i < AsInt32(capacity)
        invariant idx <= i
        invariant forall j :: idx <= j < i && j < AsInt32(capacity) ==> distances[j] == 0
      {
        if distances[i] != 0 {
          return;
        }
        i := i + 1;
      }
      i := AsInt32(capacity);
    }

    /** Generated code's walk over the map meets the listing, entry by entry, and nothing of a map of 2^31 buckets. */
    method Iterate() returns (r: seq<(K, V)>)
      requires Shaped()
      ensures capacity < 0x8000_0000 ==> r == Listing()
      ensures capacity == 0x8000_0000 ==> r == []
    {
      hide Items, IsPowerOfTwo;
      ghost var d, ks, vs := distances[..], keys[..], values[..];
      r := [];
      var cap := IterCapacity();
      var i := NextOccupied(0);
      NoItems(kind, d, ks, vs);
      if capacity < 0x8000_0000 {
        SkipEmpty(d, ks, vs, 0, i);
      }
      while i < cap
        invariant capacity == 0x8000_0000 ==> i == cap && r == []
        invariant capacity < 0x8000_0000 ==> 0 <= i <= capacity && (i < capacity ==> d[i] != 0)
        invariant capacity < 0x8000_0000 ==> r == Items(d, ks, vs, i)
        decreases cap - i
      {
        OneItem(d, ks, vs, i);
        r := r + [(keys[i], values[i])];
        var next := NextOccupied(i + 1);
        SkipEmpty(d, ks, vs, i + 1, next);
        i := next;
      }
    }
  }

  /** A 32-bit number taken as signed. */
  function AsInt32(n: nat): int {
    if n < 0x8000_0000 then n else n - 0x1_0000_0000
  }

  lemma {:induction false} SkipEmpty<K, V>(d: seq<Byte>, ks: seq<K>, vs: seq<V>, i: nat, j: nat)
    requires |d| == |ks| == |vs| && i <= j <= |d|
    requires forall x :: i <= x < j ==> d[x] == 0
    ensures Items(d, ks, vs, j) == Items(d, ks, vs, i)
  {
    if i < j {
      SkipEmpty(d, ks, vs, i, j - 1);
      OneItem(d, ks, vs, j - 1);
    }
  }

  /** The items before an occupied bucket are fewer than the entries. */
  lemma RoomLeft<K, V>(d: seq<Byte>, ks: seq<K>, vs: seq<V>, i: nat)
    requires |d| == |ks| == |vs| && i < |d| && d[i] != 0
    ensures |Items(d, ks, vs, i)| < |Entries(d, ks, vs)|
  {
    hide Items, EntriesTo, Firsts, Seconds;
    ItemsBag(d, ks, vs, i);
    BagSize(Items(d, ks, vs, i));
    OneMore(d, ks, vs, i);
    PrefixSize(d, ks, vs, i + 1, |d|);
  }

  lemma BagSize<T>(l: seq<T>)
    ensures |multiset(l)| == |l|
  {
  }

  /** From `c0`, with the entries `e0` held, the counts in `c` also pay for a second holder's entries `e`. */
  ghost predicate Shared<K, V>(kind: Kind<K, V>, c0: Counts, e0: multiset<(K, V)>, c: Counts, e: multiset<(K, V)>) {
    var ss, rs := HeldStrings(kind, e0), HeldRefs(kind, e0);
    && Balanced(c0, ss, rs, c, ss + HeldStrings(kind, e), rs + HeldRefs(kind, e))
    && Covers(c, ss + HeldStrings(kind, e), rs + HeldRefs(kind, e))
  }

  lemma RetainStep<K, V>(kind: Kind<K, V>, c0: Counts, e0: multiset<(K, V)>, c: Counts, e: multiset<(K, V)>, k: K, v: V)
    requires Shared(kind, c0, e0, c, e) && (k, v) in e0
    ensures LiveKey(kind, c, k)
    ensures Shared(kind, c0, e0, EntryIn(kind, c, k, v), e + multiset{(k, v)})
  {
    hide Balanced, Covers, HeldStrings, HeldRefs, Acquire;
    var ss, rs := HeldStrings(kind, e0), HeldRefs(kind, e0);
    var s1, r1 := ss + HeldStrings(kind, e), rs + HeldRefs(kind, e);
    HeldPointers(kind, e0, k, v);
    if kind.keyCounted {
      LiveHolder(c, ss, HeldStrings(kind, e), r1, kind.keyPtr(k));
    }
    AcquireMoves(c, s1, r1, kind.keyCounted, kind.keyPtr(k), kind.valueIsRef, kind.valPtr(v));
    HeldAdd(kind, e, k, v);
    var s2, r2 := ss + HeldStrings(kind, e + multiset{(k, v)}), rs + HeldRefs(kind, e + multiset{(k, v)});
    assert s1 + Maybe(kind.keyCounted, kind.keyPtr(k)) == s2;
    assert r1 + Maybe(kind.valueIsRef, kind.valPtr(v)) == r2;
    BalancedTrans(c0, ss, rs, c, s1, r1, EntryIn(kind, c, k, v), s2, r2);
  }

  lemma WholeTable<K, V>(d: seq<Byte>, ks: seq<K>, vs: seq<V>)
    requires |d| == |ks| == |vs|
    ensures Entries(d, ks, vs) == EntriesTo(d, ks, vs, |d|)
  {
  }

  lemma NothingShared<K, V>(kind: Kind<K, V>, c: Counts, e: multiset<(K, V)>)
    requires PaidFor(kind, c, e)
    ensures Shared(kind, c, e, c, multiset{})
  {
    var ss, rs := HeldStrings(kind, e), HeldRefs(kind, e);
    assert HeldStrings(kind, multiset{}) == multiset{} && HeldRefs(kind, multiset{}) == multiset{};
    assert ss + multiset{} == ss && rs + multiset{} == rs;
  }

  ghost function Items<K, V>(d: seq<Byte>, ks: seq<K>, vs: seq<V>, n: nat): seq<(K, V)>
    requires |d| == |ks| == |vs| && n <= |d|
  {
    if n == 0 then []
    else Items(d, ks, vs, n - 1) + if d[n - 1] == 0 then [] else [(ks[n - 1], vs[n - 1])]
  }

  lemma BagStep<T>(l: seq<T>, x: T)
    ensures multiset(l + [x]) == multiset(l) + multiset{x}
  {
  }

  lemma ItemsBagNone<K, V>(d: seq<Byte>, ks: seq<K>, vs: seq<V>)
    requires |d| == |ks| == |vs|
    ensures multiset(Items(d, ks, vs, 0)) == EntriesTo(d, ks, vs, 0)
  {
  }

  lemma ItemsBagNext<K, V>(d: seq<Byte>, ks: seq<K>, vs: seq<V>, i: nat)
    requires |d| == |ks| == |vs| && i < |d|
    requires multiset(Items(d, ks, vs, i)) == EntriesTo(d, ks, vs, i)
    ensures multiset(Items(d, ks, vs, i + 1)) == EntriesTo(d, ks, vs, i + 1)
  {
    hide Items, EntriesTo;
    OneMore(d, ks, vs, i);
    OneItem(d, ks, vs, i);
    BagStep(Items(d, ks, vs, i), (ks[i], vs[i]));
  }

  /** The listing of a prefix holds its entries with their multiplicity. */
  lemma {:induction false} ItemsBag<K, V>(d: seq<Byte>, ks: seq<K>, vs: seq<V>, n: nat)
    requires |d| == |ks| == |vs| && n <= |d|
    ensures multiset(Items(d, ks, vs, n)) == EntriesTo(d, ks, vs, n)
  {
    hide Items, EntriesTo;
    if n == 0 {
      ItemsBagNone(d, ks, vs);
    } else {
      ItemsBag(d, ks, vs, n - 1);
      ItemsBagNext(d, ks, vs, n - 1);
    }
  }

  lemma NoItems<K, V>(kind: Kind<K, V>, d: seq<Byte>, ks: seq<K>, vs: seq<V>)
    requires |d| == |ks| == |vs|
    ensures Items(d, ks, vs, 0) == [] && Firsts(Items(d, ks, vs, 0)) == [] && Seconds(Items(d, ks, vs, 0)) == []
    ensures KeyHolds(kind, []) == multiset{} && ValueHolds(kind, []) == multiset{}
  {
  }

  lemma OneItem<K, V>(d: seq<Byte>, ks: seq<K>, vs: seq<V>, i: nat)
    requires |d| == |ks| == |vs| && i < |d|
    ensures var l := Items(d, ks, vs, i); Items(d, ks, vs, i + 1) == if d[i] == 0 then l else l + [(ks[i], vs[i])]
    ensures Firsts(Items(d, ks, vs, i + 1)) == Firsts(Items(d, ks, vs, i)) + if d[i] == 0 then [] else [ks[i]]
    ensures Seconds(Items(d, ks, vs, i + 1)) == Seconds(Items(d, ks, vs, i)) + if d[i] == 0 then [] else [vs[i]]
  {
    var l := Items(d, ks, vs, i);
    if d[i] == 0 {
      assert Items(d, ks, vs, i + 1) == l;
    } else {
      assert (l + [(ks[i], vs[i])])[..|l|] == l;
    }
  }

  /** Listing a bag of distinct entries lists the map once. */
  lemma ListingOfBag<K(!new), V>(kind: Kind<K, V>, l: seq<(K, V)>, m: map<K, V>, e: multiset<(K, V)>)
    requires Unique(kind, e) && Represents(m, e) && multiset(l) == e
    ensures |l| == |e|
    ensures forall i :: 0 <= i < |l| ==> l[i].0 in m && m[l[i].0] == l[i].1
    ensures forall i, j :: 0 <= i < j < |l| ==> !kind.eq(l[i].0, l[j].0)
    ensures forall k :: k in m ==> exists i :: 0 <= i < |l| && l[i].0 == k
  {
    forall i | 0 <= i < |l|
      ensures l[i] in e
    {
      assert l[i] in multiset(l);
    }
    forall i, j | 0 <= i < j < |l|
      ensures !kind.eq(l[i].0, l[j].0)
    {
      if l[i] == l[j] {
        Twice(l, i, j);
      }
    }
    forall k | k in m
      ensures exists i :: 0 <= i < |l| && l[i].0 == k
    {
      assert (k, m[k]) in multiset(l);
      var i :| 0 <= i < |l| && l[i] == (k, m[k]);
    }
  }

  lemma Twice<T>(l: seq<T>, i: nat, j: nat)
    requires i < j < |l| && l[i] == l[j]
    ensures multiset(l)[l[i]] >= 2
  {
    assert l == l[..j] + l[j..];
    assert l[i] in l[..j] && l[j] in l[j..];
  }

  ghost function Firsts<K, V>(l: seq<(K, V)>): (r: seq<K>)
    ensures |r| == |l|
  {
    if l == [] then [] else Firsts(l[..|l| - 1]) + [l[|l| - 1].0]
  }

  ghost function Seconds<K, V>(l: seq<(K, V)>): (r: seq<V>)
    ensures |r| == |l|
  {
    if l == [] then [] else Seconds(l[..|l| - 1]) + [l[|l| - 1].1]
  }

  lemma HeldPointers<K, V>(kind: Kind<K, V>, e: multiset<(K, V)>, k: K, v: V)
    requires (k, v) in e
    ensures kind.keyCounted ==> kind.keyPtr(k) in HeldStrings(kind, e)
    ensures kind.valueIsRef ==> kind.valPtr(v) in HeldRefs(kind, e)
  {
    HeldRemove(kind, e, k, v);
  }

  lemma LiveHolder(c: Counts, ss: multiset<nat>, more: multiset<nat>, rs: multiset<nat>, p: nat)
    requires Covers(c, ss + more, rs) && p in ss
    ensures p != 0 ==> p in c.strings
  {
    assert p in ss + more;
  }

  ghost function KeyHolds<K, V>(kind: Kind<K, V>, l: seq<K>): multiset<nat> {
    if kind.keyCounted then Holds(l, kind.keyPtr) else multiset{}
  }

  ghost function ValueHolds<K, V>(kind: Kind<K, V>, l: seq<V>): multiset<nat> {
    if kind.valueIsRef then Holds(l, kind.valPtr) else multiset{}
  }

  lemma Uncounted<K, V>(kind: Kind<K, V>, c: Counts, e: multiset<(K, V)>, e': multiset<(K, V)>)
    requires !kind.keyCounted && !kind.valueIsRef && PaidFor(kind, c, e)
    ensures Moved(kind, c, e, c, e') && PaidFor(kind, c, e')
  {
  }

  lemma OneTooMany<T>(e: multiset<T>, e': multiset<T>, x: T)
    requires e' <= e && x in e - e'
    ensures x in e && e' <= e - multiset{x} && |e - multiset{x}| < |e|
  {
    assert (e - e')[x] == e[x] - e'[x];
  }

  lemma NoneTooMany<T>(e: multiset<T>, e': multiset<T>)
    requires e' <= e && forall x :: x !in e - e'
    ensures e == e'
  {
    forall x
      ensures e[x] == e'[x]
    {
      assert x !in e - e';
    }
  }

  /** Fewer entries hold fewer strings. */
  lemma {:induction false} HeldLess<K, V>(kind: Kind<K, V>, e: multiset<(K, V)>, e': multiset<(K, V)>)
    requires e' <= e
    ensures HeldStrings(kind, e') <= HeldStrings(kind, e)
    decreases |e|
  {
    hide HeldStrings, Maybe;
    if x :| x in e - e' {
      OneTooMany(e, e', x);
      HeldRemove(kind, e, x.0, x.1);
      HeldLess(kind, e - multiset{x}, e');
    } else {
      NoneTooMany(e, e');
    }
  }

  /** Two changes in a row, the first of which only takes entries out. */
  lemma MovedTwice<K, V>(kind: Kind<K, V>, c: Counts, e: multiset<(K, V)>, c': Counts, e': multiset<(K, V)>, c'': Counts, e'': multiset<(K, V)>)
    requires Moved(kind, c, e, c', e') && Moved(kind, c', e', c'', e'') && e' <= e
    ensures Moved(kind, c, e, c'', e'')
  {
    hide Balanced;
    HeldLess(kind, e, e');
    BalancedTrans(c, HeldStrings(kind, e), HeldRefs(kind, e), c', HeldStrings(kind, e'), HeldRefs(kind, e'),
                  c'', HeldStrings(kind, e''), HeldRefs(kind, e''));
  }

  /** The entries of the buckets from the next one on. */
  lemma OneLess<K, V>(d: seq<Byte>, ks: seq<K>, vs: seq<V>, i: nat)
    requires |d| == |ks| == |vs| && i < |d| && d[i] != 0
    ensures (ks[i], vs[i]) in Entries(d, ks, vs) - EntriesTo(d, ks, vs, i)
    ensures Entries(d, ks, vs) - EntriesTo(d, ks, vs, i) - multiset{(ks[i], vs[i])}
         == Entries(d, ks, vs) - EntriesTo(d, ks, vs, i + 1)
  {
    OneMore(d, ks, vs, i);
    Prefix(d, ks, vs, i + 1, |d|);
  }

  lemma {:induction false} Prefix<K, V>(d: seq<Byte>, ks: seq<K>, vs: seq<V>, m: nat, n: nat)
    requires |d| == |ks| == |vs| && m <= n <= |d|
    ensures EntriesTo(d, ks, vs, m) <= EntriesTo(d, ks, vs, n)
  {
    hide EntriesTo;
    if m < n {
      Prefix(d, ks, vs, m, n - 1);
      EntriesNext(d, ks, vs, n - 1);
    }
  }

  /** One more entry would fill more than four fifths of the buckets; the product is a 32-bit one. */
  predicate Crowded(length: nat, capacity: nat) {
    capacity == 0 || length + 1 > (capacity * 4) % 0x1_0000_0000 / 5
  }

  /** The capacity after making room for one more entry: 0 when doubling leaves 32 bits. */
  function RoomFor(length: nat, capacity: nat): nat {
    if Crowded(length, capacity) then GrownCapacity(capacity) else capacity
  }

  /**
   Adding `k` to a map with these keys trips an assertion: the bucket count leaves
   32 bits, or some arc of the buckets then in force is home to too many keys.
   */
  ghost predicate NoRoom<K, V>(kind: Kind<K, V>, keys: set<K>, length: nat, capacity: nat, k: K) {
    RoomFor(length, capacity) == 0 || Overfull(kind, keys + {k}, RoomFor(length, capacity))
  }

  lemma PrefixKeys<K, V>(d: seq<Byte>, ks: seq<K>, vs: seq<V>, m: nat, n: nat)
    requires |d| == |ks| == |vs| && m <= n <= |d|
    ensures KeysOf(EntriesTo(d, ks, vs, m)) <= KeysOf(EntriesTo(d, ks, vs, n))
  {
    Prefix(d, ks, vs, m, n);
  }

  lemma TooManyAlready<K, V>(kind: Kind<K, V>, keys: set<K>, k: K, cap: nat)
    ensures Overfull(kind, keys, cap) ==> Overfull(kind, keys + {k}, cap)
  {
    if Overfull(kind, keys, cap) {
      OverfullMore(kind, keys, keys + {k}, cap);
    }
  }

  /** The keys of the bag are the keys of the map. */
  lemma MapKeys<K(!new), V>(kind: Kind<K, V>, e: multiset<(K, V)>)
    requires Lawful(kind) && Unique(kind, e)
    ensures AsMap(kind, e).Keys == KeysOf(e) && |AsMap(kind, e)| == |e|
  {
    AsMapSize(kind, e);
  }

  /** Passing the 32-bit load test really leaves a fifth of the table empty. */
  lemma LoadBound(length: nat, capacity: nat)
    requires length + 1 <= (capacity * 4) % 0x1_0000_0000 / 5
    ensures 5 * (length + 1) <= 4 * capacity
  {
    assert (capacity * 4) % 0x1_0000_0000 <= capacity * 4;
  }

  lemma GrownRoom(length: nat, capacity: nat)
    requires 5 * length <= 4 * capacity && (capacity == 0 || 8 <= capacity <= 0x8000_0000)
    ensures GrownCapacity(capacity) != 0 ==> 5 * (length + 1) <= 4 * GrownCapacity(capacity)
  {
  }

  lemma NoKeys<K, V>(kind: Kind<K, V>, d: seq<Byte>, ks: seq<K>, vs: seq<V>, k: K)
    requires |d| == |ks| == |vs| && |Entries(d, ks, vs)| == 0
    ensures Absent(kind, d, ks, k)
  {
    AbsentEntries(kind, d, ks, vs, k);
  }

  /** The next capacity, in 32 bits. */
  function GrownCapacity(c: nat): nat {
    if c == 0 then 8 else (c * 2) % 0x1_0000_0000
  }

  lemma GrownCapacityIs(c: nat)
    requires c == 0 || (IsPowerOfTwo(c) && 8 <= c <= 0x8000_0000)
    ensures GrownCapacity(c) == 0 <==> c == 0x8000_0000
    ensures c == 0 ==> GrownCapacity(c) == 8 && IsPowerOfTwo(8)
    ensures 0 < c < 0x8000_0000 ==> GrownCapacity(c) == 2 * c <= 0x8000_0000 && IsPowerOfTwo(2 * c)
  {
    if 0 < c < 0x8000_0000 {
      PowersBelow(c);
    }
  }

  /** What the next bucket adds to the entries before it, of which there are at most as many as buckets. */
  lemma OneMore<K, V>(d: seq<Byte>, ks: seq<K>, vs: seq<V>, i: nat)
    requires |d| == |ks| == |vs| && i < |d|
    ensures EntriesTo(d, ks, vs, i + 1)
         == if d[i] == 0 then EntriesTo(d, ks, vs, i) else EntriesTo(d, ks, vs, i) + multiset{(ks[i], vs[i])}
    ensures |EntriesTo(d, ks, vs, i)| <= i
  {
    hide EntriesTo;
    EntriesNext(d, ks, vs, i);
    PrefixSize(d, ks, vs, 0, i);
    NothingStored(d, ks, vs, 0);
  }

  lemma {:induction false} PrefixSize<K, V>(d: seq<Byte>, ks: seq<K>, vs: seq<V>, m: nat, n: nat)
    requires |d| == |ks| == |vs| && m <= n <= |d|
    ensures |EntriesTo(d, ks, vs, m)| <= |EntriesTo(d, ks, vs, n)| <= |EntriesTo(d, ks, vs, m)| + (n - m)
  {
    hide EntriesTo;
    if m < n {
      PrefixSize(d, ks, vs, m, n - 1);
      EntriesNext(d, ks, vs, n - 1);
    }
  }

  /** No key of a later bucket equals a key of an earlier one. */
  lemma LaterAbsent<K(!new), V>(kind: Kind<K, V>, d: seq<Byte>, ks: seq<K>, vs: seq<V>, d': seq<Byte>, ks': seq<K>, vs': seq<V>, i: nat)
    requires Lawful(kind) && |d| == |ks| == |vs| && |d'| == |ks'| == |vs'| && Distinct(kind, d, ks)
    requires i < |d| && d[i] != 0
    requires Entries(d', ks', vs') == EntriesTo(d, ks, vs, i)
    ensures Absent(kind, d', ks', ks[i])
  {
    forall a | a in Entries(d', ks', vs')
      ensures !kind.eq(a.0, ks[i])
    {
      SumMember(Cells(d, ks, vs), i, a);
    }
    AbsentEntries(kind, d', ks', vs', ks[i]);
  }
}
