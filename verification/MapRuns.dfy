/**
 The map as an abstract machine: what each operation answers and makes of a finite
 map, and exactly when an operation stops at an assertion.
 */
module MapRuns {
  import opened Prelude
  import opened RobinHood
  import opened AbstractMap
  import opened Homes
  import opened RoxyMap

  datatype Op<K, V> =
    | Insert(k: K, v: V)
    | Remove(k: K)
    | Contains(k: K)
    | Get(k: K)
    | GetOr(k: K, default: V)
    | Clear
    | Length
    | Pin
    | Unpin

  datatype Answer<V> = Unit | Refusal | Flag(b: bool) | Found(r: Option<V>) | Value(v: V) | Size(n: nat)

  /** The abstract state: a finite map, how many of its values are borrowed, and how many buckets it has. */
  datatype State<K, V> = State(m: map<K, V>, pins: nat, capacity: nat)

  ghost function StepState<K, V>(kind: Kind<K, V>, s: State<K, V>, op: Op<K, V>): State<K, V> {
    match op
    case Insert(k, v) =>
      if s.pins != 0 then s
      else if Lookup(kind, s.m, k).Some? then s.(m := Put(kind, s.m, k, v))
      else s.(m := Put(kind, s.m, k, v), capacity := RoomFor(|s.m|, s.capacity))
    case Remove(k) => if s.pins == 0 then s.(m := Drop(kind, s.m, k)) else s
    case Clear => if s.pins == 0 then s.(m := map[]) else s
    case Pin => s.(pins := s.pins + 1)
    case Unpin => if s.pins == 0 then s else s.(pins := s.pins - 1)
    case _ => s
  }

  /**
   The operation stops at an assertion: an insertion of a new key for which there is
   no room, a plain lookup in an empty map, or the end of a borrow that never began.
   */
  ghost predicate Traps<K, V>(kind: Kind<K, V>, s: State<K, V>, op: Op<K, V>) {
    match op
    case Insert(k, _) => s.pins == 0 && Lookup(kind, s.m, k).None? && NoRoom(kind, s.m.Keys, |s.m|, s.capacity, k)
    case Get(_) => s.m == map[]
    case Unpin => s.pins == 0
    case _ => false
  }

  ghost function StepAnswer<K, V>(kind: Kind<K, V>, s: State<K, V>, op: Op<K, V>): Answer<V> {
    match op
    case Insert(k, v) => if s.pins == 0 then Unit else Refusal
    case Remove(k) => Flag(s.pins == 0 && Lookup(kind, s.m, k).Some?)
    case Contains(k) => Flag(Lookup(kind, s.m, k).Some?)
    case Get(k) => Found(Lookup(kind, s.m, k))
    case GetOr(k, d) => Value(match Lookup(kind, s.m, k) case Some(v) => v case None => d)
    case Length => Size(|s.m|)
    case _ => Unit
  }

  ghost function RunState<K, V>(kind: Kind<K, V>, s: State<K, V>, ops: seq<Op<K, V>>): State<K, V> {
    if ops == [] then s
    else StepState(kind, RunState(kind, s, ops[..|ops| - 1]), ops[|ops| - 1])
  }

  ghost function StateOf<K(!new), V>(m: RoxyMap<K, V>): State<K, V>
    requires Lawful(m.kind) && m.Sound()
    reads m, m.distances, m.keys, m.values
  {
    State(m.Contents(), m.borrowCount, m.capacity)
  }

  method StepInsert<K(!new), V>(m: RoxyMap<K, V>, k: K, v: V) returns (a: Answer<V>, ok: bool)
    requires Lawful(m.kind) && m.Valid() && m.Paid() && LiveKey(m.kind, m.heap.counts, k)
    modifies m, m.distances, m.keys, m.values, m.heap
    ensures ok <==> !Traps(m.kind, old(StateOf(m)), Insert(k, v))
    ensures ok ==> m.Valid() && m.Paid()
    ensures ok ==> StateOf(m) == StepState(m.kind, old(StateOf(m)), Insert(k, v))
    ensures a == StepAnswer(m.kind, old(StateOf(m)), Insert(k, v))
    ensures ok ==> Moved(m.kind, old(m.heap.counts), old(m.Table()), m.heap.counts, m.Table())
    ensures m.heap.trapped == old(m.heap.trapped)
    ensures m.distances == old(m.distances) || fresh(m.distances)
    ensures m.keys == old(m.keys) || fresh(m.keys)
    ensures m.values == old(m.values) || fresh(m.values)
  {
    hide Placed, Gradual, Distinct, PaidFor, Moved, Entries, Lawful, Unique, AsMap, Put, Drop, Lookup, NoRoom, RoomFor;
    NothingMoved(m.kind, m.heap.counts, m.Table());
    var o := m.Insert(k, v);
    a, ok := if o == Refused then Refusal else Unit, o != Trap;
  }

  /** An operation that only asks. */
  method Ask<K(!new), V>(m: RoxyMap<K, V>, op: Op<K, V>) returns (a: Answer<V>, ok: bool)
    requires Lawful(m.kind) && m.Valid() && (op.Contains? || op.Get? || op.GetOr? || op.Length?)
    ensures a == StepAnswer(m.kind, StateOf(m), op)
    ensures ok <==> !Traps(m.kind, StateOf(m), op)
  {
    hide Placed, Gradual, Distinct, Entries, Lawful, Unique, AsMap, Lookup;
    ok := true;
    match op
    case Contains(k) =>
      var b := m.Contains(k);
      a := Flag(b);
    case Get(k) =>
      var r, asserts := m.Get(k);
      a, ok := Found(r), !asserts;
    case GetOr(k, d) =>
      var v := m.GetOr(k, d);
      a := Value(v);
    case Length =>
      m.ListingEnumerates();
      a := Size(m.length);
  }

  /** One operation on the map. */
  method Step<K(!new), V>(m: RoxyMap<K, V>, op: Op<K, V>) returns (a: Answer<V>, ok: bool)
    requires Lawful(m.kind) && m.Valid() && m.Paid()
    requires op.Insert? ==> LiveKey(m.kind, m.heap.counts, op.k)
    modifies m, m.distances, m.keys, m.values, m.heap
    ensures ok <==> !Traps(m.kind, old(StateOf(m)), op)
    ensures ok ==> m.Valid() && m.Paid()
    ensures ok ==> StateOf(m) == StepState(m.kind, old(StateOf(m)), op) && a == StepAnswer(m.kind, old(StateOf(m)), op)
    ensures ok ==> Moved(m.kind, old(m.heap.counts), old(m.Table()), m.heap.counts, m.Table())
    ensures m.heap.trapped == old(m.heap.trapped)
    ensures m.distances == old(m.distances) || fresh(m.distances)
    ensures m.keys == old(m.keys) || fresh(m.keys)
    ensures m.values == old(m.values) || fresh(m.values)
  {
    hide Placed, Gradual, Distinct, PaidFor, Moved, Entries, Lawful, Unique, AsMap, Put, Drop, Lookup, NoRoom, RoomFor;
    NothingMoved(m.kind, m.heap.counts, m.Table());
    ok := true;
    match op
    case Insert(k, v) =>
      a, ok := StepInsert(m, k, v);
    case Remove(k) =>
      var b := m.Remove(k);
      a := Flag(b);
    case Contains(_) | Get(_) | GetOr(_, _) | Length =>
      a, ok := Ask(m, op);
    case Clear =>
      m.Clear();
      m.CleanContents();
      a := Unit;
    case Pin =>
      m.Pin();
      a := Unit;
    case Unpin =>
      var asserts := m.Unpin();
      a, ok := Unit, !asserts;
  }

  // ----- Insertions that trap are within reach -----

  /** Keys that all hash alike are too many, in any number of buckets, from 255 on. */
  lemma SameHashOverfull<K(!new), V>(kind: Kind<K, V>, keys: set<K>, h: nat, cap: nat)
    requires cap > 0 && forall k :: kind.hash(k) == h
    ensures Overfull(kind, keys, cap) <==> |keys| >= 255
  {
    if Overfull(kind, keys, cap) {
      OverfullIsLarge(kind, keys, cap);
    }
    if |keys| >= 255 {
      var a := (h % 0x1_0000_0000) % cap;
      assert Homed(kind, keys, cap, a, 0) == keys;
      assert Crams(kind, keys, cap, a, 0);
    }
  }

  /** Numbers as keys under a hash function that is constant, as a struct key's own hash function may be. */
  function SameHash(): Kind<nat, nat> {
    Kind(_ => 0, (a, b) => a == b, false, _ => 0, false, _ => 0)
  }

  function Inserts(n: nat): seq<Op<nat, nat>> {
    if n == 0 then [] else Inserts(n - 1) + [Insert(n - 1, 0)]
  }

  ghost function Below(n: nat): set<nat> {
    if n == 0 then {} else Below(n - 1) + {n - 1}
  }

  lemma {:induction false} BelowSize(n: nat)
    ensures |Below(n)| == n && forall i: nat :: i in Below(n) <==> i < n
  {
    if n > 0 {
      BelowSize(n - 1);
    }
  }

  lemma FewBuckets(n: nat, capacity: nat)
    requires n <= 254 && capacity < 640
    ensures 0 < RoomFor(n, capacity) < 640
  {
  }

  /** The run that inserts 0, 1, 2 and so on into an empty map: the first 254 insertions succeed and the next one traps. */
  lemma {:induction false} TrapReached(n: nat)
    requires n <= 254
    ensures Lawful(SameHash())
    ensures var s := RunState(SameHash(), State(map[], 0, 0), Inserts(n));
            && s.m.Keys == Below(n) && s.pins == 0 && s.capacity < 640
            && (Traps(SameHash(), s, Insert(n, 0)) <==> n == 254)
  {
    hide StepState, Traps;
    var kind, s := SameHash(), RunState(SameHash(), State(map[], 0, 0), Inserts(n));
    if n > 0 {
      TrapReached(n - 1);
      InsertsLength(n);
      InsertsLength(n - 1);
      assert Inserts(n)[..n - 1] == Inserts(n - 1);
      NewNumber(RunState(kind, State(map[], 0, 0), Inserts(n - 1)), n - 1);
    }
    NewNumber(s, n);
  }

  lemma {:induction false} InsertsLength(n: nat)
    ensures |Inserts(n)| == n
  {
    if n > 0 {
      InsertsLength(n - 1);
    }
  }

  /** What inserting the next number makes of the map. */
  lemma NewNumber(s: State<nat, nat>, n: nat)
    requires s.m.Keys == Below(n) && s.pins == 0 && s.capacity < 640 && n <= 254
    ensures var t := StepState(SameHash(), s, Insert(n, 0)); t.m.Keys == Below(n + 1) && t.pins == 0 && t.capacity < 640
    ensures Traps(SameHash(), s, Insert(n, 0)) <==> n == 254
  {
    hide RoomFor, Overfull;
    BelowSize(n);
    BelowSize(n + 1);
    FewBuckets(n, s.capacity);
    NewKey(s.m, n);
    SameHashOverfull(SameHash(), s.m.Keys + {n}, 0, RoomFor(n, s.capacity));
  }

  lemma NewKey(m: map<nat, nat>, n: nat)
    requires m.Keys == Below(n)
    ensures Lookup(SameHash(), m, n).None? && Put(SameHash(), m, n, 0).Keys == Below(n + 1) && |m| == |m.Keys|
  {
    BelowSize(n);
    assert Put(SameHash(), m, n, 0) == m[n := 0];
  }
}
