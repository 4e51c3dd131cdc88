/**
 The abstract heap: containers that stand for finite maps and sequences, owners
 outside them, and the counts that pay for all they hold. What each operation does
 to it, and that every count moves with the number of holders.
 */
module HeapModel {
  import opened Prelude
  import opened RobinHood
  import opened Counting
  import opened RoxyList
  import opened RoxyMap
  import opened MapRuns

  /** What a container stands for. */
  datatype Value<K, V> =
    | MapOf(s: State<K, V>)
    | KeysIn(ks: seq<K>, pins: nat, capacity: nat)
    | ValuesIn(vs: seq<V>, pins: nat, capacity: nat)

  /** What a container stands for, and the strings and borrows it holds. */
  datatype View<K, V> = View(value: Value<K, V>, strings: multiset<nat>, refs: multiset<nat>)

  /** The strings and borrows of a view are those that what it stands for accounts for. */
  ghost predicate Accounts<K, V>(kind: Kind<K, V>, v: View<K, V>) {
    match v.value
    case MapOf(s) => v.strings == HeldStrings(kind, multiset(s.m.Items)) && v.refs == HeldRefs(kind, multiset(s.m.Items))
    case KeysIn(ks, _, _) => v.strings == KeyHolds(kind, ks) && v.refs == multiset{}
    case ValuesIn(vs, _, _) => v.strings == multiset{} && v.refs == ValueHolds(kind, vs)
  }

  // ----- One change of holders, seen by the whole heap -----

  /** Holders that a change does not concern can be added to both sides of it. */
  lemma Framed(c: Counts, ss: multiset<nat>, rs: multiset<nat>, c': Counts, ss': multiset<nat>, rs': multiset<nat>,
               os: multiset<nat>, or: multiset<nat>)
    requires Covers(c, ss + os, rs + or) && Balanced(c, ss, rs, c', ss', rs') && Covers(c', ss', rs')
    ensures Covers(c', ss' + os, rs' + or)
    ensures Balanced(c, ss + os, rs + or, c', ss' + os, rs' + or)
  {
    forall p | p in ss' + os && p != 0
      ensures p in c'.strings && (c'.IsImmortal(p) || c'.Str(p) >= (ss' + os)[p])
    {
      if p !in ss' {
        assert p in ss + os;
      }
    }
    forall p | p in rs' + or && p != 0
      ensures c'.Ref(p) >= (rs' + or)[p]
    {
      if (rs + or)[p] > 0 {
        assert p in rs + or;
      }
    }
  }

  ghost function StringBags<K, V>(views: seq<View<K, V>>): (r: seq<multiset<nat>>)
    ensures |r| == |views|
  {
    seq(|views|, i requires 0 <= i < |views| => views[i].strings)
  }

  ghost function RefBags<K, V>(views: seq<View<K, V>>): (r: seq<multiset<nat>>)
    ensures |r| == |views|
  {
    seq(|views|, i requires 0 <= i < |views| => views[i].refs)
  }

  /** All the strings held by the containers. */
  ghost function HeldBy<K, V>(views: seq<View<K, V>>): multiset<nat> {
    SumTo(StringBags(views), |views|)
  }

  /** All the borrows held by the containers. */
  ghost function BorrowedBy<K, V>(views: seq<View<K, V>>): multiset<nat> {
    SumTo(RefBags(views), |views|)
  }

  lemma {:induction false} SumPart(bags: seq<multiset<nat>>, n: nat, i: nat)
    requires i < n <= |bags|
    ensures bags[i] <= SumTo(bags, n)
  {
    if i < n - 1 {
      SumPart(bags, n - 1, i);
    }
  }

  lemma SumSplit(a: multiset<nat>, b: multiset<nat>, x: multiset<nat>, y: multiset<nat>)
    requires a + x == b + y && x <= b
    ensures b == x + (b - x) && a == y + (b - x)
  {
    forall p
      ensures a[p] == (y + (b - x))[p]
    {
      assert (a + x)[p] == (b + y)[p];
    }
  }

  /** What the containers hold in sum, with one of them set apart, before and after it changes. */
  lemma OneChanged<K, V>(views: seq<View<K, V>>, i: nat, v: View<K, V>) returns (os: multiset<nat>, or: multiset<nat>)
    requires i < |views|
    ensures HeldBy(views) == views[i].strings + os && HeldBy(views[i := v]) == v.strings + os
    ensures BorrowedBy(views) == views[i].refs + or && BorrowedBy(views[i := v]) == v.refs + or
  {
    var n := |views|;
    var sb, rb := StringBags(views), RefBags(views);
    SumPart(sb, n, i);
    SumPart(rb, n, i);
    SumDiffer(sb, StringBags(views[i := v]), n, i);
    SumDiffer(rb, RefBags(views[i := v]), n, i);
    SumSplit(HeldBy(views[i := v]), HeldBy(views), views[i].strings, v.strings);
    SumSplit(BorrowedBy(views[i := v]), BorrowedBy(views), views[i].refs, v.refs);
    os, or := HeldBy(views) - views[i].strings, BorrowedBy(views) - views[i].refs;
  }

  lemma OneAdded<K, V>(views: seq<View<K, V>>, v: View<K, V>)
    ensures HeldBy(views + [v]) == HeldBy(views) + v.strings
    ensures BorrowedBy(views + [v]) == BorrowedBy(views) + v.refs
  {
    SumSame(StringBags(views + [v]), StringBags(views), |views|);
    SumSame(RefBags(views + [v]), RefBags(views), |views|);
  }

  lemma BagAssoc(a: multiset<nat>, b: multiset<nat>, c: multiset<nat>)
    ensures (a + b) + c == a + (b + c)
  {
  }

  lemma BagNoMore(a: multiset<nat>)
    ensures a + multiset{} == a
  {
  }

  /** A change that one container accounts for is a change of the whole heap's holders. */
  lemma ContainerStep<K, V>(c: Counts, views: seq<View<K, V>>, i: nat, c': Counts, v: View<K, V>, outS: multiset<nat>, outR: multiset<nat>)
    requires i < |views| && Covers(c, HeldBy(views) + outS, BorrowedBy(views) + outR)
    requires Balanced(c, views[i].strings, views[i].refs, c', v.strings, v.refs) && Covers(c', v.strings, v.refs)
    ensures Covers(c', HeldBy(views[i := v]) + outS, BorrowedBy(views[i := v]) + outR)
    ensures Balanced(c, HeldBy(views) + outS, BorrowedBy(views) + outR,
                     c', HeldBy(views[i := v]) + outS, BorrowedBy(views[i := v]) + outR)
  {
    hide Covers, Balanced, HeldBy, BorrowedBy;
    var os, or := OneChanged(views, i, v);
    BagAssoc(views[i].strings, os, outS);
    BagAssoc(views[i].refs, or, outR);
    BagAssoc(v.strings, os, outS);
    BagAssoc(v.refs, or, outR);
    Framed(c, views[i].strings, views[i].refs, c', v.strings, v.refs, os + outS, or + outR);
  }

  /** Each container is paid for by itself. */
  lemma PartCovered<K, V>(c: Counts, views: seq<View<K, V>>, i: nat, outS: multiset<nat>, outR: multiset<nat>)
    requires i < |views| && Covers(c, HeldBy(views) + outS, BorrowedBy(views) + outR)
    ensures Covers(c, views[i].strings, views[i].refs)
  {
    hide HeldBy, BorrowedBy;
    var os, or := OneChanged(views, i, views[i]);
    assert forall p | p in views[i].strings :: p in HeldBy(views) + outS;
    assert forall p | p in views[i].refs :: p in BorrowedBy(views) + outR;
  }

  /** New holders beside one container's are new holders in the whole heap. */
  lemma PartGrows<K, V>(c: Counts, views: seq<View<K, V>>, i: nat, c': Counts, x: multiset<nat>, y: multiset<nat>,
                        outS: multiset<nat>, outR: multiset<nat>)
    requires i < |views| && Covers(c, HeldBy(views) + outS, BorrowedBy(views) + outR)
    requires Balanced(c, views[i].strings, views[i].refs, c', views[i].strings + x, views[i].refs + y)
    requires Covers(c', views[i].strings + x, views[i].refs + y)
    ensures Covers(c', (HeldBy(views) + outS) + x, (BorrowedBy(views) + outR) + y)
    ensures Balanced(c, HeldBy(views) + outS, BorrowedBy(views) + outR, c', (HeldBy(views) + outS) + x, (BorrowedBy(views) + outR) + y)
  {
    hide Covers, Balanced, HeldBy, BorrowedBy;
    var os, or := OneChanged(views, i, views[i]);
    assert (views[i].strings + x) + (os + outS) == (HeldBy(views) + outS) + x;
    assert (views[i].refs + y) + (or + outR) == (BorrowedBy(views) + outR) + y;
    BagAssoc(views[i].strings, os, outS);
    BagAssoc(views[i].refs, or, outR);
    Framed(c, views[i].strings, views[i].refs, c', views[i].strings + x, views[i].refs + y, os + outS, or + outR);
  }

  /** Moving a holder about changes no count, and the null pointer has none. */
  lemma SameHolders(c: Counts, ss: multiset<nat>, rs: multiset<nat>, ss': multiset<nat>, rs': multiset<nat>)
    requires Covers(c, ss, rs) && forall p :: p != 0 ==> ss'[p] == ss[p] && rs'[p] == rs[p]
    ensures Covers(c, ss', rs') && Balanced(c, ss, rs, c, ss', rs')
  {
    assert forall p :: p != 0 && p in ss' ==> p in ss;
    assert forall p :: p != 0 && p in rs' ==> p in rs;
  }

  /** A list of all the entries of a map, each once. */
  ghost predicate Lists<K, V>(items: seq<(K, V)>, m: map<K, V>) {
    && |items| == |m|
    && (forall i :: 0 <= i < |items| ==> items[i].0 in m && m[items[i].0] == items[i].1)
    && (forall k :: k in m ==> exists i :: 0 <= i < |items| && items[i].0 == k)
  }

  /** Whoever hands over a counted pointer has a hold on it. */
  predicate Given(out: multiset<nat>, counted: bool, p: nat) {
    counted && p != 0 ==> p in out
  }

  function Handed(out: multiset<nat>, counted: bool, p: nat): multiset<nat> {
    if counted then out - multiset{p} else out
  }

  lemma KeyHandedOver<K, V>(c: Counts, views: seq<View<K, V>>, i: nat, v: View<K, V>, counted: bool, p: nat,
                               outS: multiset<nat>, outR: multiset<nat>)
    requires i < |views| && Given(outS, counted, p) && Covers(c, HeldBy(views) + outS, BorrowedBy(views) + outR)
    requires v.strings == views[i].strings + Maybe(counted, p) && v.refs == views[i].refs
    ensures Covers(c, HeldBy(views[i := v]) + Handed(outS, counted, p), BorrowedBy(views[i := v]) + outR)
    ensures Balanced(c, HeldBy(views) + outS, BorrowedBy(views) + outR, c, HeldBy(views[i := v]) + Handed(outS, counted, p), BorrowedBy(views[i := v]) + outR)
  {
    hide Covers, Balanced, HeldBy, BorrowedBy;
    var os, or := OneChanged(views, i, v);
    SameHolders(c, HeldBy(views) + outS, BorrowedBy(views) + outR, HeldBy(views[i := v]) + Handed(outS, counted, p), BorrowedBy(views[i := v]) + outR);
  }

  lemma ValueHandedOver<K, V>(c: Counts, views: seq<View<K, V>>, i: nat, v: View<K, V>, counted: bool, p: nat,
                               outS: multiset<nat>, outR: multiset<nat>)
    requires i < |views| && Given(outR, counted, p) && Covers(c, HeldBy(views) + outS, BorrowedBy(views) + outR)
    requires v.refs == views[i].refs + Maybe(counted, p) && v.strings == views[i].strings
    ensures Covers(c, HeldBy(views[i := v]) + outS, BorrowedBy(views[i := v]) + Handed(outR, counted, p))
    ensures Balanced(c, HeldBy(views) + outS, BorrowedBy(views) + outR, c, HeldBy(views[i := v]) + outS, BorrowedBy(views[i := v]) + Handed(outR, counted, p))
  {
    hide Covers, Balanced, HeldBy, BorrowedBy;
    var os, or := OneChanged(views, i, v);
    SameHolders(c, HeldBy(views) + outS, BorrowedBy(views) + outR, HeldBy(views[i := v]) + outS, BorrowedBy(views[i := v]) + Handed(outR, counted, p));
  }

  /** How a push ends, from the list alone. */
  function PushOutcome(pins: nat, length: nat, capacity: nat): Outcome {
    if pins != 0 then Refused else if length == capacity >= LARGEST then Trap else Done
  }

  function PushedKey<K, V>(value: Value<K, V>, k: K): Value<K, V>
    requires value.KeysIn?
  {
    var o := PushOutcome(value.pins, |value.ks|, value.capacity);
    if o.Done? then KeysIn(value.ks + [k], 0, Room(o, |value.ks|, value.capacity)) else value
  }

  function PushedValue<K, V>(value: Value<K, V>, v: V): Value<K, V>
    requires value.ValuesIn?
  {
    var o := PushOutcome(value.pins, |value.vs|, value.capacity);
    if o.Done? then ValuesIn(value.vs + [v], 0, Room(o, |value.vs|, value.capacity)) else value
  }

  /** What is done to a container. */
  datatype Act<K, V> =
    | Call(op: Op<K, V>)
    | Keys
    | Values
    | Copy
    | PushK(k: K)
    | PushV(v: V)

  /** Operations on the `i`-th container, and what owners outside the containers do. */
  datatype HeapOp<K, V> =
    | OnContainer(i: nat, act: Act<K, V>)
    | NewTable(initial: int)
    | NewKeyList(capacity: nat)
    | NewValueList(capacity: nat)
    | MakeString(p: nat)
    | Retain(p: nat)
    | Release(p: nat)
    | Borrow(p: nat)
    | Unborrow(p: nat)

  datatype HeapAnswer<V> = Skipped | Finished | Said(a: Answer<V>) | Pushed(o: Outcome)

  datatype Snapshot<K, V> = Snapshot(views: seq<View<K, V>>, counts: Counts, outS: multiset<nat>, outR: multiset<nat>) {
    /** Every holder of a string. */
    ghost function Strings(): multiset<nat> {
      HeldBy(views) + outS
    }

    /** Every holder of a borrow. */
    ghost function Refs(): multiset<nat> {
      BorrowedBy(views) + outR
    }
  }

  /**
   The operation makes sense: the container is there and is of the right kind, a key
   to be inserted is alive, and whoever gives something away has it.
   */
  ghost predicate Legal<K, V>(kind: Kind<K, V>, w: Snapshot<K, V>, op: HeapOp<K, V>) {
    match op
    case OnContainer(i, act) =>
      i < |w.views| &&
      (match act
       case Call(o) => w.views[i].value.MapOf? && (o.Insert? ==> LiveKey(kind, w.counts, o.k))
       case Keys | Values => w.views[i].value.MapOf?
       case Copy => !w.views[i].value.KeysIn?
       case PushK(k) => w.views[i].value.KeysIn? && Given(w.outS, kind.keyCounted, kind.keyPtr(k))
       case PushV(v) => w.views[i].value.ValuesIn? && Given(w.outR, kind.valueIsRef, kind.valPtr(v)))
    case NewTable(n) => n < LARGEST
    case NewKeyList(n) => n < LARGEST
    case NewValueList(n) => n < LARGEST
    case MakeString(p) => p != 0 && p !in w.counts.strings
    case Retain(p) => p != 0 && p in w.counts.strings
    case Release(p) => p != 0 && p in w.outS
    case Borrow(p) => p != 0
    case Unborrow(p) => p != 0 && p in w.outR
  }

  /** The operation runs into an assertion, or past what a capacity can hold. */
  ghost predicate Stops<K, V>(kind: Kind<K, V>, w: Snapshot<K, V>, op: HeapOp<K, V>) {
    Legal(kind, w, op) && op.OnContainer? &&
    match op.act
    case Call(o) => Traps(kind, w.views[op.i].value.s, o)
    case PushK(_) => var l := w.views[op.i].value; PushOutcome(l.pins, |l.ks|, l.capacity).Trap?
    case PushV(_) => var l := w.views[op.i].value; PushOutcome(l.pins, |l.vs|, l.capacity).Trap?
    case _ => false
  }

  /** A map made for `initial` entries has at least 8 buckets and fewer than twice as many as asked for, or none. */
  predicate CapacityFor(initial: int, capacity: nat) {
    if initial <= 0 then capacity == 0 else initial <= capacity && (capacity == 8 || capacity < 2 * initial)
  }

  /** What a container stands for after the operation. */
  ghost predicate Changes<K, V>(kind: Kind<K, V>, w: Snapshot<K, V>, i: nat, value: Value<K, V>, w': Snapshot<K, V>) {
    && i < |w.views| == |w'.views| && w'.views == w.views[i := w'.views[i]] && w'.views[i].value == value
  }

  /** A container that comes in. */
  ghost predicate Adds<K, V>(kind: Kind<K, V>, w: Snapshot<K, V>, value: Value<K, V>, w': Snapshot<K, V>) {
    && |w'.views| == |w.views| + 1 && w'.views == w.views + [w'.views[|w.views|]] && w'.views[|w.views|].value == value
    && w'.outS == w.outS && w'.outR == w.outR
  }

  /** One step of the abstract heap: what it answers, what the containers stand for after it, and who holds what outside. */
  ghost predicate Steps<K(!new), V(!new)>(kind: Kind<K, V>, w: Snapshot<K, V>, op: HeapOp<K, V>, a: HeapAnswer<V>, w': Snapshot<K, V>) {
    && Balanced(w.counts, w.Strings(), w.Refs(), w'.counts, w'.Strings(), w'.Refs())
    && if !Legal(kind, w, op) then w' == w && a == Skipped
       else match op
         case OnContainer(i, act) => Acts(kind, w, i, act, a, w')
         case NewTable(n) => a == Finished && exists capacity :: CapacityFor(n, capacity) && Adds(kind, w, MapOf(State(map[], 0, capacity)), w')
         case NewKeyList(n) => a == Finished && Adds(kind, w, KeysIn([], 0, n), w')
         case NewValueList(n) => a == Finished && Adds(kind, w, ValuesIn([], 0, n), w')
         case MakeString(p) => a == Finished && w'.views == w.views && w'.outS == w.outS + multiset{p} && w'.outR == w.outR
         case Retain(p) => a == Finished && w'.views == w.views && w'.outS == w.outS + multiset{p} && w'.outR == w.outR
         case Release(p) => a == Finished && w'.views == w.views && w'.outS == w.outS - multiset{p} && w'.outR == w.outR
         case Borrow(p) => a == Finished && w'.views == w.views && w'.outS == w.outS && w'.outR == w.outR + multiset{p}
         case Unborrow(p) => a == Finished && w'.views == w.views && w'.outS == w.outS && w'.outR == w.outR - multiset{p}
  }

  /** All that is held is alive and paid for, and every container holds what it stands for. */
  ghost predicate Settled<K, V>(kind: Kind<K, V>, w: Snapshot<K, V>) {
    && Covers(w.counts, w.Strings(), w.Refs())
    && (forall j :: 0 <= j < |w.views| ==> Accounts(kind, w.views[j]))
  }

  /** A run of the abstract heap. */
  ghost predicate IsRun<K(!new), V(!new)>(kind: Kind<K, V>, trace: seq<Snapshot<K, V>>, ops: seq<HeapOp<K, V>>, answers: seq<HeapAnswer<V>>) {
    && |trace| == |ops| + 1 && |answers| == |ops|
    && (forall i :: 0 <= i < |ops| ==> Steps(kind, trace[i], ops[i], answers[i], trace[i + 1]))
    && (forall i :: 0 <= i <= |ops| ==> Settled(kind, trace[i]))
  }

  lemma RunStarts<K(!new), V(!new)>(kind: Kind<K, V>, w: Snapshot<K, V>)
    requires Settled(kind, w)
    ensures IsRun(kind, [w], [], [])
  {
  }

  lemma RunGoesOn<K(!new), V(!new)>(kind: Kind<K, V>, trace: seq<Snapshot<K, V>>, ops: seq<HeapOp<K, V>>, answers: seq<HeapAnswer<V>>,
                                    op: HeapOp<K, V>, a: HeapAnswer<V>, w: Snapshot<K, V>)
    requires IsRun(kind, trace, ops, answers) && Steps(kind, trace[|ops|], op, a, w) && Settled(kind, w)
    ensures IsRun(kind, trace + [w], ops + [op], answers + [a])
  {
    hide Steps, Settled;
  }

  ghost predicate Acts<K(!new), V(!new)>(kind: Kind<K, V>, w: Snapshot<K, V>, i: nat, act: Act<K, V>, a: HeapAnswer<V>, w': Snapshot<K, V>)
    requires Legal(kind, w, OnContainer(i, act))
  {
    var value := w.views[i].value;
    match act
    case Call(o) =>
      && Changes(kind, w, i, MapOf(StepState(kind, value.s, o)), w') && a == Said(StepAnswer(kind, value.s, o))
      && w'.outS == w.outS && w'.outR == w.outR
    case Keys => a == Finished && exists items :: Lists(items, value.s.m) && Adds(kind, w, KeysIn(Firsts(items), 0, |items|), w')
    case Values => a == Finished && exists items :: Lists(items, value.s.m) && Adds(kind, w, ValuesIn(Seconds(items), 0, |items|), w')
    case Copy =>
      a == Finished &&
      Adds(kind, w, if value.MapOf? then MapOf(value.s.(pins := 0)) else ValuesIn(value.vs, 0, value.capacity), w')
    case PushK(k) =>
      var o := PushOutcome(value.pins, |value.ks|, value.capacity);
      && Changes(kind, w, i, PushedKey(value, k), w') && a == Pushed(o)
      && w'.outS == Handed(w.outS, kind.keyCounted && o.Done?, kind.keyPtr(k)) && w'.outR == w.outR
    case PushV(v) =>
      var o := PushOutcome(value.pins, |value.vs|, value.capacity);
      && Changes(kind, w, i, PushedValue(value, v), w') && a == Pushed(o)
      && w'.outR == Handed(w.outR, kind.valueIsRef && o.Done?, kind.valPtr(v)) && w'.outS == w.outS
  }

  lemma TakenOut(out: multiset<nat>, p: nat)
    requires p in out
    ensures out == (out - multiset{p}) + multiset{p}
  {
  }

  // ----- Counts over whole runs -----

  /** All non-immortal counts are exactly the numbers of holders. */
  ghost predicate Exact(c: Counts, ss: multiset<nat>, rs: multiset<nat>) {
    && (forall p :: p != 0 && !c.IsImmortal(p) ==> c.Str(p) == ss[p])
    && (forall p :: p != 0 ==> c.Ref(p) == rs[p])
  }

  /**
   Counts that start out exact stay exact. A string becomes immortal exactly when
   its holders reach the all-ones count; any other is alive exactly while it is held.
   */
  lemma ExactKept(c: Counts, ss: multiset<nat>, rs: multiset<nat>, c': Counts, ss': multiset<nat>, rs': multiset<nat>, p: nat)
    requires Exact(c, ss, rs) && Balanced(c, ss, rs, c', ss', rs') && Covers(c', ss', rs')
    ensures Exact(c', ss', rs')
    ensures p != 0 ==> (c'.IsImmortal(p) <==> c.IsImmortal(p) || ss'[p] >= IMMORTAL)
    ensures p != 0 && !c'.IsImmortal(p) ==> (p in c'.strings <==> p in ss')
  {
    forall q | q != 0 && !c'.IsImmortal(q)
      ensures c'.Str(q) == ss'[q]
    {
      assert !c.IsImmortal(q);
    }
  }

  /** At some point up to the `i`-th, `p` has as many holders as a count can tell. */
  ghost predicate Overheld<K, V>(trace: seq<Snapshot<K, V>>, i: nat, p: nat)
    requires i < |trace|
  {
    exists j :: 0 <= j <= i && trace[j].Strings()[p] >= IMMORTAL
  }

  /**
   Over any run that starts with exact counts, every count stays the number of
   holders. A string becomes immortal exactly when at some point it has 2^32 - 1
   holders; any other string is alive exactly while somebody holds it.
   */
  lemma {:induction false} RunExact<K(!new), V(!new)>(kind: Kind<K, V>, trace: seq<Snapshot<K, V>>, ops: seq<HeapOp<K, V>>, answers: seq<HeapAnswer<V>>,
                                                      i: nat, p: nat)
    requires IsRun(kind, trace, ops, answers) && i <= |ops|
    requires Exact(trace[0].counts, trace[0].Strings(), trace[0].Refs())
    ensures Exact(trace[i].counts, trace[i].Strings(), trace[i].Refs())
    ensures p != 0 ==> (trace[i].counts.IsImmortal(p) <==> trace[0].counts.IsImmortal(p) || Overheld(trace, i, p))
    ensures p != 0 && !trace[i].counts.IsImmortal(p) ==> (p in trace[i].counts.strings <==> p in trace[i].Strings())
  {
    hide Exact, Acts, Legal, Accounts, Snapshot.Strings, Snapshot.Refs;
    var w := trace[i];
    if i == 0 {
      StillBalanced(w.counts, w.Strings(), w.Refs());
      ExactKept(w.counts, w.Strings(), w.Refs(), w.counts, w.Strings(), w.Refs(), p);
      if p != 0 && Overheld(trace, 0, p) {
        assert w.Strings()[p] >= IMMORTAL;
      }
    } else {
      var v := trace[i - 1];
      RunExact(kind, trace, ops, answers, i - 1, p);
      assert Steps(kind, v, ops[i - 1], answers[i - 1], w);
      ExactKept(v.counts, v.Strings(), v.Refs(), w.counts, w.Strings(), w.Refs(), p);
      OverheldNext(trace, i, p);
    }
  }

  lemma OverheldNext<K, V>(trace: seq<Snapshot<K, V>>, i: nat, p: nat)
    requires 0 < i < |trace|
    ensures Overheld(trace, i, p) <==> Overheld(trace, i - 1, p) || trace[i].Strings()[p] >= IMMORTAL
  {
  }

  /**
   Over any run at all, every count less its holders stays as it was at the start,
   as long as the string does not become immortal, which takes as many holders more
   than at the start as bring its count up to the all-ones one.
   */
  lemma {:induction false} RunConserves<K(!new), V(!new)>(kind: Kind<K, V>, trace: seq<Snapshot<K, V>>, ops: seq<HeapOp<K, V>>, answers: seq<HeapAnswer<V>>,
                                                          i: nat)
    requires IsRun(kind, trace, ops, answers) && i <= |ops|
    ensures Conserved(trace[0].counts, trace[0].Strings(), trace[0].Refs(), trace[i].counts, trace[i].Strings(), trace[i].Refs())
    ensures forall p :: p != 0 && trace[i].counts.IsImmortal(p) && !trace[0].counts.IsImmortal(p) ==>
              exists j :: 0 <= j <= i && trace[0].counts.Str(p) + trace[j].Strings()[p] >= IMMORTAL + trace[0].Strings()[p]
  {
    hide Acts, Legal, Accounts, Covers, Snapshot.Strings, Snapshot.Refs;
    if i > 0 {
      var u, v, w := trace[0], trace[i - 1], trace[i];
      RunConserves(kind, trace, ops, answers, i - 1);
      assert Steps(kind, v, ops[i - 1], answers[i - 1], w);
      forall p | p != 0 && w.counts.IsImmortal(p) && !u.counts.IsImmortal(p)
        ensures exists j :: 0 <= j <= i && u.counts.Str(p) + trace[j].Strings()[p] >= IMMORTAL + u.Strings()[p]
      {
        if !v.counts.IsImmortal(p) {
          assert u.counts.Str(p) + trace[i].Strings()[p] >= IMMORTAL + u.Strings()[p];
        }
      }
    }
  }
}
