/**
 A heap of maps and lists that share strings and objects with owners outside them.
 Whatever sequence of operations runs over it is a run of the abstract heap.
 */
module HeapRuns {
  import opened Bits
  import opened Prelude
  import opened RobinHood
  import opened Counting
  import opened AbstractMap
  import opened RoxyList
  import opened RoxyMap
  import opened MapRuns
  import opened HeapModel

  datatype Container<K(!new), V> =
    | Table(m: RoxyMap<K, V>)
    | KeyList(keys: RoxyList<K>)
    | ValueList(values: RoxyList<V>)

  ghost function Self<K(!new), V>(c: Container<K, V>): object {
    match c
    case Table(m) => m
    case KeyList(l) => l
    case ValueList(l) => l
  }

  /** The container and its buffers. */
  ghost function Foot<K(!new), V>(c: Container<K, V>): set<object>
    reads Self(c)
  {
    match c
    case Table(m) => {m, m.distances, m.keys, m.values}
    case KeyList(l) => {l, l.elements}
    case ValueList(l) => {l, l.elements}
  }

  ghost predicate Fine<K(!new), V>(kind: Kind<K, V>, heap: Heap, c: Container<K, V>)
    reads Self(c), Foot(c)
  {
    match c
    case Table(m) => m.kind == kind && m.heap == heap && m.Valid()
    case KeyList(l) => l.heap == heap && l.Valid() && !l.elementIsRef
    case ValueList(l) => l.heap == heap && l.Valid() && l.elementIsRef == kind.valueIsRef
  }

  /** A map holds its keys' strings and its `ref` values, a list of keys their strings, a list of values its `ref` ones. */
  ghost function ViewOf<K(!new), V>(kind: Kind<K, V>, heap: Heap, c: Container<K, V>): View<K, V>
    requires Lawful(kind) && Fine(kind, heap, c)
    reads Self(c), Foot(c)
  {
    match c
    case Table(m) => View(MapOf(StateOf(m)), HeldStrings(kind, m.Table()), HeldRefs(kind, m.Table()))
    case KeyList(l) => View(KeysIn(l.Contents(), l.borrowCount, l.capacity), KeyHolds(kind, l.Contents()), multiset{})
    case ValueList(l) => View(ValuesIn(l.Contents(), l.borrowCount, l.capacity), multiset{}, ValueHolds(kind, l.Contents()))
  }

  lemma TableParts<K(!new), V>(kind: Kind<K, V>, heap: Heap, m: RoxyMap<K, V>)
    requires Lawful(kind)
    ensures Foot(Table(m)) == {m, m.distances, m.keys, m.values} && Self(Table(m)) == m
    ensures Fine(kind, heap, Table(m)) <==> m.kind == kind && m.heap == heap && m.Valid()
    ensures Fine(kind, heap, Table(m)) ==>
              ViewOf(kind, heap, Table(m)) == View(MapOf(StateOf(m)), HeldStrings(kind, m.Table()), HeldRefs(kind, m.Table()))
  {
  }

  lemma KeyListParts<K(!new), V>(kind: Kind<K, V>, heap: Heap, l: RoxyList<K>)
    requires Lawful(kind)
    ensures var c := Container<K, V>.KeyList(l);
            && Foot(c) == {l, l.elements} && Self(c) == l
            && (Fine(kind, heap, c) <==> l.heap == heap && l.Valid() && !l.elementIsRef)
            && (Fine(kind, heap, c) ==>
                  ViewOf(kind, heap, c) == View(KeysIn(l.Contents(), l.borrowCount, l.capacity), KeyHolds(kind, l.Contents()), multiset{}))
  {
  }

  lemma ValueListParts<K(!new), V>(kind: Kind<K, V>, heap: Heap, l: RoxyList<V>)
    requires Lawful(kind)
    ensures var c := Container<K, V>.ValueList(l);
            && Foot(c) == {l, l.elements} && Self(c) == l
            && (Fine(kind, heap, c) <==> l.heap == heap && l.Valid() && l.elementIsRef == kind.valueIsRef)
            && (Fine(kind, heap, c) ==>
                  ViewOf(kind, heap, c) == View(ValuesIn(l.Contents(), l.borrowCount, l.capacity), multiset{}, ValueHolds(kind, l.Contents())))
  {
  }

  /** A container holds exactly what it stands for. */
  lemma PartAccounts<K(!new), V>(kind: Kind<K, V>, heap: Heap, c: Container<K, V>)
    requires Lawful(kind) && Fine(kind, heap, c)
    ensures Accounts(kind, ViewOf(kind, heap, c))
  {
    hide Lawful, HeldStrings, HeldRefs, AsMap, Unique, Entries, WellFormed, Distinct;
    match c
    case Table(m) =>
      TableParts(kind, heap, m);
      TableUnique(kind, m.distances[..], m.keys[..], m.values[..]);
      ItemsOf(kind, m.Table());
    case KeyList(l) =>
      KeyListParts(kind, heap, l);
    case ValueList(l) =>
      ValueListParts(kind, heap, l);
  }

  lemma FeetOf<K(!new), V>(cs: seq<Container<K, V>>)
    ensures forall j :: 0 <= j < |cs| ==> Self(cs[j]) in Foot(cs[j])
    ensures forall j, o :: 0 <= j < |cs| && o in Foot(cs[j]) ==> allocated(o)
  {
  }

  lemma NothingHeld<K, V>(kind: Kind<K, V>)
    ensures HeldStrings(kind, multiset{}) == multiset{} && HeldRefs(kind, multiset{}) == multiset{}
    ensures KeyHolds(kind, []) == multiset{} && ValueHolds(kind, []) == multiset{}
  {
  }

  lemma ListingLists<K(!new), V>(m: RoxyMap<K, V>)
    requires Lawful(m.kind) && m.Valid()
    ensures Lists(m.Listing(), StateOf(m).m) && |m.Listing()| == m.length
  {
    m.ListingEnumerates();
  }

  class World<K(!new), V(!new)> {
    const kind: Kind<K, V>
    const heap: Heap
    const zeroKey: K
    const zeroValue: V
    var cs: seq<Container<K, V>>
    /** Owners outside the containers: locals, fields, temporaries. */
    var outS: multiset<nat>
    var outR: multiset<nat>
    ghost var views: seq<View<K, V>>
    /** All the containers and buffers. */
    ghost var feet: set<object>

    /** Every container is well formed, accounts for what it holds, and has its buffers to itself. */
    ghost predicate Sound()
      reads this, feet
    {
      && Lawful(kind) && |views| == |cs|
      && this !in feet && heap !in feet
      && (forall i :: 0 <= i < |cs| ==> Self(cs[i]) in feet && Foot(cs[i]) <= feet)
      && (forall i :: 0 <= i < |cs| ==> Fine(kind, heap, cs[i]))
      && (forall i :: 0 <= i < |cs| ==> views[i] == ViewOf(kind, heap, cs[i]))
      && (forall i, j :: 0 <= i < j < |cs| ==> Foot(cs[i]) !! Foot(cs[j]))
    }

    /** Every holder of a string, and of a borrow. */
    ghost function AllStrings(): multiset<nat>
      reads `views, `outS
    {
      HeldBy(views) + outS
    }

    ghost function AllRefs(): multiset<nat>
      reads `views, `outR
    {
      BorrowedBy(views) + outR
    }

    /** All that is held is alive and paid for. */
    ghost predicate Valid()
      reads this, heap, feet
    {
      Sound() && Covers(heap.counts, AllStrings(), AllRefs())
    }

    /** No containers, and owners that the heap's counts pay for. */
    constructor (kind: Kind<K, V>, heap: Heap, zeroKey: K, zeroValue: V, outS: multiset<nat>, outR: multiset<nat>)
      requires Lawful(kind) && Covers(heap.counts, outS, outR)
      ensures Valid() && this.kind == kind && this.heap == heap && cs == [] && this.outS == outS && this.outR == outR
    {
      this.kind, this.heap, this.outS, this.outR := kind, heap, outS, outR;
      this.zeroKey, this.zeroValue := zeroKey, zeroValue;
      cs, views, feet := [], [], {};
      new;
      assert multiset{} + outS == outS && multiset{} + outR == outR;
    }

    /** Takes up what one container holds now, all else being as it was. */
    ghost method Changed(i: nat, v: View<K, V>)
      requires i < |cs| && |views| == |cs| && Lawful(kind) && Fine(kind, heap, cs[i]) && v == ViewOf(kind, heap, cs[i])
      requires this !in feet && heap !in feet && this !in Foot(cs[i]) && heap !in Foot(cs[i])
      requires forall j :: 0 <= j < |cs| && j != i ==> Foot(cs[j]) <= feet
      requires forall j :: 0 <= j < |cs| && j != i ==> Fine(kind, heap, cs[j]) && views[j] == ViewOf(kind, heap, cs[j])
      requires forall j, k :: 0 <= j < k < |cs| ==> Foot(cs[j]) !! Foot(cs[k])
      requires Covers(heap.counts, HeldBy(views[i := v]) + outS, BorrowedBy(views[i := v]) + outR)
      modifies `views, `feet
      ensures Valid() && views == old(views)[i := v] && feet == old(feet) + Foot(cs[i])
    {
      hide Covers, Balanced, Lawful, HeldBy, BorrowedBy, ViewOf, Fine, Foot;
      FeetOf(cs);
      views := views[i := v];
      feet := feet + Foot(cs[i]);
    }

    /** Takes in a new container, whose holders have been paid for. */
    method Added(c: Container<K, V>, ghost v: View<K, V>, ghost f: set<object>)
      requires f == Foot(c) && Sound() && Fine(kind, heap, c) && v == ViewOf(kind, heap, c) && this !in Foot(c) && heap !in Foot(c)
      requires forall j :: 0 <= j < |cs| ==> Foot(cs[j]) !! Foot(c)
      requires Covers(heap.counts, AllStrings() + v.strings, AllRefs() + v.refs)
      modifies `cs, `views, `feet
      ensures Valid() && cs == old(cs) + [c] && views == old(views) + [v]
      ensures AllStrings() == old(AllStrings()) + v.strings && AllRefs() == old(AllRefs()) + v.refs
      ensures feet == old(feet) + f
    {
      hide Covers, Balanced, Lawful, HeldBy, BorrowedBy, ViewOf, Fine, Foot;
      FeetOf(cs);
      FeetOf([c]);
      assert Self([c][0]) in Foot([c][0]);
      OneAdded(views, v);
      assert (HeldBy(views) + v.strings) + outS == (HeldBy(views) + outS) + v.strings;
      assert (BorrowedBy(views) + v.refs) + outR == (BorrowedBy(views) + outR) + v.refs;
      cs := cs + [c];
      views := views + [v];
      feet := feet + f;
    }

    /** An operation on one map, which leaves the other containers as they were. */
    method StepAt(i: nat, op: Op<K, V>) returns (a: Answer<V>, ok: bool)
      requires Valid() && i < |cs| && cs[i].Table?
      requires op.Insert? ==> LiveKey(kind, heap.counts, op.k)
      modifies heap, Foot(cs[i])
      ensures views[i].value.MapOf?
      ensures ok <==> !Traps(kind, views[i].value.s, op)
      ensures ok ==> a == StepAnswer(kind, views[i].value.s, op) && Fine(kind, heap, cs[i])
      ensures ok ==> ViewOf(kind, heap, cs[i]).value == MapOf(StepState(kind, views[i].value.s, op))
      ensures ok ==> var v := ViewOf(kind, heap, cs[i]);
                Balanced(old(heap.counts), views[i].strings, views[i].refs, heap.counts, v.strings, v.refs)
                && Covers(heap.counts, v.strings, v.refs)
      ensures heap.trapped == old(heap.trapped)
      ensures this !in Foot(cs[i]) && heap !in Foot(cs[i])
      ensures forall o :: o in Foot(cs[i]) ==> o in old(Foot(cs[i])) || fresh(o)
    {
      hide Covers, Balanced, Lawful, HeldBy, BorrowedBy, Foot, Fine, ViewOf, Self, HeldStrings, HeldRefs, Traps, StepState, StepAnswer, StateOf;
      var m := cs[i].m;
      PartCovered(heap.counts, views, i, outS, outR);
      TableParts(kind, heap, m);
      a, ok := Step(m, op);
      TableParts(kind, heap, m);
      assert m in old(Foot(cs[i]));
    }

    /** An operation on one map of the heap. */
    method OnTable(i: nat, op: Op<K, V>) returns (a: Answer<V>, ok: bool)
      requires Valid() && i < |cs| && cs[i].Table?
      requires op.Insert? ==> LiveKey(kind, heap.counts, op.k)
      modifies this, heap, Foot(cs[i])
      ensures ok ==> Valid() && cs == old(cs) && outS == old(outS) && outR == old(outR)
      ensures old(views)[i].value.MapOf?
      ensures ok <==> !Traps(kind, old(views)[i].value.s, op)
      ensures ok ==> |views| == |old(views)| && views[i].value == MapOf(StepState(kind, old(views)[i].value.s, op))
      ensures ok ==> views == old(views)[i := views[i]] && a == StepAnswer(kind, old(views)[i].value.s, op)
      ensures ok ==> Balanced(old(heap.counts), old(AllStrings()), old(AllRefs()), heap.counts, AllStrings(), AllRefs())
      ensures heap.trapped == old(heap.trapped)
      ensures fresh(feet - old(feet))
    {
      hide Covers, Balanced, Lawful, HeldBy, BorrowedBy, Foot, Fine, ViewOf, Self, Traps, StepState, StepAnswer;
      FeetOf(cs);
      a, ok := StepAt(i, op);
      if !ok {
        return;
      }
      forall j | 0 <= j < |cs| && j != i
        ensures Foot(cs[j]) == old(Foot(cs[j])) && Fine(kind, heap, cs[j]) && ViewOf(kind, heap, cs[j]) == views[j]
      {
        var c := cs[j];
        assert old(Foot(c)) !! old(Foot(cs[i])) && heap !in old(Foot(c)) && this !in old(Foot(c));
        assert Self(c) in old(Foot(c));
        assert unchanged(Self(c));
        assert unchanged(old(Foot(c)));
      }
      ghost var v := ViewOf(kind, heap, cs[i]);
      ContainerStep(old(heap.counts), views, i, heap.counts, v, outS, outR);
      Changed(i, v);
    }

    // ----- New containers -----

    /** An empty container holds nothing. */
    method AddedEmpty(c: Container<K, V>, ghost v: View<K, V>, ghost f: set<object>)
      requires f == Foot(c) && Valid() && Fine(kind, heap, c) && v == ViewOf(kind, heap, c) && this !in Foot(c) && heap !in Foot(c)
      requires forall j :: 0 <= j < |cs| ==> Foot(cs[j]) !! Foot(c)
      requires v.strings == multiset{} && v.refs == multiset{}
      modifies `cs, `views, `feet
      ensures Valid() && cs == old(cs) + [c] && views == old(views) + [v] && feet == old(feet) + f
      ensures Balanced(heap.counts, old(AllStrings()), old(AllRefs()), heap.counts, AllStrings(), AllRefs())
    {
      hide Covers, Balanced, Lawful, HeldBy, BorrowedBy, ViewOf, Fine, Foot;
      BagNoMore(AllStrings());
      BagNoMore(AllRefs());
      SameHolders(heap.counts, AllStrings(), AllRefs(), AllStrings(), AllRefs());
      Added(c, v, f);
    }

    method MakeTable(initial: int) returns (ghost capacity: nat)
      requires Valid() && initial < LARGEST
      modifies this
      ensures Valid() && outS == old(outS) && outR == old(outR) && |views| == |old(views)| + 1 && fresh(feet - old(feet))
      ensures CapacityFor(initial, capacity) && views == old(views) + [views[|old(views)|]]
      ensures views[|old(views)|].value == MapOf(State(map[], 0, capacity))
      ensures Balanced(heap.counts, old(AllStrings()), old(AllRefs()), heap.counts, AllStrings(), AllRefs())
    {
      hide Covers, Balanced, Lawful, HeldBy, BorrowedBy, Foot, Fine, ViewOf, Self, HeldStrings, HeldRefs, WellFormed, Distinct, AsMap, Entries, IsPowerOfTwo;
      FeetOf(cs);
      var m := new RoxyMap(kind, zeroKey, zeroValue, heap, initial);
      capacity := m.capacity;
      TableParts(kind, heap, m);
      NothingHeld(kind);
      AddedEmpty(Table(m), ViewOf(kind, heap, Table(m)), {m, m.distances, m.keys, m.values});
    }

    method MakeKeyList(capacity: nat)
      requires Valid() && capacity < LARGEST
      modifies this
      ensures Valid() && outS == old(outS) && outR == old(outR) && |views| == |old(views)| + 1 && fresh(feet - old(feet))
      ensures views == old(views) + [views[|old(views)|]] && views[|old(views)|].value == KeysIn([], 0, capacity)
      ensures Balanced(heap.counts, old(AllStrings()), old(AllRefs()), heap.counts, AllStrings(), AllRefs())
    {
      hide Covers, Balanced, Lawful, HeldBy, BorrowedBy, Foot, Fine, ViewOf, Self;
      FeetOf(cs);
      var l := new RoxyList(zeroKey, heap, capacity);
      KeyListParts(kind, heap, l);
      NothingHeld(kind);
      AddedEmpty(KeyList(l), ViewOf(kind, heap, KeyList(l)), {l, l.elements});
    }

    method MakeValueList(capacity: nat)
      requires Valid() && capacity < LARGEST
      modifies this
      ensures Valid() && outS == old(outS) && outR == old(outR) && |views| == |old(views)| + 1 && fresh(feet - old(feet))
      ensures views == old(views) + [views[|old(views)|]] && views[|old(views)|].value == ValuesIn([], 0, capacity)
      ensures Balanced(heap.counts, old(AllStrings()), old(AllRefs()), heap.counts, AllStrings(), AllRefs())
    {
      hide Covers, Balanced, Lawful, HeldBy, BorrowedBy, Foot, Fine, ViewOf, Self;
      FeetOf(cs);
      var l := new RoxyList(zeroValue, heap, capacity);
      l.elementIsRef := kind.valueIsRef;
      ValueListParts(kind, heap, l);
      NothingHeld(kind);
      AddedEmpty(ValueList(l), ViewOf(kind, heap, ValueList(l)), {l, l.elements});
    }

    /** The keys of a map as a new list, retained for it. */
    method KeysAt(i: nat) returns (lst: RoxyList<K>, ghost items: seq<(K, V)>)
      requires Valid() && i < |cs| && cs[i].Table?
      modifies heap
      ensures fresh(lst) && fresh(lst.elements) && Fine(kind, heap, KeyList(lst)) && Foot(Container<K, V>.KeyList(lst)) == {lst, lst.elements}
      ensures views[i].value.MapOf? && Lists(items, views[i].value.s.m)
      ensures ViewOf(kind, heap, KeyList(lst)).value == KeysIn(Firsts(items), 0, |items|)
      ensures var v := ViewOf(kind, heap, KeyList(lst));
              && Covers(heap.counts, AllStrings() + v.strings, AllRefs() + v.refs)
              && Balanced(old(heap.counts), AllStrings(), AllRefs(), heap.counts, AllStrings() + v.strings, AllRefs() + v.refs)
      ensures heap.trapped == old(heap.trapped)
    {
      hide Covers, Balanced, Lawful, HeldBy, BorrowedBy, Foot, Fine, ViewOf, Self, HeldStrings, HeldRefs, KeyHolds, Lists;
      var m := cs[i].m;
      PartCovered(heap.counts, views, i, outS, outR);
      TableParts(kind, heap, m);
      ListingLists(m);
      items := m.Listing();
      lst := m.Keys();
      KeyListParts(kind, heap, lst);
      ghost var v := ViewOf(kind, heap, KeyList(lst));
      BagNoMore(views[i].refs);
      PartGrows(old(heap.counts), views, i, heap.counts, v.strings, v.refs, outS, outR);
    }

    /** The keys of a map as a new list, which holds each of them once more. */
    method TakeKeys(i: nat) returns (ghost items: seq<(K, V)>)
      requires Valid() && i < |cs| && cs[i].Table?
      modifies this, heap
      ensures Valid() && outS == old(outS) && outR == old(outR) && |views| == |old(views)| + 1
      ensures old(views)[i].value.MapOf? && Lists(items, old(views)[i].value.s.m)
      ensures views == old(views) + [views[|old(views)|]] && views[|old(views)|].value == KeysIn(Firsts(items), 0, |items|)
      ensures Balanced(old(heap.counts), old(AllStrings()), old(AllRefs()), heap.counts, AllStrings(), AllRefs())
      ensures heap.trapped == old(heap.trapped)
      ensures fresh(feet - old(feet))
    {
      hide Covers, Balanced, Lawful, HeldBy, BorrowedBy, Foot, Fine, ViewOf, Self, Lists;
      FeetOf(cs);
      var lst;
      lst, items := KeysAt(i);
      Added(KeyList(lst), ViewOf(kind, heap, KeyList(lst)), {lst, lst.elements});
    }

    /** The values of a map as a new list, borrowed for it. */
    method ValuesAt(i: nat) returns (lst: RoxyList<V>, ghost items: seq<(K, V)>)
      requires Valid() && i < |cs| && cs[i].Table?
      modifies heap
      ensures fresh(lst) && fresh(lst.elements) && Fine(kind, heap, ValueList(lst)) && Foot(Container<K, V>.ValueList(lst)) == {lst, lst.elements}
      ensures views[i].value.MapOf? && Lists(items, views[i].value.s.m)
      ensures ViewOf(kind, heap, ValueList(lst)).value == ValuesIn(Seconds(items), 0, |items|)
      ensures var v := ViewOf(kind, heap, ValueList(lst));
              && Covers(heap.counts, AllStrings() + v.strings, AllRefs() + v.refs)
              && Balanced(old(heap.counts), AllStrings(), AllRefs(), heap.counts, AllStrings() + v.strings, AllRefs() + v.refs)
      ensures heap.trapped == old(heap.trapped)
    {
      hide Covers, Balanced, Lawful, HeldBy, BorrowedBy, Foot, Fine, ViewOf, Self, HeldStrings, HeldRefs, ValueHolds, Lists, Seconds, Firsts, AsMap, Entries, WellFormed, Distinct, IsPowerOfTwo;
      var m := cs[i].m;
      PartCovered(heap.counts, views, i, outS, outR);
      TableParts(kind, heap, m);
      ListingLists(m);
      items := m.Listing();
      lst := m.Values();
      ValueListParts(kind, heap, lst);
      ghost var v := ViewOf(kind, heap, ValueList(lst));
      BagNoMore(views[i].strings);
      PartGrows(old(heap.counts), views, i, heap.counts, v.strings, v.refs, outS, outR);
    }

    /** The values of a map as a new list, which borrows each `ref` one once more. */
    method TakeValues(i: nat) returns (ghost items: seq<(K, V)>)
      requires Valid() && i < |cs| && cs[i].Table?
      modifies this, heap
      ensures Valid() && outS == old(outS) && outR == old(outR) && |views| == |old(views)| + 1
      ensures old(views)[i].value.MapOf? && Lists(items, old(views)[i].value.s.m)
      ensures views == old(views) + [views[|old(views)|]] && views[|old(views)|].value == ValuesIn(Seconds(items), 0, |items|)
      ensures Balanced(old(heap.counts), old(AllStrings()), old(AllRefs()), heap.counts, AllStrings(), AllRefs())
      ensures heap.trapped == old(heap.trapped)
      ensures fresh(feet - old(feet))
    {
      hide Covers, Balanced, Lawful, HeldBy, BorrowedBy, Foot, Fine, ViewOf, Self, Lists;
      FeetOf(cs);
      var lst;
      lst, items := ValuesAt(i);
      Added(ValueList(lst), ViewOf(kind, heap, ValueList(lst)), {lst, lst.elements});
    }

    /** A copy of a map, paid for. */
    method CopyAt(i: nat) returns (dst: RoxyMap<K, V>)
      requires Valid() && i < |cs| && cs[i].Table?
      modifies heap
      ensures fresh(dst) && fresh(dst.distances) && fresh(dst.keys) && fresh(dst.values)
      ensures Fine(kind, heap, Table(dst)) && Foot(Table(dst)) == {dst, dst.distances, dst.keys, dst.values}
      ensures views[i].value.MapOf?
      ensures ViewOf(kind, heap, Table(dst)).value == MapOf(views[i].value.s.(pins := 0))
      ensures var v := ViewOf(kind, heap, Table(dst));
              && Covers(heap.counts, AllStrings() + v.strings, AllRefs() + v.refs)
              && Balanced(old(heap.counts), AllStrings(), AllRefs(), heap.counts, AllStrings() + v.strings, AllRefs() + v.refs)
      ensures heap.trapped == old(heap.trapped)
    {
      hide Covers, Balanced, Lawful, HeldBy, BorrowedBy, Foot, Fine, ViewOf, Self, HeldStrings, HeldRefs, AsMap, Entries, WellFormed, Distinct;
      var m := cs[i].m;
      PartCovered(heap.counts, views, i, outS, outR);
      TableParts(kind, heap, m);
      dst := m.Copy();
      TableParts(kind, heap, dst);
      ghost var v := ViewOf(kind, heap, Table(dst));
      PartGrows(old(heap.counts), views, i, heap.counts, v.strings, v.refs, outS, outR);
    }

    /** A copy of a map, which holds every key and value once more. */
    method CopyTable(i: nat)
      requires Valid() && i < |cs| && cs[i].Table?
      modifies this, heap
      ensures Valid() && outS == old(outS) && outR == old(outR) && |views| == |old(views)| + 1
      ensures old(views)[i].value.MapOf?
      ensures views == old(views) + [views[|old(views)|]]
      ensures views[|old(views)|].value == MapOf(old(views)[i].value.s.(pins := 0))
      ensures Balanced(old(heap.counts), old(AllStrings()), old(AllRefs()), heap.counts, AllStrings(), AllRefs())
      ensures heap.trapped == old(heap.trapped)
      ensures fresh(feet - old(feet))
    {
      hide Covers, Balanced, Lawful, HeldBy, BorrowedBy, Foot, Fine, ViewOf, Self;
      FeetOf(cs);
      var dst := CopyAt(i);
      Added(Table(dst), ViewOf(kind, heap, Table(dst)), {dst, dst.distances, dst.keys, dst.values});
    }

    /** A copy of a list of values, which borrows each `ref` one once more. */
    method CopyList(i: nat)
      requires Valid() && i < |cs| && cs[i].ValueList?
      modifies this, heap
      ensures Valid() && outS == old(outS) && outR == old(outR) && |views| == |old(views)| + 1
      ensures old(views)[i].value.ValuesIn?
      ensures views == old(views) + [views[|old(views)|]]
      ensures views[|old(views)|].value == old(views)[i].value.(pins := 0)
      ensures Balanced(old(heap.counts), old(AllStrings()), old(AllRefs()), heap.counts, AllStrings(), AllRefs())
      ensures heap.trapped == old(heap.trapped)
      ensures fresh(feet - old(feet))
    {
      hide Covers, Balanced, Lawful, HeldBy, BorrowedBy, Foot, Fine, ViewOf, Self;
      var l := cs[i].values;
      FeetOf(cs);
      ValueListParts(kind, heap, l);
      var dst := l.Copy(kind.valPtr, AllStrings(), AllRefs());
      ValueListParts(kind, heap, dst);
      ghost var v := ViewOf(kind, heap, ValueList(dst));
      BagNoMore(AllStrings());
      Added(ValueList(dst), v, {dst, dst.elements});
    }

    // ----- Lists that grow -----

    method PushKeyAt(i: nat, k: K) returns (o: Outcome)
      requires Valid() && i < |cs| && cs[i].KeyList?
      modifies Foot(cs[i])
      ensures Fine(kind, heap, cs[i]) && views[i].value.KeysIn?
      ensures o == PushOutcome(views[i].value.pins, |views[i].value.ks|, views[i].value.capacity)
      ensures ViewOf(kind, heap, cs[i]).value == PushedKey(views[i].value, k)
      ensures ViewOf(kind, heap, cs[i]).refs == views[i].refs == multiset{}
      ensures ViewOf(kind, heap, cs[i]).strings == views[i].strings + Maybe(kind.keyCounted && o.Done?, kind.keyPtr(k))
      ensures this !in Foot(cs[i]) && heap !in Foot(cs[i])
      ensures forall o :: o in Foot(cs[i]) ==> o in old(Foot(cs[i])) || fresh(o)
    {
      hide Covers, Balanced, Lawful, HeldBy, BorrowedBy, Foot, Fine, ViewOf, Self, Holds;
      var l := cs[i].keys;
      KeyListParts(kind, heap, l);
      HoldsAdd(l.Contents(), kind.keyPtr, k);
      o := l.Push(k);
      KeyListParts(kind, heap, l);
      assert l in old(Foot(cs[i]));
      BagNoMore(views[i].strings);
    }

    /** Appends a key to a list of keys; an outside owner's hold on its string becomes the list's. */
    method PushKey(i: nat, k: K) returns (o: Outcome)
      requires Valid() && i < |cs| && cs[i].KeyList? && Given(outS, kind.keyCounted, kind.keyPtr(k))
      modifies this, Foot(cs[i])
      ensures Valid() && cs == old(cs) && outR == old(outR)
      ensures old(views)[i].value.KeysIn?
      ensures o == PushOutcome(old(views)[i].value.pins, |old(views)[i].value.ks|, old(views)[i].value.capacity)
      ensures |views| == |old(views)| && views[i].value == PushedKey(old(views)[i].value, k)
      ensures views == old(views)[i := views[i]]
      ensures outS == Handed(old(outS), kind.keyCounted && o.Done?, kind.keyPtr(k))
      ensures Balanced(heap.counts, old(AllStrings()), old(AllRefs()), heap.counts, AllStrings(), AllRefs())
      ensures fresh(feet - old(feet))
    {
      hide Covers, Balanced, Lawful, HeldBy, BorrowedBy, Foot, Fine, ViewOf, Self, PushedKey, PushOutcome, Handed, Maybe;
      FeetOf(cs);
      o := PushKeyAt(i, k);
      forall j | 0 <= j < |cs| && j != i
        ensures Foot(cs[j]) == old(Foot(cs[j])) && Fine(kind, heap, cs[j]) && ViewOf(kind, heap, cs[j]) == views[j]
      {
        var c := cs[j];
        assert old(Foot(c)) !! old(Foot(cs[i])) && this !in old(Foot(c));
        assert Self(c) in old(Foot(c));
        assert unchanged(Self(c));
        assert unchanged(old(Foot(c)));
      }
      ghost var v, given := ViewOf(kind, heap, cs[i]), kind.keyCounted && o.Done?;
      KeyHandedOver(heap.counts, views, i, v, given, kind.keyPtr(k), outS, outR);
      outS := Handed(outS, kind.keyCounted && o.Done?, kind.keyPtr(k));
      Changed(i, v);
    }

    method PushValueAt(i: nat, v0: V) returns (o: Outcome)
      requires Valid() && i < |cs| && cs[i].ValueList?
      modifies Foot(cs[i])
      ensures Fine(kind, heap, cs[i]) && views[i].value.ValuesIn?
      ensures o == PushOutcome(views[i].value.pins, |views[i].value.vs|, views[i].value.capacity)
      ensures ViewOf(kind, heap, cs[i]).value == PushedValue(views[i].value, v0)
      ensures ViewOf(kind, heap, cs[i]).strings == views[i].strings == multiset{}
      ensures ViewOf(kind, heap, cs[i]).refs == views[i].refs + Maybe(kind.valueIsRef && o.Done?, kind.valPtr(v0))
      ensures this !in Foot(cs[i]) && heap !in Foot(cs[i])
      ensures forall o :: o in Foot(cs[i]) ==> o in old(Foot(cs[i])) || fresh(o)
    {
      hide Covers, Balanced, Lawful, HeldBy, BorrowedBy, Foot, Fine, ViewOf, Self, Holds;
      var l := cs[i].values;
      ValueListParts(kind, heap, l);
      HoldsAdd(l.Contents(), kind.valPtr, v0);
      o := l.Push(v0);
      ValueListParts(kind, heap, l);
      assert l in old(Foot(cs[i]));
      BagNoMore(views[i].refs);
    }

    /** Appends a value to a list of values; an outside owner's borrow becomes the list's. */
    method PushValue(i: nat, v0: V) returns (o: Outcome)
      requires Valid() && i < |cs| && cs[i].ValueList? && Given(outR, kind.valueIsRef, kind.valPtr(v0))
      modifies this, Foot(cs[i])
      ensures Valid() && cs == old(cs) && outS == old(outS)
      ensures old(views)[i].value.ValuesIn?
      ensures o == PushOutcome(old(views)[i].value.pins, |old(views)[i].value.vs|, old(views)[i].value.capacity)
      ensures |views| == |old(views)| && views[i].value == PushedValue(old(views)[i].value, v0)
      ensures views == old(views)[i := views[i]]
      ensures outR == Handed(old(outR), kind.valueIsRef && o.Done?, kind.valPtr(v0))
      ensures Balanced(heap.counts, old(AllStrings()), old(AllRefs()), heap.counts, AllStrings(), AllRefs())
      ensures fresh(feet - old(feet))
    {
      hide Covers, Balanced, Lawful, HeldBy, BorrowedBy, Foot, Fine, ViewOf, Self, PushedValue, PushOutcome, Handed, Maybe;
      FeetOf(cs);
      o := PushValueAt(i, v0);
      forall j | 0 <= j < |cs| && j != i
        ensures Foot(cs[j]) == old(Foot(cs[j])) && Fine(kind, heap, cs[j]) && ViewOf(kind, heap, cs[j]) == views[j]
      {
        var c := cs[j];
        assert old(Foot(c)) !! old(Foot(cs[i])) && this !in old(Foot(c));
        assert Self(c) in old(Foot(c));
        assert unchanged(Self(c));
        assert unchanged(old(Foot(c)));
      }
      ghost var v, given := ViewOf(kind, heap, cs[i]), kind.valueIsRef && o.Done?;
      ValueHandedOver(heap.counts, views, i, v, given, kind.valPtr(v0), outS, outR);
      outR := Handed(outR, kind.valueIsRef && o.Done?, kind.valPtr(v0));
      Changed(i, v);
    }

    // ----- Owners outside the containers -----

    method NewString(p: nat)
      requires Valid() && p != 0 && p !in heap.counts.strings
      modifies `outS, heap
      ensures Valid() && outS == old(outS) + multiset{p}
      ensures Balanced(old(heap.counts), old(AllStrings()), AllRefs(), heap.counts, AllStrings(), AllRefs())
      ensures heap.trapped == old(heap.trapped)
    {
      hide Covers, Balanced, Lawful, HeldBy, BorrowedBy, Foot, Fine, ViewOf, Self, Counts.New;
      FeetOf(cs);
      NewMoves(heap.counts, AllStrings(), AllRefs(), p);
      BagAssoc(HeldBy(views), outS, multiset{p});
      heap.StringNew(p);
      outS := outS + multiset{p};
    }

    method RetainString(p: nat)
      requires Valid() && p != 0 && p in heap.counts.strings
      modifies `outS, heap
      ensures Valid() && outS == old(outS) + multiset{p}
      ensures Balanced(old(heap.counts), old(AllStrings()), AllRefs(), heap.counts, AllStrings(), AllRefs())
      ensures heap.trapped == old(heap.trapped)
    {
      hide Covers, Balanced, Lawful, HeldBy, BorrowedBy, Foot, Fine, ViewOf, Self, Counts.Retain;
      FeetOf(cs);
      RetainMoves(heap.counts, AllStrings(), AllRefs(), p);
      BagAssoc(HeldBy(views), outS, multiset{p});
      heap.StringRetain(p);
      outS := outS + multiset{p};
    }

    method ReleaseString(p: nat)
      requires Valid() && p != 0 && p in outS
      modifies `outS, heap
      ensures Valid() && outS == old(outS) - multiset{p}
      ensures Balanced(old(heap.counts), old(AllStrings()), AllRefs(), heap.counts, AllStrings(), AllRefs())
      ensures heap.trapped == old(heap.trapped)
    {
      hide Covers, Balanced, Lawful, HeldBy, BorrowedBy, Foot, Fine, ViewOf, Self, Counts.Release;
      FeetOf(cs);
      TakenOut(outS, p);
      BagAssoc(HeldBy(views), outS - multiset{p}, multiset{p});
      ReleaseMoves(heap.counts, HeldBy(views) + (outS - multiset{p}), AllRefs(), p);
      heap.StringRelease(p);
      outS := outS - multiset{p};
    }

    method StartBorrow(p: nat)
      requires Valid() && p != 0
      modifies `outR, heap
      ensures Valid() && outR == old(outR) + multiset{p}
      ensures Balanced(old(heap.counts), AllStrings(), old(AllRefs()), heap.counts, AllStrings(), AllRefs())
      ensures heap.trapped == old(heap.trapped)
    {
      hide Covers, Balanced, Lawful, HeldBy, BorrowedBy, Foot, Fine, ViewOf, Self, Counts.RefInc;
      FeetOf(cs);
      RefIncMoves(heap.counts, AllStrings(), AllRefs(), p);
      BagAssoc(BorrowedBy(views), outR, multiset{p});
      heap.RefInc(p);
      outR := outR + multiset{p};
    }

    method EndBorrow(p: nat)
      requires Valid() && p != 0 && p in outR
      modifies `outR, heap
      ensures Valid() && outR == old(outR) - multiset{p}
      ensures Balanced(old(heap.counts), AllStrings(), old(AllRefs()), heap.counts, AllStrings(), AllRefs())
      ensures heap.trapped == old(heap.trapped)
    {
      hide Covers, Balanced, Lawful, HeldBy, BorrowedBy, Foot, Fine, ViewOf, Self, Counts.RefDec;
      FeetOf(cs);
      TakenOut(outR, p);
      BagAssoc(BorrowedBy(views), outR - multiset{p}, multiset{p});
      RefDecMoves(heap.counts, AllStrings(), BorrowedBy(views) + (outR - multiset{p}), p);
      heap.RefDec(p);
      outR := outR - multiset{p};
    }

    // ----- Whole runs -----

    ghost function Now(): Snapshot<K, V>
      reads this, heap
    {
      Snapshot(views, heap.counts, outS, outR)
    }

    lemma NowSettled()
      requires Valid()
      ensures Settled(kind, Now())
    {
      hide Covers, HeldBy, BorrowedBy, Accounts, ViewOf, Fine;
      forall j | 0 <= j < |views|
        ensures Accounts(kind, views[j])
      {
        PartAccounts(kind, heap, cs[j]);
      }
    }

    /** A container is the kind of thing its view says, and its buffers are among ours. */
    lemma KindsAgree()
      requires Sound()
      ensures |views| == |cs| && this !in feet && heap !in feet
      ensures forall i :: 0 <= i < |cs| ==> Foot(cs[i]) <= feet
      ensures forall i :: 0 <= i < |cs| ==>
                && (cs[i].Table? <==> views[i].value.MapOf?)
                && (cs[i].KeyList? <==> views[i].value.KeysIn?)
                && (cs[i].ValueList? <==> views[i].value.ValuesIn?)
    {
    }

    /** An operation of the runtime on the containers, if it makes sense now. */
    method OnContainers(op: HeapOp<K, V>) returns (a: HeapAnswer<V>, ok: bool)
      requires Valid() && op.OnContainer?
      modifies this, heap, feet
      ensures ok <==> !Stops(kind, old(Now()), op)
      ensures ok ==> Valid() && Steps(kind, old(Now()), op, a, Now()) && fresh(feet - old(feet))
      ensures heap.trapped == old(heap.trapped)
    {
      hide Sound, Covers, Balanced, Stops, Steps;
      match op.act
      case Call(_) => a, ok := Calls(op);
      case Keys | Values | Copy => a, ok := Derives(op);
      case PushK(_) | PushV(_) => a, ok := Pushes(op);
    }

    method Calls(op: HeapOp<K, V>) returns (a: HeapAnswer<V>, ok: bool)
      requires Valid() && op.OnContainer? && op.act.Call?
      modifies this, heap, feet
      ensures ok <==> !Stops(kind, old(Now()), op)
      ensures ok ==> Valid() && Steps(kind, old(Now()), op, a, Now()) && fresh(feet - old(feet))
      ensures heap.trapped == old(heap.trapped)
    {
      hide Sound, Foot, Covers, Balanced, Lawful, HeldBy, BorrowedBy, Traps, StepState, StepAnswer, Lists, PushedKey, PushedValue, PushOutcome, LiveKey, Handed, Given;
      KindsAgree();
      SameHolders(heap.counts, AllStrings(), AllRefs(), AllStrings(), AllRefs());
      a, ok := Skipped, true;
      var i := op.i;
      var o := op.act.op;
      if i < |cs| && cs[i].Table? && (o.Insert? ==> LiveKey(kind, heap.counts, o.k)) {
        var answer;
        answer, ok := OnTable(i, o);
        a := Said(answer);
      }
    }

    /** A new container made from another. */
    method Derives(op: HeapOp<K, V>) returns (a: HeapAnswer<V>, ok: bool)
      requires Valid() && op.OnContainer? && (op.act.Keys? || op.act.Values? || op.act.Copy?)
      modifies this, heap, feet
      ensures ok <==> !Stops(kind, old(Now()), op)
      ensures ok ==> Valid() && Steps(kind, old(Now()), op, a, Now()) && fresh(feet - old(feet))
      ensures heap.trapped == old(heap.trapped)
    {
      hide Sound, Foot, Covers, Balanced, Lawful, HeldBy, BorrowedBy, Traps, StepState, StepAnswer, Lists, PushedKey, PushedValue, PushOutcome, LiveKey, Handed, Given;
      KindsAgree();
      SameHolders(heap.counts, AllStrings(), AllRefs(), AllStrings(), AllRefs());
      a, ok := Skipped, true;
      var i := op.i;
      if i >= |cs| {
        return;
      }
      match op.act
      case Keys =>
        if cs[i].Table? {
          ghost var items := TakeKeys(i);
          a := Finished;
        }
      case Values =>
        if cs[i].Table? {
          ghost var items := TakeValues(i);
          a := Finished;
        }
      case Copy =>
        if cs[i].Table? {
          CopyTable(i);
          a := Finished;
        } else if cs[i].ValueList? {
          CopyList(i);
          a := Finished;
        }
    }

    method Pushes(op: HeapOp<K, V>) returns (a: HeapAnswer<V>, ok: bool)
      requires Valid() && op.OnContainer? && (op.act.PushK? || op.act.PushV?)
      modifies this, heap, feet
      ensures ok <==> !Stops(kind, old(Now()), op)
      ensures ok ==> Valid() && Steps(kind, old(Now()), op, a, Now()) && fresh(feet - old(feet))
      ensures heap.trapped == old(heap.trapped)
    {
      hide Sound, Foot, Covers, Balanced, Lawful, HeldBy, BorrowedBy, Traps, StepState, StepAnswer, Lists, PushedKey, PushedValue, PushOutcome, LiveKey, Handed, Given;
      KindsAgree();
      SameHolders(heap.counts, AllStrings(), AllRefs(), AllStrings(), AllRefs());
      a, ok := Skipped, true;
      var i := op.i;
      if i >= |cs| {
        return;
      }
      match op.act
      case PushK(k) =>
        if cs[i].KeyList? && Given(outS, kind.keyCounted, kind.keyPtr(k)) {
          var o := PushKey(i, k);
          a, ok := Pushed(o), o != Trap;
        }
      case PushV(v) =>
        if cs[i].ValueList? && Given(outR, kind.valueIsRef, kind.valPtr(v)) {
          var o := PushValue(i, v);
          a, ok := Pushed(o), o != Trap;
        }
    }

    /** A new, empty container. */
    method Makes(op: HeapOp<K, V>) returns (a: HeapAnswer<V>)
      requires Valid() && (op.NewTable? || op.NewKeyList? || op.NewValueList?)
      modifies this
      ensures Valid() && Steps(kind, old(Now()), op, a, Now()) && fresh(feet - old(feet))
    {
      hide Sound, Covers, Balanced, Lawful, HeldBy, BorrowedBy, Acts, CapacityFor;
      SameHolders(heap.counts, AllStrings(), AllRefs(), AllStrings(), AllRefs());
      a := Skipped;
      match op
      case NewTable(initial) =>
        if initial < LARGEST {
          ghost var capacity := MakeTable(initial);
          a := Finished;
        }
      case NewKeyList(capacity) =>
        if capacity < LARGEST {
          MakeKeyList(capacity);
          a := Finished;
        }
      case NewValueList(capacity) =>
        if capacity < LARGEST {
          MakeValueList(capacity);
          a := Finished;
        }
    }

    /** What an owner of strings outside the containers does. */
    method WithStrings(op: HeapOp<K, V>) returns (a: HeapAnswer<V>)
      requires Valid() && (op.MakeString? || op.Retain? || op.Release?)
      modifies `outS, heap
      ensures Valid() && Steps(kind, old(Now()), op, a, Now())
      ensures heap.trapped == old(heap.trapped)
    {
      hide Sound, Covers, Balanced, Lawful, HeldBy, BorrowedBy, Acts, Counts.New, Counts.Retain, Counts.Release;
      SameHolders(heap.counts, AllStrings(), AllRefs(), AllStrings(), AllRefs());
      a := Skipped;
      match op
      case MakeString(p) =>
        if p != 0 && p !in heap.counts.strings {
          NewString(p);
          a := Finished;
        }
      case Retain(p) =>
        if p != 0 && p in heap.counts.strings {
          RetainString(p);
          a := Finished;
        }
      case Release(p) =>
        if p != 0 && p in outS {
          ReleaseString(p);
          a := Finished;
        }
    }

    /** What a borrower outside the containers does. */
    method WithBorrows(op: HeapOp<K, V>) returns (a: HeapAnswer<V>)
      requires Valid() && (op.Borrow? || op.Unborrow?)
      modifies `outR, heap
      ensures Valid() && Steps(kind, old(Now()), op, a, Now())
      ensures heap.trapped == old(heap.trapped)
    {
      hide Sound, Covers, Balanced, Lawful, HeldBy, BorrowedBy, Acts;
      SameHolders(heap.counts, AllStrings(), AllRefs(), AllStrings(), AllRefs());
      a := Skipped;
      match op
      case Borrow(p) =>
        if p != 0 {
          StartBorrow(p);
          a := Finished;
        }
      case Unborrow(p) =>
        if p != 0 && p in outR {
          EndBorrow(p);
          a := Finished;
        }
    }

    /** One operation; one that makes no sense now is skipped. */
    method Do(op: HeapOp<K, V>) returns (a: HeapAnswer<V>, ok: bool)
      requires Valid()
      modifies this, heap, feet
      ensures ok <==> !Stops(kind, old(Now()), op)
      ensures ok ==> Valid() && Steps(kind, old(Now()), op, a, Now()) && Settled(kind, Now()) && fresh(feet - old(feet))
      ensures heap.trapped == old(heap.trapped)
    {
      hide Sound, Covers, Balanced, Lawful, HeldBy, BorrowedBy, Steps, Settled;
      ok := true;
      match op {
        case OnContainer(_, _) =>
          a, ok := OnContainers(op);
        case NewTable(_) | NewKeyList(_) | NewValueList(_) =>
          a := Makes(op);
        case MakeString(_) | Retain(_) | Release(_) =>
          a := WithStrings(op);
        case Borrow(_) | Unborrow(_) =>
          a := WithBorrows(op);
      }
      if ok {
        NowSettled();
      }
    }

    /**
     Any sequence of operations, up to the first one that stops at an assertion: the
     trace is a run of the abstract heap, at every point of which all that is held is
     alive and paid for, and held by the containers for what they stand for; and no
     decrement ever meets a count of zero.
     */
    method Run(ops: seq<HeapOp<K, V>>) returns (answers: seq<HeapAnswer<V>>, done: nat, ghost trace: seq<Snapshot<K, V>>)
      requires Valid()
      modifies this, heap, feet
      ensures done == |answers| <= |ops| && IsRun(kind, trace, ops[..done], answers) && trace[0] == old(Now())
      ensures forall i :: 0 <= i < done ==> !Stops(kind, trace[i], ops[i])
      ensures done < |ops| ==> Stops(kind, trace[done], ops[done])
      ensures done == |ops| ==> Valid() && trace[done] == Now()
      ensures heap.trapped == old(heap.trapped)
    {
      hide Sound, Covers, Balanced, Lawful, HeldBy, BorrowedBy, Steps, Stops, IsRun, Settled;
      ghost var w0 := Now();
      answers, done, trace := [], 0, [w0];
      NowSettled();
      RunStarts(kind, w0);
      while done < |ops|
        invariant done == |answers| <= |ops| && |trace| == done + 1 && trace[done] == Now() && Valid() && trace[0] == w0
        invariant IsRun(kind, trace, ops[..done], answers)
        invariant forall i :: 0 <= i < done ==> !Stops(kind, trace[i], ops[i])
        invariant fresh(feet - old(feet)) && heap.trapped == old(heap.trapped)
      {
        ghost var was := trace;
        var a, ok := Do(ops[done]);
        if !ok {
          return;
        }
        RunGoesOn(kind, trace, ops[..done], answers, ops[done], a, Now());
        assert ops[..done + 1] == ops[..done] + [ops[done]];
        answers, done, trace := answers + [a], done + 1, trace + [Now()];
      }
      assert ops[..done] == ops;
    }
  }
}
