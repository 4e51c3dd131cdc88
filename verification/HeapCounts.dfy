/**
 How many holders a string or an object has, counted out: the map entries and the
 list elements that point to it, in every container, and the owners outside.
 */
module HeapCounts {
  import opened Prelude
  import opened RobinHood
  import opened Counting
  import opened AbstractMap
  import opened Homes
  import opened RoxyMap
  import opened MapRuns
  import opened HeapModel

  // ----- Bags and sequences -----

  /** The entries of a bag that point to `p`. */
  ghost function Pointing<T>(e: multiset<T>, f: T -> nat, p: nat): set<T> {
    set a | a in e && f(a) == p
  }

  lemma PointingAdd<T>(e: multiset<T>, f: T -> nat, p: nat, x: T)
    requires x !in e
    ensures Pointing(e + multiset{x}, f, p) == (if f(x) == p then Pointing(e, f, p) + {x} else Pointing(e, f, p))
    ensures x !in Pointing(e, f, p)
  {
    forall a
      ensures a in e + multiset{x} <==> a in e || a == x
    {
    }
  }

  lemma OneOut<T>(e: multiset<T>, x: T)
    requires x in e && forall a :: a in e ==> e[a] == 1
    ensures var rest := e - multiset{x};
            rest + multiset{x} == e && x !in rest && |rest| < |e| && forall a :: a in rest ==> rest[a] == 1
  {
  }

  lemma {:induction false} ImageCount<T>(e: multiset<T>, f: T -> nat, p: nat)
    requires forall a :: a in e ==> e[a] == 1
    ensures Image(e, f)[p] == |Pointing(e, f, p)|
    decreases |e|
  {
    hide Image, Pointing;
    if x :| x in e {
      var rest := e - multiset{x};
      OneOut(e, x);
      ImageCount(rest, f, p);
      ImageAdd(rest, f, x);
      PointingAdd(rest, f, p, x);
    } else {
      assert e == multiset{};
      NonePointing(f, p);
    }
  }

  lemma NonePointing<T>(f: T -> nat, p: nat)
    ensures Image(multiset{}, f) == multiset{} && Pointing(multiset{}, f, p) == {}
  {
  }

  /** The places of a sequence that point to `p`. */
  ghost function Places<T>(l: seq<T>, f: T -> nat, p: nat): set<int> {
    set i | 0 <= i < |l| && f(l[i]) == p
  }

  lemma PlacesAdd<T>(l: seq<T>, f: T -> nat, p: nat, x: T)
    ensures Places(l + [x], f, p) == (if f(x) == p then Places(l, f, p) + {|l|} else Places(l, f, p))
    ensures |l| !in Places(l, f, p)
  {
  }

  lemma {:induction false} HoldsCount<T>(l: seq<T>, f: T -> nat, p: nat)
    ensures Holds(l, f)[p] == |Places(l, f, p)|
  {
    if l == [] {
      assert Places(l, f, p) == {};
    } else {
      hide Holds, Places;
      var front, x := l[..|l| - 1], l[|l| - 1];
      assert front + [x] == l;
      HoldsCount(front, f, p);
      HoldsAdd(front, f, x);
      PlacesAdd(front, f, p, x);
    }
  }

  /** The items under some of a map's keys. */
  ghost function Under<K, V>(m: map<K, V>, keys: set<K>): set<(K, V)>
    requires keys <= m.Keys
  {
    set k | k in keys :: (k, m[k])
  }

  /** As many items as keys. */
  lemma {:induction false} ItemsCount<K, V>(m: map<K, V>, keys: set<K>)
    requires keys <= m.Keys
    ensures |Under(m, keys)| == |keys|
    decreases |keys|
  {
    if keys == {} {
      assert Under(m, keys) == {};
    } else {
      var x :| x in keys;
      ItemsCount(m, keys - {x});
      assert Under(m, keys) == Under(m, keys - {x}) + {(x, m[x])};
    }
  }

  // ----- Containers -----

  lemma KeysPointing<K, V>(kind: Kind<K, V>, m: map<K, V>, p: nat)
    ensures |Pointing(multiset(m.Items), KeyOf(kind), p)| == |set k | k in m && kind.keyPtr(k) == p|
  {
    var ks := set k | k in m && kind.keyPtr(k) == p;
    assert Pointing(multiset(m.Items), KeyOf(kind), p) == Under(m, ks);
    ItemsCount(m, ks);
  }

  lemma ValuesPointing<K, V>(kind: Kind<K, V>, m: map<K, V>, p: nat)
    ensures |Pointing(multiset(m.Items), ValueOf(kind), p)| == |set k | k in m && kind.valPtr(m[k]) == p|
  {
    var ks := set k | k in m && kind.valPtr(m[k]) == p;
    assert Pointing(multiset(m.Items), ValueOf(kind), p) == Under(m, ks);
    ItemsCount(m, ks);
  }

  /** A map holds a string once for each key that points to it, and an object once for each value. */
  lemma MapHolders<K, V>(kind: Kind<K, V>, m: map<K, V>, p: nat)
    ensures HeldStrings(kind, multiset(m.Items))[p] == if kind.keyCounted then |set k | k in m && kind.keyPtr(k) == p| else 0
    ensures HeldRefs(kind, multiset(m.Items))[p] == if kind.valueIsRef then |set k | k in m && kind.valPtr(m[k]) == p| else 0
  {
    hide Pointing, Image, KeyOf, ValueOf;
    ImageCount(multiset(m.Items), KeyOf(kind), p);
    ImageCount(multiset(m.Items), ValueOf(kind), p);
    KeysPointing(kind, m, p);
    ValuesPointing(kind, m, p);
  }

  /** How often a container holds the string `p`. */
  ghost function StringHolds<K, V>(kind: Kind<K, V>, v: Value<K, V>, p: nat): nat {
    if !kind.keyCounted then 0
    else
      match v
      case MapOf(s) => |set k | k in s.m && kind.keyPtr(k) == p|
      case KeysIn(ks, _, _) => |set i | 0 <= i < |ks| && kind.keyPtr(ks[i]) == p|
      case ValuesIn(_, _, _) => 0
  }

  /** How often a container borrows the object `p`. */
  ghost function RefHolds<K, V>(kind: Kind<K, V>, v: Value<K, V>, p: nat): nat {
    if !kind.valueIsRef then 0
    else
      match v
      case MapOf(s) => |set k | k in s.m && kind.valPtr(s.m[k]) == p|
      case KeysIn(_, _, _) => 0
      case ValuesIn(vs, _, _) => |set i | 0 <= i < |vs| && kind.valPtr(vs[i]) == p|
  }

  lemma ViewHolds<K, V>(kind: Kind<K, V>, v: View<K, V>, p: nat)
    requires Accounts(kind, v)
    ensures v.strings[p] == StringHolds(kind, v.value, p) && v.refs[p] == RefHolds(kind, v.value, p)
  {
    hide HeldStrings, HeldRefs, Holds;
    match v.value
    case MapOf(s) => MapHolders(kind, s.m, p);
    case KeysIn(ks, _, _) => HoldsCount(ks, kind.keyPtr, p);
    case ValuesIn(vs, _, _) => HoldsCount(vs, kind.valPtr, p);
  }

  // ----- The whole heap -----

  ghost function AllStringHolds<K, V>(kind: Kind<K, V>, views: seq<View<K, V>>, p: nat): nat {
    if views == [] then 0
    else AllStringHolds(kind, views[..|views| - 1], p) + StringHolds(kind, views[|views| - 1].value, p)
  }

  ghost function AllRefHolds<K, V>(kind: Kind<K, V>, views: seq<View<K, V>>, p: nat): nat {
    if views == [] then 0
    else AllRefHolds(kind, views[..|views| - 1], p) + RefHolds(kind, views[|views| - 1].value, p)
  }

  lemma {:induction false} AllHolds<K, V>(kind: Kind<K, V>, views: seq<View<K, V>>, p: nat)
    requires forall j :: 0 <= j < |views| ==> Accounts(kind, views[j])
    ensures HeldBy(views)[p] == AllStringHolds(kind, views, p) && BorrowedBy(views)[p] == AllRefHolds(kind, views, p)
    decreases |views|
  {
    hide Accounts;
    if views == [] {
      NothingHeldBy(views);
    } else {
      var front, last := views[..|views| - 1], views[|views| - 1];
      assert front + [last] == views;
      hide HeldBy, BorrowedBy;
      OneAdded(front, last);
      AllHolds(kind, front, p);
      ViewHolds(kind, last, p);
    }
  }

  lemma NothingHeldBy<K, V>(views: seq<View<K, V>>)
    requires views == []
    ensures HeldBy(views) == multiset{} && BorrowedBy(views) == multiset{}
  {
  }

  /** At every point of a run that starts with exact counts, a count is the number of entries and elements that point to it, and of owners outside. */
  lemma CountsCounted<K(!new), V(!new)>(kind: Kind<K, V>, trace: seq<Snapshot<K, V>>, ops: seq<HeapOp<K, V>>, answers: seq<HeapAnswer<V>>,
                                        i: nat, p: nat)
    requires IsRun(kind, trace, ops, answers) && i <= |ops| && p != 0
    requires Exact(trace[0].counts, trace[0].Strings(), trace[0].Refs())
    ensures var w := trace[i];
            && w.counts.Ref(p) == AllRefHolds(kind, w.views, p) + w.outR[p]
            && (!w.counts.IsImmortal(p) ==> w.counts.Str(p) == AllStringHolds(kind, w.views, p) + w.outS[p])
            && (!w.counts.IsImmortal(p) ==> (p in w.counts.strings <==> AllStringHolds(kind, w.views, p) + w.outS[p] > 0))
  {
    hide Steps, Covers, Accounts, HeldBy, BorrowedBy;
    RunExact(kind, trace, ops, answers, i, p);
    AllHolds(kind, trace[i].views, p);
  }
}
