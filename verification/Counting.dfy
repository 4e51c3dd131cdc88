/**
 Reference counts as the runtime keeps them in object headers: strings are freed
 when their count reaches zero unless they are immortal, `ref` borrows are only
 counted. Pointers are numbers; 0 is the null pointer.
 */
module Counting {

  /** The all-ones count marks a string that is never freed, whether it was made so or its count ran up to it. */
  const IMMORTAL := 0xFFFF_FFFF

  type Count = n: int | 0 <= n < IMMORTAL

  datatype StringCount = Immortal | Counted(n: Count)

  function CountOf(n: nat): StringCount
    requires n <= IMMORTAL
  {
    if n == IMMORTAL then Immortal else Counted(n)
  }

  /** The counts of all live strings, and of every object's borrows. */
  datatype Counts = Counts(strings: map<nat, StringCount>, borrows: map<nat, nat>) {

    predicate IsImmortal(p: nat) {
      p in strings && strings[p].Immortal?
    }

    /** The count of a string; a freed string has none. */
    function Str(p: nat): Count {
      if p in strings && strings[p].Counted? then strings[p].n else 0
    }

    function Ref(p: nat): nat {
      if p in borrows then borrows[p] else 0
    }

    function New(p: nat): Counts {
      this.(strings := strings[p := Counted(1)])
    }

    function Retain(p: nat): Counts
      requires p != 0 ==> p in strings
    {
      if p == 0 || IsImmortal(p) then this else this.(strings := strings[p := CountOf(Str(p) + 1)])
    }

    function Release(p: nat): Counts
      requires p != 0 ==> p in strings
    {
      if p == 0 || IsImmortal(p) || Str(p) == 0 then this
      else if Str(p) == 1 then this.(strings := strings - {p})
      else this.(strings := strings[p := Counted(Str(p) - 1)])
    }

    function RefInc(p: nat): Counts {
      if p == 0 then this else this.(borrows := borrows[p := Ref(p) + 1])
    }

    function RefDec(p: nat): Counts {
      if p == 0 || Ref(p) == 0 then this else this.(borrows := borrows[p := (Ref(p) - 1) as nat])
    }
  }

  /** Every holder listed in `ss` and `rs` is paid for by the counts, and no string is left at a count of zero. */
  ghost predicate Covers(c: Counts, ss: multiset<nat>, rs: multiset<nat>) {
    && (forall p :: p in c.strings ==> c.strings[p] != Counted(0))
    && (forall p :: p in ss && p != 0 ==> p in c.strings && (c.IsImmortal(p) || c.Str(p) >= ss[p]))
    && (forall p :: p in rs && p != 0 ==> c.Ref(p) >= rs[p])
  }

  /**
   The counts changed by exactly the change in holders: strings from `ss` to `ss'`,
   borrows from `rs` to `rs'`. An immortal string stays so and is not counted.
   */
  ghost predicate Conserved(c: Counts, ss: multiset<nat>, rs: multiset<nat>, c': Counts, ss': multiset<nat>, rs': multiset<nat>) {
    && (forall p :: c.IsImmortal(p) ==> c'.IsImmortal(p))
    && (forall p :: p != 0 && !c'.IsImmortal(p) ==> c'.Str(p) - ss'[p] == c.Str(p) - ss[p])
    && (forall p :: p != 0 ==> c'.Ref(p) - rs'[p] == c.Ref(p) - rs[p])
  }

  /** The same, where a string becomes immortal only when its new holders bring its count up to the all-ones one. */
  ghost predicate Balanced(c: Counts, ss: multiset<nat>, rs: multiset<nat>, c': Counts, ss': multiset<nat>, rs': multiset<nat>) {
    && Conserved(c, ss, rs, c', ss', rs')
    && (forall p :: p != 0 && c'.IsImmortal(p) && !c.IsImmortal(p) ==> c.Str(p) + ss'[p] >= IMMORTAL + ss[p])
  }

  lemma StillBalanced(c: Counts, ss: multiset<nat>, rs: multiset<nat>)
    ensures Balanced(c, ss, rs, c, ss, rs)
  {
  }

  /** Changes add up, as long as no string has more holders in between than both before and after. */
  lemma BalancedTrans(c: Counts, ss: multiset<nat>, rs: multiset<nat>, c': Counts, ss': multiset<nat>, rs': multiset<nat>,
                      c'': Counts, ss'': multiset<nat>, rs'': multiset<nat>)
    requires Balanced(c, ss, rs, c', ss', rs') && Balanced(c', ss', rs', c'', ss'', rs'')
    requires ss' <= ss || ss' <= ss''
    ensures Balanced(c, ss, rs, c'', ss'', rs'')
  {
  }

  /** Balanced counts are the only ones there can be: those of the strings are settled by the holders. */
  lemma BalancedDetermines(c: Counts, ss: multiset<nat>, rs: multiset<nat>, c1: Counts, c2: Counts, ss': multiset<nat>, rs': multiset<nat>, p: nat)
    requires Covers(c1, ss', rs') && Covers(c2, ss', rs') && p != 0
    requires Balanced(c, ss, rs, c1, ss', rs') && Balanced(c, ss, rs, c2, ss', rs')
    ensures p in c1.strings <==> p in c2.strings
    ensures p in c1.strings ==> c1.strings[p] == c2.strings[p]
    ensures c1.Ref(p) == c2.Ref(p)
  {
  }

  /** A new string has the one holder it was made for. */
  lemma NewMoves(c: Counts, ss: multiset<nat>, rs: multiset<nat>, p: nat)
    requires Covers(c, ss, rs) && p != 0 && p !in c.strings
    ensures Balanced(c, ss, rs, c.New(p), ss + multiset{p}, rs)
    ensures Covers(c.New(p), ss + multiset{p}, rs)
  {
    assert p !in ss;
    assert forall q :: q in ss + multiset{p} <==> q in ss || q == p;
  }

  /** Retaining a live string pays for one more holder of it. */
  lemma RetainMoves(c: Counts, ss: multiset<nat>, rs: multiset<nat>, p: nat)
    requires Covers(c, ss, rs) && (p != 0 ==> p in c.strings)
    ensures Balanced(c, ss, rs, c.Retain(p), ss + multiset{p}, rs)
    ensures Covers(c.Retain(p), ss + multiset{p}, rs)
  {
    assert forall q :: q in ss + multiset{p} <==> q in ss || q == p;
  }

  /** Releasing a held string spends exactly that holder's count, which is there to be spent. */
  lemma ReleaseMoves(c: Counts, ss: multiset<nat>, rs: multiset<nat>, p: nat)
    requires Covers(c, ss + multiset{p}, rs)
    ensures p != 0 ==> p in c.strings && (c.IsImmortal(p) || c.Str(p) > 0)
    ensures Balanced(c, ss + multiset{p}, rs, c.Release(p), ss, rs)
    ensures Covers(c.Release(p), ss, rs)
  {
    assert p in ss + multiset{p};
    assert forall q | q in ss :: q in ss + multiset{p};
  }

  lemma RefIncMoves(c: Counts, ss: multiset<nat>, rs: multiset<nat>, p: nat)
    requires Covers(c, ss, rs)
    ensures Balanced(c, ss, rs, c.RefInc(p), ss, rs + multiset{p})
    ensures Covers(c.RefInc(p), ss, rs + multiset{p})
  {
    assert forall q :: q in rs + multiset{p} <==> q in rs || q == p;
  }

  /** Ending a held borrow never meets a zero count. */
  lemma RefDecMoves(c: Counts, ss: multiset<nat>, rs: multiset<nat>, p: nat)
    requires Covers(c, ss, rs + multiset{p})
    ensures p != 0 ==> c.Ref(p) > 0
    ensures Balanced(c, ss, rs + multiset{p}, c.RefDec(p), ss, rs)
    ensures Covers(c.RefDec(p), ss, rs)
  {
    assert p in rs + multiset{p};
    assert forall q | q in rs :: q in rs + multiset{p};
  }

  /** One holder of `p`, when holders are counted at all. */
  ghost function Maybe(counted: bool, p: nat): multiset<nat> {
    if counted then multiset{p} else multiset{}
  }

  /** An entry coming in: its value's borrow starts, then its key is retained. */
  ghost function Acquire(c: Counts, ks: bool, p: nat, vs: bool, q: nat): Counts
    requires ks && p != 0 ==> p in c.strings
  {
    var c1 := if vs then c.RefInc(q) else c;
    if ks then c1.Retain(p) else c1
  }

  /** An entry going out: its value's borrow ends, then its key is released. */
  ghost function Relinquish(c: Counts, ks: bool, p: nat, vs: bool, q: nat): Counts
    requires ks && p != 0 ==> p in c.strings
  {
    var c1 := if vs then c.RefDec(q) else c;
    if ks then c1.Release(p) else c1
  }

  /** A value replaced: the old borrow ends before the new one starts. */
  ghost function Exchange(c: Counts, vs: bool, q: nat, r: nat): Counts {
    if vs then c.RefDec(q).RefInc(r) else c
  }

  lemma AcquireMoves(c: Counts, ss: multiset<nat>, rs: multiset<nat>, ks: bool, p: nat, vs: bool, q: nat)
    requires Covers(c, ss, rs) && (ks && p != 0 ==> p in c.strings)
    ensures Balanced(c, ss, rs, Acquire(c, ks, p, vs, q), ss + Maybe(ks, p), rs + Maybe(vs, q))
    ensures Covers(Acquire(c, ks, p, vs, q), ss + Maybe(ks, p), rs + Maybe(vs, q))
  {
    var c1, rs1 := if vs then c.RefInc(q) else c, rs + Maybe(vs, q);
    if vs {
      RefIncMoves(c, ss, rs, q);
    } else {
      assert rs1 == rs;
    }
    if ks {
      RetainMoves(c1, ss, rs1, p);
      BalancedTrans(c, ss, rs, c1, ss, rs1, c1.Retain(p), ss + multiset{p}, rs1);
    } else {
      assert ss + Maybe(ks, p) == ss;
    }
  }

  lemma RelinquishMoves(c: Counts, ss: multiset<nat>, rs: multiset<nat>, ks: bool, p: nat, vs: bool, q: nat)
    requires Covers(c, ss + Maybe(ks, p), rs + Maybe(vs, q))
    ensures ks && p != 0 ==> p in c.strings
    ensures vs && q != 0 ==> c.Ref(q) > 0
    ensures Balanced(c, ss + Maybe(ks, p), rs + Maybe(vs, q), Relinquish(c, ks, p, vs, q), ss, rs)
    ensures Covers(Relinquish(c, ks, p, vs, q), ss, rs)
  {
    var c1, ss1 := if vs then c.RefDec(q) else c, ss + Maybe(ks, p);
    if vs {
      RefDecMoves(c, ss1, rs, q);
    } else {
      assert rs + Maybe(vs, q) == rs;
    }
    if ks {
      ReleaseMoves(c1, ss, rs, p);
      BalancedTrans(c, ss1, rs + Maybe(vs, q), c1, ss1, rs, c1.Release(p), ss, rs);
    } else {
      assert ss1 == ss;
    }
  }

  lemma ExchangeMoves(c: Counts, ss: multiset<nat>, rs: multiset<nat>, vs: bool, q: nat, r: nat)
    requires Covers(c, ss, rs + Maybe(vs, q))
    ensures vs && q != 0 ==> c.Ref(q) > 0
    ensures Balanced(c, ss, rs + Maybe(vs, q), Exchange(c, vs, q, r), ss, rs + Maybe(vs, r))
    ensures Covers(Exchange(c, vs, q, r), ss, rs + Maybe(vs, r))
  {
    if vs {
      RefDecMoves(c, ss, rs, q);
      RefIncMoves(c.RefDec(q), ss, rs, r);
      BalancedTrans(c, ss, rs + multiset{q}, c.RefDec(q), ss, rs, c.RefDec(q).RefInc(r), ss, rs + multiset{r});
    }
  }

  /** The heap's counts, changed in place; `trapped` records an unbalanced decrement. */
  class Heap {
    var counts: Counts
    var trapped: bool

    /** A new string, owned once by whoever made it. */
    method StringNew(p: nat)
      requires p != 0 && p !in counts.strings
      modifies this
      ensures counts == old(counts).New(p) && trapped == old(trapped)
    {
      counts := counts.(strings := counts.strings[p := Counted(1)]);
    }

    method StringRetain(p: nat)
      requires p != 0 ==> p in counts.strings
      modifies this
      ensures counts == old(counts).Retain(p) && trapped == old(trapped)
    {
      if p == 0 {
        return;
      }
      if !counts.strings[p].Immortal? {
        counts := counts.(strings := counts.strings[p := CountOf(counts.strings[p].n + 1)]);
      }
    }

    method StringRelease(p: nat)
      requires p != 0 ==> p in counts.strings
      modifies this
      ensures counts == old(counts).Release(p) && trapped == old(trapped)
    {
      if p == 0 {
        return;
      }
      if counts.strings[p].Immortal? {
        return;
      }
      var n := counts.strings[p].n;
      if n == 0 {
        return;
      }
      if n - 1 == 0 {
        counts := counts.(strings := counts.strings - {p});
      } else {
        counts := counts.(strings := counts.strings[p := Counted(n - 1)]);
      }
    }

    method RefInc(p: nat)
      modifies this
      ensures counts == old(counts).RefInc(p) && trapped == old(trapped)
    {
      if p == 0 {
        return;
      }
      counts := counts.(borrows := counts.borrows[p := counts.Ref(p) + 1]);
    }

    method RefDec(p: nat)
      modifies this
      ensures counts == old(counts).RefDec(p)
      ensures trapped == (old(trapped) || (p != 0 && old(counts).Ref(p) == 0))
    {
      if p == 0 {
        return;
      }
      if counts.Ref(p) == 0 {
        trapped := true;
        return;
      }
      counts := counts.(borrows := counts.borrows[p := counts.Ref(p) - 1]);
    }
  }

  /** The bag of pointers that `f` reads from a bag of entries. */
  ghost function Image<T>(e: multiset<T>, f: T -> nat): multiset<nat>
    decreases |e|
  {
    if e == multiset{} then multiset{}
    else
      var x :| x in e;
      multiset{f(x)} + Image(e - multiset{x}, f)
  }

  lemma Rotate<T>(a: multiset<T>, b: multiset<T>, c: multiset<T>)
    ensures a + (b + c) == (b + a) + c
  {
  }

  lemma ImagePick<T>(e: multiset<T>, f: T -> nat) returns (y: T)
    requires e != multiset{}
    ensures y in e && Image(e, f) == multiset{f(y)} + Image(e - multiset{y}, f)
  {
    y :| y in e && Image(e, f) == multiset{f(y)} + Image(e - multiset{y}, f);
  }

  lemma TakeOther<T>(e: multiset<T>, x: T, y: T)
    requires y in e + multiset{x}
    ensures y == x ==> e + multiset{x} - multiset{y} == e
    ensures y != x ==> y in e && e + multiset{x} - multiset{y} == (e - multiset{y}) + multiset{x}
    ensures y != x ==> (e - multiset{y}) + multiset{y} == e
  {
  }

  /** Adding a member to a bag adds its pointer to the image. */
  lemma {:induction false} ImageAdd<T>(e: multiset<T>, f: T -> nat, x: T)
    ensures Image(e + multiset{x}, f) == Image(e, f) + multiset{f(x)}
    decreases |e|
  {
    var m := e + multiset{x};
    assert x in m;
    var y := ImagePick(m, f);
    TakeOther(e, x, y);
    if y != x {
      var rest := e - multiset{y};
      ImageAdd(rest, f, x);
      ImageAdd(rest, f, y);
      Rotate(multiset{f(y)}, Image(rest, f), multiset{f(x)});
    }
  }

  /** One hold for each element of a list. */
  ghost function Holds<T>(l: seq<T>, f: T -> nat): multiset<nat> {
    if l == [] then multiset{} else Holds(l[..|l| - 1], f) + multiset{f(l[|l| - 1])}
  }

  lemma HoldsAdd<T>(l: seq<T>, f: T -> nat, x: T)
    ensures Holds(l + [x], f) == Holds(l, f) + multiset{f(x)}
  {
    assert (l + [x])[..|l|] == l;
  }
}
