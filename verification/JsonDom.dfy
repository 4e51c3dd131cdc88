/**
 The tree builder: parse events pushed onto three stacks. Strings stay views
 into the source buffer.
 */
module JsonDom {
  import opened Prelude
  import opened JsonText

  datatype View = View(start: nat, len: nat)

  datatype Node =
    | NNull
    | NBool(b: bool)
    | NInt(i: int)
    | NDouble(text: Bytes)
    | NString(view: View)
    | NArray(elems: seq<Node>)
    | NObject(members: seq<NodeMember>)

  datatype NodeMember = NodeMember(key: View, value: Node)

  /** The view ends at or before `hi`. */
  predicate ViewInside(v: View, hi: nat) {
    v.start + v.len <= hi
  }

  ghost predicate Inside(n: Node, hi: nat)
    decreases n
  {
    match n
    case NString(v) => ViewInside(v, hi)
    case NArray(elems) => forall e | e in elems :: Inside(e, hi)
    case NObject(members) => forall m | m in members :: ViewInside(m.key, hi) && Inside(m.value, hi)
    case _ => true
  }

  ghost predicate AllInside(ns: seq<Node>, hi: nat) {
    forall n | n in ns :: Inside(n, hi)
  }

  ghost function Slice(v: View, buf: Bytes): Bytes
    requires ViewInside(v, |buf|)
  {
    buf[v.start..v.start + v.len]
  }

  /** The tree a node stands for over the bytes its views look at. */
  ghost function Resolve(n: Node, buf: Bytes): Json
    requires Inside(n, |buf|)
    decreases n, 1
  {
    match n
    case NNull => Null
    case NBool(b) => Bool(b)
    case NInt(i) => Int(i)
    case NDouble(t) => Double(t)
    case NString(v) => String(Slice(v, buf))
    case NArray(elems) => Array(ResolveAll(elems, buf))
    case NObject(members) => Object(ResolveMembers(members, buf))
  }

  ghost function ResolveAll(ns: seq<Node>, buf: Bytes): (r: seq<Json>)
    requires AllInside(ns, |buf|)
    ensures |r| == |ns|
    decreases ns, 0
  {
    if ns == [] then [] else ResolveAll(ns[..|ns| - 1], buf) + [Resolve(ns[|ns| - 1], buf)]
  }

  ghost function ResolveMember(m: NodeMember, buf: Bytes): Member
    requires ViewInside(m.key, |buf|) && Inside(m.value, |buf|)
    decreases m, 2
  {
    Member(Slice(m.key, buf), Resolve(m.value, buf))
  }

  ghost function ResolveMembers(ms: seq<NodeMember>, buf: Bytes): (r: seq<Member>)
    requires forall m | m in ms :: ViewInside(m.key, |buf|) && Inside(m.value, |buf|)
    ensures |r| == |ms|
    decreases ms, 0
  {
    if ms == [] then []
    else
      ResolveMembers(ms[..|ms| - 1], buf) + [ResolveMember(ms[|ms| - 1], buf)]
  }

  /** What each node stands for, element by element and member by member. */
  lemma NodesMean(ns: seq<Node>, ms: seq<NodeMember>, b: bool, i: int, t: Bytes, v: View, buf: Bytes)
    requires Inside(NArray(ns), |buf|) && Inside(NObject(ms), |buf|) && ViewInside(v, |buf|)
    ensures Resolve(NNull, buf) == Null && Resolve(NBool(b), buf) == Bool(b) && Resolve(NInt(i), buf) == Int(i)
    ensures Resolve(NDouble(t), buf) == Double(t) && Resolve(NString(v), buf) == String(buf[v.start..v.start + v.len])
    ensures Resolve(NArray(ns), buf).Array? && |Resolve(NArray(ns), buf).elems| == |ns|
    ensures forall j :: 0 <= j < |ns| ==> Resolve(NArray(ns), buf).elems[j] == Resolve(ns[j], buf)
    ensures Resolve(NObject(ms), buf).Object? && |Resolve(NObject(ms), buf).members| == |ms|
    ensures forall j :: 0 <= j < |ms| ==>
              Resolve(NObject(ms), buf).members[j] == Member(buf[ms[j].key.start..ms[j].key.start + ms[j].key.len], Resolve(ms[j].value, buf))
  {
    ElementsMean(ns, buf);
    MembersMean(ms, buf);
  }

  lemma {:induction false} ElementsMean(ns: seq<Node>, buf: Bytes)
    requires AllInside(ns, |buf|)
    ensures forall j :: 0 <= j < |ns| ==> ResolveAll(ns, buf)[j] == Resolve(ns[j], buf)
    decreases |ns|
  {
    hide Resolve;
    if ns != [] {
      ElementsMean(ns[..|ns| - 1], buf);
    }
  }

  lemma {:induction false} MembersMean(ms: seq<NodeMember>, buf: Bytes)
    requires forall m | m in ms :: ViewInside(m.key, |buf|) && Inside(m.value, |buf|)
    ensures forall j :: 0 <= j < |ms| ==> ResolveMembers(ms, buf)[j] == ResolveMember(ms[j], buf)
    decreases |ms|
  {
    hide ResolveMember;
    if ms != [] {
      MembersMean(ms[..|ms| - 1], buf);
    }
  }

  lemma {:induction false} InsideMore(n: Node, lo: nat, hi: nat)
    requires Inside(n, lo) && lo <= hi
    ensures Inside(n, hi)
    decreases n
  {
    match n
    case NArray(elems) =>
      forall e | e in elems
        ensures Inside(e, hi)
      {
        InsideMore(e, lo, hi);
      }
    case NObject(members) =>
      forall m | m in members
        ensures ViewInside(m.key, hi) && Inside(m.value, hi)
      {
        InsideMore(m.value, lo, hi);
      }
    case _ =>
  }

  /** Bytes past the last view do not matter: writing there changes no node already returned. */
  lemma {:induction false} ResolveSame(n: Node, a: Bytes, b: Bytes, hi: nat)
    requires Inside(n, hi) && hi <= |a| && hi <= |b| && a[..hi] == b[..hi]
    ensures Inside(n, |a|) && Inside(n, |b|) && Resolve(n, a) == Resolve(n, b)
    decreases n, 1
  {
    InsideMore(n, hi, |a|);
    InsideMore(n, hi, |b|);
    match n
    case NString(v) => SliceSame(v, a, b, hi);
    case NArray(elems) => ResolveAllSame(elems, a, b, hi);
    case NObject(members) => ResolveMembersSame(members, a, b, hi);
    case _ =>
  }

  lemma SliceSame(v: View, a: Bytes, b: Bytes, hi: nat)
    requires ViewInside(v, hi) && hi <= |a| && hi <= |b| && a[..hi] == b[..hi]
    ensures Slice(v, a) == Slice(v, b)
  {
    assert Slice(v, a) == a[..hi][v.start..v.start + v.len];
    assert Slice(v, b) == b[..hi][v.start..v.start + v.len];
  }

  lemma {:induction false} ResolveAllSame(ns: seq<Node>, a: Bytes, b: Bytes, hi: nat)
    requires AllInside(ns, hi) && hi <= |a| && hi <= |b| && a[..hi] == b[..hi]
    ensures AllInside(ns, |a|) && AllInside(ns, |b|) && ResolveAll(ns, a) == ResolveAll(ns, b)
    decreases ns, 0
  {
    forall n | n in ns
      ensures Inside(n, |a|) && Inside(n, |b|)
    {
      InsideMore(n, hi, |a|);
      InsideMore(n, hi, |b|);
    }
    if ns != [] {
      assert forall n | n in ns[..|ns| - 1] :: n in ns;
      ResolveAllSame(ns[..|ns| - 1], a, b, hi);
      ResolveSame(ns[|ns| - 1], a, b, hi);
    }
  }

  lemma {:induction false} ResolveMemberSame(m: NodeMember, a: Bytes, b: Bytes, hi: nat)
    requires ViewInside(m.key, hi) && Inside(m.value, hi) && hi <= |a| && hi <= |b| && a[..hi] == b[..hi]
    ensures Inside(m.value, |a|) && Inside(m.value, |b|) && ResolveMember(m, a) == ResolveMember(m, b)
    decreases m, 2
  {
    ResolveSame(m.value, a, b, hi);
    SliceSame(m.key, a, b, hi);
  }

  lemma {:induction false} ResolveMembersSame(ms: seq<NodeMember>, a: Bytes, b: Bytes, hi: nat)
    requires forall m | m in ms :: ViewInside(m.key, hi) && Inside(m.value, hi)
    requires hi <= |a| && hi <= |b| && a[..hi] == b[..hi]
    ensures forall m | m in ms :: ViewInside(m.key, |a|) && Inside(m.value, |a|)
    ensures forall m | m in ms :: ViewInside(m.key, |b|) && Inside(m.value, |b|)
    ensures ResolveMembers(ms, a) == ResolveMembers(ms, b)
    decreases ms, 0
  {
    forall m | m in ms
      ensures Inside(m.value, |a|) && Inside(m.value, |b|)
    {
      InsideMore(m.value, hi, |a|);
      InsideMore(m.value, hi, |b|);
    }
    if ms != [] {
      assert forall x | x in ms[..|ms| - 1] :: x in ms;
      assert ms[|ms| - 1] in ms;
      ResolveMembersSame(ms[..|ms| - 1], a, b, hi);
      ResolveMemberSame(ms[|ms| - 1], a, b, hi);
    }
  }

  /** Nodes whose views end at or before `hi`, and the trees they stand for over a buffer. */
  ghost predicate Stand(ns: seq<Node>, js: seq<Json>, buf: Bytes, hi: nat) {
    hi <= |buf| && AllInside(ns, hi) && AllInside(ns, |buf|) && ResolveAll(ns, buf) == js
  }

  /** One finished node. */
  lemma StandOne(n: Node, buf: Bytes, hi: nat)
    requires Inside(n, hi) && hi <= |buf|
    ensures Inside(n, |buf|) && Stand([n], [Resolve(n, buf)], buf, hi)
  {
    InsideMore(n, hi, |buf|);
    assert [n][..0] == [];
    assert ResolveAll([], buf) == [];
  }

  lemma StandNone(buf: Bytes, hi: nat)
    requires hi <= |buf|
    ensures Stand([], [], buf, hi)
  {
  }

  /** Writing past the last view changes nothing. */
  lemma StandSame(ns: seq<Node>, js: seq<Json>, a: Bytes, b: Bytes, hi: nat, hi': nat)
    requires Stand(ns, js, a, hi) && hi <= hi' <= |b| && a[..hi] == b[..hi]
    ensures Stand(ns, js, b, hi')
  {
    ResolveAllSame(ns, a, b, hi);
    forall n | n in ns
      ensures Inside(n, hi')
    {
      InsideMore(n, hi, hi');
    }
  }

  lemma StandAdd(ns: seq<Node>, js: seq<Json>, n: Node, j: Json, buf: Bytes, hi: nat)
    requires Stand(ns, js, buf, hi) && Stand([n], [j], buf, hi)
    ensures Stand(ns + [n], js + [j], buf, hi)
  {
    assert n in [n] && [n][..0] == [];
    assert ResolveAll([n], buf)[0] == Resolve(n, buf);
    assert (ns + [n])[..|ns|] == ns;
  }

  /** A node read after the others, over a buffer that still holds what they look at. */
  lemma StandMore(ns: seq<Node>, js: seq<Json>, a: Bytes, lo: nat, n: Node, j: Json, b: Bytes, hi: nat)
    requires Stand(ns, js, a, lo) && Stand([n], [j], b, hi) && lo <= hi && a[..lo] == b[..lo]
    ensures Stand(ns + [n], js + [j], b, hi)
  {
    StandSame(ns, js, a, b, lo, hi);
    StandAdd(ns, js, n, j, b, hi);
  }

  /** The same for the members of an object. */
  ghost predicate StandMembers(ks: seq<View>, vs: seq<Node>, ms: seq<Member>, buf: Bytes, hi: nat) {
    && hi <= |buf| && |ks| == |vs|
    && (forall m | m in Zip(ks, vs) :: ViewInside(m.key, hi) && Inside(m.value, hi))
    && (forall m | m in Zip(ks, vs) :: ViewInside(m.key, |buf|) && Inside(m.value, |buf|))
    && ResolveMembers(Zip(ks, vs), buf) == ms
  }

  lemma StandMembersNone(buf: Bytes, hi: nat)
    requires hi <= |buf|
    ensures StandMembers([], [], [], buf, hi)
  {
  }

  lemma StandMembersSame(ks: seq<View>, vs: seq<Node>, ms: seq<Member>, a: Bytes, b: Bytes, hi: nat, hi': nat)
    requires StandMembers(ks, vs, ms, a, hi) && hi <= hi' <= |b| && a[..hi] == b[..hi]
    ensures StandMembers(ks, vs, ms, b, hi')
  {
    ResolveMembersSame(Zip(ks, vs), a, b, hi);
    forall m | m in Zip(ks, vs)
      ensures Inside(m.value, hi')
    {
      InsideMore(m.value, hi, hi');
    }
  }

  lemma StandMembersAdd(ks: seq<View>, vs: seq<Node>, ms: seq<Member>, k: View, key: Bytes, n: Node, j: Json, buf: Bytes, hi: nat)
    requires StandMembers(ks, vs, ms, buf, hi) && Stand([n], [j], buf, hi)
    requires ViewInside(k, hi) && Slice(k, buf) == key
    ensures StandMembers(ks + [k], vs + [n], ms + [Member(key, j)], buf, hi)
  {
    assert n in [n] && [n][..0] == [];
    assert ResolveAll([n], buf)[0] == Resolve(n, buf);
    var z, last := Zip(ks, vs), NodeMember(k, n);
    var z' := Zip(ks + [k], vs + [n]);
    assert z' == z + [last] && z'[..|z|] == z;
    assert forall m | m in z' :: m in z || m == last;
    assert ResolveMember(last, buf) == Member(key, j);
  }

  lemma StandMembersMore(ks: seq<View>, vs: seq<Node>, ms: seq<Member>, a: Bytes, lo: nat,
                         k: View, n: Node, m: Member, b: Bytes, hi: nat)
    requires StandMembers(ks, vs, ms, a, lo) && Stand([n], [m.value], b, hi) && lo <= hi && a[..lo] == b[..lo]
    requires ViewInside(k, hi) && Slice(k, b) == m.key
    ensures StandMembers(ks + [k], vs + [n], ms + [m], b, hi)
  {
    StandMembersSame(ks, vs, ms, a, b, lo, hi);
    StandMembersAdd(ks, vs, ms, k, m.key, n, m.value, b, hi);
  }

  /** Keys paired with values. */
  function Zip(ks: seq<View>, vs: seq<Node>): (ms: seq<NodeMember>)
    requires |ks| == |vs|
    ensures |ms| == |ks| && forall i :: 0 <= i < |ms| ==> ms[i] == NodeMember(ks[i], vs[i])
  {
    seq(|ks|, i requires 0 <= i < |ks| => NodeMember(ks[i], vs[i]))
  }

  /** The builder's stacks and the finished root. */
  class Dom {
    var values: seq<Node>
    var keys: seq<View>
    var nesting: seq<nat>
    var root: Option<Node>

    constructor ()
      ensures values == [] && keys == [] && nesting == [] && root == None
    {
      values, keys, nesting, root := [], [], [], None;
    }

    /** One finished value: the root at the outside, otherwise the top of the value stack. */
    twostate predicate Pushed(n: Node)
      reads this
    {
      && keys == old(keys) && nesting == old(nesting)
      && (if nesting == [] then values == old(values) && root == Some(n)
          else values == old(values) + [n] && root == old(root))
    }

    method PushValue(n: Node)
      modifies this
      ensures Pushed(n)
    {
      if nesting == [] {
        root := Some(n);
      } else {
        values := values + [n];
      }
    }

    method OnKey(k: View)
      modifies `keys
      ensures keys == old(keys) + [k]
    {
      keys := keys + [k];
    }

    method OnStart()
      modifies `nesting
      ensures nesting == old(nesting) + [|values|]
    {
      nesting := nesting + [|values|];
    }

    /** Folds the values above the container's base into an array. */
    method OnEndArray(count: nat)
      requires nesting != [] && nesting[|nesting| - 1] + count == |values|
      modifies this
      ensures var base := old(nesting)[|old(nesting)| - 1];
        && nesting == old(nesting)[..|old(nesting)| - 1] && keys == old(keys)
        && var n := NArray(old(values)[base..]);
           if nesting == [] then values == old(values)[..base] && root == Some(n)
           else values == old(values)[..base] + [n] && root == old(root)
    {
      var base := nesting[|nesting| - 1];
      nesting := nesting[..|nesting| - 1];
      var elems: seq<Node> := [];
      for i := 0 to count
        invariant elems == values[base..base + i]
      {
        elems := elems + [values[base + i]];
      }
      assert elems == old(values)[base..];
      values := values[..|values| - count];
      PushValue(NArray(elems));
    }

    /** Folds the keys and values above the container's base into an object. */
    method OnEndObject(count: nat)
      requires nesting != [] && nesting[|nesting| - 1] + count == |values| && count <= |keys|
      modifies this
      ensures var base := old(nesting)[|old(nesting)| - 1];
        && nesting == old(nesting)[..|old(nesting)| - 1] && keys == old(keys)[..|old(keys)| - count]
        && var n := NObject(Zip(old(keys)[|old(keys)| - count..], old(values)[base..]));
           if nesting == [] then values == old(values)[..base] && root == Some(n)
           else values == old(values)[..base] + [n] && root == old(root)
    {
      var base := nesting[|nesting| - 1];
      nesting := nesting[..|nesting| - 1];
      var members: seq<NodeMember> := [];
      var keyBase := |keys| - count;
      for i := 0 to count
        invariant members == Zip(keys[keyBase..keyBase + i], values[base..base + i])
      {
        members := members + [NodeMember(keys[keyBase + i], values[base + i])];
      }
      assert members == Zip(old(keys)[|old(keys)| - count..], old(values)[base..]);
      values := values[..|values| - count];
      keys := keys[..|keys| - count];
      PushValue(NObject(members));
    }
  }
}
