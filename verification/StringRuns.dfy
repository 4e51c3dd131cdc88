/**
 Any number of strings over one allocator, edited, copied, moved, assigned to one
 another and destroyed in any order: the texts are those of plain sequences, and
 every live block belongs to exactly one string.
 */
module StringRuns {
  import opened SmallString

  datatype StringOp =
    | Make(text: seq<char>)
    | Change(i: nat, e: Edit)
    | CopyOf(i: nat)
    | MoveOf(i: nat)
    | AssignCopy(i: nat, j: nat)
    | AssignMove(i: nat, j: nat)
    | Destroy(i: nat)

  /** The strings named are there, and sizes stay below 32 bits. */
  predicate Legal(texts: seq<seq<char>>, op: StringOp) {
    match op
    case Make(t) => |t| < LIMIT
    case Change(i, e) => i < |texts| && Allowed(texts[i], e)
    case CopyOf(i) => i < |texts|
    case MoveOf(i) => i < |texts|
    case AssignCopy(i, j) => i < |texts| && j < |texts|
    case AssignMove(i, j) => i < |texts| && j < |texts|
    case Destroy(i) => i < |texts|
  }

  /** What an operation makes of the texts; one that is not legal is skipped. */
  function After(texts: seq<seq<char>>, op: StringOp): seq<seq<char>> {
    if !Legal(texts, op) then texts
    else match op
      case Make(t) => texts + [t]
      case Change(i, e) => texts[i := Edited(texts[i], e)]
      case CopyOf(i) => texts + [texts[i]]
      case MoveOf(i) => texts[i := []] + [texts[i]]
      case AssignCopy(i, j) => texts[i := texts[j]]
      case AssignMove(i, j) => if i == j then texts else texts[i := texts[j]][j := []]
      case Destroy(i) => texts[..i] + texts[i + 1..]
  }

  function AfterAll(texts: seq<seq<char>>, ops: seq<StringOp>): seq<seq<char>> {
    if ops == [] then texts else After(AfterAll(texts, ops[..|ops| - 1]), ops[|ops| - 1])
  }

  lemma AfterNone(texts: seq<seq<char>>)
    ensures AfterAll(texts, []) == texts
  {
  }

  lemma AfterNext(texts: seq<seq<char>>, ops: seq<StringOp>, i: nat)
    requires i < |ops|
    ensures AfterAll(texts, ops[..i + 1]) == After(AfterAll(texts, ops[..i]), ops[i])
  {
    assert ops[..i + 1][..i] == ops[..i];
  }

  type Blocks = set<array<char>>

  ghost function Union(owned: seq<Blocks>): Blocks {
    set k, a | 0 <= k < |owned| && a in owned[k] :: a
  }

  ghost predicate Apart(owned: seq<Blocks>) {
    forall i, j :: 0 <= i < j < |owned| ==> owned[i] !! owned[j]
  }

  lemma UnionChanged(owned: seq<Blocks>, i: nat, new_: Blocks)
    requires i < |owned| && Apart(owned)
    ensures Union(owned[i := new_]) == Union(owned) - owned[i] + new_
  {
    var u, u' := Union(owned), Union(owned[i := new_]);
    forall a
      ensures a in u' <==> a in u - owned[i] + new_
    {
      if a in new_ {
        assert a in owned[i := new_][i];
      }
      if k :| 0 <= k < |owned| && a in owned[k] && a !in owned[i] {
        assert a in owned[i := new_][k];
      }
    }
  }

  /** One string takes over another's blocks, and its own are gone. */
  lemma UnionSwapped(owned: seq<Blocks>, i: nat, j: nat)
    requires i < |owned| && j < |owned| && i != j && Apart(owned)
    ensures Union(owned[i := owned[j]][j := {}]) == Union(owned) - owned[i] && Apart(owned[i := owned[j]][j := {}])
  {
    var without := owned[j := {}];
    assert owned[i] !! owned[j];
    UnionChanged(owned, j, {});
    UnionChanged(without, i, owned[j]);
    UnionHolds(owned, j);
    assert owned[i := owned[j]][j := {}] == without[i := owned[j]];
  }

  lemma UnionHolds(owned: seq<Blocks>, i: nat)
    requires i < |owned|
    ensures owned[i] <= Union(owned)
  {
  }

  lemma UnionApart(owned: seq<Blocks>, blocks: Blocks)
    requires forall k :: 0 <= k < |owned| ==> owned[k] !! blocks
    ensures Union(owned) !! blocks
  {
  }

  lemma UnionAdded(owned: seq<Blocks>, more: Blocks)
    ensures Union(owned + [more]) == Union(owned) + more
  {
    forall a
      ensures a in Union(owned + [more]) <==> a in Union(owned) + more
    {
      if a in more {
        assert a in (owned + [more])[|owned|];
      }
      if k :| 0 <= k < |owned| && a in owned[k] {
        assert a in (owned + [more])[k];
      }
    }
  }

  lemma UnionRemoved(owned: seq<Blocks>, i: nat)
    requires i < |owned| && Apart(owned)
    ensures Union(owned[..i] + owned[i + 1..]) == Union(owned) - owned[i] && Apart(owned[..i] + owned[i + 1..])
  {
    var rest := owned[..i] + owned[i + 1..];
    forall a
      ensures a in Union(rest) <==> a in Union(owned) - owned[i]
    {
      if k :| 0 <= k < |rest| && a in rest[k] {
        var k0 := if k < i then k else k + 1;
        assert a in owned[k0] && owned[k0] !! owned[i];
      }
      if k :| 0 <= k < |owned| && a in owned[k] && a !in owned[i] {
        assert a in rest[if k < i then k else k - 1];
      }
    }
    forall j, k | 0 <= j < k < |rest|
      ensures rest[j] !! rest[k]
    {
      assert owned[if j < i then j else j + 1] !! owned[if k < i then k else k + 1];
    }
  }

  // ----- One string, as the pool sees it -----

  ghost function OwnedBy(s: TaggedString): Blocks
    reads s
  {
    s.Owned()
  }

  ghost predicate Good(s: TaggedString)
    reads s, OwnedBy(s)
  {
    s.Shaped()
  }

  ghost function TextOf(s: TaggedString): seq<char>
    requires Good(s)
    reads s, OwnedBy(s)
  {
    s.Contents()
  }

  lemma Parts(s: TaggedString)
    ensures OwnedBy(s) == s.Owned() && (Good(s) <==> s.Shaped()) && (Good(s) ==> TextOf(s) == s.Contents())
    ensures Good(s) && OwnedBy(s) <= s.mem.live ==> s.Valid()
  {
  }

  class Pool {
    const mem: Memory
    var strs: seq<TaggedString>
    ghost var texts: seq<seq<char>>
    ghost var owned: seq<Blocks>
    /** Live blocks that belong to nobody here. */
    ghost var others: Blocks
    ghost var feet: set<object>

    /** The strings are separate objects with the texts and blocks recorded for them, and no block is shared. */
    ghost predicate Sound()
      reads this, feet
    {
      && |strs| == |texts| == |owned| && this !in feet && mem !in feet
      && (forall i :: 0 <= i < |strs| ==> strs[i] in feet && strs[i].mem == mem)
      && (forall i :: 0 <= i < |strs| ==> OwnedBy(strs[i]) == owned[i] && owned[i] <= feet && owned[i] !! others)
      && (forall i :: 0 <= i < |strs| ==> Good(strs[i]) && TextOf(strs[i]) == texts[i])
      && (forall i, j :: 0 <= i < j < |strs| ==> strs[i] != strs[j])
      && Apart(owned)
    }

    /** Every live block is somebody else's or exactly one string's. */
    ghost predicate Valid()
      reads this, feet, mem
    {
      Sound() && mem.live == others + Union(owned)
    }

    constructor (mem: Memory)
      ensures Valid() && this.mem == mem && strs == [] && texts == [] && others == mem.live
    {
      this.mem := mem;
      strs, texts, owned, others, feet := [], [], [], mem.live, {};
    }

    /** The `i`-th string can be worked on. */
    lemma Ready(i: nat)
      requires Valid() && i < |strs|
      ensures strs[i].Valid() && strs[i].Contents() == texts[i] && strs[i].Owned() == owned[i] && strs[i].mem == mem
    {
      Parts(strs[i]);
      assert owned[i] <= Union(owned);
    }

    /** Takes up one string's new text and blocks, the others being as they were. */
    ghost method Changed(i: nat, text: seq<char>, blocks: Blocks)
      requires |strs| == |texts| == |owned| && i < |strs| && this !in feet && mem !in feet
      requires forall j :: 0 <= j < |strs| ==> strs[j] in feet && strs[j].mem == mem
      requires forall j :: 0 <= j < |strs| && j != i ==>
                 OwnedBy(strs[j]) == owned[j] && owned[j] <= feet && owned[j] !! others && Good(strs[j]) && TextOf(strs[j]) == texts[j]
      requires forall j, k :: 0 <= j < k < |strs| ==> strs[j] != strs[k]
      requires Apart(owned) && forall j :: 0 <= j < |strs| && j != i ==> owned[j] !! blocks
      requires Good(strs[i]) && TextOf(strs[i]) == text && OwnedBy(strs[i]) == blocks && blocks !! others
      requires mem.live == others + (Union(owned) - owned[i] + blocks)
      modifies `texts, `owned, `feet
      ensures Valid() && texts == old(texts)[i := text] && owned == old(owned)[i := blocks] && feet == old(feet) + blocks
    {
      hide Union, OwnedBy, Good, TextOf;
      UnionChanged(owned, i, blocks);
      texts := texts[i := text];
      owned := owned[i := blocks];
      feet := feet + blocks;
    }

    method Edit(i: nat, e: Edit)
      requires Valid() && i < |strs| && Allowed(texts[i], e)
      modifies this, mem, feet
      ensures Valid() && texts == old(texts)[i := Edited(old(texts)[i], e)] && others == old(others)
      ensures fresh(feet - old(feet)) && strs == old(strs)
    {
      hide Union, OwnedBy, Good, TextOf, Edited, Allowed;
      var s := strs[i];
      Ready(i);
      Apply(s, e);
      Parts(s);
      forall j | 0 <= j < |strs| && j != i
        ensures OwnedBy(strs[j]) == owned[j] && Good(strs[j]) && TextOf(strs[j]) == texts[j] && owned[j] !! OwnedBy(s)
      {
        assert strs[j] != s && owned[j] !! owned[i];
        assert unchanged(strs[j]);
      }
      Changed(i, s.Contents(), s.Owned());
    }

    /** Takes in a new string. */
    method Added(s: TaggedString, ghost text: seq<char>, ghost blocks: Blocks)
      requires Sound() && s !in feet && s as object != this && s.mem == mem && s !in strs
      requires Good(s) && TextOf(s) == text && OwnedBy(s) == blocks && blocks !! others
      requires forall j :: 0 <= j < |strs| ==> owned[j] !! blocks
      requires mem.live == others + Union(owned) + blocks
      modifies this
      ensures Valid() && strs == old(strs) + [s] && texts == old(texts) + [text] && owned == old(owned) + [blocks]
      ensures others == old(others) && feet == old(feet) + {s} + blocks
    {
      hide Union, OwnedBy, Good, TextOf;
      UnionAdded(owned, blocks);
      strs := strs + [s];
      texts := texts + [text];
      owned := owned + [blocks];
      feet := feet + {s} + blocks;
    }

    method Make(text: seq<char>)
      requires Valid() && |text| < LIMIT
      modifies this, mem
      ensures Valid() && texts == old(texts) + [text] && others == old(others)
      ensures fresh(feet - old(feet))
    {
      hide Union, OwnedBy, Good, TextOf;
      var s := new TaggedString(mem, text);
      Parts(s);
      Added(s, text, s.Owned());
    }

    method CopyOf(i: nat)
      requires Valid() && i < |strs|
      modifies this, mem
      ensures Valid() && texts == old(texts) + [old(texts)[i]] && others == old(others)
      ensures fresh(feet - old(feet))
    {
      hide Union, OwnedBy, Good, TextOf;
      Ready(i);
      var s := new TaggedString.Copy(strs[i]);
      Parts(s);
      Added(s, texts[i], s.Owned());
    }

    /** A string moved out of the `i`-th, whose blocks are for the moment nobody's here. */
    method MoveOut(i: nat) returns (s: TaggedString)
      requires Valid() && i < |strs|
      modifies strs[i], this
      ensures Valid() && texts == old(texts)[i := []] && others == old(others) + old(owned)[i] && strs == old(strs)
      ensures owned == old(owned)[i := {}] && feet == old(feet)
      ensures fresh(s) && s.mem == mem && Good(s) && TextOf(s) == old(texts)[i] && OwnedBy(s) == old(owned)[i]
    {
      hide Union, OwnedBy, Good, TextOf;
      Ready(i);
      ghost var blocks := owned[i];
      s := new TaggedString.Move(strs[i]);
      Parts(s);
      Parts(strs[i]);
      forall j | 0 <= j < |strs| && j != i
        ensures OwnedBy(strs[j]) == owned[j] && Good(strs[j]) && TextOf(strs[j]) == texts[j] && owned[j] !! blocks
      {
        assert strs[j] != strs[i] && owned[j] !! owned[i];
        assert unchanged(strs[j]);
      }
      UnionHolds(owned, i);
      others := others + blocks;
      Changed(i, [], {});
    }

    /** The new string takes the blocks over. */
    method MoveOf(i: nat)
      requires Valid() && i < |strs|
      modifies this, feet
      ensures Valid() && texts == old(texts)[i := []] + [old(texts)[i]] && others == old(others)
      ensures fresh(feet - old(feet))
    {
      hide Union, OwnedBy, Good, TextOf;
      ghost var text, blocks := texts[i], owned[i];
      var s := MoveOut(i);
      UnionApart(owned, blocks);
      others := others - blocks;
      Added(s, text, blocks);
    }

    method AssignCopy(i: nat, j: nat)
      requires Valid() && i < |strs| && j < |strs|
      modifies this, mem, feet
      ensures Valid() && texts == old(texts)[i := old(texts)[j]] && others == old(others)
      ensures fresh(feet - old(feet))
    {
      hide Union, OwnedBy, Good, TextOf;
      var s := strs[i];
      Ready(i);
      Ready(j);
      assert i != j ==> owned[i] !! owned[j];
      s.AssignCopy(strs[j]);
      Parts(s);
      forall k | 0 <= k < |strs| && k != i
        ensures OwnedBy(strs[k]) == owned[k] && Good(strs[k]) && TextOf(strs[k]) == texts[k] && owned[k] !! owned[i]
      {
        assert strs[k] != s && owned[k] !! owned[i];
        assert unchanged(strs[k]);
      }
      assert s.Owned() == owned[i] || fresh(s.Owned());
      Changed(i, texts[j], s.Owned());
    }

    method Destroy(i: nat)
      requires Valid() && i < |strs|
      modifies this, mem
      ensures Valid() && texts == old(texts)[..i] + old(texts)[i + 1..] && others == old(others)
      ensures feet == old(feet)
    {
      hide Union, OwnedBy, Good, TextOf, Apart;
      Ready(i);
      UnionHolds(owned, i);
      strs[i].FreeHeap();
      Dropped(i);
    }

    /** Takes a string out whose blocks have been given back. */
    method Dropped(i: nat)
      requires Sound() && i < |strs| && mem.live == others + (Union(owned) - owned[i])
      modifies this
      ensures Valid() && texts == old(texts)[..i] + old(texts)[i + 1..] && others == old(others)
      ensures feet == old(feet)
    {
      hide Union, OwnedBy, Good, TextOf, Apart;
      UnionRemoved(owned, i);
      strs := strs[..i] + strs[i + 1..];
      texts := texts[..i] + texts[i + 1..];
      owned := owned[..i] + owned[i + 1..];
    }

    method AssignMove(i: nat, j: nat)
      requires Valid() && i < |strs| && j < |strs|
      modifies this, mem, feet
      ensures Valid() && others == old(others)
      ensures texts == if i == j then old(texts) else old(texts)[i := old(texts)[j]][j := []]
      ensures feet == old(feet)
    {
      if i == j {
        MoveOntoSelf(i);
      } else {
        MoveAcross(i, j);
      }
    }

    method MoveOntoSelf(i: nat)
      requires Valid() && i < |strs|
      modifies this, mem, feet
      ensures Valid() && others == old(others) && texts == old(texts) && feet == old(feet)
    {
      hide Union, OwnedBy, Good, TextOf;
      Ready(i);
      UnionHolds(owned, i);
      strs[i].AssignMove(strs[i]);
      Parts(strs[i]);
      forall k | 0 <= k < |strs| && k != i
        ensures OwnedBy(strs[k]) == owned[k] && Good(strs[k]) && TextOf(strs[k]) == texts[k] && owned[k] !! owned[i]
      {
        assert strs[k] != strs[i] && owned[k] !! owned[i];
        assert unchanged(strs[k]);
      }
      assert texts[i := texts[i]] == texts;
      Changed(i, texts[i], owned[i]);
    }

    method MoveAcross(i: nat, j: nat)
      requires Valid() && i < |strs| && j < |strs| && i != j
      modifies this, mem, feet
      ensures Valid() && others == old(others) && feet == old(feet)
      ensures texts == old(texts)[i := old(texts)[j]][j := []]
    {
      hide Union, OwnedBy, Good, TextOf;
      Ready(i);
      Ready(j);
      assert owned[i] !! owned[j] && strs[i] != strs[j];
      strs[i].AssignMove(strs[j]);
      Parts(strs[i]);
      Parts(strs[j]);
      forall k | 0 <= k < |strs| && k != i && k != j
        ensures OwnedBy(strs[k]) == owned[k] && Good(strs[k]) && TextOf(strs[k]) == texts[k]
        ensures owned[k] !! owned[i] && owned[k] !! owned[j]
      {
        assert strs[k] != strs[i] && strs[k] != strs[j];
        assert unchanged(strs[k]);
      }
      UnionHolds(owned, i);
      Swapped(i, j);
    }

    /** Takes up that one string has another's text and blocks, which is empty now. */
    ghost method Swapped(i: nat, j: nat)
      requires |strs| == |texts| == |owned| && i < |strs| && j < |strs| && i != j && this !in feet && mem !in feet
      requires forall k :: 0 <= k < |strs| ==> strs[k] in feet && strs[k].mem == mem && owned[k] <= feet && owned[k] !! others
      requires forall k :: 0 <= k < |strs| && k != i && k != j ==>
                 OwnedBy(strs[k]) == owned[k] && Good(strs[k]) && TextOf(strs[k]) == texts[k]
      requires forall k, l :: 0 <= k < l < |strs| ==> strs[k] != strs[l]
      requires Apart(owned) && mem.live == others + (Union(owned) - owned[i])
      requires Good(strs[i]) && TextOf(strs[i]) == texts[j] && OwnedBy(strs[i]) == owned[j]
      requires Good(strs[j]) && TextOf(strs[j]) == [] && OwnedBy(strs[j]) == {}
      modifies `texts, `owned
      ensures Valid() && texts == old(texts)[i := old(texts)[j]][j := []] && owned == old(owned)[i := old(owned)[j]][j := {}]
    {
      hide Union, OwnedBy, Good, TextOf, Apart;
      UnionSwapped(owned, i, j);
      texts := texts[i := texts[j]][j := []];
      owned := owned[i := owned[j]][j := {}];
    }

    lemma SameCount()
      requires Sound()
      ensures |strs| == |texts|
    {
    }

    /** The string is there and its size stays below 32 bits. */
    method MayChange(i: nat, e: Edit) returns (b: bool)
      requires Valid()
      ensures b <==> Legal(texts, Change(i, e))
    {
      if i >= |strs| {
        return false;
      }
      Ready(i);
      var n := strs[i].Size();
      match e
      case PushBack(_) => b := n + 1 < LIMIT;
      case Append(t) => b := n + |t| < LIMIT;
      case Resize(size, _) => b := size < LIMIT;
      case Reserve(cap) => b := cap < LIMIT;
      case Clear => b := true;
      case Assign(t) => b := |t| < LIMIT;
    }

    /** One operation; one that is not legal is skipped. */
    method Do(op: StringOp)
      requires Valid()
      modifies this, mem, feet
      ensures Valid() && texts == After(old(texts), op) && others == old(others) && fresh(feet - old(feet))
    {
      hide Sound, Union, Edited, Allowed;
      SameCount();
      match op
      case Make(t) =>
        if |t| < LIMIT {
          Make(t);
        }
      case Change(i, e) =>
        var legal := MayChange(i, e);
        if legal {
          Edit(i, e);
        }
      case CopyOf(i) =>
        if i < |strs| {
          CopyOf(i);
        }
      case MoveOf(i) =>
        if i < |strs| {
          MoveOf(i);
        }
      case AssignCopy(i, j) =>
        if i < |strs| && j < |strs| {
          AssignCopy(i, j);
        }
      case AssignMove(i, j) =>
        if i < |strs| && j < |strs| {
          AssignMove(i, j);
        }
      case Destroy(i) =>
        if i < |strs| {
          Destroy(i);
        }
    }

    /** Any sequence of operations, on any number of strings. */
    method Run(ops: seq<StringOp>)
      requires Valid()
      modifies this, mem, feet
      ensures Valid() && texts == AfterAll(old(texts), ops) && others == old(others)
    {
      hide Sound, Union, After, AfterAll;
      ghost var start := texts;
      AfterNone(start);
      var n := 0;
      while n < |ops|
        invariant n <= |ops| && Valid() && texts == AfterAll(start, ops[..n]) && others == old(others)
        invariant fresh(feet - old(feet))
      {
        AfterNext(start, ops, n);
        Do(ops[n]);
        n := n + 1;
      }
      assert ops[..n] == ops;
    }
  }
}
