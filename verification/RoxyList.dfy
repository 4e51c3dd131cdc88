/** The runtime's growable list, whose `ref` elements count as borrows. */
module RoxyList {
  import opened Prelude
  import opened Counting

  /** Capacities are 32 bits wide and double; from here on doubling wraps to less than the list holds. */
  const LARGEST := 0x8000_0000

  /** The capacity after a push. */
  function Room(o: Outcome, length: nat, capacity: nat): nat {
    if o.Done? && length == capacity then (if capacity == 0 then 8 else 2 * capacity) else capacity
  }

  class RoxyList<T> {
    const zero: T
    const heap: Heap
    var length: nat
    var capacity: nat
    var borrowCount: nat
    var elementIsRef: bool
    var elements: array<T>

    ghost predicate Valid()
      reads this
    {
      elements.Length == capacity && length <= capacity < 2 * LARGEST
    }

    ghost function Contents(): (s: seq<T>)
      requires Valid()
      reads this, elements
      ensures |s| == length
    {
      elements[..length]
    }

    /** The borrows the list's elements account for. */
    ghost function Held(ptr: T -> nat): multiset<nat>
      requires Valid()
      reads this, elements
    {
      if elementIsRef then Holds(Contents(), ptr) else multiset{}
    }

    constructor (zero: T, heap: Heap, capacity: nat)
      requires capacity < 2 * LARGEST
      ensures Valid() && Contents() == [] && this.capacity == capacity && this.heap == heap && this.zero == zero
      ensures borrowCount == 0 && !elementIsRef && fresh(elements)
    {
      this.zero, this.heap := zero, heap;
      length, this.capacity, borrowCount, elementIsRef := 0, capacity, 0, false;
      elements := new T[capacity](_ => zero);
    }

    /**
     Appends, unless an element is borrowed; a full buffer is replaced by one twice
     as large. When twice as large wraps, the new buffer could not hold the
     elements, and the model stops there.
     */
    method Push(v: T) returns (o: Outcome)
      requires Valid()
      modifies this, elements
      ensures Valid()
      ensures o.Refused? <==> old(borrowCount) != 0
      ensures o.Trap? <==> old(borrowCount) == 0 && old(length) == old(capacity) >= LARGEST
      ensures Contents() == if o.Done? then old(Contents()) + [v] else old(Contents())
      ensures capacity == Room(o, old(length), old(capacity))
      ensures o.Done? && old(length) == old(capacity) ==> capacity == if old(capacity) == 0 then 8 else 2 * old(capacity)
      ensures !o.Done? || old(length) < old(capacity) ==> capacity == old(capacity)
      ensures if old(length) < old(capacity) then elements == old(elements) else elements == old(elements) || fresh(elements)
      ensures borrowCount == old(borrowCount) && elementIsRef == old(elementIsRef)
    {
      if borrowCount != 0 {
        return Refused;
      }
      if length >= capacity {
        var newCapacity := if capacity == 0 then 8 else capacity * 2 % 0x1_0000_0000;
        if newCapacity <= length {
          return Trap;
        }
        var more := new T[newCapacity](_ => zero);
        CopyElements(elements, more, length);
        elements := more;
        capacity := newCapacity;
      }
      elements[length] := v;
      length := length + 1;
      o := Done;
    }

    static method CopyElements(src: array<T>, dst: array<T>, n: nat)
      requires n <= src.Length && n <= dst.Length && src != dst
      modifies dst
      ensures dst[..n] == src[..n]
    {
      var i := 0;
      while i < n
        invariant i <= n && dst[..i] == src[..i]
      {
        dst[i] := src[i];
        i := i + 1;
      }
    }

    /** Takes the last element off, unless an element is borrowed. */
    method Pop() returns (r: Option<T>)
      requires Valid() && (borrowCount == 0 ==> length > 0)
      modifies this
      ensures Valid() && elements == old(elements) && borrowCount == old(borrowCount)
      ensures old(borrowCount) != 0 ==> r == None && Contents() == old(Contents())
      ensures old(borrowCount) == 0 ==> length == old(length) - 1
      ensures old(borrowCount) == 0 ==> r == Some(old(Contents())[length]) && Contents() == old(Contents())[..length]
    {
      if borrowCount != 0 {
        return None;
      }
      length := length - 1;
      r := Some(elements[length]);
    }

    method Pin()
      requires Valid()
      modifies this
      ensures Valid() && Contents() == old(Contents()) && borrowCount == old(borrowCount) + 1
    {
      borrowCount := borrowCount + 1;
    }

    /** A copy with its own buffer; each `ref` element it holds is one more borrow. */
    method Copy(ptr: T -> nat, ghost ss: multiset<nat>, ghost rs: multiset<nat>) returns (dst: RoxyList<T>)
      requires Valid() && Covers(heap.counts, ss, rs)
      modifies heap
      ensures fresh(dst) && dst.Valid() && fresh(dst.elements)
      ensures dst.Contents() == Contents() && dst.elementIsRef == elementIsRef && dst.borrowCount == 0 && dst.heap == heap && dst.capacity == capacity
      ensures Balanced(old(heap.counts), ss, rs, heap.counts, ss, rs + dst.Held(ptr))
      ensures Covers(heap.counts, ss, rs + dst.Held(ptr)) && heap.trapped == old(heap.trapped)
    {
      hide Balanced, Covers, Holds;
      dst := new RoxyList(zero, heap, capacity);
      dst.elementIsRef := elementIsRef;
      StillBalanced(heap.counts, ss, rs);
      assert rs + multiset{} == rs;
      if capacity > 0 {
        CopyElements(elements, dst.elements, length);
        dst.length := length;
        if elementIsRef {
          dst.Borrow(ptr, ss, rs);
        }
      } else {
        NoHolds(ptr);
      }
    }

    /** Counts a borrow for every element. */
    method Borrow(ptr: T -> nat, ghost ss: multiset<nat>, ghost rs: multiset<nat>)
      requires Valid() && Covers(heap.counts, ss, rs)
      modifies heap
      ensures Balanced(old(heap.counts), ss, rs, heap.counts, ss, rs + Holds(Contents(), ptr))
      ensures Covers(heap.counts, ss, rs + Holds(Contents(), ptr)) && heap.trapped == old(heap.trapped)
    {
      hide Balanced, Covers, Holds;
      ghost var c0, s := heap.counts, Contents();
      NoHolds(ptr);
      StillBalanced(c0, ss, rs);
      assert rs + multiset{} == rs && s[..0] == [];
      var i := 0;
      while i < length
        invariant i <= length && Contents() == s
        invariant Balanced(c0, ss, rs, heap.counts, ss, rs + Holds(s[..i], ptr))
        invariant Covers(heap.counts, ss, rs + Holds(s[..i], ptr)) && heap.trapped == old(heap.trapped)
      {
        ghost var c, b, p := heap.counts, Holds(s[..i], ptr), ptr(s[i]);
        HoldsAdd(s[..i], ptr, s[i]);
        assert s[..i + 1] == s[..i] + [s[i]];
        assert (rs + b) + multiset{p} == rs + Holds(s[..i + 1], ptr);
        RefIncMoves(c, ss, rs + b, p);
        heap.RefInc(ptr(elements[i]));
        BalancedTrans(c0, ss, rs, c, ss, rs + b, heap.counts, ss, rs + Holds(s[..i + 1], ptr));
        i := i + 1;
      }
      assert s[..i] == s;
    }
  }

  lemma NoHolds<T>(ptr: T -> nat)
    ensures Holds([], ptr) == multiset{}
  {
  }
}
