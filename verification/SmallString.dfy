/**
 A string kept inside its own 24 bytes while it is short and in allocated memory
 when it is not. The last byte tells the two layouts apart.
 */
module SmallString {
  import opened Prelude

  const SSO_CAP := 22
  const SSO_BIT := 0x80
  const NUL := '\0'
  /** Sizes are 32 bits wide, and one more byte than the capacity is allocated. */
  const LIMIT := 0xFFFF_FFFF
  const MODULUS := 0x1_0000_0000

  /** The allocator: which blocks have been handed out and not given back. */
  class Memory {
    ghost var live: set<array<char>>

    constructor ()
      ensures live == {}
    {
      live := {};
    }

    method Malloc(n: nat) returns (p: array<char>)
      modifies this
      ensures fresh(p) && p.Length == n && live == old(live) + {p}
    {
      p := new char[n];
      live := live + {p};
    }

    /** Only a live block may be given back. */
    method Free(p: array<char>)
      requires p in live
      modifies this
      ensures live == old(live) - {p}
    {
      live := live - {p};
    }
  }

  /** The union of the two layouts; `tag` is the same byte in both. */
  datatype Layout =
    | Inline(buf: seq<char>, tag: Byte)
    | Heap(ptr: array<char>, size: nat, capacity: nat, tag: Byte)

  function Max(a: nat, b: nat): nat {
    if a < b then b else a
  }

  /** What growing to hold `min` makes of a capacity: doubling wraps at 32 bits. */
  function Grown(capacity: nat, min: nat): nat {
    Max(32, Max(min, capacity * 2 % MODULUS))
  }

  lemma GrownIs(capacity: nat, min: nat)
    ensures capacity == 0 ==> Grown(capacity, min) == if min < 32 then 32 else min
    ensures capacity >= 32 && capacity < min ==>
              Grown(capacity, min) == var twice := capacity * 2 % 0x1_0000_0000; if twice < min then min else twice
  {
  }

  class TaggedString {
    const mem: Memory
    var rep: Layout

    ghost function Owned(): set<array<char>>
      reads this
    {
      if rep.Heap? then {rep.ptr} else {}
    }

    /** The tag names the layout, the text fits, and a NUL follows it. */
    ghost predicate Shaped()
      reads this, Owned()
    {
      && (rep.Inline? ==>
            && |rep.buf| == SSO_CAP + 1 && SSO_BIT <= rep.tag <= SSO_BIT + SSO_CAP
            && rep.buf[SSO_CAP - (rep.tag - SSO_BIT)] == NUL)
      && (rep.Heap? ==>
            && rep.tag == 0 && rep.size <= rep.capacity < LIMIT && 32 <= rep.capacity
            && rep.ptr.Length == rep.capacity + 1 && rep.ptr[rep.size] == NUL)
    }

    /** Well shaped, in memory that is its own to give back. */
    ghost predicate Valid()
      reads this, mem, Owned()
    {
      Owned() <= mem.live && Shaped()
    }

    ghost function Contents(): seq<char>
      requires Shaped()
      reads this, Owned()
    {
      if rep.Inline? then rep.buf[..SSO_CAP - (rep.tag - SSO_BIT)] else rep.ptr[..rep.size]
    }

    /** Nothing is leaked and nothing is given back twice. */
    twostate predicate Exchanged()
      reads this, mem
    {
      mem.live == old(mem.live) - old(Owned()) + Owned()
    }

    /** From `s`, which is copied. */
    constructor (mem: Memory, s: seq<char>)
      requires |s| < LIMIT
      modifies mem
      ensures this.mem == mem && Valid() && Contents() == s && fresh(Owned())
      ensures rep.Inline? <==> |s| <= 22
      ensures mem.live == old(mem.live) + Owned()
    {
      this.mem := mem;
      rep := Inline(seq(SSO_CAP + 1, _ => NUL), SSO_BIT + SSO_CAP);
      new;
      if |s| <= SSO_CAP {
        InitSso(s);
      } else {
        InitHeap(s);
      }
    }

    /** A copy: the inline layout byte for byte, allocated text into memory of its own. */
    constructor Copy(other: TaggedString)
      requires other.Valid()
      modifies other.mem
      ensures mem == other.mem && Valid() && other.Valid() && fresh(Owned())
      ensures Contents() == old(other.Contents()) == other.Contents()
      ensures mem.live == old(other.mem.live) + Owned()
    {
      mem := other.mem;
      rep := Inline(seq(SSO_CAP + 1, _ => NUL), SSO_BIT + SSO_CAP);
      new;
      if other.rep.Inline? {
        rep := other.rep;
      } else {
        InitHeap(other.rep.ptr[..other.rep.size]);
      }
    }

    /** Takes over what `other` holds and leaves it empty. */
    constructor Move(other: TaggedString)
      requires other.Valid()
      modifies other
      ensures mem == other.mem && Valid() && other.Valid()
      ensures Contents() == old(other.Contents()) && other.Contents() == []
      ensures Owned() == old(other.Owned()) && other.Owned() == {}
    {
      mem := other.mem;
      rep := other.rep;
      new;
      other.MakeEmpty();
    }

    // ----- Accessors -----

    method IsSso() returns (b: bool)
      requires Valid()
      ensures b <==> rep.Inline?
    {
      b := rep.tag >= SSO_BIT;
    }

    method Size() returns (n: nat)
      requires Valid()
      ensures n == |Contents()|
    {
      var sso := IsSso();
      n := if sso then SSO_CAP - (rep.tag - SSO_BIT) else rep.size;
    }

    method Capacity() returns (n: nat)
      requires Valid()
      ensures n == if rep.Inline? then SSO_CAP else rep.capacity
      ensures |Contents()| <= n
    {
      var sso := IsSso();
      n := if sso then SSO_CAP else rep.capacity;
    }

    /** The byte at `i`, the terminator included. */
    method ByteAt(i: nat) returns (c: char)
      requires Valid() && i <= |Contents()|
      ensures c == (Contents() + [NUL])[i]
    {
      var sso := IsSso();
      c := if sso then rep.buf[i] else rep.ptr[i];
    }

    method Equals(other: TaggedString) returns (b: bool)
      requires Valid() && other.Valid()
      ensures b <==> Contents() == other.Contents()
    {
      ghost var s, t := Contents(), other.Contents();
      var n := Size();
      var m := other.Size();
      if n != m {
        return false;
      }
      var i := 0;
      while i < n
        invariant i <= n && forall k :: 0 <= k < i ==> s[k] == t[k]
      {
        var c := ByteAt(i);
        var d := other.ByteAt(i);
        assert s[i] == c && t[i] == d;
        if c != d {
          return false;
        }
        i := i + 1;
      }
      return true;
    }

    // ----- The two layouts -----

    /** The first 23 bytes of the union: the text bytes when they hold text, anything at all otherwise. */
    method UnionBytes() returns (b: seq<char>)
      ensures |b| == SSO_CAP + 1 || rep.Inline?
      ensures rep.Inline? ==> b == rep.buf
    {
      b := if rep.Inline? then rep.buf else seq(SSO_CAP + 1, _ => '?');
    }

    /** Copies a short text into the union and terminates it. */
    method InitSso(s: seq<char>)
      requires |s| <= SSO_CAP && (rep.Inline? ==> |rep.buf| == SSO_CAP + 1)
      modifies this
      ensures Valid() && rep.Inline? && Contents() == s
    {
      var b := UnionBytes();
      b := s + b[|s|..];
      rep := Inline(b[|s| := NUL], SSO_BIT + (SSO_CAP - |s|));
    }

    method SetSsoSize(n: nat)
      requires rep.Inline? && |rep.buf| == SSO_CAP + 1 && n <= SSO_CAP
      modifies this
      ensures Valid() && rep.Inline? && Contents() == old(rep.buf)[..n]
    {
      rep := Inline(rep.buf[n := NUL], SSO_BIT + (SSO_CAP - n));
    }

    method InitHeap(s: seq<char>)
      requires |s| < LIMIT
      modifies this, mem
      ensures Valid() && rep.Heap? && fresh(rep.ptr) && Contents() == s
      ensures mem.live == old(mem.live) + {rep.ptr}
    {
      var cap := if |s| < 32 then 32 else |s|;
      var ptr := mem.Malloc(cap + 1);
      CopyInto(ptr, 0, s);
      ptr[|s|] := NUL;
      assert ptr[..|s|] == s;
      rep := Heap(ptr, |s|, cap, 0);
    }

    static method CopyInto(a: array<char>, at: nat, s: seq<char>)
      requires at + |s| <= a.Length
      modifies a
      ensures a[..] == old(a[..at]) + s + old(a[at + |s|..])
    {
      var i := 0;
      while i < |s|
        invariant i <= |s|
        invariant a[..at] == old(a[..at]) && a[at..at + i] == s[..i] && a[at + i..] == old(a[at + i..])
      {
        a[at + i] := s[i];
        i := i + 1;
      }
    }

    method FreeHeap()
      requires Valid()
      modifies mem
      ensures mem.live == old(mem.live) - Owned()
    {
      var sso := IsSso();
      if !sso {
        mem.Free(rep.ptr);
      }
    }

    /** Twice the old capacity if that is enough, and never less than 32; inline text has none to double. */
    static method NewCapacity(old_cap: nat, min: nat) returns (cap: nat)
      requires min < LIMIT
      ensures cap == Grown(old_cap, min) && min <= cap < LIMIT && 32 <= cap
    {
      cap := min;
      if old_cap * 2 % MODULUS > cap {
        cap := old_cap * 2 % MODULUS;
      }
      if cap < 32 {
        cap := 32;
      }
    }

    /** Makes room for at least `min` characters, in allocated memory. */
    method Grow(min: nat)
      requires Valid() && |Contents()| <= min < LIMIT
      modifies this, mem
      ensures Valid() && Contents() == old(Contents()) && Exchanged()
      ensures rep.Heap? && min <= rep.capacity
      ensures old(rep.Heap?) && min <= old(rep.capacity) ==> rep == old(rep)
      ensures old(rep.Inline?) ==> rep.capacity == if min < 32 then 32 else min
      ensures old(rep.Heap?) && old(rep.capacity) < min ==>
                rep.capacity == var twice := old(rep.capacity) * 2 % 0x1_0000_0000; if twice < min then min else twice
      ensures !(old(rep.Heap?) && min <= old(rep.capacity)) ==>
                fresh(rep.ptr) && rep.capacity == Grown(if old(rep.Heap?) then old(rep.capacity) else 0, min)
    {
      hide Grown;
      var sso := IsSso();
      if !sso && min <= rep.capacity {
        return;
      }
      GrownIs(if sso then 0 else rep.capacity, min);
      var size := Size();
      var cap := NewCapacity(if sso then 0 else rep.capacity, min);
      var ptr := CopyOut(cap);
      FreeHeap();
      rep := Heap(ptr, size, cap, 0);
    }

    /** The text and its terminator in a new block with room for `cap` characters. */
    method CopyOut(cap: nat) returns (ptr: array<char>)
      requires Valid() && |Contents()| <= cap
      modifies mem
      ensures fresh(ptr) && ptr.Length == cap + 1 && mem.live == old(mem.live) + {ptr}
      ensures ptr[..|Contents()|] == Contents() && ptr[|Contents()|] == NUL
    {
      var sso := IsSso();
      var size := Size();
      ptr := mem.Malloc(cap + 1);
      CopyInto(ptr, 0, if sso then rep.buf[..size] else rep.ptr[..size]);
      ptr[size] := NUL;
      assert ptr[..size] == Contents();
    }

    /** Writes the empty inline layout over whatever is there. */
    method MakeEmpty()
      modifies this
      ensures Valid() && rep.Inline? && Contents() == []
    {
      var b := UnionBytes();
      rep := Inline(seq(SSO_CAP + 1, _ => NUL), SSO_BIT + SSO_CAP);
    }

    // ----- Changing the text -----

    method PushBack(c: char)
      requires Valid() && |Contents()| + 1 < LIMIT
      modifies this, mem, Owned()
      ensures Valid() && Contents() == old(Contents()) + [c] && Exchanged()
      ensures fresh(Owned() - old(Owned()))
    {
      var size := Size();
      var sso := IsSso();
      if sso {
        if size < SSO_CAP {
          rep := rep.(buf := rep.buf[size := c]);
          SetSsoSize(size + 1);
          return;
        }
        Grow(size + 1);
      } else if size >= rep.capacity {
        Grow(size + 1);
      }
      StoreAt(size, [c]);
    }

    /** Stores text at the end of the allocated memory, which has room for it, and terminates it. */
    method StoreAt(size: nat, s: seq<char>)
      requires Valid() && rep.Heap? && size == rep.size && size + |s| <= rep.capacity
      modifies this, rep.ptr
      ensures Valid() && Contents() == old(Contents()) + s
      ensures Owned() == old(Owned())
    {
      var ptr := rep.ptr;
      CopyInto(ptr, size, s);
      assert ptr[..size + |s|] == old(Contents()) + s;
      ptr[size + |s|] := NUL;
      rep := rep.(size := size + |s|);
      assert ptr[..size + |s|] == old(Contents()) + s;
    }

    method Append(s: seq<char>)
      requires Valid() && |Contents()| + |s| < LIMIT
      modifies this, mem, Owned()
      ensures Valid() && Contents() == old(Contents()) + s && Exchanged()
      ensures fresh(Owned() - old(Owned()))
    {
      if |s| == 0 {
        return;
      }
      var size := Size();
      var sso := IsSso();
      if sso && size + |s| <= SSO_CAP {
        rep := rep.(buf := rep.buf[..size] + s + rep.buf[size + |s|..]);
        SetSsoSize(size + |s|);
        return;
      }
      if sso || size + |s| > rep.capacity {
        Grow(size + |s|);
      }
      StoreAt(size, s);
    }

    method Clear()
      requires Valid()
      modifies this, mem
      ensures Valid() && Contents() == [] && rep.Inline? && Exchanged()
    {
      FreeHeap();
      MakeEmpty();
    }

    method Reserve(cap: nat)
      requires Valid() && cap < LIMIT
      modifies this, mem
      ensures Valid() && Contents() == old(Contents()) && Exchanged()
      ensures rep.Inline? ==> cap <= SSO_CAP
      ensures rep.Heap? ==> cap <= rep.capacity
      ensures fresh(Owned() - old(Owned()))
    {
      var now := Capacity();
      if cap <= now {
        return;
      }
      Grow(cap);
    }

    method Resize(n: nat, fill: char)
      requires Valid() && n < LIMIT
      modifies this, mem, Owned()
      ensures Valid() && Exchanged()
      ensures Contents() == if n <= old(|Contents()|) then old(Contents())[..n] else old(Contents()) + seq(n - old(|Contents()|), _ => fill)
      ensures n <= SSO_CAP && n <= old(|Contents()|) ==> rep.Inline?
      ensures fresh(Owned() - old(Owned()))
    {
      var size := Size();
      if n <= size {
        Shrink(n);
        return;
      }
      var sso := IsSso();
      var more := seq(n - size, _ => fill);
      if sso && n <= SSO_CAP {
        rep := rep.(buf := rep.buf[..size] + more + rep.buf[n..]);
        SetSsoSize(n);
        return;
      }
      if sso || n > rep.capacity {
        Grow(n);
      }
      StoreAt(size, more);
    }

    /** Short text goes back inline; the memory is given back only after it has been read. */
    method Shrink(n: nat)
      requires Valid() && n <= |Contents()|
      modifies this, mem, Owned()
      ensures Valid() && Contents() == old(Contents())[..n] && Exchanged()
      ensures n <= SSO_CAP ==> rep.Inline?
      ensures Owned() <= old(Owned())
    {
      var sso := IsSso();
      if sso {
        SetSsoSize(n);
      } else if n <= SSO_CAP {
        var old_ptr := rep.ptr;
        InitSso(old_ptr[..n]);
        mem.Free(old_ptr);
      } else {
        rep.ptr[n] := NUL;
        rep := rep.(size := n);
      }
    }

    // ----- Assignment -----

    method Assign(s: seq<char>)
      requires Valid() && |s| < LIMIT
      modifies this, mem
      ensures Valid() && Contents() == s && Exchanged()
      ensures rep.Inline? <==> |s| <= 22
      ensures fresh(Owned())
    {
      FreeHeap();
      if |s| <= SSO_CAP {
        InitSso(s);
      } else {
        InitHeap(s);
      }
    }

    method AssignCopy(other: TaggedString)
      requires Valid() && other.Valid() && mem == other.mem
      requires this != other ==> Owned() !! other.Owned()
      modifies this, mem
      ensures Valid() && other.Valid() && Exchanged()
      ensures Contents() == other.Contents() == old(other.Contents())
      ensures this != other ==> other.rep == old(other.rep) && fresh(Owned())
      ensures this == other ==> rep == old(rep)
    {
      if this == other {
        return;
      }
      FreeHeap();
      if other.rep.Inline? {
        rep := other.rep;
      } else {
        InitHeap(other.rep.ptr[..other.rep.size]);
      }
    }

    method AssignMove(other: TaggedString)
      requires Valid() && other.Valid() && mem == other.mem
      requires this != other ==> Owned() !! other.Owned()
      modifies this, other, mem
      ensures Valid() && other.Valid()
      ensures Contents() == old(other.Contents())
      ensures this != other ==> other.Contents() == [] && Owned() == old(other.Owned()) && other.Owned() == {}
      ensures this != other ==> mem.live == old(mem.live) - old(Owned())
      ensures this == other ==> mem.live == old(mem.live) && rep == old(rep)
    {
      if this == other {
        return;
      }
      FreeHeap();
      rep := other.rep;
      other.MakeEmpty();
    }

    /** The characters from `pos` on, at most `len` of them. */
    method Substr(pos: nat, len: nat) returns (r: TaggedString)
      requires Valid() && pos <= |Contents()|
      modifies mem
      ensures fresh(r) && r.Valid() && r.mem == mem && Valid()
      ensures Contents() == old(Contents())
      ensures |r.Contents()| == if len > |Contents()| - pos then |Contents()| - pos else len
      ensures r.Contents() == Contents()[pos..pos + |r.Contents()|]
    {
      var size := Size();
      var n := if len > size - pos then size - pos else len;
      var s := Part(pos, n);
      r := new TaggedString(mem, s);
    }

    /** `n` characters from `pos` on, from wherever the text is. */
    method Part(pos: nat, n: nat) returns (s: seq<char>)
      requires Valid() && pos + n <= |Contents()|
      ensures s == Contents()[pos..pos + n]
    {
      var sso := IsSso();
      if sso {
        s := rep.buf[pos..pos + n];
      } else {
        s := rep.ptr[pos..pos + n];
      }
    }
  }

  // ----- Whole runs -----

  datatype Edit =
    | PushBack(c: char)
    | Append(text: seq<char>)
    | Resize(n: nat, fill: char)
    | Reserve(cap: nat)
    | Clear
    | Assign(text: seq<char>)

  /** What an edit makes of a sequence of characters. */
  function Edited(s: seq<char>, e: Edit): seq<char> {
    match e
    case PushBack(c) => s + [c]
    case Append(t) => s + t
    case Resize(n, fill) => if n <= |s| then s[..n] else s + seq(n - |s|, _ => fill)
    case Reserve(_) => s
    case Clear => []
    case Assign(t) => t
  }

  function EditedAll(s: seq<char>, es: seq<Edit>): seq<char> {
    if es == [] then s else Edited(EditedAll(s, es[..|es| - 1]), es[|es| - 1])
  }

  /** Sizes and capacities asked for stay below 32 bits. */
  predicate Allowed(s: seq<char>, e: Edit) {
    |Edited(s, e)| < LIMIT && (e.Reserve? ==> e.cap < LIMIT)
  }

  method Apply(s: TaggedString, e: Edit)
    requires s.Valid() && Allowed(s.Contents(), e)
    modifies s, s.mem, s.Owned()
    ensures s.Valid() && s.Contents() == Edited(old(s.Contents()), e)
    ensures s.mem.live == old(s.mem.live) - old(s.Owned()) + s.Owned()
    ensures fresh(s.Owned() - old(s.Owned()))
  {
    match e
    case PushBack(c) => s.PushBack(c);
    case Append(t) => s.Append(t);
    case Resize(n, fill) => s.Resize(n, fill);
    case Reserve(cap) => s.Reserve(cap);
    case Clear => s.Clear();
    case Assign(t) => s.Assign(t);
  }

  /** Any run of edits does to the text what it does to a sequence, and leaves one block live at most. */
  method Run(s: TaggedString, es: seq<Edit>)
    requires s.Valid()
    requires forall i :: 0 <= i < |es| ==> Allowed(EditedAll(s.Contents(), es[..i]), es[i])
    modifies s, s.mem, s.Owned()
    ensures s.Valid() && s.Contents() == EditedAll(old(s.Contents()), es)
    ensures s.mem.live == old(s.mem.live) - old(s.Owned()) + s.Owned()
  {
    ghost var start, others := s.Contents(), s.mem.live - s.Owned();
    var i := 0;
    while i < |es|
      invariant i <= |es| && s.Valid() && s.Contents() == EditedAll(start, es[..i])
      invariant s.mem.live == others + s.Owned()
      invariant fresh(s.Owned() - old(s.Owned())) && others !! s.Owned()
    {
      EditedNext(start, es, i);
      Apply(s, es[i]);
      i := i + 1;
    }
    assert es[..i] == es;
  }

  lemma EditedNext(s: seq<char>, es: seq<Edit>, i: nat)
    requires i < |es|
    ensures EditedAll(s, es[..i + 1]) == Edited(EditedAll(s, es[..i]), es[i])
  {
    assert es[..i + 1][..i] == es[..i];
  }
}
