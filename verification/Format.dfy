/**
 The truncating formatter: one pass over the format string that writes what
 fits into a buffer and counts what does not.
 */
module Format {
  import opened Prelude
  import opened Modular
  import opened FormatSpec

  /** A C string holds no NUL of its own. */
  type CString = s: string | NUL !in s witness ""

  // ----- What a format string says -----

  datatype Piece = Lit(c: char) | Hole(spec: Option<Spec>)

  /** The index of the first `}` from `i` on, or the end. */
  function FindClose(s: string, i: nat): (e: nat)
    requires i <= |s|
    ensures i <= e <= |s|
    ensures '}' !in s[i..e] && (e < |s| ==> s[e] == '}')
    decreases |s| - i
  {
    if i == |s| || s[i] == '}' then i else FindClose(s, i + 1)
  }

  /** The first piece of a format string and how many characters it takes. */
  function First(s: string): (r: (Piece, nat))
    requires s != []
    ensures 1 <= r.1 <= |s|
  {
    if s[0] == '{' then
      if |s| > 1 && s[1] == '{' then (Lit('{'), 2)
      else if |s| > 1 && s[1] == '}' then (Hole(None), 2)
      else if |s| > 1 && s[1] == ':' && FindClose(s, 2) < |s| then
        (Hole(Some(SpecOf(s[2..FindClose(s, 2)]))), FindClose(s, 2) + 1)
      else (Lit('{'), 1)
    else if |s| > 1 && s[0] == '}' && s[1] == '}' then (Lit('}'), 2)
    else (Lit(s[0]), 1)
  }

  function Pieces(s: string): seq<Piece> {
    if s == [] then [] else [First(s).0] + Pieces(s[First(s).1..])
  }

  function Holes(ps: seq<Piece>): nat {
    if ps == [] then 0 else (if ps[0].Hole? then 1 else 0) + Holes(ps[1..])
  }

  /** Placeholders take arguments in order; those left without one write nothing. */
  function Render(ps: seq<Piece>, args: seq<Arg>): string {
    if ps == [] then []
    else match ps[0]
      case Lit(c) => [c] + Render(ps[1..], args)
      case Hole(spec) =>
        if args == [] then Render(ps[1..], [])
        else Shown(args[0], spec) + Render(ps[1..], args[1..])
  }

  /** The whole output for a format string. */
  function Output(fmt: string, args: seq<Arg>): string {
    Render(Pieces(fmt), args)
  }

  // ----- Literal text -----

  /** Braces doubled, so that they stand for themselves. */
  function Escape(s: string): string {
    if s == [] then []
    else (if s[0] == '{' || s[0] == '}' then [s[0], s[0]] else [s[0]]) + Escape(s[1..])
  }

  /** Escaped text comes out as it was, whatever the arguments. */
  lemma {:induction false} EscapedText(s: string, args: seq<Arg>)
    ensures Output(Escape(s), args) == s && Holes(Pieces(Escape(s))) == 0
  {
    if s != [] {
      EscapedText(s[1..], args);
      var e := Escape(s);
      var n := if s[0] == '{' || s[0] == '}' then 2 else 1;
      assert First(e) == (Lit(s[0]), n);
      assert e[n..] == Escape(s[1..]);
      assert Pieces(e)[1..] == Pieces(Escape(s[1..]));
    }
  }

  // ----- The buffer -----

  function Min(a: nat, b: nat): nat {
    if a < b then a else b
  }

  /** Positions are 32 bits wide. */
  const POSITIONS := 0x1_0000_0000

  /** The last of `n` characters to be written at position `k`, which comes round every 2^32; negative when there is none. */
  function LastAt(n: nat, k: nat): int {
    if k < n % POSITIONS then n - n % POSITIONS + k else n - n % POSITIONS - POSITIONS + k
  }

  lemma LastAtNext(n: nat, k: nat)
    requires k < POSITIONS
    ensures LastAt(n + 1, k) == if k == n % POSITIONS then n else LastAt(n, k)
  {
    var q, r := n / POSITIONS, n % POSITIONS;
    if r + 1 < POSITIONS {
      ModUnique(n + 1, POSITIONS, q, r + 1);
    } else {
      ModUnique(n + 1, POSITIONS, q + 1, 0);
    }
  }

  lemma LastAtFirst(n: nat, k: nat)
    requires n < POSITIONS && k < POSITIONS
    ensures LastAt(n, k) == if k < n then k else k - POSITIONS
  {
    ModUnique(n, POSITIONS, 0, n);
  }

  /** Position `k` of a buffer of which `size` characters can be written to, the last of them for the terminator. */
  function Kept(out: string, size: nat, before: seq<char>, k: nat): char
    requires size < POSITIONS && k < |before|
  {
    if k + 1 < size && LastAt(|out|, k) >= 0 then out[LastAt(|out|, k)] else before[k]
  }

  lemma KeptNext(out: string, c: char, size: nat, before: seq<char>, k: nat)
    requires size < POSITIONS && k < |before|
    ensures Kept(out + [c], size, before, k) == if k + 1 < size && k == |out| % POSITIONS then c else Kept(out, size, before, k)
  {
    if k + 1 < size {
      LastAtNext(|out|, k);
    }
  }

  /** A buffer after formatting: the output, a terminator where it ended or at the end, and what was there before. */
  function Fitted(out: string, size: nat, before: seq<char>): (r: seq<char>)
    requires 1 <= size <= |before| && size < POSITIONS
    ensures |r| == |before|
  {
    var end := Min(|out| % POSITIONS, size - 1);
    seq(|before|, k requires 0 <= k < |before| => Kept(out, size, before, k))[end := NUL]
  }

  /** Below 2^32 characters that is as much of the output as fits, a terminator, and what was there before. */
  lemma FittedPrefix(out: string, size: nat, before: seq<char>)
    requires 1 <= size <= |before| && size < POSITIONS && |out| < POSITIONS
    ensures var k := Min(|out|, size - 1); Fitted(out, size, before) == out[..k] + [NUL] + before[k + 1..]
  {
    var k := Min(|out|, size - 1);
    ModUnique(|out|, POSITIONS, 0, |out|);
    forall i | 0 <= i < |before|
      ensures Fitted(out, size, before)[i] == (out[..k] + [NUL] + before[k + 1..])[i]
    {
      if i < POSITIONS {
        LastAtFirst(|out|, i);
      }
    }
  }

  /** `size` characters to write to, the last of them for the terminator, and everything written so far. */
  class Sink {
    const buf: array<char>
    const size: nat
    ghost const before: seq<char>
    var pos: nat
    ghost var out: string

    ghost predicate Valid()
      reads this, buf
    {
      && 1 <= size <= buf.Length && size < POSITIONS && |before| == buf.Length && pos == |out| % POSITIONS
      && forall k :: 0 <= k < buf.Length ==> buf[k] == Kept(out, size, before, k)
    }

    constructor (buf: array<char>, size: nat)
      requires 1 <= size <= buf.Length && size < POSITIONS
      ensures this.buf == buf && this.size == size && before == buf[..]
      ensures Valid() && out == []
    {
      this.buf, this.size, this.before := buf, size, buf[..];
      pos, out := 0, [];
    }

    method WriteChar(c: char)
      requires Valid()
      modifies this, buf
      ensures Valid() && out == old(out) + [c]
    {
      hide Kept;
      forall k | 0 <= k < buf.Length
        ensures Kept(out + [c], size, before, k) == if k + 1 < size && k == |out| % POSITIONS then c else Kept(out, size, before, k)
      {
        KeptNext(out, c, size, before, k);
      }
      PositionNext(|out|);
      if pos < size - 1 {
        buf[pos] := c;
      }
      pos := (pos + 1) % POSITIONS;
      out := out + [c];
    }

    method Write(s: string)
      requires Valid()
      modifies this, buf
      ensures Valid() && out == old(out) + s
    {
      var i := 0;
      while i < |s|
        invariant i <= |s| && Valid() && out == old(out) + s[..i]
      {
        WriteChar(s[i]);
        assert s[..i + 1] == s[..i] + [s[i]];
        i := i + 1;
      }
      assert s[..|s|] == s;
    }

    method WriteFill(c: char, n: nat)
      requires Valid()
      modifies this, buf
      ensures Valid() && out == old(out) + Repeat(c, n)
    {
      var i := 0;
      while i < n
        invariant i <= n && Valid() && out == old(out) + Repeat(c, i)
      {
        WriteChar(c);
        assert Repeat(c, i + 1) == Repeat(c, i) + [c];
        i := i + 1;
      }
    }

    /** Writes a value padded as its specification asks. */
    method ApplySpec(val: string, spec: Option<Spec>)
      requires Valid()
      modifies this, buf
      ensures Valid() && out == old(out) + Padded(val, spec)
    {
      if spec.None? || spec.value.width <= |val| {
        Write(val);
        return;
      }
      var p := spec.value;
      var pad := p.width - |val|;
      var align := if p.align == NUL then '>' else p.align;
      if p.fill == '0' && align == '>' && HasSign(val) {
        WriteChar(val[0]);
        WriteFill('0', pad);
        Write(val[1..]);
      } else if align == '<' {
        Write(val);
        WriteFill(p.fill, pad);
      } else {
        WriteFill(p.fill, pad);
        Write(val);
      }
    }

    method WriteArg(a: Arg, spec: Option<Spec>)
      requires Valid()
      modifies this, buf
      ensures Valid() && out == old(out) + Shown(a, spec)
    {
      ApplySpec(ValueText(a, spec), spec);
    }

    /** The terminator goes where the output ended, or at the end. */
    method Terminate()
      requires Valid()
      modifies buf
      ensures buf[..] == Fitted(out, size, before)
    {
      hide Kept;
      buf[if pos < size then pos else size - 1] := NUL;
    }
  }

  lemma PositionNext(n: nat)
    ensures (n % POSITIONS + 1) % POSITIONS == (n + 1) % POSITIONS
  {
    ModAdd(1, n, POSITIONS);
  }

  // ----- The two passes over a format string -----

  /** After a piece of `n` characters has been dealt with, the rest of the string is left. */
  lemma PieceTaken(fmt: string, i: nat, p: Piece, n: nat)
    requires i < |fmt| && First(fmt[i..]) == (p, n)
    ensures Pieces(fmt[i..]) == [p] + Pieces(fmt[i + n..])
  {
    assert fmt[i..][n..] == fmt[i + n..];
  }

  lemma HolesTaken(p: Piece, ps: seq<Piece>)
    ensures Holes([p] + ps) == (if p.Hole? then 1 else 0) + Holes(ps)
  {
    assert ([p] + ps)[1..] == ps;
  }

  lemma RenderTaken(p: Piece, ps: seq<Piece>, args: seq<Arg>)
    ensures p.Lit? ==> Render([p] + ps, args) == [p.c] + Render(ps, args)
    ensures p.Hole? && args == [] ==> Render([p] + ps, args) == Render(ps, args)
    ensures p.Hole? && args != [] ==> Render([p] + ps, args) == Shown(args[0], p.spec) + Render(ps, args[1..])
  {
    assert ([p] + ps)[1..] == ps;
  }

  /** Where the run of characters up to `}` ends, scanning from `start`. */
  method ScanClose(fmt: string, start: nat) returns (e: nat)
    requires start <= |fmt|
    ensures start <= e <= |fmt| && '}' !in fmt[start..e] && (e < |fmt| ==> fmt[e] == '}')
  {
    e := start;
    while e < |fmt| && fmt[e] != '}'
      invariant start <= e <= |fmt| && '}' !in fmt[start..e]
    {
      assert fmt[start..e + 1] == fmt[start..e] + [fmt[e]];
      e := e + 1;
    }
  }

  lemma {:induction false} CloseIsFirst(s: string, i: nat, e: nat)
    requires i <= e <= |s| && '}' !in s[i..e] && (e < |s| ==> s[e] == '}')
    ensures FindClose(s, i) == e
    decreases e - i
  {
    if i < e {
      assert s[i] in s[i..e];
      assert s[i + 1..e] == s[i..e][1..];
      CloseIsFirst(s, i + 1, e);
    }
  }

  /** The first piece at `i`, whatever its kind but a specification. */
  lemma FirstAt(fmt: string, i: nat)
    requires i < |fmt|
    ensures fmt[i] == '{' ==>
              if i + 1 < |fmt| && fmt[i + 1] == '{' then First(fmt[i..]) == (Lit('{'), 2)
              else if i + 1 < |fmt| && fmt[i + 1] == '}' then First(fmt[i..]) == (Hole(None), 2)
              else if i + 1 < |fmt| && fmt[i + 1] == ':' then true
              else First(fmt[i..]) == (Lit('{'), 1)
    ensures fmt[i] != '{' ==>
              First(fmt[i..]) == if fmt[i] == '}' && i + 1 < |fmt| && fmt[i + 1] == '}' then (Lit('}'), 2) else (Lit(fmt[i]), 1)
  {
    hide SpecOf;
    assert fmt[i..][0] == fmt[i];
    assert i + 1 < |fmt| ==> fmt[i..][1] == fmt[i + 1];
  }

  /** The first piece at `i` when `{:` is there and the scan for `}` ends at `e`. */
  lemma FirstSpec(fmt: string, i: nat, e: nat)
    requires i + 2 <= e <= |fmt| && fmt[i] == '{' && fmt[i + 1] == ':'
    requires '}' !in fmt[i + 2..e] && (e < |fmt| ==> fmt[e] == '}')
    ensures First(fmt[i..]) == if e < |fmt| then (Hole(Some(SpecOf(fmt[i + 2..e]))), e + 1 - i) else (Lit('{'), 1)
  {
    hide SpecOf;
    var s := fmt[i..];
    assert s[2..e - i] == fmt[i + 2..e];
    CloseIsFirst(s, 2, e - i);
  }

  lemma NothingLeft(args: seq<Arg>)
    ensures Pieces([]) == [] && Holes([]) == 0 && Render([], args) == []
  {
  }

  /** How many arguments a format string takes. */
  method CountPlaceholders(fmt: CString) returns (n: nat)
    ensures n == Holes(Pieces(fmt))
  {
    hide First, Pieces, Holes, SpecOf, FindClose;
    n := 0;
    var i := 0;
    assert fmt[0..] == fmt;
    NothingLeft([]);
    while i < |fmt|
      invariant i <= |fmt| && n + Holes(Pieces(fmt[i..])) == Holes(Pieces(fmt))
    {
      ghost var (p, k) := First(fmt[i..]);
      PieceTaken(fmt, i, p, k);
      HolesTaken(p, Pieces(fmt[i + k..]));
      FirstAt(fmt, i);
      if fmt[i] == '{' {
        if i + 1 < |fmt| && fmt[i + 1] == '{' {
          i := i + 2;
        } else if i + 1 < |fmt| && fmt[i + 1] == '}' {
          n := n + 1;
          i := i + 2;
        } else if i + 1 < |fmt| && fmt[i + 1] == ':' {
          var e := ScanClose(fmt, i + 2);
          FirstSpec(fmt, i, e);
          if e < |fmt| {
            n := n + 1;
            i := e + 1;
          } else {
            i := i + 1;
          }
        } else {
          i := i + 1;
        }
      } else if fmt[i] == '}' && i + 1 < |fmt| && fmt[i + 1] == '}' {
        i := i + 2;
      } else {
        i := i + 1;
      }
    }
    assert fmt[i..] == [];
  }

  /** Writes one piece, reporting how far it reached and whether it is a placeholder. */
  method WritePiece(sink: Sink, fmt: CString, i: nat, args: seq<Arg>, ai: nat) returns (next: nat, used: nat)
    requires sink.Valid() && i < |fmt| && ai <= |args|
    modifies sink, sink.buf
    ensures sink.Valid()
    ensures i < next <= |fmt| && ai <= used <= |args|
    ensures sink.out + Render(Pieces(fmt[next..]), args[used..]) == old(sink.out) + Render(Pieces(fmt[i..]), args[ai..])
    ensures used + Min(|args| - used, Holes(Pieces(fmt[next..]))) == ai + Min(|args| - ai, Holes(Pieces(fmt[i..])))
  {
    hide First, Pieces, Holes, Render, SpecOf, Shown;
    FirstAt(fmt, i);
    ghost var (p, k) := First(fmt[i..]);
    PieceTaken(fmt, i, p, k);
    HolesTaken(p, Pieces(fmt[i + k..]));
    RenderTaken(p, Pieces(fmt[i + k..]), args[ai..]);
    next, used := i, ai;
    var lit, spec := None, None;
    if fmt[i] == '{' {
      if i + 1 < |fmt| && fmt[i + 1] == '{' {
        lit, next := Some('{'), i + 2;
      } else if i + 1 < |fmt| && fmt[i + 1] == '}' {
        next := i + 2;
      } else if i + 1 < |fmt| && fmt[i + 1] == ':' {
        var e := ScanClose(fmt, i + 2);
        FirstSpec(fmt, i, e);
        if e < |fmt| {
          var parsed := ParseFormatSpec(fmt[i + 2..e]);
          spec, next := Some(parsed), e + 1;
        } else {
          lit, next := Some('{'), i + 1;
        }
      } else {
        lit, next := Some('{'), i + 1;
      }
    } else if fmt[i] == '}' && i + 1 < |fmt| && fmt[i + 1] == '}' {
      lit, next := Some('}'), i + 2;
    } else {
      lit, next := Some(fmt[i]), i + 1;
    }
    assert next == i + k && p == (if lit.Some? then Lit(lit.value) else Hole(spec));
    if lit.Some? {
      sink.WriteChar(lit.value);
    } else if ai < |args| {
      sink.WriteArg(args[ai], spec);
      used := ai + 1;
      assert args[ai..][1..] == args[ai + 1..];
    }
  }

  /** The pass over the format string. */
  method FmtLoop(sink: Sink, fmt: CString, args: seq<Arg>) returns (used: nat)
    requires sink.Valid() && sink.out == []
    modifies sink, sink.buf
    ensures sink.Valid() && sink.out == Output(fmt, args)
    ensures used == Min(|args|, Holes(Pieces(fmt)))
  {
    hide First, Pieces, Holes, Render, SpecOf, Shown, Fitted;
    used := 0;
    var i := 0;
    assert fmt[0..] == fmt && args[0..] == args;
    while i < |fmt|
      invariant sink.Valid() && i <= |fmt| && used <= |args|
      invariant sink.out + Render(Pieces(fmt[i..]), args[used..]) == Output(fmt, args)
      invariant used + Min(|args| - used, Holes(Pieces(fmt[i..]))) == Min(|args|, Holes(Pieces(fmt)))
      decreases |fmt| - i
    {
      i, used := WritePiece(sink, fmt, i, args, used);
    }
    NothingLeft(args[used..]);
    assert fmt[i..] == [] && sink.out + [] == sink.out;
  }

  /** A position returned as a signed number. */
  function AsSigned(n: nat): int {
    if n < POSITIONS / 2 then n else n - POSITIONS
  }

  /** A signed result taken as a position again. */
  function AsPosition(i: int): (n: nat)
    ensures n < POSITIONS
  {
    i % POSITIONS
  }

  lemma SignedAndBack(n: nat)
    requires n < POSITIONS
    ensures AsPosition(AsSigned(n)) == n
    ensures AsSigned(n) < 0 <==> n >= POSITIONS / 2
  {
    ModUnique(AsSigned(n), POSITIONS, if n < POSITIONS / 2 then 0 else -1, n);
  }

  /**
     Formats into the first `size` characters of `buf`. The length returned does
     not depend on `size`, unless `size` is 0, and the buffer holds as much of
     the output as fits, then a terminator, then what it held before. From 2^31
     characters on the length comes out negative, and from 2^32 on it starts again,
     with the output written over what is there.
   */
  method FmtImpl(buf: array<char>, size: nat, fmt: CString, args: seq<Arg>) returns (n: int, ghost used: nat)
    requires size <= buf.Length && size < POSITIONS
    modifies buf
    ensures size == 0 ==> n == 0 && buf[..] == old(buf[..])
    ensures size > 0 ==> n == AsSigned(|Output(fmt, args)| % POSITIONS) && used == Min(|args|, Holes(Pieces(fmt)))
    ensures size > 0 ==> buf[..] == Fitted(Output(fmt, args), size, old(buf[..]))
  {
    hide Output, Pieces, Holes, Fitted, Kept;
    if size == 0 {
      return 0, 0;
    }
    var sink := new Sink(buf, size);
    var taken := FmtLoop(sink, fmt, args);
    sink.Terminate();
    n, used := AsSigned(sink.pos), taken;
  }

  /**
     Formats into a small buffer first and, when that is too small, again into one
     of the right size. The result is the whole output exactly below 2^32
     characters, beyond which its length starts again from 0. Nothing is said of a
     length of 2^32 - 1, for which the second buffer's size wraps.
   */
  method Format(fmt: CString, args: seq<Arg>) returns (result: string)
    ensures |Output(fmt, args)| % POSITIONS != POSITIONS - 1 ==>
              && |result| == |Output(fmt, args)| % POSITIONS
              && (result == Output(fmt, args) <==> |Output(fmt, args)| < POSITIONS)
  {
    hide Output, Pieces, Holes, AsSigned, AsPosition, Fitted, Kept;
    ghost var whole := Output(fmt, args);
    ghost var m := |whole| % POSITIONS;
    SignedAndBack(m);
    if |whole| < POSITIONS {
      ModUnique(|whole|, POSITIONS, 0, |whole|);
    }
    var stack := new char[256];
    ghost var was := stack[..];
    var n, _ := FmtImpl(stack, 256, fmt, args);
    var length := AsPosition(n);
    if length < 256 {
      if |whole| < POSITIONS {
        FittedPrefix(whole, 256, was);
      }
      result := stack[..length];
    } else {
      result := Refill(length, fmt, args);
    }
  }

  /** The second pass, into a new buffer of `length` NUL characters and one more. */
  method Refill(length: nat, fmt: CString, args: seq<Arg>) returns (result: string)
    requires 0 < length < POSITIONS && length == |Output(fmt, args)| % POSITIONS
    ensures |result| == length
    ensures length < POSITIONS - 1 && length == |Output(fmt, args)| ==> result == Output(fmt, args)
  {
    hide Output, Pieces, Holes, AsSigned, Fitted, Kept;
    var data := new char[length + 1](_ => NUL);
    ghost var was := data[..];
    var size := (length + 1) % POSITIONS;
    if length + 1 < POSITIONS {
      ModUnique(length + 1, POSITIONS, 0, length + 1);
      if length == |Output(fmt, args)| {
        FittedPrefix(Output(fmt, args), size, was);
      }
    }
    var _, _ := FmtImpl(data, size, fmt, args);
    result := data[..length];
  }
}
