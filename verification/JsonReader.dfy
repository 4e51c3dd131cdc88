/**
 The parser proper: it reads a mutable buffer, decodes strings over the bytes it
 has already read, and feeds the tree builder. It is the functional parser on the
 original text, however much of the buffer it has overwritten.
 */
module JsonReader {
  import opened Prelude
  import opened JsonText
  import opened JsonParse
  import opened JsonDom
  import opened JsonGrammar

  /** Bytes already decoded, in front of what the rest decodes to. */
  ghost function After(front: Bytes, r: Parsed<Bytes>): Parsed<Bytes> {
    if r.None? then None else Some(Read(front + r.value.v, r.value.rest))
  }

  datatype AfterElement = Closed | More | Bad

  class Parser {
    const source: array<Byte>
    const dom: Dom
    var current: nat
    /** What the buffer held at the start. */
    ghost const text: Bytes

    constructor (source: array<Byte>, dom: Dom)
      ensures this.source == source && this.dom == dom && current == 0 && text == source[..]
      ensures Ok()
    {
      this.source, this.dom, current, text := source, dom, 0, source[..];
    }

    /** Whatever has been overwritten lies behind the read position. */
    ghost predicate Ok()
      reads this, source
    {
      && |text| == source.Length && current <= |text|
      && source[current..] == text[current..]
    }

    /** The unread input. */
    ghost function Rest(): Bytes
      requires Ok()
      reads this, source
    {
      text[current..]
    }

    /** The byte at the read position is the first of the unread input. */
    lemma Peek()
      requires Ok() && current < source.Length
      ensures Rest() != [] && source[current] == Rest()[0]
      ensures text[current + 1..] == Rest()[1..] && source[current + 1..] == text[current + 1..]
    {
      assert source[current] == source[current..][0];
      assert source[current + 1..] == source[current..][1..];
    }

    // ----- Lexical pieces -----

    method SkipWhitespace()
      requires Ok()
      modifies `current
      ensures Ok() && Rest() == SkipWs(old(Rest())) && current >= old(current)
    {
      while current < source.Length
        invariant Ok() && SkipWs(Rest()) == SkipWs(old(Rest())) && current >= old(current)
      {
        var c := source[current];
        assert c == Rest()[0];
        if IsWs(c) {
          assert Rest()[1..] == text[current + 1..];
          current := current + 1;
        } else {
          break;
        }
      }
    }

    /** Four hexadecimal digits, or -1. */
    method DecodeHex4() returns (r: int)
      requires Ok()
      modifies `current
      ensures r >= 0 <==> |old(Rest())| >= 4 && Hex4(old(Rest())[..4]).Some?
      ensures r >= 0 ==> Ok() && r == Hex4(old(Rest())[..4]).value && current == old(current) + 4
    {
      if current + 4 > source.Length {
        return -1;
      }
      ghost var h, at := Rest()[..4], current;
      r := 0;
      var i := 0;
      while i < 4
        invariant 0 <= i <= 4 && current == at + i && source[at..] == text[at..]
        invariant i >= 1 ==> HexDigit(h[0]).Some?
        invariant i >= 2 ==> HexDigit(h[1]).Some?
        invariant i >= 3 ==> HexDigit(h[2]).Some?
        invariant i >= 4 ==> HexDigit(h[3]).Some?
        invariant r == (if i == 0 then 0
                        else if i == 1 then HexDigit(h[0]).value
                        else if i == 2 then HexDigit(h[0]).value * 16 + HexDigit(h[1]).value
                        else if i == 3 then (HexDigit(h[0]).value * 16 + HexDigit(h[1]).value) * 16 + HexDigit(h[2]).value
                        else Hex4(h).value)
      {
        var c := source[current];
        assert c == source[at..][i] == h[i];
        current := current + 1;
        var d := HexDigit(c);
        if d.None? {
          return -1;
        }
        r := r * 16 + d.value;
        i := i + 1;
      }
      assert source[current..] == source[at..][4..];
    }

    /** Writes a code point's UTF-8 bytes at `at`, behind the read position. */
    method EncodeUtf8(at: nat, cp: nat) returns (n: nat)
      requires cp <= 0x10_FFFF && at + |Utf8(cp)| <= source.Length
      modifies source
      ensures n == |Utf8(cp)| && source[at..at + n] == Utf8(cp)
      ensures source[..at] == old(source[..at]) && source[at + n..] == old(source[at + n..])
    {
      if cp < 0x80 {
        source[at] := cp;
        n := 1;
      } else if cp < 0x800 {
        source[at] := 0xC0 + cp / 0x40;
        source[at + 1] := 0x80 + cp % 0x40;
        n := 2;
      } else if cp < 0x1_0000 {
        source[at] := 0xE0 + cp / 0x1000;
        source[at + 1] := 0x80 + cp / 0x40 % 0x40;
        source[at + 2] := 0x80 + cp % 0x40;
        n := 3;
      } else {
        source[at] := 0xF0 + cp / 0x4_0000;
        source[at + 1] := 0x80 + cp / 0x1000 % 0x40;
        source[at + 2] := 0x80 + cp / 0x40 % 0x40;
        source[at + 3] := 0x80 + cp % 0x40;
        n := 4;
      }
    }

    /** After `\u`: the code point, joining a surrogate pair, or -1. */
    method DecodeEscape(ghost s: Bytes) returns (cp: int)
      requires Ok() && current >= 2 && s == text[current - 2..] && s[0] == BACKSLASH && s[1] == 0x75
      modifies `current
      ensures cp >= 0 <==> PUnicode(s).Some?
      ensures cp >= 0 ==> Ok() && cp <= 0x10_FFFF && PUnicode(s) == Some(Read(Utf8(cp), Rest())) && current > old(current)
    {
      ghost var at := current - 2;
      assert |s| < 6 || Rest()[..4] == s[2..6];
      cp := DecodeHex4();
      if cp < 0 {
        return;
      }
      assert Rest() == s[6..];
      if IsHigh(cp) {
        if current + 1 >= source.Length || source[current] != BACKSLASH || source[current + 1] != 0x75 {
          assert |s| < 8 || (source[current..][0] == s[6] && source[current..][1] == s[7]);
          return -1;
        }
        assert source[current..][0] == s[6] && source[current..][1] == s[7];
        current := current + 2;
        assert source[current..] == source[current - 2..][2..];
        assert Rest() == s[8..];
        assert |s| < 12 || Rest()[..4] == s[8..12];
        var low := DecodeHex4();
        if low < 0 {
          return -1;
        }
        if !IsLow(low) {
          return -1;
        }
        assert Rest() == s[12..];
        cp := Combine(cp, low);
      } else if IsLow(cp) {
        return -1;
      }
    }

    /** Writes the bytes of a code point behind the read position. */
    method PutCode(at: nat, cp: nat) returns (n: nat)
      requires Ok() && cp <= 0x10_FFFF && at + |Utf8(cp)| <= current
      modifies source
      ensures Ok() && n == |Utf8(cp)| && source[at..at + n] == Utf8(cp) && source[..at] == old(source[..at])
    {
      hide Utf8;
      ghost var behind := at + |Utf8(cp)|;
      ghost var tail := source[behind..];
      assert source[current..] == tail[current - behind..];
      n := EncodeUtf8(at, cp);
      assert source[current..] == source[behind..][current - behind..];
    }

    /** The rest of a `\u` escape, whose first two bytes have been read. */
    method DecodeUnicode(ghost s: Bytes, at: nat) returns (ok: bool, next: nat)
      requires Ok() && current >= 2 && at <= current - 2
      requires s == text[current - 2..] && s[0] == BACKSLASH && s[1] == 0x75
      modifies `current, source
      ensures ok <==> PUnicode(s).Some?
      ensures ok ==> Ok() && at <= next <= current && current > old(current)
      ensures ok ==> PUnicode(s) == Some(Read(source[at..next], Rest()))
      ensures source[..at] == old(source[..at])
    {
      hide PUnicode, Utf8;
      var cp := DecodeEscape(s);
      if cp < 0 {
        return false, 0;
      }
      CharFits(s, Rest(), cp);
      var n := PutCode(at, cp);
      ok, next := true, at + n;
    }

    /**
     Reads one character of a string and writes what it means at `at`, which is
     never past what has been read.
     */
    method DecodeChar(at: nat) returns (ok: bool, next: nat)
      requires Ok() && at <= current && Rest() != [] && Rest()[0] != QUOTE
      modifies `current, source
      ensures ok <==> PChar(old(Rest())).Some?
      ensures ok ==> Ok() && at <= next <= current && current > old(current)
      ensures ok ==> PChar(old(Rest())) == Some(Read(source[at..next], Rest()))
      ensures source[..at] == old(source[..at])
    {
      hide PUnicode, Escaped;
      ghost var s := Rest();
      ghost var from := current;
      var c := source[current];
      assert c == s[0] == source[current..][0];
      if c == BACKSLASH {
        if current + 1 >= source.Length {
          return false, 0;
        }
        var esc := source[current + 1];
        assert esc == s[1] == source[current..][1];
        current := current + 2;
        assert source[current..] == source[from..][2..] && Rest() == s[2..];
        if esc == 0x75 {
          ok, next := DecodeUnicode(s, at);
          return ok, next;
        }
        var e := Escaped(esc);
        if e.None? {
          return false, 0;
        }
        Put(at, e.value);
        return true, at + 1;
      }
      if c < 0x20 {
        return false, 0;
      }
      current := current + 1;
      assert source[current..] == source[from..][1..] && Rest() == s[1..];
      Put(at, c);
      ok, next := true, at + 1;
    }

    method Put(at: nat, c: Byte)
      requires Ok() && at < current
      modifies source
      ensures Ok() && source[at..at + 1] == [c] && source[..at] == old(source[..at])
    {
      ghost var before := source[..];
      source[at] := c;
      assert source[..] == before[at := c];
      assert source[current..] == source[..][current..] && before[current..] == text[current..];
    }

    /** Bytes written behind a part that is kept. */
    static lemma Extended(kept: Bytes, now: Bytes, start: nat, at: nat, next: nat)
      requires start <= at <= next <= |now| && |kept| == at && now[..at] == kept
      ensures now[..start] == kept[..start]
      ensures now[start..next] == kept[start..] + now[at..next]
    {
    }

    /** Decodes a string in place; `view` is where its bytes ended up. */
    method ParseString() returns (ok: bool, view: View)
      requires Ok() && Rest() != [] && Rest()[0] == QUOTE
      modifies `current, source
      ensures ok <==> PChars(old(Rest())[1..]).Some?
      ensures ok ==> Ok() && current > old(current) && view.start == old(current) + 1 && ViewInside(view, current)
      ensures ok ==> PChars(old(Rest())[1..]) == Some(Read(source[view.start..view.start + view.len], Rest()))
      ensures source[..old(current) + 1] == old(source[..current + 1])
    {
      hide PChars;
      Peek();
      current := current + 1;
      var start, write := current, 0;
      ok, write := ParseChars();
      view := if ok then View(start, write - start) else View(0, 0);
    }

    /** The characters up to the closing quote, written back from where they begin. */
    method ParseChars() returns (ok: bool, write: nat)
      requires Ok()
      modifies `current, source
      ensures ok <==> PChars(old(Rest())).Some?
      ensures ok ==> Ok() && old(current) <= write < current
      ensures ok ==> PChars(old(Rest())) == Some(Read(source[old(current)..write], Rest()))
      ensures source[..old(current)] == old(source[..current])
    {
      hide PChar, PChars, After;
      ghost var s := Rest();
      ghost var start := current;
      write := current;
      AfterNone(PChars(s));
      assert source[start..write] == [];
      while current < source.Length
        invariant Ok() && start <= write <= current
        invariant source[..start] == old(source[..current])
        invariant PChars(s) == After(source[start..write], PChars(Rest()))
        decreases source.Length - current
      {
        ghost var kept := source[..write];
        assert source[start..write] == kept[start..];
        CharsStep(kept[start..], Rest());
        Peek();
        if source[current] == QUOTE {
          current := current + 1;
          return true, write;
        }
        ok, write := DecodeChar(write);
        if !ok {
          return false, 0;
        }
        Extended(kept, source[..], start, |kept|, write);
      }
      CharsStep(source[start..write], Rest());
      ok := false;
    }

    // ----- Numbers -----

    method ScanDigits()
      requires Ok()
      modifies `current
      ensures Ok() && Rest() == TakeDigits(old(Rest())).rest && current == old(current) + |TakeDigits(old(Rest())).v|
    {
      hide TakeDigits;
      while current < source.Length && IsDigit(source[current])
        invariant Ok() && current >= old(current)
        invariant TakeDigits(old(Rest())).rest == TakeDigits(Rest()).rest
        invariant |TakeDigits(old(Rest())).v| == current - old(current) + |TakeDigits(Rest()).v|
      {
        Peek();
        DigitsStep(Rest());
        current := current + 1;
      }
      if current < source.Length {
        Peek();
      }
      DigitsStep(Rest());
    }

    /** The byte at the read position, if it is one of two. */
    method Accept(a: Byte, b: Byte) returns (hit: bool)
      requires Ok()
      modifies `current
      ensures Ok() && (hit <==> old(Rest()) != [] && (old(Rest())[0] == a || old(Rest())[0] == b))
      ensures Rest() == if hit then old(Rest())[1..] else old(Rest())
      ensures current == if hit then old(current) + 1 else old(current)
    {
      hit := false;
      if current < source.Length {
        assert source[current] == source[current..][0] == Rest()[0];
        if source[current] == a || source[current] == b {
          assert source[current + 1..] == source[current..][1..] && text[current + 1..] == Rest()[1..];
          current := current + 1;
          hit := true;
        }
      }
    }

    method AtDigit() returns (yes: bool)
      requires Ok()
      ensures yes <==> Rest() != [] && IsDigit(Rest()[0])
    {
      assert current < source.Length ==> source[current] == source[current..][0] == Rest()[0];
      yes := current < source.Length && IsDigit(source[current]);
    }

    /** The digits a fraction or an exponent needs. */
    method NeedDigits() returns (ok: bool)
      requires Ok()
      modifies `current
      ensures ok <==> TakeDigits(old(Rest())).v != []
      ensures Ok() && Rest() == TakeDigits(old(Rest())).rest && current >= old(current)
    {
      ok := AtDigit();
      ScanDigits();
    }

    method ScanExponent(ghost n: Number) returns (ok: bool, has: bool)
      requires Ok() && n.Valid() && n.exp.None?
      modifies `current
      ensures ok <==> PExponent(n, old(Rest())).Some?
      ensures ok ==> Ok() && current >= old(current) && Rest() == PExponent(n, old(Rest())).value.rest
      ensures ok ==> var m := PExponent(n, old(Rest())).value.v; m.frac == n.frac && (has <==> m.exp.Some?)
    {
      hide Number.Valid, TakeDigits;
      has := Accept(0x65, 0x45);
      ok := true;
      if has {
        ghost var u := Rest();
        var sign := Accept(0x2B, 0x2D);
        assert Rest() == u[|Sign(u)|..];
        ok := NeedDigits();
      }
    }

    method ScanFraction(ghost n: Number) returns (ok: bool, isFloat: bool)
      requires Ok() && n.Valid() && n.frac.None? && n.exp.None?
      modifies `current
      ensures ok <==> PFraction(n, old(Rest())).Some?
      ensures ok ==> Ok() && current >= old(current) && Rest() == PFraction(n, old(Rest())).value.rest
      ensures ok ==> var m := PFraction(n, old(Rest())).value.v; isFloat <==> m.frac.Some? || m.exp.Some?
    {
      hide PExponent, TakeDigits;
      ghost var m := n;
      var dot := Accept(0x2E, 0x2E);
      if dot {
        ghost var d := TakeDigits(Rest());
        ok := NeedDigits();
        if !ok {
          return ok, true;
        }
        m := n.(frac := Some(d.v));
      }
      var exp;
      ok, exp := ScanExponent(m);
      isFloat := dot || exp;
    }

    /** Moves over a number. */
    method ScanNumber() returns (ok: bool, isFloat: bool)
      requires Ok()
      modifies `current
      ensures ok <==> PNumber(old(Rest())).Some?
      ensures ok ==> Ok() && current > old(current) && Rest() == PNumber(old(Rest())).value.rest
      ensures ok ==> var m := PNumber(old(Rest())).value.v; isFloat <==> m.frac.Some? || m.exp.Some?
    {
      hide PFraction, TakeDigits;
      ghost var s := Rest();
      isFloat := false;
      var minus := Accept(0x2D, 0x2D);
      ok := AtDigit();
      if !ok {
        return;
      }
      ghost var t := Rest();
      var zero := Accept(0x30, 0x30);
      if !zero {
        ScanDigits();
      }
      ghost var whole := if zero then Read([0x30], t[1..]) else TakeDigits(t);
      ok, isFloat := ScanFraction(Number(minus, whole.v, None, None));
    }

    /** Converts the number that starts at `start` and ends at the read position, terminated for the conversion. */
    method ConvertInt(start: nat) returns (i: int)
      requires Ok() && start <= current && source[start..current] == text[start..current]
      modifies source
      ensures source[..] == old(source[..])
      ensures i == StrToLL(text[start..current] + if current < source.Length then [0] + text[current + 1..] else [])
    {
      hide StrToLL;
      ghost var before := source[..];
      if current < source.Length {
        var saved := source[current];
        source[current] := 0;
        Terminated(before, text, start, current);
        assert source[start..] == before[current := 0][start..];
        i := StrToLL(source[start..]);
        source[current] := saved;
        assert source[..] == before;
      } else {
        assert source[start..] == text[start..current] + [];
        i := StrToLL(source[start..]);
      }
    }

    method ParseNumber() returns (ok: bool, ghost n: Node)
      requires Ok()
      modifies `current, source, dom
      ensures ok <==> PNumber(old(Rest())).Some?
      ensures ok ==> Ok() && current > old(current) && Rest() == PNumber(old(Rest())).value.rest
      ensures ok ==> Stands(n, PNumber(old(Rest())).value.v.Meaning()) && dom.Pushed(n)
      ensures source[..] == old(source[..])
    {
      hide PNumber, StrToLL, Number.Text, Number.Meaning;
      ghost var s, start := Rest(), current;
      n := NNull;
      var from := current;
      var isFloat;
      ok, isFloat := ScanNumber();
      if !ok {
        return;
      }
      ghost var num := PNumber(s).value.v;
      NumberText(s);
      assert text[start..current] == s[..current - start] == num.Text();
      assert source[start..current] == source[start..][..current - start];
      Denoted(num);
      if isFloat {
        var lexeme := source[from..current];
        n := NDouble(lexeme);
        StandOne(n, source[..], current);
        dom.PushValue(NDouble(lexeme));
      } else {
        var i := ConvertInt(from);
        IntText(num, if current < source.Length then [0] + text[current + 1..] else []);
        n := NInt(i);
        StandOne(n, source[..], current);
        dom.PushValue(NInt(i));
      }
    }

    /** The node is finished, and stands for `j` over the buffer as it is now. */
    ghost predicate Stands(n: Node, j: Json)
      reads this, source
    {
      Stand([n], [j], source[..], current)
    }

    // ----- Values -----

    /** A literal at the read position. */
    method Literal(word: Bytes) returns (ok: bool)
      requires Ok() && word != []
      modifies `current
      ensures ok <==> StartsWith(old(Rest()), word)
      ensures Ok() && Rest() == if ok then old(Rest())[|word|..] else old(Rest())
      ensures current == if ok then old(current) + |word| else old(current)
    {
      ok := current + |word| <= source.Length && source[current..current + |word|] == word;
      assert current + |word| <= source.Length ==> source[current..current + |word|] == Rest()[..|word|];
      if ok {
        assert source[current + |word|..] == source[current..][|word|..];
        assert text[current + |word|..] == Rest()[|word|..];
        current := current + |word|;
      }
    }

    /** `null`, `true` or `false`, as the first byte says. */
    method ReadWord() returns (ok: bool, node: Node)
      requires Ok() && Rest() != [] && (Rest()[0] == 0x6E || Rest()[0] == 0x74 || Rest()[0] == 0x66)
      modifies `current
      ensures ok <==> PWord(old(Rest())).Some?
      ensures ok ==> Ok() && current > old(current) && Rest() == PWord(old(Rest())).value.rest
      ensures ok ==> (node == NNull && PWord(old(Rest())).value.v == Null)
                     || (node.NBool? && PWord(old(Rest())).value.v == Bool(node.b))
    {
      hide PWord, StartsWith;
      Peek();
      WordByFirst(Rest());
      var c := source[current];
      node := if c == 0x6E then NNull else NBool(c == 0x74);
      if c == 0x6E {
        ok := Literal([0x6E, 0x75, 0x6C, 0x6C]);
      } else if c == 0x74 {
        ok := Literal([0x74, 0x72, 0x75, 0x65]);
      } else {
        ok := Literal([0x66, 0x61, 0x6C, 0x73, 0x65]);
      }
    }

    method ParseWord() returns (ok: bool, ghost n: Node)
      requires Ok() && Rest() != [] && (Rest()[0] == 0x6E || Rest()[0] == 0x74 || Rest()[0] == 0x66)
      modifies `current, dom
      ensures ok <==> PWord(old(Rest())).Some?
      ensures ok ==> Ok() && current > old(current) && Rest() == PWord(old(Rest())).value.rest
      ensures ok ==> Stands(n, PWord(old(Rest())).value.v) && dom.Pushed(n)
    {
      hide Stand, PWord;
      var node;
      ok, node := ReadWord();
      n := node;
      if ok {
        StandOne(node, source[..], current);
        dom.PushValue(node);
      }
    }

    /** One value: its node is pushed, and what earlier nodes look at is not written to. */
    method ParseValue() returns (ok: bool, ghost n: Node)
      requires Ok()
      modifies `current, source, dom
      ensures ok <==> PValue(old(Rest())).Some?
      ensures ok ==> Ok() && current > old(current) && Rest() == PValue(old(Rest())).value.rest
      ensures ok ==> Stands(n, PValue(old(Rest())).value.v) && dom.Pushed(n)
      ensures source[..old(current)] == old(source[..current])
      decreases source.Length - current, 2
    {
      hide PNumber, PChars, SkipWs, PArray, PObject, PWord, Stand;
      n := NNull;
      ghost var before := source[..current];
      SkipWhitespace();
      if current >= source.Length {
        return false, n;
      }
      var c := source[current];
      assert c == source[current..][0] == Rest()[0];
      if c == 0x6E || c == 0x74 || c == 0x66 {
        ok, n := ParseWord();
      } else if c == QUOTE {
        ok, n := ParseStringValue();
      } else if c == 0x7B {
        ok, n := ParseObject();
      } else if c == 0x5B {
        ok, n := ParseArray();
      } else if c == 0x2D || IsDigit(c) {
        ok, n := ParseNumber();
      } else {
        NotANumber(Rest());
        ok := false;
      }
      assert source[..old(current)] == before;
    }

    method ParseStringValue() returns (ok: bool, ghost n: Node)
      requires Ok() && Rest() != [] && Rest()[0] == QUOTE
      modifies `current, source, dom
      ensures ok <==> PChars(old(Rest())[1..]).Some?
      ensures ok ==> Ok() && current > old(current) && Rest() == PChars(old(Rest())[1..]).value.rest
      ensures ok ==> Stands(n, String(PChars(old(Rest())[1..]).value.v)) && dom.Pushed(n)
      ensures source[..old(current)] == old(source[..current])
    {
      hide PChars, Stand;
      ghost var from, before := current, source[..];
      var view;
      ok, view := ParseString();
      ShorterPrefix(source[..], before, from, from + 1);
      n := NString(view);
      if ok {
        StringStands(view, source[..], current);
        dom.PushValue(NString(view));
      }
    }

    /** What comes after an element: white space, then the closing bracket or a comma. */
    method Separator(close: Byte) returns (r: AfterElement)
      requires Ok() && close != 0x2C
      modifies `current
      ensures Ok() && current >= old(current)
      ensures var t := SkipWs(old(Rest()));
        r == (if t == [] then Bad else if t[0] == close then Closed else if t[0] == 0x2C then More else Bad)
        && (r != Bad ==> Rest() == t[1..])
    {
      hide SkipWs;
      SkipWhitespace();
      if current >= source.Length {
        return Bad;
      }
      var closed := Accept(close, close);
      if closed {
        return Closed;
      }
      var comma := Accept(0x2C, 0x2C);
      r := if comma then More else Bad;
    }

    /** Ends an array of `count` values above `vals`, whose last byte read is the closing bracket. */
    method CloseArray(count: nat, ghost outer: seq<nat>, ghost vals: seq<Node>, ghost ns: seq<Node>, ghost js: seq<Json>, ghost at: nat)
        returns (ghost n: Node)
      requires Ok() && at <= current && Stand(ns, js, source[..], at)
      requires dom.nesting == outer + [|vals|] && dom.values == vals + ns && count == |ns|
      modifies dom
      ensures Stands(n, Array(js)) && dom.keys == old(dom.keys) && dom.nesting == outer
      ensures if outer == [] then dom.values == vals && dom.root == Some(n) else dom.values == vals + [n] && dom.root == old(dom.root)
    {
      hide Stand;
      n := NArray(ns);
      ArrayStands(ns, js, source[..], at, current);
      TakeDrop(vals, ns);
      TakeDrop(outer, [|vals|]);
      dom.OnEndArray(count);
    }

    /** Ends an object of `count` fields above `vals` and `names`. */
    method CloseObject(count: nat, ghost outer: seq<nat>, ghost vals: seq<Node>, ghost names: seq<View>,
                       ghost vs: seq<Node>, ghost ks: seq<View>, ghost ms: seq<Member>, ghost at: nat)
        returns (ghost n: Node)
      requires Ok() && at <= current && StandMembers(ks, vs, ms, source[..], at)
      requires dom.nesting == outer + [|vals|] && dom.values == vals + vs && dom.keys == names + ks && count == |vs|
      modifies dom
      ensures Stands(n, Object(ms)) && dom.keys == names && dom.nesting == outer
      ensures if outer == [] then dom.values == vals && dom.root == Some(n) else dom.values == vals + [n] && dom.root == old(dom.root)
    {
      assert |ks| == |vs|;
      hide Stand, StandMembers;
      n := NObject(Zip(ks, vs));
      ObjectStands(ks, vs, ms, source[..], at, current);
      TakeDrop(vals, vs);
      TakeDrop(names, ks);
      TakeDrop(outer, [|vals|]);
      dom.OnEndObject(count);
    }

    method CloseEmptyArray(ghost outer: seq<nat>, ghost vals: seq<Node>) returns (ghost n: Node)
      requires Ok() && dom.nesting == outer + [|vals|] && dom.values == vals
      modifies dom
      ensures Stands(n, Array([])) && dom.keys == old(dom.keys) && dom.nesting == outer
      ensures if outer == [] then dom.values == vals && dom.root == Some(n) else dom.values == vals + [n] && dom.root == old(dom.root)
    {
      hide Stand;
      StandNone(source[..], current);
      NoMore(vals);
      n := CloseArray(0, outer, vals, [], [], current);
    }

    method CloseEmptyObject(ghost outer: seq<nat>, ghost vals: seq<Node>, ghost names: seq<View>) returns (ghost n: Node)
      requires Ok() && dom.nesting == outer + [|vals|] && dom.values == vals && dom.keys == names
      modifies dom
      ensures Stands(n, Object([])) && dom.keys == names && dom.nesting == outer
      ensures if outer == [] then dom.values == vals && dom.root == Some(n) else dom.values == vals + [n] && dom.root == old(dom.root)
    {
      hide Stand, StandMembers;
      StandMembersNone(source[..], current);
      NoMore(vals);
      NoMore(names);
      n := CloseObject(0, outer, vals, names, [], [], [], current);
    }

    method ParseArray() returns (ok: bool, ghost n: Node)
      requires Ok() && Rest() != [] && Rest()[0] == 0x5B
      modifies `current, source, dom
      ensures ok <==> PArray(old(Rest())[1..]).Some?
      ensures ok ==> Ok() && current > old(current) && Rest() == PArray(old(Rest())[1..]).value.rest
      ensures ok ==> Stands(n, PArray(old(Rest())[1..]).value.v) && dom.Pushed(n)
      ensures source[..old(current)] == old(source[..current])
      decreases source.Length - current, 1
    {
      hide PArray, PItems, SkipWs, Stand;
      n := NArray([]);
      ArrayBegins(Rest()[1..]);
      ghost var before, vals := source[..], dom.values;
      var open := Accept(0x5B, 0x5B);
      dom.OnStart();
      SkipWhitespace();
      var close := Accept(0x5D, 0x5D);
      if close {
        n := CloseEmptyArray(old(dom.nesting), vals);
        return true, n;
      }
      ghost var from := current;
      ok, n := ParseItems(old(dom.nesting), vals);
      ShorterPrefix(source[..], before, old(current), from);
    }

    /** The items of an array just opened above `vals`, up to its closing bracket. */
    method ParseItems(ghost outer: seq<nat>, ghost vals: seq<Node>) returns (ok: bool, ghost n: Node)
      requires Ok() && dom.nesting == outer + [|vals|] && dom.values == vals
      modifies `current, source, dom
      ensures ok <==> PItems(old(Rest())).Some?
      ensures ok ==> Ok() && current > old(current) && Rest() == PItems(old(Rest())).value.rest
      ensures ok ==> Stands(n, Array(PItems(old(Rest())).value.v)) && dom.keys == old(dom.keys) && dom.nesting == outer
      ensures ok ==> if outer == [] then dom.values == vals && dom.root == Some(n) else dom.values == vals + [n] && dom.root == old(dom.root)
      ensures source[..old(current)] == old(source[..current])
      decreases source.Length - current, 3
    {
      hide PItems, SkipWs, PValue, Stand, ItemsAfter;
      n := NArray([]);
      ghost var a, ns, js := Rest(), [], [];
      var count := 0;
      ItemsNone(PItems(a));
      StandNone(source[..], current);
      NoMore(vals);
      while true
        invariant Ok() && current >= old(current)
        invariant dom.nesting == outer + [|vals|] && dom.values == vals + ns
        invariant dom.keys == old(dom.keys) && dom.root == old(dom.root)
        invariant count == |ns| && Stand(ns, js, source[..], current)
        invariant PItems(a) == ItemsAfter(js, PItems(Rest()))
        invariant source[..old(current)] == old(source[..current])
        decreases source.Length - current
      {
        ItemsStep(js, Rest());
        ghost var s, kept, at := Rest(), source[..], current;
        ghost var v;
        ok, v := ParseValue();
        if !ok {
          return;
        }
        assert source[..old(current)] == source[..at][..old(current)] == kept[..old(current)];
        ghost var j := PValue(s).value.v;
        StandMore(ns, js, kept, at, v, j, source[..], current);
        Assoc(vals, ns, [v]);
        ns, js, at := ns + [v], js + [j], current;
        count := count + 1;
        var sep := Separator(0x5D);
        if sep == Closed {
          n := CloseArray(count, outer, vals, ns, js, at);
          return true, n;
        }
        if sep == Bad {
          return false, n;
        }
        StandSame(ns, js, source[..], source[..], at, current);
      }
    }

    /** The key of a field and its colon. */
    method ParseKey() returns (ok: bool, key: View)
      requires Ok()
      modifies `current, source, dom
      ensures ok <==> PKey(old(Rest())).Some?
      ensures ok ==> Ok() && current > old(current) && Rest() == PKey(old(Rest())).value.rest
      ensures ok ==> ViewInside(key, current) && Slice(key, source[..]) == PKey(old(Rest())).value.v
      ensures ok ==> dom.keys == old(dom.keys) + [key]
      ensures dom.values == old(dom.values) && dom.nesting == old(dom.nesting) && dom.root == old(dom.root)
      ensures source[..old(current)] == old(source[..current])
    {
      hide PChars, SkipWs;
      key := View(0, 0);
      SkipWhitespace();
      if current >= source.Length {
        return false, key;
      }
      assert source[current] == source[current..][0] == Rest()[0];
      if source[current] != QUOTE {
        return false, key;
      }
      ghost var mark := source[..current + 1];
      ok, key := ParseString();
      assert source[..old(current)] == mark[..old(current)];
      if !ok {
        return;
      }
      dom.OnKey(key);
      SkipWhitespace();
      ok := Accept(0x3A, 0x3A);
    }

    /** One `key : value` of an object. */
    method ParseField() returns (ok: bool, ghost k: View, ghost n: Node)
      requires Ok() && dom.nesting != []
      modifies `current, source, dom
      ensures ok <==> PField(old(Rest())).Some?
      ensures ok ==> Ok() && current > old(current) && Rest() == PField(old(Rest())).value.rest
      ensures ok ==> Stands(n, PField(old(Rest())).value.v.value)
      ensures ok ==> ViewInside(k, current) && Slice(k, source[..]) == PField(old(Rest())).value.v.key
      ensures ok ==> dom.keys == old(dom.keys) + [k] && dom.values == old(dom.values) + [n]
      ensures ok ==> dom.nesting == old(dom.nesting) && dom.root == old(dom.root)
      ensures source[..old(current)] == old(source[..current])
      decreases source.Length - current, 1
    {
      hide PKey, PValue, Stand;
      n := NNull;
      ghost var before := source[..current];
      var key;
      ok, key := ParseKey();
      k := key;
      if !ok {
        return;
      }
      ghost var kept, at := source[..], current;
      ok, n := ParseValue();
      assert source[..at] == kept[..at];
      assert source[..old(current)] == source[..at][..old(current)] == kept[..old(current)] == before;
      SliceSame(key, kept, source[..], at);
    }

    method ParseObject() returns (ok: bool, ghost n: Node)
      requires Ok() && Rest() != [] && Rest()[0] == 0x7B
      modifies `current, source, dom
      ensures ok <==> PObject(old(Rest())[1..]).Some?
      ensures ok ==> Ok() && current > old(current) && Rest() == PObject(old(Rest())[1..]).value.rest
      ensures ok ==> Stands(n, PObject(old(Rest())[1..]).value.v) && dom.Pushed(n)
      ensures source[..old(current)] == old(source[..current])
      decreases source.Length - current, 1
    {
      hide PObject, PFields, SkipWs, Stand;
      n := NObject([]);
      ObjectBegins(Rest()[1..]);
      ghost var before, vals, names := source[..], dom.values, dom.keys;
      var open := Accept(0x7B, 0x7B);
      dom.OnStart();
      SkipWhitespace();
      var close := Accept(0x7D, 0x7D);
      if close {
        n := CloseEmptyObject(old(dom.nesting), vals, names);
        return true, n;
      }
      ghost var from := current;
      ok, n := ParseFields(old(dom.nesting), vals, names);
      ShorterPrefix(source[..], before, old(current), from);
    }

    /** The fields of an object just opened above `vals` and `names`, up to its closing brace. */
    method ParseFields(ghost outer: seq<nat>, ghost vals: seq<Node>, ghost names: seq<View>) returns (ok: bool, ghost n: Node)
      requires Ok() && dom.nesting == outer + [|vals|] && dom.values == vals && dom.keys == names
      modifies `current, source, dom
      ensures ok <==> PFields(old(Rest())).Some?
      ensures ok ==> Ok() && current > old(current) && Rest() == PFields(old(Rest())).value.rest
      ensures ok ==> Stands(n, Object(PFields(old(Rest())).value.v)) && dom.keys == names && dom.nesting == outer
      ensures ok ==> if outer == [] then dom.values == vals && dom.root == Some(n) else dom.values == vals + [n] && dom.root == old(dom.root)
      ensures source[..old(current)] == old(source[..current])
      decreases source.Length - current, 3
    {
      hide PFields, PField, SkipWs, Stand, StandMembers, ItemsAfter, ViewInside, Slice;
      n := NObject([]);
      ghost var a, ks, vs, ms := Rest(), [], [], [];
      var count := 0;
      ItemsNone(PFields(a));
      StandMembersNone(source[..], current);
      NoMore(vals);
      NoMore(names);
      while true
        invariant Ok() && current >= old(current)
        invariant dom.nesting == outer + [|vals|] && dom.values == vals + vs
        invariant dom.keys == names + ks && dom.root == old(dom.root)
        invariant count == |ks| == |vs| && StandMembers(ks, vs, ms, source[..], current)
        invariant PFields(a) == ItemsAfter(ms, PFields(Rest()))
        invariant source[..old(current)] == old(source[..current])
        decreases source.Length - current
      {
        FieldsStep(ms, Rest());
        ghost var s, kept, at := Rest(), source[..], current;
        ghost var k, v;
        ok, k, v := ParseField();
        if !ok {
          return;
        }
        assert source[..old(current)] == source[..at][..old(current)] == kept[..old(current)];
        ghost var m := PField(s).value.v;
        StandMembersMore(ks, vs, ms, kept, at, k, v, m, source[..], current);
        Assoc(vals, vs, [v]);
        Assoc(names, ks, [k]);
        ks, vs, ms, at := ks + [k], vs + [v], ms + [m], current;
        count := count + 1;
        var sep := Separator(0x7D);
        if sep == Closed {
          n := CloseObject(count, outer, vals, names, vs, ks, ms, at);
          return true, n;
        }
        if sep == Bad {
          return false, n;
        }
        StandMembersSame(ks, vs, ms, source[..], source[..], at, current);
      }
    }

    /** A whole text. */
    method Parse() returns (ok: bool)
      requires Ok() && current == 0 && dom.nesting == []
      modifies `current, source, dom
      ensures ok <==> PText(text).Some?
      ensures ok ==> dom.root.Some? && Inside(dom.root.value, source.Length)
      ensures ok ==> Resolve(dom.root.value, source[..]) == PText(text).value
      ensures ok ==> dom.values == old(dom.values) && dom.keys == old(dom.keys) && dom.nesting == []
    {
      hide SkipWs, PValue, Stand, Resolve, Inside;
      assert Rest() == text;
      SkipWsTwice(text);
      SkipWhitespace();
      if current >= source.Length {
        NoValue(text);
        return false;
      }
      ghost var s := Rest();
      ghost var n;
      ok, n := ParseValue();
      if !ok {
        return;
      }
      StandsResolves(n, PValue(s).value.v, source[..], current);
      SkipWhitespace();
      ok := current >= source.Length;
    }
  }

  lemma DigitsStep(s: Bytes)
    ensures s != [] && IsDigit(s[0]) ==>
      TakeDigits(s).rest == TakeDigits(s[1..]).rest && |TakeDigits(s).v| == 1 + |TakeDigits(s[1..]).v|
    ensures s == [] || !IsDigit(s[0]) ==> TakeDigits(s) == Read([], s)
  {
  }

  lemma ArrayBegins(s: Bytes)
    ensures var t := SkipWs(s);
            if t != [] && t[0] == 0x5D then PArray(s) == Some(Read(Array([]), t[1..]))
            else if PItems(t).None? then PArray(s) == None
            else PArray(s) == Some(Read(Array(PItems(t).value.v), PItems(t).value.rest))
  {
    hide PItems, SkipWs;
  }

  lemma ObjectBegins(s: Bytes)
    ensures var t := SkipWs(s);
            if t != [] && t[0] == 0x7D then PObject(s) == Some(Read(Object([]), t[1..]))
            else if PFields(t).None? then PObject(s) == None
            else PObject(s) == Some(Read(Object(PFields(t).value.v), PFields(t).value.rest))
  {
    hide PFields, SkipWs;
  }

  lemma ShorterPrefix(a: Bytes, b: Bytes, n: nat, m: nat)
    requires n <= m <= |a| && m <= |b| && a[..m] == b[..m]
    ensures a[..n] == b[..n]
  {
    assert a[..n] == a[..m][..n] && b[..n] == b[..m][..n];
  }

  lemma StandsResolves(n: Node, j: Json, buf: Bytes, hi: nat)
    requires Stand([n], [j], buf, hi)
    ensures Inside(n, |buf|) && Resolve(n, buf) == j
  {
    assert n in [n] && [n][..0] == [];
    assert ResolveAll([n], buf)[0] == Resolve(n, buf);
  }

  /** A view of the buffer stands for the string it shows. */
  lemma StringStands(view: View, buf: Bytes, hi: nat)
    requires ViewInside(view, hi) && hi <= |buf|
    ensures Stand([NString(view)], [String(buf[view.start..view.start + view.len])], buf, hi)
  {
    StandOne(NString(view), buf, hi);
  }

  lemma TakeDrop<T>(a: seq<T>, b: seq<T>)
    ensures (a + b)[..|a|] == a && (a + b)[|a|..] == b
  {
  }

  lemma NoValue(s: Bytes)
    requires SkipWs(s) == []
    ensures PValue(s).None?
  {
  }

  lemma ArrayStands(ns: seq<Node>, js: seq<Json>, buf: Bytes, lo: nat, hi: nat)
    requires Stand(ns, js, buf, lo) && lo <= hi <= |buf|
    ensures Stand([NArray(ns)], [Array(js)], buf, hi)
  {
    StandSame(ns, js, buf, buf, lo, hi);
    StandOne(NArray(ns), buf, hi);
  }

  lemma ObjectStands(ks: seq<View>, vs: seq<Node>, ms: seq<Member>, buf: Bytes, lo: nat, hi: nat)
    requires StandMembers(ks, vs, ms, buf, lo) && lo <= hi <= |buf|
    ensures Stand([NObject(Zip(ks, vs))], [Object(ms)], buf, hi)
  {
    StandMembersSame(ks, vs, ms, buf, buf, lo, hi);
    StandOne(NObject(Zip(ks, vs)), buf, hi);
  }

  /** How the fields of an object go on from `s`, or end. */
  lemma FieldsStep(front: seq<Member>, s: Bytes)
    ensures PField(s).None? ==> ItemsAfter(front, PFields(s)) == None
    ensures PField(s).Some? ==>
      var m, t := PField(s).value.v, SkipWs(PField(s).value.rest);
      ItemsAfter(front, PFields(s)) ==
        if t == [] then None
        else if t[0] == 0x7D then Some(Read(front + [m], t[1..]))
        else if t[0] != 0x2C then None
        else ItemsAfter(front + [m], PFields(t[1..]))
  {
    if PField(s).Some? {
      var m, t := PField(s).value.v, SkipWs(PField(s).value.rest);
      if t != [] && t[0] == 0x2C && PFields(t[1..]).Some? {
        Assoc(front, [m], PFields(t[1..]).value.v);
      }
    }
  }

  /** Items already read, in front of what the rest reads as. */
  ghost function ItemsAfter<T>(front: seq<T>, r: Parsed<seq<T>>): Parsed<seq<T>> {
    if r.None? then None else Some(Read(front + r.value.v, r.value.rest))
  }

  lemma ItemsNone<T>(r: Parsed<seq<T>>)
    ensures ItemsAfter([], r) == r
  {
    if r.Some? {
      assert [] + r.value.v == r.value.v;
    }
  }

  /** How the items of an array go on from `s`, or end. */
  lemma ItemsStep(front: seq<Json>, s: Bytes)
    ensures PValue(s).None? ==> ItemsAfter(front, PItems(s)) == None
    ensures PValue(s).Some? ==>
      var v, t := PValue(s).value.v, SkipWs(PValue(s).value.rest);
      ItemsAfter(front, PItems(s)) ==
        if t == [] then None
        else if t[0] == 0x5D then Some(Read(front + [v], t[1..]))
        else if t[0] != 0x2C then None
        else ItemsAfter(front + [v], PItems(t[1..]))
  {
    if PValue(s).Some? {
      var v, t := PValue(s).value.v, SkipWs(PValue(s).value.rest);
      if t != [] && t[0] == 0x2C && PItems(t[1..]).Some? {
        Assoc(front, [v], PItems(t[1..]).value.v);
      }
    }
  }

  lemma NotANumber(s: Bytes)
    requires s != [] && s[0] != 0x2D && !IsDigit(s[0])
    ensures PNumber(s).None?
  {
  }

  /** The buffer from `start` on, with a terminator in place of the byte at `end`. */
  lemma Terminated(buf: Bytes, text: Bytes, start: nat, end: nat)
    requires start <= end < |buf| == |text| && buf[start..end] == text[start..end] && buf[end..] == text[end..]
    ensures buf[end := 0][start..] == text[start..end] + ([0] + text[end + 1..])
  {
    assert buf[end + 1..] == buf[end..][1..] && text[end + 1..] == text[end..][1..];
    assert buf[end := 0] == buf[..end] + ([0] + buf[end + 1..]);
    assert (buf[..end] + ([0] + buf[end + 1..]))[start..] == buf[start..end] + ([0] + buf[end + 1..]);
  }

  /** What `strtoll` reads: an optional minus and the digits after it, saturated to 64 bits. */
  function StrToLL(s: Bytes): int {
    var minus := s != [] && s[0] == 0x2D;
    var d := TakeDigits(if minus then s[1..] else s).v;
    Clamp(if minus then -(Decimal(d) as int) else Decimal(d))
  }

  lemma Denoted(n: Number)
    requires n.Valid()
    ensures n.frac.Some? || n.exp.Some? ==> n.Meaning() == Double(n.Text())
  {
  }

  lemma FirstDigit(whole: Bytes)
    requires Digits(whole) && whole != []
    ensures IsDigit(whole[0])
  {
    assert whole[0] in whole;
  }

  lemma ReadInt(minus: bool, whole: Bytes, tail: Bytes)
    requires Digits(whole) && whole != [] && (tail == [] || !IsDigit(tail[0]))
    ensures StrToLL((if minus then [0x2D] else []) + (whole + tail))
         == Clamp(if minus then -(Decimal(whole) as int) else Decimal(whole))
  {
    hide Decimal, Clamp, TakeDigits, Digits;
    var t := whole + tail;
    FirstDigit(whole);
    DigitsWritten(whole, tail);
    assert t[0] == whole[0];
    if minus {
      assert ([0x2D] + t)[0] == 0x2D && ([0x2D] + t)[1..] == t;
    } else {
      assert [] + t == t;
    }
  }

  /** The conversion of an integer as written is what it means. */
  lemma IntText(n: Number, tail: Bytes)
    requires n.Valid() && n.frac.None? && n.exp.None?
    requires tail == [] || !IsDigit(tail[0])
    ensures n.Meaning() == Int(StrToLL(n.Text() + tail))
  {
    hide StrToLL, Decimal, Clamp;
    NoMore(n.IntText());
    Assoc(if n.minus then [0x2D] else [], n.whole, tail);
    ReadInt(n.minus, n.whole, tail);
  }

  /** A decoded escape is never longer than its spelling. */
  lemma CharFits(s: Bytes, rest: Bytes, cp: nat)
    requires |s| >= 2 && cp <= 0x10_FFFF && PUnicode(s) == Some(Read(Utf8(cp), rest))
    ensures |Utf8(cp)| + |rest| <= |s|
  {
  }

  /** The first byte says which word it can be. */
  lemma WordByFirst(t: Bytes)
    requires t != []
    ensures t[0] == 0x6E ==> PWord(t) == if StartsWith(t, [0x6E, 0x75, 0x6C, 0x6C]) then Some(Read(Null, t[4..])) else None
    ensures t[0] == 0x74 ==> PWord(t) == if StartsWith(t, [0x74, 0x72, 0x75, 0x65]) then Some(Read(Bool(true), t[4..])) else None
    ensures t[0] == 0x66 ==> PWord(t) == if StartsWith(t, [0x66, 0x61, 0x6C, 0x73, 0x65]) then Some(Read(Bool(false), t[5..])) else None
    ensures StartsWith(t, [0x6E, 0x75, 0x6C, 0x6C]) || StartsWith(t, [0x74, 0x72, 0x75, 0x65]) ==> |t| >= 4
    ensures StartsWith(t, [0x66, 0x61, 0x6C, 0x73, 0x65]) ==> |t| >= 5
  {
  }

  /** How the decoding of a string goes on after one character, or ends. */
  lemma CharsStep(front: Bytes, s: Bytes)
    ensures s == [] ==> After(front, PChars(s)) == None
    ensures s != [] && s[0] == QUOTE ==> After(front, PChars(s)) == Some(Read(front, s[1..]))
    ensures s != [] && s[0] != QUOTE && PChar(s).None? ==> After(front, PChars(s)) == None
    ensures s != [] && s[0] != QUOTE && PChar(s).Some? ==>
      After(front, PChars(s)) == After(front + PChar(s).value.v, PChars(PChar(s).value.rest))
  {
    NoMore(front);
    if s != [] && s[0] != QUOTE && PChar(s).Some? {
      AfterMore(front, PChar(s).value.v, PChars(PChar(s).value.rest));
    }
  }

  lemma AfterNone(r: Parsed<Bytes>)
    ensures After([], r) == r
  {
    if r.Some? {
      assert [] + r.value.v == r.value.v;
    }
  }

  lemma AfterMore(a: Bytes, b: Bytes, r: Parsed<Bytes>)
    ensures After(a, After(b, r)) == After(a + b, r)
  {
    if r.Some? {
      Assoc(a, b, r.value.v);
    }
  }
}
