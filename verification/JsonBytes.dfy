/**
 JSON texts byte by byte: what the escapes, the white space, the names and the
 numbers of a text are read as, and how a tree is written, on the bytes themselves.
 */
module JsonBytes {
  import opened Prelude
  import opened JsonText
  import opened JsonParse
  import opened JsonGrammar
  import opened JsonWriter

  const LOWER: string := "0123456789abcdef"
  const UPPER: string := "0123456789ABCDEF"

  /** The bytes of an ASCII text. */
  function Ascii(s: string): (b: Bytes)
    requires forall i :: 0 <= i < |s| ==> s[i] < 128 as char
    ensures |b| == |s| && forall i :: 0 <= i < |s| ==> b[i] == s[i] as int
  {
    seq(|s|, i requires 0 <= i < |s| => s[i] as int)
  }

  // ----- Hexadecimal digits -----

  predicate WritesDigit(c: Byte, d: nat) {
    d < 16 && (c == LOWER[d] as int || c == UPPER[d] as int)
  }

  /** `h` is `v` in four hexadecimal digits of either case. */
  predicate WritesHex(h: Bytes, v: nat) {
    && |h| == 4 && v < 0x1_0000
    && WritesDigit(h[0], v / 0x1000) && WritesDigit(h[1], v / 0x100 % 0x10)
    && WritesDigit(h[2], v / 0x10 % 0x10) && WritesDigit(h[3], v % 0x10)
  }

  lemma DigitRead(c: Byte, d: nat)
    requires WritesDigit(c, d)
    ensures HexDigit(c) == Some(d)
  {
    assert forall i :: 0 <= i < 10 ==> LOWER[i] == UPPER[i] == '0' + i as char;
    assert forall i :: 10 <= i < 16 ==> LOWER[i] == 'a' + (i - 10) as char && UPPER[i] == 'A' + (i - 10) as char;
  }

  lemma Nibble(v: nat)
    ensures v == v / 0x10 * 0x10 + v % 0x10
    ensures v / 0x10 / 0x10 == v / 0x100 && v / 0x100 / 0x10 == v / 0x1000
  {
  }

  lemma Nibbles(v: nat)
    ensures v == ((v / 0x1000 * 0x10 + v / 0x100 % 0x10) * 0x10 + v / 0x10 % 0x10) * 0x10 + v % 0x10
  {
    Nibble(v);
    Nibble(v / 0x10);
    Nibble(v / 0x100);
  }

  lemma HexRead(h: Bytes, v: nat)
    requires WritesHex(h, v)
    ensures |h| == 4 && Hex4(h) == Some(v)
  {
    hide WritesDigit, HexDigit;
    DigitRead(h[0], v / 0x1000);
    DigitRead(h[1], v / 0x100 % 0x10);
    DigitRead(h[2], v / 0x10 % 0x10);
    DigitRead(h[3], v % 0x10);
    Nibbles(v);
  }

  // ----- Characters inside a string -----

  /** What reading goes on to, after characters that mean `u`. */
  function Prefixed(u: Bytes, r: Parsed<Bytes>): Parsed<Bytes> {
    if r.None? then None else Some(Read(u + r.value.v, r.value.rest))
  }

  lemma CharThen(c: Char, s: Bytes)
    requires c.Valid()
    ensures PChars(c.Text() + s) == Prefixed(c.Meaning(), PChars(s))
  {
    CharWritten(c, s);
  }

  /** The two escapes of a character's UTF-16 form, in digits of either case, are read as that character. */
  lemma PairRead(cp: nat, h: Bytes, l: Bytes, s: Bytes) returns (u: Bytes)
    requires 0x1_0000 <= cp <= 0x10_FFFF
    requires WritesHex(h, 0xD800 + (cp - 0x1_0000) / 0x400) && WritesHex(l, 0xDC00 + (cp - 0x1_0000) % 0x400)
    ensures PChars([0x5C, 0x75] + h + [0x5C, 0x75] + l + s) == Prefixed(u, PChars(s))
    ensures DecodeUtf8(u) == Some(cp)
  {
    hide Hex4, Utf8, DecodeUtf8, PChars, WritesHex, Combine;
    HexRead(h, 0xD800 + (cp - 0x1_0000) / 0x400);
    HexRead(l, 0xDC00 + (cp - 0x1_0000) % 0x400);
    Halves(cp);
    var c := Char.Pair(h, l);
    CharThen(c, s);
    u := c.Meaning();
    Utf8Decodes(cp);
  }

  lemma Halves(cp: nat)
    requires 0x1_0000 <= cp <= 0x10_FFFF
    ensures var high, low := 0xD800 + (cp - 0x1_0000) / 0x400, 0xDC00 + (cp - 0x1_0000) % 0x400;
            IsHigh(high) && IsLow(low) && Combine(high, low) == cp
  {
    var n := cp - 0x1_0000;
    assert n == n / 0x400 * 0x400 + n % 0x400;
  }

  /** One escape is read as its code point; a surrogate on its own is not read at all. */
  lemma UnicodeRead(cp: nat, h: Bytes, s: Bytes) returns (u: Bytes)
    requires WritesHex(h, cp) && !(0xD800 <= cp <= 0xDFFF)
    ensures PChars([0x5C, 0x75] + h + s) == Prefixed(u, PChars(s))
    ensures DecodeUtf8(u) == Some(cp)
  {
    hide Hex4, Utf8, DecodeUtf8, PChars;
    HexRead(h, cp);
    var c := Unicode(h);
    CharThen(c, s);
    u := c.Meaning();
    Utf8Decodes(cp);
  }

  lemma LoneSurrogate(cp: nat, h: Bytes, s: Bytes)
    requires WritesHex(h, cp) && 0xD800 <= cp <= 0xDFFF
    requires cp <= 0xDBFF ==> |s| < 2 || s[0] != 0x5C || s[1] != 0x75
    ensures PChars([0x5C, 0x75] + h + s) == None
  {
    HexRead(h, cp);
    var t := [0x5C, 0x75] + h + s;
    assert t[2..6] == h && t[6..] == s;
    assert |s| >= 2 ==> t[6] == s[0] && t[7] == s[1];
  }

  /** The letter of a short escape decides what it is read as, and no other letter is one. */
  lemma EscapeRead(e: Byte, s: Bytes)
    requires e != 0x75
    ensures PChars([0x5C, e] + s) ==
            if e == 0x22 then Prefixed([0x22], PChars(s))
            else if e == 0x5C then Prefixed([0x5C], PChars(s))
            else if e == 0x2F then Prefixed([0x2F], PChars(s))
            else if e == 0x62 then Prefixed([0x08], PChars(s))
            else if e == 0x66 then Prefixed([0x0C], PChars(s))
            else if e == 0x6E then Prefixed([0x0A], PChars(s))
            else if e == 0x72 then Prefixed([0x0D], PChars(s))
            else if e == 0x74 then Prefixed([0x09], PChars(s))
            else None
  {
    assert ([0x5C, e] + s)[2..] == s;
  }

  /** A byte from 0x20 on stands for itself, a lower one is refused, and a quotation mark ends the string. */
  lemma ByteRead(c: Byte, s: Bytes)
    requires c != 0x5C
    ensures PChars([c] + s) == if c == 0x22 then Some(Read([], s)) else if c < 0x20 then None else Prefixed([c], PChars(s))
  {
    assert ([c] + s)[1..] == s;
  }

  /** A string as a whole text. */
  lemma StringText(body: Bytes)
    ensures PText([0x22] + body) == match PChars(body)
                                    case None => None
                                    case Some(r) => if SkipWs(r.rest) == [] then Some(String(r.v)) else None
  {
    hide PChars;
    assert ([0x22] + body)[1..] == body;
    assert SkipWs([0x22] + body) == [0x22] + body;
  }

  lemma Radix(a: nat, b: nat, c: nat, d: nat)
    requires b < 0x40 && c < 0x40 && d < 0x40
    ensures var n := ((a * 0x40 + b) * 0x40 + c) * 0x40 + d;
            n % 0x40 == d && n / 0x40 % 0x40 == c && n / 0x1000 % 0x40 == b && n / 0x4_0000 == a
  {
  }

  /** A code point has only one well-formed encoding. */
  lemma Utf8Unique(u: Bytes, v: Bytes)
    requires DecodeUtf8(u).Some? && DecodeUtf8(u) == DecodeUtf8(v)
    ensures u == v
  {
    Utf8Only(u);
    Utf8Only(v);
  }

  lemma Utf8Only(u: Bytes)
    requires DecodeUtf8(u).Some?
    ensures 0 <= DecodeUtf8(u).value <= 0x10_FFFF && Utf8(DecodeUtf8(u).value) == u
  {
    if |u| == 2 {
      TwoOnly(u);
    } else if |u| == 3 {
      ThreeOnly(u);
    } else if |u| == 4 {
      FourOnly(u);
    }
  }

  lemma TwoOnly(u: Bytes)
    requires |u| == 2 && DecodeUtf8(u).Some?
    ensures 0x80 <= DecodeUtf8(u).value < 0x800 && Utf8(DecodeUtf8(u).value) == u
  {
    Radix(0, 0, u[0] - 0xC0, u[1] - 0x80);
  }

  lemma ThreeOnly(u: Bytes)
    requires |u| == 3 && DecodeUtf8(u).Some?
    ensures 0x800 <= DecodeUtf8(u).value < 0x1_0000 && Utf8(DecodeUtf8(u).value) == u
  {
    Radix(0, u[0] - 0xE0, u[1] - 0x80, u[2] - 0x80);
  }

  lemma FourOnly(u: Bytes)
    requires |u| == 4 && DecodeUtf8(u).Some?
    ensures 0x1_0000 <= DecodeUtf8(u).value <= 0x10_FFFF && Utf8(DecodeUtf8(u).value) == u
  {
    Radix(u[0] - 0xF0, u[1] - 0x80, u[2] - 0x80, u[3] - 0x80);
  }

  lemma EmojiBytes()
    ensures DecodeUtf8([0xF0, 0x9F, 0x98, 0x80]) == Some(0x1_F600)
    ensures DecodeUtf8([0xE2, 0x82, 0xAC]) == Some(0x20AC)
    ensures DecodeUtf8([0xC3, 0xA9]) == Some(0xE9)
  {
  }

  lemma EndOfText(u: Bytes, body: Bytes)
    requires PChars(body) == Prefixed(u, PChars([0x22]))
    ensures PText([0x22] + body) == Some(String(u))
  {
    hide PText;
    StringText(body);
    ByteRead(0x22, []);
    assert [0x22] + [] == [0x22];
    assert u + [] == u;
  }

  lemma EmojiDigits()
    ensures WritesHex(Ascii("d83d"), 0xD83D) && WritesHex(Ascii("DE00"), 0xDE00)
  {
  }

  lemma EmojiText()
    ensures Ascii("\"\\ud83d\\uDE00\"") == [0x22] + ([0x5C, 0x75] + Ascii("d83d") + [0x5C, 0x75] + Ascii("DE00") + [0x22])
  {
  }

  /** U+1F600 written as its pair of escapes is read as its four bytes. */
  lemma Emoji()
    ensures PText(Ascii("\"\\ud83d\\uDE00\"")) == Some(String([0xF0, 0x9F, 0x98, 0x80]))
  {
    hide PChars, PText, DecodeUtf8, WritesHex;
    EmojiText();
    EmojiDigits();
    var h, l := Ascii("d83d"), Ascii("DE00");
    var u := PairRead(0x1_F600, h, l, [0x22]);
    var body := [0x5C, 0x75] + h + [0x5C, 0x75] + l + [0x22];
    EndOfText(u, body);
    EmojiBytes();
    Utf8Unique(u, [0xF0, 0x9F, 0x98, 0x80]);
  }

  // ----- White space and names -----

  /** Four bytes are white space, in front of a value and behind it, and no others are. */
  lemma SpaceRead(c: Byte, s: Bytes)
    ensures c in {0x20, 0x09, 0x0A, 0x0D} ==> PText([c] + s) == PText(s)
    ensures PText([0x6E, 0x75, 0x6C, 0x6C, c]) == if c in {0x20, 0x09, 0x0A, 0x0D} then Some(Null) else None
  {
    assert ([c] + s)[1..] == s;
    var t := [0x6E, 0x75, 0x6C, 0x6C, c];
    assert t[..4] == [0x6E, 0x75, 0x6C, 0x6C] && t[4..] == [c];
    assert [c][1..] == [];
  }

  lemma NamesRead()
    ensures PText([0x6E, 0x75, 0x6C, 0x6C]) == Some(Null)
    ensures PText([0x74, 0x72, 0x75, 0x65]) == Some(Bool(true))
    ensures PText([0x66, 0x61, 0x6C, 0x73, 0x65]) == Some(Bool(false))
  {
    var n, t, f: Bytes := [0x6E, 0x75, 0x6C, 0x6C], [0x74, 0x72, 0x75, 0x65], [0x66, 0x61, 0x6C, 0x73, 0x65];
    assert n[..4] == n && t[..4] == t && f[..5] == f;
    assert n[4..] == [] && t[4..] == [] && f[5..] == [];
    assert SkipWs(n) == n && SkipWs(t) == t && SkipWs(f) == f;
  }

  // ----- Numbers -----

  /** The number that `d`, digit by digit from the left, goes on to from `n`. */
  function Onward(n: int, d: Bytes): int
    decreases |d|
  {
    if d == [] then n else Onward(10 * n + (d[0] as int - 0x30), d[1..])
  }

  lemma {:induction false} OnwardLast(n: int, d: Bytes)
    requires d != []
    ensures Onward(n, d) == 10 * Onward(n, d[..|d| - 1]) + (d[|d| - 1] as int - 0x30)
    decreases |d|
  {
    var e := d[..|d| - 1];
    if e == [] {
      assert d[1..] == [];
    } else {
      OnwardLast(10 * n + (d[0] as int - 0x30), d[1..]);
      assert d[1..][..|d| - 2] == e[1..];
    }
  }

  lemma {:induction false} DecimalIs(d: Bytes)
    requires Digits(d)
    ensures Decimal(d) == Onward(0, d)
    decreases |d|
  {
    if d != [] {
      DecimalIs(d[..|d| - 1]);
      OnwardLast(0, d);
    }
  }

  /** A number text without a point and an exponent is an integer, which stays within 64 bits; any other stands for a double. */
  lemma NumberRead(n: Number)
    requires n.Valid()
    ensures var t := n.Text();
            if 0x2E in t || 0x65 in t || 0x45 in t then PText(t) == Some(Double(t))
            else
              && t == (if n.minus then [0x2D] else []) + n.whole
              && var i := if n.minus then -Onward(0, n.whole) else Onward(0, n.whole);
                 PText(t) == Some(Int(if i < -9223372036854775808 then -9223372036854775808
                                      else if i > 9223372036854775807 then 9223372036854775807 else i))
  {
    var t := n.Text();
    NumberText(n);
    DecimalIs(n.whole);
    NumberBytes(n);
  }

  lemma NumberText(n: Number)
    requires n.Valid()
    ensures PText(n.Text()) == Some(n.Meaning())
  {
    ValueWritten([], SNumber(n), []);
    assert [] + (n.Text() + []) == n.Text();
  }

  lemma NumberBytes(n: Number)
    requires n.Valid()
    ensures n.frac.None? && n.exp.None? <==> 0x2E !in n.Text() && 0x65 !in n.Text() && 0x45 !in n.Text()
    ensures n.frac.None? && n.exp.None? ==> n.Text() == (if n.minus then [0x2D] else []) + n.whole
  {
    if n.frac.Some? {
      assert n.FracText()[0] == 0x2E && 0x2E in n.FracText();
    }
    if n.exp.Some? {
      assert n.ExpText()[0] == n.exp.value.0 && n.exp.value.0 in n.ExpText();
    }
  }

  // ----- What is refused -----

  lemma NotNumbers()
    ensures PNumber([0x2D]) == None && PNumber([0x2E, 0x35]) == None && PNumber([0x2B, 0x31]) == None
    ensures PNumber([0x31, 0x2E]) == None && PNumber([0x31, 0x65]) == None && PNumber([0x31, 0x65, 0x2D]) == None
  {
    assert TakeDigits([]) == Read([], []);
    assert [0x2D][1..] == [] && [0x31][1..] == [];
    OneDigitRead([0x2E]);
    OneDigitRead([0x65]);
    OneDigitRead([0x65, 0x2D]);
  }

  lemma OneDigitRead(s: Bytes)
    requires s == [] || !IsDigit(s[0])
    ensures TakeDigits([0x31] + s) == Read([0x31], s)
    ensures PNumber([0x31] + s) == PFraction(Number(false, [0x31], None, None), s)
  {
    DigitsWritten([0x31], s);
  }

  /** A text that begins no other value is refused when it is no number. */
  lemma NotANumber(t: Bytes)
    requires t != [] && t[0] !in {0x20, 0x09, 0x0A, 0x0D, 0x22, 0x5B, 0x7B, 0x6E, 0x74, 0x66} && PNumber(t) == None
    ensures PText(t) == None
  {
    assert SkipWs(t) == t;
  }

  /** Numbers with a leading zero, or without digits where there must be some, are no texts; nor are lists with a comma too many or no end, or anything behind a value. */
  lemma Refused(d: Byte, c: Byte)
    requires 0x30 <= d <= 0x39
    ensures PText([0x30, d]) == None && PText([0x2D]) == None && PText([0x2E, 0x35]) == None && PText([0x2B, 0x31]) == None
    ensures PText([0x31, 0x2E]) == None && PText([0x31, 0x65]) == None && PText([0x31, 0x65, 0x2D]) == None
    ensures PText([]) == None && PText([0x5B]) == None && PText([0x7B]) == None
    ensures PText([0x5B, 0x2C, 0x5D]) == None && PText([0x5B, 0x31, 0x2C, 0x5D]) == None
    ensures c !in {0x20, 0x09, 0x0A, 0x0D} ==> PText([0x5B, 0x5D, c]) == None
  {
    hide PText, PNumber;
    NotNumbers();
    NotANumber([0x2D]);
    NotANumber([0x2E, 0x35]);
    NotANumber([0x2B, 0x31]);
    NotANumber([0x31, 0x2E]);
    NotANumber([0x31, 0x65]);
    NotANumber([0x31, 0x65, 0x2D]);
    ZeroRefused(d);
    ListsRefused();
    TrailingComma();
    BehindRefused(c);
  }

  lemma ZeroRefused(d: Byte)
    requires 0x30 <= d <= 0x39
    ensures PText([0x30, d]) == None
  {
    assert [0x30, d][1..] == [d];
    assert PNumber([0x30, d]) == Some(Read(Number(false, [0x30], None, None), [d]));
    assert SkipWs([0x30, d]) == [0x30, d];
  }

  lemma ListsRefused()
    ensures PText([]) == None && PText([0x5B]) == None && PText([0x7B]) == None
    ensures PText([0x5B, 0x2C, 0x5D]) == None
  {
    assert [0x5B][1..] == [] && [0x7B][1..] == [];
    assert [0x5B, 0x2C, 0x5D][1..] == [0x2C, 0x5D];
    assert PNumber([0x2C, 0x5D]) == None;
  }

  lemma TrailingComma()
    ensures PText([0x5B, 0x31, 0x2C, 0x5D]) == None
  {
    hide PItems;
    var t := [0x5B, 0x31, 0x2C, 0x5D];
    assert t[1..] == [0x31] + [0x2C, 0x5D];
    CommaAtEnd();
    assert SkipWs(t) == t && SkipWs(t[1..]) == t[1..];
    assert PArray(t[1..]) == None;
  }

  lemma CommaAtEnd()
    ensures PItems([0x31] + [0x2C, 0x5D]) == None
  {
    hide PValue;
    OneBefore([0x2C, 0x5D]);
    BracketOnly();
    assert [0x2C, 0x5D][1..] == [0x5D] && SkipWs([0x2C, 0x5D]) == [0x2C, 0x5D];
  }

  lemma OneBefore(s: Bytes)
    requires s != [] && s[0] == 0x2C
    ensures PValue([0x31] + s).Some? && PValue([0x31] + s).value.rest == s
  {
    hide PNumber, PValue, PFraction;
    OneDigitRead(s);
    OneFollowed(s);
    NumberFirst([0x31] + s);
  }

  lemma NumberFirst(t: Bytes)
    requires t != [] && t[0] == 0x31 && PNumber(t).Some?
    ensures PValue(t) == Some(Read(PNumber(t).value.v.Meaning(), PNumber(t).value.rest))
  {
    hide PNumber;
    assert SkipWs(t) == t;
  }

  lemma OneFollowed(s: Bytes)
    requires s != [] && s[0] == 0x2C
    ensures PFraction(Number(false, [0x31], None, None), s) == Some(Read(Number(false, [0x31], None, None), s))
  {
  }

  lemma BracketOnly()
    ensures PItems([0x5D]) == None
  {
    assert PNumber([0x5D]) == None;
  }

  lemma BehindRefused(c: Byte)
    ensures c !in {0x20, 0x09, 0x0A, 0x0D} ==> PText([0x5B, 0x5D, c]) == None
    ensures c in {0x20, 0x09, 0x0A, 0x0D} ==> PText([0x5B, 0x5D, c]) == Some(Array([]))
  {
    hide PItems;
    var t := [0x5B, 0x5D, c];
    assert t[1..] == [0x5D, c] && [0x5D, c][1..] == [c] && [c][1..] == [];
    assert SkipWs(t) == t && SkipWs([0x5D, c]) == [0x5D, c];
    assert PArray([0x5D, c]) == Some(Read(Array([]), [c]));
    assert PValue(t) == Some(Read(Array([]), [c]));
  }

  // ----- The writer -----

  /** How a byte of a string is written. */
  lemma ByteWritten(c: Byte)
    ensures CharFor(c).Text() ==
            if c == 0x22 then [0x5C, 0x22]
            else if c == 0x5C then [0x5C, 0x5C]
            else if c == 0x08 then [0x5C, 0x62]
            else if c == 0x0C then [0x5C, 0x66]
            else if c == 0x0A then [0x5C, 0x6E]
            else if c == 0x0D then [0x5C, 0x72]
            else if c == 0x09 then [0x5C, 0x74]
            else if c < 0x20 then [0x5C, 0x75, 0x30, 0x30, 0x30 + c / 16, LOWER[c % 16] as int]
            else [c]
  {
  }

  /** A string is written in quotation marks, byte by byte. */
  lemma {:induction false} StringWritten(s: Bytes)
    ensures Written(String([])) == [0x22, 0x22]
    ensures s != [] ==> Written(String(s)) == [0x22] + (CharFor(s[0]).Text() + Written(String(s[1..]))[1..])
  {
    if s != [] {
      assert CharsFor(s)[1..] == CharsFor(s[1..]);
    }
  }

  /** An integer is written in decimal digits without a leading zero, after a minus sign if it is negative. */
  lemma IntWritten(i: int) returns (d: Bytes)
    requires Writable(Int(i))
    ensures Written(Int(i)) == (if i < 0 then [0x2D] else []) + d
    ensures d != [] && (forall k :: 0 <= k < |d| ==> 0x30 <= d[k] <= 0x39) && (d[0] == 0x30 ==> i == 0 && |d| == 1)
    ensures Onward(0, d) == if i < 0 then -i else i
  {
    var n := NumberFor(i);
    d := n.whole;
    DecimalIs(d);
    NumberBytes(n);
    assert forall k :: 0 <= k < |d| ==> d[k] in d;
  }

  /** Containers are written without white space, their parts with commas in between. */
  lemma ContainerWritten(j: Json)
    requires Writable(j)
    ensures j == Array([]) ==> Written(j) == [0x5B, 0x5D]
    ensures j.Array? && j.elems != [] ==> Written(j) == [0x5B] + Listed(Parts(j.elems)) + [0x5D]
    ensures j == Object([]) ==> Written(j) == [0x7B, 0x7D]
    ensures j.Object? && j.members != [] ==> Written(j) == [0x7B] + Listed(Pairs(j.members)) + [0x7D]
  {
    hide Join, Parts, Pairs, ItemsText, FieldsText, CompactItems, CompactFields, Listed;
    CompactParts(j);
    if j.Array? && j.elems != [] {
      ElementsWritten(j.elems);
      ItemsJoined(j.elems);
      ListedIs(Parts(j.elems));
    }
    if j.Object? && j.members != [] {
      MembersWritten(j.members);
      FieldsJoined(j.members);
      ListedIs(Pairs(j.members));
    }
  }

  lemma CompactParts(j: Json)
    requires Writable(j)
    ensures j.Array? ==> Compact(j) == SArray([], CompactItems(j.elems)) && (CompactItems(j.elems) == [] <==> j.elems == [])
    ensures j.Object? ==> Compact(j) == SObject([], CompactFields(j.members)) && (CompactFields(j.members) == [] <==> j.members == [])
  {
  }

  /** Parts with commas in between. */
  function Listed(parts: seq<Bytes>): Bytes
    requires parts != []
  {
    if |parts| == 1 then parts[0] else Listed(parts[..|parts| - 1]) + [0x2C] + parts[|parts| - 1]
  }

  lemma {:induction false} ListedIs(parts: seq<Bytes>)
    requires parts != []
    ensures Listed(parts) == Join(parts)
    decreases |parts|
  {
    if |parts| > 1 {
      var front := parts[..|parts| - 1];
      ListedIs(front);
      JoinAppend(front, parts[|parts| - 1]);
      assert front + [parts[|parts| - 1]] == parts;
      Assoc(Join(front), [0x2C], parts[|parts| - 1]);
    }
  }

  /** What the parts are: the elements as written, and the members as key, colon and value. */
  lemma {:induction false} ElementsWritten(elems: seq<Json>)
    requires forall e | e in elems :: Writable(e)
    ensures |Parts(elems)| == |elems| && forall i :: 0 <= i < |elems| ==> Parts(elems)[i] == Written(elems[i])
    decreases |elems|
  {
    hide Written;
    if elems != [] {
      ElementsWritten(elems[1..]);
    }
  }

  lemma {:induction false} MembersWritten(members: seq<Member>)
    requires forall m | m in members :: Writable(m.value)
    ensures |Pairs(members)| == |members|
    ensures forall i :: 0 <= i < |members| ==>
              Pairs(members)[i] == Written(String(members[i].key)) + [0x3A] + Written(members[i].value)
    decreases |members|
  {
    hide Written, Writable;
    if members != [] {
      PairIs(members[0]);
      MembersWritten(members[1..]);
    }
  }

  lemma PairIs(m: Member)
    requires Writable(m.value)
    ensures Writable(String(m.key)) && MemberText(m) == Written(String(m.key)) + [0x3A] + Written(m.value)
  {
    hide CharsText, CharsFor;
    Assoc(Written(String(m.key)), [0x3A], Written(m.value));
  }

  lemma NamesWritten()
    ensures Written(Null) == [0x6E, 0x75, 0x6C, 0x6C]
    ensures Written(Bool(true)) == [0x74, 0x72, 0x75, 0x65]
    ensures Written(Bool(false)) == [0x66, 0x61, 0x6C, 0x73, 0x65]
  {
  }
}
