/**
 JSON texts as byte sequences (RFC 8259): the tree a text denotes, the concrete
 syntax with every byte of it, and what each piece of syntax means.
 */
module JsonText {
  import opened Prelude

  type Bytes = seq<Byte>

  /** A JSON value. A number with a fraction or an exponent stands for the double its text denotes. */
  datatype Json =
    | Null
    | Bool(b: bool)
    | Int(i: int)
    | Double(text: Bytes)
    | String(s: Bytes)
    | Array(elems: seq<Json>)
    | Object(members: seq<Member>)

  datatype Member = Member(key: Bytes, value: Json)

  // ----- Characters -----

  const QUOTE: Byte := 0x22
  const BACKSLASH: Byte := 0x5C

  predicate IsWs(c: Byte) {
    c == 0x20 || c == 0x09 || c == 0x0D || c == 0x0A
  }

  predicate IsDigit(c: Byte) {
    0x30 <= c <= 0x39
  }

  predicate AllWs(w: Bytes) {
    forall c | c in w :: IsWs(c)
  }

  predicate Digits(d: Bytes) {
    forall c | c in d :: IsDigit(c)
  }

  /** The value of a hexadecimal digit. */
  function HexDigit(c: Byte): (r: Option<nat>)
    ensures r.Some? ==> r.value < 16
  {
    if 0x30 <= c <= 0x39 then Some(c - 0x30)
    else if 0x61 <= c <= 0x66 then Some(c - 0x61 + 10)
    else if 0x41 <= c <= 0x46 then Some(c - 0x41 + 10)
    else None
  }

  /** Four hexadecimal digits, most significant first. */
  function Hex4(h: Bytes): (r: Option<nat>)
    requires |h| == 4
    ensures r.Some? ==> r.value < 0x1_0000
  {
    var a, b, c, d := HexDigit(h[0]), HexDigit(h[1]), HexDigit(h[2]), HexDigit(h[3]);
    if a.Some? && b.Some? && c.Some? && d.Some? then
      Some(((a.value * 16 + b.value) * 16 + c.value) * 16 + d.value)
    else None
  }

  predicate IsHigh(cp: nat) {
    0xD800 <= cp <= 0xDBFF
  }

  predicate IsLow(cp: nat) {
    0xDC00 <= cp <= 0xDFFF
  }

  function Combine(high: nat, low: nat): (cp: nat)
    requires IsHigh(high) && IsLow(low)
    ensures 0x1_0000 <= cp <= 0x10_FFFF
  {
    0x1_0000 + (high - 0xD800) * 0x400 + (low - 0xDC00)
  }

  /** A code point in UTF-8 (section 3 of RFC 3629). */
  function Utf8(cp: nat): (u: Bytes)
    requires cp <= 0x10_FFFF
    ensures 1 <= |u| <= 4 && (cp < 0x1_0000 ==> |u| <= 3)
  {
    if cp < 0x80 then [cp]
    else if cp < 0x800 then [0xC0 + cp / 0x40, 0x80 + cp % 0x40]
    else if cp < 0x1_0000 then [0xE0 + cp / 0x1000, 0x80 + cp / 0x40 % 0x40, 0x80 + cp % 0x40]
    else [0xF0 + cp / 0x4_0000, 0x80 + cp / 0x1000 % 0x40, 0x80 + cp / 0x40 % 0x40, 0x80 + cp % 0x40]
  }

  predicate IsTail(c: Byte) {
    0x80 <= c <= 0xBF
  }

  /** The six bits a continuation byte carries. */
  function Bits(c: Byte): int {
    c as int - 0x80
  }

  /** The code point of a well-formed UTF-8 sequence: shortest form, no surrogates, at most U+10FFFF. */
  function DecodeUtf8(u: Bytes): Option<int> {
    if |u| == 1 && u[0] < 0x80 then Some(u[0])
    else if |u| == 2 && 0xC2 <= u[0] <= 0xDF && IsTail(u[1]) then Some((u[0] as int - 0xC0) * 0x40 + Bits(u[1]))
    else if |u| == 3 && 0xE0 <= u[0] <= 0xEF && IsTail(u[1]) && IsTail(u[2]) then
      var cp := (u[0] as int - 0xE0) * 0x1000 + Bits(u[1]) * 0x40 + Bits(u[2]);
      if cp < 0x800 || 0xD800 <= cp <= 0xDFFF then None else Some(cp)
    else if |u| == 4 && 0xF0 <= u[0] <= 0xF4 && IsTail(u[1]) && IsTail(u[2]) && IsTail(u[3]) then
      var cp := (u[0] as int - 0xF0) * 0x4_0000 + Bits(u[1]) * 0x1000 + Bits(u[2]) * 0x40 + Bits(u[3]);
      if cp < 0x1_0000 || cp > 0x10_FFFF then None else Some(cp)
    else None
  }

  lemma SixBits(cp: nat)
    ensures cp == cp / 0x40 * 0x40 + cp % 0x40
    ensures cp / 0x40 == cp / 0x1000 * 0x40 + cp / 0x40 % 0x40
    ensures cp / 0x1000 == cp / 0x4_0000 * 0x40 + cp / 0x1000 % 0x40
  {
  }

  /** Every scalar value's encoding is well formed and decodes to it. */
  lemma Utf8Decodes(cp: nat)
    requires cp <= 0x10_FFFF && !IsHigh(cp) && !IsLow(cp)
    ensures DecodeUtf8(Utf8(cp)) == Some(cp)
  {
    SixBits(cp);
    if cp < 0x80 {
    } else if cp < 0x800 {
      assert Utf8(cp)[0] >= 0xC2;
    } else if cp < 0x1_0000 {
      assert Bits(Utf8(cp)[1]) == cp / 0x40 % 0x40;
    } else {
      assert Bits(Utf8(cp)[1]) == cp / 0x1000 % 0x40;
    }
  }

  // ----- Concrete syntax -----

  /** One character of a string, as written. */
  datatype Char =
    | Plain(c: Byte)
    | Escape(letter: Byte)
    | Unicode(hex: Bytes)
    | Pair(high: Bytes, low: Bytes)
  {
    predicate Valid() {
      match this
      case Plain(c) => c >= 0x20 && c != QUOTE && c != BACKSLASH
      case Escape(e) => Escaped(e).Some?
      case Unicode(h) => |h| == 4 && Hex4(h).Some? && !IsHigh(Hex4(h).value) && !IsLow(Hex4(h).value)
      case Pair(h, l) =>
        |h| == 4 && |l| == 4 && Hex4(h).Some? && Hex4(l).Some? && IsHigh(Hex4(h).value) && IsLow(Hex4(l).value)
    }

    function Text(): Bytes {
      match this
      case Plain(c) => [c]
      case Escape(e) => [BACKSLASH, e]
      case Unicode(h) => [BACKSLASH, 0x75] + h
      case Pair(h, l) => [BACKSLASH, 0x75] + h + [BACKSLASH, 0x75] + l
    }

    function Meaning(): Bytes
      requires Valid()
    {
      match this
      case Plain(c) => [c]
      case Escape(e) => [Escaped(e).value]
      case Unicode(h) => Utf8(Hex4(h).value)
      case Pair(h, l) => Utf8(Combine(Hex4(h).value, Hex4(l).value))
    }
  }

  /** The two-character escapes of section 7. */
  function Escaped(e: Byte): Option<Byte> {
    if e == 0x22 then Some(0x22)
    else if e == 0x5C then Some(0x5C)
    else if e == 0x2F then Some(0x2F)
    else if e == 0x62 then Some(0x08)
    else if e == 0x66 then Some(0x0C)
    else if e == 0x6E then Some(0x0A)
    else if e == 0x72 then Some(0x0D)
    else if e == 0x74 then Some(0x09)
    else None
  }

  ghost predicate ValidChars(cs: seq<Char>) {
    forall c | c in cs :: c.Valid()
  }

  /** The characters and the closing quotation mark. */
  ghost function CharsText(cs: seq<Char>): Bytes {
    if cs == [] then [QUOTE] else cs[0].Text() + CharsText(cs[1..])
  }

  ghost function CharsMeaning(cs: seq<Char>): Bytes
    requires ValidChars(cs)
  {
    if cs == [] then [] else cs[0].Meaning() + CharsMeaning(cs[1..])
  }

  /** A number as written (section 6). */
  datatype Number = Number(minus: bool, whole: Bytes, frac: Option<Bytes>, exp: Option<(Byte, Bytes, Bytes)>) {
    predicate Valid() {
      && Digits(whole) && (whole == [0x30] || (whole != [] && whole[0] != 0x30))
      && (frac.Some? ==> Digits(frac.value) && frac.value != [])
      && (exp.Some? ==>
            && (exp.value.0 == 0x65 || exp.value.0 == 0x45)
            && (exp.value.1 == [] || exp.value.1 == [0x2B] || exp.value.1 == [0x2D])
            && Digits(exp.value.2) && exp.value.2 != [])
    }

    function FracText(): Bytes {
      if frac.None? then [] else [0x2E] + frac.value
    }

    function ExpText(): Bytes {
      if exp.None? then [] else [exp.value.0] + exp.value.1 + exp.value.2
    }

    function IntText(): Bytes {
      (if minus then [0x2D] else []) + whole
    }

    function Text(): Bytes {
      (IntText() + FracText()) + ExpText()
    }

    function Meaning(): Json
      requires Valid()
    {
      if frac.None? && exp.None? then Int(Clamp(if minus then -(Decimal(whole) as int) else Decimal(whole)))
      else Double(Text())
    }
  }

  /** The number written by decimal digits. */
  function Decimal(d: Bytes): nat
    requires Digits(d)
  {
    if d == [] then 0
    else
      assert d[|d| - 1] in d;
      Decimal(d[..|d| - 1]) * 10 + (d[|d| - 1] as int - 0x30)
  }

  /** Conversion to 64 bits saturates. */
  function Clamp(i: int): int {
    if i < -0x8000_0000_0000_0000 then -0x8000_0000_0000_0000
    else if i > 0x7FFF_FFFF_FFFF_FFFF then 0x7FFF_FFFF_FFFF_FFFF
    else i
  }

  /** A value as written, with the white space of section 2 wherever it is allowed. */
  datatype Syntax =
    | SNull
    | STrue
    | SFalse
    | SNumber(n: Number)
    | SString(cs: seq<Char>)
    | SArray(gap: Bytes, items: seq<Item>)
    | SObject(gap: Bytes, fields: seq<Field>)

  datatype Item = Item(before: Bytes, v: Syntax, after: Bytes)

  datatype Field = Field(before: Bytes, key: seq<Char>, mid: Bytes, before': Bytes, v: Syntax, after: Bytes)

  ghost predicate Valid(v: Syntax)
    decreases v, 1
  {
    match v
    case SNumber(n) => n.Valid()
    case SString(cs) => ValidChars(cs)
    case SArray(gap, items) => AllWs(gap) && (items != [] ==> gap == []) && ValidItems(items)
    case SObject(gap, fields) => AllWs(gap) && (fields != [] ==> gap == []) && ValidFields(fields)
    case _ => true
  }

  ghost predicate ValidItems(items: seq<Item>)
    decreases items, 0
  {
    items == [] ||
    (AllWs(items[0].before) && Valid(items[0].v) && AllWs(items[0].after) && ValidItems(items[1..]))
  }

  ghost predicate ValidFields(fields: seq<Field>)
    decreases fields, 0
  {
    fields == [] ||
    (&& AllWs(fields[0].before) && ValidChars(fields[0].key) && AllWs(fields[0].mid)
     && AllWs(fields[0].before') && Valid(fields[0].v) && AllWs(fields[0].after) && ValidFields(fields[1..]))
  }

  ghost function Text(v: Syntax): Bytes
    decreases v, 1
  {
    match v
    case SNull => [0x6E, 0x75, 0x6C, 0x6C]
    case STrue => [0x74, 0x72, 0x75, 0x65]
    case SFalse => [0x66, 0x61, 0x6C, 0x73, 0x65]
    case SNumber(n) => n.Text()
    case SString(cs) => [QUOTE] + CharsText(cs)
    case SArray(gap, items) => [0x5B] + if items == [] then gap + [0x5D] else ItemsText(items)
    case SObject(gap, fields) => [0x7B] + if fields == [] then gap + [0x7D] else FieldsText(fields)
  }

  /** Items separated by commas, and the closing bracket. */
  ghost function ItemsText(items: seq<Item>): Bytes
    requires items != []
    decreases items, 0
  {
    items[0].before + (Text(items[0].v) + (items[0].after +
      if |items| == 1 then [0x5D] else [0x2C] + ItemsText(items[1..])))
  }

  /** Fields separated by commas, and the closing brace. */
  ghost function FieldsText(fields: seq<Field>): Bytes
    requires fields != []
    decreases fields, 0
  {
    var f := fields[0];
    f.before + ([QUOTE] + (CharsText(f.key) + (f.mid + ([0x3A] + (f.before' + (Text(f.v) + (f.after +
      if |fields| == 1 then [0x7D] else [0x2C] + FieldsText(fields[1..]))))))))
  }

  ghost function Meaning(v: Syntax): Json
    requires Valid(v)
    decreases v, 1
  {
    match v
    case SNull => Null
    case STrue => Bool(true)
    case SFalse => Bool(false)
    case SNumber(n) => n.Meaning()
    case SString(cs) => String(CharsMeaning(cs))
    case SArray(_, items) => Array(ItemsMeaning(items))
    case SObject(_, fields) => Object(FieldsMeaning(fields))
  }

  ghost function ItemsMeaning(items: seq<Item>): seq<Json>
    requires ValidItems(items)
    decreases items, 0
  {
    if items == [] then [] else [Meaning(items[0].v)] + ItemsMeaning(items[1..])
  }

  ghost function FieldsMeaning(fields: seq<Field>): seq<Member>
    requires ValidFields(fields)
    decreases fields, 0
  {
    if fields == [] then []
    else [Member(CharsMeaning(fields[0].key), Meaning(fields[0].v))] + FieldsMeaning(fields[1..])
  }
}
