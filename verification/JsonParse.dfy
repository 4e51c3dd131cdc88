/**
 The parser as a function of the remaining input: what it returns and what it
 leaves. `None` is a syntax error.
 */
module JsonParse {
  import opened Prelude
  import opened JsonText

  /** What was read, and the input after it. */
  datatype Read<+T> = Read(v: T, rest: Bytes)

  type Parsed<+T> = Option<Read<T>>

  // ----- Lexical pieces -----

  function SkipWs(s: Bytes): (t: Bytes)
    ensures |t| <= |s|
    ensures t != [] ==> !IsWs(t[0])
  {
    if s != [] && IsWs(s[0]) then SkipWs(s[1..]) else s
  }

  function TakeDigits(s: Bytes): (r: Read<Bytes>)
    ensures s == r.v + r.rest && Digits(r.v)
    ensures r.rest != [] ==> !IsDigit(r.rest[0])
  {
    if s != [] && IsDigit(s[0]) then
      var r := TakeDigits(s[1..]);
      Read([s[0]] + r.v, r.rest)
    else Read([], s)
  }

  /** One character of a string: an unescaped byte or one escape. */
  function PChar(s: Bytes): (r: Parsed<Bytes>)
    requires s != [] && s[0] != QUOTE
    ensures r.Some? ==> |r.value.rest| + |r.value.v| <= |s| && r.value.v != []
    ensures r.Some? ==> r.value.rest == s[|s| - |r.value.rest|..]
  {
    if s[0] == BACKSLASH then
      if |s| < 2 then None
      else if s[1] == 0x75 then PUnicode(s)
      else if Escaped(s[1]).Some? then Some(Read([Escaped(s[1]).value], s[2..]))
      else None
    else if s[0] < 0x20 then None
    else Some(Read([s[0]], s[1..]))
  }

  function PUnicode(s: Bytes): (r: Parsed<Bytes>)
    requires |s| >= 2
    ensures r.Some? ==> |r.value.rest| + |r.value.v| <= |s| && r.value.v != []
    ensures r.Some? ==> r.value.rest == s[|s| - |r.value.rest|..]
  {
    if |s| < 6 || Hex4(s[2..6]).None? then None
    else
      var cp := Hex4(s[2..6]).value;
      if IsHigh(cp) then
        if |s| < 12 || s[6] != BACKSLASH || s[7] != 0x75 || Hex4(s[8..12]).None? || !IsLow(Hex4(s[8..12]).value) then None
        else Some(Read(Utf8(Combine(cp, Hex4(s[8..12]).value)), s[12..]))
      else if IsLow(cp) then None
      else Some(Read(Utf8(cp), s[6..]))
  }

  /** The characters of a string up to its closing quotation mark. */
  function PChars(s: Bytes): (r: Parsed<Bytes>)
    ensures r.Some? ==> |r.value.rest| < |s|
    decreases |s|
  {
    if s == [] then None
    else if s[0] == QUOTE then Some(Read([], s[1..]))
    else
      match PChar(s)
      case None => None
      case Some(c) =>
        match PChars(c.rest)
        case None => None
        case Some(r) => Some(Read(c.v + r.v, r.rest))
  }

  function PNumber(s: Bytes): (r: Parsed<Number>)
    ensures r.Some? ==> r.value.v.Valid() && |r.value.rest| < |s|
  {
    var minus := s != [] && s[0] == 0x2D;
    var t := if minus then s[1..] else s;
    if t == [] || !IsDigit(t[0]) then None
    else
      var whole := if t[0] == 0x30 then Read([0x30], t[1..]) else TakeDigits(t);
      PFraction(Number(minus, whole.v, None, None), whole.rest)
  }

  function PFraction(n: Number, t: Bytes): (r: Parsed<Number>)
    requires n.Valid() && n.frac.None? && n.exp.None?
    ensures r.Some? ==> r.value.v.Valid() && |r.value.rest| <= |t|
  {
    if t != [] && t[0] == 0x2E then
      var d := TakeDigits(t[1..]);
      if d.v == [] then None else PExponent(n.(frac := Some(d.v)), d.rest)
    else PExponent(n, t)
  }

  /** The optional sign of an exponent. */
  function Sign(t: Bytes): (sign: Bytes)
    ensures |sign| <= |t| && t == sign + t[|sign|..]
  {
    if t != [] && (t[0] == 0x2B || t[0] == 0x2D) then [t[0]] else []
  }

  function PExponent(n: Number, t: Bytes): (r: Parsed<Number>)
    requires n.Valid() && n.exp.None?
    ensures r.Some? ==> r.value.v.Valid() && |r.value.rest| <= |t|
  {
    if t != [] && (t[0] == 0x65 || t[0] == 0x45) then
      var sign := Sign(t[1..]);
      var d := TakeDigits(t[1..][|sign|..]);
      if d.v == [] then None else Some(Read(n.(exp := Some((t[0], sign, d.v))), d.rest))
    else Some(Read(n, t))
  }

  // ----- A number is read as written -----

  lemma NumberText(s: Bytes)
    requires PNumber(s).Some?
    ensures s == PNumber(s).value.v.Text() + PNumber(s).value.rest
  {
    var minus := s[0] == 0x2D;
    var t := if minus then s[1..] else s;
    var whole := if t[0] == 0x30 then Read([0x30], t[1..]) else TakeDigits(t);
    var n := Number(minus, whole.v, None, None);
    assert t == whole.v + whole.rest;
    Assoc(if minus then [0x2D] else [], whole.v, whole.rest);
    assert s == n.IntText() + whole.rest;
    NoMore(n.IntText());
    FractionText(n, whole.rest);
  }

  lemma FractionText(n: Number, t: Bytes)
    requires n.Valid() && n.frac.None? && n.exp.None? && PFraction(n, t).Some?
    ensures n.Text() + t == PFraction(n, t).value.v.Text() + PFraction(n, t).value.rest
  {
    if t != [] && t[0] == 0x2E {
      var d := TakeDigits(t[1..]);
      assert t == ([0x2E] + d.v) + d.rest;
      AddFraction(n, d.v, d.rest);
      ExponentText(n.(frac := Some(d.v)), d.rest);
    } else {
      ExponentText(n, t);
    }
  }

  lemma ExponentText(n: Number, t: Bytes)
    requires n.Valid() && n.exp.None? && PExponent(n, t).Some?
    ensures n.Text() + t == PExponent(n, t).value.v.Text() + PExponent(n, t).value.rest
  {
    if t != [] && (t[0] == 0x65 || t[0] == 0x45) {
      var sign := Sign(t[1..]);
      var d := TakeDigits(t[1..][|sign|..]);
      assert t[1..] == sign + (d.v + d.rest);
      assert t == ([t[0]] + sign + d.v) + d.rest;
      AddExponent(n, t[0], sign, d.v, d.rest);
    }
  }

  lemma NoMore<T>(a: seq<T>)
    ensures a + [] == a
  {
  }

  lemma AddFraction(n: Number, d: Bytes, rest: Bytes)
    requires n.frac.None? && n.exp.None?
    ensures n.Text() + (([0x2E] + d) + rest) == n.(frac := Some(d)).Text() + rest
  {
    NoMore(n.IntText());
    NoMore(n.IntText() + ([0x2E] + d));
    Assoc(n.IntText(), [0x2E] + d, rest);
  }

  lemma AddExponent(n: Number, e: Byte, sign: Bytes, d: Bytes, rest: Bytes)
    requires n.exp.None?
    ensures n.Text() + (([e] + sign + d) + rest) == n.(exp := Some((e, sign, d))).Text() + rest
  {
    NoMore(n.IntText() + n.FracText());
    Assoc(n.IntText() + n.FracText(), [e] + sign + d, rest);
  }

  // ----- Values -----

  predicate StartsWith(s: Bytes, p: Bytes) {
    |p| <= |s| && s[..|p|] == p
  }

  /** One of the three literal names. */
  function PWord(t: Bytes): (r: Parsed<Json>)
    ensures r.Some? ==> |r.value.rest| < |t|
  {
    if StartsWith(t, [0x6E, 0x75, 0x6C, 0x6C]) then Some(Read(Null, t[4..]))
    else if StartsWith(t, [0x74, 0x72, 0x75, 0x65]) then Some(Read(Bool(true), t[4..]))
    else if StartsWith(t, [0x66, 0x61, 0x6C, 0x73, 0x65]) then Some(Read(Bool(false), t[5..]))
    else None
  }

  function PValue(s: Bytes): (r: Parsed<Json>)
    ensures r.Some? ==> |r.value.rest| < |s|
    decreases |s|, 2
  {
    var t := SkipWs(s);
    if t == [] then None
    else if t[0] == 0x6E || t[0] == 0x74 || t[0] == 0x66 then PWord(t)
    else if t[0] == QUOTE then
      match PChars(t[1..])
      case None => None
      case Some(r) => Some(Read(String(r.v), r.rest))
    else if t[0] == 0x7B then PObject(t[1..])
    else if t[0] == 0x5B then PArray(t[1..])
    else
      match PNumber(t)
      case None => None
      case Some(r) => Some(Read(r.v.Meaning(), r.rest))
  }

  function PArray(s: Bytes): (r: Parsed<Json>)
    ensures r.Some? ==> |r.value.rest| < |s|
    decreases |s|, 4
  {
    var t := SkipWs(s);
    if t != [] && t[0] == 0x5D then Some(Read(Array([]), t[1..]))
    else
      match PItems(t)
      case None => None
      case Some(r) => Some(Read(Array(r.v), r.rest))
  }

  /** Items up to and including the closing bracket. */
  function PItems(s: Bytes): (r: Parsed<seq<Json>>)
    ensures r.Some? ==> |r.value.rest| < |s|
    decreases |s|, 3
  {
    match PValue(s)
    case None => None
    case Some(v) =>
      var t := SkipWs(v.rest);
      if t == [] then None
      else if t[0] == 0x5D then Some(Read([v.v], t[1..]))
      else if t[0] != 0x2C then None
      else
        match PItems(t[1..])
        case None => None
        case Some(r) => Some(Read([v.v] + r.v, r.rest))
  }

  function PObject(s: Bytes): (r: Parsed<Json>)
    ensures r.Some? ==> |r.value.rest| < |s|
    decreases |s|, 5
  {
    var t := SkipWs(s);
    if t != [] && t[0] == 0x7D then Some(Read(Object([]), t[1..]))
    else
      match PFields(t)
      case None => None
      case Some(r) => Some(Read(Object(r.v), r.rest))
  }

  /** A key and its colon. */
  function PKey(s: Bytes): (r: Parsed<Bytes>)
    ensures r.Some? ==> |r.value.rest| < |s|
  {
    var t := SkipWs(s);
    if t == [] || t[0] != QUOTE then None
    else
      match PChars(t[1..])
      case None => None
      case Some(k) =>
        var u := SkipWs(k.rest);
        if u == [] || u[0] != 0x3A then None else Some(Read(k.v, u[1..]))
  }

  /** One `key : value`. */
  function PField(s: Bytes): (r: Parsed<Member>)
    ensures r.Some? ==> |r.value.rest| < |s|
    decreases |s|, 3
  {
    match PKey(s)
    case None => None
    case Some(k) =>
      match PValue(k.rest)
      case None => None
      case Some(v) => Some(Read(Member(k.v, v.v), v.rest))
  }

  /** Fields up to and including the closing brace. */
  function PFields(s: Bytes): (r: Parsed<seq<Member>>)
    ensures r.Some? ==> |r.value.rest| < |s|
    decreases |s|, 4
  {
    match PField(s)
    case None => None
    case Some(m) =>
      var t := SkipWs(m.rest);
      if t == [] then None
      else if t[0] == 0x7D then Some(Read([m.v], t[1..]))
      else if t[0] != 0x2C then None
      else
        match PFields(t[1..])
        case None => None
        case Some(r) => Some(Read([m.v] + r.v, r.rest))
  }

  /** A whole text: one value between white space. */
  function PText(s: Bytes): Option<Json> {
    match PValue(s)
    case None => None
    case Some(r) => if SkipWs(r.rest) == [] then Some(r.v) else None
  }
}
