/**
 The parser accepts exactly the grammar of RFC 8259 over bytes: a text is
 accepted if and only if it is written in the concrete syntax, and then the
 result is what that syntax denotes.
 */
module JsonGrammar {
  import opened Prelude
  import opened JsonText
  import opened JsonParse

  // ----- White space and digits -----

  lemma {:induction false} SkipWsWritten(w: Bytes, s: Bytes)
    requires AllWs(w) && (s == [] || !IsWs(s[0]))
    ensures SkipWs(w + s) == s
  {
    if w == [] {
      assert w + s == s;
    } else {
      assert w[0] in w;
      assert (w + s)[1..] == w[1..] + s;
      SkipWsWritten(w[1..], s);
    }
  }

  lemma {:induction false} SkipWsRead(s: Bytes) returns (w: Bytes)
    ensures AllWs(w) && s == w + SkipWs(s)
  {
    if s != [] && IsWs(s[0]) {
      var w' := SkipWsRead(s[1..]);
      w := [s[0]] + w';
    } else {
      w := [];
    }
  }

  lemma {:induction false} DigitsWritten(d: Bytes, s: Bytes)
    requires Digits(d) && (s == [] || !IsDigit(s[0]))
    ensures TakeDigits(d + s) == Read(d, s)
  {
    if d == [] {
      assert d + s == s;
    } else {
      assert d[0] in d;
      assert (d + s)[1..] == d[1..] + s;
      DigitsWritten(d[1..], s);
      assert d == [d[0]] + d[1..];
    }
  }

  // ----- Strings -----

  lemma UnicodeText(h: Bytes, s: Bytes)
    requires |h| == 4
    ensures var t := ([BACKSLASH, 0x75] + h) + s; t[0] == BACKSLASH && t[1] == 0x75 && t[2..6] == h && t[6..] == s
  {
  }

  lemma PairText(h: Bytes, l: Bytes, s: Bytes)
    requires |h| == 4 && |l| == 4
    ensures var t := ([BACKSLASH, 0x75] + h + [BACKSLASH, 0x75] + l) + s;
            && t[0] == t[6] == BACKSLASH && t[1] == t[7] == 0x75
            && t[2..6] == h && t[8..12] == l && t[12..] == s
  {
  }

  /** A character is read as what it means. */
  lemma CharWritten(c: Char, s: Bytes)
    requires c.Valid()
    ensures c.Text() != [] && c.Text()[0] != QUOTE
    ensures PChar(c.Text() + s) == Some(Read(c.Meaning(), s))
  {
    hide Hex4, Utf8, Combine;
    var t := c.Text() + s;
    match c
    case Plain(b) =>
      assert t[1..] == s;
    case Escape(e) =>
      assert t[2..] == s;
    case Unicode(h) =>
      UnicodeText(h, s);
    case Pair(h, l) =>
      PairText(h, l, s);
  }

  /** Whatever is read as a character is written by one. */
  lemma CharRead(s: Bytes) returns (c: Char)
    requires s != [] && s[0] != QUOTE && PChar(s).Some?
    ensures c.Valid() && s == c.Text() + PChar(s).value.rest && c.Meaning() == PChar(s).value.v
  {
    if s[0] != BACKSLASH {
      c := Plain(s[0]);
    } else if s[1] != 0x75 {
      c := Escape(s[1]);
      assert s == [BACKSLASH, s[1]] + s[2..];
    } else if IsHigh(Hex4(s[2..6]).value) {
      c := Pair(s[2..6], s[8..12]);
      assert s == c.Text() + s[12..];
    } else {
      c := Unicode(s[2..6]);
      assert s == c.Text() + s[6..];
    }
  }

  lemma {:induction false} CharsWritten(cs: seq<Char>, s: Bytes)
    requires ValidChars(cs)
    ensures PChars(CharsText(cs) + s) == Some(Read(CharsMeaning(cs), s))
  {
    var t := CharsText(cs) + s;
    if cs == [] {
      assert t[1..] == s;
    } else {
      assert cs[0] in cs;
      Assoc(cs[0].Text(), CharsText(cs[1..]), s);
      CharWritten(cs[0], CharsText(cs[1..]) + s);
      CharsWritten(cs[1..], s);
    }
  }

  lemma {:induction false} CharsRead(s: Bytes) returns (cs: seq<Char>)
    requires PChars(s).Some?
    ensures ValidChars(cs) && s == CharsText(cs) + PChars(s).value.rest && CharsMeaning(cs) == PChars(s).value.v
    decreases |s|
  {
    if s[0] == QUOTE {
      cs := [];
    } else {
      var c := CharRead(s);
      var cs' := CharsRead(PChar(s).value.rest);
      cs := [c] + cs';
      assert cs[1..] == cs';
      Assoc(c.Text(), CharsText(cs'), PChars(s).value.rest);
    }
  }

  // ----- Numbers -----

  /** No byte that could continue a number. */
  predicate EndsNumber(s: Bytes) {
    s == [] || !(IsDigit(s[0]) || s[0] == 0x2E || s[0] == 0x65 || s[0] == 0x45)
  }

  lemma NumberWritten(n: Number, s: Bytes)
    requires n.Valid() && EndsNumber(s)
    ensures PNumber(n.Text() + s) == Some(Read(n, s))
    ensures n.Text() != [] && (n.Text()[0] == 0x2D || IsDigit(n.Text()[0]))
  {
    var sign: Bytes := if n.minus then [0x2D] else [];
    var more := n.FracText() + (n.ExpText() + s);
    Assoc(n.IntText() + n.FracText(), n.ExpText(), s);
    Assoc(n.IntText(), n.FracText(), n.ExpText() + s);
    Assoc(sign, n.whole, more);
    assert n.whole[0] in n.whole;
    MoreStarts(n, s);
    hide PNumber, PFraction, EndsNumber;
    WholeWritten(n.(frac := None, exp := None), more);
    FractionWritten(n, s);
  }

  /** What follows the digits before the point begins with no digit. */
  lemma MoreStarts(n: Number, s: Bytes)
    requires n.Valid() && EndsNumber(s)
    ensures var more := n.FracText() + (n.ExpText() + s); more == [] || !IsDigit(more[0])
  {
  }

  /** The sign and the digits before the point. */
  lemma WholeWritten(n: Number, more: Bytes)
    requires n.Valid() && n.frac.None? && n.exp.None? && (more == [] || !IsDigit(more[0]))
    ensures PNumber((if n.minus then [0x2D] else []) + (n.whole + more)) == PFraction(n, more)
  {
    hide PFraction;
    var sign: Bytes := if n.minus then [0x2D] else [];
    var t := n.whole + more;
    assert n.whole[0] in n.whole;
    assert (sign + t)[|sign|..] == t;
    if n.whole[0] == 0x30 {
      assert t[1..] == more;
    } else {
      DigitsWritten(n.whole, more);
    }
  }

  /** The fraction of a number: what follows the point, if there is one. */
  lemma FractionSplit(n: Number, more: Bytes)
    requires n.Valid() && (more == [] || (!IsDigit(more[0]) && more[0] != 0x2E))
    ensures var m, t := n.(frac := None, exp := None), n.FracText() + more;
            && m.Valid() && m.frac.None? && m.exp.None?
            && PFraction(m, t) == PExponent(n.(exp := None), more)
  {
    hide PExponent, TakeDigits, Digits;
    var t := n.FracText() + more;
    if n.frac.Some? {
      assert t[0] == 0x2E && t[1..] == n.frac.value + more;
      DigitsWritten(n.frac.value, more);
    } else {
      assert t == more;
    }
  }

  lemma FractionWritten(n: Number, s: Bytes)
    requires n.Valid() && EndsNumber(s)
    ensures PFraction(n.(frac := None, exp := None), n.FracText() + (n.ExpText() + s)) == Some(Read(n, s))
  {
    hide PExponent, PFraction, EndsNumber;
    ExponentWritten(n, s);
    ExponentStarts(n, s);
    FractionSplit(n, n.ExpText() + s);
  }

  lemma ExponentStarts(n: Number, s: Bytes)
    requires n.Valid() && EndsNumber(s)
    ensures var t := n.ExpText() + s; t == [] || (!IsDigit(t[0]) && t[0] != 0x2E)
  {
    if n.exp.None? {
      assert n.ExpText() + s == s;
    }
  }

  lemma ExponentWritten(n: Number, s: Bytes)
    requires n.Valid() && EndsNumber(s)
    ensures PExponent(n.(exp := None), n.ExpText() + s) == Some(Read(n, s))
  {
    hide TakeDigits;
    if n.exp.Some? {
      var (e, sign, d) := n.exp.value;
      var t := n.ExpText() + s;
      Assoc([e] + sign, d, s);
      Assoc([e], sign, d + s);
      assert t[1..] == sign + (d + s);
      assert d[0] in d;
      assert Sign(t[1..]) == sign;
      assert t[1..][|sign|..] == d + s;
      DigitsWritten(d, s);
    } else {
      assert n.ExpText() + s == s;
    }
  }

  // ----- Values: whatever is written is read -----

  lemma TextStarts(v: Syntax)
    requires Valid(v)
    ensures Text(v) != [] && !IsWs(Text(v)[0]) && Text(v)[0] != 0x5D && Text(v)[0] != 0x7D
  {
    if v.SNumber? {
      NumberWritten(v.n, []);
    }
  }

  lemma SkipWsTwice(s: Bytes)
    ensures SkipWs(SkipWs(s)) == SkipWs(s)
    ensures PValue(SkipWs(s)) == PValue(s) && PItems(SkipWs(s)) == PItems(s)
    ensures PField(SkipWs(s)) == PField(s) && PFields(SkipWs(s)) == PFields(s)
  {
  }

  /** A value written after white space is read as what it means. */
  lemma {:induction false} ValueWritten(w: Bytes, v: Syntax, s: Bytes)
    requires AllWs(w) && Valid(v) && EndsNumber(s)
    ensures PValue(w + (Text(v) + s)) == Some(Read(Meaning(v), s))
    decreases v, 3
  {
    hide PNumber, PChars, SkipWs, PArray, PObject, CharsText, CharsMeaning, ItemsText, FieldsText;
    var t := Text(v) + s;
    TextStarts(v);
    SkipWsWritten(w, t);
    match v
    case SNull => assert t[4..] == s && t[..4] == Text(v);
    case STrue => assert t[4..] == s && t[..4] == Text(v);
    case SFalse => assert t[5..] == s && t[..5] == Text(v);
    case SNumber(n) => NumberWritten(n, s);
    case SString(cs) =>
      assert t[1..] == CharsText(cs) + s;
      CharsWritten(cs, s);
    case SArray(gap, items) => ArrayWritten(gap, items, s);
    case SObject(gap, fields) => ObjectWritten(gap, fields, s);
  }

  lemma EmptyArray(gap: Bytes, r: Bytes)
    requires AllWs(gap)
    ensures var v := SArray(gap, []); Valid(v) && Text(v) + r == [0x5B] + (gap + ([0x5D] + r)) && Meaning(v) == Array([])
  {
    Assoc([0x5B], gap + [0x5D], r);
    Assoc(gap, [0x5D], r);
  }

  lemma FullArray(items: seq<Item>, r: Bytes)
    requires items != [] && ValidItems(items)
    ensures var v := SArray([], items); Valid(v) && Text(v) + r == [0x5B] + (ItemsText(items) + r) && Meaning(v) == Array(ItemsMeaning(items))
  {
    hide ValidItems, ItemsText, ItemsMeaning;
    Assoc([0x5B], ItemsText(items), r);
  }

  lemma {:induction false} ArrayWritten(gap: Bytes, items: seq<Item>, s: Bytes)
    requires Valid(SArray(gap, items))
    ensures PArray((Text(SArray(gap, items)) + s)[1..]) == Some(Read(Meaning(SArray(gap, items)), s))
    decreases items, 2
  {
    hide Text, PItems, SkipWs, ItemsText, ItemsMeaning;
    if items == [] {
      EmptyArray(gap, s);
      Drop1(0x5B, gap + ([0x5D] + s));
      SkipWsWritten(gap, [0x5D] + s);
      Drop1(0x5D, s);
    } else {
      FullArray(items, s);
      Drop1(0x5B, ItemsText(items) + s);
      SkipWsTwice(ItemsText(items) + s);
      ItemsWritten(items, s);
    }
  }

  lemma Drop1(c: Byte, s: Bytes)
    ensures ([c] + s)[0] == c && ([c] + s)[1..] == s
  {
  }

  /** What follows a value inside a container: white space, then the given separator. */
  lemma AfterValue(after: Bytes, more: Bytes)
    requires AllWs(after) && more != [] && !IsWs(more[0]) && EndsNumber(more)
    ensures EndsNumber(after + more) && SkipWs(after + more) == more
  {
    if after != [] {
      assert after[0] in after;
    } else {
      assert after + more == more;
    }
    SkipWsWritten(after, more);
  }

  /** The parts of an item, regrouped to the right. */
  lemma ItemRegrouped(i: Item, last: Bytes, s: Bytes)
    ensures (i.before + (Text(i.v) + (i.after + last))) + s == i.before + (Text(i.v) + (i.after + (last + s)))
  {
    hide Text;
    Assoc(i.after, last, s);
    Assoc(Text(i.v), i.after + last, s);
    Assoc(i.before, Text(i.v) + (i.after + last), s);
  }

  lemma {:induction false} ItemWritten(i: Item, more: Bytes)
    requires AllWs(i.before) && Valid(i.v) && EndsNumber(i.after + more)
    ensures var x := i.before + (Text(i.v) + (i.after + more));
      && PValue(x) == Some(Read(Meaning(i.v), i.after + more))
      && SkipWs(x) != [] && SkipWs(x)[0] != 0x5D
    decreases i, 4
  {
    hide PValue, Text;
    TextStarts(i.v);
    var x := Text(i.v) + (i.after + more);
    assert x[0] == Text(i.v)[0];
    SkipWsWritten(i.before, x);
    ValueWritten(i.before, i.v, i.after + more);
  }

  lemma {:induction false} ItemsWritten(items: seq<Item>, s: Bytes)
    requires ValidItems(items) && items != []
    ensures PItems(ItemsText(items) + s) == Some(Read(ItemsMeaning(items), s))
    ensures var t := SkipWs(ItemsText(items) + s); t != [] && t[0] != 0x5D
    decreases items, 1
  {
    hide PValue, SkipWs, Text;
    var i := items[0];
    var last := if |items| == 1 then [0x5D] else [0x2C] + ItemsText(items[1..]);
    var more := last + s;
    ItemRegrouped(i, last, s);
    AfterValue(i.after, more);
    ItemWritten(i, more);
    if |items| == 1 {
      assert more[1..] == s && items[1..] == [];
      NoMore([Meaning(i.v)]);
    } else {
      assert more[1..] == ItemsText(items[1..]) + s;
      ItemsWritten(items[1..], s);
    }
  }

  lemma EmptyObject(gap: Bytes, r: Bytes)
    requires AllWs(gap)
    ensures var v := SObject(gap, []); Valid(v) && Text(v) + r == [0x7B] + (gap + ([0x7D] + r)) && Meaning(v) == Object([])
  {
    Assoc([0x7B], gap + [0x7D], r);
    Assoc(gap, [0x7D], r);
  }

  lemma FullObject(fields: seq<Field>, r: Bytes)
    requires fields != [] && ValidFields(fields)
    ensures var v := SObject([], fields); Valid(v) && Text(v) + r == [0x7B] + (FieldsText(fields) + r) && Meaning(v) == Object(FieldsMeaning(fields))
  {
    hide ValidFields, FieldsText, FieldsMeaning;
    Assoc([0x7B], FieldsText(fields), r);
  }

  lemma {:induction false} ObjectWritten(gap: Bytes, fields: seq<Field>, s: Bytes)
    requires Valid(SObject(gap, fields))
    ensures PObject((Text(SObject(gap, fields)) + s)[1..]) == Some(Read(Meaning(SObject(gap, fields)), s))
    decreases fields, 2
  {
    hide Text, PFields, SkipWs, FieldsText, FieldsMeaning;
    if fields == [] {
      EmptyObject(gap, s);
      Drop1(0x7B, gap + ([0x7D] + s));
      SkipWsWritten(gap, [0x7D] + s);
      Drop1(0x7D, s);
    } else {
      FullObject(fields, s);
      Drop1(0x7B, FieldsText(fields) + s);
      SkipWsTwice(FieldsText(fields) + s);
      FieldsWritten(fields, s);
    }
  }

  /** The parts of a field, regrouped to the right. */
  lemma FieldRegrouped(f: Field, last: Bytes, s: Bytes)
    ensures (f.before + ([QUOTE] + (CharsText(f.key) + (f.mid + ([0x3A] + (f.before' + (Text(f.v) + (f.after + last)))))))) + s
         == f.before + ([QUOTE] + (CharsText(f.key) + (f.mid + ([0x3A] + (f.before' + (Text(f.v) + (f.after + (last + s))))))))
  {
    hide CharsText, Text;
    Assoc(f.after, last, s);
    var x1 := f.after + last;
    Assoc(Text(f.v), x1, s);
    var x2 := Text(f.v) + x1;
    Assoc(f.before', x2, s);
    var x3 := f.before' + x2;
    Assoc([0x3A], x3, s);
    var x4 := [0x3A] + x3;
    Assoc(f.mid, x4, s);
    var x5 := f.mid + x4;
    Assoc(CharsText(f.key), x5, s);
    var x6 := CharsText(f.key) + x5;
    Assoc([QUOTE], x6, s);
    Assoc(f.before, [QUOTE] + x6, s);
  }

  /** One `key : value` is read as a member. */
  lemma {:induction false} FieldWritten(f: Field, more: Bytes)
    requires AllWs(f.before) && ValidChars(f.key) && AllWs(f.mid) && AllWs(f.before') && Valid(f.v) && AllWs(f.after)
    requires EndsNumber(f.after + more)
    ensures var x := f.before + ([QUOTE] + (CharsText(f.key) + (f.mid + ([0x3A] + (f.before' + (Text(f.v) + (f.after + more)))))));
      && PField(x) == Some(Read(Member(CharsMeaning(f.key), Meaning(f.v)), f.after + more))
      && SkipWs(x) != [] && SkipWs(x)[0] == QUOTE
    decreases f, 4
  {
    hide SkipWs, CharsText, CharsMeaning, Text, Meaning, Valid, PValue, PChars, EndsNumber;
    var value := f.before' + (Text(f.v) + (f.after + more));
    var colon := f.mid + ([0x3A] + value);
    var key := [QUOTE] + (CharsText(f.key) + colon);
    SkipWsWritten(f.before, key);
    Drop1(QUOTE, CharsText(f.key) + colon);
    CharsWritten(f.key, colon);
    SkipWsWritten(f.mid, [0x3A] + value);
    Drop1(0x3A, value);
    ValueWritten(f.before', f.v, f.after + more);
  }

  lemma {:induction false} FieldsWritten(fields: seq<Field>, s: Bytes)
    requires ValidFields(fields) && fields != []
    ensures PFields(FieldsText(fields) + s) == Some(Read(FieldsMeaning(fields), s))
    ensures var t := SkipWs(FieldsText(fields) + s); t != [] && t[0] != 0x7D
    decreases fields, 1
  {
    hide PField, SkipWs, CharsText, CharsMeaning, Text;
    var f := fields[0];
    var last := if |fields| == 1 then [0x7D] else [0x2C] + FieldsText(fields[1..]);
    var more := last + s;
    FieldRegrouped(f, last, s);
    AfterValue(f.after, more);
    FieldWritten(f, more);
    assert SkipWs(FieldsText(fields) + s)[0] == QUOTE;
    if |fields| == 1 {
      assert more[1..] == s && fields[1..] == [];
      NoMore([Member(CharsMeaning(f.key), Meaning(f.v))]);
    } else {
      assert more[1..] == FieldsText(fields[1..]) + s;
      FieldsWritten(fields[1..], s);
    }
  }

  // ----- Values: whatever is read is written -----

  /** An accepted value is white space and a value of the grammar, and the result is its meaning. */
  lemma {:induction false} ValueRead(s: Bytes) returns (w: Bytes, v: Syntax)
    requires PValue(s).Some?
    ensures AllWs(w) && Valid(v) && s == w + (Text(v) + PValue(s).value.rest) && Meaning(v) == PValue(s).value.v
    decreases |s|, 2
  {
    hide PNumber, PChars, SkipWs;
    w := SkipWsRead(s);
    var t, r := SkipWs(s), PValue(s).value.rest;
    if t[0] == 0x6E || t[0] == 0x74 || t[0] == 0x66 {
      v := if t[0] == 0x6E then SNull else if t[0] == 0x74 then STrue else SFalse;
      assert t == t[..|Text(v)|] + t[|Text(v)|..];
    } else if t[0] == QUOTE {
      var cs := CharsRead(t[1..]);
      v := SString(cs);
      assert t == [QUOTE] + t[1..];
      Assoc([QUOTE], CharsText(cs), r);
    } else if t[0] == 0x7B {
      v := ObjectRead(t[1..]);
      assert t == [t[0]] + t[1..];
    } else if t[0] == 0x5B {
      v := ArrayRead(t[1..]);
      assert t == [t[0]] + t[1..];
    } else {
      NumberText(t);
      v := SNumber(PNumber(t).value.v);
    }
  }

  lemma {:induction false} ArrayRead(s: Bytes) returns (v: Syntax)
    requires PArray(s).Some?
    ensures v.SArray? && Valid(v) && [0x5B] + s == Text(v) + PArray(s).value.rest && Meaning(v) == PArray(s).value.v
    decreases |s|, 4
  {
    hide PItems, SkipWs, ValidItems, ItemsText, ItemsMeaning, Text;
    var t, r := SkipWs(s), PArray(s).value.rest;
    if t != [] && t[0] == 0x5D {
      var gap := SkipWsRead(s);
      v := SArray(gap, []);
      EmptyArray(gap, r);
      assert t == [0x5D] + r;
    } else {
      SkipWsTwice(s);
      var items := ItemsRead(s);
      v := SArray([], items);
      FullArray(items, r);
    }
  }

  lemma {:induction false} ItemsRead(s: Bytes) returns (items: seq<Item>)
    requires PItems(s).Some?
    ensures items != [] && ValidItems(items)
    ensures s == ItemsText(items) + PItems(s).value.rest && ItemsMeaning(items) == PItems(s).value.v
    decreases |s|, 3
  {
    hide PValue, SkipWs;
    var w, v := ValueRead(s);
    var read, rest := PValue(s).value.rest, PItems(s).value.rest;
    var after := SkipWsRead(read);
    var t := SkipWs(read);
    var item := Item(w, v, after);
    var last: Bytes;
    if t[0] == 0x5D {
      items := [item];
      last := [0x5D];
    } else {
      var more := ItemsRead(t[1..]);
      items := [item] + more;
      assert items[1..] == more;
      last := [0x2C] + ItemsText(more);
      Assoc([0x2C], ItemsText(more), rest);
    }
    assert t == last + rest;
    Assoc(w, Text(v) + (after + last), rest);
    Assoc(Text(v), after + last, rest);
    Assoc(after, last, rest);
  }

  lemma {:induction false} ObjectRead(s: Bytes) returns (v: Syntax)
    requires PObject(s).Some?
    ensures v.SObject? && Valid(v) && [0x7B] + s == Text(v) + PObject(s).value.rest && Meaning(v) == PObject(s).value.v
    decreases |s|, 5
  {
    hide PFields, SkipWs, ValidFields, FieldsText, FieldsMeaning, Text;
    var t, r := SkipWs(s), PObject(s).value.rest;
    if t != [] && t[0] == 0x7D {
      var gap := SkipWsRead(s);
      v := SObject(gap, []);
      EmptyObject(gap, r);
      assert t == [0x7D] + r;
    } else {
      SkipWsTwice(s);
      var fields := FieldsRead(s);
      v := SObject([], fields);
      FullObject(fields, r);
    }
  }

  lemma {:induction false} FieldRead(s: Bytes) returns (f: Field)
    requires PField(s).Some?
    ensures AllWs(f.before) && ValidChars(f.key) && AllWs(f.mid) && AllWs(f.before') && Valid(f.v) && f.after == []
    ensures s == f.before + ([QUOTE] + (CharsText(f.key) + (f.mid + ([0x3A] + (f.before' + (Text(f.v) + PField(s).value.rest))))))
    ensures PField(s).value.v == Member(CharsMeaning(f.key), Meaning(f.v))
    decreases |s|, 3
  {
    hide PValue, PChars, SkipWs, CharsText, CharsMeaning;
    var before := SkipWsRead(s);
    var t := SkipWs(s);
    var key := CharsRead(t[1..]);
    var k := PChars(t[1..]).value.rest;
    var mid := SkipWsRead(k);
    var u := SkipWs(k);
    var before', v := ValueRead(u[1..]);
    f := Field(before, key, mid, before', v, []);
    assert t == [QUOTE] + t[1..] && u == [0x3A] + u[1..];
  }

  lemma {:induction false} FieldsRead(s: Bytes) returns (fields: seq<Field>)
    requires PFields(s).Some?
    ensures fields != [] && ValidFields(fields)
    ensures s == FieldsText(fields) + PFields(s).value.rest && FieldsMeaning(fields) == PFields(s).value.v
    decreases |s|, 4
  {
    hide PField, SkipWs, CharsText, CharsMeaning;
    var f0 := FieldRead(s);
    var read, rest := PField(s).value.rest, PFields(s).value.rest;
    var after := SkipWsRead(read);
    var t := SkipWs(read);
    var f := f0.(after := after);
    var last: Bytes;
    if t[0] == 0x7D {
      fields := [f];
      last := [0x7D];
    } else {
      var more := FieldsRead(t[1..]);
      fields := [f] + more;
      assert fields[1..] == more;
      last := [0x2C] + FieldsText(more);
      Assoc([0x2C], FieldsText(more), rest);
    }
    assert t == last + rest;
    FieldRegrouped(f, last, rest);
  }

  // ----- Whole texts -----

  /** The texts of the grammar and what they denote. */
  ghost predicate Denotes(s: Bytes, j: Json) {
    exists w, v, w' :: AllWs(w) && AllWs(w') && Valid(v) && s == w + (Text(v) + w') && Meaning(v) == j
  }

  /** The parser accepts exactly the grammar, and returns what the text denotes. */
  lemma AcceptsExactly(s: Bytes, j: Json)
    ensures PText(s) == Some(j) <==> Denotes(s, j)
  {
    if PText(s) == Some(j) {
      var w, v := ValueRead(s);
      var w' := SkipWsRead(PValue(s).value.rest);
      assert w' == w' + [];
    }
    if Denotes(s, j) {
      var w, v, w' :| AllWs(w) && AllWs(w') && Valid(v) && s == w + (Text(v) + w') && Meaning(v) == j;
      if w' != [] {
        assert w'[0] in w';
      }
      ValueWritten(w, v, w');
      SkipWsWritten(w', []);
      assert w' + [] == w';
    }
  }
}
