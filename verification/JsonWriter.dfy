/**
 The writer: a stack of open containers decides where commas go. What it writes
 for a tree is a text of the grammar that denotes the tree.
 */
module JsonWriter {
  import opened Prelude
  import opened JsonText
  import opened JsonParse
  import opened JsonGrammar

  /** Trees the writer and the reader agree on: 64-bit integers and no doubles. */
  predicate Writable(j: Json)
    decreases j, 1
  {
    match j
    case Int(i) => -0x8000_0000_0000_0000 <= i <= 0x7FFF_FFFF_FFFF_FFFF
    case Double(_) => false
    case Array(elems) => forall e | e in elems :: Writable(e)
    case Object(members) => forall m | m in members :: Writable(m.value)
    case _ => true
  }

  // ----- What is written for each piece -----

  function LowerHex(d: nat): (c: Byte)
    requires d < 16
    ensures HexDigit(c) == Some(d)
  {
    if d < 10 then 0x30 + d else 0x61 + d - 10
  }

  /** How a byte of a string is written. */
  function CharFor(c: Byte): (r: Char)
    ensures r.Valid() && r.Meaning() == [c]
  {
    if c == 0x22 then Escape(0x22)
    else if c == 0x5C then Escape(0x5C)
    else if c == 0x08 then Escape(0x62)
    else if c == 0x0C then Escape(0x66)
    else if c == 0x0A then Escape(0x6E)
    else if c == 0x0D then Escape(0x72)
    else if c == 0x09 then Escape(0x74)
    else if c < 0x20 then Unicode([0x30, 0x30, LowerHex(c / 16), LowerHex(c % 16)])
    else Plain(c)
  }

  function CharsFor(s: Bytes): (cs: seq<Char>)
    ensures |cs| == |s| && forall i :: 0 <= i < |s| ==> cs[i] == CharFor(s[i])
  {
    seq(|s|, i requires 0 <= i < |s| => CharFor(s[i]))
  }

  /** Decimal digits, without leading zeros. */
  function DigitsOf(n: nat): (d: Bytes)
    ensures d != [] && Digits(d) && Decimal(d) == n && (d == [0x30] || d[0] != 0x30)
  {
    if n < 10 then [0x30 + n]
    else
      var front := DigitsOf(n / 10);
      var d := front + [0x30 + n % 10];
      assert d[..|d| - 1] == front;
      d
  }

  function NumberFor(i: int): (n: Number)
    ensures n.Valid() && n.exp.None? && n.frac.None?
  {
    Number(i < 0, DigitsOf(if i < 0 then -i else i), None, None)
  }

  /** The compact text of a tree, as concrete syntax. */
  function Compact(j: Json): Syntax
    requires Writable(j)
    decreases j, 1
  {
    match j
    case Null => SNull
    case Bool(b) => if b then STrue else SFalse
    case Int(i) => SNumber(NumberFor(i))
    case String(s) => SString(CharsFor(s))
    case Array(elems) => SArray([], CompactItems(elems))
    case Object(members) => SObject([], CompactFields(members))
  }

  function CompactItems(elems: seq<Json>): seq<Item>
    requires forall e | e in elems :: Writable(e)
    decreases elems, 0
  {
    if elems == [] then [] else [Item([], Compact(elems[0]), [])] + CompactItems(elems[1..])
  }

  function CompactFields(members: seq<Member>): seq<Field>
    requires forall m | m in members :: Writable(m.value)
    decreases members, 0
  {
    if members == [] then []
    else
      [Field([], CharsFor(members[0].key), [], [], Compact(members[0].value), [])] + CompactFields(members[1..])
  }

  lemma {:induction false} CharsForMeaning(s: Bytes)
    ensures ValidChars(CharsFor(s)) && CharsMeaning(CharsFor(s)) == s
  {
    if s != [] {
      assert CharsFor(s)[1..] == CharsFor(s[1..]);
      CharsForMeaning(s[1..]);
    }
  }

  /** The compact text of a tree is grammatical and denotes the tree. */
  lemma {:induction false} CompactMeans(j: Json)
    requires Writable(j)
    ensures Valid(Compact(j)) && Meaning(Compact(j)) == j
    decreases j, 1
  {
    match j
    case String(s) => CharsForMeaning(s);
    case Array(elems) => CompactItemsMean(elems);
    case Object(members) => CompactFieldsMean(members);
    case _ =>
  }

  lemma {:induction false} CompactItemsMean(elems: seq<Json>)
    requires forall e | e in elems :: Writable(e)
    ensures ValidItems(CompactItems(elems)) && ItemsMeaning(CompactItems(elems)) == elems
    decreases elems, 0
  {
    if elems != [] {
      CompactMeans(elems[0]);
      CompactItemsMean(elems[1..]);
      assert CompactItems(elems)[1..] == CompactItems(elems[1..]);
    }
  }

  lemma {:induction false} CompactFieldsMean(members: seq<Member>)
    requires forall m | m in members :: Writable(m.value)
    ensures ValidFields(CompactFields(members)) && FieldsMeaning(CompactFields(members)) == members
    decreases members, 0
  {
    if members != [] {
      CharsForMeaning(members[0].key);
      CompactMeans(members[0].value);
      CompactFieldsMean(members[1..]);
      assert CompactFields(members)[1..] == CompactFields(members[1..]);
    }
  }

  /** What the writer writes. */
  ghost function Written(j: Json): Bytes
    requires Writable(j)
  {
    Text(Compact(j))
  }

  /** Reading what was written for a tree gives the tree back. */
  lemma RoundTrip(j: Json)
    requires Writable(j)
    ensures PText(Written(j)) == Some(j)
  {
    CompactMeans(j);
    ValueWritten([], Compact(j), []);
    assert [] + (Written(j) + []) == Written(j);
  }

  // ----- Joining with commas -----

  ghost function Join(parts: seq<Bytes>): Bytes {
    if parts == [] then []
    else if |parts| == 1 then parts[0]
    else parts[0] + ([0x2C] + Join(parts[1..]))
  }

  lemma {:induction false} JoinAppend(parts: seq<Bytes>, p: Bytes)
    ensures Join(parts + [p]) == Join(parts) + ((if parts == [] then [] else [0x2C]) + p)
  {
    if parts == [] {
      assert [] + [p] == [p];
    } else {
      assert (parts + [p])[1..] == parts[1..] + [p];
      JoinAppend(parts[1..], p);
      if |parts| > 1 {
        var tail := [0x2C] + p;
        Assoc([0x2C], Join(parts[1..]), tail);
        Assoc(parts[0], [0x2C] + Join(parts[1..]), tail);
      }
    }
  }

  ghost function Parts(elems: seq<Json>): seq<Bytes>
    requires forall e | e in elems :: Writable(e)
  {
    if elems == [] then [] else [Written(elems[0])] + Parts(elems[1..])
  }

  /** A member as written. */
  ghost function MemberText(m: Member): Bytes
    requires Writable(m.value)
  {
    Quoted(m.key) + ([0x3A] + Written(m.value))
  }

  ghost function Quoted(s: Bytes): Bytes {
    [QUOTE] + CharsText(CharsFor(s))
  }

  ghost function Pairs(members: seq<Member>): seq<Bytes>
    requires forall m | m in members :: Writable(m.value)
  {
    if members == [] then [] else [MemberText(members[0])] + Pairs(members[1..])
  }

  /** One part, then a comma and the rest. */
  lemma JoinMore(p: Bytes, parts: seq<Bytes>, close: Bytes)
    requires parts != []
    ensures Join([p] + parts) + close == p + ([0x2C] + (Join(parts) + close))
  {
    assert ([p] + parts)[1..] == parts;
    Assoc([0x2C], Join(parts), close);
    Assoc(p, [0x2C] + Join(parts), close);
  }

  lemma {:induction false} ItemsJoined(elems: seq<Json>)
    requires elems != [] && forall e | e in elems :: Writable(e)
    ensures ItemsText(CompactItems(elems)) == Join(Parts(elems)) + [0x5D]
    decreases elems
  {
    var w, rest := Written(elems[0]), elems[1..];
    ItemStarts(elems);
    if rest != [] {
      ItemsJoined(rest);
      JoinMore(w, Parts(rest), [0x5D]);
    }
  }

  lemma ItemStarts(elems: seq<Json>)
    requires elems != [] && forall e | e in elems :: Writable(e)
    ensures ItemsText(CompactItems(elems))
         == Written(elems[0]) + if |elems| == 1 then [0x5D] else [0x2C] + ItemsText(CompactItems(elems[1..]))
    ensures |elems| > 1 ==> Parts(elems[1..]) != []
  {
    var items := CompactItems(elems);
    var w := Written(elems[0]);
    assert items[1..] == CompactItems(elems[1..]);
    var last := if |items| == 1 then [0x5D] else [0x2C] + ItemsText(items[1..]);
    NothingBefore(last);
    NothingBefore(w + last);
  }

  lemma {:induction false} FieldsJoined(members: seq<Member>)
    requires members != [] && forall m | m in members :: Writable(m.value)
    ensures FieldsText(CompactFields(members)) == Join(Pairs(members)) + [0x7D]
    decreases members
  {
    var p, rest := MemberText(members[0]), members[1..];
    FieldStarts(members);
    if rest != [] {
      FieldsJoined(rest);
      JoinMore(p, Pairs(rest), [0x7D]);
    }
  }

  lemma FieldStarts(members: seq<Member>)
    requires members != [] && forall m | m in members :: Writable(m.value)
    ensures FieldsText(CompactFields(members))
         == MemberText(members[0]) + if |members| == 1 then [0x7D] else [0x2C] + FieldsText(CompactFields(members[1..]))
    ensures |members| > 1 ==> Pairs(members[1..]) != []
  {
    var fields := CompactFields(members);
    assert fields[1..] == CompactFields(members[1..]);
    CompactField(fields[0], members[0], if |fields| == 1 then [0x7D] else [0x2C] + FieldsText(fields[1..]));
  }

  lemma CompactField(f: Field, m: Member, last: Bytes)
    requires Writable(m.value)
    requires f == Field([], CharsFor(m.key), [], [], Compact(m.value), [])
    ensures f.before + ([QUOTE] + (CharsText(f.key) + (f.mid + ([0x3A] + (f.before' + (Text(f.v) + (f.after + last)))))))
         == MemberText(m) + last
  {
    Shape(CharsText(f.key), Text(f.v), last);
  }

  lemma NothingBefore<T>(a: seq<T>)
    ensures [] + a == a
  {
  }

  lemma Shape(k: Bytes, v: Bytes, last: Bytes)
    ensures [] + ([QUOTE] + (k + ([] + ([0x3A] + ([] + (v + ([] + last))))))) == (([QUOTE] + k) + ([0x3A] + v)) + last
  {
    NothingBefore(last);
    NothingBefore(v + last);
    var c := [0x3A] + (v + last);
    NothingBefore(c);
    NothingBefore([QUOTE] + (k + c));
    Assoc([QUOTE], k, c);
    Assoc([0x3A], v, last);
    Assoc([QUOTE] + k, [0x3A] + v, last);
  }

  // ----- The writer -----

  datatype Level = Level(isObject: bool, needsComma: bool, expectingValue: bool)

  /** What goes before the next value. */
  function Separator(stack: seq<Level>): Bytes {
    if stack == [] then []
    else
      var level := stack[|stack| - 1];
      if !level.expectingValue && level.needsComma then [0x2C] else []
  }

  /** The stack once the next value has been written. */
  function Bump(stack: seq<Level>): seq<Level> {
    if stack == [] then []
    else
      var level := stack[|stack| - 1];
      stack[|stack| - 1 := if level.expectingValue then level.(expectingValue := false) else level.(needsComma := true)]
  }

  class Writer {
    var output: Bytes
    var stack: seq<Level>

    constructor ()
      ensures output == [] && stack == []
    {
      output, stack := [], [];
    }

    method WriteSeparator()
      modifies this
      ensures output == old(output) + Separator(old(stack)) && stack == Bump(old(stack))
    {
      if stack != [] {
        var level := stack[|stack| - 1];
        if level.expectingValue {
          stack := stack[|stack| - 1 := level.(expectingValue := false)];
          return;
        }
        if level.needsComma {
          output := output + [0x2C];
        }
        stack := stack[|stack| - 1 := level.(needsComma := true)];
      }
    }

    method WriteChar(c: Byte)
      modifies `output
      ensures output == old(output) + CharFor(c).Text()
    {
      if c == 0x22 {
        output := output + [BACKSLASH, 0x22];
      } else if c == 0x5C {
        output := output + [BACKSLASH, 0x5C];
      } else if c == 0x08 {
        output := output + [BACKSLASH, 0x62];
      } else if c == 0x0C {
        output := output + [BACKSLASH, 0x66];
      } else if c == 0x0A {
        output := output + [BACKSLASH, 0x6E];
      } else if c == 0x0D {
        output := output + [BACKSLASH, 0x72];
      } else if c == 0x09 {
        output := output + [BACKSLASH, 0x74];
      } else if c < 0x20 {
        output := output + [BACKSLASH, 0x75, 0x30, 0x30, LowerHex(c / 16), LowerHex(c % 16)];
      } else {
        output := output + [c];
      }
    }

    method WriteEscaped(s: Bytes)
      modifies `output
      ensures output == old(output) + Quoted(s)
    {
      output := output + [QUOTE];
      ghost var start := output;
      var i := 0;
      while i < |s|
        invariant 0 <= i <= |s|
        invariant output + CharsText(CharsFor(s[i..])) == start + CharsText(CharsFor(s))
      {
        ghost var before := output;
        CharsStep(s, i);
        WriteChar(s[i]);
        Assoc(before, CharFor(s[i]).Text(), CharsText(CharsFor(s[i + 1..])));
        i := i + 1;
      }
      output := output + [QUOTE];
      assert CharsFor(s[i..]) == [];
      Assoc(old(output), [QUOTE], CharsText(CharsFor(s)));
    }

    method WriteNull()
      modifies this
      ensures output == old(output) + Separator(old(stack)) + Written(Null) && stack == Bump(old(stack))
    {
      WriteSeparator();
      output := output + [0x6E, 0x75, 0x6C, 0x6C];
    }

    method WriteBool(b: bool)
      modifies this
      ensures output == old(output) + Separator(old(stack)) + Written(Bool(b)) && stack == Bump(old(stack))
    {
      WriteSeparator();
      if b {
        output := output + [0x74, 0x72, 0x75, 0x65];
      } else {
        output := output + [0x66, 0x61, 0x6C, 0x73, 0x65];
      }
    }

    method WriteInt(i: int)
      requires Writable(Int(i))
      modifies this
      ensures output == old(output) + Separator(old(stack)) + Written(Int(i)) && stack == Bump(old(stack))
    {
      WriteSeparator();
      var n := NumberFor(i);
      NoMore(n.IntText());
      output := output + n.Text();
    }

    method WriteString(s: Bytes)
      modifies this
      ensures output == old(output) + Separator(old(stack)) + Written(String(s)) && stack == Bump(old(stack))
    {
      WriteSeparator();
      WriteEscaped(s);
    }

    method WriteKey(key: Bytes)
      requires stack != [] && stack[|stack| - 1].isObject
      modifies this
      ensures var level := old(stack)[|old(stack)| - 1];
        && output == old(output) + (if level.needsComma then [0x2C] else []) + (Quoted(key) + [0x3A])
        && stack == old(stack)[|old(stack)| - 1 := Level(true, true, true)]
    {
      var level := stack[|stack| - 1];
      if level.needsComma {
        output := output + [0x2C];
      }
      stack := stack[|stack| - 1 := Level(true, true, level.expectingValue)];
      ghost var before := output;
      WriteEscaped(key);
      output := output + [0x3A];
      Assoc(before, Quoted(key), [0x3A]);
      stack := stack[|stack| - 1 := Level(true, true, true)];
    }

    /** Writes a tree after whatever separator is due, and leaves the stack as after one value. */
    method WriteValue(j: Json)
      requires Writable(j)
      modifies this
      ensures output == old(output) + Separator(old(stack)) + Written(j) && stack == Bump(old(stack))
      decreases j, 1
    {
      match j
      case Null => WriteNull();
      case Bool(b) => WriteBool(b);
      case Int(i) => WriteInt(i);
      case String(s) => WriteString(s);
      case Array(elems) => WriteArray(elems);
      case Object(members) => WriteObject(members);
    }

    method WriteArray(elems: seq<Json>)
      requires forall e | e in elems :: Writable(e)
      modifies this
      ensures output == old(output) + Separator(old(stack)) + Written(Array(elems)) && stack == Bump(old(stack))
      decreases elems, 0
    {
      hide Join, Parts, Written;
      WriteSeparator();
      output := output + [0x5B];
      ghost var start, outer := output, stack;
      NothingWritten();
      assert elems[..0] == [] && start + [] == start;
      stack := stack + [Level(false, false, false)];
      var i := 0;
      while i < |elems|
        invariant 0 <= i <= |elems|
        invariant stack == outer + [Level(false, i > 0, false)]
        invariant output == start + Join(Parts(elems[..i]))
      {
        ghost var joined := Join(Parts(elems[..i]));
        PartsStep(elems, i);
        WriteValue(elems[i]);
        Assoc(start, joined, (if i == 0 then [] else [0x2C]) + Written(elems[i]));
        Assoc(start + joined, if i == 0 then [] else [0x2C], Written(elems[i]));
        i := i + 1;
      }
      stack := stack[..|stack| - 1];
      output := output + [0x5D];
      assert elems[..i] == elems;
      ArrayWhole(old(output) + Separator(old(stack)), elems);
    }

    method WriteObject(members: seq<Member>)
      requires forall m | m in members :: Writable(m.value)
      modifies this
      ensures output == old(output) + Separator(old(stack)) + Written(Object(members)) && stack == Bump(old(stack))
      decreases members, 0
    {
      hide Join, Pairs, Written, Separator, Bump;
      WriteSeparator();
      output := output + [0x7B];
      ghost var start, outer := output, stack;
      NothingWritten();
      assert members[..0] == [] && start + [] == start;
      stack := stack + [Level(true, false, false)];
      var i := 0;
      while i < |members|
        invariant 0 <= i <= |members|
        invariant stack == outer + [Level(true, i > 0, false)]
        invariant output == start + Join(Pairs(members[..i]))
      {
        ghost var joined, comma := Join(Pairs(members[..i])), if i == 0 then [] else [0x2C];
        PairsStep(members, i);
        MemberTurn(outer, Level(true, i > 0, false));
        WriteKey(members[i].key);
        WriteValue(members[i].value);
        PairWhole(start, joined, comma, members[i]);
        i := i + 1;
      }
      stack := stack[..|stack| - 1];
      output := output + [0x7D];
      assert members[..i] == members;
      ObjectWhole(old(output) + Separator(old(stack)), members);
    }
  }

  lemma CharsStep(s: Bytes, i: nat)
    requires i < |s|
    ensures CharsText(CharsFor(s[i..])) == CharFor(s[i]).Text() + CharsText(CharsFor(s[i + 1..]))
  {
    assert CharsFor(s[i..])[1..] == CharsFor(s[i + 1..]);
  }

  lemma {:induction false} PartsAppend(elems: seq<Json>, e: Json)
    requires (forall x | x in elems :: Writable(x)) && Writable(e)
    ensures Parts(elems + [e]) == Parts(elems) + [Written(e)] && |Parts(elems)| == |elems|
    decreases elems
  {
    if elems == [] {
      assert elems + [e] == [e];
    } else {
      assert (elems + [e])[1..] == elems[1..] + [e];
      PartsAppend(elems[1..], e);
    }
  }

  lemma NothingWritten()
    ensures Join(Parts([])) == [] && Join(Pairs([])) == []
  {
  }

  lemma PartsStep(elems: seq<Json>, i: nat)
    requires i < |elems| && forall e | e in elems :: Writable(e)
    ensures Join(Parts(elems[..i + 1])) == Join(Parts(elems[..i])) + ((if i == 0 then [] else [0x2C]) + Written(elems[i]))
  {
    assert elems[..i + 1] == elems[..i] + [elems[i]];
    PartsAppend(elems[..i], elems[i]);
    JoinAppend(Parts(elems[..i]), Written(elems[i]));
  }

  lemma {:induction false} PairsAppend(members: seq<Member>, m: Member)
    requires (forall x | x in members :: Writable(x.value)) && Writable(m.value)
    ensures Pairs(members + [m]) == Pairs(members) + [MemberText(m)] && |Pairs(members)| == |members|
    decreases members
  {
    if members == [] {
      assert members + [m] == [m];
    } else {
      assert (members + [m])[1..] == members[1..] + [m];
      PairsAppend(members[1..], m);
    }
  }

  lemma PairsStep(members: seq<Member>, i: nat)
    requires i < |members| && forall m | m in members :: Writable(m.value)
    ensures Join(Pairs(members[..i + 1])) == Join(Pairs(members[..i])) + ((if i == 0 then [] else [0x2C]) + MemberText(members[i]))
  {
    assert members[..i + 1] == members[..i] + [members[i]];
    PairsAppend(members[..i], members[i]);
    JoinAppend(Pairs(members[..i]), MemberText(members[i]));
  }

  /** What a key and then its value do to the level of their object. */
  lemma MemberTurn(outer: seq<Level>, level: Level)
    ensures var keyed := (outer + [level])[|outer| := Level(true, true, true)];
            && keyed == outer + [Level(true, true, true)]
            && Separator(keyed) == [] && Bump(keyed) == outer + [Level(true, true, false)]
  {
  }

  /** A key, its colon and its value after the members so far. */
  lemma PairWhole(start: Bytes, joined: Bytes, comma: Bytes, m: Member)
    requires Writable(m.value)
    ensures start + joined + comma + (Quoted(m.key) + [0x3A]) + [] + Written(m.value)
         == start + (joined + (comma + MemberText(m)))
  {
    var k, w := Quoted(m.key), Written(m.value);
    var x := start + joined + comma;
    NoMore(x + (k + [0x3A]));
    Assoc(x, k + [0x3A], w);
    Assoc(k, [0x3A], w);
    Assoc(start + joined, comma, MemberText(m));
    Assoc(start, joined, comma + MemberText(m));
  }

  lemma ArrayWhole(before: Bytes, elems: seq<Json>)
    requires forall e | e in elems :: Writable(e)
    ensures before + [0x5B] + Join(Parts(elems)) + [0x5D] == before + Written(Array(elems))
  {
    var joined := Join(Parts(elems));
    if elems != [] {
      ItemsJoined(elems);
    }
    Assoc(before + [0x5B], joined, [0x5D]);
    Assoc(before, [0x5B], joined + [0x5D]);
  }

  lemma ObjectWhole(before: Bytes, members: seq<Member>)
    requires forall m | m in members :: Writable(m.value)
    ensures before + [0x7B] + Join(Pairs(members)) + [0x7D] == before + Written(Object(members))
  {
    var joined := Join(Pairs(members));
    if members != [] {
      FieldsJoined(members);
    }
    Assoc(before + [0x7B], joined, [0x7D]);
    Assoc(before, [0x7B], joined + [0x7D]);
  }

  /** Serializes a tree. */
  method Stringify(j: Json) returns (s: Bytes)
    requires Writable(j)
    ensures s == Written(j)
  {
    var w := new Writer();
    w.WriteValue(j);
    s := w.output;
    NothingBefore(Written(j));
  }
}
