/**
 Type expressions with nested generic arguments. The lexer fuses adjacent
 closers into one token; the parser splits such a token in place.
 */
module TypeArgs {
  import opened Prelude

  datatype Token =
    | Identifier(name: string)
    | KwUniq | KwRef | KwWeak
    | Less | Comma | Greater | GreaterGreater | GreaterEqual | GreaterGreaterEqual
    | LeftParen | LeftBrace
    | Other(code: int)
    | Eof

  /** A missing name or closer stands for the zero-width token the parser makes up. */
  datatype Type = Type(modifier: Option<Token>, name: Option<Token>, args: Args)
  datatype Args = NoArgs | Angled(types: seq<Type>, closed: bool)

  predicate IsModifier(t: Token) {
    t == KwUniq || t == KwRef || t == KwWeak
  }

  // ----- What a type expression says about the tokens -----

  function One(t: Option<Token>): seq<Token> {
    if t.Some? then [t.value] else []
  }

  /** The tokens of a type expression, closers one by one. */
  function Print(t: Type): seq<Token> {
    One(t.modifier) + One(t.name) + PrintArgs(t.args)
  }

  function PrintArgs(a: Args): seq<Token> {
    if a.NoArgs? then [] else [Less] + PrintTypes(a.types) + (if a.closed then [Greater] else [])
  }

  function PrintTypes(ts: seq<Type>): seq<Token> {
    if ts == [] then []
    else Print(ts[0]) + (if |ts| == 1 then [] else [Comma] + PrintTypes(ts[1..]))
  }

  /** Nothing made up. */
  predicate Complete(t: Type) {
    && (t.modifier.Some? ==> IsModifier(t.modifier.value))
    && t.name.Some? && t.name.value.Identifier?
    && (t.args.Angled? ==> t.args.closed && t.args.types != [] && CompleteTypes(t.args.types))
  }

  predicate CompleteTypes(ts: seq<Type>) {
    ts == [] || (Complete(ts[0]) && CompleteTypes(ts[1..]))
  }

  /** The stream with every fused closer taken apart the way the parser does. */
  function Expand(s: seq<Token>): seq<Token> {
    if s == [] then []
    else if s[0] == GreaterGreater then [Greater, Greater] + Expand(s[1..])
    else if s[0] == GreaterGreaterEqual then [Greater, GreaterEqual] + Expand(s[1..])
    else [s[0]] + Expand(s[1..])
  }

  // ----- The parser as a function -----

  predicate At(s: seq<Token>, t: Token) {
    s != [] && s[0] == t
  }

  function ParseType(s: seq<Token>): (r: (Type, seq<Token>))
    ensures |r.1| <= |s|
    decreases |s|, 1
  {
    var (modifier, s1) := if s != [] && IsModifier(s[0]) then (Some(s[0]), s[1..]) else (None, s);
    var (name, s2) := if s1 != [] && s1[0].Identifier? then (Some(s1[0]), s1[1..]) else (None, s1);
    if At(s2, Less) then
      var (args, rest) := ParseArgs(s2);
      (Type(modifier, name, args), rest)
    else
      (Type(modifier, name, NoArgs), s2)
  }

  function ParseArgs(s: seq<Token>): (r: (Args, seq<Token>))
    requires At(s, Less)
    ensures |r.1| < |s|
    decreases |s|, 0
  {
    var (types, s1) := ParseTypes(s[1..]);
    var (closed, rest) := Close(s1);
    (Angled(types, closed), rest)
  }

  function ParseTypes(s: seq<Token>): (r: (seq<Type>, seq<Token>))
    ensures |r.1| <= |s| && r.0 != []
    decreases |s|, 2
  {
    var (t, s1) := ParseType(s);
    if At(s1, Comma) then
      var (ts, rest) := ParseTypes(s1[1..]);
      ([t] + ts, rest)
    else
      ([t], s1)
  }

  /** Takes one closer, splitting a fused token and leaving its other half. */
  function Close(s: seq<Token>): (r: (bool, seq<Token>))
    ensures |r.1| <= |s|
  {
    if At(s, Greater) then (true, s[1..])
    else if At(s, GreaterGreater) then (true, [Greater] + s[1..])
    else if At(s, GreaterGreaterEqual) then (true, [GreaterEqual] + s[1..])
    else (false, s)
  }

  // ----- Fused or not, the result is the same -----

  lemma ExpandHead(s: seq<Token>)
    ensures s == [] <==> Expand(s) == []
    ensures s != [] && s[0] != GreaterGreater && s[0] != GreaterGreaterEqual ==> Expand(s)[0] == s[0] && Expand(s)[1..] == Expand(s[1..])
    ensures s != [] && (s[0] == GreaterGreater || s[0] == GreaterGreaterEqual) ==> Expand(s)[0] == Greater
  {
  }

  lemma CloseSame(s: seq<Token>)
    ensures Close(Expand(s)) == (Close(s).0, Expand(Close(s).1))
  {
    ExpandHead(s);
    if At(s, GreaterGreater) {
      assert Expand(s)[1..] == [Greater] + Expand(s[1..]);
    } else if At(s, GreaterGreaterEqual) {
      assert Expand(s)[1..] == [GreaterEqual] + Expand(s[1..]);
    }
  }

  /** Any stream, well-formed or not, parses as its expansion does and leaves the same tokens. */
  lemma {:induction false} TypeSame(s: seq<Token>)
    ensures ParseType(Expand(s)) == (ParseType(s).0, Expand(ParseType(s).1))
    decreases |s|, 1
  {
    ExpandHead(s);
    var s1 := if s != [] && IsModifier(s[0]) then s[1..] else s;
    ExpandHead(s1);
    var s2 := if s1 != [] && s1[0].Identifier? then s1[1..] else s1;
    ExpandHead(s2);
    if At(s2, Less) {
      ArgsSame(s2);
    }
  }

  lemma {:induction false} ArgsSame(s: seq<Token>)
    requires At(s, Less)
    ensures At(Expand(s), Less)
    ensures ParseArgs(Expand(s)) == (ParseArgs(s).0, Expand(ParseArgs(s).1))
    decreases |s|, 0
  {
    ExpandHead(s);
    TypesSame(s[1..]);
    CloseSame(ParseTypes(s[1..]).1);
  }

  lemma {:induction false} TypesSame(s: seq<Token>)
    ensures ParseTypes(Expand(s)) == (ParseTypes(s).0, Expand(ParseTypes(s).1))
    decreases |s|, 2
  {
    TypeSame(s);
    var s1 := ParseType(s).1;
    ExpandHead(s1);
    if At(s1, Comma) {
      TypesSame(s1[1..]);
    }
  }

  // ----- Every type expression is parsed back -----

  /** A name without arguments must not be followed by `<`. */
  predicate Ends(t: Type, after: seq<Token>) {
    t.args.NoArgs? ==> !At(after, Less)
  }

  lemma Drop(a: Token, b: seq<Token>)
    ensures ([a] + b)[0] == a && ([a] + b)[1..] == b
  {
  }

  lemma {:induction false} TypeParsed(t: Type, after: seq<Token>)
    requires Complete(t) && Ends(t, after)
    ensures ParseType(Print(t) + after) == (t, after)
    decreases t
  {
    var tail := PrintArgs(t.args) + after;
    Assoc(One(t.modifier) + One(t.name), PrintArgs(t.args), after);
    Assoc(One(t.modifier), One(t.name), tail);
    Drop(t.name.value, tail);
    if t.modifier.Some? {
      Drop(t.modifier.value, One(t.name) + tail);
    } else {
      assert One(t.modifier) + (One(t.name) + tail) == One(t.name) + tail;
    }
    if t.args.Angled? {
      ArgsParsed(t.args, after);
    } else {
      assert tail == after;
    }
  }

  lemma {:induction false} ArgsParsed(a: Args, after: seq<Token>)
    requires a.Angled? && a.closed && a.types != [] && CompleteTypes(a.types)
    ensures At(PrintArgs(a) + after, Less)
    ensures ParseArgs(PrintArgs(a) + after) == (a, after)
    decreases a
  {
    var tail := [Greater] + after;
    Assoc([Less] + PrintTypes(a.types), [Greater], after);
    Assoc([Less], PrintTypes(a.types), tail);
    Drop(Less, PrintTypes(a.types) + tail);
    Drop(Greater, after);
    TypesParsed(a.types, tail);
  }

  lemma {:induction false} TypesParsed(ts: seq<Type>, after: seq<Token>)
    requires ts != [] && CompleteTypes(ts) && !At(after, Less) && !At(after, Comma)
    ensures ParseTypes(PrintTypes(ts) + after) == (ts, after)
    decreases ts
  {
    if |ts| == 1 {
      assert PrintTypes(ts) == Print(ts[0]);
      TypeParsed(ts[0], after);
      assert ts == [ts[0]];
    } else {
      var tail := [Comma] + (PrintTypes(ts[1..]) + after);
      Assoc([Comma], PrintTypes(ts[1..]), after);
      Assoc(Print(ts[0]), [Comma] + PrintTypes(ts[1..]), after);
      Drop(Comma, PrintTypes(ts[1..]) + after);
      TypeParsed(ts[0], tail);
      TypesParsed(ts[1..], after);
      assert ts == [ts[0]] + ts[1..];
    }
  }

  /** However its closers are paired, the printed type is parsed back and exactly its tokens are taken. */
  lemma AnyPairing(t: Type, s: seq<Token>, after: seq<Token>)
    requires Complete(t) && Ends(t, after) && Expand(s) == Print(t) + after
    ensures ParseType(s).0 == t && Expand(ParseType(s).1) == after
  {
    TypeSame(s);
    TypeParsed(t, after);
  }

  // ----- Nothing is taken that the tree does not hold -----

  lemma CloseTakes(s: seq<Token>)
    ensures Expand(s) == (if Close(s).0 then [Greater] else []) + Expand(Close(s).1)
  {
    if At(s, GreaterGreater) || At(s, GreaterGreaterEqual) {
      var half := if At(s, GreaterGreater) then Greater else GreaterEqual;
      Drop(half, s[1..]);
      assert Expand(s) == [Greater] + ([half] + Expand(s[1..]));
    }
  }

  lemma {:induction false} TypeTakes(s: seq<Token>)
    ensures Expand(s) == Print(ParseType(s).0) + Expand(ParseType(s).1)
    decreases |s|, 1
  {
    hide Expand, PrintArgs, ParseArgs;
    var (modifier, s1) := if s != [] && IsModifier(s[0]) then (Some(s[0]), s[1..]) else (None, s);
    var (name, s2) := if s1 != [] && s1[0].Identifier? then (Some(s1[0]), s1[1..]) else (None, s1);
    var (t, rest) := ParseType(s);
    OneTaken(modifier, s, s1);
    OneTaken(name, s1, s2);
    if At(s2, Less) {
      ArgsTake(s2);
    } else {
      NoArgsPrinted(Expand(rest));
    }
    Assoc(One(modifier), One(name), Expand(s2));
    Assoc(One(modifier) + One(name), PrintArgs(t.args), Expand(rest));
  }

  lemma NoArgsPrinted(rest: seq<Token>)
    ensures PrintArgs(NoArgs) + rest == rest
  {
  }

  /** A token that was taken, or not, in front of what is left. */
  lemma OneTaken(t: Option<Token>, s: seq<Token>, rest: seq<Token>)
    requires if t.None? then rest == s else s != [] && s[0] == t.value && rest == s[1..]
    requires t.Some? ==> t.value != GreaterGreater && t.value != GreaterGreaterEqual
    ensures Expand(s) == One(t) + Expand(rest)
  {
    if t.None? {
      assert One(t) + Expand(rest) == Expand(rest);
    }
  }

  lemma {:induction false} ArgsTake(s: seq<Token>)
    requires At(s, Less)
    ensures Expand(s) == PrintArgs(ParseArgs(s).0) + Expand(ParseArgs(s).1)
    decreases |s|, 0
  {
    var (types, s1) := ParseTypes(s[1..]);
    var (closed, rest) := Close(s1);
    var closer := if closed then [Greater] else [];
    TypesTake(s[1..]);
    CloseTakes(s1);
    Assoc(PrintTypes(types), closer, Expand(rest));
    Assoc([Less], PrintTypes(types) + closer, Expand(rest));
    Assoc([Less], PrintTypes(types), closer);
  }

  lemma ExpandPlain(s: seq<Token>)
    requires s != [] && s[0] != GreaterGreater && s[0] != GreaterGreaterEqual
    ensures Expand(s) == [s[0]] + Expand(s[1..])
  {
  }

  lemma PrintMore(t: Type, ts: seq<Type>)
    requires ts != []
    ensures PrintTypes([t]) == Print(t)
    ensures PrintTypes([t] + ts) == Print(t) + ([Comma] + PrintTypes(ts))
  {
    hide Print;
    assert ([t] + ts)[1..] == ts;
    assert Print(t) + [] == Print(t);
  }

  lemma {:induction false} TypesTake(s: seq<Token>)
    ensures Expand(s) == PrintTypes(ParseTypes(s).0) + Expand(ParseTypes(s).1)
    decreases |s|, 2
  {
    hide Expand, Print, PrintTypes, ParseType;
    var (t, s1) := ParseType(s);
    TypeTakes(s);
    if At(s1, Comma) {
      var (ts, rest) := ParseTypes(s1[1..]);
      TypesTake(s1[1..]);
      ExpandPlain(s1);
      PrintMore(t, ts);
      Assoc([Comma], PrintTypes(ts), Expand(rest));
      Assoc(Print(t), [Comma] + PrintTypes(ts), Expand(rest));
    } else {
      PrintMore(t, [t]);
    }
  }

  /** A stream parses to `t` exactly when its expansion begins with the tokens of `t`. */
  lemma ParsedExactly(t: Type, s: seq<Token>)
    requires Complete(t)
    ensures ParseType(s).0 == t <==> Print(t) <= Expand(s) && Ends(t, Expand(s)[|Print(t)|..])
  {
    hide Expand, Print, ParseType, Ends, Complete;
    TypeTakes(s);
    if ParseType(s).0 == t {
      NameEnds(s);
    } else if Print(t) <= Expand(s) && Ends(t, Expand(s)[|Print(t)|..]) {
      AnyPairing(t, s, Expand(s)[|Print(t)|..]);
    }
  }

  /** A type read without arguments is not followed by `<`. */
  lemma NameEnds(s: seq<Token>)
    ensures Ends(ParseType(s).0, Expand(ParseType(s).1))
  {
    ExpandHead(ParseType(s).1);
  }

  /** When the last closer is fused to `=`, the type is not parsed back: such a token is never split into a closer. */
  lemma FusedToEqual(t: Type, s: seq<Token>, after: seq<Token>)
    requires Complete(t) && t.args.Angled?
    requires Expand(s) == Print(t)[..|Print(t)| - 1] + [GreaterEqual] + after
    ensures ParseType(s).0 != t
  {
    ParsedExactly(t, s);
    assert Print(t)[|Print(t)| - 1] == Greater;
    assert Expand(s)[|Print(t)| - 1] == GreaterEqual;
  }

  /** Each of the three modifiers in front of a name is read back, and nothing else is taken for one. */
  lemma ModifiersRead(name: string, other: Token, rest: seq<Token>)
    requires !At(rest, Less) && other != KwUniq && other != KwRef && other != KwWeak
    ensures ParseType([KwUniq] + ([Identifier(name)] + rest)) == (Type(Some(KwUniq), Some(Identifier(name)), NoArgs), rest)
    ensures ParseType([KwRef] + ([Identifier(name)] + rest)) == (Type(Some(KwRef), Some(Identifier(name)), NoArgs), rest)
    ensures ParseType([KwWeak] + ([Identifier(name)] + rest)) == (Type(Some(KwWeak), Some(Identifier(name)), NoArgs), rest)
    ensures ParseType([Identifier(name)] + rest) == (Type(None, Some(Identifier(name)), NoArgs), rest)
    ensures ParseType([other] + rest).0.modifier == None
  {
    ModifiersOnly(other);
    hide ParseType, IsModifier;
    ModifierRead(KwUniq, name, rest);
    ModifierRead(KwRef, name, rest);
    ModifierRead(KwWeak, name, rest);
    NameStep(Identifier(name), rest);
    OtherRead(other, rest);
  }

  lemma ModifiersOnly(other: Token)
    ensures IsModifier(other) <==> other == KwUniq || other == KwRef || other == KwWeak
    ensures IsModifier(KwUniq) && IsModifier(KwRef) && IsModifier(KwWeak)
  {
  }

  lemma ModifierRead(modifier: Token, name: string, rest: seq<Token>)
    requires IsModifier(modifier) && !At(rest, Less)
    ensures ParseType([modifier] + ([Identifier(name)] + rest)) == (Type(Some(modifier), Some(Identifier(name)), NoArgs), rest)
  {
    hide ParseArgs;
    FirstOf(modifier, [Identifier(name)] + rest);
    FirstOf(Identifier(name), rest);
  }

  lemma OtherRead(other: Token, rest: seq<Token>)
    requires !IsModifier(other)
    ensures ParseType([other] + rest).0.modifier == None
  {
    hide ParseArgs;
    FirstOf(other, rest);
  }

  lemma FirstOf(a: Token, s: seq<Token>)
    ensures ([a] + s)[0] == a && ([a] + s)[1..] == s
  {
  }

  /** Two arguments, the second with one of its own, and both closers in one token. */
  lemma NestedRead(a: string, b: string, c: string, d: string, rest: seq<Token>)
    ensures ParseType([Identifier(a)] + ([Less] + ([Identifier(b)] + ([Comma] + ([KwRef] + ([Identifier(c)] + ([Less] + ([Identifier(d)] + ([GreaterGreater] + rest)))))))))
         == (Type(None, Some(Identifier(a)), Angled([
               Type(None, Some(Identifier(b)), NoArgs),
               Type(Some(KwRef), Some(Identifier(c)), Angled([Type(None, Some(Identifier(d)), NoArgs)], true))], true)), rest)
  {
    hide ParseType, ParseTypes, ParseArgs;
    var closers := [GreaterGreater] + rest;
    var left := [Greater] + rest;
    var td := Type(None, Some(Identifier(d)), NoArgs);
    var tc := Type(Some(KwRef), Some(Identifier(c)), Angled([td], true));
    FirstOf(GreaterGreater, rest);
    FirstOf(Greater, rest);
    NameStep(Identifier(d), closers);
    LastStep([Identifier(d)] + closers, td, closers);
    ArgsStep([Identifier(d)] + closers, [td], closers);
    NamedStep(KwRef, Identifier(c), [Identifier(d)] + closers, Angled([td], true), left);
    var second := [KwRef] + ([Identifier(c)] + ([Less] + ([Identifier(d)] + closers)));
    LastStep(second, tc, left);
    FirstOf(Comma, second);
    NameStep(Identifier(b), [Comma] + second);
    var tb := Type(None, Some(Identifier(b)), NoArgs);
    CommaStep([Identifier(b)] + ([Comma] + second), tb, second, [tc], left);
    assert [tb] + [tc] == [tb, tc];
    ArgsStep([Identifier(b)] + ([Comma] + second), [tb, tc], left);
    NamedStep(KwRef, Identifier(a), [Identifier(b)] + ([Comma] + second), Angled([tb, tc], true), rest);
  }

  lemma NameStep(name: Token, rest: seq<Token>)
    requires name.Identifier? && !At(rest, Less)
    ensures ParseType([name] + rest) == (Type(None, Some(name), NoArgs), rest)
  {
    FirstOf(name, rest);
  }

  lemma NamedStep(modifier: Token, name: Token, s: seq<Token>, args: Args, rest: seq<Token>)
    requires name.Identifier? && IsModifier(modifier) && ParseArgs([Less] + s) == (args, rest)
    ensures ParseType([name] + ([Less] + s)) == (Type(None, Some(name), args), rest)
    ensures ParseType([modifier] + ([name] + ([Less] + s))) == (Type(Some(modifier), Some(name), args), rest)
  {
    hide ParseArgs;
    FirstOf(Less, s);
    FirstOf(name, [Less] + s);
    FirstOf(modifier, [name] + ([Less] + s));
  }

  lemma ArgsStep(s: seq<Token>, ts: seq<Type>, after: seq<Token>)
    requires ParseTypes(s) == (ts, after)
    ensures ParseArgs([Less] + s) == (Angled(ts, Close(after).0), Close(after).1)
  {
    hide ParseTypes;
    FirstOf(Less, s);
  }

  lemma LastStep(s: seq<Token>, t: Type, after: seq<Token>)
    requires ParseType(s) == (t, after) && !At(after, Comma)
    ensures ParseTypes(s) == ([t], after)
  {
    hide ParseType;
  }

  lemma CommaStep(s: seq<Token>, t: Type, more: seq<Token>, ts: seq<Type>, after: seq<Token>)
    requires ParseType(s) == (t, [Comma] + more) && ParseTypes(more) == (ts, after)
    ensures ParseTypes(s) == ([t] + ts, after)
  {
    hide ParseType;
    FirstOf(Comma, more);
  }

  lemma Append(types: seq<Type>, t: Type, all: seq<Type>)
    ensures all == [t] ==> types + all == types + [t]
    ensures all != [] && all[0] == t ==> types + all == (types + [t]) + all[1..]
  {
  }

  // ----- The parser itself -----

  class Parser {
    const tokens: seq<Token>
    /** How many tokens the lexer has handed out; the last of them is `current` unless it was split. */
    var lexed: nat
    var current: Token

    ghost predicate Valid()
      reads this
    {
      && lexed <= |tokens| && Eof !in tokens
      && (current == Eof ==> lexed == |tokens|)
    }

    ghost function Ahead(): seq<Token>
      requires Valid()
      reads this
    {
      if current == Eof then [] else [current] + tokens[lexed..]
    }

    constructor (tokens: seq<Token>)
      requires Eof !in tokens
      ensures this.tokens == tokens && Valid() && Ahead() == tokens
    {
      this.tokens := tokens;
      lexed := if tokens == [] then 0 else 1;
      current := if tokens == [] then Eof else tokens[0];
    }

    method Advance()
      requires Valid()
      modifies this
      ensures Valid()
      ensures Ahead() == if old(Ahead()) == [] then [] else old(Ahead())[1..]
    {
      if lexed < |tokens| {
        current := tokens[lexed];
        lexed := lexed + 1;
      } else {
        current := Eof;
      }
    }

    method ParseTypeExpr() returns (t: Type)
      requires Valid()
      modifies this
      ensures Valid() && (t, Ahead()) == ParseType(old(Ahead()))
      decreases |Ahead()|, 1
    {
      var modifier, name := None, None;
      if IsModifier(current) {
        modifier := Some(current);
        Advance();
      }
      if current.Identifier? {
        name := Some(current);
        Advance();
      }
      var args := NoArgs;
      if current == Less {
        args := ParseTypeArgs();
      }
      t := Type(modifier, name, args);
    }

    method ParseTypeArgs() returns (a: Args)
      requires Valid() && current == Less
      modifies this
      ensures Valid() && At(old(Ahead()), Less) && (a, Ahead()) == ParseArgs(old(Ahead()))
      decreases |Ahead()|, 0
    {
      Advance();
      var types := ParseTypeList();
      var closed := ConsumeClosingAngle();
      a := Angled(types, closed);
    }

    method ParseTypeList() returns (types: seq<Type>)
      requires Valid()
      modifies this
      ensures Valid() && (types, Ahead()) == ParseTypes(old(Ahead()))
      decreases |Ahead()|, 2
    {
      hide ParseType, Complete;
      ghost var s := Ahead();
      types := [];
      assert types + ParseTypes(s).0 == ParseTypes(s).0;
      var more := true;
      while more
        invariant Valid() && |Ahead()| <= |s|
        invariant more ==> ParseTypes(s) == (types + ParseTypes(Ahead()).0, ParseTypes(Ahead()).1)
        invariant !more ==> ParseTypes(s) == (types, Ahead())
        decreases more, |Ahead()|
      {
        ghost var soFar, later := types, ParseTypes(Ahead()).0;
        var t := ParseTypeExpr();
        types := types + [t];
        Append(soFar, t, later);
        more := current == Comma;
        if more {
          Advance();
        }
      }
    }

    method ConsumeClosingAngle() returns (closed: bool)
      requires Valid()
      modifies this
      ensures Valid() && (closed, Ahead()) == Close(old(Ahead()))
    {
      closed := true;
      if current == Greater {
        Advance();
      } else if current == GreaterGreater {
        current := Greater;
      } else if current == GreaterGreaterEqual {
        current := GreaterEqual;
      } else {
        closed := false;
      }
    }

    /**
     Reads `<types>` after a name as generic arguments only when the list is
     closed and a call or a struct literal follows; otherwise the parser is put
     back exactly where it was and `<` is left to be a comparison.
     */
    method TryGenericArgs() returns (ok: bool, args: Args)
      requires Valid() && current == Less
      modifies this
      ensures Valid() && At(old(Ahead()), Less)
      ensures var (a, rest) := ParseArgs(old(Ahead()));
              && (ok <==> a.closed && (At(rest, LeftParen) || At(rest, LeftBrace)))
              && (ok ==> args == a && Ahead() == rest)
      ensures !ok ==> lexed == old(lexed) && current == old(current)
    {
      var savedLexed, savedCurrent := lexed, current;
      args := ParseTypeArgs();
      ok := args.closed && (current == LeftParen || current == LeftBrace);
      if !ok {
        lexed, current := savedLexed, savedCurrent;
      }
    }
  }
}
