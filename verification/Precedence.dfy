/**
 Precedence climbing. One `Operand` token stands for everything the primary and
 postfix parsers take for an operand; a missing operand becomes an error node
 that takes no token.
 */
module Precedence {
  import opened Prelude

  datatype Token =
    | PipePipe | AmpAmp | Pipe | Caret | Amp | EqualEqual | BangEqual
    | Less | LessEqual | Greater | GreaterEqual | LessLess | GreaterGreater
    | Plus | Minus | Star | Slash | Percent
    | Bang | Tilde
    | Operand(id: int)
    | Other(code: int)

  datatype Rule = Rule(precedence: nat, rightAssoc: bool)

  /** Precedence 0 means that the token is not an infix operator. */
  function InfixRule(t: Token): Rule {
    match t
    case PipePipe => Rule(1, false)
    case AmpAmp => Rule(2, false)
    case Pipe => Rule(3, false)
    case Caret => Rule(4, false)
    case Amp => Rule(5, false)
    case EqualEqual | BangEqual => Rule(6, false)
    case Less | LessEqual | Greater | GreaterEqual => Rule(7, false)
    case LessLess | GreaterGreater => Rule(8, false)
    case Plus | Minus => Rule(9, false)
    case Star | Slash | Percent => Rule(10, false)
    case _ => Rule(0, false)
  }

  predicate IsPrefix(t: Token) {
    t == Bang || t == Minus || t == Tilde
  }

  datatype Tree =
    | Leaf(token: Token)
    | Missing
    | Unary(op: Token, operand: Tree)
    | Binary(left: Tree, op: Token, right: Tree)

  // ----- What a tree says about the tokens -----

  function Yield(t: Tree): seq<Token> {
    match t
    case Leaf(token) => [token]
    case Missing => []
    case Unary(op, operand) => [op] + Yield(operand)
    case Binary(left, op, right) => Yield(left) + [op] + Yield(right)
  }

  /** No error node anywhere. */
  predicate Complete(t: Tree) {
    match t
    case Leaf(_) => true
    case Missing => false
    case Unary(_, operand) => Complete(operand)
    case Binary(left, _, right) => Complete(left) && Complete(right)
  }

  predicate Binds(t: Token, min: nat) {
    InfixRule(t).precedence != 0 && InfixRule(t).precedence >= min
  }

  /** Operators on the left of a node bind at least as tightly as it does, those on its right strictly tighter. */
  predicate Shaped(t: Tree, min: nat) {
    match t
    case Leaf(token) => token.Operand?
    case Missing => true
    case Unary(op, operand) => IsPrefix(op) && !operand.Binary? && Shaped(operand, min)
    case Binary(left, op, right) =>
      && Binds(op, min)
      && Shaped(left, InfixRule(op).precedence)
      && Shaped(right, InfixRule(op).precedence + 1)
  }

  /** No operator of precedence `min` or more is next. */
  predicate Stops(s: seq<Token>, min: nat) {
    s == [] || !Binds(s[0], min)
  }

  /** Operands with any prefix operators, joined by infix operators. */
  predicate Sentence(s: seq<Token>, wantOperand: bool) {
    if s == [] then
      !wantOperand
    else if wantOperand then
      (IsPrefix(s[0]) && Sentence(s[1..], true)) || (s[0].Operand? && Sentence(s[1..], false))
    else
      InfixRule(s[0]).precedence != 0 && Sentence(s[1..], true)
  }

  // ----- The parser as a function -----

  function ParseUnary(s: seq<Token>): (r: (Tree, seq<Token>))
    ensures |r.1| <= |s|
  {
    if s != [] && IsPrefix(s[0]) then
      var (operand, rest) := ParseUnary(s[1..]);
      (Unary(s[0], operand), rest)
    else if s != [] && s[0].Operand? then
      (Leaf(s[0]), s[1..])
    else
      (Missing, s)
  }

  function NextMin(op: Token): nat {
    if InfixRule(op).rightAssoc then InfixRule(op).precedence else InfixRule(op).precedence + 1
  }

  function Parse(s: seq<Token>, min: nat): (r: (Tree, seq<Token>))
    ensures |r.1| <= |s|
    decreases |s|, 1
  {
    var (left, rest) := ParseUnary(s);
    Climb(left, rest, min)
  }

  /** Goes on from `left` while an operator of precedence `min` or more is next. */
  function Climb(left: Tree, s: seq<Token>, min: nat): (r: (Tree, seq<Token>))
    ensures |r.1| <= |s|
    decreases |s|, 0
  {
    if Stops(s, min) then
      (left, s)
    else
      var (right, rest) := Parse(s[1..], NextMin(s[0]));
      Climb(Binary(left, s[0], right), rest, min)
  }

  // ----- Sound: the tree is shaped, yields what was taken, and stops where it must -----

  /** Every operator is left-associative, so what follows it must bind tighter. */
  lemma NextMinTighter(op: Token)
    ensures NextMin(op) == InfixRule(op).precedence + 1
  {
  }

  lemma {:induction false} UnarySound(s: seq<Token>, min: nat)
    ensures var (t, rest) := ParseUnary(s);
            Yield(t) + rest == s && Shaped(t, min) && !t.Binary?
  {
    hide InfixRule;
    if s != [] && IsPrefix(s[0]) {
      UnarySound(s[1..], min);
      var (operand, rest) := ParseUnary(s[1..]);
      Assoc([s[0]], Yield(operand), rest);
      assert s == [s[0]] + s[1..];
    }
  }

  lemma {:induction false} ParseSound(s: seq<Token>, min: nat)
    ensures var (t, rest) := Parse(s, min);
            Yield(t) + rest == s && Shaped(t, min) && Stops(rest, min)
    decreases |s|, 1
  {
    var (left, rest) := ParseUnary(s);
    UnarySound(s, min);
    ClimbSound(left, rest, min);
  }

  lemma {:induction false} ClimbSound(left: Tree, s: seq<Token>, min: nat)
    requires Shaped(left, min) && (left.Binary? ==> Stops(s, InfixRule(left.op).precedence + 1))
    ensures var (t, rest) := Climb(left, s, min);
            Yield(t) + rest == Yield(left) + s && Shaped(t, min) && Stops(rest, min)
    decreases |s|, 0
  {
    hide InfixRule, NextMin;
    if !Stops(s, min) {
      var op := s[0];
      var (right, rest) := Parse(s[1..], NextMin(op));
      NextMinTighter(op);
      ParseSound(s[1..], NextMin(op));
      Loosen(left, min, InfixRule(op).precedence);
      ClimbSound(Binary(left, op, right), rest, min);
      assert s == [op] + s[1..];
      Assoc([op], Yield(right), rest);
      Assoc(Yield(left), [op] + Yield(right), rest);
      Assoc(Yield(left), [op], Yield(right));
    }
  }

  /** A node whose own operator is tight enough may stand anywhere at that level. */
  lemma {:induction false} Loosen(t: Tree, min: nat, level: nat)
    requires Shaped(t, min) && (t.Binary? ==> InfixRule(t.op).precedence >= level)
    ensures Shaped(t, level)
  {
    if t.Unary? {
      Loosen(t.operand, min, level);
    }
  }

  // ----- Complete: every shaped tree is what its own tokens parse to -----

  lemma {:induction false} UnaryComplete(t: Tree, rest: seq<Token>)
    requires Complete(t) && Shaped(t, 0) && !t.Binary?
    ensures ParseUnary(Yield(t) + rest) == (t, rest)
  {
    if t.Unary? {
      UnaryComplete(t.operand, rest);
      assert (Yield(t) + rest)[1..] == Yield(t.operand) + rest;
    } else {
      assert (Yield(t) + rest)[1..] == rest;
    }
  }

  /** After the tokens of `t`, the parser is at the top of its loop with `t` on the left. */
  lemma {:induction false} Reached(t: Tree, rest: seq<Token>, min: nat)
    requires Complete(t) && Shaped(t, min) && (t.Binary? ==> Stops(rest, InfixRule(t.op).precedence + 1))
    ensures Parse(Yield(t) + rest, min) == Climb(t, rest, min)
  {
    if t.Binary? {
      var level := InfixRule(t.op).precedence;
      var after := [t.op] + (Yield(t.right) + rest);
      assert Yield(t) + rest == Yield(t.left) + after;
      assert after[1..] == Yield(t.right) + rest;
      Loosen(t.left, level, min);
      Reached(t.left, after, min);
      Reached(t.right, rest, level + 1);
      assert Stops(rest, level + 1);
      assert Climb(t.right, rest, level + 1) == (t.right, rest);
    } else {
      Loosen(t, min, 0);
      UnaryComplete(t, rest);
    }
  }

  /** Every shaped tree is parsed back from its tokens, up to the first operator below the minimum. */
  lemma TreeParsed(t: Tree, rest: seq<Token>, min: nat)
    requires Complete(t) && Shaped(t, min) && Stops(rest, min)
    ensures Parse(Yield(t) + rest, min) == (t, rest)
  {
    Reached(t, rest, min);
  }

  lemma UniqueTree(t: Tree, u: Tree, min: nat)
    requires Complete(t) && Complete(u) && Shaped(t, min) && Shaped(u, min) && Yield(t) == Yield(u)
    ensures t == u
  {
    TreeParsed(t, [], min);
    TreeParsed(u, [], min);
  }

  // ----- Total: well-formed tokens parse without an error node -----

  lemma {:induction false} UnaryTotal(s: seq<Token>)
    requires Sentence(s, true)
    ensures var (t, rest) := ParseUnary(s); Complete(t) && Sentence(rest, false)
  {
    if IsPrefix(s[0]) {
      UnaryTotal(s[1..]);
    }
  }

  lemma {:induction false} ParseTotal(s: seq<Token>, min: nat)
    requires Sentence(s, true)
    ensures var (t, rest) := Parse(s, min); Complete(t) && Sentence(rest, false)
    decreases |s|, 1
  {
    UnaryTotal(s);
    var (left, rest) := ParseUnary(s);
    ClimbTotal(left, rest, min);
  }

  lemma {:induction false} ClimbTotal(left: Tree, s: seq<Token>, min: nat)
    requires Complete(left) && Sentence(s, false)
    ensures var (t, rest) := Climb(left, s, min); Complete(t) && Sentence(rest, false)
    decreases |s|, 0
  {
    if !Stops(s, min) {
      ParseTotal(s[1..], NextMin(s[0]));
      var (right, rest) := Parse(s[1..], NextMin(s[0]));
      ClimbTotal(Binary(left, s[0], right), rest, min);
    }
  }

  /** A sentence is taken whole, into the one shaped tree that yields it. */
  lemma SentenceParsed(s: seq<Token>)
    requires Sentence(s, true)
    ensures var (t, rest) := Parse(s, 1);
            && rest == [] && Complete(t) && Shaped(t, 1) && Yield(t) == s
            && forall u :: Complete(u) && Shaped(u, 1) && Yield(u) == s ==> u == t
  {
    ParseTotal(s, 1);
    ParseSound(s, 1);
    var (t, rest) := Parse(s, 1);
    assert rest == [];
    forall u | Complete(u) && Shaped(u, 1) && Yield(u) == s
      ensures u == t
    {
      UniqueTree(u, t, 1);
    }
  }

  lemma Taken(s: seq<Token>, i: nat, j: nat, part: seq<Token>)
    requires i <= j <= |s| && part + s[j..] == s[i..]
    ensures part == s[i..j]
  {
    assert part == s[i..][..j - i];
  }

  // ----- The parser itself -----

  class Parser {
    const tokens: seq<Token>
    var pos: nat

    constructor (tokens: seq<Token>)
      ensures this.tokens == tokens && pos == 0
    {
      this.tokens := tokens;
      pos := 0;
    }

    ghost function Ahead(): seq<Token>
      requires pos <= |tokens|
      reads this`pos
    {
      tokens[pos..]
    }

    method ParsePrecedence(min: nat) returns (left: Tree)
      requires pos <= |tokens|
      modifies this
      ensures old(pos) <= pos <= |tokens|
      ensures (left, Ahead()) == Parse(old(Ahead()), min)
      ensures Yield(left) == tokens[old(pos)..pos] && Shaped(left, min) && Stops(Ahead(), min)
      decreases |tokens| - pos, 1
    {
      hide InfixRule, NextMin, Shaped, Yield;
      ghost var start := pos;
      left := Unary();
      while pos < |tokens| && Binds(tokens[pos], min)
        invariant start <= pos <= |tokens|
        invariant Climb(left, Ahead(), min) == Parse(old(Ahead()), min)
        decreases |tokens| - pos
      {
        var op := tokens[pos];
        assert Ahead()[0] == op && Ahead()[1..] == tokens[pos + 1..];
        pos := pos + 1;
        var right := ParsePrecedence(NextMin(op));
        left := Binary(left, op, right);
      }
      ParseSound(tokens[start..], min);
      Taken(tokens, start, pos, Yield(left));
    }

    method Unary() returns (t: Tree)
      requires pos <= |tokens|
      modifies this
      ensures old(pos) <= pos <= |tokens|
      ensures (t, Ahead()) == ParseUnary(old(Ahead()))
      decreases |tokens| - pos, 0
    {
      if pos < |tokens| && IsPrefix(tokens[pos]) {
        var op := tokens[pos];
        assert Ahead()[0] == op && Ahead()[1..] == tokens[pos + 1..];
        pos := pos + 1;
        var operand := Unary();
        t := Tree.Unary(op, operand);
      } else if pos < |tokens| && tokens[pos].Operand? {
        t := Leaf(tokens[pos]);
        assert Ahead()[0] == tokens[pos] && Ahead()[1..] == tokens[pos + 1..];
        pos := pos + 1;
      } else {
        t := Missing;
      }
    }
  }
}
