/**
 The expression grammar with one rule for each level of operators, and that the
 precedence table makes the parser accept exactly its derivations.
 */
module PrecedenceGrammar {
  import opened Precedence

  // ----- The grammar, loosest operators first; every level groups to the left -----

  predicate LogicalOr(t: Tree)
    decreases t, 10
  {
    LogicalAnd(t) || (t.Binary? && t.op == PipePipe && LogicalOr(t.left) && LogicalAnd(t.right))
  }

  predicate LogicalAnd(t: Tree)
    decreases t, 9
  {
    BitOr(t) || (t.Binary? && t.op == AmpAmp && LogicalAnd(t.left) && BitOr(t.right))
  }

  predicate BitOr(t: Tree)
    decreases t, 8
  {
    BitXor(t) || (t.Binary? && t.op == Pipe && BitOr(t.left) && BitXor(t.right))
  }

  predicate BitXor(t: Tree)
    decreases t, 7
  {
    BitAnd(t) || (t.Binary? && t.op == Caret && BitXor(t.left) && BitAnd(t.right))
  }

  predicate BitAnd(t: Tree)
    decreases t, 6
  {
    Equality(t) || (t.Binary? && t.op == Amp && BitAnd(t.left) && Equality(t.right))
  }

  predicate Equality(t: Tree)
    decreases t, 5
  {
    Comparison(t) || (t.Binary? && t.op in {EqualEqual, BangEqual} && Equality(t.left) && Comparison(t.right))
  }

  predicate Comparison(t: Tree)
    decreases t, 4
  {
    Shift(t) || (t.Binary? && t.op in {Less, LessEqual, Greater, GreaterEqual} && Comparison(t.left) && Shift(t.right))
  }

  predicate Shift(t: Tree)
    decreases t, 3
  {
    Additive(t) || (t.Binary? && t.op in {LessLess, GreaterGreater} && Shift(t.left) && Additive(t.right))
  }

  predicate Additive(t: Tree)
    decreases t, 2
  {
    Multiplicative(t) || (t.Binary? && t.op in {Plus, Minus} && Additive(t.left) && Multiplicative(t.right))
  }

  predicate Multiplicative(t: Tree)
    decreases t, 1
  {
    Prefixed(t) || (t.Binary? && t.op in {Star, Slash, Percent} && Multiplicative(t.left) && Prefixed(t.right))
  }

  predicate Prefixed(t: Tree)
    decreases t, 0
  {
    match t
    case Leaf(token) => token.Operand?
    case Unary(op, operand) => op in {Bang, Minus, Tilde} && Prefixed(operand)
    case _ => false
  }

  /** The tokens of all the levels together. */
  const OPERATORS: set<Token> := {
    PipePipe, AmpAmp, Pipe, Caret, Amp, EqualEqual, BangEqual, Less, LessEqual, Greater, GreaterEqual,
    LessLess, GreaterGreater, Plus, Minus, Star, Slash, Percent}

  // ----- Shapes are derivations -----

  /** The rules by number, 11 for a prefixed operand. */
  predicate AtLevel(t: Tree, level: nat) {
    match level
    case 1 => LogicalOr(t)
    case 2 => LogicalAnd(t)
    case 3 => BitOr(t)
    case 4 => BitXor(t)
    case 5 => BitAnd(t)
    case 6 => Equality(t)
    case 7 => Comparison(t)
    case 8 => Shift(t)
    case 9 => Additive(t)
    case 10 => Multiplicative(t)
    case _ => Prefixed(t)
  }

  lemma {:induction false} PrefixedShape(t: Tree, min: nat)
    requires !t.Binary?
    ensures Prefixed(t) <==> Complete(t) && Shaped(t, min)
  {
    if t.Unary? && !t.operand.Binary? {
      PrefixedShape(t.operand, min);
    }
  }

  /** A derivation at a level is a derivation at every looser one, and one without an operator is a prefixed operand. */
  lemma LevelStep(t: Tree, level: nat)
    requires 1 <= level <= 10
    ensures AtLevel(t, level) <==>
            AtLevel(t, level + 1) || (t.Binary? && InfixRule(t.op).precedence == level && AtLevel(t.left, level) && AtLevel(t.right, level + 1))
  {
  }

  /** At every level, the derivations are the trees without error nodes that the parser's table shapes. */
  lemma {:induction false} LevelShape(t: Tree, level: nat)
    requires 1 <= level <= 11
    ensures AtLevel(t, level) <==> Complete(t) && Shaped(t, level)
    decreases t, 11 - level
  {
    hide AtLevel, InfixRule;
    if level == 11 {
      TopLevel(t);
      if !t.Binary? {
        PrefixedShape(t, level);
      }
    } else {
      LevelStep(t, level);
      LevelShape(t, level + 1);
      if t.Binary? {
        LevelShape(t.left, level);
        LevelShape(t.right, level + 1);
      } else {
        PrefixedShape(t, level);
        PrefixedShape(t, level + 1);
      }
    }
  }

  lemma TopLevel(t: Tree)
    ensures AtLevel(t, 11) == Prefixed(t)
    ensures t.Binary? ==> !Shaped(t, 11)
  {
  }

  lemma OperatorsBind(t: Token)
    ensures t in OPERATORS <==> Binds(t, 1)
  {
  }

  /**
   The parser takes tokens for a tree without error nodes exactly when they are the
   tree's, the tree is derived by the grammar, and no operator follows.
   */
  lemma ParsedExactly(s: seq<Token>, t: Tree, rest: seq<Token>)
    ensures Parse(s, 1) == (t, rest) && Complete(t) <==>
            s == Yield(t) + rest && LogicalOr(t) && (rest == [] || rest[0] !in OPERATORS)
  {
    hide Shaped, Complete, InfixRule, LogicalOr, Parse, Binds;
    assert AtLevel(t, 1) == LogicalOr(t);
    LevelShape(t, 1);
    ParseSound(s, 1);
    if rest != [] {
      OperatorsBind(rest[0]);
    }
    if s == Yield(t) + rest && LogicalOr(t) && (rest == [] || rest[0] !in OPERATORS) {
      TreeParsed(t, rest, 1);
    }
  }

  // ----- Sentences -----

  lemma SentenceStep(a: Token, s: seq<Token>)
    ensures IsPrefix(a) && Sentence(s, true) ==> Sentence([a] + s, true)
    ensures a.Operand? && Sentence(s, false) ==> Sentence([a] + s, true)
    ensures InfixRule(a).precedence != 0 && Sentence(s, true) ==> Sentence([a] + s, false)
  {
    hide InfixRule;
    assert ([a] + s)[1..] == s;
  }

  lemma {:induction false} YieldGoesOn(t: Tree, rest: seq<Token>, min: nat)
    requires Complete(t) && Shaped(t, min) && Sentence(rest, false)
    ensures Sentence(Yield(t) + rest, true)
  {
    hide InfixRule, Sentence;
    match t
    case Leaf(token) =>
      SentenceStep(token, rest);
    case Unary(op, operand) =>
      YieldGoesOn(operand, rest, min);
      SentenceStep(op, Yield(operand) + rest);
      assert Yield(t) + rest == [op] + (Yield(operand) + rest);
    case Binary(left, op, right) =>
      YieldGoesOn(right, rest, InfixRule(op).precedence + 1);
      SentenceStep(op, Yield(right) + rest);
      YieldGoesOn(left, [op] + (Yield(right) + rest), InfixRule(op).precedence);
      assert Yield(t) + rest == Yield(left) + ([op] + (Yield(right) + rest));
  }

  /** The token sequences that are taken whole are those that the grammar derives. */
  lemma SentencesDerived(s: seq<Token>)
    ensures Sentence(s, true) <==> exists t :: LogicalOr(t) && Yield(t) == s
  {
    if Sentence(s, true) {
      SentenceParsed(s);
      var (t, _) := Parse(s, 1);
      LevelShape(t, 1);
      assert LogicalOr(t) && Yield(t) == s;
    }
    if t :| LogicalOr(t) && Yield(t) == s {
      LevelShape(t, 1);
      YieldGoesOn(t, [], 1);
      assert Yield(t) + [] == s;
    }
  }

  /** Parsing an expression finds its derivation, when there is one, and otherwise a tree with an error node. */
  method ParseExpression(tokens: seq<Token>) returns (t: Tree, pos: nat)
    ensures pos <= |tokens| && Yield(t) == tokens[..pos]
    ensures Complete(t) ==> LogicalOr(t) && (pos == |tokens| || tokens[pos] !in OPERATORS)
    ensures forall u, n: nat :: n <= |tokens| && LogicalOr(u) && Yield(u) == tokens[..n] && (n == |tokens| || tokens[n] !in OPERATORS) ==>
              u == t && n == pos
  {
    hide Shaped, Complete, InfixRule, LogicalOr, Parse, Binds, Yield;
    var parser := new Parser(tokens);
    assert tokens[0..] == tokens;
    t := parser.ParsePrecedence(1);
    pos := parser.pos;
    ParsedExactly(tokens, t, tokens[pos..]);
    assert tokens == tokens[..pos] + tokens[pos..];
    forall u, n: nat | n <= |tokens| && LogicalOr(u) && Yield(u) == tokens[..n] && (n == |tokens| || tokens[n] !in OPERATORS)
      ensures u == t && n == pos
    {
      assert tokens == tokens[..n] + tokens[n..];
      ParsedExactly(tokens, u, tokens[n..]);
    }
  }
}
