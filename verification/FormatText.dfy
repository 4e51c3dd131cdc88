/**
 What the formatter writes for each kind of argument, on the characters
 themselves: every number read back from its text, and where the fill goes.
 */
module FormatText {
  import opened Prelude
  import opened Modular
  import opened FormatSpec
  import opened Format

  const LOWER: string := "0123456789abcdef"
  const UPPER: string := "0123456789ABCDEF"

  // ----- Numerals -----

  /** The digits spelt in an alphabet. */
  function Spelt(digits: seq<nat>, alphabet: string): string
    requires forall i :: 0 <= i < |digits| ==> digits[i] < |alphabet|
  {
    seq(|digits|, i requires 0 <= i < |digits| => alphabet[digits[i]])
  }

  /** The number that digits, from the left, go on to from `n`. */
  function Onward(n: nat, digits: seq<nat>, base: nat): nat
    decreases |digits|
  {
    if digits == [] then n else Onward(n * base + digits[0], digits[1..], base)
  }

  /** `text` spells `n` in the base, most significant digit first and without leading zeros. */
  predicate Spells(text: string, digits: seq<nat>, n: nat, base: nat, alphabet: string) {
    && digits != [] && base <= |alphabet| && (forall i :: 0 <= i < |digits| ==> digits[i] < base)
    && (digits[0] == 0 ==> |digits| == 1)
    && Onward(0, digits, base) == n && text == Spelt(digits, alphabet)
  }

  lemma {:induction false} OnwardLast(n: nat, digits: seq<nat>, d: nat, base: nat)
    ensures Onward(n, digits + [d], base) == Onward(n, digits, base) * base + d
    decreases |digits|
  {
    if digits == [] {
      assert digits + [d] == [d];
    } else {
      assert (digits + [d])[1..] == digits[1..] + [d];
      OnwardLast(n * base + digits[0], digits[1..], d, base);
    }
  }

  lemma DigitSpelt(d: nat, upper: bool)
    requires d < 16
    ensures DigitChar(d, upper) == (if upper then UPPER else LOWER)[d]
  {
    assert forall i :: 0 <= i < 10 ==> LOWER[i] == UPPER[i] == '0' + i as char;
    assert forall i :: 10 <= i < 16 ==> LOWER[i] == 'a' + (i - 10) as char && UPPER[i] == 'A' + (i - 10) as char;
  }

  lemma SpeltLast(digits: seq<nat>, d: nat, alphabet: string)
    requires d < |alphabet| && forall i :: 0 <= i < |digits| ==> digits[i] < |alphabet|
    ensures Spelt(digits + [d], alphabet) == Spelt(digits, alphabet) + [alphabet[d]]
  {
  }

  lemma {:induction false} NumeralSpells(n: nat, base: nat, upper: bool) returns (digits: seq<nat>)
    requires 2 <= base <= 16
    ensures Spells(Numeral(n, base, upper), digits, n, base, if upper then UPPER else LOWER)
    ensures n > 0 ==> digits[0] > 0
    decreases n
  {
    hide Numeral, DigitChar, Onward;
    var alphabet := if upper then UPPER else LOWER;
    NumeralParts(n, base, upper);
    Division(n, base);
    var d := n % base;
    DigitSpelt(d, upper);
    if n >= base {
      var front := NumeralSpells(n / base, base, upper);
      digits := front + [d];
      OnwardLast(0, front, d, base);
      SpeltLast(front, d, alphabet);
    } else {
      digits := [d];
      OneDigit(d, base);
      SpeltLast([], d, alphabet);
      assert [] + [d] == digits;
    }
  }

  lemma OneDigit(d: nat, base: nat)
    ensures Onward(0, [d], base) == d
  {
  }

  // ----- One placeholder -----

  lemma OnePiece(fmt: string, p: Piece)
    requires fmt != [] && First(fmt) == (p, |fmt|)
    ensures Pieces(fmt) == [p]
  {
    assert fmt[|fmt|..] == [];
  }

  lemma OneShown(spec: Option<Spec>, a: Arg)
    ensures Render([Hole(spec)], [a]) == Shown(a, spec)
  {
    assert [Hole(spec)][1..] == [] && [a][1..] == [];
    assert Shown(a, spec) + [] == Shown(a, spec);
  }

  /** A plain placeholder shows its argument as it is. */
  lemma PlainHole(a: Arg)
    ensures Output("{}", [a]) == ValueText(a, None)
  {
    OnePiece("{}", Hole(None));
    OneShown(None, a);
  }

  /** A placeholder with a specification shows its argument under it. */
  lemma SpecHole(spec: string, a: Arg)
    requires '}' !in spec
    ensures Output("{:" + spec + "}", [a]) == Shown(a, Some(SpecOf(spec)))
  {
    hide SpecOf, Render, Shown;
    var fmt := "{:" + spec + "}";
    assert fmt[2..|fmt| - 1] == spec;
    CloseIsFirst(fmt, 2, |fmt| - 1);
    OnePiece(fmt, Hole(Some(SpecOf(spec))));
    OneShown(Some(SpecOf(spec)), a);
  }

  /** Every specification applies as written, with or without a sign and a zero flag. */
  lemma SpecApplies(p: Spec, signed: bool, zero: bool, a: Arg)
    requires Writable(p) && (!signed ==> p.sign == '-') && p.fill != '}'
    ensures Output("{:" + Written(p, signed, zero) + "}", [a]) == Shown(a, Some(if zero then ZeroFilled(p) else p))
  {
    hide SpecOf, Output, Shown, Written;
    SpecReadBack(p, signed, zero);
    NoClose(p, signed, zero);
    SpecHole(Written(p, signed, zero), a);
  }

  lemma NoClose(p: Spec, signed: bool, zero: bool)
    requires Writable(p) && p.fill != '}'
    ensures '}' !in Written(p, signed, zero)
  {
    hide Numeral;
    NumeralDigits(p.width);
    if p.width > 0 {
      assert '}' !in Numeral(p.width, 10, false);
    }
  }

  // ----- Each kind of argument -----

  lemma ShortSpecs()
    ensures SpecOf("+") == Spec(' ', NUL, '+', 0, NUL)
    ensures SpecOf("x") == Spec(' ', NUL, '-', 0, 'x') && SpecOf("X") == Spec(' ', NUL, '-', 0, 'X')
  {
  }

  /** The forms of specification that are documented, and an alignment with a fill character of its own. */
  lemma DocumentedSpecs()
    ensures SpecOf("04") == Spec('0', '>', '-', 4, NUL)
    ensures SpecOf("<12") == Spec(' ', '<', '-', 12, NUL) && SpecOf(">8") == Spec(' ', '>', '-', 8, NUL)
    ensures SpecOf("08x") == Spec('0', '>', '-', 8, 'x') && SpecOf("08X") == Spec('0', '>', '-', 8, 'X')
    ensures SpecOf("*<+07") == Spec('*', '<', '+', 7, NUL)
  {
    hide SpecOf, Numeral, Written;
    SampleTexts();
    SpecReadBack(Spec(' ', NUL, '-', 4, NUL), false, true);
    SpecReadBack(Spec(' ', '<', '-', 12, NUL), false, false);
    SpecReadBack(Spec(' ', '>', '-', 8, NUL), false, false);
    SpecReadBack(Spec(' ', NUL, '-', 8, 'x'), false, true);
    SpecReadBack(Spec(' ', NUL, '-', 8, 'X'), false, true);
    SpecReadBack(Spec('*', '<', '+', 7, NUL), true, true);
    BareAlign('<', "12");
    BareAlign('>', "8");
    assert "<" + "12" == "<12" && " <" + "12" == " <12" && ">" + "8" == ">8" && " >" + "8" == " >8";
  }

  /** An alignment without a fill character fills with spaces. */
  lemma BareAlign(align: char, rest: string)
    requires align in "<>" && (rest != [] ==> rest[0] !in "<>")
    ensures SpecOf([align] + rest) == SpecOf([' ', align] + rest)
  {
    hide TakeSign, TakeZero, TakeWidth, TakeKind;
    assert ([align] + rest)[1..] == rest && ([' ', align] + rest)[2..] == rest;
  }

  lemma SampleTexts()
    ensures Written(Spec(' ', NUL, '-', 4, NUL), false, true) == "04"
    ensures Written(Spec(' ', '<', '-', 12, NUL), false, false) == " <12"
    ensures Written(Spec(' ', '>', '-', 8, NUL), false, false) == " >8"
    ensures Written(Spec(' ', NUL, '-', 8, 'x'), false, true) == "08x"
    ensures Written(Spec(' ', NUL, '-', 8, 'X'), false, true) == "08X"
    ensures Written(Spec('*', '<', '+', 7, NUL), true, true) == "*<+07"
  {
    hide Numeral;
    SampleNumerals();
  }

  lemma SampleNumerals()
    ensures Numeral(4, 10, false) == "4" && Numeral(7, 10, false) == "7" && Numeral(8, 10, false) == "8"
    ensures Numeral(12, 10, false) == "12"
  {
  }

  lemma NotPadded(a: Arg, spec: Spec)
    requires spec.width == 0
    ensures Shown(a, Some(spec)) == ValueText(a, Some(spec))
  {
  }

  lemma ShortHoles(a: Arg)
    ensures Output("{:+}", [a]) == ValueText(a, Some(Spec(' ', NUL, '+', 0, NUL)))
    ensures Output("{:x}", [a]) == ValueText(a, Some(Spec(' ', NUL, '-', 0, 'x')))
    ensures Output("{:X}", [a]) == ValueText(a, Some(Spec(' ', NUL, '-', 0, 'X')))
  {
    hide SpecOf, Output, Shown, ValueText;
    ShortSpecs();
    SpecHole("+", a);
    SpecHole("x", a);
    SpecHole("X", a);
    assert "{:" + "+" + "}" == "{:+}" && "{:" + "x" + "}" == "{:x}" && "{:" + "X" + "}" == "{:X}";
    NotPadded(a, Spec(' ', NUL, '+', 0, NUL));
    NotPadded(a, Spec(' ', NUL, '-', 0, 'x'));
    NotPadded(a, Spec(' ', NUL, '-', 0, 'X'));
  }

  /** A signed number: a minus sign exactly when negative, a plus sign exactly when asked for and not negative, and the digits of its size. */
  lemma SignedShown(i: Signed64) returns (text: string, digits: seq<nat>)
    ensures Spells(text, digits, if i < 0 then -(i as int) else i as int, 10, "0123456789")
    ensures Output("{}", [Signed(i)]) == (if i < 0 then "-" else "") + text
    ensures Output("{:+}", [Signed(i)]) == (if i < 0 then "-" else "+") + text
  {
    hide Output, Numeral;
    PlainHole(Signed(i));
    ShortHoles(Signed(i));
    var n := if i < 0 then -(i as int) else i as int;
    text := Numeral(n, 10, false);
    digits := NumeralSpells(n, 10, false);
    DecimalAlphabet(digits);
    assert "" + text == text;
  }

  lemma UnsignedShown(u: Word) returns (text: string, digits: seq<nat>)
    ensures Spells(text, digits, u, 10, "0123456789")
    ensures Output("{}", [Unsigned(u)]) == text
    ensures Output("{:+}", [Unsigned(u)]) == "+" + text
  {
    hide Output, Numeral;
    PlainHole(Unsigned(u));
    ShortHoles(Unsigned(u));
    text := Numeral(u, 10, false);
    digits := NumeralSpells(u, 10, false);
    DecimalAlphabet(digits);
    assert "" + text == text;
  }

  lemma DecimalAlphabet(digits: seq<nat>)
    requires forall i :: 0 <= i < |digits| ==> digits[i] < 10
    ensures Spelt(digits, LOWER) == Spelt(digits, "0123456789")
  {
    assert forall d :: 0 <= d < 10 ==> LOWER[d] == "0123456789"[d];
  }

  /** In base 16 a number is written modulo 2^64, in the case asked for. */
  lemma HexShown(a: Arg) returns (digits: seq<nat>)
    requires a.Signed? || a.Unsigned?
    ensures var n := if a.Unsigned? then a.u as int else if a.i >= 0 then a.i as int else a.i as int + 18446744073709551616;
            && n >= 0
            && Spells(Output("{:x}", [a]), digits, n, 16, "0123456789abcdef")
            && Spells(Output("{:X}", [a]), digits, n, 16, "0123456789ABCDEF")
  {
    hide Output, Numeral, Onward, Spelt;
    ShortHoles(a);
    var n := if a.Unsigned? then a.u as int else if a.i >= 0 then a.i as int else a.i as int + 18446744073709551616;
    digits := NumeralSpells(n, 16, false);
    var capitals := NumeralSpells(n, 16, true);
    SameDigits(digits, capitals, 16);
  }

  /** A number has only one row of digits without leading zeros. */
  lemma {:induction false} SameDigits(a: seq<nat>, b: seq<nat>, base: nat)
    requires base >= 2 && a != [] && b != [] && Onward(0, a, base) == Onward(0, b, base)
    requires (forall i :: 0 <= i < |a| ==> a[i] < base) && (forall i :: 0 <= i < |b| ==> b[i] < base)
    requires (a[0] == 0 ==> |a| == 1) && (b[0] == 0 ==> |b| == 1)
    ensures a == b
    decreases |a|
  {
    var a', b', x, y := a[..|a| - 1], b[..|b| - 1], a[|a| - 1], b[|b| - 1];
    assert a == a' + [x] && b == b' + [y];
    OnwardLast(0, a', x, base);
    OnwardLast(0, b', y, base);
    LastDigit(Onward(0, a', base), x, Onward(0, b', base), y, base);
    if a' == [] || b' == [] {
      NothingOnward(base);
      if a' != [] {
        OnwardPositive(0, a', base);
      }
      if b' != [] {
        OnwardPositive(0, b', base);
      }
    } else {
      SameDigits(a', b', base);
    }
  }

  lemma NothingOnward(base: nat)
    ensures Onward(0, [], base) == 0
  {
  }

  lemma LastDigit(p: nat, x: nat, q: nat, y: nat, base: nat)
    requires x < base && y < base && p * base + x == q * base + y
    ensures p == q && x == y
  {
    ModUnique(p * base + x, base, p, x);
    ModUnique(p * base + x, base, q, y);
  }

  lemma {:induction false} OnwardPositive(n: nat, digits: seq<nat>, base: nat)
    requires base > 0 && (n > 0 || (digits != [] && digits[0] > 0))
    ensures Onward(n, digits, base) > 0
    decreases |digits|
  {
    if digits != [] {
      MulUpTo(1, base, n);
      OnwardPositive(n * base + digits[0], digits[1..], base);
    }
  }

  /** Everything else comes out literally. */
  lemma LiteralShown(c: char, text: string)
    ensures Output("{}", [Bool(true)]) == "true" && Output("{}", [Bool(false)]) == "false"
    ensures Output("{}", [Char(c)]) == [c]
    ensures Output("{}", [Text(Some(text))]) == text && Output("{}", [Text(None)]) == "(null)"
  {
    hide Output;
    PlainHole(Bool(true));
    PlainHole(Bool(false));
    PlainHole(Char(c));
    PlainHole(Text(Some(text)));
    PlainHole(Text(None));
  }

  // ----- Whole format strings -----

  lemma OneCharacter(c: char, more: string, args: seq<Arg>)
    ensures Output(Escape([c]) + more, args) == [c] + Output(more, args)
    ensures Holes(Pieces(Escape([c]) + more)) == Holes(Pieces(more))
  {
    hide Render, Pieces, Holes, Shown, SpecOf;
    var n := if c == '{' || c == '}' then 2 else 1;
    var fmt := Escape([c]) + more;
    assert [c][1..] == [] && Escape([c]) == (if n == 2 then [c, c] else [c]);
    assert fmt[n..] == more && fmt[0..] == fmt;
    PieceTaken(fmt, 0, Lit(c), n);
    RenderTaken(Lit(c), Pieces(more), args);
    HolesTaken(Lit(c), Pieces(more));
  }

  lemma EscapeMore(text: string)
    requires text != []
    ensures Escape(text) == Escape([text[0]]) + Escape(text[1..])
  {
    assert [text[0]][1..] == [];
  }

  /** Text with doubled braces is written as it is, in front of whatever follows, and takes no argument. */
  lemma {:induction false} TextThen(text: string, more: string, args: seq<Arg>)
    ensures Output(Escape(text) + more, args) == text + Output(more, args)
    ensures Holes(Pieces(Escape(text) + more)) == Holes(Pieces(more))
    decreases |text|
  {
    hide Output, Pieces, Holes;
    if text == [] {
      assert Escape(text) + more == more;
    } else {
      hide Escape;
      EscapeMore(text);
      TextThen(text[1..], more, args);
      OneCharacter(text[0], Escape(text[1..]) + more, args);
      Assoc(Escape([text[0]]), Escape(text[1..]), more);
      Assoc([text[0]], text[1..], Output(more, args));
      assert text == [text[0]] + text[1..];
    }
  }

  /** Placeholders take the arguments in order, and write nothing when there is none left. */
  lemma HoleThen(more: string, a: Arg, args: seq<Arg>)
    ensures Output("{}" + more, [a] + args) == ValueText(a, None) + Output(more, args)
    ensures Output("{}" + more, []) == Output(more, [])
    ensures Holes(Pieces("{}" + more)) == 1 + Holes(Pieces(more))
  {
    var fmt := "{}" + more;
    assert fmt[2..] == more && fmt[0..] == fmt;
    PieceTaken(fmt, 0, Hole(None), 2);
    HoleTaken(None, more, a, args);
  }

  lemma HoleTaken(spec: Option<Spec>, more: string, a: Arg, args: seq<Arg>)
    ensures Render([Hole(spec)] + Pieces(more), [a] + args) == Shown(a, spec) + Render(Pieces(more), args)
    ensures Render([Hole(spec)] + Pieces(more), []) == Render(Pieces(more), [])
    ensures Holes([Hole(spec)] + Pieces(more)) == 1 + Holes(Pieces(more))
  {
    hide Pieces, Shown;
    RenderTaken(Hole(spec), Pieces(more), [a] + args);
    RenderTaken(Hole(spec), Pieces(more), []);
    HolesTaken(Hole(spec), Pieces(more));
    assert ([a] + args)[1..] == args;
  }

  /** Those with a specification do likewise. */
  lemma SpecThen(spec: string, more: string, a: Arg, args: seq<Arg>)
    requires '}' !in spec
    ensures Output("{:" + spec + "}" + more, [a] + args) == Shown(a, Some(SpecOf(spec))) + Output(more, args)
    ensures Output("{:" + spec + "}" + more, []) == Output(more, [])
    ensures Holes(Pieces("{:" + spec + "}" + more)) == 1 + Holes(Pieces(more))
  {
    hide SpecOf, Render, Holes, Shown, Pieces;
    var fmt := "{:" + spec + "}" + more;
    var e := 2 + |spec|;
    assert fmt[2..e] == spec && fmt[e + 1..] == more && fmt[0..] == fmt;
    FirstSpec(fmt, 0, e);
    PieceTaken(fmt, 0, Hole(Some(SpecOf(spec))), e + 1);
    HoleTaken(Some(SpecOf(spec)), more, a, args);
  }

  /** A brace on its own, or one that opens a specification without an end, is written as it is. */
  lemma LoneBraces(more: string, args: seq<Arg>)
    ensures (more == [] || more[0] != '}') ==> Output("}" + more, args) == "}" + Output(more, args)
    ensures (more == [] || more[0] !in "{}:") ==> Output("{" + more, args) == "{" + Output(more, args)
    ensures '}' !in more ==> Output("{:" + more, args) == "{" + Output(":" + more, args)
  {
    hide SpecOf, Render, Shown, Pieces;
    if more == [] || more[0] != '}' {
      LiteralFirst('}', more, args);
    }
    if more == [] || more[0] !in "{}:" {
      LiteralFirst('{', more, args);
    }
    if '}' !in more {
      var fmt := "{:" + more;
      assert fmt[2..|fmt|] == more && fmt[0..] == fmt && fmt == "{" + (":" + more);
      FirstSpec(fmt, 0, |fmt|);
      LiteralFirst('{', ":" + more, args);
    }
  }

  lemma LiteralFirst(c: char, more: string, args: seq<Arg>)
    requires First([c] + more) == (Lit(c), 1)
    ensures Output([c] + more, args) == [c] + Output(more, args)
  {
    hide Render, Shown, Pieces, First;
    var fmt := [c] + more;
    assert fmt[1..] == more && fmt[0..] == fmt;
    PieceTaken(fmt, 0, Lit(c), 1);
    RenderTaken(Lit(c), Pieces(more), args);
  }
}
