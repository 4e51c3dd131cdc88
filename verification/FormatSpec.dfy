/**
 Format specifications `{:[fill][align][sign][0][width][type]}` and the text of
 one formatted value.
 */
module FormatSpec {
  import opened Prelude
  import opened Modular

  const WIDTHS := 0x1_0000_0000

  type Width = w: int | 0 <= w < WIDTHS
  type Word = n: int | 0 <= n < 0x1_0000_0000_0000_0000
  type Signed64 = n: int | -0x8000_0000_0000_0000 <= n < 0x8000_0000_0000_0000

  /** `align` and `kind` are the NUL character when they were not given. */
  datatype Spec = Spec(fill: char, align: char, sign: char, width: Width, kind: char)

  const NUL := '\0'
  const PLAIN := Spec(' ', NUL, '-', 0, NUL)

  predicate IsAlign(c: char) {
    c == '<' || c == '>'
  }

  predicate IsDigit(c: char) {
    '0' <= c <= '9'
  }

  // ----- Numerals -----

  function DigitChar(d: nat, upper: bool): char
    requires d < 16
  {
    if d < 10 then '0' + d as char else if upper then 'A' + (d - 10) as char else 'a' + (d - 10) as char
  }

  /** The numeral of `n`, most significant digit first, without leading zeros. */
  function Numeral(n: nat, base: nat, upper: bool): (s: string)
    requires 2 <= base <= 16
    ensures s != []
  {
    if n < base then [DigitChar(n, upper)]
    else Numeral(n / base, base, upper) + [DigitChar(n % base, upper)]
  }

  function DigitsOf(s: string): string {
    if s != [] && IsDigit(s[0]) then [s[0]] + DigitsOf(s[1..]) else []
  }

  /** The width spelt by decimal digits after `w`, kept to 32 bits as it grows. */
  function WidthOf(w: Width, digits: string): Width
    requires forall c :: c in digits ==> IsDigit(c)
    decreases digits
  {
    if digits == [] then w
    else WidthOf((w * 10 + (digits[0] as int - '0' as int)) % WIDTHS, digits[1..])
  }

  // ----- Parsing a specification -----

  function TakeAlign(s: string): (Spec, string) {
    if |s| > 1 && IsAlign(s[1]) then (PLAIN.(fill := s[0], align := s[1]), s[2..])
    else if s != [] && IsAlign(s[0]) then (PLAIN.(align := s[0]), s[1..])
    else (PLAIN, s)
  }

  function TakeSign(p: Spec, s: string): (Spec, string) {
    if s != [] && (s[0] == '+' || s[0] == '-') then (p.(sign := s[0]), s[1..]) else (p, s)
  }

  function TakeZero(p: Spec, s: string): (Spec, string) {
    if s != [] && s[0] == '0' then (if p.align == NUL then p.(fill := '0', align := '>') else p, s[1..]) else (p, s)
  }

  lemma {:induction false} AllDigits(s: string)
    ensures forall c :: c in DigitsOf(s) ==> IsDigit(c)
    ensures DigitsOf(s) <= s
  {
    if s != [] && IsDigit(s[0]) {
      AllDigits(s[1..]);
      assert DigitsOf(s)[1..] == DigitsOf(s[1..]);
    }
  }

  function TakeWidth(p: Spec, s: string): (Spec, string) {
    AllDigits(s);
    (p.(width := WidthOf(0, DigitsOf(s))), s[|DigitsOf(s)|..])
  }

  function TakeKind(p: Spec, s: string): Spec {
    if s != [] && (s[0] == 'x' || s[0] == 'X') then p.(kind := s[0]) else p
  }

  /** What is left after the type letter is ignored. */
  function SpecOf(s: string): Spec {
    var (p1, s1) := TakeAlign(s);
    var (p2, s2) := TakeSign(p1, s1);
    var (p3, s3) := TakeZero(p2, s2);
    var (p4, s4) := TakeWidth(p3, s3);
    TakeKind(p4, s4)
  }

  /** Reads a specification with one pointer walking over the text. */
  method ParseFormatSpec(s: string) returns (spec: Spec)
    ensures spec == SpecOf(s)
  {
    hide TakeAlign, TakeSign, TakeZero, TakeWidth, TakeKind;
    var p;
    p, spec := ReadAlign(s);
    p, spec := ReadSign(s, p, spec);
    p, spec := ReadZero(s, p, spec);
    p, spec := ReadWidth(s, p, spec);
    spec := ReadKind(s, p, spec);
  }

  method ReadAlign(s: string) returns (p: nat, spec: Spec)
    ensures p <= |s| && spec.width == 0
    ensures (spec, s[p..]) == TakeAlign(s)
  {
    p, spec := 0, PLAIN;
    if |s| > 1 && IsAlign(s[1]) {
      p, spec := 2, spec.(fill := s[0], align := s[1]);
    } else if |s| > 0 && IsAlign(s[0]) {
      p, spec := 1, spec.(align := s[0]);
    }
  }

  method ReadSign(s: string, start: nat, before: Spec) returns (p: nat, spec: Spec)
    requires start <= |s|
    ensures start <= p <= |s| && spec.width == before.width
    ensures (spec, s[p..]) == TakeSign(before, s[start..])
  {
    p, spec := start, before;
    if p < |s| && (s[p] == '+' || s[p] == '-') {
      spec := spec.(sign := s[p]);
      p := p + 1;
    }
  }

  method ReadZero(s: string, start: nat, before: Spec) returns (p: nat, spec: Spec)
    requires start <= |s|
    ensures start <= p <= |s| && spec.width == before.width
    ensures (spec, s[p..]) == TakeZero(before, s[start..])
  {
    p, spec := start, before;
    if p < |s| && s[p] == '0' {
      if spec.align == NUL {
        spec := spec.(fill := '0', align := '>');
      }
      p := p + 1;
    }
  }

  method ReadKind(s: string, start: nat, before: Spec) returns (spec: Spec)
    requires start <= |s|
    ensures spec == TakeKind(before, s[start..])
  {
    spec := before;
    if start < |s| && (s[start] == 'x' || s[start] == 'X') {
      spec := spec.(kind := s[start]);
    }
  }

  method ReadWidth(s: string, start: nat, before: Spec) returns (p: nat, spec: Spec)
    requires start <= |s| && before.width == 0
    ensures start <= p <= |s|
    ensures (spec, s[p..]) == TakeWidth(before, s[start..])
  {
    p, spec := start, before;
    AllDigits(s[start..]);
    while p < |s| && IsDigit(s[p])
      invariant start <= p <= |s|
      invariant forall c :: c in DigitsOf(s[p..]) ==> IsDigit(c)
      invariant spec == before.(width := spec.width)
      invariant WidthOf(spec.width, DigitsOf(s[p..])) == WidthOf(0, DigitsOf(s[start..]))
      invariant p + |DigitsOf(s[p..])| == start + |DigitsOf(s[start..])|
    {
      assert s[p..][1..] == s[p + 1..];
      assert DigitsOf(s[p..]) == [s[p]] + DigitsOf(s[p + 1..]);
      AllDigits(s[p + 1..]);
      spec := spec.(width := (spec.width * 10 + (s[p] as int - '0' as int)) % WIDTHS);
      p := p + 1;
    }
    assert DigitsOf(s[p..]) == [];
    assert s[start..][p - start..] == s[p..];
  }

  // ----- A specification written out is read back -----

  predicate Writable(p: Spec) {
    && (IsAlign(p.align) || (p.align == NUL && p.fill == ' '))
    && (p.sign == '+' || p.sign == '-')
    && (p.kind == NUL || p.kind == 'x' || p.kind == 'X')
  }

  function Sized(p: Spec): string {
    (if p.width == 0 then [] else Numeral(p.width, 10, false)) + (if p.kind == NUL then [] else [p.kind])
  }

  function Flagged(p: Spec, zero: bool): string {
    (if zero then ['0'] else []) + Sized(p)
  }

  function Unaligned(p: Spec, signed: bool, zero: bool): string {
    (if signed then [p.sign] else []) + Flagged(p, zero)
  }

  /** One way to write `p`; the sign and the zero flag are optional. */
  function Written(p: Spec, signed: bool, zero: bool): string {
    (if p.align == NUL then [] else [p.fill, p.align]) + Unaligned(p, signed, zero)
  }

  /** A zero flag asks for zeros in front unless an alignment was given. */
  function ZeroFilled(p: Spec): Spec {
    if p.align == NUL then p.(fill := '0', align := '>') else p
  }

  lemma {:induction false} NumeralDigits(n: nat)
    ensures forall c :: c in Numeral(n, 10, false) ==> IsDigit(c)
    ensures n > 0 ==> Numeral(n, 10, false)[0] != '0'
  {
    if n >= 10 {
      NumeralDigits(n / 10);
    }
  }

  lemma {:induction false} DigitsTaken(d: string, s: string)
    requires forall c :: c in d ==> IsDigit(c)
    requires s == [] || !IsDigit(s[0])
    ensures DigitsOf(d + s) == d
  {
    if d == [] {
      assert d + s == s;
    } else {
      assert (d + s)[1..] == d[1..] + s;
      DigitsTaken(d[1..], s);
    }
  }

  lemma {:induction false} WidthAppend(w: Width, d: string, c: char)
    requires IsDigit(c) && forall x :: x in d ==> IsDigit(x)
    ensures WidthOf(w, d + [c]) == (WidthOf(w, d) * 10 + (c as int - '0' as int)) % WIDTHS
    decreases d
  {
    if d == [] {
      assert d + [c] == [c];
    } else {
      assert (d + [c])[1..] == d[1..] + [c];
      WidthAppend((w * 10 + (d[0] as int - '0' as int)) % WIDTHS, d[1..], c);
    }
  }

  lemma NumeralStep(n: nat)
    ensures n < 10 ==> Numeral(n, 10, false) == [DigitChar(n, false)]
    ensures n >= 10 ==> Numeral(n, 10, false) == Numeral(n / 10, 10, false) + [DigitChar(n % 10, false)]
  {
  }

  lemma DigitValue(d: nat)
    requires d < 10
    ensures IsDigit(DigitChar(d, false)) && DigitChar(d, false) as int - '0' as int == d
  {
  }

  lemma Recombined(n: Width)
    ensures (n / 10 * 10 + n % 10) % WIDTHS == n
  {
  }

  lemma WidthOfDigit(c: char)
    requires IsDigit(c)
    ensures WidthOf(0, [c]) == c as int - '0' as int
  {
  }

  /** A numeral below the 32-bit bound is read back. */
  lemma {:induction false} WidthBack(n: Width)
    ensures forall c :: c in Numeral(n, 10, false) ==> IsDigit(c)
    ensures WidthOf(0, Numeral(n, 10, false)) == n
  {
    hide Numeral, WidthOf, DigitChar;
    NumeralDigits(n);
    NumeralStep(n);
    DigitValue(n % 10);
    if n >= 10 {
      WidthBack(n / 10);
      WidthAppend(0, Numeral(n / 10, 10, false), DigitChar(n % 10, false));
      Recombined(n);
    } else {
      WidthOfDigit(DigitChar(n, false));
    }
  }

  lemma WidthTaken(p: Spec, width: Width, tail: string)
    requires tail == [] || tail == ['x'] || tail == ['X']
    ensures TakeWidth(p, (if width == 0 then [] else Numeral(width, 10, false)) + tail) == (p.(width := width), tail)
  {
    var d := if width == 0 then [] else Numeral(width, 10, false);
    NumeralDigits(width);
    WidthBack(width);
    DigitsTaken(d, tail);
    assert (d + tail)[|d|..] == tail;
  }

  lemma AlignTaken(p: Spec, s: string)
    requires Writable(p) && forall i :: 0 <= i < |s| ==> !IsAlign(s[i])
    ensures TakeAlign((if p.align == NUL then [] else [p.fill, p.align]) + s) == (PLAIN.(fill := p.fill, align := p.align), s)
  {
    if p.align == NUL {
      assert [] + s == s;
    } else {
      assert ([p.fill, p.align] + s)[2..] == s;
    }
  }

  lemma SignTaken(p: Spec, sign: char, signed: bool, s: string)
    requires sign == '+' || sign == '-'
    requires p.sign == '-' && (!signed ==> sign == '-')
    requires s != [] ==> s[0] != '+' && s[0] != '-'
    ensures TakeSign(p, (if signed then [sign] else []) + s) == (p.(sign := sign), s)
  {
    if signed {
      assert ([sign] + s)[1..] == s;
    } else {
      assert [] + s == s;
    }
  }

  lemma ZeroTaken(p: Spec, zero: bool, s: string)
    requires s != [] ==> s[0] != '0'
    ensures TakeZero(p, (if zero then ['0'] else []) + s) == (if zero then ZeroFilled(p) else p, s)
  {
    if zero {
      assert (['0'] + s)[1..] == s;
    } else {
      assert [] + s == s;
    }
  }

  /** No part of a text begins with a character the part before it could take. */
  lemma PartsApart(p: Spec, signed: bool, zero: bool)
    requires Writable(p)
    ensures Sized(p) != [] ==> Sized(p)[0] !in "+-0"
    ensures Flagged(p, zero) != [] ==> Flagged(p, zero)[0] !in "+-"
    ensures forall i :: 0 <= i < |Unaligned(p, signed, zero)| ==> !IsAlign(Unaligned(p, signed, zero)[i])
  {
    NumeralDigits(p.width);
    SizedApart(p);
    hide Numeral, Sized;
    var s := Unaligned(p, signed, zero);
    forall i | 0 <= i < |s|
      ensures !IsAlign(s[i])
    {
      assert s[i] in Sized(p) || s[i] == '0' || s[i] == p.sign;
    }
  }

  lemma SizedApart(p: Spec)
    requires Writable(p)
    ensures Sized(p) != [] ==> Sized(p)[0] !in "+-0"
    ensures forall c :: c in Sized(p) ==> !IsAlign(c)
  {
    hide Numeral;
    NumeralDigits(p.width);
    if p.width > 0 {
      var d := Numeral(p.width, 10, false);
      assert Sized(p)[0] == d[0] && d[0] in d;
    }
  }

  /** Every specification is read back from each of its texts, with or without a zero flag. */
  lemma SpecReadBack(p: Spec, signed: bool, zero: bool)
    requires Writable(p) && (!signed ==> p.sign == '-')
    ensures SpecOf(Written(p, signed, zero)) == if zero then ZeroFilled(p) else p
  {
    hide Numeral, WidthOf, DigitsOf, TakeAlign, TakeSign, TakeZero, TakeWidth;
    var p1 := PLAIN.(fill := p.fill, align := p.align);
    var p2 := p1.(sign := p.sign);
    var p3 := if zero then ZeroFilled(p2) else p2;
    PartsApart(p, signed, zero);
    AlignTaken(p, Unaligned(p, signed, zero));
    SignTaken(p1, p.sign, signed, Flagged(p, zero));
    ZeroTaken(p2, zero, Sized(p));
    WidthTaken(p3, p.width, if p.kind == NUL then [] else [p.kind]);
  }

  // ----- What a numeral denotes -----

  /** The number a digit stands for, in either case of letters. */
  function DigitNumber(c: char): int {
    if IsDigit(c) then c as int - '0' as int
    else if 'a' <= c <= 'f' then c as int - 'a' as int + 10
    else c as int - 'A' as int + 10
  }

  /** Positional notation, last digit least. */
  function NumberOf(s: string, base: nat): int {
    if s == [] then 0 else NumberOf(s[..|s| - 1], base) * base + DigitNumber(s[|s| - 1])
  }

  predicate IsDigitOf(c: char, base: nat, upper: bool) {
    exists d: nat | d < base && d < 16 :: c == DigitChar(d, upper)
  }

  lemma DigitDenotes(d: nat, base: nat, upper: bool)
    requires d < base <= 16
    ensures DigitNumber(DigitChar(d, upper)) == d && IsDigitOf(DigitChar(d, upper), base, upper)
    ensures d > 0 ==> DigitChar(d, upper) != '0'
  {
  }

  lemma NumberAppend(s: string, c: char, base: nat)
    ensures NumberOf(s + [c], base) == NumberOf(s, base) * base + DigitNumber(c)
  {
    assert (s + [c])[..|s + [c]| - 1] == s;
  }

  lemma NumeralParts(n: nat, base: nat, upper: bool)
    requires 2 <= base <= 16
    ensures n < base ==> Numeral(n, base, upper) == [] + [DigitChar(n, upper)]
    ensures n >= base ==> Numeral(n, base, upper) == Numeral(n / base, base, upper) + [DigitChar(n % base, upper)]
  {
  }

  lemma Division(n: nat, base: nat)
    requires base > 1
    ensures n / base * base + n % base == n
    ensures n < base ==> n % base == n
    ensures n >= base ==> 0 < n / base < n
  {
    if n >= base {
      QuotientPositive(n, base);
    } else {
      SmallRemainder(n, base);
    }
  }

  /** A numeral denotes its number, in digits of its base, and has no leading zero unless it is "0". */
  lemma {:induction false} NumeralDenotes(n: nat, base: nat, upper: bool)
    requires 2 <= base <= 16
    ensures NumberOf(Numeral(n, base, upper), base) == n
    ensures forall c :: c in Numeral(n, base, upper) ==> IsDigitOf(c, base, upper)
    ensures n > 0 ==> Numeral(n, base, upper)[0] != '0'
    decreases n
  {
    hide Numeral, NumberOf, DigitChar, DigitNumber, IsDigitOf;
    NumeralParts(n, base, upper);
    Division(n, base);
    DigitDenotes(n % base, base, upper);
    if n >= base {
      NumeralDenotes(n / base, base, upper);
      NumberAppend(Numeral(n / base, base, upper), DigitChar(n % base, upper), base);
    } else {
      NumberAppend([], DigitChar(n, upper), base);
      NoDigits(base);
    }
  }

  lemma NoDigits(base: nat)
    ensures NumberOf([], base) == 0
  {
  }

  lemma QuotientPositive(n: nat, base: nat)
    requires 1 < base <= n
    ensures 0 < n / base < n
  {
    var q := n / base;
    assert n == q * base + n % base;
    MulUpTo(2, base, q);
  }

  lemma SmallRemainder(n: nat, base: nat)
    requires n < base
    ensures n % base == n
  {
  }

  // ----- Padding -----

  function Repeat(c: char, n: nat): (s: string)
    ensures |s| == n && forall i :: 0 <= i < n ==> s[i] == c
  {
    seq(n, _ => c)
  }

  predicate HasSign(val: string) {
    val != [] && (val[0] == '+' || val[0] == '-')
  }

  /** The value padded to the width of the specification; zeros go between the sign and the digits. */
  function Padded(val: string, spec: Option<Spec>): string {
    if spec.None? || spec.value.width <= |val| then val
    else
      var p := spec.value;
      var pad := Repeat(p.fill, p.width - |val|);
      var align := if p.align == NUL then '>' else p.align;
      if p.fill == '0' && align == '>' && HasSign(val) then [val[0]] + pad + val[1..]
      else if align == '<' then val + pad
      else pad + val
  }

  /** `r` is `val` with fill characters let in at `i`. */
  ghost predicate FilledAt(r: string, val: string, i: nat, fill: char) {
    && i <= |val| <= |r|
    && r[..i] + r[i + |r| - |val|..] == val
    && forall x :: i <= x < i + |r| - |val| ==> r[x] == fill
  }

  /**
   Padding reaches exactly the width asked for and keeps the value whole around one
   run of fill: behind it under `<`, otherwise in front of it, but zeros behind its sign.
   */
  lemma PaddedKeeps(val: string, p: Spec)
    ensures |Padded(val, Some(p))| == (if p.width > |val| then p.width else |val|)
    ensures p.align == '<' ==> FilledAt(Padded(val, Some(p)), val, |val|, p.fill)
    ensures p.align != '<' ==>
              var signFirst := p.fill == '0' && (p.align == '>' || p.align == NUL) && val != [] && val[0] in "+-";
              FilledAt(Padded(val, Some(p)), val, if signFirst then 1 else 0, p.fill)
    ensures Padded(val, None) == val
  {
    var r := Padded(val, Some(p));
    assert val != [] ==> (HasSign(val) <==> val[0] in "+-");
    if p.width <= |val| {
      assert r == val;
    }
  }

  // ----- Values -----

  /** Text is anything whose characters are written as they are; no text is a null pointer. */
  datatype Arg =
    | Bool(b: bool)
    | Char(c: char)
    | Signed(i: Signed64)
    | Unsigned(u: Word)
    | Text(text: Option<string>)

  predicate Hex(spec: Option<Spec>) {
    spec.Some? && (spec.value.kind == 'x' || spec.value.kind == 'X')
  }

  predicate Plus(spec: Option<Spec>) {
    spec.Some? && spec.value.sign == '+'
  }

  function ValueText(a: Arg, spec: Option<Spec>): string {
    match a
    case Bool(b) => if b then "true" else "false"
    case Char(c) => [c]
    case Text(t) => if t.Some? then t.value else "(null)"
    case Unsigned(u) =>
      if Hex(spec) then Numeral(u, 16, spec.value.kind == 'X')
      else (if Plus(spec) then "+" else "") + Numeral(u, 10, false)
    case Signed(i) =>
      if Hex(spec) then Numeral(if i < 0 then i as int + 0x1_0000_0000_0000_0000 else i as int, 16, spec.value.kind == 'X')
      else if i < 0 then "-" + Numeral(-(i as int), 10, false)
      else (if Plus(spec) then "+" else "") + Numeral(i, 10, false)
  }

  /** A value under a specification. */
  function Shown(a: Arg, spec: Option<Spec>): string {
    Padded(ValueText(a, spec), spec)
  }
}
