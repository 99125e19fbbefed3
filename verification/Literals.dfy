/** Integer literals: reading a spelling, what it denotes at each of the eight
    types, and printing it back. */
module Literals {
  import opened Types
  import opened Words

  type Text = seq<char>

  // ----- digits -----------------------------------------------------------------------

  function DigitChar(d: nat): char
    requires d < 16
  {
    "0123456789abcdef"[d]
  }

  /** A digit of a radix, either case. */
  function DigitValue(c: char, radix: nat): Option<nat> {
    var v := if '0' <= c <= '9' then (c - '0') as int
             else if 'a' <= c <= 'f' then (c - 'a') as int + 10
             else if 'A' <= c <= 'F' then (c - 'A') as int + 10
             else 16;
    if v < radix then Some(v) else None
  }

  function Digits(n: nat, radix: nat): (s: Text)
    requires 2 <= radix <= 16
    ensures |s| >= 1
    decreases n
  {
    if n < radix then [DigitChar(n)] else Digits(n / radix, radix) + [DigitChar(n % radix)]
  }

  /** The number some digits spell. */
  function ValueOf(s: Text, radix: nat): Option<nat> {
    if s == [] then Some(0)
    else
      match (ValueOf(s[..|s| - 1], radix), DigitValue(s[|s| - 1], radix))
      case (Some(n), Some(d)) => Some(n * radix + d)
      case _ => None
  }

  /** An unsigned 64-bit number: one leading `+` is allowed, no digits are not. */
  function FromRadix(s: Text, radix: nat): Option<nat> {
    var digits := if s != [] && s[0] == '+' then s[1..] else s;
    if digits == [] then None
    else
      match ValueOf(digits, radix)
      case Some(n) => if n < TWO64 then Some(n) else None
      case None => None
  }

  lemma DigitRoundTrip(d: nat, radix: nat)
    requires d < radix <= 16
    ensures DigitValue(DigitChar(d), radix) == Some(d)
  {
    var table := "0123456789abcdef";
    if d < 10 {
      assert table[d] == '0' + d as char;
    } else {
      assert table[d] == 'a' + (d - 10) as char;
    }
  }

  lemma {:induction false} DigitsRoundTrip(n: nat, radix: nat)
    requires 2 <= radix <= 16
    ensures ValueOf(Digits(n, radix), radix) == Some(n)
    decreases n
  {
    hide *;
    DigitsStep(n, radix);
    Division(n, radix);
    if n < radix {
      DigitRoundTrip(n, radix);
      NothingSpelled(radix);
      ValueOfNext([], DigitChar(n), radix, 0, n);
    } else {
      var q, r := n / radix, n % radix;
      DigitsRoundTrip(q, radix);
      DigitRoundTrip(r, radix);
      ValueOfNext(Digits(q, radix), DigitChar(r), radix, q, r);
    }
  }

  lemma NothingSpelled(radix: nat)
    ensures ValueOf([], radix) == Some(0)
  {
  }

  lemma DigitsStep(n: nat, radix: nat)
    requires 2 <= radix <= 16
    ensures n < radix ==> Digits(n, radix) == [] + [DigitChar(n)]
    ensures n >= radix ==> n / radix < n && Digits(n, radix) == Digits(n / radix, radix) + [DigitChar(n % radix)]
  {
    hide DigitChar;
  }

  lemma ValueOfNext(front: Text, c: char, radix: nat, n: nat, d: nat)
    requires ValueOf(front, radix) == Some(n) && DigitValue(c, radix) == Some(d)
    ensures ValueOf(front + [c], radix) == Some(n * radix + d)
  {
    hide DigitValue;
    assert (front + [c])[..|front|] == front;
  }

  lemma Division(n: nat, radix: nat)
    requires radix > 0
    ensures n / radix * radix + n % radix == n
  {
  }

  predicate PlainDigit(c: char) {
    '0' <= c <= '9' || 'a' <= c <= 'f'
  }

  lemma DigitIsPlain(d: nat)
    requires d < 16
    ensures PlainDigit(DigitChar(d)) && (d < 10 ==> '0' <= DigitChar(d) <= '9')
  {
  }

  lemma {:induction false} DigitsArePlain(n: nat, radix: nat)
    requires 2 <= radix <= 16
    ensures forall i :: 0 <= i < |Digits(n, radix)| ==> PlainDigit(Digits(n, radix)[i])
    ensures radix == 10 ==> forall i :: 0 <= i < |Digits(n, radix)| ==> '0' <= Digits(n, radix)[i] <= '9'
    decreases n
  {
    hide *;
    DigitsStep(n, radix);
    Division(n, radix);
    if n < radix {
      DigitIsPlain(n);
    } else {
      DigitIsPlain(n % radix);
      DigitsArePlain(n / radix, radix);
    }
  }

  // ----- literals ---------------------------------------------------------------------

  /** A magnitude, a sign, and whether it was written as a bit pattern. */
  datatype IntLiteral = IntLiteral(magnitude: nat, negative: bool, bits: bool)

  /** What an atom spells; a float's own value is not modelled. */
  datatype NumericAtom = NotNumeric | Malformed | FloatSpelling(text: Text) | Integer(literal: IntLiteral)

  /** Separators group digits: none at either end, and no two together. */
  function StripSeparators(body: Text): Option<Text> {
    if body == [] || body[0] == '_' || body[|body| - 1] == '_' || DoubleSeparator(body) then None
    else Some(WithoutSeparators(body))
  }

  predicate DoubleSeparator(body: Text) {
    exists i :: 0 <= i < |body| - 1 && body[i] == '_' && body[i + 1] == '_'
  }

  function WithoutSeparators(body: Text): Text {
    if body == [] then [] else (if body[0] == '_' then [] else [body[0]]) + WithoutSeparators(body[1..])
  }

  lemma {:induction false} NothingToStrip(body: Text)
    requires '_' !in body
    ensures WithoutSeparators(body) == body
  {
    if body != [] {
      NothingToStrip(body[1..]);
      assert body == [body[0]] + body[1..];
    }
  }

  predicate Prefixed(digits: Text, letter: char, capital: char) {
    |digits| >= 2 && digits[0] == '0' && (digits[1] == letter || digits[1] == capital)
  }

  function NumericAtomOf(text: Text): NumericAtom {
    var negative := text != [] && text[0] == '-';
    var digits := if text != [] && (text[0] == '-' || text[0] == '+') then text[1..] else text;
    if digits == [] || !('0' <= digits[0] <= '9') then NotNumeric
    else
      var radix := if Prefixed(digits, 'x', 'X') then 16 else if Prefixed(digits, 'b', 'B') then 2 else 10;
      match StripSeparators(if radix == 10 then digits else digits[2..])
      case None => Malformed
      case Some(body) =>
        if radix == 10 && ('.' in body || 'e' in body || 'E' in body) then FloatSpelling(text)
        else
          match FromRadix(body, radix)
          case None => Malformed
          case Some(magnitude) => Integer(IntLiteral(magnitude, negative, radix != 10))
  }

  function Print(l: IntLiteral): Text {
    (if l.negative then "-" else "") + if l.bits then "0x" + Digits(l.magnitude, 16) else Digits(l.magnitude, 10)
  }

  lemma NoSeparators(s: Text)
    requires |s| >= 1 && forall i :: 0 <= i < |s| ==> PlainDigit(s[i])
    ensures StripSeparators(s) == Some(s)
    ensures '.' !in s && s[0] != '+' && s[0] != '-'
  {
    assert '_' !in s;
    NothingToStrip(s);
    hide WithoutSeparators;
  }

  /** Printing a literal and reading it back gives the same magnitude, sign and
      radix flag. */
  lemma PrintRoundTrip(l: IntLiteral)
    requires l.magnitude < TWO64
    ensures NumericAtomOf(Print(l)) == Integer(l)
    ensures var shown := if l.negative then Print(l)[1..] else Print(l);
      if l.bits then |shown| > 2 && shown[0] == '0' && shown[1] == 'x' else '0' <= shown[0] <= '9'
  {
    hide Digits, ValueOf, StripSeparators, NumericAtomOf, FromRadix;
    var radix := if l.bits then 16 else 10;
    var body := Digits(l.magnitude, radix);
    DigitsRoundTrip(l.magnitude, radix);
    DigitsArePlain(l.magnitude, radix);
    NoSeparators(body);
    Spelt(body, radix, l.magnitude);
    var digits := if l.bits then "0x" + body else body;
    AtomOfDigits(digits, body, l.bits, false, l.magnitude);
    AtomOfDigits("-" + digits, body, l.bits, true, l.magnitude);
    assert "" + digits == digits;
  }

  /** A sign, a prefix and digits. */
  lemma Spelt(body: Text, radix: nat, n: nat)
    requires body != [] && body[0] != '+' && ValueOf(body, radix) == Some(n) && n < TWO64
    requires 2 <= radix <= 16
    ensures FromRadix(body, radix) == Some(n)
  {
    hide ValueOf;
  }

  lemma AtomOfDigits(text: Text, body: Text, bits: bool, negative: bool, magnitude: nat)
    requires StripSeparators(body) == Some(body) && body != []
    requires FromRadix(body, if bits then 16 else 10) == Some(magnitude)
    requires !bits ==> (forall i :: 0 <= i < |body| ==> '0' <= body[i] <= '9')
    requires var digits := if bits then "0x" + body else body; text == if negative then "-" + digits else digits
    ensures NumericAtomOf(text) == Integer(IntLiteral(magnitude, negative, bits))
  {
    hide FromRadix, StripSeparators;
    var digits := if bits then "0x" + body else body;
    assert negative ==> text[1..] == digits;
    assert bits ==> digits[2..] == body;
    assert !bits ==> !Prefixed(digits, 'x', 'X') && !Prefixed(digits, 'b', 'B');
    assert !bits ==> '.' !in body && 'e' !in body && 'E' !in body;
  }

  // ----- every way to spell a number -----------------------------------------------------

  predicate IsSign(sign: Text) {
    sign == "" || sign == "+" || sign == "-"
  }

  /** The radix a prefix asks for. */
  predicate Asks(prefix: Text, radix: nat) {
    || (radix == 10 && prefix == "")
    || (radix == 16 && (prefix == "0x" || prefix == "0X"))
    || (radix == 2 && (prefix == "0b" || prefix == "0B"))
  }

  /** Digits are the sixteen hexadecimal ones in either case, below the radix. */
  lemma DigitsExactly(c: char, radix: nat, d: nat)
    requires 2 <= radix <= 16
    ensures DigitValue(c, radix) == Some(d)
       <==> d < radix && (c == "0123456789abcdef"[d] || c == "0123456789ABCDEF"[d])
  {
    if d < 16 {
      var small, large := "0123456789abcdef", "0123456789ABCDEF";
      if d < 10 {
        assert small[d] == '0' + d as char && large[d] == '0' + d as char;
      } else {
        assert small[d] == 'a' + (d - 10) as char && large[d] == 'A' + (d - 10) as char;
      }
    }
  }

  /** A body is accepted exactly when every separator stands between two characters that
      are not separators. */
  lemma SeparatorsExactly(body: Text)
    ensures StripSeparators(body).Some? <==>
      && body != []
      && forall i :: 0 <= i < |body| && body[i] == '_' ==>
           0 < i < |body| - 1 && body[i - 1] != '_' && body[i + 1] != '_'
  {
    if !DoubleSeparator(body) {
      forall i | 0 < i < |body| && body[i] == '_' ensures body[i - 1] != '_' {
        var j := i - 1;
        assert body[j + 1] == '_';
      }
    }
  }

  lemma {:induction false} WithoutConcat(a: Text, b: Text)
    ensures WithoutSeparators(a + b) == WithoutSeparators(a) + WithoutSeparators(b)
  {
    FirstStripped(a);
    FirstStripped(a + b);
    hide WithoutSeparators;
    if a == [] {
      assert a + b == b;
    } else {
      WithoutConcat(a[1..], b);
      assert (a + b)[1..] == a[1..] + b && (a + b)[0] == a[0];
    }
  }

  lemma FirstStripped(body: Text)
    ensures WithoutSeparators(body)
         == if body == [] then [] else (if body[0] == '_' then [] else [body[0]]) + WithoutSeparators(body[1..])
  {
  }

  /** And then they make no difference. */
  lemma SeparatorIgnored(a: Text, b: Text)
    ensures WithoutSeparators(a + "_" + b) == WithoutSeparators(a + b)
  {
    var bar := "_";
    assert WithoutSeparators(bar) == [];
    hide WithoutSeparators;
    WithoutConcat(a + bar, b);
    WithoutConcat(a, bar);
    WithoutConcat(a, b);
  }

  /** Digits after a prefix may begin with a plus. */
  lemma PlusIgnored(s: Text, radix: nat)
    requires s != [] && s[0] != '+'
    ensures FromRadix("+" + s, radix) == FromRadix(s, radix)
  {
    assert ("+" + s)[1..] == s;
  }

  /** A sign, a prefix and digits of its radix, with separators between them: the number is
      what the digits spell, the sign is kept, and a prefix makes it a bit pattern. */
  lemma SpellingRead(sign: Text, prefix: Text, body: Text, radix: nat, n: nat)
    requires IsSign(sign) && Asks(prefix, radix)
    requires StripSeparators(body).Some? && n < TWO64
    requires DigitValue(body[0], radix).Some? && ValueOf(WithoutSeparators(body), radix) == Some(n)
    ensures NumericAtomOf(sign + prefix + body) == Integer(IntLiteral(n, sign == "-", prefix != ""))
  {
    hide *;
    RadixBound(prefix, radix);
    var digits := prefix + body;
    SpelledDigits(body, radix, n);
    PrefixTaken(prefix, body, radix, n);
    SignTaken(sign, digits);
    Grouped(sign, prefix, body);
    AtomOfParts(sign + prefix + body, sign == "-", digits, prefix, body, radix, n);
  }

  lemma RadixBound(prefix: Text, radix: nat)
    requires Asks(prefix, radix)
    ensures radix <= 16
  {
  }

  lemma Grouped(a: Text, b: Text, c: Text)
    ensures a + b + c == a + (b + c)
  {
  }

  lemma SignTaken(sign: Text, digits: Text)
    requires IsSign(sign) && digits != [] && digits[0] != '-' && digits[0] != '+'
    ensures var text := sign + digits;
      && (text[0] == '-' <==> sign == "-")
      && digits == if text[0] == '-' || text[0] == '+' then text[1..] else text
  {
    if sign != "" { assert (sign + digits)[1..] == digits; } else { assert sign + digits == digits; }
  }

  lemma PrefixTaken(prefix: Text, body: Text, radix: nat, n: nat)
    requires Asks(prefix, radix) && StripSeparators(body).Some? && DigitValue(body[0], radix).Some?
    requires ValueOf(WithoutSeparators(body), radix) == Some(n)
    ensures var digits := prefix + body;
      && digits != [] && '0' <= digits[0] <= '9' && digits[0] != '-' && digits[0] != '+'
      && radix == (if Prefixed(digits, 'x', 'X') then 16 else if Prefixed(digits, 'b', 'B') then 2 else 10)
      && body == (if radix == 10 then digits else digits[2..])
  {
    hide ValueOf, DoubleSeparator;
    if radix == 10 {
      Plain(body, radix, n);
      assert prefix + body == body;
    } else {
      assert |prefix| == 2 && (prefix + body)[0] == prefix[0] && (prefix + body)[1] == prefix[1];
      assert (prefix + body)[2..] == body;
    }
  }

  lemma AtomOfParts(text: Text, negative: bool, digits: Text, prefix: Text, body: Text, radix: nat, n: nat)
    requires text != [] && digits != [] && '0' <= digits[0] <= '9' && Asks(prefix, radix)
    requires negative <==> text[0] == '-'
    requires digits == if text[0] == '-' || text[0] == '+' then text[1..] else text
    requires radix == (if Prefixed(digits, 'x', 'X') then 16 else if Prefixed(digits, 'b', 'B') then 2 else 10)
    requires body == (if radix == 10 then digits else digits[2..])
    requires StripSeparators(body) == Some(WithoutSeparators(body))
    requires FromRadix(WithoutSeparators(body), radix) == Some(n)
    requires radix == 10 ==>
      var plain := WithoutSeparators(body); '.' !in plain && 'e' !in plain && 'E' !in plain
    ensures NumericAtomOf(text) == Integer(IntLiteral(n, negative, prefix != ""))
  {
    hide StripSeparators, FromRadix, WithoutSeparators, Prefixed;
  }

  lemma SpelledDigits(body: Text, radix: nat, n: nat)
    requires radix <= 16 && StripSeparators(body).Some? && DigitValue(body[0], radix).Some? && n < TWO64
    requires ValueOf(WithoutSeparators(body), radix) == Some(n)
    ensures body != [] && StripSeparators(body) == Some(WithoutSeparators(body))
    ensures FromRadix(WithoutSeparators(body), radix) == Some(n)
    ensures radix == 10 ==>
      var plain := WithoutSeparators(body); '.' !in plain && 'e' !in plain && 'E' !in plain
  {
    hide ValueOf, DoubleSeparator;
    FirstKept(body);
    if radix == 10 { AllDigits(WithoutSeparators(body), n); }
  }

  lemma FirstKept(body: Text)
    requires body != [] && body[0] != '_'
    ensures WithoutSeparators(body) == [body[0]] + WithoutSeparators(body[1..])
    ensures |body| > 1 && body[1] != '_' ==> |WithoutSeparators(body)| > 1 && WithoutSeparators(body)[1] == body[1]
  {
  }

  /** Decimal digits hold no prefix. */
  lemma Plain(body: Text, radix: nat, n: nat)
    requires radix == 10 && StripSeparators(body).Some? && DigitValue(body[0], radix).Some?
    requires ValueOf(WithoutSeparators(body), radix) == Some(n)
    ensures '0' <= body[0] <= '9' && !Prefixed(body, 'x', 'X') && !Prefixed(body, 'b', 'B')
  {
    hide ValueOf, DoubleSeparator;
    var plain := WithoutSeparators(body);
    FirstKept(body);
    AllDigits(plain, n);
    if |body| > 1 && body[1] != '_' { assert body[1] in plain; }
  }

  lemma {:induction false} AllDigits(s: Text, n: nat)
    requires ValueOf(s, 10) == Some(n)
    ensures forall c :: c in s ==> '0' <= c <= '9'
  {
    if s != [] {
      var front := s[..|s| - 1];
      AllDigits(front, ValueOf(front, 10).value);
      assert s == front + [s[|s| - 1]];
    }
  }

  // ----- what a literal denotes ---------------------------------------------------------

  /** The canonical machine word of a literal at a type, when it fits there. */
  function At(l: IntLiteral, kind: IntKind): Option<Word>
    requires kind.Valid()
  {
    if l.negative then
      if !kind.signed || l.magnitude > Pow2(kind.bits - 1) then None else Some(Wrap(Number(l)))
    else if l.bits then
      if kind.bits < 64 && l.magnitude >= Pow2(kind.bits) then None else Some(Canonicalize(kind, Wrap(l.magnitude)))
    else
      var limit := if kind.signed then Pow2(kind.bits - 1) - 1 else Pow2(kind.bits) - 1;
      if l.magnitude > limit then None else Some(Wrap(l.magnitude))
  }

  /** The number a literal writes. */
  function Number(l: IntLiteral): int {
    var m: int := l.magnitude;
    if l.negative then -m else m
  }

  /** A written number fits when it belongs to the type, and a written minus sign asks
      for a signed type even in front of zero; a bit pattern fits when it has no bits
      past the width. */
  predicate Representable(l: IntLiteral, kind: IntKind)
    requires kind.Valid()
  {
    if l.bits && !l.negative then l.magnitude < Span(kind)
    else (l.negative ==> kind.signed) && InRange(kind, Number(l))
  }

  /** The word it then is: the one whose value is the number, or whose low bits are
      the pattern. */
  predicate Denotes(l: IntLiteral, kind: IntKind, w: Word)
    requires kind.Valid()
  {
    && Canonical(kind, w)
    && if l.bits && !l.negative then (Value(kind, w) - l.magnitude) % Span(kind) == 0 else Value(kind, w) == Number(l)
  }

  lemma AtNumber(l: IntLiteral, kind: IntKind)
    requires kind.Valid() && l.magnitude < TWO64 && !(l.bits && !l.negative)
    ensures At(l, kind).Some? <==> (l.negative ==> kind.signed) && InRange(kind, Number(l))
    ensures At(l, kind).Some? ==> Denotes(l, kind, At(l, kind).value)
  {
    hide Pow2, Wrap, Canonicalize;
    Pow2Values();
    Pow2Monotone(kind.bits - 1, 63);
    assert Span(kind) / 2 == Pow2(kind.bits - 1);
    var v := Number(l);
    WrapNear(v);
    UnsignedIs(Wrap(v));
  }

  lemma AtPattern(l: IntLiteral, kind: IntKind)
    requires kind.Valid() && l.magnitude < TWO64 && l.bits && !l.negative
    ensures At(l, kind).Some? <==> l.magnitude < Span(kind)
    ensures At(l, kind).Some? ==> Denotes(l, kind, At(l, kind).value)
  {
    hide Pow2, Wrap, Canonicalize, Canonical, Unsigned;
    Pow2Values();
    var w := Wrap(l.magnitude);
    WrapNear(l.magnitude);
    CanonicalizeIsCanonical(kind, w);
    CanonicalizeCongruent(kind, w);
    var c := Canonicalize(kind, w);
    if kind.IsFullWidth() {
      PatternFull(kind, l.magnitude, w);
    } else {
      PatternNarrow(kind, l.magnitude, w, c);
    }
  }

  lemma PatternFull(kind: IntKind, magnitude: nat, w: Word)
    requires kind.Valid() && kind.IsFullWidth() && magnitude < TWO64
    requires w == if magnitude >= TWO63 then magnitude - TWO64 else magnitude
    ensures (Value(kind, w) - magnitude) % Span(kind) == 0 && Canonicalize(kind, w) == w
  {
    UnsignedIs(w);
  }

  lemma PatternNarrow(kind: IntKind, magnitude: nat, w: Word, c: Word)
    requires kind.Valid() && !kind.IsFullWidth() && (c - w) % Span(kind) == 0
    requires magnitude < Span(kind) ==> w == magnitude
    ensures magnitude < Span(kind) ==> (Value(kind, c) - magnitude) % Span(kind) == 0
  {
  }

  /** Two canonical words a type cannot tell apart are one word. */
  lemma CanonicalUnique(kind: IntKind, v: Word, w: Word)
    requires kind.Valid() && Canonical(kind, v) && Canonical(kind, w)
    requires (Value(kind, v) - Value(kind, w)) % Span(kind) == 0
    ensures v == w
  {
    UnsignedIs(v);
    UnsignedIs(w);
    var d, m := Value(kind, v) - Value(kind, w), Span(kind);
    assert -m < d < m;
    Near(d, m);
  }

  lemma Near(d: int, m: int)
    requires m > 0 && -m < d < m && d % m == 0
    ensures d == 0
  {
    if d >= 0 { ModUnique(d, m, 0, d); } else { ModUnique(d, m, -1, d + m); }
  }

  /** `at` succeeds exactly when the literal is representable, and then with the one
      canonical word it denotes. */
  lemma AtExactly(l: IntLiteral, kind: IntKind)
    requires kind.Valid() && l.magnitude < TWO64
    ensures At(l, kind).Some? <==> Representable(l, kind)
    ensures At(l, kind).Some? ==>
      Denotes(l, kind, At(l, kind).value) && forall w: Word :: Denotes(l, kind, w) ==> w == At(l, kind).value
  {
    hide At, Canonical, Span, InRange;
    if l.bits && !l.negative { AtPattern(l, kind); } else { AtNumber(l, kind); }
    if At(l, kind).Some? {
      forall w: Word | Denotes(l, kind, w) ensures w == At(l, kind).value {
        SameDenotation(l, kind, w, At(l, kind).value);
      }
    }
  }

  lemma SameDenotation(l: IntLiteral, kind: IntKind, v: Word, w: Word)
    requires kind.Valid() && Denotes(l, kind, v) && Denotes(l, kind, w)
    ensures v == w
  {
    var a, b, m := Value(kind, v), Value(kind, w), Span(kind);
    hide Canonical, Value, Span;
    DifferenceOfMultiples(a, b, l.magnitude, m);
    ZeroMultiple(m);
    CanonicalUnique(kind, v, w);
  }

  lemma ZeroMultiple(m: int)
    requires m > 0
    ensures 0 % m == 0
  {
  }

  lemma DifferenceOfMultiples(a: int, b: int, c: int, m: int)
    requires m > 0
    ensures (a - c) % m == 0 && (b - c) % m == 0 ==> (a - b) % m == 0
  {
    if (a - c) % m == 0 && (b - c) % m == 0 {
      var p, q := (a - c) / m, (b - c) / m;
      assert a - b == (p - q) * m;
      ModUnique(a - b, m, p - q, 0);
    }
  }

  // ----- conversions that cost nothing -------------------------------------------------------

  predicate Accepts(target: IntKind, source: IntKind) {
    if target.bits == 64 then true
    else if source.bits > target.bits then false
    else if source.bits == target.bits then source.signed == target.signed
    else !source.signed || target.signed
  }

  /** A word that is canonical at the source and, unless it is accepted, not at the
      target. */
  function Witness(target: IntKind, source: IntKind): Word
    requires source.Valid() && target.Valid()
  {
    if source.signed && !target.signed then -1
    else if !source.signed && target.signed && source.bits == target.bits && target.bits < 64 then Span(source) - 1
    else if source.bits > target.bits then Span(target)
    else 0
  }

  /** A conversion is free exactly when every canonical word of the source is
      canonical at the target. */
  lemma AcceptsExactly(target: IntKind, source: IntKind)
    requires target.Valid() && source.Valid()
    ensures Accepts(target, source) <==> forall w: Word :: Canonical(source, w) ==> Canonical(target, w)
  {
    if Accepts(target, source) {
      forall w: Word | Canonical(source, w) ensures Canonical(target, w) { UnsignedIs(w); }
    } else {
      var w := Witness(target, source);
      UnsignedIs(w);
      assert Canonical(source, w) && !Canonical(target, w);
    }
  }
}
