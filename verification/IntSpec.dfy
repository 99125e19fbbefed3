/** What an integer operator means, whatever machine computes it: the exact
    result when it belongs to the type, and a trap when there is none. */
module IntSpec {
  import opened Types
  import opened Mir
  import opened Words

  datatype Trap = Overflow | DivZero | ShiftCount

  datatype Outcome = Traps(trap: Trap) | Gives(word: Word)

  /** A `bool` compares like the signed word it is. */
  function Regime(ty: Type): (kind: IntKind)
    ensures kind.Valid()
  {
    match ty.Kind()
    case Some(kind) => kind
    case None => IntKind(64, true)
  }

  function Magnitude(x: int): nat {
    if x < 0 then -x else x
  }

  /** Division that rounds toward zero. */
  function TruncDiv(a: int, b: int): int
    requires b != 0
  {
    var q := Magnitude(a) / Magnitude(b);
    if (a < 0) == (b < 0) then q else -q
  }

  function TruncRem(a: int, b: int): int
    requires b != 0
  {
    a - TruncDiv(a, b) * b
  }

  function Checked(kind: IntKind, v: int): Outcome
    requires kind.Valid()
  {
    if InRange(kind, v) then Gives(Wrap(v)) else Traps(Overflow)
  }

  /** The low bits of an exact value, read at the type. */
  function Truncated(kind: IntKind, v: int): Word
    requires kind.Valid()
  {
    if kind.IsFullWidth() then Wrap(v)
    else if kind.signed then Centered(v, Span(kind))
    else v % Span(kind)
  }

  predicate Compare(op: BinaryOp, a: int, b: int)
    requires op.Compares()
  {
    match op
    case Less => a < b
    case Greater => a > b
    case LessEqual => a <= b
    case GreaterEqual => a >= b
    case Equal => a == b
    case _ => a != b
  }

  function Meaning(op: BinaryOp, kind: IntKind, a: Word, b: Word): Outcome
    requires kind.Valid()
  {
    var x, y := Value(kind, a), Value(kind, b);
    match op
    case Add => Checked(kind, x + y)
    case Sub => Checked(kind, x - y)
    case Mul => Checked(kind, x * y)
    case Div =>
      if y == 0 then Traps(DivZero) else Checked(kind, TruncDiv(x, y))
    case Rem =>
      if y == 0 then Traps(DivZero)
      else if kind == IntKind(64, true) && x == -TWO63 && y == -1 then Traps(Overflow)
      else Gives(Wrap(TruncRem(x, y)))
    case Shl =>
      if y < 0 || y >= kind.bits then Traps(ShiftCount)
      else Gives(Truncated(kind, x * Pow2(y)))
    case Shr =>
      if y < 0 || y >= kind.bits then Traps(ShiftCount)
      else Gives(Wrap(x / Pow2(y)))
    case BitAnd => Gives(Bitwise(And, a, b))
    case BitOr => Gives(Bitwise(Or, a, b))
    case BitXor => Gives(Bitwise(Xor, a, b))
    case _ => Gives(if Compare(op, x, y) then 1 else 0)
  }

  /** The values of each integer type of the language; everything else is a signed word. */
  lemma TypeRanges(ty: Type, v: int)
    ensures InRange(Regime(ty), v) <==>
      match ty
      case I8 => -128 <= v <= 127
      case I16 => -32768 <= v <= 32767
      case I32 => -0x8000_0000 <= v <= 0x7fff_ffff
      case U8 => 0 <= v <= 255
      case U16 => 0 <= v <= 65535
      case U32 => 0 <= v <= 0xffff_ffff
      case U64 => 0 <= v <= 0xffff_ffff_ffff_ffff
      case _ => -0x8000_0000_0000_0000 <= v <= 0x7fff_ffff_ffff_ffff
  {
  }

  /** Reading a word at a type keeps it, except that a full-width unsigned word below zero
      counts from 2^64. */
  lemma ValueMeans(ty: Type, w: Word)
    ensures Value(Regime(ty), w) == if ty == U64 && w < 0 then w + 0x1_0000_0000_0000_0000 else w
  {
    UnsignedIs(w);
  }

  // ----- facts about the specification ---------------------------------------

  /** `(a / b) * b + a % b == a`, the remainder is smaller than the divisor and
      takes the sign of the dividend. */
  lemma TruncatedDivision(a: int, b: int)
    requires b != 0
    ensures TruncDiv(a, b) * b + TruncRem(a, b) == a
    ensures Magnitude(TruncRem(a, b)) < Magnitude(b)
    ensures Magnitude(TruncRem(a, b)) <= Magnitude(a)
    ensures TruncRem(a, b) != 0 ==> (TruncRem(a, b) < 0 <==> a < 0)
    ensures Magnitude(TruncDiv(a, b)) <= Magnitude(a)
    ensures Magnitude(TruncDiv(a, b)) == Magnitude(a) && a != 0 ==> Magnitude(b) == 1
  {
    var m, n := Magnitude(a), Magnitude(b);
    var q, r := DivideNat(m, n);
    SignedProducts(q, b);
    assert TruncDiv(a, b) == if (a < 0) == (b < 0) then q else -q;
    hide TruncDiv;
    assert TruncRem(a, b) == if a < 0 then -r else r;
  }

  lemma DivideNat(m: nat, n: nat) returns (q: int, r: int)
    requires n >= 1
    ensures q == m / n && m == q * n + r && 0 <= r < n && 0 <= q <= m && r <= m
    ensures q == m && m > 0 ==> n == 1
  {
    r := m % n;
    QuotientShrinks(m, n, m / n, r);
    q := m / n;
    if n >= 2 && q >= 1 {
      ProductAtLeast(n - 1, q);
      assert (n - 1) * q == q * n - q;
    }
    assert q * n >= 0;
  }

  lemma SpanHalf(kind: IntKind)
    requires kind.Valid()
    ensures Span(kind) == 2 * (Span(kind) / 2)
    ensures Span(kind) / 2 == Pow2(kind.bits - 1)
  {
    Pow2Values();
    Pow2Add(kind.bits - 1, 1);
    assert Pow2(1) == 2;
  }

  lemma BitwiseCanonical(op: BitOp, kind: IntKind, a: Word, b: Word)
    requires kind.Valid() && Canonical(kind, a) && Canonical(kind, b)
    ensures Canonical(kind, Bitwise(op, a, b))
  {
    if !kind.IsFullWidth() {
      SpanHalf(kind);
      BitsBounded(op, a, b, 63, if kind.signed then kind.bits - 1 else kind.bits);
    }
  }

  lemma RemainderCanonical(kind: IntKind, a: Word, b: Word)
    requires kind.Valid() && Canonical(kind, a) && Canonical(kind, b) && Value(kind, b) != 0
    ensures InRange(kind, TruncRem(Value(kind, a), Value(kind, b)))
  {
    TruncatedDivision(Value(kind, a), Value(kind, b));
    hide TruncDiv, TruncRem;
  }

  lemma WrapCanonical(kind: IntKind, v: int)
    requires kind.Valid() && InRange(kind, v)
    ensures Canonical(kind, Wrap(v)) && Value(kind, Wrap(v)) == v
  {
    if kind.IsFullWidth() && !kind.signed && v >= TWO63 {
      WrapUnique(v, v - TWO64, 1);
    }
  }

  lemma TruncatedCanonical(kind: IntKind, v: int)
    requires kind.Valid()
    ensures Canonical(kind, Truncated(kind, v))
  {
    if !kind.IsFullWidth() {
      CanonicalizeWrapped(kind, v);
      CanonicalizeIsCanonical(kind, Wrap(v));
    }
  }

  /** Canonical operands give a canonical result; a comparison gives 0 or 1. */
  lemma MeaningCanonical(op: BinaryOp, kind: IntKind, a: Word, b: Word)
    requires kind.Valid() && Canonical(kind, a) && Canonical(kind, b)
    requires Meaning(op, kind, a, b).Gives?
    ensures var w := Meaning(op, kind, a, b).word;
      if op.Compares() then w == 0 || w == 1 else Canonical(kind, w)
  {
    var x, y := Value(kind, a), Value(kind, b);
    hide Canonical, Value, Bitwise, Truncated, Wrap, InRange, TruncRem;
    match op
    case Add => WrapCanonical(kind, x + y);
    case Sub => WrapCanonical(kind, x - y);
    case Mul => WrapCanonical(kind, x * y);
    case Div => WrapCanonical(kind, TruncDiv(x, y));
    case Rem =>
      RemainderCanonical(kind, a, b);
      WrapCanonical(kind, TruncRem(x, y));
    case Shl => TruncatedCanonical(kind, x * Pow2(y));
    case Shr =>
      QuotientCanonical(kind, a, y);
      WrapCanonical(kind, x / Pow2(y));
    case BitAnd => BitwiseCanonical(And, kind, a, b);
    case BitOr => BitwiseCanonical(Or, kind, a, b);
    case BitXor => BitwiseCanonical(Xor, kind, a, b);
    case _ =>
  }

  lemma QuotientCanonical(kind: IntKind, a: Word, count: nat)
    requires kind.Valid() && Canonical(kind, a)
    ensures InRange(kind, Value(kind, a) / Pow2(count))
  {
    DivShrinks(Value(kind, a), Pow2(count));
  }

  // ----- the meaning, operator by operator -----------------------------------------

  /** The exact sum or difference, as the machine forms it. */
  function Combined(op: BinaryOp, a: int, b: int): int {
    if op == Add then a + b else a - b
  }

  lemma WrapUnsigned(kind: IntKind, a: Word, b: Word)
    ensures forall op :: Wrap(Combined(op, Value(kind, a), Value(kind, b))) == Wrap(Combined(op, a, b))
  {
    UnsignedIs(a);
    UnsignedIs(b);
    WrapCongruent(a + b, 1);
    WrapCongruent(a + b, 2);
    WrapCongruent(a - b, 1);
    WrapCongruent(a - b, -1);
    hide Wrap, Unsigned;
  }

  lemma AddSubMeaning(op: BinaryOp, kind: IntKind, a: Word, b: Word)
    requires kind.Valid() && (op == Add || op == Sub)
    ensures Meaning(op, kind, a, b) == Checked(kind, Combined(op, Value(kind, a), Value(kind, b)))
  {
    hide Truncated, Bitwise, TruncDiv, TruncRem, Pow2, Compare, Checked, Value;
  }

  lemma MulMeaning(kind: IntKind, a: Word, b: Word)
    requires kind.Valid()
    ensures Meaning(Mul, kind, a, b) == Checked(kind, Value(kind, a) * Value(kind, b))
  {
    hide Truncated, Bitwise, TruncDiv, TruncRem, Pow2, Compare, Checked, Value;
  }

  lemma FullRange(kind: IntKind, v: int)
    requires kind.Valid() && kind.IsFullWidth()
    ensures InRange(kind, v) <==> if kind.signed then Fits(v) else 0 <= v < TWO64
  {
  }

  /** Where the signed divide is guarded: the one quotient with no word. */
  predicate NoQuotient(kind: IntKind, x: int, y: int) {
    kind == IntKind(64, true) && x == -TWO63 && y == -1
  }

  /** The one signed quotient that overflows a word is out of its type's range. */
  lemma NoQuotientOverflows(kind: IntKind, x: int, y: int)
    requires kind.Valid() && NoQuotient(kind, x, y)
    ensures Checked(kind, TruncDiv(x, y)) == Traps(Overflow)
  {
  }

  lemma QuotientFits(kind: IntKind, a: Word, b: Word)
    requires kind.Valid() && Canonical(kind, a) && Canonical(kind, b) && Value(kind, b) != 0
    requires !NoQuotient(kind, Value(kind, a), Value(kind, b))
    ensures var q := TruncDiv(Value(kind, a), Value(kind, b));
      if kind == IntKind(64, false) then 0 <= q < TWO64 else Fits(q)
    ensures var r := TruncRem(Value(kind, a), Value(kind, b));
      if kind == IntKind(64, false) then 0 <= r < TWO64 else Fits(r)
  {
    TruncatedDivision(Value(kind, a), Value(kind, b));
    if kind == IntKind(64, false) {
      DivideNatFacts(Unsigned(a), Unsigned(b));
    }
    hide TruncRem;
  }

  lemma DivideNatFacts(m: nat, n: nat)
    requires n >= 1
    ensures TruncDiv(m, n) == m / n && TruncRem(m, n) == m % n && 0 <= m / n <= m
  {
    var q, r := DivideNat(m, n);
    ModUnique(m, n, q, r);
  }

  lemma DivRemMeaning(kind: IntKind, a: Word, b: Word)
    requires kind.Valid()
    ensures Value(kind, b) == 0 ==> Meaning(Div, kind, a, b) == Meaning(Rem, kind, a, b) == Traps(DivZero)
    ensures Value(kind, b) != 0 ==>
      Meaning(Div, kind, a, b) == Checked(kind, TruncDiv(Value(kind, a), Value(kind, b)))
    ensures Value(kind, b) != 0 ==>
      Meaning(Rem, kind, a, b) == if NoQuotient(kind, Value(kind, a), Value(kind, b)) then Traps(Overflow)
                                    else Gives(Wrap(TruncRem(Value(kind, a), Value(kind, b))))
  {
    hide Truncated, Bitwise, TruncDiv, TruncRem, Pow2, Compare, Checked, Value;
  }

  lemma ShiftMeaning(op: BinaryOp, kind: IntKind, a: Word, b: Word)
    requires kind.Valid() && (op == BinaryOp.Shl || op == BinaryOp.Shr)
    ensures var (x, y) := (Value(kind, a), Value(kind, b));
      Meaning(op, kind, a, b) ==
        if y < 0 || y >= kind.bits then Traps(ShiftCount)
        else if op == BinaryOp.Shl then Gives(Truncated(kind, x * Pow2(y)))
        else Gives(Wrap(x / Pow2(y)))
  {
    hide Truncated, Bitwise, TruncDiv, TruncRem, Pow2, Compare, Checked, Value;
  }

  lemma ShiftLeftMeaning(kind: IntKind, a: Word, y: nat)
    requires kind.Valid()
    ensures Truncated(kind, Value(kind, a) * Pow2(y)) == Canonicalize(kind, ShiftLeft(a, y))
  {
    if !kind.IsFullWidth() {
      CanonicalizeWrapped(kind, a * Pow2(y));
    } else if !kind.signed {
      UnsignedIs(a);
      WrapCongruent(a * Pow2(y), Pow2(y));
      assert (a + TWO64) * Pow2(y) == a * Pow2(y) + Pow2(y) * TWO64;
    }
  }

  lemma ShiftRightMeaning(kind: IntKind, a: Word, y: nat)
    requires kind.Valid() && Canonical(kind, a)
    ensures Wrap(Value(kind, a) / Pow2(y)) == if kind.signed then ArithmeticRight(a, y) else LogicalRight(a, y)
  {
    UnsignedIs(a);
    DivShrinks(a, Pow2(y));
  }

  lemma CompareMeaning(op: BinaryOp, kind: IntKind, a: Word, b: Word)
    requires kind.Valid() && op.Compares()
    ensures Meaning(op, kind, a, b) == Gives(if Compare(op, Value(kind, a), Value(kind, b)) then 1 else 0)
  {
    hide Truncated, Bitwise, TruncDiv, TruncRem, Pow2, Compare, Checked, Value;
  }

  /** A word moved by a checked count. */
  function Moved(op: BinaryOp, kind: IntKind, a: Word, y: nat): Word {
    if op == BinaryOp.Shl then ShiftLeft(a, y)
    else if kind.signed then ArithmeticRight(a, y)
    else LogicalRight(a, y)
  }

  /** What a shift leaves: a left shift is truncated to its type, a right shift
      only removes bits. */
  function ShiftWord(op: BinaryOp, kind: IntKind, a: Word, y: nat): Word
    requires kind.Valid()
  {
    if op == BinaryOp.Shl then Canonicalize(kind, Moved(op, kind, a, y)) else Moved(op, kind, a, y)
  }

  lemma ShiftWordMeaning(op: BinaryOp, kind: IntKind, a: Word, b: Word)
    requires kind.Valid() && Canonical(kind, a) && (op == BinaryOp.Shl || op == BinaryOp.Shr)
    ensures var y := Value(kind, b);
      Meaning(op, kind, a, b)
        == if y < 0 || y >= kind.bits then Traps(ShiftCount) else Gives(ShiftWord(op, kind, a, y))
  {
    ShiftMeaning(op, kind, a, b);
    var y := Value(kind, b);
    if y >= 0 {
      ShiftLeftMeaning(kind, a, y);
      ShiftRightMeaning(kind, a, y);
    }
    hide Meaning, Canonicalize, Truncated, Wrap, Value, Canonical, ShiftLeft, ArithmeticRight, LogicalRight, Pow2;
  }
}
