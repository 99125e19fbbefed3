/** 64-bit machine words, held as signed integers, and the eight integer types
    that live in them in canonical form. */
module Words {
  import opened Types

  const TWO63: int := 0x8000_0000_0000_0000
  const TWO64: int := 0x1_0000_0000_0000_0000

  type Word = w: int | -0x8000_0000_0000_0000 <= w < 0x8000_0000_0000_0000

  /** The word an exact result leaves in a register. */
  function Wrap(x: int): (w: Word)
    ensures (x - w) % TWO64 == 0
    ensures -TWO63 <= x < TWO63 ==> w == x
  {
    var w := (x + TWO63) % TWO64 - TWO63;
    assert x - w == TWO64 * ((x + TWO63) / TWO64);
    w
  }

  /** The same bits read without a sign. */
  function Unsigned(w: Word): (u: nat)
    ensures u < TWO64 && Wrap(u) == w
  {
    if w < 0 then
      var u := w + TWO64;
      assert (u + TWO63) % TWO64 == w + TWO63 by { ModUnique(u + TWO63, TWO64, 1, w + TWO63); }
      u
    else w
  }

  lemma ModUnique(x: int, m: int, q: int, r: int)
    requires m > 0 && x == q * m + r && 0 <= r < m
    ensures x % m == r && x / m == q
  {
    var d := x / m;
    assert x == d * m + x % m;
    if q > d {
      ProductAtLeast(q - d, m);
    } else if q < d {
      ProductAtLeast(d - q, m);
    }
  }

  lemma ProductAtLeast(k: int, m: int)
    requires k >= 1 && m >= 0
    ensures k * m >= m
  {
    if k > 1 { ProductAtLeast(k - 1, m); }
  }

  /** Two integers that differ by a multiple of 2^64 leave the same word. */
  lemma WrapCongruent(x: int, k: int)
    ensures Wrap(x + k * TWO64) == Wrap(x)
  {
    var q, r := (x + TWO63) / TWO64, (x + TWO63) % TWO64;
    ModUnique(x + k * TWO64 + TWO63, TWO64, q + k, r);
  }

  lemma WrapUnique(x: int, w: Word, k: int)
    requires x == w + k * TWO64
    ensures Wrap(x) == w
  {
    WrapCongruent(w, k);
  }

  // ----- powers of two ------------------------------------------------------

  function Pow2(n: nat): (p: int)
    ensures p >= 1
  {
    if n == 0 then 1 else 2 * Pow2(n - 1)
  }

  lemma {:induction false} Pow2Add(m: nat, n: nat)
    ensures Pow2(m + n) == Pow2(m) * Pow2(n)
  {
    if n > 0 {
      Pow2Add(m, n - 1);
      assert Pow2(m + n) == 2 * Pow2(m + (n - 1));
    }
  }

  lemma {:induction false} Pow2Monotone(m: nat, n: nat)
    requires m <= n
    ensures Pow2(m) <= Pow2(n)
    decreases n
  {
    if m < n { Pow2Monotone(m, n - 1); }
  }

  lemma Pow2Values()
    ensures Pow2(5) == 32 && Pow2(7) == 0x80 && Pow2(8) == 0x100
    ensures Pow2(15) == 0x8000 && Pow2(16) == 0x1_0000
    ensures Pow2(31) == 0x8000_0000 && Pow2(32) == 0x1_0000_0000 && Pow2(48) == 0x1_0000_0000_0000
    ensures Pow2(56) == 0x100_0000_0000_0000 && Pow2(63) == TWO63 && Pow2(64) == TWO64
  {
    assert Pow2(4) == 16;
    assert Pow2(7) == 128;
    assert Pow2(8) == 256;
    Pow2Add(8, 7);
    Pow2Add(8, 8);
    Pow2Add(16, 15);
    Pow2Add(16, 16);
    Pow2Add(32, 16);
    Pow2Add(48, 8);
    Pow2Add(32, 31);
    Pow2Add(32, 32);
  }

  // ----- shifts -------------------------------------------------------------

  function ShiftLeft(w: Word, count: nat): Word {
    Wrap(w * Pow2(count))
  }

  function ArithmeticRight(w: Word, count: nat): Word {
    DivShrinks(w, Pow2(count));
    w / Pow2(count)
  }

  function LogicalRight(w: Word, count: nat): Word {
    Wrap(Unsigned(w) / Pow2(count))
  }

  lemma DivShrinks(x: int, d: int)
    requires d >= 1
    ensures x >= 0 ==> 0 <= x / d <= x
    ensures x < 0 ==> x <= x / d < 0
  {
    QuotientShrinks(x, d, x / d, x % d);
  }

  lemma QuotientShrinks(x: int, d: int, q: int, r: int)
    requires d >= 1 && x == q * d + r && 0 <= r < d
    ensures x >= 0 ==> 0 <= q <= x
    ensures x < 0 ==> x <= q < 0
  {
    if q >= 1 {
      ProductAtLeast(d, q);
    } else if q <= -1 {
      ProductAtLeast(-q, d);
      ProductAtLeast(d, -(q + 1));
      assert d * -(q + 1) == -(q * d) - d;
    }
  }

  // ----- bitwise operations -------------------------------------------------

  datatype BitOp = And | Or | Xor {
    function Bit(a: bool, b: bool): bool {
      match this
      case And => a && b
      case Or => a || b
      case Xor => a != b
    }
  }

  /** `op` on `n` bits and the sign above them, lowest bit first. */
  function Bits(op: BitOp, a: int, b: int, n: nat): int
    decreases n
  {
    if n == 0 then if op.Bit(a < 0, b < 0) then -1 else 0
    else 2 * Bits(op, a / 2, b / 2, n - 1) + if op.Bit(a % 2 == 1, b % 2 == 1) then 1 else 0
  }

  /** Operands that fit in `m` bits and a sign have a result that does. */
  lemma {:induction false} BitsBounded(op: BitOp, a: int, b: int, n: nat, m: nat)
    requires m <= n
    requires -Pow2(m) <= a < Pow2(m) && -Pow2(m) <= b < Pow2(m)
    ensures -Pow2(m) <= Bits(op, a, b, n) < Pow2(m)
    ensures op.Bit(a < 0, b < 0) <==> Bits(op, a, b, n) < 0
    decreases n
  {
    if n > 0 {
      BitsBounded(op, a / 2, b / 2, n - 1, if m == 0 then 0 else m - 1);
    }
  }

  function Bitwise(op: BitOp, a: Word, b: Word): Word {
    Pow2Values();
    BitsBounded(op, a, b, 63, 63);
    Bits(op, a, b, 63)
  }

  function BitAt(w: int, k: nat): bool {
    w / Pow2(k) % 2 == 1
  }

  /** Each bit of the result is the truth table of the operator on the same bits. */
  lemma {:induction false} BitsAt(op: BitOp, a: int, b: int, n: nat, k: nat)
    requires k <= n && -Pow2(n) <= a < Pow2(n) && -Pow2(n) <= b < Pow2(n)
    ensures BitAt(Bits(op, a, b, n), k) <==>
      match op
      case And => BitAt(a, k) && BitAt(b, k)
      case Or => BitAt(a, k) || BitAt(b, k)
      case Xor => BitAt(a, k) != BitAt(b, k)
    decreases n
  {
    if k > 0 {
      var rest := Bits(op, a / 2, b / 2, n - 1);
      BitsAt(op, a / 2, b / 2, n - 1, k - 1);
      BitAbove(a, k);
      BitAbove(b, k);
      BitAbove(Bits(op, a, b, n), k);
      assert Bits(op, a, b, n) / 2 == rest;
    }
  }

  lemma BitAbove(w: int, k: nat)
    requires k > 0
    ensures BitAt(w, k) == BitAt(w / 2, k - 1)
  {
    var p := Pow2(k - 1);
    var q, r := w / 2 / p, w / 2 % p;
    assert w / 2 == q * p + r;
    assert w == q * (2 * p) + (2 * r + w % 2) by { assert 2 * (q * p) == q * (2 * p); }
    ModUnique(w, 2 * p, q, 2 * r + w % 2);
  }

  /** The bitwise operators on machine words, bit by bit. */
  lemma BitwiseMeans(op: BitOp, a: Word, b: Word, k: nat)
    requires k < 64
    ensures BitAt(Bitwise(op, a, b), k) <==>
      match op
      case And => BitAt(a, k) && BitAt(b, k)
      case Or => BitAt(a, k) || BitAt(b, k)
      case Xor => BitAt(a, k) != BitAt(b, k)
  {
    Pow2Values();
    hide Pow2, BitAt;
    BitsAt(op, a, b, 63, k);
  }

  /** Masking with `m` ones keeps the remainder modulo 2^m. */
  lemma {:induction false} MaskIsMod(a: int, n: nat, m: nat)
    requires m <= n && -Pow2(n) <= a < Pow2(n)
    ensures Bits(And, a, Pow2(m) - 1, n) == a % Pow2(m)
    decreases n
  {
    if m == 0 {
      AndZero(a, n);
      assert a % 1 == 0;
    } else {
      assert (Pow2(m) - 1) / 2 == Pow2(m - 1) - 1 && (Pow2(m) - 1) % 2 == 1;
      MaskIsMod(a / 2, n - 1, m - 1);
      HalfMod(a, Pow2(m - 1));
    }
  }

  lemma {:induction false} AndZero(a: int, n: nat)
    ensures Bits(And, a, 0, n) == 0
    decreases n
  {
    if n > 0 { AndZero(a / 2, n - 1); }
  }

  lemma HalfMod(a: int, k: int)
    requires k >= 1
    ensures a % (2 * k) == 2 * ((a / 2) % k) + a % 2
  {
    var q, r := (a / 2) / k, (a / 2) % k;
    assert a / 2 == q * k + r;
    assert a == 2 * (a / 2) + a % 2;
    assert a == q * (2 * k) + (2 * r + a % 2) by { assert 2 * (q * k) == q * (2 * k); }
    ModUnique(a, 2 * k, q, 2 * r + a % 2);
  }

  // ----- integer types ------------------------------------------------------

  /** 2^bits, for the four widths. */
  function Span(kind: IntKind): (s: int)
    requires kind.Valid()
    ensures s == Pow2(kind.bits)
  {
    Pow2Values();
    match kind.bits
    case 8 => 0x100
    case 16 => 0x1_0000
    case 32 => 0x1_0000_0000
    case _ => TWO64
  }

  /** Whether an exact value belongs to the type. */
  predicate InRange(kind: IntKind, v: int)
    requires kind.Valid()
  {
    if kind.signed then -(Span(kind) / 2) <= v < Span(kind) / 2 else 0 <= v < Span(kind)
  }

  /** The value a word stands for at a type. */
  function Value(kind: IntKind, w: Word): int {
    if kind.bits == 64 && !kind.signed then Unsigned(w) else w
  }

  /** A word that is sign- or zero-extended from the type's width. */
  predicate Canonical(kind: IntKind, w: Word)
    requires kind.Valid()
  {
    InRange(kind, Value(kind, w))
  }

  function Mask(kind: IntKind): Word
    requires kind.Valid()
  {
    if kind.bits == 64 then -1 else Span(kind) - 1
  }

  /** Reduces a 64-bit computation to the canonical word of the type. */
  function Canonicalize(kind: IntKind, w: Word): Word
    requires kind.Valid()
  {
    if kind.bits == 64 then w
    else if kind.signed then ArithmeticRight(ShiftLeft(w, 64 - kind.bits), 64 - kind.bits)
    else Bitwise(And, w, Mask(kind))
  }

  /** The signed value with the same low bits, written as a remainder. */
  function Centered(x: int, span: int): int
    requires span > 0
  {
    (x + span / 2) % span - span / 2
  }

  lemma ShiftPair(w: Word, k: int, m: int)
    requires k > 0 && m > 0 && k * m == TWO64 && m % 2 == 0
    ensures Wrap(w * k) / k == Centered(w, m)
  {
    var h := m / 2;
    var q, r := (w + h) / m, (w + h) % m;
    assert w + h == m * q + r;
    assert k * h == TWO63 by { assert k * (2 * h) == TWO64; assert 2 * (k * h) == k * (2 * h); }
    calc {
      w * k + TWO63;
      { assert w * k + k * h == k * (w + h); }
      k * (m * q + r);
      { assert k * (m * q) == q * (k * m); }
      q * TWO64 + k * r;
    }
    assert 0 <= k * r < TWO64 by {
      assert k * r <= k * (m - 1);
      assert k * (m - 1) == k * m - k;
    }
    ModUnique(w * k + TWO63, TWO64, q, k * r);
    assert Wrap(w * k) == k * r - k * h;
    assert k * r - k * h == (r - h) * k + 0;
    ModUnique(k * r - k * h, k, r - h, 0);
  }

  /** Canonicalizing finds the word of the type that has the same low bits. */
  lemma CanonicalizeMeaning(kind: IntKind, w: Word)
    requires kind.Valid() && !kind.IsFullWidth()
    ensures Canonicalize(kind, w) == if kind.signed then Centered(w, Span(kind)) else w % Span(kind)
  {
    Pow2Values();
    if kind.signed {
      var s := 64 - kind.bits;
      Pow2Add(kind.bits, s);
      ShiftPair(w, Pow2(s), Span(kind));
    } else {
      MaskIsMod(w, 63, kind.bits);
    }
  }

  lemma Residue(w: int, m: int, c: int)
    requires m > 0 && 0 <= c < m
    ensures var r := (w + c) % m - c;
      && -c <= r < m - c
      && (r - w) % m == 0
      && (-c <= w < m - c <==> r == w)
  {
    var q, r := (w + c) / m, (w + c) % m;
    assert w + c == q * m + r;
    ModUnique(r - c - w, m, -q, 0);
    if -c <= w < m - c {
      ModUnique(w + c, m, 0, w + c);
    }
  }

  lemma ResidueShifted(w: int, m: int, c: int, k: int)
    requires m > 0
    ensures (w + k * m + c) % m == (w + c) % m
  {
    var q, r := (w + c) / m, (w + c) % m;
    assert w + c == q * m + r;
    ModUnique(w + k * m + c, m, q + k, r);
  }

  lemma CanonicalizeIsCanonical(kind: IntKind, w: Word)
    requires kind.Valid()
    ensures Canonical(kind, Canonicalize(kind, w))
    ensures Canonical(kind, w) <==> Canonicalize(kind, w) == w
  {
    if !kind.IsFullWidth() {
      CanonicalizeMeaning(kind, w);
      var m := Span(kind);
      var c := if kind.signed then m / 2 else 0;
      Residue(w, m, c);
      var r := (w + c) % m - c;
      assert Canonicalize(kind, w) == r;
      hide Canonicalize, Span, Centered;
    }
  }

  lemma CanonicalizeCongruent(kind: IntKind, w: Word)
    requires kind.Valid()
    ensures (Canonicalize(kind, w) - w) % Span(kind) == 0
  {
    if !kind.IsFullWidth() {
      CanonicalizeMeaning(kind, w);
      hide Canonicalize;
      Residue(w, Span(kind), if kind.signed then Span(kind) / 2 else 0);
    }
  }

  /** Only the low bits matter: an exact result may be wrapped before it is reduced. */
  lemma CanonicalizeWrapped(kind: IntKind, x: int)
    requires kind.Valid() && !kind.IsFullWidth()
    ensures Canonicalize(kind, Wrap(x)) == if kind.signed then Centered(x, Span(kind)) else x % Span(kind)
  {
    hide Canonicalize, Span, SpansInWord;
    var w, m := Wrap(x), Span(kind);
    CanonicalizeMeaning(kind, w);
    var k, t := (x - w) / TWO64, SpansInWord(kind);
    assert x == w + k * TWO64;
    hide Wrap;
    MultipleOf(k, t, m);
    ResidueShifted(w, m, if kind.signed then m / 2 else 0, k * t);
  }

  /** How many times the type's width repeats in a word. */
  function SpansInWord(kind: IntKind): (t: int)
    requires kind.Valid()
    ensures t * Span(kind) == TWO64
  {
    match kind.bits
    case 8 => 0x100_0000_0000_0000
    case 16 => 0x1_0000_0000_0000
    case 32 => 0x1_0000_0000
    case _ => 1
  }

  lemma MultipleOf(k: int, t: int, m: int)
    ensures k * (t * m) == (k * t) * m
  {
  }

  // ----- small facts both machines use ------------------------------------------

  predicate Fits(x: int) {
    -TWO63 <= x < TWO63
  }

  lemma UnsignedIs(w: Word)
    ensures Unsigned(w) == if w < 0 then w + TWO64 else w
  {
  }

  lemma WrapNear(x: int)
    requires -TWO64 <= x < TWO64
    ensures Wrap(x) == if x < -TWO63 then x + TWO64 else if x >= TWO63 then x - TWO64 else x
  {
    if x < -TWO63 {
      WrapUnique(x, x + TWO64, -1);
    } else if x >= TWO63 {
      WrapUnique(x, x - TWO64, 1);
    }
  }

  lemma WrapFits(v: int)
    requires Fits(v)
    ensures Wrap(v) == v
  {
  }

  lemma HighHalf(p: nat)
    ensures p / TWO64 == 0 <==> p < TWO64
  {
  }

  lemma ProductBounds(a: int, b: int, m: int)
    requires 0 <= m && -m <= a <= m && -m <= b <= m
    ensures -(m * m) <= a * b <= m * m
  {
    if a >= 0 && b >= 0 {
      ProductMonotone(a, b, m);
    } else if a >= 0 {
      ProductMonotone(a, -b, m);
    } else if b >= 0 {
      ProductMonotone(-a, b, m);
    } else {
      ProductMonotone(-a, -b, m);
    }
    SignedProducts(a, b);
    SignedProducts(a, -b);
  }

  lemma ProductMonotone(a: nat, b: nat, m: nat)
    requires a <= m && b <= m
    ensures 0 <= a * b <= m * m
  {
    assert a * b <= a * m;
    assert a * m <= m * m;
  }

  lemma {:induction false} XorSelf(a: int, n: nat)
    ensures Bits(Xor, a, a, n) == 0
    decreases n
  {
    if n > 0 { XorSelf(a / 2, n - 1); }
  }

  lemma {:induction false} AndSelf(a: int, n: nat)
    requires -Pow2(n) <= a < Pow2(n)
    ensures Bits(And, a, a, n) == a
    decreases n
  {
    if n > 0 { AndSelf(a / 2, n - 1); }
  }

  lemma SignedProducts(q: int, b: int)
    ensures q * -b == -(q * b) && -q * b == -(q * b)
  {
  }

  lemma SameWrap(x: int, y: int)
    requires Wrap(x) == Wrap(y) && -TWO64 < x - y < TWO64
    ensures x == y
  {
    var w := Wrap(x);
    var i, j := (x - w) / TWO64, (y - w) / TWO64;
    assert x == w + i * TWO64 && y == w + j * TWO64;
    hide Wrap;
    assert x - y == (i - j) * TWO64;
  }
}
