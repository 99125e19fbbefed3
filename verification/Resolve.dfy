/** Turning fixups into patched fields or relocations, once every label has an
    address. */
module Resolve {
  import opened Types
  import opened Items
  import opened Layout
  import L = Layout
  import Words

  datatype Against = Symbol(index: nat) | Section(section: Section)

  /** A reference the linker has to fill in. */
  datatype Relocation = Relocation(offset: nat, kind: FixupKind, against: Against, addend: int)

  // ----- fields -------------------------------------------------------------------

  /** The bits a kind of fixup patches inside its 32-bit word: `span` values in
      steps of `low`, counting `scale` bytes each. */
  datatype Field = Field(low: nat, span: nat, scale: nat) {
    predicate Valid() {
      low > 0 && span > 0 && span % 2 == 0
    }

    function Read(word: nat): int
      requires Valid()
    {
      var v := word / low % span;
      scale * if v < span / 2 then v else v - span
    }

    function Write(word: nat, v: int): int
      requires Valid()
    {
      word - word / low % span * low + v % span * low
    }
  }

  function FieldOf(kind: FixupKind): (f: Field)
    ensures f.Valid()
  {
    match kind
    case Pc32 => Field(1, 0x1_0000_0000, 1)
    case Plt32 => Field(1, 0x1_0000_0000, 1)
    case Call26 => Field(1, 0x400_0000, 4)
    case Jump26 => Field(1, 0x400_0000, 4)
    case CondBr19 => Field(32, 0x8_0000, 4)
    case AdrPage21 => Field(1, 0x1_0000_0000, 1)
    case AddLo12 => Field(1, 0x1_0000_0000, 1)
  }

  // ----- what a processor reads ------------------------------------------------------

  /** The two's complement value of a field of `span` patterns. */
  function SignExtended(v: nat, span: nat): int {
    if v < span / 2 then v else v - span
  }

  /** The displacement in bytes that executing the word adds: bits 5 to 23 of a
      conditional branch and bits 0 to 25 of a branch or call count instructions of four
      bytes; a 32-bit displacement is the whole word. */
  function Displaced(kind: FixupKind, word: nat): int {
    match kind
    case CondBr19 => 4 * SignExtended(word / 32 % 0x8_0000, 0x8_0000)
    case Call26 => 4 * SignExtended(word % 0x400_0000, 0x400_0000)
    case Jump26 => 4 * SignExtended(word % 0x400_0000, 0x400_0000)
    case Pc32 => SignExtended(word % 0x1_0000_0000, 0x1_0000_0000)
    case Plt32 => SignExtended(word % 0x1_0000_0000, 0x1_0000_0000)
    case _ => 0
  }

  /** The bits beside that field agree: the condition and the opcode. */
  predicate SameOpcode(kind: FixupKind, a: nat, b: nat) {
    match kind
    case CondBr19 => a % 32 == b % 32 && a / 0x100_0000 == b / 0x100_0000
    case Call26 => a / 0x400_0000 == b / 0x400_0000
    case Jump26 => a / 0x400_0000 == b / 0x400_0000
    case Pc32 => true
    case Plt32 => true
    case _ => a == b
  }

  /** The displacements such a word can hold. */
  predicate Displaces(kind: FixupKind, value: int) {
    match kind
    case CondBr19 => value % 4 == 0 && -0x10_0000 <= value < 0x10_0000
    case Call26 => value % 4 == 0 && -0x800_0000 <= value < 0x800_0000
    case Jump26 => value % 4 == 0 && -0x800_0000 <= value < 0x800_0000
    case Pc32 => -0x8000_0000 <= value < 0x8000_0000
    case Plt32 => -0x8000_0000 <= value < 0x8000_0000
    case _ => false
  }

  /** The field the resolver patches is the one the processor reads. */
  lemma FieldMeans(kind: FixupKind, a: nat, b: nat)
    requires kind != AdrPage21 && kind != AddLo12 && a < 0x1_0000_0000 && b < 0x1_0000_0000
    ensures FieldOf(kind).Read(a) == Displaced(kind, a)
    ensures SameOutside(FieldOf(kind), a, b) <==> SameOpcode(kind, a, b)
  {
    FieldRead(kind, a);
    AboveField(a);
    AboveField(b);
  }

  lemma FieldRead(kind: FixupKind, a: nat)
    requires kind != AdrPage21 && kind != AddLo12 && a < 0x1_0000_0000
    ensures FieldOf(kind).Read(a) == Displaced(kind, a)
  {
  }

  lemma AboveField(a: nat)
    requires a < 0x1_0000_0000
    ensures a / 32 / 0x8_0000 == a / 0x100_0000 && a / 1 / 0x1_0000_0000 == 0
    ensures a % 1 == 0 && a / 1 / 0x400_0000 == a / 0x400_0000
  {
  }

  // ----- bytes ------------------------------------------------------------------------

  function LowByte(w: nat): Byte {
    w % 0x100
  }

  function Le32(w: nat): seq<Byte> {
    [LowByte(w), LowByte(w / 0x100), LowByte(w / 0x100 / 0x100), LowByte(w / 0x100 / 0x100 / 0x100)]
  }

  function Glue(a: Byte, b: Byte, c: Byte, d: Byte): (w: nat)
    ensures w < 0x1_0000_0000
  {
    a as int + 0x100 * b as int + 0x1_0000 * c as int + 0x100_0000 * d as int
  }

  function WordAt(bytes: seq<Byte>, at: nat): (w: nat)
    requires at + 4 <= |bytes|
    ensures w < 0x1_0000_0000
  {
    Glue(bytes[at], bytes[at + 1], bytes[at + 2], bytes[at + 3])
  }

  function SetWord(bytes: seq<Byte>, at: nat, w: nat): (r: seq<Byte>)
    requires at + 4 <= |bytes|
    ensures |r| == |bytes|
    ensures forall p :: 0 <= p < |bytes| && !(at <= p < at + 4) ==> r[p] == bytes[p]
    ensures w < 0x1_0000_0000 ==> WordAt(r, at) == w
  {
    var r := bytes[..at] + Le32(w) + bytes[at + 4..];
    assert r[at] == LowByte(w) && r[at + 1] == LowByte(w / 0x100);
    assert r[at + 2] == LowByte(w / 0x100 / 0x100) && r[at + 3] == LowByte(w / 0x100 / 0x100 / 0x100);
    BytesOfWord(w);
    r
  }

  lemma BytesOfWord(w: nat)
    ensures w < 0x1_0000_0000 ==>
      w == Glue(LowByte(w), LowByte(w / 0x100), LowByte(w / 0x100 / 0x100), LowByte(w / 0x100 / 0x100 / 0x100))
  {
  }

  /** A byte displacement as a count of instruction words that fits its field. */
  function WordDisplacement(value: int, bits: nat, limit: nat): Result<int> {
    if value % 4 != 0 then Err(NotAWholeInstruction(value))
    else if value / 4 + limit < 0 || value / 4 >= limit then Err(DisplacementTooWide(value, bits))
    else Ok(value / 4)
  }

  /** The number a fixup stores in its field. */
  function Displacement(kind: FixupKind, value: int): Result<int> {
    match kind
    case Pc32 => if -0x8000_0000 <= value < 0x8000_0000 then Ok(value) else Err(DisplacementTooWide(value, 32))
    case Plt32 => if -0x8000_0000 <= value < 0x8000_0000 then Ok(value) else Err(DisplacementTooWide(value, 32))
    case Call26 => WordDisplacement(value, 26, 0x200_0000)
    case Jump26 => WordDisplacement(value, 26, 0x200_0000)
    case CondBr19 => WordDisplacement(value, 19, 0x4_0000)
    case AdrPage21 => Err(LinkerOnly)
    case AddLo12 => Err(LinkerOnly)
  }

  /** The bits outside a field: those below it and those above. */
  predicate SameOutside(f: Field, a: nat, b: nat)
    requires f.Valid()
  {
    a % f.low == b % f.low && a / f.low / f.span == b / f.low / f.span
  }

  lemma InsertField(word: nat, low: nat, span: nat, v: int) returns (h: nat, x: nat, r: nat)
    requires low > 0 && span > 0
    ensures x == v % span && r == word % low && h == word / low / span && x < span && r < low
    ensures word - word / low % span * low + v % span * low == (h * span + x) * low + r
    ensures word == (h * span + word / low % span) * low + r
    ensures ((h * span + x) * low + r) % low == r
    ensures ((h * span + x) * low + r) / low == h * span + x
    ensures (h * span + x) / span == h && (h * span + x) % span == x
  {
    h, x, r := word / low / span, v % span, word % low;
    var q, m := DivMod(word, low, r);
    var h', m' := DivMod(q, span, q % span);
    InsertAlgebra(h, span, low, m', x, r);
    Quotient(h, span, x);
    Quotient(h * span + x, low, r);
  }

  lemma DivMod(n: nat, d: nat, rem: nat) returns (q: nat, r: nat)
    requires d > 0 && rem == n % d
    ensures q == n / d && r == rem && n == q * d + r && r < d
  {
    q, r := n / d, rem;
  }

  lemma InsertAlgebra(h: int, span: int, low: int, m: int, x: int, r: int)
    ensures (h * span + m) * low + r - m * low + x * low == (h * span + x) * low + r
  {
    Distribute(h * span, x, low);
    Distribute(h * span, m, low);
  }

  lemma Distribute(a: int, b: int, c: int)
    ensures (a + b) * c == a * c + b * c
  {
  }

  lemma Quotient(q: nat, low: nat, r: nat)
    requires r < low
    ensures (q * low + r) % low == r && (q * low + r) / low == q
  {
    Words.ModUnique(q * low + r, low, q, r);
  }

  lemma FieldWritten(kind: FixupKind, word: nat, v: int)
    requires word < 0x1_0000_0000
    ensures var f := FieldOf(kind);
      && 0 <= f.Write(word, v) < 0x1_0000_0000
      && SameOutside(f, f.Write(word, v), word)
      && (-(f.span / 2) <= v < f.span / 2 ==> f.Read(f.Write(word, v)) == f.scale * v)
  {
    var f := FieldOf(kind);
    var h, x, r := InsertField(word, f.low, f.span, v);
    Wrapped(v, f.span);
    assert h * f.span * f.low <= word;
  }

  /** Writing a displacement makes the processor read it and changes no other bit. */
  lemma WrittenIsRead(kind: FixupKind, word: nat, v: int)
    requires word < 0x1_0000_0000 && kind != AdrPage21 && kind != AddLo12
    requires -(FieldOf(kind).span / 2) <= v < FieldOf(kind).span / 2
    ensures var w := FieldOf(kind).Write(word, v);
      0 <= w < 0x1_0000_0000 && SameOpcode(kind, w, word) && Displaced(kind, w) == FieldOf(kind).scale * v
  {
    FieldWritten(kind, word, v);
    hide FieldOf, SameOutside, SameOpcode, Displaced;
    FieldMeans(kind, FieldOf(kind).Write(word, v), word);
  }

  lemma Wrapped(v: int, span: int)
    requires span > 0 && span % 2 == 0
    ensures -(span / 2) <= v < span / 2 ==> v % span == if v < 0 then v + span else v
  {
    if -(span / 2) <= v < span / 2 {
      Words.ModUnique(v, span, if v < 0 then -1 else 0, if v < 0 then v + span else v);
    }
  }

  function Patch(bytes: seq<Byte>, fixup: Fixup, value: int): Result<seq<Byte>> {
    match Displacement(fixup.kind, value)
    case Err(e) => Err(e)
    case Ok(v) =>
      if fixup.offset + 4 > |bytes| then Err(PastTheSection(fixup.offset))
      else
        var word := WordAt(bytes, fixup.offset);
        FieldWritten(fixup.kind, word, v);
        Ok(SetWord(bytes, fixup.offset, FieldOf(fixup.kind).Write(word, v)))
  }

  lemma DisplacementMeaning(kind: FixupKind, value: int)
    ensures var f, r := FieldOf(kind), Displacement(kind, value);
      && (r.Ok? <==>
            && kind != AdrPage21 && kind != AddLo12
            && value % f.scale == 0 && -(f.span / 2) <= value / f.scale < f.span / 2)
      && (r.Ok? ==> -(f.span / 2) <= r.value < f.span / 2 && f.scale * r.value == value)
      && (r.Ok? <==> Displaces(kind, value))
  {
  }

  /** The processor reads a patched word as the displacement, no bit beside the field
      changes, and patching fails exactly for a displacement the field cannot hold, a
      field past the section, or a kind that is the linker's. */
  lemma PatchMeaning(bytes: seq<Byte>, fixup: Fixup, value: int)
    ensures var r := Patch(bytes, fixup, value);
      && (r.Ok? <==> Displaces(fixup.kind, value) && fixup.offset + 4 <= |bytes|)
      && (r.Ok? ==>
            && |r.value| == |bytes|
            && (forall p :: 0 <= p < |bytes| && !(fixup.offset <= p < fixup.offset + 4) ==> r.value[p] == bytes[p])
            && Displaced(fixup.kind, WordAt(r.value, fixup.offset)) == value
            && SameOpcode(fixup.kind, WordAt(r.value, fixup.offset), WordAt(bytes, fixup.offset)))
  {
    DisplacementMeaning(fixup.kind, value);
    hide Displacement, Displaces, Displaced, SetWord, SameOutside, SameOpcode, FieldOf, WordAt;
    if Displacement(fixup.kind, value).Ok? && fixup.offset + 4 <= |bytes| {
      WrittenIsRead(fixup.kind, WordAt(bytes, fixup.offset), Displacement(fixup.kind, value).value);
    }
  }

  /** A fixup inside one section is settled here exactly when some displacement can be
      patched for it, except a call through the PLT, which is the linker's to route. */
  lemma ResolvableExactly(kind: FixupKind)
    ensures kind.ResolvableInPlace() <==> (exists value :: Displaces(kind, value)) && kind != Plt32
  {
    if kind != AdrPage21 && kind != AddLo12 { assert Displaces(kind, 0); }
  }

  // ----- one fixup ------------------------------------------------------------------

  /** A section while its fixups are worked through, and the growing symbol table. */
  datatype Work = Work(bytes: seq<Byte>, relocations: seq<Relocation>, symbols: seq<L.Symbol>)

  /** What a section's references are looked up in. */
  datatype Scope = Scope(here: Items.Section, labels: map<Name, Spot>, forward: seq<NumericLabel>)

  /** Where a target is, if this object knows. */
  function Where(scope: Scope, f: Fixup): Option<Spot> {
    match f.target
    case Forward(id) =>
      (match FindForward(scope.forward, id, f.offset)
       case Some(offset) => Some(Spot(scope.here, offset))
       case None => None)
    case Named(name) => if name in scope.labels then Some(scope.labels[name]) else None
  }

  function SymbolNamed(symbols: seq<L.Symbol>, name: Name): (i: Option<nat>)
    ensures i.Some? ==> i.value < |symbols| && symbols[i.value].name == name
    ensures i.Some? ==> forall j :: 0 <= j < i.value ==> symbols[j].name != name
    ensures i.None? ==> !Knows(symbols, name)
  {
    if symbols == [] then None
    else if symbols[0].name == name then Some(0)
    else
      match SymbolNamed(symbols[1..], name)
      case Some(i) => Some(i + 1)
      case None =>
        assert forall j :: 0 < j < |symbols| ==> symbols[j] == symbols[1..][j - 1];
        None
  }

  function WithSymbol(symbols: seq<L.Symbol>, name: Name): seq<L.Symbol> {
    if SymbolNamed(symbols, name).Some? then symbols else symbols + [L.Symbol(name, None)]
  }

  function SymbolIndex(symbols: seq<L.Symbol>, name: Name): (i: nat)
    ensures i < |WithSymbol(symbols, name)| && WithSymbol(symbols, name)[i].name == name
  {
    match SymbolNamed(symbols, name)
    case Some(i) => i
    case None => |symbols|
  }

  predicate InPlace(scope: Scope, f: Fixup) {
    && Where(scope, f).Some? && Where(scope, f).value.section == scope.here
    && f.kind.ResolvableInPlace() && IsLocal(f.target)
  }

  function ResolveOne(scope: Scope, w: Work, f: Fixup): Result<Work> {
    match f.target
    case Forward(id) =>
      (match Where(scope, f)
       case None => Err(NoForwardLabel(id))
       case Some(spot) => ResolveLocal(scope, w, f, spot))
    case Named(name) =>
      if Where(scope, f).Some? && IsLocal(f.target) then ResolveLocal(scope, w, f, Where(scope, f).value)
      else
        var r := Relocation(f.offset, f.kind, Against.Symbol(SymbolIndex(w.symbols, name)), f.addend);
        Ok(w.(relocations := w.relocations + [r], symbols := WithSymbol(w.symbols, name)))
  }

  function ResolveLocal(scope: Scope, w: Work, f: Fixup, spot: Spot): Result<Work> {
    if spot.section == scope.here && f.kind.ResolvableInPlace() then
      match Patch(w.bytes, f, spot.offset + f.addend - f.offset)
      case Err(e) => Err(e)
      case Ok(bytes) => Ok(w.(bytes := bytes))
    else
      var r := Relocation(f.offset, f.kind, Against.Section(spot.section), f.addend + spot.offset);
      Ok(w.(relocations := w.relocations + [r]))
  }

  function ResolveAll(scope: Scope, w: Work, fixups: seq<Fixup>): Result<Work>
    decreases |fixups|
  {
    if fixups == [] then Ok(w)
    else
      match ResolveOne(scope, w, fixups[0])
      case Err(e) => Err(e)
      case Ok(next) => ResolveAll(scope, next, fixups[1..])
  }

  /** A fixup is not refused: its forward label exists, and when it is settled here its
      field is inside the section and can hold the displacement. */
  predicate Resolvable(scope: Scope, size: nat, f: Fixup) {
    && (f.target.Forward? ==> Where(scope, f).Some?)
    && (InPlace(scope, f) ==>
          f.offset + 4 <= size && Displaces(f.kind, Where(scope, f).value.offset + f.addend - f.offset))
  }

  lemma ResolvesOne(scope: Scope, w: Work, f: Fixup)
    ensures ResolveOne(scope, w, f).Ok? <==> Resolvable(scope, |w.bytes|, f)
    ensures ResolveOne(scope, w, f).Ok? ==> |ResolveOne(scope, w, f).value.bytes| == |w.bytes|
  {
    hide Patch, Where, SymbolIndex, WithSymbol, Displaces;
    if Where(scope, f).Some? {
      PatchMeaning(w.bytes, f, Where(scope, f).value.offset + f.addend - f.offset);
    }
  }

  /** The fixups of a section are accepted exactly when none of them is to be refused. */
  lemma {:induction false} ResolvesExactly(scope: Scope, w: Work, fixups: seq<Fixup>)
    ensures ResolveAll(scope, w, fixups).Ok? <==> forall f :: f in fixups ==> Resolvable(scope, |w.bytes|, f)
    decreases |fixups|
  {
    hide ResolveOne, Resolvable;
    if fixups != [] {
      var first, rest := fixups[0], fixups[1..];
      assert forall f :: f in fixups <==> f == first || f in rest;
      ResolvesOne(scope, w, first);
      if ResolveOne(scope, w, first).Ok? { ResolvesExactly(scope, ResolveOne(scope, w, first).value, rest); }
    }
  }

  // ----- what is left of a fixup -------------------------------------------------------

  /** The relocation carries the target's name, or the section and offset of a
      label the linker has no name for. */
  predicate Stands(scope: Scope, symbols: seq<L.Symbol>, r: Relocation, f: Fixup) {
    && r.offset == f.offset && r.kind == f.kind
    && match r.against
       case Section(there) =>
         IsLocal(f.target) && Where(scope, f).Some? && Where(scope, f).value.section == there
         && r.addend == f.addend + Where(scope, f).value.offset
       case Symbol(i) =>
         f.target.Named? && !(IsLocal(f.target) && Where(scope, f).Some?)
         && i < |symbols| && symbols[i].name == f.target.name && r.addend == f.addend
  }

  ghost predicate Left(scope: Scope, w: Work, f: Fixup) {
    exists r :: r in w.relocations && Stands(scope, w.symbols, r, f)
  }

  /** The fixup is done: its field holds target + addend - place, or it waits for
      the linker with its bytes untouched. */
  ghost predicate Settled(scope: Scope, was: seq<Byte>, w: Work, f: Fixup) {
    && |w.bytes| == |was| && f.offset + 4 <= |was|
    && var word, before := WordAt(w.bytes, f.offset), WordAt(was, f.offset);
      if InPlace(scope, f) then
        && Displaced(f.kind, word) == Where(scope, f).value.offset + f.addend - f.offset
        && SameOpcode(f.kind, word, before)
      else word == before && Left(scope, w, f)
  }

  predicate Outside(f: Fixup, p: int) {
    p < f.offset || p >= f.offset + 4
  }

  /** One fixup touches only its own field, and only adds to the two tables. */
  ghost predicate Extends(w: Work, next: Work) {
    && |next.bytes| == |w.bytes|
    && |w.relocations| <= |next.relocations| && next.relocations[..|w.relocations|] == w.relocations
    && |w.symbols| <= |next.symbols| && next.symbols[..|w.symbols|] == w.symbols
  }

  lemma ExtendsTransitive(a: Work, b: Work, c: Work)
    requires Extends(a, b) && Extends(b, c)
    ensures Extends(a, c)
  {
    assert c.relocations[..|a.relocations|] == c.relocations[..|b.relocations|][..|a.relocations|];
    assert c.symbols[..|a.symbols|] == c.symbols[..|b.symbols|][..|a.symbols|];
  }

  lemma ResolveOneSettles(scope: Scope, w: Work, f: Fixup)
    requires ResolveOne(scope, w, f).Ok? && f.offset + 4 <= |w.bytes|
    ensures var next := ResolveOne(scope, w, f).value;
      && Extends(w, next) && Settled(scope, w.bytes, next, f)
      && (forall p :: 0 <= p < |w.bytes| && Outside(f, p) ==> next.bytes[p] == w.bytes[p])
      && next.relocations == w.relocations + if InPlace(scope, f) then [] else [next.relocations[|w.relocations|]]
  {
    hide Patch, Displaced, Displaces, SameOpcode, WordAt, SymbolIndex, WithSymbol;
    var next := ResolveOne(scope, w, f).value;
    if InPlace(scope, f) {
      PatchMeaning(w.bytes, f, Where(scope, f).value.offset + f.addend - f.offset);
    } else {
      NameAdded(w.symbols, f.target);
      var r := next.relocations[|w.relocations|];
      assert r in next.relocations && Stands(scope, next.symbols, r, f);
    }
  }

  lemma NameAdded(symbols: seq<L.Symbol>, target: Target)
    ensures target.Named? ==>
      && |symbols| <= |WithSymbol(symbols, target.name)|
      && WithSymbol(symbols, target.name)[..|symbols|] == symbols
  {
  }

  /** What was settled stays settled while other fields are worked on. */
  lemma SettledStays(scope: Scope, was: seq<Byte>, w: Work, next: Work, f: Fixup)
    requires Settled(scope, was, w, f) && Extends(w, next)
    requires forall p :: f.offset <= p < f.offset + 4 ==> next.bytes[p] == w.bytes[p]
    ensures Settled(scope, was, next, f)
  {
    SameWord(w.bytes, next.bytes, f.offset);
    hide Displaced, SameOpcode, WordAt, InPlace;
    if !InPlace(scope, f) {
      var r :| r in w.relocations && Stands(scope, w.symbols, r, f);
      assert r in next.relocations[..|w.relocations|];
      assert Stands(scope, next.symbols, r, f) by {
        if r.against.Symbol? { assert next.symbols[..|w.symbols|][r.against.index] == w.symbols[r.against.index]; }
      }
    }
  }

  lemma SameWord(a: seq<Byte>, b: seq<Byte>, at: nat)
    requires |a| == |b| && at + 4 <= |a| && forall p :: at <= p < at + 4 ==> a[p] == b[p]
    ensures WordAt(a, at) == WordAt(b, at)
  {
  }

  /** A field whose word has not changed yet may be measured against either buffer. */
  lemma SettledFrom(scope: Scope, was: seq<Byte>, later: seq<Byte>, w: Work, f: Fixup)
    requires Settled(scope, later, w, f) && |was| == |later|
    requires forall p :: f.offset <= p < f.offset + 4 ==> later[p] == was[p]
    ensures Settled(scope, was, w, f)
  {
    SameWord(was, later, f.offset);
    hide Displaced, SameOpcode, WordAt, InPlace, Left;
  }

  function Offsets(relocations: seq<Relocation>): seq<nat> {
    seq(|relocations|, i requires 0 <= i < |relocations| => relocations[i].offset)
  }

  /** The places the linker is asked about. */
  function LeftOffsets(scope: Scope, fixups: seq<Fixup>): seq<nat> {
    if fixups == [] then []
    else (if InPlace(scope, fixups[0]) then [] else [fixups[0].offset]) + LeftOffsets(scope, fixups[1..])
  }

  /** Every fixup of a section is settled, no byte outside the patched fields
      changes, and the linker is asked about the remaining places only. */
  lemma {:induction false} ResolveAllSettles(scope: Scope, w: Work, fixups: seq<Fixup>)
    requires FieldsInOrder(fixups, |w.bytes|) && ResolveAll(scope, w, fixups).Ok?
    ensures var end := ResolveAll(scope, w, fixups).value;
      && Extends(w, end)
      && (forall f :: f in fixups ==> Settled(scope, w.bytes, end, f))
      && (forall p :: 0 <= p < |w.bytes| && (forall f :: f in fixups ==> Outside(f, p)) ==> end.bytes[p] == w.bytes[p])
      && Offsets(end.relocations) == Offsets(w.relocations) + LeftOffsets(scope, fixups)
    decreases |fixups|
  {
    hide Settled, Where, InPlace, ResolveOne, WordAt;
    if fixups != [] {
      var f, rest := fixups[0], fixups[1..];
      var next := ResolveOne(scope, w, f).value;
      ResolveOneSettles(scope, w, f);
      assert FieldsInOrder(rest, |next.bytes|);
      ResolveAllSettles(scope, next, rest);
      var end := ResolveAll(scope, next, rest).value;
      ExtendsTransitive(w, next, end);
      FirstStays(fixups, next.bytes, end.bytes);
      SettledStays(scope, w.bytes, next, end, f);
      forall g | g in fixups ensures Settled(scope, w.bytes, end, g) {
        if g != f {
          var i :| 0 <= i < |fixups| && fixups[i] == g;
          assert rest[i - 1] == g;
          SettledFrom(scope, w.bytes, next.bytes, end, g) by {
            assert forall p :: g.offset <= p < g.offset + 4 ==> Outside(f, p);
            assert Settled(scope, next.bytes, end, g);
            SettledInside(scope, next.bytes, end, g);
          }
        }
      }
      StandsOffset(scope, w, next, f);
    } else {
      assert w.relocations[..|w.relocations|] == w.relocations && w.symbols[..|w.symbols|] == w.symbols;
      assert Offsets(w.relocations) + [] == Offsets(w.relocations);
    }
  }

  lemma SettledInside(scope: Scope, was: seq<Byte>, w: Work, f: Fixup)
    requires Settled(scope, was, w, f)
    ensures f.offset + 4 <= |was|
  {
  }

  lemma FirstStays(fixups: seq<Fixup>, was: seq<Byte>, end: seq<Byte>)
    requires fixups != [] && FieldsInOrder(fixups, |was|) && |end| == |was|
    requires forall p :: 0 <= p < |was| && (forall f :: f in fixups[1..] ==> Outside(f, p)) ==> end[p] == was[p]
    ensures forall p :: fixups[0].offset <= p < fixups[0].offset + 4 ==> end[p] == was[p]
  {
    forall p | fixups[0].offset <= p < fixups[0].offset + 4 ensures end[p] == was[p] {
      assert forall f :: f in fixups[1..] ==> Outside(f, p);
    }
  }

  lemma StandsOffset(scope: Scope, w: Work, next: Work, f: Fixup)
    requires ResolveOne(scope, w, f) == Ok(next)
    ensures Offsets(next.relocations) == Offsets(w.relocations) + if InPlace(scope, f) then [] else [f.offset]
  {
  }

  // ----- the object ---------------------------------------------------------------------

  /** One section of a laid-out object. */
  datatype SectionData = SectionData(
    bytes: seq<Byte>,
    relocations: seq<Relocation>,
    fixups: seq<Fixup>,
    forward: seq<NumericLabel>)

  function DataOf(code: Code): SectionData {
    SectionData(code.bytes, [], code.fixups, code.forward)
  }

  function ScopeOf(labels: map<Name, Spot>, data: seq<SectionData>, s: Items.Section): Scope
    requires s < |data|
  {
    Scope(s, labels, data[s].forward)
  }

  datatype Resolved = Resolved(data: seq<SectionData>, symbols: seq<L.Symbol>)

  /** The sections from `s` on, one after another. */
  function ResolveFrom(labels: map<Name, Spot>, o: Resolved, s: nat): Result<Resolved>
    decreases |o.data| - s
  {
    if s >= |o.data| then Ok(o)
    else
      var sd := o.data[s];
      match ResolveAll(ScopeOf(labels, o.data, s), Work(sd.bytes, sd.relocations, o.symbols), sd.fixups)
      case Err(e) => Err(e)
      case Ok(w) => ResolveFrom(labels, AfterSection(o, s, w), s + 1)
  }

  function AfterSection(o: Resolved, s: nat, w: Work): Resolved
    requires s < |o.data|
  {
    Resolved(o.data[s := o.data[s].(bytes := w.bytes, relocations := w.relocations, fixups := [])], w.symbols)
  }

  class Object {
    var data: seq<SectionData>
    var symbols: seq<L.Symbol>
    const labels: map<Name, Spot>

    constructor (code: seq<Code>, symbols: seq<L.Symbol>, labels: map<Name, Spot>)
      ensures this.labels == labels && this.symbols == symbols
      ensures data == seq(|code|, i requires 0 <= i < |code| => DataOf(code[i]))
    {
      this.data := seq(|code|, i requires 0 <= i < |code| => DataOf(code[i]));
      this.symbols := symbols;
      this.labels := labels;
    }

    method IndexOf(name: Name) returns (i: nat)
      modifies this`symbols
      ensures i == SymbolIndex(old(symbols), name) && symbols == WithSymbol(old(symbols), name)
    {
      match SymbolNamed(symbols, name)
      case Some(at) =>
        i := at;
      case None =>
        i := |symbols|;
        symbols := symbols + [L.Symbol(name, None)];
    }

    /** Turns every fixup into patched bytes or a relocation. */
    method ResolveFixups() returns (r: Result<()>)
      modifies this
      ensures match ResolveFrom(labels, old(Resolved(data, symbols)), 0)
        case Err(e) => r == Err(e)
        case Ok(o) => r == Ok(()) && data == o.data && symbols == o.symbols
    {
      for index := 0 to |data|
        invariant |data| == old(|data|)
        invariant ResolveFrom(labels, Resolved(data, symbols), index)
               == ResolveFrom(labels, old(Resolved(data, symbols)), 0)
      {
        r := ResolveSection(index);
        if r.Err? { return r; }
      }
      return Ok(());
    }

    method ResolveSection(index: nat) returns (r: Result<()>)
      requires index < |data|
      modifies this
      ensures
        var sd, scope := old(data[index]), ScopeOf(labels, old(data), index);
        match ResolveAll(scope, Work(sd.bytes, sd.relocations, old(symbols)), sd.fixups)
        case Err(e) => r == Err(e)
        case Ok(w) => r == Ok(()) && Resolved(data, symbols) == AfterSection(old(Resolved(data, symbols)), index, w)
    {
      var fixups := data[index].fixups;
      data := data[index := data[index].(fixups := [])];
      ghost var start := Work(data[index].bytes, data[index].relocations, symbols);
      ghost var scope := ScopeOf(labels, data, index);
      for j := 0 to |fixups|
        invariant |data| == old(|data|)
        invariant data == old(data)[index := data[index]]
        invariant data[index]
               == old(data[index]).(fixups := [], bytes := data[index].bytes, relocations := data[index].relocations)
        invariant ResolveAll(scope, Work(data[index].bytes, data[index].relocations, symbols), fixups[j..])
               == ResolveAll(scope, start, fixups)
      {
        assert fixups[j..][1..] == fixups[j + 1..];
        r := ResolveFixup(index, fixups[j]);
        if r.Err? { return r; }
      }
      return Ok(());
    }

    method ResolveFixup(index: nat, f: Fixup) returns (r: Result<()>)
      requires index < |data|
      modifies this
      ensures
        var sd, scope := old(data[index]), ScopeOf(labels, old(data), index);
        match ResolveOne(scope, Work(sd.bytes, sd.relocations, old(symbols)), f)
        case Err(e) => r == Err(e)
        case Ok(w) =>
          r == Ok(()) && symbols == w.symbols
          && data == old(data)[index := sd.(bytes := w.bytes, relocations := w.relocations)]
    {
      var place: Option<Spot> := None;
      match f.target {
        case Forward(id) =>
          var at := FindForward(data[index].forward, id, f.offset);
          if at.None? { return Err(NoForwardLabel(id)); }
          place := Some(Spot(index, at.value));
        case Named(name) =>
          place := if name in labels then Some(labels[name]) else None;
      }
      var sd := data[index];
      if place.Some? && place.value.section == index && f.kind.ResolvableInPlace() && IsLocal(f.target) {
        var patched := Patch(sd.bytes, f, place.value.offset + f.addend - f.offset);
        if patched.Err? { return Err(patched.error); }
        data := data[index := sd.(bytes := patched.value)];
      } else if place.Some? && IsLocal(f.target) {
        var reloc := Relocation(f.offset, f.kind, Against.Section(place.value.section), f.addend + place.value.offset);
        data := data[index := sd.(relocations := sd.relocations + [reloc])];
      } else if f.target.Named? {
        var symbol := IndexOf(f.target.name);
        var reloc := Relocation(f.offset, f.kind, Against.Symbol(symbol), f.addend);
        data := data[index := sd.(relocations := sd.relocations + [reloc])];
      }
      return Ok(());
    }
  }
}
