/** What a back end hands to the object writer: one stream of items, and the
    table of sections they are placed in. */
module Items {
  import opened Types

  type Byte = b: int | 0 <= b < 0x100
  type Name = string
  type Section = nat

  datatype Result<+T> = Ok(value: T) | Err(error: Error)

  datatype Error =
    | BeforeFirstSection
    | NotPlaceable(section: Section)
    | NotCode(section: Section)
    | SizeBeforeLabel(name: Name)
    | SizeInAnotherSection(name: Name)
    | CannotEncode
    | NoForwardLabel(id: nat)
    | DisplacementTooWide(value: int, bits: nat)
    | NotAWholeInstruction(value: int)
    | PastTheSection(offset: nat)
    | LinkerOnly

  datatype SectionKind = Text | RoData | GnuStack {
    predicate HoldsCode() { Text? }
    predicate HoldsData() { Text? || RoData? }
  }

  datatype SectionDef = SectionDef(kind: SectionKind, name: Name)

  const TEXT: Section := 0
  const RODATA: Section := 1
  const GNU_STACK: Section := 2

  const BASE: seq<SectionDef> :=
    [SectionDef(Text, ".text"), SectionDef(RoData, ".rodata"), SectionDef(GnuStack, ".note.GNU-stack")]

  /** The three sections every object has, as the platform names them; only the last one,
      whose presence keeps the stack from being executable, holds nothing. */
  lemma BaseSections()
    ensures |BASE| == 3 && TEXT < 3 && RODATA < 3 && GNU_STACK < 3
    ensures BASE[TEXT].name == ".text" && BASE[TEXT].kind.HoldsCode()
    ensures BASE[RODATA].name == ".rodata" && BASE[RODATA].kind.HoldsData() && !BASE[RODATA].kind.HoldsCode()
    ensures BASE[GNU_STACK].name == ".note.GNU-stack" && !BASE[GNU_STACK].kind.HoldsData()
  {
  }

  /** A place a fixup can point at: a name, or the next `1:` written `1f`. */
  datatype Target = Named(name: Name) | Forward(id: nat)

  datatype FixupKind = Pc32 | Plt32 | Call26 | Jump26 | CondBr19 | AdrPage21 | AddLo12 {
    /** A displacement inside one section is known here; a page is the linker's. */
    predicate ResolvableInPlace() {
      Pc32? || Call26? || Jump26? || CondBr19?
    }
  }

  datatype Fixup = Fixup(offset: nat, kind: FixupKind, target: Target, addend: int) {
    function At(start: nat): Fixup {
      this.(offset := start + offset)
    }
  }

  /** What an instruction appends: bytes, and fixups measured from its start. */
  datatype Encoded = Encoded(bytes: seq<Byte>, fixups: seq<Fixup>)

  type Encoder<!I> = I -> Result<Encoded>

  /** The fields to patch are whole words inside the bytes, one after another. */
  ghost predicate FieldsInOrder(fixups: seq<Fixup>, size: nat) {
    && (forall i :: 0 <= i < |fixups| ==> fixups[i].offset + 4 <= size)
    && (forall i, j :: 0 <= i < j < |fixups| ==> fixups[i].offset + 4 <= fixups[j].offset)
  }

  /** What every instruction set promises of its encoder. */
  ghost predicate Encodes<I(!new)>(enc: Encoder<I>) {
    forall i :: enc(i).Ok? ==> FieldsInOrder(enc(i).value.fixups, |enc(i).value.bytes|)
  }

  datatype Item<I> =
    | Section(section: Section)
    | Label(name: Name)
    | Numeric(id: nat)
    | Global(name: Name)
    | Function(name: Name)
    | Size(name: Name)
    | Bytes(bytes: seq<Byte>)
    | File(index: nat, path: Name)
    | Loc(file: nat, line: nat, column: nat)
    | Instruction(inst: I)
    | Syntax(directive: Name)
  {
    /** Debug information may not change which instructions are emitted. */
    predicate IsLocation() {
      Loc?
    }
  }

  predicate StartsWith(s: Name, prefix: Name) {
    |prefix| <= |s| && s[..|prefix|] == prefix
  }

  /** Whether a target is invisible to the linker. */
  predicate IsLocal(target: Target): (local: bool)
    ensures local <==>
      target.Forward? || (|target.name| >= 2 && target.name[0] == '.' && target.name[1] == 'L')
  {
    match target
    case Forward(_) => true
    case Named(name) => StartsWith(name, ".L")
  }
}
