/** Writing a relocatable ELF64 object: sections and their relocations, the symbol
    table, and the headers that find them. */
module Elf {
  import opened Types
  import opened Items
  import opened Bytes
  import opened ElfRecords
  import Words
  import L = Layout
  import opened Resolve

  // ----- the object being written ---------------------------------------------------

  datatype Machine = X86_64 | Aarch64 {
    function Id(): nat {
      if X86_64? then 62 else 183
    }

    /** What a section of instructions is aligned to. */
    function CodeAlign(): nat {
      if X86_64? then 1 else 4
    }

    /** The relocation type of a fixup kind, for the kinds the architecture has. */
    function RelocationType(kind: FixupKind): Option<nat> {
      match kind
      case Pc32 => if X86_64? then Some(2) else None
      case Plt32 => if X86_64? then Some(4) else None
      case AdrPage21 => if X86_64? then None else Some(275)
      case AddLo12 => if X86_64? then None else Some(277)
      case CondBr19 => if X86_64? then None else Some(280)
      case Jump26 => if X86_64? then None else Some(282)
      case Call26 => if X86_64? then None else Some(283)
    }
  }

  /** A section with its name as bytes, and the references into it. */
  datatype SectionIn = SectionIn(kind: SectionKind, name: Text, bytes: seq<Byte>, relocations: seq<Relocation>)

  datatype SymbolIn = SymbolIn(name: Text, definition: Option<L.Definition>)

  datatype ObjectIn = ObjectIn(sections: seq<SectionIn>, symbols: seq<SymbolIn>, functions: set<Text>)

  // ----- symbols --------------------------------------------------------------------

  function SymbolNames(o: ObjectIn): seq<Text> {
    seq(|o.symbols|, j requires 0 <= j < |o.symbols| => o.symbols[j].name)
  }

  /** Binding in the high half, type in the low. */
  function InfoOf(kind: nat): Byte
    requires kind < 16
  {
    STB_GLOBAL * 16 + kind
  }

  /** One symbol of the object, its name `at` bytes into the string table. */
  function GlobalEntry(o: ObjectIn, s: SymbolIn, at: nat): SymbolEntry {
    match s.definition
    case Some(d) =>
      var kind := if s.name in o.functions then STT_FUNC else STT_NOTYPE;
      SymbolEntry(at, InfoOf(kind), 0, d.section + 1, d.offset, d.size)
    case None => SymbolEntry(at, InfoOf(STT_NOTYPE), 0, 0, 0, 0)
  }

  /** The null entry, a local symbol for every section, and then the globals. */
  function Locals(o: ObjectIn): (t: seq<SymbolEntry>)
    ensures |t| == |o.sections| + 1
  {
    [NO_SYMBOL] + seq(|o.sections|, i requires 0 <= i < |o.sections| => SectionSymbol(i + 1))
  }

  function Globals(o: ObjectIn): (t: seq<SymbolEntry>)
    ensures |t| == |o.symbols|
  {
    seq(|o.symbols|, j requires 0 <= j < |o.symbols| =>
      GlobalEntry(o, o.symbols[j], |Strings(SymbolNames(o)[..j])|))
  }

  function SymbolTable(o: ObjectIn): seq<SymbolEntry> {
    Locals(o) + Globals(o)
  }

  function SymbolRows(t: seq<SymbolEntry>): (rows: seq<seq<Byte>>)
    ensures |rows| == |t|
  {
    seq(|t|, i requires 0 <= i < |t| => t[i].Write())
  }

  // ----- relocations ----------------------------------------------------------------

  predicate NamesSection(o: ObjectIn, r: Relocation) {
    r.against.Section? ==> r.against.section < |o.sections|
  }

  /** The entry of one relocation, unless the architecture has no such kind, the
      symbol does not exist, or the section holds nothing. */
  function RelocationOf(o: ObjectIn, m: Machine, r: Relocation): Option<RelocationEntry>
    requires NamesSection(o, r)
  {
    match m.RelocationType(r.kind)
    case None => None
    case Some(kind) =>
      match r.against
      case Symbol(i) =>
        if i < |o.symbols| then Some(RelocationEntry(r.offset, |o.sections| + 1 + i, kind, r.addend)) else None
      case Section(s) =>
        if o.sections[s].kind.HoldsData() then Some(RelocationEntry(r.offset, s + 1, kind, r.addend)) else None
  }

  /** Everything in the object has a form in the file. */
  ghost predicate Writable(o: ObjectIn, m: Machine) {
    forall s, i :: 0 <= s < |o.sections| && 0 <= i < |o.sections[s].relocations| ==>
      NamesSection(o, o.sections[s].relocations[i]) && RelocationOf(o, m, o.sections[s].relocations[i]).Some?
  }

  function RelocationRow(o: ObjectIn, m: Machine, r: Relocation): seq<Byte>
    requires NamesSection(o, r)
  {
    match RelocationOf(o, m, r)
    case Some(e) => e.Write()
    case None => Zeros(RELOCATION_SIZE)
  }

  ghost predicate AllNameSections(o: ObjectIn, rs: seq<Relocation>) {
    forall i :: 0 <= i < |rs| ==> NamesSection(o, rs[i])
  }

  function RelocationRows(o: ObjectIn, m: Machine, rs: seq<Relocation>): (rows: seq<seq<Byte>>)
    requires AllNameSections(o, rs)
    ensures |rows| == |rs|
  {
    seq(|rs|, i requires 0 <= i < |rs| => RelocationRow(o, m, rs[i]))
  }

  // ----- parts ------------------------------------------------------------------------

  /** A section as it will appear in the file. */
  datatype Part = Part(
    name: Text, kind: nat, flags: nat, align: nat, link: nat, info: nat, entrySize: nat, body: seq<Byte>)

  const SYMTAB_NAME: Text := [0x2e, 0x73, 0x79, 0x6d, 0x74, 0x61, 0x62]
  const STRTAB_NAME: Text := [0x2e, 0x73, 0x74, 0x72, 0x74, 0x61, 0x62]
  const SHSTRTAB_NAME: Text := [0x2e, 0x73, 0x68, 0x73, 0x74, 0x72, 0x74, 0x61, 0x62]
  const RELA_NAME: Text := [0x2e, 0x72, 0x65, 0x6c, 0x61]

  function FlagsOf(kind: SectionKind): nat {
    match kind
    case Text => SHF_ALLOC + SHF_EXECINSTR
    case RoData => SHF_ALLOC
    case GnuStack => 0
  }

  function AlignOf(m: Machine, kind: SectionKind): (a: nat)
    ensures a >= 1
  {
    match kind
    case Text => m.CodeAlign()
    case RoData => 8
    case GnuStack => 1
  }

  function DataPart(m: Machine, s: SectionIn): Part {
    Part(s.name, SHT_PROGBITS, FlagsOf(s.kind), AlignOf(m, s.kind), 0, 0, 0, s.bytes)
  }

  function SymtabPart(o: ObjectIn): Part {
    Part(SYMTAB_NAME, SHT_SYMTAB, 0, 8, |o.sections| + 2, |o.sections| + 1, SYMBOL_SIZE,
        Flat(SymbolRows(SymbolTable(o))))
  }

  function StrtabPart(o: ObjectIn): Part {
    Part(STRTAB_NAME, SHT_STRTAB, 0, 1, 0, 0, 0, Strings(SymbolNames(o)))
  }

  function RelaPart(o: ObjectIn, m: Machine, s: nat): Part
    requires s < |o.sections| && AllNameSections(o, o.sections[s].relocations)
  {
    Part(RELA_NAME + o.sections[s].name, SHT_RELA, SHF_INFO_LINK, 8, |o.sections| + 1, s + 1, RELOCATION_SIZE,
         Flat(RelocationRows(o, m, o.sections[s].relocations)))
  }

  ghost predicate SectionsNamed(o: ObjectIn) {
    forall s :: 0 <= s < |o.sections| ==> AllNameSections(o, o.sections[s].relocations)
  }

  /** Relocation sections for the first `k` sections that have any. */
  function RelaParts(o: ObjectIn, m: Machine, k: nat): seq<Part>
    requires k <= |o.sections| && SectionsNamed(o)
  {
    if k == 0 then []
    else RelaParts(o, m, k - 1) + if o.sections[k - 1].relocations == [] then [] else [RelaPart(o, m, k - 1)]
  }

  function DataParts(o: ObjectIn, m: Machine): (ps: seq<Part>)
    ensures |ps| == |o.sections|
  {
    seq(|o.sections|, i requires 0 <= i < |o.sections| => DataPart(m, o.sections[i]))
  }

  /** Data sections first, so a section's index is its position plus one; the
      relocation sections last. */
  function Parts(o: ObjectIn, m: Machine): seq<Part>
    requires SectionsNamed(o)
  {
    DataParts(o, m) + [SymtabPart(o), StrtabPart(o)] + RelaParts(o, m, |o.sections|)
  }

  // ----- the file -----------------------------------------------------------------------

  function Pad(file: seq<Byte>, align: nat): (r: seq<Byte>)
    requires align >= 1
    ensures |r| % align == 0 && |file| <= |r| < |file| + align && r[..|file|] == file
  {
    var n := (align - |file| % align) % align;
    Padding(|file|, align);
    file + Zeros(n)
  }

  lemma Padding(n: nat, align: nat)
    requires align >= 1
    ensures var z := (align - n % align) % align; 0 <= z < align && (n + z) % align == 0
  {
    var q, r := n / align, n % align;
    assert n == q * align + r;
    if r == 0 {
      assert (align - r) % align == 0;
    } else {
      assert (align - r) % align == align - r;
      assert n + (align - r) == (q + 1) * align;
      Multiple(q + 1, align);
    }
  }

  lemma Multiple(q: nat, align: nat)
    requires align >= 1
    ensures (q * align) % align == 0
  {
    Words.ModUnique(q * align, align, q, 0);
  }

  datatype Placing = Placing(file: seq<Byte>, headers: seq<SectionHeader>, names: seq<Text>)

  function AddPart(p: Placing, part: Part): Placing
    requires part.align >= 1
  {
    var file := Pad(p.file, part.align);
    var header := SectionHeader(
                    |Strings(p.names)|, part.kind, part.flags, |file|, |part.body|, part.link, part.info, part.align,
                    part.entrySize);
    Placing(file + part.body, p.headers + [header], p.names + [part.name])
  }

  ghost predicate Aligned(parts: seq<Part>) {
    forall i :: 0 <= i < |parts| ==> parts[i].align >= 1
  }

  function PlaceParts(parts: seq<Part>): Placing
    requires Aligned(parts)
  {
    if parts == [] then Placing(Zeros(HEADER_SIZE), [NO_SECTION], [])
    else AddPart(PlaceParts(parts[..|parts| - 1]), parts[|parts| - 1])
  }

  lemma PartsAligned(o: ObjectIn, m: Machine)
    requires SectionsNamed(o)
    ensures Aligned(Parts(o, m))
  {
    RelaAligned(o, m, |o.sections|);
  }

  lemma {:induction false} RelaAligned(o: ObjectIn, m: Machine, k: nat)
    requires k <= |o.sections| && SectionsNamed(o)
    ensures Aligned(RelaParts(o, m, k))
  {
    if k > 0 { RelaAligned(o, m, k - 1); }
  }

  /** The section names, with the name of the table that holds them last. */
  function AllNames(p: Placing): seq<Text> {
    p.names + [SHSTRTAB_NAME]
  }

  function AllHeaders(p: Placing): seq<SectionHeader> {
    p.headers
      + [SectionHeader(|Strings(p.names)|, SHT_STRTAB, 0, |p.file|, |Strings(AllNames(p))|, 0, 0, 1, 0)]
  }

  function HeaderRows(hs: seq<SectionHeader>): (rows: seq<seq<Byte>>)
    ensures |rows| == |hs|
  {
    seq(|hs|, i requires 0 <= i < |hs| => hs[i].Write())
  }

  /** Everything before the section headers, which start on a multiple of eight. */
  function FrontOf(p: Placing): (f: seq<Byte>)
  {
    Pad(p.file + Strings(AllNames(p)), 8)
  }

  function HeaderOf(m: Machine, parts: seq<Part>): FileHeader
    requires Aligned(parts)
  {
    var p := PlaceParts(parts);
    FileHeader(m.Id(), |FrontOf(p)|, |AllHeaders(p)|, |parts| + 1)
  }

  function FileOf(m: Machine, parts: seq<Part>): seq<Byte>
    requires Aligned(parts)
  {
    var p := PlaceParts(parts);
    FrontLength(p, parts);
    HeaderOf(m, parts).Write() + (FrontOf(p) + Flat(HeaderRows(AllHeaders(p))))[HEADER_SIZE..]
  }

  lemma {:induction false} PlacedLength(parts: seq<Part>)
    requires Aligned(parts)
    ensures var p := PlaceParts(parts);
      && |p.headers| == |parts| + 1 && |p.names| == |parts|
      && |p.file| >= HEADER_SIZE && p.file[..HEADER_SIZE] == Zeros(HEADER_SIZE)
  {
    if parts != [] {
      var p := PlaceParts(parts[..|parts| - 1]);
      var last := parts[|parts| - 1];
      PlacedLength(parts[..|parts| - 1]);
      var padded := Pad(p.file, last.align);
      assert (padded + last.body)[..HEADER_SIZE] == padded[..HEADER_SIZE] == padded[..|p.file|][..HEADER_SIZE];
    }
  }

  lemma FrontLength(p: Placing, parts: seq<Part>)
    requires Aligned(parts) && p == PlaceParts(parts)
    ensures |FrontOf(p)| >= HEADER_SIZE && FrontOf(p)[..HEADER_SIZE] == Zeros(HEADER_SIZE)
  {
    PlacedLength(parts);
    var body := p.file + Strings(AllNames(p));
    assert FrontOf(p)[..HEADER_SIZE] == FrontOf(p)[..|body|][..HEADER_SIZE] == body[..HEADER_SIZE];
    assert body[..HEADER_SIZE] == p.file[..HEADER_SIZE];
  }

  // ----- the writer ---------------------------------------------------------------------

  /** Appends zeroes until the file's length is a multiple. */
  method PadTo(file: seq<Byte>, align: nat) returns (r: seq<Byte>)
    requires align >= 1
    ensures r == Pad(file, align)
  {
    r := file;
    ghost var n := (align - |file| % align) % align;
    Padding(|file|, align);
    ghost var k := 0;
    while |r| % align != 0
      invariant 0 <= k <= n && r == file + Zeros(k)
      decreases n - k
    {
      Unpadded(|file|, align, k);
      r := r + [0];
      k := k + 1;
      assert file + Zeros(k) == file + Zeros(k - 1) + [0];
    }
    if k < n { Unpadded(|file|, align, k); }
  }

  /** No earlier length is a multiple. */
  lemma Unpadded(size: nat, align: nat, k: nat)
    requires align >= 1 && k <= (align - size % align) % align
    ensures (size + k) % align == 0 <==> k == (align - size % align) % align
  {
    var q, r := size / align, size % align;
    assert size == q * align + r;
    if r == 0 {
      Words.ModUnique(align, align, 1, 0);
      Words.ModUnique(size, align, q, 0);
    } else {
      Words.ModUnique(align - r, align, 0, align - r);
      if k < align - r {
        Words.ModUnique(size + k, align, q, r + k);
      } else {
        Words.ModUnique(size + k, align, q + 1, 0);
      }
    }
  }

  /** The symbol table and the string table of its names. */
  method BuildSymbols(o: ObjectIn) returns (table: seq<SymbolEntry>, strings: seq<Byte>)
    ensures table == SymbolTable(o) && strings == Strings(SymbolNames(o))
  {
    var names := new StringTable();
    table := [NO_SYMBOL];
    for i := 0 to |o.sections|
      invariant table == Locals(o)[..i + 1]
    {
      assert Locals(o)[i + 1] == SectionSymbol(i + 1);
      table := table + [SectionSymbol(i + 1)];
    }
    assert table == Locals(o);
    for j := 0 to |o.symbols|
      invariant names.Valid() && fresh(names)
      invariant names.names == SymbolNames(o)[..j]
      invariant table == Locals(o) + Globals(o)[..j]
    {
      var symbol := o.symbols[j];
      var at := names.Add(symbol.name);
      assert Globals(o)[j] == GlobalEntry(o, symbol, at);
      table := table + [GlobalEntry(o, symbol, at)];
    }
    assert SymbolNames(o)[..|o.symbols|] == SymbolNames(o);
    strings := names.bytes;
  }

  method EncodeSymbols(table: seq<SymbolEntry>) returns (bytes: seq<Byte>)
    ensures bytes == Flat(SymbolRows(table))
  {
    bytes := [];
    var rows := SymbolRows(table);
    for i := 0 to |table|
      invariant bytes == Flat(rows[..i])
    {
      assert rows[..i + 1][..i] == rows[..i];
      bytes := bytes + table[i].Write();
    }
    assert rows[..|table|] == rows;
  }

  /** The relocations of one section, refused when one has no form in the file. */
  method EncodeRelocations(o: ObjectIn, m: Machine, rs: seq<Relocation>) returns (bytes: Option<seq<Byte>>)
    requires AllNameSections(o, rs)
    ensures bytes.Some? <==> forall i :: 0 <= i < |rs| ==> RelocationOf(o, m, rs[i]).Some?
    ensures bytes.Some? ==> bytes.value == Flat(RelocationRows(o, m, rs))
  {
    hide RelocationOf, Le;
    var encoded := [];
    ghost var rows := RelocationRows(o, m, rs);
    for i := 0 to |rs|
      invariant encoded == Flat(rows[..i])
      invariant forall h :: 0 <= h < i ==> RelocationOf(o, m, rs[h]).Some?
    {
      assert rows[..i + 1][..i] == rows[..i];
      match RelocationOf(o, m, rs[i])
      case None => return None;
      case Some(e) =>
        assert rows[i] == e.Write();
        encoded := encoded + e.Write();
    }
    assert rows[..|rs|] == rows;
    return Some(encoded);
  }

  method EncodeAll(o: ObjectIn, m: Machine) returns (encoded: Option<seq<seq<Byte>>>)
    requires SectionsNamed(o)
    ensures encoded.Some? <==> Writable(o, m)
    ensures encoded.Some? ==>
      && |encoded.value| == |o.sections|
      && forall t :: 0 <= t < |o.sections| ==> encoded.value[t] == Flat(RelocationRows(o, m, o.sections[t].relocations))
  {
    hide RelocationOf, RelocationRows, Flat;
    var blocks: seq<seq<Byte>> := [];
    for s := 0 to |o.sections|
      invariant |blocks| == s
      invariant forall t, i :: 0 <= t < s && 0 <= i < |o.sections[t].relocations| ==>
        RelocationOf(o, m, o.sections[t].relocations[i]).Some?
      invariant forall t :: 0 <= t < s ==> blocks[t] == Flat(RelocationRows(o, m, o.sections[t].relocations))
    {
      var bytes := EncodeRelocations(o, m, o.sections[s].relocations);
      if bytes.None? { return None; }
      blocks := blocks + [bytes.value];
    }
    return Some(blocks);
  }

  method BuildParts(o: ObjectIn, m: Machine) returns (parts: Option<seq<Part>>)
    requires SectionsNamed(o)
    ensures parts.Some? <==> Writable(o, m)
    ensures parts.Some? ==> parts.value == Parts(o, m)
  {
    hide Flat, RelocationRows, SymbolRows, SymbolTable, Strings, Writable, RelocationOf;
    var table, strings := BuildSymbols(o);
    var encoded := EncodeAll(o, m);
    if encoded.None? { return None; }
    var symbolBytes := EncodeSymbols(table);
    var built: seq<Part> := [];
    for s := 0 to |o.sections|
      invariant built == DataParts(o, m)[..s]
    {
      built := built + [DataPart(m, o.sections[s])];
    }
    assert built == DataParts(o, m);
    built := built
      + [Part(SYMTAB_NAME, SHT_SYMTAB, 0, 8, |o.sections| + 2, |o.sections| + 1, SYMBOL_SIZE, symbolBytes)];
    built := built + [Part(STRTAB_NAME, SHT_STRTAB, 0, 1, 0, 0, 0, strings)];
    var relas := BuildRelaParts(o, m, encoded.value);
    return Some(built + relas);
  }

  method BuildRelaParts(o: ObjectIn, m: Machine, encoded: seq<seq<Byte>>) returns (relas: seq<Part>)
    requires SectionsNamed(o) && |encoded| == |o.sections|
    requires forall t :: 0 <= t < |o.sections| ==> encoded[t] == Flat(RelocationRows(o, m, o.sections[t].relocations))
    ensures relas == RelaParts(o, m, |o.sections|)
  {
    hide Flat, RelocationRows;
    relas := [];
    for s := 0 to |o.sections|
      invariant relas == RelaParts(o, m, s)
    {
      EmptyBody(o, m, s);
      if encoded[s] != [] {
        relas := relas + [Part(RELA_NAME + o.sections[s].name, SHT_RELA, SHF_INFO_LINK, 8, |o.sections| + 1, s + 1,
                               RELOCATION_SIZE, encoded[s])];
      }
    }
  }

  /** An encoded block is empty exactly when there is nothing to relocate. */
  lemma EmptyBody(o: ObjectIn, m: Machine, s: nat)
    requires SectionsNamed(o) && s < |o.sections|
    ensures Flat(RelocationRows(o, m, o.sections[s].relocations)) == [] <==> o.sections[s].relocations == []
  {
    var rs := o.sections[s].relocations;
    RowsUniform(o, m, rs);
    FlatLength(RelocationRows(o, m, rs), RELOCATION_SIZE);
  }

  lemma RowsUniform(o: ObjectIn, m: Machine, rs: seq<Relocation>)
    requires AllNameSections(o, rs)
    ensures Uniform(RelocationRows(o, m, rs), RELOCATION_SIZE)
  {
  }

  /** Serializes an object, or refuses one with a reference the file cannot hold. */
  method Write(o: ObjectIn, m: Machine) returns (r: Option<seq<Byte>>)
    requires SectionsNamed(o)
    ensures r.Some? <==> Writable(o, m)
    ensures r.Some? ==> Aligned(Parts(o, m)) && r.value == FileOf(m, Parts(o, m))
  {
    var parts := BuildParts(o, m);
    if parts.None? { return None; }
    PartsAligned(o, m);
    var file := WriteParts(m, parts.value);
    return Some(file);
  }

  method WriteParts(m: Machine, parts: seq<Part>) returns (r: seq<Byte>)
    requires Aligned(parts)
    ensures r == FileOf(m, parts)
  {
    hide Strings, Pad, Flat, PlaceParts, HeaderRows;
    var file, headers, names := PlaceEach(parts);
    ghost var p := PlaceParts(parts);
    var tableName := names.Add(SHSTRTAB_NAME);
    var offset := |file|;
    file := file + names.bytes;
    headers := headers + [SectionHeader(tableName, SHT_STRTAB, 0, offset, |names.bytes|, 0, 0, 1, 0)];
    file := PadTo(file, 8);
    var start := |file|;
    var rows := WriteHeaders(headers);
    ghost var front := file;
    file := file + rows;
    FrontLength(p, parts);
    PlacedLength(parts);
    assert file[..HEADER_SIZE] == front[..HEADER_SIZE];
    r := WriteFileHeader(file, FileHeader(m.Id(), start, |headers|, |parts| + 1));
  }

  method PlaceEach(parts: seq<Part>) returns (file: seq<Byte>, headers: seq<SectionHeader>, names: StringTable)
    requires Aligned(parts)
    ensures fresh(names) && names.Valid() && Placing(file, headers, names.names) == PlaceParts(parts)
  {
    hide Strings, Pad;
    names := new StringTable();
    file := Zeros(HEADER_SIZE);
    headers := [NO_SECTION];
    for i := 0 to |parts|
      invariant names.Valid() && fresh(names)
      invariant Placing(file, headers, names.names) == PlaceParts(parts[..i])
    {
      assert parts[..i + 1][..i] == parts[..i];
      var part := parts[i];
      file := PadTo(file, part.align);
      var offset := |file|;
      file := file + part.body;
      var name := names.Add(part.name);
      headers := headers
        + [SectionHeader(name, part.kind, part.flags, offset, |part.body|,
                         part.link, part.info, part.align, part.entrySize)];
    }
    assert parts[..|parts|] == parts;
  }

  method WriteHeaders(headers: seq<SectionHeader>) returns (bytes: seq<Byte>)
    ensures bytes == Flat(HeaderRows(headers))
  {
    hide Le;
    bytes := [];
    ghost var rows := HeaderRows(headers);
    for i := 0 to |headers|
      invariant bytes == Flat(rows[..i])
    {
      assert rows[..i + 1][..i] == rows[..i];
      bytes := bytes + headers[i].Write();
    }
    assert rows[..|headers|] == rows;
  }
}
