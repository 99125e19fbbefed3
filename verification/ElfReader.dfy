/** Reading a relocatable ELF64 object back by the rules of the System V gABI, and
    the proof that the writer's file says exactly what the object said. */
module ElfReader {
  import opened Types
  import opened Items
  import opened Bytes
  import opened ElfRecords
  import Words
  import L = Layout
  import opened Resolve
  import opened Elf

  // ----- the reader -------------------------------------------------------------------

  // The numbers here are the gABI's own: section types 1 (PROGBITS), 2 (SYMTAB),
  // 3 (STRTAB) and 4 (RELA); flags 2 (ALLOC), 4 (EXECINSTR) and 0x40 (INFO_LINK);
  // bindings 0 (local) and 1 (global); symbol types 0 (none), 2 (function), 3 (section).

  /** `e_machine` of the two processor supplements. */
  function MachineNumber(m: Machine): nat {
    match m
    case X86_64 => 62
    case Aarch64 => 183
  }

  datatype SymbolOut = SymbolOut(name: Text, definition: Option<L.Definition>, isFunction: bool)

  datatype ReadBack = ReadBack(sections: seq<SectionIn>, symbols: seq<SymbolOut>)

  function Slice(b: seq<Byte>, from: nat, size: nat): seq<Byte> {
    if from + size <= |b| then b[from..from + size] else []
  }

  function ReadHeaders(b: seq<Byte>, h: FileHeader): Option<seq<SectionHeader>> {
    if h.sectionHeaders + SECTION_HEADER_SIZE * h.count > |b| then None
    else
      Some(seq(h.count, i requires 0 <= i < h.count => ReadHeaderAt(b, h.sectionHeaders + SECTION_HEADER_SIZE * i)))
  }

  function ReadHeaderAt(b: seq<Byte>, from: nat): SectionHeader
    requires from + SECTION_HEADER_SIZE <= |b|
  {
    ReadSectionHeader(b[from..from + SECTION_HEADER_SIZE])
  }

  function BodyOf(b: seq<Byte>, h: SectionHeader): seq<Byte> {
    Slice(b, h.offset, h.size)
  }

  /** The sections of one type among the first `n`, in order. */
  function OfKind(hs: seq<SectionHeader>, kind: nat, n: nat): (ks: seq<nat>)
    requires n <= |hs|
    ensures forall i :: 0 <= i < |ks| ==> ks[i] < n && hs[ks[i]].kind == kind
  {
    if n == 0 then [] else OfKind(hs, kind, n - 1) + if hs[n - 1].kind == kind then [n - 1] else []
  }

  /** The relocation section whose `sh_info` names a section. */
  function RelaFor(hs: seq<SectionHeader>, index: nat, n: nat): (r: Option<nat>)
    requires n <= |hs|
    ensures r.Some? ==> r.value < n
  {
    if n == 0 then None
    else
      match RelaFor(hs, index, n - 1)
      case Some(r) => Some(r)
      case None => if hs[n - 1].kind == 4 && hs[n - 1].info == index then Some(n - 1) else None
  }

  function Row(body: seq<Byte>, width: nat, i: nat): seq<Byte>
    requires width > 0 && i < |body| / width
  {
    RowInside(|body|, width, i);
    body[width * i..width * i + width]
  }

  lemma RowInside(size: nat, width: nat, i: nat)
    requires width > 0 && i < size / width
    ensures 0 <= width * i && width * i + width <= size
  {
    assert width * (i + 1) <= width * (size / width);
    assert width * (i + 1) == width * i + width;
  }

  function ReadSymbols(body: seq<Byte>): seq<SymbolEntry> {
    seq(|body| / SYMBOL_SIZE, i requires 0 <= i < |body| / SYMBOL_SIZE => ReadSymbol(Row(body, SYMBOL_SIZE, i)))
  }

  function ReadRelocations(body: seq<Byte>): seq<RelocationEntry> {
    seq(|body| / RELOCATION_SIZE,
        i requires 0 <= i < |body| / RELOCATION_SIZE => ReadRelocation(Row(body, RELOCATION_SIZE, i)))
  }

  function KindOfType(m: Machine, t: nat): Option<FixupKind> {
    match m
    case X86_64 => if t == 2 then Some(Pc32) else if t == 4 then Some(Plt32) else None
    case Aarch64 =>
      if t == 275 then Some(AdrPage21)
      else if t == 277 then Some(AddLo12)
      else if t == 280 then Some(CondBr19)
      else if t == 282 then Some(Jump26)
      else if t == 283 then Some(Call26)
      else None
  }

  /** What a relocation names: the section of a local symbol, or a global. */
  function AgainstOf(entries: seq<SymbolEntry>, first: nat, symbol: nat): Option<Against> {
    if symbol >= |entries| then None
    else if symbol >= first then Some(Against.Symbol(symbol - first))
    else if entries[symbol].section >= 1 then Some(Against.Section(entries[symbol].section - 1))
    else None
  }

  function RelocationRead(m: Machine, entries: seq<SymbolEntry>, first: nat, e: RelocationEntry): Option<Relocation> {
    match (KindOfType(m, e.kind), AgainstOf(entries, first, e.symbol))
    case (Some(kind), Some(against)) => Some(Relocation(e.offset, kind, against, e.addend))
    case _ => None
  }

  function AllSome<T>(xs: seq<Option<T>>): Option<seq<T>> {
    if forall i :: 0 <= i < |xs| ==> xs[i].Some? then Some(seq(|xs|, i requires 0 <= i < |xs| => xs[i].value)) else None
  }

  function RelocationsRead(
      m: Machine, entries: seq<SymbolEntry>, first: nat, body: seq<Byte>): Option<seq<Relocation>> {
    var es := ReadRelocations(body);
    AllSome(seq(|es|, i requires 0 <= i < |es| => RelocationRead(m, entries, first, es[i])))
  }

  /** Loaded and executable, loaded and read-only, or not loaded at all. */
  function KindOfFlags(flags: nat): Option<SectionKind> {
    if flags == 6 then Some(Text) else if flags == 2 then Some(RoData) else if flags == 0 then Some(GnuStack) else None
  }

  /** The references into a section; none when it has no relocation section. */
  function RelaBytes(b: seq<Byte>, hs: seq<SectionHeader>, index: nat): seq<Byte> {
    match RelaFor(hs, index, |hs|)
    case Some(r) => BodyOf(b, hs[r])
    case None => []
  }

  function SectionRead(
    b: seq<Byte>, m: Machine, hs: seq<SectionHeader>, names: seq<Byte>, entries: seq<SymbolEntry>, first: nat,
    index: nat)
    : Option<SectionIn>
    requires index < |hs|
  {
    var h := hs[index];
    match (RelocationsRead(m, entries, first, RelaBytes(b, hs, index)), KindOfFlags(h.flags))
    case (Some(rs), Some(kind)) => Some(SectionIn(kind, CString(names, h.name), BodyOf(b, h), rs))
    case _ => None
  }

  function SymbolRead(e: SymbolEntry, strings: seq<Byte>): SymbolOut {
    SymbolOut(
      CString(strings, e.name),
      if e.section == 0 then None else Some(L.Definition(e.section - 1, e.value, e.size)),
      e.info % 16 == 2)
  }

  function ReadObject(b: seq<Byte>, m: Machine): Option<ReadBack> {
    if |b| < HEADER_SIZE || !IsRelocatable(b) || ReadFileHeader(b).machine != MachineNumber(m) then None
    else if ReadFileHeader(b).sectionHeaders % 8 != 0 then None
    else
      match ReadHeaders(b, ReadFileHeader(b))
      case None => None
      case Some(hs) => ReadSections(b, m, hs, ReadFileHeader(b).names)
  }

  function ReadSections(b: seq<Byte>, m: Machine, hs: seq<SectionHeader>, namesIndex: nat): Option<ReadBack> {
    var symtabs, data := OfKind(hs, 2, |hs|), OfKind(hs, 1, |hs|);
    if namesIndex >= |hs| || |symtabs| != 1 || hs[symtabs[0]].link >= |hs| then None
    else
      var names, table := BodyOf(b, hs[namesIndex]), hs[symtabs[0]];
      var entries, strings, first := ReadSymbols(BodyOf(b, table)), BodyOf(b, hs[table.link]), table.info;
      if first > |entries| || !Conforms(hs, namesIndex, symtabs[0], entries, first) then None
      else
        match ReadData(b, m, hs, names, entries, first, data)
        case None => None
        case Some(sections) => Some(ReadBack(sections, ReadGlobals(entries, first, strings)))
  }

  /** What the gABI asks of the tables: a null first header and first symbol, string
      tables where names are looked up, relocation sections that name the symbol table
      and say so in their flags, local section symbols before the globals. */
  predicate Conforms(hs: seq<SectionHeader>, namesIndex: nat, symtab: nat, entries: seq<SymbolEntry>, first: nat)
  {
    && namesIndex < |hs| && symtab < |hs| && hs[symtab].link < |hs| && first <= |entries|
    && hs[0] == SectionHeader(0, 0, 0, 0, 0, 0, 0, 0, 0)
    && hs[namesIndex].kind == 3 && hs[hs[symtab].link].kind == 3
    && hs[symtab].entrySize == 24 && hs[symtab].align == 8 && hs[symtab].flags == 0
    && (forall i :: 0 <= i < |hs| && hs[i].kind == 4 ==>
          hs[i].flags == 0x40 && hs[i].link == symtab && hs[i].entrySize == 24 && hs[i].align == 8)
    && (forall i :: 0 <= i < |hs| && hs[i].kind == 3 ==> hs[i].flags == 0 && hs[i].align == 1)
    && first >= 1 && entries[0] == SymbolEntry(0, 0, 0, 0, 0, 0)
    && (forall i :: 0 <= i < |hs| && hs[i].kind == 1 ==> hs[i].link == 0 && hs[i].info == 0 && hs[i].entrySize == 0)
    && (forall i :: 1 <= i < first ==> entries[i] == SymbolEntry(0, 3, 0, i, 0, 0))
    && (forall i :: first <= i < |entries| ==>
          && (entries[i].info == 16 || entries[i].info == 18) && entries[i].other == 0
          && (entries[i].section == 0 ==> entries[i].value == 0 && entries[i].size == 0 && entries[i].info == 16))
  }

  function ReadData(
    b: seq<Byte>, m: Machine, hs: seq<SectionHeader>, names: seq<Byte>, entries: seq<SymbolEntry>, first: nat,
    data: seq<nat>)
    : Option<seq<SectionIn>>
    requires forall i :: 0 <= i < |data| ==> data[i] < |hs|
  {
    AllSome(seq(|data|, i requires 0 <= i < |data| => SectionRead(b, m, hs, names, entries, first, data[i])))
  }

  function ReadGlobals(entries: seq<SymbolEntry>, first: nat, strings: seq<Byte>): seq<SymbolOut>
    requires first <= |entries|
  {
    seq(|entries| - first, j requires 0 <= j < |entries| - first => SymbolRead(entries[first + j], strings))
  }

  // ----- where the parts are ------------------------------------------------------------

  lemma AddPartPlaces(p: Placing, part: Part)
    requires part.align >= 1
    ensures var q := AddPart(p, part);
      var h := q.headers[|p.headers|];
      && |q.headers| == |p.headers| + 1 && q.headers[..|p.headers|] == p.headers
      && |p.file| <= |q.file| && q.file[..|p.file|] == p.file
      && h == SectionHeader(|Strings(p.names)|, part.kind, part.flags, h.offset, |part.body|, part.link, part.info,
           part.align, part.entrySize)
      && h.offset % part.align == 0 && |p.file| <= h.offset && h.offset + h.size == |q.file|
      && q.file[h.offset..h.offset + h.size] == part.body
      && q.names == p.names + [part.name]
  {
    hide Strings;
    var padded := Pad(p.file, part.align);
    hide Pad;
    var q := AddPart(p, part);
    assert q.file[..|p.file|] == padded[..|p.file|];
  }

  /** The header of part `i` describes it, its body is where the header says, on its
      alignment and after everything before it, and its name is in the name table. */
  ghost predicate PlacedPart(p: Placing, parts: seq<Part>, i: nat)
    requires i < |parts|
  {
    && i + 1 < |p.headers| && i < |p.names| && p.names[i] == parts[i].name
    && var h, part := p.headers[i + 1], parts[i];
      && h == SectionHeader(|Strings(p.names[..i])|, part.kind, part.flags, h.offset, |part.body|, part.link,
           part.info, part.align, part.entrySize)
      && part.align >= 1 && h.offset % part.align == 0 && h.offset >= HEADER_SIZE && h.offset + h.size <= |p.file|
      && p.file[h.offset..h.offset + h.size] == part.body
  }

  lemma {:induction false} PartPlaced(parts: seq<Part>, i: nat)
    requires Aligned(parts) && i < |parts|
    ensures PlacedPart(PlaceParts(parts), parts, i)
  {
    var n := |parts| - 1;
    var front := parts[..n];
    var before, p := PlaceParts(front), PlaceParts(parts);
    PlacedLength(front);
    AddPartPlaces(before, parts[n]);
    hide Strings, AddPart, PlacedPart;
    if i < n {
      PartPlaced(front, i);
      KeptPlaced(before, p, parts, i, n);
    } else {
      hide PlaceParts;
      NewPlaced(before, p, parts, n);
    }
  }

  lemma NewPlaced(p: Placing, q: Placing, parts: seq<Part>, n: nat)
    requires n < |parts| && |p.headers| == n + 1 && |p.names| == n && |p.file| >= HEADER_SIZE && parts[n].align >= 1
    requires |q.headers| == n + 2 && q.names == p.names + [parts[n].name]
    requires var h, part := q.headers[n + 1], parts[n];
      && h == SectionHeader(|Strings(p.names)|, part.kind, part.flags, h.offset, |part.body|, part.link, part.info,
                            part.align, part.entrySize)
      && h.offset % part.align == 0 && |p.file| <= h.offset && h.offset + h.size == |q.file|
      && q.file[h.offset..h.offset + h.size] == part.body
    ensures PlacedPart(q, parts, n)
  {
    hide Strings;
    assert q.names[..n] == p.names;
  }

  lemma KeptPlaced(p: Placing, q: Placing, parts: seq<Part>, i: nat, n: nat)
    requires i < n < |parts| && PlacedPart(p, parts[..n], i)
    requires |p.headers| <= |q.headers| && q.headers[..|p.headers|] == p.headers
    requires |p.file| <= |q.file| && q.file[..|p.file|] == p.file
    requires |p.names| <= |q.names| && q.names[..|p.names|] == p.names
    ensures PlacedPart(q, parts, i)
  {
    hide Strings;
    var h := p.headers[i + 1];
    assert q.headers[i + 1] == q.headers[..|p.headers|][i + 1];
    assert q.names[i] == q.names[..|p.names|][i];
    assert q.names[..i] == q.names[..|p.names|][..i];
    SlicePrefix(p.file, q.file[|p.file|..], h.offset, h.offset + h.size);
    assert q.file == p.file + q.file[|p.file|..];
  }

  /** Section bodies never overlap: each starts where the ones before it have ended. */
  lemma {:induction false} BodiesApart(parts: seq<Part>, i: nat, j: nat)
    requires Aligned(parts) && i < j < |parts|
    ensures var hs := PlaceParts(parts).headers;
      j + 1 < |hs| && hs[i + 1].offset + hs[i + 1].size <= hs[j + 1].offset
  {
    var n := |parts| - 1;
    var front := parts[..n];
    PlacedLength(front);
    PartPlaced(front, i);
    AddPartPlaces(PlaceParts(front), parts[n]);
    hide Strings, AddPart;
    var before, p := PlaceParts(front), PlaceParts(parts);
    assert p.headers[i + 1] == p.headers[..|before.headers|][i + 1];
    if j < n {
      BodiesApart(front, i, j);
      assert p.headers[j + 1] == p.headers[..|before.headers|][j + 1];
    }
  }

  // ----- the written file -------------------------------------------------------------------

  /** What fits the fields of the format. */
  ghost predicate PartsFit(m: Machine, parts: seq<Part>)
  {
    && Aligned(parts)
    && |parts| + 2 < 0xff00
    && |FrontOf(PlaceParts(parts))| < Radix(8)
    && |Strings(AllNames(PlaceParts(parts)))| < Radix(4)
    && forall i :: 0 <= i < |parts| ==>
         && parts[i].kind < Radix(4) && parts[i].flags < Radix(8) && parts[i].link < Radix(4)
         && parts[i].info < Radix(4) && parts[i].align < Radix(8) && parts[i].entrySize < Radix(8)
  }

  /** A file is its header, then what was laid out after the space for it. */
  lemma FileShape(m: Machine, parts: seq<Part>)
    requires Aligned(parts)
    ensures var p := PlaceParts(parts);
      && |p.file| >= HEADER_SIZE && |HeaderOf(m, parts).Write()| == HEADER_SIZE
      && FileOf(m, parts) == HeaderOf(m, parts).Write() + (FrontOf(p) + Flat(HeaderRows(AllHeaders(p))))[HEADER_SIZE..]
      && |p.file| + |Strings(AllNames(p))| <= |FrontOf(p)|
      && FrontOf(p)[..|p.file| + |Strings(AllNames(p))|] == p.file + Strings(AllNames(p))
  {
    PlacedLength(parts);
    FrontLength(PlaceParts(parts), parts);
    hide Strings, Flat, PlaceParts, HeaderOf, Le, FileHeader.Write, HeaderRows, AllHeaders, AllNames;
  }

  /** A slice of the second of four pieces, past the first. */
  lemma SliceThrough(h: seq<Byte>, front: seq<Byte>, rows: seq<Byte>, body: seq<Byte>, from: nat, to': nat)
    requires |h| <= from <= to' <= |body| <= |front| && front[..|body|] == body
    ensures var b := h + (front + rows)[|h|..];
      |front| <= |b| && b[from..to'] == body[from..to']
  {
    TailSlice(h, front + rows, from, to');
    SlicePrefix(front, rows, from, to');
    PrefixSlice(front, body, from, to');
  }

  lemma PrefixSlice(front: seq<Byte>, body: seq<Byte>, from: nat, to': nat)
    requires from <= to' <= |body| <= |front| && front[..|body|] == body
    ensures front[from..to'] == body[from..to']
  {
    assert front == body + front[|body|..];
    SlicePrefix(body, front[|body|..], from, to');
  }

  /** Past the file header the file is what was laid out. */
  lemma FileTail(m: Machine, parts: seq<Part>, from: nat, to': nat)
    requires Aligned(parts)
    requires var p := PlaceParts(parts); HEADER_SIZE <= from <= to' <= |p.file|
    ensures var p, b := PlaceParts(parts), FileOf(m, parts);
      |p.file| <= |b| && b[from..to'] == p.file[from..to']
  {
    hide *;
    FileShape(m, parts);
    var p := PlaceParts(parts);
    SliceThrough(HeaderOf(m, parts).Write(), FrontOf(p), Flat(HeaderRows(AllHeaders(p))),
                 p.file + Strings(AllNames(p)), from, to');
    SlicePrefix(p.file, Strings(AllNames(p)), from, to');
  }

  lemma TailSlice(h: seq<Byte>, whole: seq<Byte>, from: nat, to': nat)
    requires |h| <= from <= to' <= |whole|
    ensures (h + whole[|h|..])[from..to'] == whole[from..to']
  {
  }

  lemma NamesInFile(m: Machine, parts: seq<Part>)
    requires Aligned(parts)
    ensures var p, b := PlaceParts(parts), FileOf(m, parts);
      Slice(b, |p.file|, |Strings(AllNames(p))|) == Strings(AllNames(p))
  {
    hide *;
    FileShape(m, parts);
    var p := PlaceParts(parts);
    var names := Strings(AllNames(p));
    SliceThrough(HeaderOf(m, parts).Write(), FrontOf(p), Flat(HeaderRows(AllHeaders(p))),
                 p.file + names, |p.file|, |p.file| + |names|);
    SliceMiddle(p.file, names, []);
    SliceIs(FileOf(m, parts), p.file + names, |p.file|, |names|);
  }

  lemma SliceIs(b: seq<Byte>, body: seq<Byte>, from: nat, size: nat)
    requires from + size <= |body| <= |b| && b[from..from + size] == body[from..from + size]
    requires from + size == |body|
    ensures Slice(b, from, size) == body[from..]
  {
  }

  lemma HeadersFit(m: Machine, parts: seq<Part>)
    requires PartsFit(m, parts)
    ensures forall i :: 0 <= i < |AllHeaders(PlaceParts(parts))| ==> AllHeaders(PlaceParts(parts))[i].Fits()
    ensures |AllHeaders(PlaceParts(parts))| == |parts| + 2
    ensures HeaderOf(m, parts).Fits()
  {
    var p := PlaceParts(parts);
    PlacedLength(parts);
    RadixValues();
    FrontRoom(p);
    hide Strings, PlaceParts, Radix, FrontOf, PlacedPart, SectionHeader.Fits;
    forall i | 0 <= i < |AllHeaders(p)| ensures AllHeaders(p)[i].Fits() {
      HeaderFits(m, parts, i);
    }
  }

  lemma FrontRoom(p: Placing)
    ensures |p.file| + |Strings(AllNames(p))| <= |FrontOf(p)|
  {
    hide Strings;
    assert FrontOf(p)[..|p.file + Strings(AllNames(p))|] == p.file + Strings(AllNames(p));
  }

  lemma HeaderFits(m: Machine, parts: seq<Part>, i: nat)
    requires PartsFit(m, parts) && i < |AllHeaders(PlaceParts(parts))|
    ensures AllHeaders(PlaceParts(parts))[i].Fits()
  {
    var p := PlaceParts(parts);
    PlacedLength(parts);
    FrontRoom(p);
    NamesGrow(p.names);
    RadixValues();
    hide Strings, PlaceParts, Radix, FrontOf;
    if i == 0 {
      FirstHeader(parts);
    } else if i <= |parts| {
      PartPlaced(parts, i - 1);
    }
  }

  lemma {:induction false} FirstHeader(parts: seq<Part>)
    requires Aligned(parts)
    ensures |PlaceParts(parts).headers| > 0 && PlaceParts(parts).headers[0] == NO_SECTION
  {
    if parts != [] {
      FirstHeader(parts[..|parts| - 1]);
    }
  }

  lemma NamesGrow(names: seq<Text>)
    ensures forall i :: 0 <= i <= |names| ==> |Strings(names[..i])| <= |Strings(names)|
    ensures |Strings(names)| <= |Strings(names + [SHSTRTAB_NAME])|
  {
    forall i | 0 <= i <= |names| ensures |Strings(names[..i])| <= |Strings(names)| {
      StringsPrefix(names, i);
    }
    assert (names + [SHSTRTAB_NAME])[..|names|] == names;
    StringsPrefix(names + [SHSTRTAB_NAME], |names|);
  }

  lemma RowInTail(h: seq<Byte>, front: seq<Byte>, rows: seq<seq<Byte>>, width: nat, i: nat)
    requires |h| <= |front| && Uniform(rows, width) && i < |rows|
    ensures var b, from := h + (front + Flat(rows))[|h|..], |front| + width * i;
      |b| == |front| + width * |rows| && from + width <= |b| && b[from..from + width] == rows[i]
  {
    hide *;
    FlatRow(rows, width, i);
    FlatLength(rows, width);
    TailSlice(h, front + Flat(rows), |front| + width * i, |front| + width * i + width);
    SuffixSlice(front, Flat(rows), width * i, width * i + width);
  }

  lemma SuffixSlice(front: seq<Byte>, rest: seq<Byte>, i: nat, j: nat)
    requires i <= j <= |rest|
    ensures (front + rest)[|front| + i..|front| + j] == rest[i..j]
  {
  }

  lemma HeaderRowsUniform(hs: seq<SectionHeader>)
    ensures Uniform(HeaderRows(hs), SECTION_HEADER_SIZE)
  {
    hide Le;
  }

  /** The headers read back are the headers written. */
  lemma HeadersRead(m: Machine, parts: seq<Part>)
    requires PartsFit(m, parts)
    ensures var b := FileOf(m, parts);
      && |b| >= HEADER_SIZE && IsRelocatable(b) && ReadFileHeader(b) == HeaderOf(m, parts)
      && ReadHeaders(b, HeaderOf(m, parts)) == Some(AllHeaders(PlaceParts(parts)))
  {
    var p, b, h := PlaceParts(parts), FileOf(m, parts), HeaderOf(m, parts);
    HeadersFit(m, parts);
    FrontLength(p, parts);
    FileHeaderRoundTrip(h, (FrontOf(p) + Flat(HeaderRows(AllHeaders(p))))[HEADER_SIZE..]);
    FileHeadersRead(h, FrontOf(p), AllHeaders(p));
    hide *;
  }

  lemma FileHeadersRead(h: FileHeader, front: seq<Byte>, hs: seq<SectionHeader>)
    requires h.sectionHeaders == |front| && h.count == |hs| && |front| >= HEADER_SIZE
    requires forall i :: 0 <= i < |hs| ==> hs[i].Fits()
    ensures ReadHeaders(h.Write() + (front + Flat(HeaderRows(hs)))[HEADER_SIZE..], h) == Some(hs)
    ensures |h.Write() + (front + Flat(HeaderRows(hs)))[HEADER_SIZE..]| >= HEADER_SIZE
  {
    var b := h.Write() + (front + Flat(HeaderRows(hs)))[HEADER_SIZE..];
    HeaderRowsUniform(hs);
    FlatLength(HeaderRows(hs), SECTION_HEADER_SIZE);
    assert |b| == |front| + SECTION_HEADER_SIZE * |hs|;
    forall i: nat | i < |hs| ensures HeaderReads(b, |front|, hs, i) {
      FileHeaderAt(h, front, hs, i);
      hide *;
    }
    hide *;
    AllHeadersRead(b, h, hs);
  }

  ghost predicate HeaderReads(b: seq<Byte>, start: nat, hs: seq<SectionHeader>, i: nat)
    requires i < |hs|
  {
    var at := start + SECTION_HEADER_SIZE * i;
    at + SECTION_HEADER_SIZE <= |b| && ReadHeaderAt(b, at) == hs[i]
  }

  lemma AllHeadersRead(b: seq<Byte>, h: FileHeader, hs: seq<SectionHeader>)
    requires h.count == |hs| && h.sectionHeaders + SECTION_HEADER_SIZE * |hs| <= |b|
    requires forall i: nat :: i < |hs| ==> HeaderReads(b, h.sectionHeaders, hs, i)
    ensures ReadHeaders(b, h) == Some(hs)
  {
    hide ReadHeaderAt;
    var read := ReadHeaders(b, h).value;
    forall i: nat | i < |hs| ensures read[i] == hs[i] {
      assert HeaderReads(b, h.sectionHeaders, hs, i);
    }
    assert read == hs;
  }

  lemma FileHeaderAt(h: FileHeader, front: seq<Byte>, hs: seq<SectionHeader>, i: nat)
    requires |front| >= HEADER_SIZE && i < |hs| && hs[i].Fits()
    ensures var b := h.Write() + (front + Flat(HeaderRows(hs)))[HEADER_SIZE..];
      HeaderReads(b, |front|, hs, i)
  {
    HeaderRowsUniform(hs);
    RowInTail(h.Write(), front, HeaderRows(hs), SECTION_HEADER_SIZE, i);
    SectionHeaderRoundTrip(hs[i]);
    hide FileHeader.Write, SectionHeader.Write, ReadSectionHeader, Flat;
  }

  lemma HeaderAt(parts: seq<Part>, i: nat)
    requires Aligned(parts) && i < |parts|
    ensures var p := PlaceParts(parts);
      && i + 1 < |p.headers| < |AllHeaders(p)| && AllHeaders(p)[i + 1] == p.headers[i + 1]
      && i < |p.names| < |AllNames(p)| && AllNames(p)[i] == parts[i].name && AllNames(p)[..i] == p.names[..i]
  {
    PlacedLength(parts);
    PartPlaced(parts, i);
    hide Strings, PlaceParts;
  }

  /** The body of a part, found through its header. */
  lemma PartBody(m: Machine, parts: seq<Part>, i: nat)
    requires Aligned(parts) && i < |parts|
    ensures var p, b := PlaceParts(parts), FileOf(m, parts);
      i + 1 < |p.headers| && BodyOf(b, p.headers[i + 1]) == parts[i].body
  {
    hide *;
    PartPlaced(parts, i);
    PlacedFacts(PlaceParts(parts), parts, i);
    var p := PlaceParts(parts);
    var h := p.headers[i + 1];
    FileTail(m, parts, h.offset, h.offset + h.size);
    SameBody(FileOf(m, parts), p.file, h);
  }

  lemma PlacedFacts(p: Placing, parts: seq<Part>, i: nat)
    requires i < |parts| && PlacedPart(p, parts, i)
    ensures i + 1 < |p.headers|
    ensures var h := p.headers[i + 1];
      && HEADER_SIZE <= h.offset <= h.offset + h.size <= |p.file|
      && p.file[h.offset..h.offset + h.size] == parts[i].body
  {
    hide Strings;
  }

  lemma SameBody(b: seq<Byte>, file: seq<Byte>, h: SectionHeader)
    requires h.offset + h.size <= |file| <= |b|
    requires b[h.offset..h.offset + h.size] == file[h.offset..h.offset + h.size]
    ensures BodyOf(b, h) == file[h.offset..h.offset + h.size]
  {
  }

  /** Everything about a part is read through its header. */
  lemma PartRead(m: Machine, parts: seq<Part>, i: nat)
    requires Aligned(parts) && i < |parts| && 0 !in parts[i].name
    ensures var hs, b := AllHeaders(PlaceParts(parts)), FileOf(m, parts);
      && i + 1 < |hs| && BodyOf(b, hs[i + 1]) == parts[i].body
      && hs[i + 1].kind == parts[i].kind && hs[i + 1].flags == parts[i].flags
      && hs[i + 1].link == parts[i].link && hs[i + 1].info == parts[i].info
      && CString(Strings(AllNames(PlaceParts(parts))), hs[i + 1].name) == parts[i].name
  {
    HeaderAt(parts, i);
    PartPlaced(parts, i);
    PartBody(m, parts, i);
    NameAt(AllNames(PlaceParts(parts)), i);
    hide PlaceParts, Strings, FileOf, AllHeaders, AllNames, CString, BodyOf;
  }

  // ----- what the reader finds ------------------------------------------------------------

  function SymbolsOut(o: ObjectIn): seq<SymbolOut> {
    seq(|o.symbols|, j requires 0 <= j < |o.symbols| =>
      var s := o.symbols[j];
      SymbolOut(s.name, s.definition, s.definition.Some? && s.name in o.functions))
  }

  /** What the fields of the format can hold: fewer than 0xff00 sections, sizes and
      offsets in their widths, names without a NUL, definitions inside the object. */
  ghost predicate Fits(o: ObjectIn, m: Machine)
    requires SectionsNamed(o)
  {
    && PartsFit(m, Parts(o, m))
    && |Strings(SymbolNames(o))| < Radix(4)
    && |o.sections| + 1 + |o.symbols| < Radix(4)
    && (forall s :: 0 <= s < |o.sections| ==>
          0 !in o.sections[s].name)
    && (forall j :: 0 <= j < |o.symbols| ==> 0 !in o.symbols[j].name && DefinitionFits(o, o.symbols[j]))
    && (forall s, i :: 0 <= s < |o.sections| && 0 <= i < |o.sections[s].relocations| ==>
          RelocationFits(o.sections[s].relocations[i]))
  }

  predicate DefinitionFits(o: ObjectIn, s: SymbolIn) {
    s.definition.Some? ==>
      && s.definition.value.section < |o.sections|
      && s.definition.value.offset < Radix(8) && s.definition.value.size < Radix(8)
  }

  predicate RelocationFits(r: Relocation) {
    r.offset < Radix(8) && -(Radix(8) / 2) <= r.addend < Radix(8) / 2
  }

  lemma ReadRow(rows: seq<seq<Byte>>, width: nat, i: nat)
    requires Uniform(rows, width) && width > 0 && i < |rows|
    ensures |Flat(rows)| / width == |rows| && Row(Flat(rows), width, i) == rows[i]
  {
    FlatLength(rows, width);
    Words.ModUnique(|Flat(rows)|, width, |rows|, 0);
    FlatRow(rows, width, i);
  }

  /** The symbol table is read back entry by entry. */
  lemma SymbolsRead(t: seq<SymbolEntry>)
    requires forall i :: 0 <= i < |t| ==> t[i].Fits()
    ensures ReadSymbols(Flat(SymbolRows(t))) == t
  {
    var rows := SymbolRows(t);
    SymbolRowsUniform(t);
    FlatLength(rows, SYMBOL_SIZE);
    Words.ModUnique(|Flat(rows)|, SYMBOL_SIZE, |t|, 0);
    hide Flat, ReadSymbol, SymbolEntry.Fits, Row, Uniform;
    var read := ReadSymbols(Flat(rows));
    forall i | 0 <= i < |t| ensures read[i] == t[i] {
      ReadRow(rows, SYMBOL_SIZE, i);
      SymbolRoundTrip(t[i]);
    }
    assert read == t;
  }

  lemma SymbolRowsUniform(t: seq<SymbolEntry>)
    ensures Uniform(SymbolRows(t), SYMBOL_SIZE)
  {
    hide Le;
  }

  lemma GlobalFits(o: ObjectIn, s: SymbolIn, at: nat)
    requires |o.sections| + 1 < 0xff00 && at < Radix(4) && DefinitionFits(o, s)
    ensures GlobalEntry(o, s, at).Fits()
  {
    RadixValues();
    hide Radix;
  }

  lemma LocalsFit(o: ObjectIn)
    requires |o.sections| + 1 < 0xff00
    ensures forall i :: 0 <= i < |Locals(o)| ==> Locals(o)[i].Fits()
  {
    RadixValues();
    hide Radix;
  }

  lemma TableFits(o: ObjectIn, m: Machine)
    requires SectionsNamed(o) && Fits(o, m)
    ensures forall i :: 0 <= i < |SymbolTable(o)| ==> SymbolTable(o)[i].Fits()
  {
    PartsCount(o, m);
    assert |o.sections| + 1 < 0xff00;
    LocalsFit(o);
    var names := SymbolNames(o);
    hide Strings, GlobalEntry, Parts, Radix, SymbolEntry.Fits, Locals;
    forall j | 0 <= j < |o.symbols| ensures Globals(o)[j].Fits() {
      StringsPrefix(names, j);
      GlobalFits(o, o.symbols[j], |Strings(names[..j])|);
    }
  }

  lemma PartsCount(o: ObjectIn, m: Machine)
    requires SectionsNamed(o)
    ensures |Parts(o, m)| >= |o.sections| + 2
  {
  }

  lemma EntryRead(o: ObjectIn, s: SymbolIn, at: nat, strings: seq<Byte>)
    ensures SymbolRead(GlobalEntry(o, s, at), strings)
         == SymbolOut(CString(strings, at), s.definition, s.definition.Some? && s.name in o.functions)
  {
  }

  /** A global symbol reads back as its name, its definition and whether it is a
      function this object defines. */
  lemma GlobalRead(o: ObjectIn, j: nat)
    requires j < |o.symbols| && 0 !in o.symbols[j].name
    ensures SymbolRead(Globals(o)[j], Strings(SymbolNames(o))) == SymbolsOut(o)[j]
  {
    NameAt(SymbolNames(o), j);
    EntryRead(o, o.symbols[j], |Strings(SymbolNames(o)[..j])|, Strings(SymbolNames(o)));
    hide Strings, CString, SymbolRead, GlobalEntry;
  }

  /** `sh_info` of the symbol table separates the local symbols from the globals. */
  lemma LocalsBeforeGlobals(o: ObjectIn, i: nat)
    requires i < |SymbolTable(o)|
    ensures SymbolTable(o)[i].info / 16 == if i < SymtabPart(o).info then 0 else 1
    ensures SymtabPart(o).info == |o.sections| + 1
  {
    hide SymbolNames, Strings;
    if i < |Locals(o)| {
      assert SymbolTable(o)[i] == Locals(o)[i];
    } else {
      assert SymbolTable(o)[i] == Globals(o)[i - |Locals(o)|];
    }
  }

  /** The relocation type, symbol and addend name the same reference again. */
  lemma RelocationReadBack(o: ObjectIn, m: Machine, r: Relocation)
    requires NamesSection(o, r) && RelocationOf(o, m, r).Some?
    ensures RelocationRead(m, SymbolTable(o), |o.sections| + 1, RelocationOf(o, m, r).value) == Some(r)
  {
    var e := RelocationOf(o, m, r).value;
    assert KindOfType(m, e.kind) == Some(r.kind);
    hide GlobalEntry, Strings;
    match r.against
    case Symbol(i) =>
    case Section(s) => assert SymbolTable(o)[s + 1] == Locals(o)[s + 1] == SectionSymbol(s + 1);
  }

  lemma EntryFits(o: ObjectIn, m: Machine, r: Relocation)
    requires NamesSection(o, r) && RelocationOf(o, m, r).Some?
    requires RelocationFits(r) && |o.sections| + 1 + |o.symbols| < Radix(4)
    ensures RelocationOf(o, m, r).value.Fits()
  {
    RadixValues();
  }

  /** Row `i` reads back as relocation `i`. */
  ghost predicate RelocationReads(o: ObjectIn, m: Machine, rs: seq<Relocation>, body: seq<Byte>, i: nat)
    requires i < |rs|
  {
    && |body| / RELOCATION_SIZE == |rs|
    && RelocationRead(m, SymbolTable(o), |o.sections| + 1, ReadRelocation(Row(body, RELOCATION_SIZE, i))) == Some(rs[i])
  }

  lemma OneRelocationRead(o: ObjectIn, m: Machine, rs: seq<Relocation>, i: nat)
    requires AllNameSections(o, rs) && |o.sections| + 1 + |o.symbols| < Radix(4) && i < |rs|
    requires RelocationOf(o, m, rs[i]).Some? && RelocationFits(rs[i])
    ensures RelocationReads(o, m, rs, Flat(RelocationRows(o, m, rs)), i)
  {
    RowsUniform(o, m, rs);
    ReadRow(RelocationRows(o, m, rs), RELOCATION_SIZE, i);
    EntryFits(o, m, rs[i]);
    RelocationRoundTrip(RelocationOf(o, m, rs[i]).value);
    RelocationReadBack(o, m, rs[i]);
    hide Flat, Row, ReadRelocation, RelocationOf, RelocationRead, SymbolTable, RelocationEntry.Write, Radix;
  }

  lemma AllRelocationsRead(o: ObjectIn, m: Machine, rs: seq<Relocation>, body: seq<Byte>)
    requires |body| / RELOCATION_SIZE == |rs|
    requires forall i: nat :: i < |rs| ==> RelocationReads(o, m, rs, body, i)
    ensures RelocationsRead(m, SymbolTable(o), |o.sections| + 1, body) == Some(rs)
  {
    hide RelocationRead, SymbolTable, ReadRelocation, Row;
    var es := ReadRelocations(body);
    forall i: nat | i < |rs| ensures RelocationRead(m, SymbolTable(o), |o.sections| + 1, es[i]) == Some(rs[i]) {
      assert RelocationReads(o, m, rs, body, i);
    }
    assert RelocationsRead(m, SymbolTable(o), |o.sections| + 1, body).value == rs;
  }

  /** A section's relocations are read back one by one. */
  lemma SectionRelocationsRead(o: ObjectIn, m: Machine, rs: seq<Relocation>)
    requires AllNameSections(o, rs) && |o.sections| + 1 + |o.symbols| < Radix(4)
    requires forall i :: 0 <= i < |rs| ==> RelocationOf(o, m, rs[i]).Some? && RelocationFits(rs[i])
    ensures RelocationsRead(m, SymbolTable(o), |o.sections| + 1, Flat(RelocationRows(o, m, rs))) == Some(rs)
  {
    var rows := RelocationRows(o, m, rs);
    RowsUniform(o, m, rs);
    FlatLength(rows, RELOCATION_SIZE);
    Words.ModUnique(|Flat(rows)|, RELOCATION_SIZE, |rs|, 0);
    hide Flat, Row, Uniform, RelocationReads, RelocationOf, RelocationRow, SymbolTable, Le, Radix, RelocationsRead,
        RelocationFits;
    forall i: nat | i < |rs| ensures RelocationReads(o, m, rs, Flat(rows), i) {
      OneRelocationRead(o, m, rs, i);
    }
    AllRelocationsRead(o, m, rs, Flat(rows));
  }

  // ----- finding the parts again ---------------------------------------------------------

  function Upto(lo: nat, hi: nat, n: nat): (r: seq<nat>)
    requires lo <= hi
  {
    var top := if n < lo then lo else if n > hi then hi else n;
    seq(top - lo, i requires 0 <= i < top - lo => lo + i)
  }

  lemma {:induction false} KindRange(hs: seq<SectionHeader>, kind: nat, lo: nat, hi: nat, n: nat)
    requires lo <= hi && n <= |hs| && forall i :: 0 <= i < |hs| ==> (hs[i].kind == kind <==> lo <= i < hi)
    ensures OfKind(hs, kind, n) == Upto(lo, hi, n)
  {
    if n > 0 {
      KindRange(hs, kind, lo, hi, n - 1);
      UptoNext(lo, hi, n - 1);
    }
  }

  lemma UptoNext(lo: nat, hi: nat, n: nat)
    requires lo <= hi
    ensures Upto(lo, hi, n + 1) == Upto(lo, hi, n) + if lo <= n < hi then [n] else []
  {
  }

  lemma {:induction false} RelaForMeaning(hs: seq<SectionHeader>, index: nat, n: nat)
    requires n <= |hs|
    ensures match RelaFor(hs, index, n)
      case Some(r) => hs[r].kind == 4 && hs[r].info == index
      case None => forall i :: 0 <= i < n ==> hs[i].kind != 4 || hs[i].info != index
  {
    if n > 0 { RelaForMeaning(hs, index, n - 1); }
  }

  /** Each relocation section belongs to one section that has relocations, and each
      such section has one. */
  lemma {:induction false} RelaPartsAre(o: ObjectIn, m: Machine, k: nat)
    requires k <= |o.sections| && SectionsNamed(o)
    ensures forall i: nat :: i < |RelaParts(o, m, k)| ==>
      var r := RelaParts(o, m, k)[i];
      && r.kind == 4 && 1 <= r.info <= k
      && r == RelaPart(o, m, r.info - 1) && o.sections[r.info - 1].relocations != []
    ensures forall s: nat :: s < k && o.sections[s].relocations != [] ==> RelaPart(o, m, s) in RelaParts(o, m, k)
  {
    hide RelaParts, RelaPart, AllNameSections;
    RelaPartsLast(o, m, k);
    if k > 0 {
      RelaPartsAre(o, m, k - 1);
      RelaPartFields(o, m, k - 1);
      var before, all := RelaParts(o, m, k - 1), RelaParts(o, m, k);
      forall s: nat | s < k && o.sections[s].relocations != [] ensures RelaPart(o, m, s) in all {
        if s < k - 1 { assert RelaPart(o, m, s) in before; }
      }
      forall i: nat | i < |all|
        ensures all[i].kind == 4 && 1 <= all[i].info <= k
        ensures all[i] == RelaPart(o, m, all[i].info - 1) && o.sections[all[i].info - 1].relocations != []
      {
        if i < |before| { assert all[i] == before[i]; }
      }
    }
  }

  lemma RelaPartsLast(o: ObjectIn, m: Machine, k: nat)
    requires k <= |o.sections| && SectionsNamed(o)
    ensures k == 0 ==> RelaParts(o, m, k) == []
    ensures k > 0 ==>
      RelaParts(o, m, k)
        == RelaParts(o, m, k - 1) + if o.sections[k - 1].relocations == [] then [] else [RelaPart(o, m, k - 1)]
  {
    hide RelaPart;
  }

  lemma Indexed<T>(a: seq<T>, x: T, y: T, r: seq<T>)
    ensures var all := a + [x, y] + r;
      && |all| == |a| + 2 + |r|
      && (forall i :: 0 <= i < |a| ==> all[i] == a[i]) && all[|a|] == x && all[|a| + 1] == y
      && (forall i :: |a| + 2 <= i < |all| ==> all[i] == r[i - |a| - 2])
  {
  }

  lemma KindsOfParts(o: ObjectIn, m: Machine)
    requires SectionsNamed(o)
    ensures var ps, n := Parts(o, m), |o.sections|;
      && |ps| == n + 2 + |RelaParts(o, m, n)|
      && (forall i :: 0 <= i < n ==> ps[i] == DataPart(m, o.sections[i]))
      && ps[n] == SymtabPart(o) && ps[n + 1] == StrtabPart(o)
      && forall i: nat :: n + 2 <= i < |ps| ==> ps[i] == RelaParts(o, m, n)[i - n - 2]
  {
    hide *;
    PartsAre(o, m);
    Indexed(DataParts(o, m), SymtabPart(o), StrtabPart(o), RelaParts(o, m, |o.sections|));
  }

  lemma PartsAre(o: ObjectIn, m: Machine)
    requires SectionsNamed(o)
    ensures Parts(o, m) == DataParts(o, m) + [SymtabPart(o), StrtabPart(o)] + RelaParts(o, m, |o.sections|)
    ensures forall i :: 0 <= i < |o.sections| ==> DataParts(o, m)[i] == DataPart(m, o.sections[i])
  {
    hide SymtabPart, StrtabPart, RelaParts, DataPart;
  }

  lemma PartKinds(o: ObjectIn, m: Machine)
    requires SectionsNamed(o)
    ensures var ps, n := Parts(o, m), |o.sections|;
      && |ps| >= n + 2
      && (forall i :: 0 <= i < n ==> ps[i].kind == 1)
      && ps[n].kind == 2 && ps[n + 1].kind == 3
      && forall i: nat :: n + 2 <= i < |ps| ==> ps[i].kind == 4
  {
    KindsOfParts(o, m);
    RelaPartsAre(o, m, |o.sections|);
    hide Flat, Parts, RelaParts, RelaPart, Strings, SymbolRows, SymbolTable;
  }

  /** The header of a part carries its fields. */
  lemma HeaderFields(parts: seq<Part>, i: nat)
    requires Aligned(parts) && i < |parts|
    ensures var hs := AllHeaders(PlaceParts(parts));
      && |hs| == |parts| + 2
      && hs[i + 1].kind == parts[i].kind && hs[i + 1].info == parts[i].info && hs[i + 1].link == parts[i].link
      && hs[i + 1].flags == parts[i].flags && hs[i + 1].align == parts[i].align
      && hs[i + 1].entrySize == parts[i].entrySize
  {
    PlacedLength(parts);
    HeaderAt(parts, i);
    PartPlaced(parts, i);
    hide PlaceParts, Strings;
  }

  lemma EndHeaders(parts: seq<Part>)
    requires Aligned(parts)
    ensures var hs := AllHeaders(PlaceParts(parts));
      && |hs| == |parts| + 2 && hs[0] == SectionHeader(0, 0, 0, 0, 0, 0, 0, 0, 0)
      && hs[|parts| + 1].kind == 3 && hs[|parts| + 1].flags == 0 && hs[|parts| + 1].align == 1
  {
    PlacedLength(parts);
    FirstHeader(parts);
    hide PlaceParts, Strings;
  }

  /** The types of the section headers, in file order. */
  lemma KindsOfHeaders(o: ObjectIn, m: Machine, hs: seq<SectionHeader>)
    requires SectionsNamed(o) && Aligned(Parts(o, m)) && hs == AllHeaders(PlaceParts(Parts(o, m)))
    ensures var n := |o.sections|;
      && |hs| == |Parts(o, m)| + 2 >= n + 4
      && (forall i :: 0 <= i < |hs| ==> (hs[i].kind == 1 <==> 1 <= i < n + 1))
      && (forall i :: 0 <= i < |hs| ==> (hs[i].kind == 2 <==> n + 1 <= i < n + 2))
      && (forall i: nat :: i < |hs| && hs[i].kind == 4 ==> n + 3 <= i < |hs| - 1)
      && (forall i: nat :: 1 <= i < |hs| - 1 ==>
           hs[i].kind == Parts(o, m)[i - 1].kind && hs[i].info == Parts(o, m)[i - 1].info)
  {
    hide *;
    var ps := Parts(o, m);
    PartKinds(o, m);
    EndHeaders(ps);
    forall i: nat | 1 <= i < |hs| - 1 ensures hs[i].kind == ps[i - 1].kind && hs[i].info == ps[i - 1].info {
      HeaderFields(ps, i - 1);
    }
    KindsFrom(ps, hs, |o.sections|);
  }

  lemma KindsFrom(ps: seq<Part>, hs: seq<SectionHeader>, n: nat)
    requires |hs| == |ps| + 2 && |ps| >= n + 2 && hs[0].kind == 0 && hs[|ps| + 1].kind == 3
    requires forall i: nat :: i < n ==> ps[i].kind == 1
    requires ps[n].kind == 2 && ps[n + 1].kind == 3
    requires forall i: nat :: n + 2 <= i < |ps| ==> ps[i].kind == 4
    requires forall i: nat :: 1 <= i < |hs| - 1 ==> hs[i].kind == ps[i - 1].kind
    ensures forall i :: 0 <= i < |hs| ==> (hs[i].kind == 1 <==> 1 <= i < n + 1)
    ensures forall i :: 0 <= i < |hs| ==> (hs[i].kind == 2 <==> n + 1 <= i < n + 2)
    ensures forall i: nat :: i < |hs| && hs[i].kind == 4 ==> n + 3 <= i < |hs| - 1
  {
    forall i | 0 <= i < |hs|
      ensures (hs[i].kind == 1 <==> 1 <= i < n + 1) && (hs[i].kind == 2 <==> n + 1 <= i < n + 2)
      ensures hs[i].kind == 4 ==> n + 3 <= i < |hs| - 1
    {
      if 1 <= i < |hs| - 1 { assert hs[i].kind == ps[i - 1].kind; }
    }
  }

  /** The relocation section of a section holds its relocations; without any there is
      no such section. */
  lemma RelaBody(o: ObjectIn, m: Machine, s: nat)
    requires SectionsNamed(o) && Aligned(Parts(o, m)) && s < |o.sections|
    ensures RelaBytes(FileOf(m, Parts(o, m)), AllHeaders(PlaceParts(Parts(o, m))), s + 1)
         == Flat(RelocationRows(o, m, o.sections[s].relocations))
  {
    hide *;
    var ps := Parts(o, m);
    var hs := AllHeaders(PlaceParts(ps));
    KindsOfHeaders(o, m, hs);
    RelaForMeaning(hs, s + 1, |hs|);
    RelaBytesAre(FileOf(m, ps), hs, s + 1);
    match RelaFor(hs, s + 1, |hs|)
    case Some(r) =>
      RelaPartAt(o, m, s, r - 1);
      HeaderAt(ps, r - 1);
      PartBody(m, ps, r - 1);
    case None =>
      EmptyBody(o, m, s);
      if o.sections[s].relocations != [] { RelaPartExists(o, m, s, hs); }
  }

  lemma RelaBytesAre(b: seq<Byte>, hs: seq<SectionHeader>, index: nat)
    ensures match RelaFor(hs, index, |hs|)
      case Some(r) => RelaBytes(b, hs, index) == BodyOf(b, hs[r])
      case None => RelaBytes(b, hs, index) == []
  {
    hide RelaFor, BodyOf;
  }

  lemma RelaPartAt(o: ObjectIn, m: Machine, s: nat, i: nat)
    requires SectionsNamed(o) && s < |o.sections| && i < |Parts(o, m)|
    requires Parts(o, m)[i].kind == 4 && Parts(o, m)[i].info == s + 1
    ensures Parts(o, m)[i].body == Flat(RelocationRows(o, m, o.sections[s].relocations))
  {
    PartKinds(o, m);
    KindsOfParts(o, m);
    RelaPartsAre(o, m, |o.sections|);
    hide Flat, RelocationRows, Parts, RelaParts;
  }

  lemma RelaPartExists(o: ObjectIn, m: Machine, s: nat, hs: seq<SectionHeader>)
    requires SectionsNamed(o) && s < |o.sections| && o.sections[s].relocations != [] && |hs| == |Parts(o, m)| + 2
    requires forall i: nat :: 1 <= i < |hs| - 1 ==>
        hs[i].kind == Parts(o, m)[i - 1].kind && hs[i].info == Parts(o, m)[i - 1].info
    ensures exists i: nat :: i < |hs| && hs[i].kind == 4 && hs[i].info == s + 1
  {
    hide *;
    var n := |o.sections|;
    RelaPartsAre(o, m, n);
    RelaPartFields(o, m, s);
    var j: nat :| j < |RelaParts(o, m, n)| && RelaParts(o, m, n)[j] == RelaPart(o, m, s);
    RelaAt(o, m, j);
    assert hs[n + 3 + j].kind == 4 && hs[n + 3 + j].info == s + 1;
  }

  lemma RelaPartFields(o: ObjectIn, m: Machine, s: nat)
    requires SectionsNamed(o) && s < |o.sections|
    ensures AllNameSections(o, o.sections[s].relocations)
    ensures RelaPart(o, m, s).kind == 4 && RelaPart(o, m, s).info == s + 1
  {
  }

  lemma RelaAt(o: ObjectIn, m: Machine, i: nat)
    requires SectionsNamed(o) && i < |RelaParts(o, m, |o.sections|)|
    ensures |o.sections| + 2 + i < |Parts(o, m)|
    ensures Parts(o, m)[|o.sections| + 2 + i] == RelaParts(o, m, |o.sections|)[i]
  {
    hide SymtabPart, StrtabPart, RelaParts;
  }

  lemma SectionIsRead(
    b: seq<Byte>, m: Machine, hs: seq<SectionHeader>, names: seq<Byte>, t: seq<SymbolEntry>, first: nat, index: nat,
    s: SectionIn)
    requires index < |hs| && KindOfFlags(hs[index].flags) == Some(s.kind) && BodyOf(b, hs[index]) == s.bytes
    requires CString(names, hs[index].name) == s.name
    requires RelocationsRead(m, t, first, RelaBytes(b, hs, index)) == Some(s.relocations)
    ensures SectionRead(b, m, hs, names, t, first, index) == Some(s)
  {
    hide RelocationsRead, CString, BodyOf;
  }

  /** A section reads back whole: kind, name, bytes and relocations. */
  lemma SectionReadBack(o: ObjectIn, m: Machine, s: nat)
    requires SectionsNamed(o) && Writable(o, m) && Fits(o, m) && s < |o.sections|
    ensures var ps := Parts(o, m);
      var b, hs, names := FileOf(m, ps), AllHeaders(PlaceParts(ps)), Strings(AllNames(PlaceParts(ps)));
      s + 1 < |hs| && SectionRead(b, m, hs, names, SymbolTable(o), |o.sections| + 1, s + 1) == Some(o.sections[s])
  {
    hide *;
    SectionFits(o, m, s);
    SectionPartRead(o, m, s);
    SectionRelocations(o, m, s);
    var ps := Parts(o, m);
    SectionIsRead(FileOf(m, ps), m, AllHeaders(PlaceParts(ps)), Strings(AllNames(PlaceParts(ps))),
                  SymbolTable(o), |o.sections| + 1, s + 1, o.sections[s]);
  }

  lemma SectionPartRead(o: ObjectIn, m: Machine, s: nat)
    requires SectionsNamed(o) && Writable(o, m) && Fits(o, m) && s < |o.sections|
    ensures var ps := Parts(o, m);
      var b, hs, names := FileOf(m, ps), AllHeaders(PlaceParts(ps)), Strings(AllNames(PlaceParts(ps)));
      && s + 1 < |hs| && KindOfFlags(hs[s + 1].flags) == Some(o.sections[s].kind)
      && BodyOf(b, hs[s + 1]) == o.sections[s].bytes
      && CString(names, hs[s + 1].name) == o.sections[s].name
  {
    hide *;
    SectionFits(o, m, s);
    DataPartIs(m, o.sections[s]);
    PartRead(m, Parts(o, m), s);
  }

  lemma SectionRelocations(o: ObjectIn, m: Machine, s: nat)
    requires SectionsNamed(o) && Writable(o, m) && Fits(o, m) && s < |o.sections|
    ensures var ps := Parts(o, m);
      var b, hs := FileOf(m, ps), AllHeaders(PlaceParts(ps));
      RelocationsRead(m, SymbolTable(o), |o.sections| + 1, RelaBytes(b, hs, s + 1)) == Some(o.sections[s].relocations)
  {
    hide *;
    SectionFits(o, m, s);
    RelaBody(o, m, s);
    SectionRelocationsRead(o, m, o.sections[s].relocations);
  }

  lemma SectionFits(o: ObjectIn, m: Machine, s: nat)
    requires SectionsNamed(o) && Writable(o, m) && Fits(o, m) && s < |o.sections|
    ensures var section := o.sections[s];
      && AllNameSections(o, section.relocations)
      && (forall i :: 0 <= i < |section.relocations| ==>
            RelocationOf(o, m, section.relocations[i]).Some? && RelocationFits(section.relocations[i]))
      && Aligned(Parts(o, m)) && 0 !in section.name && |o.sections| + 1 + |o.symbols| < Radix(4)
      && s < |Parts(o, m)| && Parts(o, m)[s] == DataPart(m, section)
  {
    KindsOfParts(o, m);
    hide Parts, DataPart, Strings, RelocationFits, RelocationOf, Radix;
  }

  lemma DataPartIs(m: Machine, s: SectionIn)
    ensures var p := DataPart(m, s); p.name == s.name && KindOfFlags(p.flags) == Some(s.kind) && p.body == s.bytes
  {
  }

  // ----- the round trip -------------------------------------------------------------------

  /** The symbol table and its string table, found through the section headers. */
  lemma TablesRead(o: ObjectIn, m: Machine)
    requires SectionsNamed(o) && Fits(o, m)
    ensures var ps, n := Parts(o, m), |o.sections|;
      Aligned(ps)
      && var b, hs := FileOf(m, ps), AllHeaders(PlaceParts(ps));
        && n + 2 < |hs| && hs[n + 1].link == n + 2 && hs[n + 1].info == n + 1
        && ReadSymbols(BodyOf(b, hs[n + 1])) == SymbolTable(o)
        && BodyOf(b, hs[n + 2]) == Strings(SymbolNames(o))
  {
    FitAligned(o, m);
    TableFits(o, m);
    hide *;
    var ps, n := Parts(o, m), |o.sections|;
    KindsOfParts(o, m);
    HeaderFields(ps, n);
    HeaderAt(ps, n);
    PartBody(m, ps, n);
    HeaderAt(ps, n + 1);
    PartBody(m, ps, n + 1);
    TableParts(o);
    SymbolsRead(SymbolTable(o));
  }

  lemma TableParts(o: ObjectIn)
    ensures SymtabPart(o).link == |o.sections| + 2 && SymtabPart(o).info == |o.sections| + 1
    ensures SymtabPart(o).body == Flat(SymbolRows(SymbolTable(o))) && StrtabPart(o).body == Strings(SymbolNames(o))
  {
  }

  lemma FitAligned(o: ObjectIn, m: Machine)
    requires SectionsNamed(o) && Fits(o, m)
    ensures PartsFit(m, Parts(o, m)) && Aligned(Parts(o, m))
  {
    hide Parts, Aligned, Strings;
  }

  /** Reading the sections of the written file gives the object's. */
  lemma SectionsReadBack(o: ObjectIn, m: Machine)
    requires SectionsNamed(o) && Writable(o, m) && Fits(o, m)
    ensures var ps := Parts(o, m);
      Aligned(ps)
      && ReadSections(FileOf(m, ps), m, AllHeaders(PlaceParts(ps)), |ps| + 1) ==
           Some(ReadBack(o.sections, SymbolsOut(o)))
  {
    hide *;
    FitAligned(o, m);
    var ps, n := Parts(o, m), |o.sections|;
    var b, hs := FileOf(m, ps), AllHeaders(PlaceParts(ps));
    TablesRead(o, m);
    KindsOfHeaders(o, m, hs);
    KindRange(hs, 1, 1, n + 1, |hs|);
    KindRange(hs, 2, n + 1, n + 2, |hs|);
    NamesInFile(m, ps);
    NamesHeader(ps, b);
    TableSize(o);
    forall s: nat | s < n
      ensures SectionRead(b, m, hs, Strings(AllNames(PlaceParts(ps))), SymbolTable(o), n + 1, s + 1) ==
          Some(o.sections[s])
    {
      SectionReadBack(o, m, s);
    }
    forall j: nat | j < |o.symbols|
      ensures n + 1 + j < |SymbolTable(o)|
      ensures SymbolRead(SymbolTable(o)[n + 1 + j], Strings(SymbolNames(o))) == SymbolsOut(o)[j]
    {
      GlobalAt(o, m, j);
    }
    FileConforms(o, m, hs);
    ReadSectionsIs(b, m, hs, |ps| + 1, n, SymbolTable(o), Strings(AllNames(PlaceParts(ps))), Strings(SymbolNames(o)),
        o.sections, SymbolsOut(o));
  }

  /** The written tables have the form the reader asks for. */
  lemma FileConforms(o: ObjectIn, m: Machine, hs: seq<SectionHeader>)
    requires SectionsNamed(o) && Aligned(Parts(o, m)) && hs == AllHeaders(PlaceParts(Parts(o, m)))
    ensures var n := |o.sections|;
      && |hs| == |Parts(o, m)| + 2 >= n + 4 && hs[n + 1].link == n + 2 && |SymbolTable(o)| == n + 1 + |o.symbols|
      && Conforms(hs, |Parts(o, m)| + 1, n + 1, SymbolTable(o), n + 1)
  {
    hide *;
    var ps, n := Parts(o, m), |o.sections|;
    KindsOfHeaders(o, m, hs);
    PartKinds(o, m);
    EndHeaders(ps);
    TableHeader(o, m, hs);
    HeaderFields(ps, n + 1);
    TableSize(o);
    forall i | 0 <= i < |hs| && hs[i].kind == 4
      ensures hs[i].flags == 0x40 && hs[i].link == n + 1 && hs[i].entrySize == 24 && hs[i].align == 8
    {
      HeaderFields(ps, i - 1);
      RelaTableForm(o, m, i - 1);
    }
    forall i | 0 <= i < |hs| && hs[i].kind == 3 ensures hs[i].flags == 0 && hs[i].align == 1 {
      StringTableForm(o, m, hs, i);
    }
    KindsOfParts(o, m);
    forall i | 0 <= i < |hs| && hs[i].kind == 1 ensures hs[i].link == 0 && hs[i].info == 0 && hs[i].entrySize == 0 {
      HeaderFields(ps, i - 1);
      DataPartSays(m, o.sections[i - 1]);
    }
    SymbolForms(o);
    TablesConform(hs, |ps| + 1, n + 1, SymbolTable(o), n + 1);
  }

  lemma TablesConform(hs: seq<SectionHeader>, namesIndex: nat, symtab: nat, entries: seq<SymbolEntry>, first: nat)
    requires namesIndex < |hs| && symtab < |hs| && hs[symtab].link < |hs| && 1 <= first <= |entries|
    requires hs[0] == SectionHeader(0, 0, 0, 0, 0, 0, 0, 0, 0)
    requires hs[namesIndex].kind == 3 && hs[hs[symtab].link].kind == 3
    requires hs[symtab].entrySize == 24 && hs[symtab].align == 8 && hs[symtab].flags == 0
    requires forall i :: 0 <= i < |hs| && hs[i].kind == 4 ==>
      hs[i].flags == 0x40 && hs[i].link == symtab && hs[i].entrySize == 24 && hs[i].align == 8
    requires forall i :: 0 <= i < |hs| && hs[i].kind == 3 ==> hs[i].flags == 0 && hs[i].align == 1
    requires entries[0] == SymbolEntry(0, 0, 0, 0, 0, 0)
    requires forall i :: 0 <= i < |hs| && hs[i].kind == 1 ==> hs[i].link == 0 && hs[i].info == 0 && hs[i].entrySize == 0
    requires forall i :: 1 <= i < first ==> entries[i] == SymbolEntry(0, 3, 0, i, 0, 0)
    requires forall i :: first <= i < |entries| ==>
      && (entries[i].info == 16 || entries[i].info == 18) && entries[i].other == 0
      && (entries[i].section == 0 ==> entries[i].value == 0 && entries[i].size == 0 && entries[i].info == 16)
    ensures Conforms(hs, namesIndex, symtab, entries, first)
  {
  }

  lemma TableHeader(o: ObjectIn, m: Machine, hs: seq<SectionHeader>)
    requires SectionsNamed(o) && Aligned(Parts(o, m)) && hs == AllHeaders(PlaceParts(Parts(o, m)))
    ensures var n := |o.sections|;
      && n + 1 < |hs| && hs[n + 1].link == n + 2
      && hs[n + 1].entrySize == 24 && hs[n + 1].align == 8 && hs[n + 1].flags == 0
  {
    hide *;
    KindsOfParts(o, m);
    HeaderFields(Parts(o, m), |o.sections|);
    SymtabForm(o);
  }

  lemma SymtabForm(o: ObjectIn)
    ensures SymtabPart(o).link == |o.sections| + 2 && SymtabPart(o).entrySize == 24
    ensures SymtabPart(o).align == 8 && SymtabPart(o).flags == 0
    ensures StrtabPart(o).align == 1 && StrtabPart(o).flags == 0
  {
  }

  lemma StringTableForm(o: ObjectIn, m: Machine, hs: seq<SectionHeader>, i: nat)
    requires SectionsNamed(o) && Aligned(Parts(o, m)) && hs == AllHeaders(PlaceParts(Parts(o, m)))
    requires i < |hs| && hs[i].kind == 3
    ensures hs[i].flags == 0 && hs[i].align == 1
  {
    hide *;
    var ps := Parts(o, m);
    KindsOfHeaders(o, m, hs);
    KindsOfParts(o, m);
    PartKinds(o, m);
    EndHeaders(ps);
    SymtabForm(o);
    if i < |hs| - 1 { HeaderFields(ps, i - 1); }
  }

  /** A relocation section names the symbol table and has rows of one relocation. */
  lemma RelaTableForm(o: ObjectIn, m: Machine, i: nat)
    requires SectionsNamed(o) && i < |Parts(o, m)| && Parts(o, m)[i].kind == 4
    ensures var p := Parts(o, m)[i]; p.flags == 0x40 && p.link == |o.sections| + 1 && p.entrySize == 24 && p.align == 8
  {
    hide *;
    KindsOfParts(o, m);
    PartKinds(o, m);
    RelaPartsAre(o, m, |o.sections|);
    RelaForm(o, m, RelaParts(o, m, |o.sections|)[i - |o.sections| - 2].info - 1);
  }

  lemma RelaForm(o: ObjectIn, m: Machine, s: nat)
    requires SectionsNamed(o) && s < |o.sections|
    ensures var p := RelaPart(o, m, s);
      p.flags == 0x40 && p.link == |o.sections| + 1 && p.entrySize == 24 && p.align == 8
  {
    hide Flat, RelocationRows;
  }

  lemma SymbolForms(o: ObjectIn)
    ensures var t := SymbolTable(o);
      && |t| == |o.sections| + 1 + |o.symbols| && t[0] == SymbolEntry(0, 0, 0, 0, 0, 0)
      && (forall i :: 1 <= i < |o.sections| + 1 ==> t[i] == SymbolEntry(0, 3, 0, i, 0, 0))
      && (forall i :: |o.sections| + 1 <= i < |t| ==>
            && (t[i].info == 16 || t[i].info == 18) && t[i].other == 0
            && (t[i].section == 0 ==> t[i].value == 0 && t[i].size == 0 && t[i].info == 16))
  {
    hide Strings, SymbolNames;
    var t := SymbolTable(o);
    forall i | 1 <= i < |o.sections| + 1 ensures t[i] == SymbolEntry(0, 3, 0, i, 0, 0) {
      assert t[i] == Locals(o)[i];
    }
    forall i | |o.sections| + 1 <= i < |t|
      ensures (t[i].info == 16 || t[i].info == 18) && t[i].other == 0
      ensures t[i].section == 0 ==> t[i].value == 0 && t[i].size == 0 && t[i].info == 16
    {
      assert t[i] == Globals(o)[i - |o.sections| - 1];
    }
  }

  lemma TableSize(o: ObjectIn)
    ensures |SymbolTable(o)| == |o.sections| + 1 + |o.symbols| && |SymbolsOut(o)| == |o.symbols|
  {
  }

  lemma GlobalAt(o: ObjectIn, m: Machine, j: nat)
    requires SectionsNamed(o) && Fits(o, m) && j < |o.symbols|
    ensures |o.sections| + 1 + j < |SymbolTable(o)| && |SymbolsOut(o)| == |o.symbols|
    ensures SymbolRead(SymbolTable(o)[|o.sections| + 1 + j], Strings(SymbolNames(o))) == SymbolsOut(o)[j]
  {
    hide *;
    NoNul(o, m, j);
    GlobalRead(o, j);
    TableGlobal(o, j);
  }

  lemma NoNul(o: ObjectIn, m: Machine, j: nat)
    requires SectionsNamed(o) && Fits(o, m) && j < |o.symbols|
    ensures 0 !in o.symbols[j].name
  {
    hide PartsFit, Strings, DefinitionFits, RelocationFits;
  }

  /** The global entries follow the null entry and one per section. */
  lemma TableGlobal(o: ObjectIn, j: nat)
    requires j < |o.symbols|
    ensures |o.sections| + 1 + j < |SymbolTable(o)| && |SymbolsOut(o)| == |o.symbols|
    ensures SymbolTable(o)[|o.sections| + 1 + j] == Globals(o)[j]
  {
    hide Globals;
  }

  lemma NamesHeader(parts: seq<Part>, b: seq<Byte>)
    requires Aligned(parts)
    ensures var p := PlaceParts(parts);
      |parts| + 1 < |AllHeaders(p)|
      && BodyOf(b, AllHeaders(p)[|parts| + 1]) == Slice(b, |p.file|, |Strings(AllNames(p))|)
  {
    PlacedLength(parts);
    hide Strings, PlaceParts, Slice;
  }

  lemma DataRead(
    b: seq<Byte>, m: Machine, hs: seq<SectionHeader>, names: seq<Byte>, entries: seq<SymbolEntry>, first: nat,
    data: seq<nat>,
    sections: seq<SectionIn>)
    requires |data| == |sections|
    requires forall s: nat :: s < |data| ==>
      data[s] < |hs| && SectionRead(b, m, hs, names, entries, first, data[s]) == Some(sections[s])
    ensures ReadData(b, m, hs, names, entries, first, data) == Some(sections)
  {
    hide SectionRead;
    assert ReadData(b, m, hs, names, entries, first, data).value == sections;
  }

  lemma GlobalsRead(entries: seq<SymbolEntry>, first: nat, strings: seq<Byte>, symbols: seq<SymbolOut>)
    requires |entries| == first + |symbols|
    requires forall j: nat :: j < |symbols| ==> SymbolRead(entries[first + j], strings) == symbols[j]
    ensures ReadGlobals(entries, first, strings) == symbols
  {
    hide SymbolRead;
  }

  /** The reader's own steps, once each table is known. */
  lemma ReadSectionsIs(
    b: seq<Byte>, m: Machine, hs: seq<SectionHeader>, namesIndex: nat, n: nat, table: seq<SymbolEntry>,
    names: seq<Byte>, strings: seq<Byte>, sections: seq<SectionIn>, symbols: seq<SymbolOut>)
    requires namesIndex < |hs| && n + 2 < |hs| && BodyOf(b, hs[namesIndex]) == names
    requires hs[n + 1].link == n + 2 && hs[n + 1].info == n + 1
    requires ReadSymbols(BodyOf(b, hs[n + 1])) == table && BodyOf(b, hs[n + 2]) == strings
    requires OfKind(hs, 1, |hs|) == Upto(1, n + 1, |hs|)
    requires OfKind(hs, 2, |hs|) == Upto(n + 1, n + 2, |hs|)
    requires |sections| == n && |table| == n + 1 + |symbols|
    requires forall s: nat :: s < n ==> SectionRead(b, m, hs, names, table, n + 1, s + 1) == Some(sections[s])
    requires forall j: nat :: j < |symbols| ==> SymbolRead(table[n + 1 + j], strings) == symbols[j]
    requires Conforms(hs, namesIndex, n + 1, table, n + 1)
    ensures ReadSections(b, m, hs, namesIndex) == Some(ReadBack(sections, symbols))
  {
    hide *;
    var data := OfKind(hs, 1, |hs|);
    UptoValues(data, n, |hs|);
    DataRead(b, m, hs, names, table, n + 1, data, sections);
    GlobalsRead(table, n + 1, strings, symbols);
    ReadSectionsSteps(b, m, hs, namesIndex, n, data, table, names, strings, sections, symbols);
  }

  lemma UptoValues(data: seq<nat>, n: nat, size: nat)
    requires n + 2 <= size && data == Upto(1, n + 1, size)
    ensures |data| == n && (forall s: nat :: s < n ==> data[s] == s + 1)
    ensures Upto(n + 1, n + 2, size) == [n + 1]
  {
  }

  lemma ReadSectionsSteps(
    b: seq<Byte>, m: Machine, hs: seq<SectionHeader>, namesIndex: nat, n: nat, data: seq<nat>, table: seq<SymbolEntry>,
    names: seq<Byte>, strings: seq<Byte>, sections: seq<SectionIn>, symbols: seq<SymbolOut>)
    requires namesIndex < |hs| && n + 2 < |hs| && BodyOf(b, hs[namesIndex]) == names
    requires hs[n + 1].link == n + 2 && hs[n + 1].info == n + 1
    requires ReadSymbols(BodyOf(b, hs[n + 1])) == table && BodyOf(b, hs[n + 2]) == strings
    requires OfKind(hs, 1, |hs|) == data && OfKind(hs, 2, |hs|) == [n + 1]
    requires n + 1 <= |table| && forall i :: 0 <= i < |data| ==> data[i] < |hs|
    requires ReadData(b, m, hs, names, table, n + 1, data) == Some(sections)
    requires ReadGlobals(table, n + 1, strings) == symbols
    requires Conforms(hs, namesIndex, n + 1, table, n + 1)
    ensures ReadSections(b, m, hs, namesIndex) == Some(ReadBack(sections, symbols))
  {
    hide OfKind, ReadSymbols, BodyOf, ReadData, ReadGlobals;
  }

  /** The round trip: reading the written file by the gABI recovers exactly the
      object's sections with their bytes and references, and its symbols. */
  lemma RoundTrip(o: ObjectIn, m: Machine)
    requires SectionsNamed(o) && Writable(o, m) && Fits(o, m)
    ensures Aligned(Parts(o, m)) && ReadObject(FileOf(m, Parts(o, m)), m) == Some(ReadBack(o.sections, SymbolsOut(o)))
  {
    hide *;
    FitAligned(o, m);
    var ps := Parts(o, m);
    SectionsReadBack(o, m);
    HeadersRead(m, ps);
    HeaderNumbers(m, ps);
    ReadObjectIs(FileOf(m, ps), m, HeaderOf(m, ps), AllHeaders(PlaceParts(ps)));
  }

  lemma HeaderNumbers(m: Machine, parts: seq<Part>)
    requires Aligned(parts)
    ensures HeaderOf(m, parts).machine == MachineNumber(m) && HeaderOf(m, parts).names == |parts| + 1
    ensures HeaderOf(m, parts).sectionHeaders % 8 == 0
  {
    hide AllHeaders, PlaceParts, Strings;
  }

  lemma ReadObjectIs(b: seq<Byte>, m: Machine, h: FileHeader, hs: seq<SectionHeader>)
    requires |b| >= HEADER_SIZE && IsRelocatable(b) && ReadFileHeader(b) == h && h.machine == MachineNumber(m)
    requires h.sectionHeaders % 8 == 0
    requires ReadHeaders(b, h) == Some(hs)
    ensures ReadObject(b, m) == ReadSections(b, m, hs, h.names)
  {
    hide IsRelocatable, ReadFileHeader, ReadHeaders, ReadSections;
  }

  /** Section bodies are where their headers say, aligned, inside the file and past
      its header, and no two overlap. */
  lemma BodiesLaidOut(o: ObjectIn, m: Machine, i: nat, j: nat)
    requires SectionsNamed(o) && Aligned(Parts(o, m)) && i < |Parts(o, m)| && j < |Parts(o, m)|
    ensures var ps := Parts(o, m);
      var b, hs := FileOf(m, ps), AllHeaders(PlaceParts(ps));
      && i + 1 < |hs| && j + 1 < |hs|
      && hs[i + 1].offset % ps[i].align == 0 && HEADER_SIZE <= hs[i + 1].offset
      && hs[i + 1].offset + hs[i + 1].size <= |b|
      && b[hs[i + 1].offset..hs[i + 1].offset + hs[i + 1].size] == ps[i].body
      && (i < j ==> hs[i + 1].offset + hs[i + 1].size <= hs[j + 1].offset)
  {
    hide *;
    var ps := Parts(o, m);
    HeaderAt(ps, i);
    HeaderAt(ps, j);
    PartPlaced(ps, i);
    PlacedFacts(PlaceParts(ps), ps, i);
    PlacedAligned(PlaceParts(ps), ps, i);
    var h := PlaceParts(ps).headers[i + 1];
    FileTail(m, ps, h.offset, h.offset + h.size);
    if i < j { BodiesApart(ps, i, j); }
  }

  function Ascii(s: string): seq<int> {
    seq(|s|, i requires 0 <= i < |s| => s[i] as int)
  }

  /** The header of a section in numbers: program bits, flags and alignment by its kind,
      four for AArch64 instructions, and its own name. */
  lemma SectionHeaderSays(o: ObjectIn, m: Machine, s: nat)
    requires SectionsNamed(o) && Writable(o, m) && Fits(o, m) && s < |o.sections|
    ensures var ps := Parts(o, m);
      Aligned(ps) && s + 1 < |AllHeaders(PlaceParts(ps))|
      && var h, names := AllHeaders(PlaceParts(ps))[s + 1], Strings(AllNames(PlaceParts(ps)));
        && h.kind == 1 && CString(names, h.name) == o.sections[s].name
        && match o.sections[s].kind
           case Text => h.flags == 6 && h.align == (if m == Aarch64 then 4 else 1)
           case RoData => h.flags == 2 && h.align == 8
           case GnuStack => h.flags == 0 && h.align == 1
  {
    hide *;
    SectionFits(o, m, s);
    SectionPartRead(o, m, s);
    HeaderFields(Parts(o, m), s);
    DataPartSays(m, o.sections[s]);
  }

  lemma DataPartSays(m: Machine, s: SectionIn)
    ensures var p := DataPart(m, s);
      && p.kind == 1 && p.link == 0 && p.info == 0 && p.entrySize == 0
      && match s.kind
         case Text => p.flags == 6 && p.align == (if m == Aarch64 then 4 else 1)
         case RoData => p.flags == 2 && p.align == 8
         case GnuStack => p.flags == 0 && p.align == 1
  {
  }

  /** The sections the writer adds are named as the gABI names them. */
  lemma AddedNames(o: ObjectIn, m: Machine, s: nat)
    requires SectionsNamed(o) && s < |o.sections|
    ensures Ascii(".symtab") == SymtabPart(o).name && Ascii(".strtab") == StrtabPart(o).name
    ensures AllNames(PlaceParts([])) == [SHSTRTAB_NAME] && Ascii(".shstrtab") == SHSTRTAB_NAME
    ensures RelaPart(o, m, s).name == Ascii(".rela") + o.sections[s].name
  {
    hide Flat, RelocationRows, Strings, SymbolRows;
    var symtab, strtab, shstrtab, rela := ".symtab", ".strtab", ".shstrtab", ".rela";
    assert Ascii(rela) == RELA_NAME;
  }

  lemma PlacedAligned(p: Placing, parts: seq<Part>, i: nat)
    requires i < |parts| && PlacedPart(p, parts, i)
    ensures parts[i].align >= 1 && i + 1 < |p.headers| && p.headers[i + 1].offset % parts[i].align == 0
  {
    hide Strings;
  }

  // ----- what fits ------------------------------------------------------------------------

  /** Room enough for parts and the padding in front of them. */
  function Room(parts: seq<Part>): nat {
    if parts == [] then HEADER_SIZE
    else Room(parts[..|parts| - 1]) + |parts[|parts| - 1].body| + parts[|parts| - 1].align
  }

  function NameRoom(names: seq<Text>): nat {
    if names == [] then 1 else NameRoom(names[..|names| - 1]) + |names[|names| - 1]| + 1
  }

  lemma {:induction false} FileBound(parts: seq<Part>)
    requires Aligned(parts)
    ensures |PlaceParts(parts).file| <= Room(parts)
  {
    hide Strings;
    if parts != [] { FileBound(parts[..|parts| - 1]); }
  }

  lemma {:induction false} NamesLength(names: seq<Text>)
    ensures |Strings(names)| == NameRoom(names)
  {
    if names != [] { NamesLength(names[..|names| - 1]); }
  }

  lemma {:induction false} PlacedNames(parts: seq<Part>)
    requires Aligned(parts)
    ensures PlaceParts(parts).names == seq(|parts|, i requires 0 <= i < |parts| => parts[i].name)
  {
    if parts != [] { PlacedNames(parts[..|parts| - 1]); }
  }

  /** Parts fit when their sizes do. */
  lemma SmallPartsFit(m: Machine, parts: seq<Part>)
    requires Aligned(parts) && |parts| + 2 < 0xff00
    requires var names := seq(|parts|, i requires 0 <= i < |parts| => parts[i].name) + [SHSTRTAB_NAME];
      NameRoom(names) < Radix(4) && Room(parts) + NameRoom(names) + 8 < Radix(8)
    requires forall i :: 0 <= i < |parts| ==>
      && parts[i].kind < Radix(4) && parts[i].flags < Radix(8) && parts[i].link < Radix(4)
      && parts[i].info < Radix(4) && parts[i].align < Radix(8) && parts[i].entrySize < Radix(8)
    ensures PartsFit(m, parts)
  {
    FileBound(parts);
    PlacedNames(parts);
    NamesLength(AllNames(PlaceParts(parts)));
    hide PlaceParts, Strings, Radix, Room, NameRoom, Le;
  }

  /** One text section holding a single byte, and nothing else. */
  function OneByte(): ObjectIn {
    ObjectIn([SectionIn(Text, [0x2e, 0x74], [0x90], [])], [], {})
  }

  lemma OneByteParts(m: Machine)
    ensures SectionsNamed(OneByte()) && Writable(OneByte(), m)
    ensures Parts(OneByte(), m) == [DataPart(m, OneByte().sections[0]), SymtabPart(OneByte()), StrtabPart(OneByte())]
  {
    hide DataPart, SymtabPart, StrtabPart;
    assert RelaParts(OneByte(), m, 1) == RelaParts(OneByte(), m, 0) + [] == [];
    assert DataParts(OneByte(), m) == [DataPart(m, OneByte().sections[0])];
  }

  lemma OneByteTables()
    ensures |SymtabPart(OneByte()).body| == 48 && StrtabPart(OneByte()).body == [0]
  {
    var t := SymbolTable(OneByte());
    assert |t| == 2;
    SymbolRowsUniform(t);
    FlatLength(SymbolRows(t), SYMBOL_SIZE);
    assert SymbolNames(OneByte()) == [];
  }

  lemma OneByteSizes(m: Machine)
    ensures SectionsNamed(OneByte()) && |Parts(OneByte(), m)| == 3 && Aligned(Parts(OneByte(), m))
    ensures var ps := Parts(OneByte(), m);
      && |ps[0].body| == 1 && |ps[1].body| == 48 && |ps[2].body| == 1
      && |ps[0].name| == 2 && |ps[1].name| == 7 && |ps[2].name| == 7
      && forall i :: 0 <= i < 3 ==>
           && ps[i].kind < 256 && ps[i].flags < 256 && ps[i].link < 256
           && ps[i].info < 256 && ps[i].align < 256 && ps[i].entrySize < 256
  {
    hide *;
    OneByteParts(m);
    PartsAligned(OneByte(), m);
    OneByteFields(m);
  }

  lemma OneByteFields(m: Machine)
    ensures forall p :: p in [DataPart(m, OneByte().sections[0]), SymtabPart(OneByte()), StrtabPart(OneByte())] ==>
      p.kind < 256 && p.flags < 256 && p.link < 256 && p.info < 256 && p.align < 256 && p.entrySize < 256
    ensures var d, s := DataPart(m, OneByte().sections[0]), StrtabPart(OneByte());
      |d.body| == 1 && |d.name| == 2 && |s.body| == 1 && |s.name| == 7
    ensures |SymtabPart(OneByte()).body| == 48 && |SymtabPart(OneByte()).name| == 7
  {
    OneByteTables();
    hide SymbolTable, SymbolRows, Flat, Strings, SymbolNames;
  }

  lemma OneBytePartsFit(m: Machine)
    ensures SectionsNamed(OneByte()) && PartsFit(m, Parts(OneByte(), m))
  {
    hide *;
    OneByteSizes(m);
    var ps := Parts(OneByte(), m);
    var names := seq(|ps|, i requires 0 <= i < |ps| => ps[i].name) + [SHSTRTAB_NAME];
    RoomOfThree(ps);
    NamesOfFour(ps[0].name, ps[1].name, ps[2].name, SHSTRTAB_NAME);
    TableNameLength();
    RadixValues();
    assert names == [ps[0].name, ps[1].name, ps[2].name, SHSTRTAB_NAME];
    SmallPartsFit(m, ps);
  }

  lemma TableNameLength()
    ensures |SHSTRTAB_NAME| == 9 && HEADER_SIZE == 64
  {
  }

  /** Such an object can be written, and fits. */
  lemma OneByteFits(m: Machine)
    ensures SectionsNamed(OneByte()) && Writable(OneByte(), m) && Fits(OneByte(), m)
  {
    OneByteParts(m);
    OneBytePartsFit(m);
    RadixValues();
    hide PartsFit, Parts, Radix, RelocationOf;
    assert SymbolNames(OneByte()) == [];
  }

  lemma RoomOfThree(ps: seq<Part>)
    requires |ps| == 3
    ensures Room(ps)
         == HEADER_SIZE + |ps[0].body| + ps[0].align + |ps[1].body| + ps[1].align + |ps[2].body| + ps[2].align
  {
    assert ps[..2][..1] == ps[..1] && ps[..1][..0] == [];
    assert Room(ps[..1]) == HEADER_SIZE + |ps[0].body| + ps[0].align;
    assert Room(ps[..2]) == Room(ps[..1]) + |ps[1].body| + ps[1].align;
  }

  lemma NamesOfFour(a: Text, b: Text, c: Text, d: Text)
    ensures NameRoom([a, b, c, d]) == 5 + |a| + |b| + |c| + |d|
  {
    assert [a, b, c, d][..3] == [a, b, c] && [a, b, c][..2] == [a, b] && [a, b][..1] == [a] && [a][..0] == [];
    assert NameRoom([a]) == 2 + |a|;
    assert NameRoom([a, b]) == 3 + |a| + |b|;
    assert NameRoom([a, b, c]) == 4 + |a| + |b| + |c|;
  }
}
