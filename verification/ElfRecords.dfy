/** The fixed-size records of an ELF64 object: file header, section headers, symbols
    and relocations, as they are written and as they are read. */
module ElfRecords {
  import opened Items
  import opened Bytes

  const HEADER_SIZE: nat := 64
  const SECTION_HEADER_SIZE: nat := 64
  const SYMBOL_SIZE: nat := 24
  const RELOCATION_SIZE: nat := 24

  const SHT_PROGBITS: nat := 1
  const SHT_SYMTAB: nat := 2
  const SHT_STRTAB: nat := 3
  const SHT_RELA: nat := 4

  const SHF_ALLOC: nat := 0x2
  const SHF_EXECINSTR: nat := 0x4
  const SHF_INFO_LINK: nat := 0x40

  const STB_LOCAL: nat := 0
  const STB_GLOBAL: nat := 1
  const STT_NOTYPE: nat := 0
  const STT_FUNC: nat := 2
  const STT_SECTION: nat := 3

  function Zeros(n: nat): (z: seq<Byte>)
    ensures |z| == n
  {
    seq(n, _ => 0)
  }

  /** The unsigned number in `width` bytes at `at`. */
  function Number(b: seq<Byte>, at: nat, width: nat): nat
    requires at + width <= |b|
  {
    FromLe(b[at..at + width])
  }

  lemma NumberAt(b: seq<Byte>, at: nat, width: nat, n: nat)
    requires at + width <= |b| && b[at..at + width] == Le(n, width) && n < Radix(width)
    ensures Number(b, at, width) == n
  {
    LeRoundTrip(n, width);
  }

  // ----- section headers --------------------------------------------------------------

  datatype SectionHeader = SectionHeader(
    name: nat, kind: nat, flags: nat, offset: nat, size: nat, link: nat, info: nat, align: nat, entrySize: nat)
  {
    predicate Fits() {
      && name < Radix(4) && kind < Radix(4) && flags < Radix(8) && offset < Radix(8) && size < Radix(8)
      && link < Radix(4) && info < Radix(4) && align < Radix(8) && entrySize < Radix(8)
    }

    function Write(): (b: seq<Byte>)
      ensures |b| == SECTION_HEADER_SIZE
    {
      Le(name, 4) + Le(kind, 4) + Le(flags, 8) + Le(0, 8) + Le(offset, 8) + Le(size, 8)
        + Le(link, 4) + Le(info, 4) + Le(align, 8) + Le(entrySize, 8)
    }
  }

  const NO_SECTION: SectionHeader := SectionHeader(0, 0, 0, 0, 0, 0, 0, 0, 0)

  lemma {:induction false} LeZero(width: nat)
    ensures Le(0, width) == Zeros(width)
  {
    if width > 0 { LeZero(width - 1); }
  }

  /** Section 4.4 of the System V gABI: the fields of `Elf64_Shdr`. */
  function ReadSectionHeader(b: seq<Byte>): SectionHeader
    requires |b| == SECTION_HEADER_SIZE
  {
    SectionHeader(Number(b, 0, 4), Number(b, 4, 4), Number(b, 8, 8), Number(b, 24, 8), Number(b, 32, 8),
                  Number(b, 40, 4), Number(b, 44, 4), Number(b, 48, 8), Number(b, 56, 8))
  }

  lemma SectionHeaderRoundTrip(h: SectionHeader)
    requires h.Fits()
    ensures ReadSectionHeader(h.Write()) == h && h.Write()[16..24] == Zeros(8)
  {
    var b := h.Write();
    hide Le, FromLe, Radix;
    assert b[0..4] == Le(h.name, 4);
    assert b[4..8] == Le(h.kind, 4);
    assert b[8..16] == Le(h.flags, 8);
    assert b[24..32] == Le(h.offset, 8);
    assert b[32..40] == Le(h.size, 8);
    assert b[40..44] == Le(h.link, 4);
    assert b[44..48] == Le(h.info, 4);
    assert b[48..56] == Le(h.align, 8);
    assert b[56..] == Le(h.entrySize, 8) && b[56..64] == b[56..];
    assert b[16..24] == Le(0, 8);
    LeZero(8);
    NumberAt(b, 0, 4, h.name);
    NumberAt(b, 4, 4, h.kind);
    NumberAt(b, 8, 8, h.flags);
    NumberAt(b, 24, 8, h.offset);
    NumberAt(b, 32, 8, h.size);
    NumberAt(b, 40, 4, h.link);
    NumberAt(b, 44, 4, h.info);
    NumberAt(b, 48, 8, h.align);
    NumberAt(b, 56, 8, h.entrySize);
  }

  // ----- symbols ------------------------------------------------------------------------

  datatype SymbolEntry = SymbolEntry(name: nat, info: Byte, other: Byte, section: nat, value: nat, size: nat) {
    predicate Fits() {
      name < Radix(4) && section < Radix(2) && value < Radix(8) && size < Radix(8)
    }

    function Write(): (b: seq<Byte>)
      ensures |b| == SYMBOL_SIZE
    {
      Le(name, 4) + [info] + [other] + Le(section, 2) + Le(value, 8) + Le(size, 8)
    }
  }

  const NO_SYMBOL: SymbolEntry := SymbolEntry(0, 0, 0, 0, 0, 0)

  /** The local symbol that stands for a section. */
  function SectionSymbol(index: nat): SymbolEntry {
    SymbolEntry(0, STB_LOCAL * 16 + STT_SECTION, 0, index, 0, 0)
  }

  /** The fields of `Elf64_Sym`. */
  function ReadSymbol(b: seq<Byte>): SymbolEntry
    requires |b| == SYMBOL_SIZE
  {
    SymbolEntry(Number(b, 0, 4), b[4], b[5], Number(b, 6, 2), Number(b, 8, 8), Number(b, 16, 8))
  }

  lemma SymbolRoundTrip(e: SymbolEntry)
    requires e.Fits()
    ensures ReadSymbol(e.Write()) == e
  {
    var b := e.Write();
    hide Le, FromLe, Radix;
    assert b[0..4] == Le(e.name, 4);
    assert b[6..8] == Le(e.section, 2);
    assert b[8..16] == Le(e.value, 8);
    assert b[16..] == Le(e.size, 8) && b[16..24] == b[16..];
    NumberAt(b, 0, 4, e.name);
    NumberAt(b, 6, 2, e.section);
    NumberAt(b, 8, 8, e.value);
    NumberAt(b, 16, 8, e.size);
  }

  // ----- relocations ----------------------------------------------------------------------

  /** `r_info` packs the symbol above the relocation type. */
  datatype RelocationEntry = RelocationEntry(offset: nat, symbol: nat, kind: nat, addend: int) {
    predicate Fits() {
      && offset < Radix(8) && symbol < Radix(4) && kind < Radix(4)
      && -(Radix(8) / 2) <= addend < Radix(8) / 2
    }

    function Write(): (b: seq<Byte>)
      ensures |b| == RELOCATION_SIZE
    {
      Le(offset, 8) + Le(symbol * 0x1_0000_0000 + kind, 8) + Le(addend, 8)
    }
  }

  /** The fields of `Elf64_Rela`. */
  function ReadRelocation(b: seq<Byte>): RelocationEntry
    requires |b| == RELOCATION_SIZE
  {
    var info := Number(b, 8, 8);
    RelocationEntry(Number(b, 0, 8), info / 0x1_0000_0000, info % 0x1_0000_0000, FromLeSigned(b[16..24]))
  }

  lemma RelocationRoundTrip(e: RelocationEntry)
    requires e.Fits()
    ensures ReadRelocation(e.Write()) == e
  {
    var b, info := e.Write(), e.symbol * 0x1_0000_0000 + e.kind;
    RadixValues();
    hide Le, FromLe, Radix, FromLeSigned;
    assert b[0..8] == Le(e.offset, 8);
    assert b[8..16] == Le(info, 8);
    assert b[16..24] == Le(e.addend, 8);
    NumberAt(b, 0, 8, e.offset);
    NumberAt(b, 8, 8, info);
    LeSignedRoundTrip(e.addend, 8);
  }

  // ----- the file header --------------------------------------------------------------------

  /** What a reader needs of `Elf64_Ehdr`. */
  datatype FileHeader = FileHeader(machine: nat, sectionHeaders: nat, count: nat, names: nat) {
    predicate Fits() {
      machine < Radix(2) && sectionHeaders < Radix(8) && count < Radix(2) && names < Radix(2)
    }

    function Write(): (b: seq<Byte>)
      ensures |b| == HEADER_SIZE
    {
      [0x7f, 0x45, 0x4c, 0x46, 2, 1, 1] + Zeros(9) + Le(1, 2) + Le(machine, 2) + Le(1, 4) + Zeros(16)
        + Le(sectionHeaders, 8) + Zeros(4) + Le(64, 2) + Zeros(4) + Le(64, 2) + Le(count, 2) + Le(names, 2)
    }
  }

  /** A 64-bit little-endian relocatable file of the current version, whose section
      headers have the size of this version's. */
  predicate IsRelocatable(b: seq<Byte>)
    requires |b| >= HEADER_SIZE
  {
    && b[..7] == [0x7f, 0x45, 0x4c, 0x46, 2, 1, 1]
    && Number(b, 16, 2) == 1 && Number(b, 20, 4) == 1 && Number(b, 52, 2) == 64 && Number(b, 58, 2) == 64
  }

  function ReadFileHeader(b: seq<Byte>): FileHeader
    requires |b| >= HEADER_SIZE
  {
    FileHeader(Number(b, 18, 2), Number(b, 40, 8), Number(b, 60, 2), Number(b, 62, 2))
  }

  lemma FileHeaderRoundTrip(h: FileHeader, rest: seq<Byte>)
    requires h.Fits()
    ensures IsRelocatable(h.Write() + rest) && ReadFileHeader(h.Write() + rest) == h
    ensures var b := h.Write();
      b[7..16] == Zeros(9) && b[24..40] == Zeros(16) && b[48..52] == Zeros(4) && b[54..58] == Zeros(4)
  {
    var b := h.Write() + rest;
    RadixValues();
    hide Le, FromLe, Radix, Zeros;
    assert b[..7] == [0x7f, 0x45, 0x4c, 0x46, 2, 1, 1];
    assert b[16..18] == Le(1, 2);
    assert b[18..20] == Le(h.machine, 2);
    assert b[20..24] == Le(1, 4);
    assert b[40..48] == Le(h.sectionHeaders, 8);
    assert b[52..54] == Le(64, 2);
    assert b[58..60] == Le(64, 2);
    assert b[60..62] == Le(h.count, 2);
    assert b[62..64] == Le(h.names, 2);
    NumberAt(b, 16, 2, 1);
    NumberAt(b, 18, 2, h.machine);
    NumberAt(b, 20, 4, 1);
    NumberAt(b, 40, 8, h.sectionHeaders);
    NumberAt(b, 52, 2, 64);
    NumberAt(b, 58, 2, 64);
    NumberAt(b, 60, 2, h.count);
    NumberAt(b, 62, 2, h.names);
  }

  /** Overwrites `piece` at `at`. */
  function Splice(b: seq<Byte>, at: nat, piece: seq<Byte>): (r: seq<Byte>)
    requires at + |piece| <= |b|
    ensures |r| == |b|
  {
    b[..at] + piece + b[at + |piece|..]
  }

  /** Fills in the header at the front of a file that starts with zeroes. */
  method WriteFileHeader(file: seq<Byte>, h: FileHeader) returns (r: seq<Byte>)
    requires |file| >= HEADER_SIZE && file[..HEADER_SIZE] == Zeros(HEADER_SIZE)
    ensures r == h.Write() + file[HEADER_SIZE..]
  {
    hide Le;
    var header := file[..HEADER_SIZE];
    header := Splice(header, 0, [0x7f, 0x45, 0x4c, 0x46]);
    header := header[4 := 2][5 := 1][6 := 1];
    assert header == [0x7f, 0x45, 0x4c, 0x46, 2, 1, 1] + Zeros(9) + Zeros(48);
    header := Splice(header, 16, Le(1, 2));
    header := Splice(header, 18, Le(h.machine, 2));
    header := Splice(header, 20, Le(1, 4));
    ghost var front := [0x7f, 0x45, 0x4c, 0x46, 2, 1, 1] + Zeros(9) + Le(1, 2) + Le(h.machine, 2) + Le(1, 4);
    assert header == front + Zeros(40);
    header := Splice(header, 40, Le(h.sectionHeaders, 8));
    header := Splice(header, 52, Le(64, 2));
    assert header == front + Zeros(16) + Le(h.sectionHeaders, 8) + Zeros(4) + Le(64, 2) + Zeros(10);
    header := Splice(header, 58, Le(64, 2));
    header := Splice(header, 60, Le(h.count, 2));
    header := Splice(header, 62, Le(h.names, 2));
    ghost var middle := front + Zeros(16) + Le(h.sectionHeaders, 8) + Zeros(4) + Le(64, 2);
    assert header == middle + Zeros(4) + Le(64, 2) + Le(h.count, 2) + Le(h.names, 2);
    r := header + file[HEADER_SIZE..];
  }
}
