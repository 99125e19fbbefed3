# Verified model of the Slopium back half

This project models the parts of the Slopium compiler and runtime whose
correctness rests on reasoning across several functions, and proves what they
are for. `dafny verify dfyconfig.toml` checks everything.

- **Control flow to registers** (`Mir`, `Cfg`, `Liveness`, `Intervals`,
  `RegAlloc`, `Sharing`). The depth-first search, the liveness fixpoint, the live
  intervals and the linear scan are methods over mutable vectors, each proved
  against a statement about paths in the control-flow graph. `Sharing` gives the
  mid-level representation a step semantics and proves that letting locals share
  storage changes no run. The environment is a `World` that answers calls and
  volatile accesses from the whole history of consultations, so equal histories
  with equal operands is the strongest thing the two runs can agree on.
- **Checked integer arithmetic** (`Words`, `IntSpec`, `Code`, `X86Arith`,
  `A64Arith`, `TwoMachines`). One specification of every integer operator at the
  eight types; two small machines with flags, scratch registers and frame slots;
  the instruction sequences each generator emits for every operand placement; and
  the proof that both refine the specification.
- **Layout, resolution and the copy peephole** (`Items`, `Layout`, `Resolve`,
  `Linking`, `WordCode`, `Peephole`, `Copies`). One stream of items becomes
  sections, patched fields and relocations; the main result says what every
  reference of the finished object means for any linker.
- **The ELF64 writer** (`Bytes`, `ElfRecords`, `Elf`, `ElfReader`). The writer, a
  reader written from chapter 4 of the System V gABI, and their round trip.
- **Calls** (`Convention`, `Marshal`, `Epilogue`). Argument places of the System V AMD64
  psABI (section 3.2.3) and of the AAPCS64 "Parameter passing" rules, the caller's
  the callee's loops, both run on one machine, and what a call gives back.
- **Runtime** (`Packing`, `Lists`, `Study`). The packed builder, the growable list
  over a byte buffer, and the three storages of the builder study.
- **Literals and partitioning** (`Literals`, `Partition`).

Class methods carry the loops of the original; what they compute is a function or
predicate on values, and the properties are lemmas about that.

Three findings about the code:

- On AArch64 a remainder whose dividend lives in a frame slot is wrong unless the
  dividend is zero, the divisor is one or the operands trap, because the divide
  overwrites the register `msub` still reads
  (`crates/slopic-core/src/aarch64.rs:1289-1328`).
- The peephole deletes the mirror of any copy, but mirroring a copy between two
  different 32-bit register names, or a load over its own base register, is not a
  no-op. The condition under which it is one is exact, for a copy and for a
  stream, and `mov w1, w2; mov w2, w1` is a stream whose run changes.
- The comment at `crates/slopic-core/src/cfg.rs:314-315` makes an interval the
  hull of the positions where a local is live and omits locals never live. The
  code also marks every write, so a local that is written and never read has an
  interval; the model follows the code.

Two more places follow the code where a reader might expect otherwise: a literal
written with a minus sign is refused at every unsigned type, `-0` included; and
the digits after `0x` or `0b` may begin with a `+`, which the 64-bit parser of the
standard library skips.

## Model

| member | source | states |
|---|---|---|
| `Cfg.CollectPredecessors` | crates/slopic-core/src/cfg.rs:136-146 | each block's predecessor list holds exactly the edges into it, in block order, once for each time a terminator names it |
| `Cfg.Visit` | crates/slopic-core/src/cfg.rs:147-170 | one round of the depth-first stack loop keeps the colouring, parent and ordering invariants, and the work left strictly shrinks |
| `Cfg.DepthFirst` | crates/slopic-core/src/cfg.rs:147-170 | the iterative search ends, having finished exactly the blocks reachable from the entry, each once |
| `Cfg.FinishedSearch` | crates/slopic-core/src/cfg.rs:147-173 | reversing the finishing order lists the reachable blocks so that every block but the entry has an earlier predecessor and an edge that goes back closes a cycle |
| `Cfg.New` | crates/slopic-core/src/cfg.rs:135-184 | the graph built for a function describes it: predecessors, reachability, and an order in which only cycles go backward |
| `Mir.Uses` | crates/slopic-core/src/cfg.rs:69-116 | the locals the analysis is told an instruction reads are exactly those its operand fields name |
| `Mir.Defs` | crates/slopic-core/src/cfg.rs:30-63 | the local the analysis is told an instruction defines is exactly its destination field |
| `Mir.Successors` | crates/slopic-core/src/cfg.rs:14-25 | the blocks listed for a terminator are exactly those it can transfer to |
| `Mir.TerminatorUses` | crates/slopic-core/src/cfg.rs:119-125 | the locals listed for a terminator are exactly the one it tests or returns |
| `Liveness.TransferMeaning` | crates/slopic-core/src/cfg.rs:236-262 | carrying a set back through a block keeps exactly the locals the block reads before writing, and those live at its end that it does not write |
| `Liveness.StoreKeepsContained` | crates/slopic-core/src/cfg.rs:233-270 | overwriting a block's two sets with fresh ones only ever grows them, and every bit stored still has a path that justifies it |
| `Liveness.Round` | crates/slopic-core/src/cfg.rs:233-270 | one sweep either changes nothing and balances every block, or strictly shrinks the set of false bits |
| `Liveness.PathIsRecorded` | crates/slopic-core/src/cfg.rs:221-273 | once balanced, every path that reads a local before writing it is recorded at the block it starts in |
| `Liveness.Analyze` | crates/slopic-core/src/cfg.rs:221-273 | the fixpoint loop ends, and on reachable blocks a local is live-in or live-out if and only if some path from there reads it before writing it |
| `Intervals.Ranges.Mark` | crates/slopic-core/src/cfg.rs:295-310 | marking a position widens one local's range to its hull and touches no other |
| `Intervals.Ranges.MarkInstruction` | crates/slopic-core/src/cfg.rs:69-116 | an instruction marks exactly the locals it reads and the one it writes |
| `Intervals.PositionsDistinct` | crates/slopic-core/src/cfg.rs:321-368 | every statement and terminator has a position of its own, in block order |
| `Intervals.LivePointCovered` | crates/slopic-core/src/cfg.rs:312-321 | wherever a local is live, in whatever block, the position lies inside its interval |
| `Intervals.MentionCovered` | crates/slopic-core/src/cfg.rs:321-368 | every operand and result of an instruction is covered at its position |
| `Intervals.LiveIntervals` | crates/slopic-core/src/cfg.rs:321-368 | the intervals are the hulls of the marked positions, one per marked local, in order of locals |
| `RegAlloc.Expire` | crates/slopic-core/src/regalloc.rs:71-155 | expiring drops just the active intervals that ended and frees just their registers |
| `RegAlloc.SortSorts` | crates/slopic-core/src/regalloc.rs:80-83 | intervals are scanned by start, then end, then local |
| `RegAlloc.Place` | crates/slopic-core/src/regalloc.rs:99-131 | one interval takes the lowest free register, else the register of the active interval that ends last if that one ends later, else memory |
| `RegAlloc.Scan` | crates/slopic-core/src/regalloc.rs:71-155 | the scan never gives one register to two intervals that overlap, and it leaves an interval in memory if and only if at some position more intervals are alive than there are registers |
| `RegAlloc.Allocate` | crates/slopic-core/src/regalloc.rs:71-155 | locals share a register only with disjoint intervals; pinned locals are in memory; slots are unique and numbered without gaps; the used registers are listed exactly, ascending; unpinned locals all get registers exactly when no position has more of them alive than there are registers |
| `Sharing.OperandsExactly` | crates/slopic-core/src/codegen.rs:970-1284 | running an instruction depends on a local exactly when the analysis lists it as read |
| `Sharing.PutExactly` | crates/slopic-core/src/codegen.rs:970-1284 | running an instruction changes a local exactly when the analysis lists it as defined, or it is dropped or freed |
| `Sharing.ConstantsRun` | crates/slopic-core/src/codegen.rs:982-1000 | constants, moves and branches run as written |
| `Sharing.StepKeepsAgreement` | crates/slopic-core/src/codegen.rs:970-1284 | one statement or terminator, with the zero that drop and free write back, keeps every live local equal in the shared and the unshared run |
| `Sharing.RunsAgree` | crates/slopic-core/src/cfg.rs:312-321 | any number of steps of the two runs stay in agreement |
| `Sharing.SharingIsSafe` | crates/slopic-core/src/cfg.rs:312-368 | for every assignment that keeps overlapping intervals apart: same branches, same calls with the same operands, same outcome as with one cell per local, for every run |
| `Sharing.AllocationIsSafe` | crates/slopic-core/src/regalloc.rs:71-155 | the allocator's own answer is such an assignment at every register count, when nothing assigns a parameter |
| `Sharing.EntryStoresExactly` | crates/slopic-core/src/codegen.rs:737-797 | the prologue delivers every argument list exactly when no later parameter store lands on one that is live on entry |
| `Sharing.UnwrittenParametersKept` | crates/slopic-core/src/codegen.rs:737-797 | that condition holds when no instruction writes a parameter and locals share a cell only when both have intervals and these are disjoint |
| `Sharing.DeadParameterClobbers` | crates/slopic-core/src/codegen.rs:737-797 | a concrete function shows that interval separation alone is not enough: a parameter dead on entry and assigned later may take the register of a live one |
| `IntSpec.TypeRanges` | crates/slopic-core/src/ast.rs:353-366 | the values of each of the eight integer types, and of the words that are compared as signed |
| `IntSpec.ValueMeans` | crates/slopic-core/src/ast.rs:353-366 | a word is its own value, except that a `u64` below zero counts from 2^64 |
| `Words.BitwiseMeans` | crates/slopic-core/src/codegen.rs:1376-1430 | each bit of and, or and xor is the truth table on the same bits |
| `IntSpec.TruncatedDivision` | crates/slopic-core/src/aarch64.rs:1275-1287 | division truncates toward zero and remainder keeps the identity with it, smaller than the divisor and with the dividend's sign |
| `IntSpec.MeaningCanonical` | crates/slopic-core/src/codegen.rs:1299-1372 | canonical operands give a canonical result at every type; comparisons give 0 or 1 |
| `Words.CanonicalizeMeaning` | crates/slopic-core/src/ast.rs:223-233 | the shift pair and the mask find the word of the type with the same low bits |
| `Words.CanonicalizeIsCanonical` | crates/slopic-core/src/ast.rs:223-233 | canonicalizing gives a canonical word, and changes exactly the words that were not |
| `X86Arith.CarriedMeansOverflow` | crates/slopic-core/src/codegen.rs:1376-1430 | the flag each full-width type tests is set exactly when the exact sum or difference leaves the type |
| `X86Arith.CanonicalizeRaxCheckedCorrect` | crates/slopic-core/src/codegen.rs:1362-1374 | the narrow range check traps exactly the words that are not canonical |
| `X86Arith.DivideWithCheckCorrect` | crates/slopic-core/src/codegen.rs:1464-1604 | zero divisors trap, the most negative word over -1 traps, and otherwise quotient and remainder are exact and the divide cannot fault |
| `X86Arith.ThroughRaxCorrect` | crates/slopic-core/src/codegen.rs:1464-1604 | the general path through rax computes the operator's meaning from and to any placement |
| `X86Arith.AccumulateCorrect` | crates/slopic-core/src/codegen.rs:1376-1430 | the in-place path computes the same meaning |
| `X86Arith.CompareInPlaceCorrect` | crates/slopic-core/src/codegen.rs:1432-1462 | the in-place comparison computes the same meaning |
| `X86Arith.IntegerBinaryCorrect` | crates/slopic-core/src/codegen.rs:1286-1604 | every operator, type, placement and pair of canonical operands: it traps exactly when the specification does and otherwise changes the destination alone, to the canonical word of the exact result |
| `X86Arith.ShortPaths` | crates/slopic-core/src/codegen.rs:1376-1462 | when the destination is a register the right operand does not use, or one compared operand is in a register, the in-place sequences are taken |
| `X86Arith.IntegerBinaryEncodable` | crates/slopic-core/src/codegen.rs:1286-1604 | every emitted instruction has an encoding: one memory operand at most, immediates that fit |
| `X86Arith.Generator.EmitIntegerBinary` | crates/slopic-core/src/codegen.rs:1286-1309 | the generator method emits exactly the code proved correct |
| `A64Arith.MaterializeCorrect` | crates/slopic-core/src/aarch64.rs:539-562 | a constant is built whichever halfwords are skipped |
| `A64Arith.MaterializeLength` | crates/slopic-core/src/aarch64.rs:539-562 | a constant takes one instruction for each halfword that is not zero, and at least one |
| `A64Arith.FrameAccessEncodable` | crates/slopic-core/src/aarch64.rs:420-469 | a frame access is one instruction exactly when its offset has an encoding |
| `A64Arith.IntegerBinaryEncodable` | crates/slopic-core/src/aarch64_inst.rs:479-705 | every emitted instruction has immediates its encoding can hold |
| `A64Arith.ReadCorrect` | crates/slopic-core/src/aarch64.rs:394-447 | reading a local names a register that holds it, loading from near and far slots alike |
| `A64Arith.WriteCorrect` | crates/slopic-core/src/aarch64.rs:407-469 | writing stores into one register or slot and nothing else, borrowing x17 for a far address |
| `A64Arith.SignedHighHalf` | crates/slopic-core/src/aarch64.rs:1087-1129 | the high half of a product matches the sign of its low half exactly when the product is a word |
| `A64Arith.DivideCorrect` | crates/slopic-core/src/aarch64.rs:1288-1334 | the guarded divide, and the remainder multiplied back out, for a dividend in a register and for one in x16 |
| `A64Arith.ShiftCorrect` | crates/slopic-core/src/aarch64.rs:1247-1273 | the count check and the shift, with the count read first and the constant in the third scratch register |
| `A64Arith.IntegerBinaryCorrect` | crates/slopic-core/src/aarch64.rs:1047-1334 | the same specification as x86-64 for every placement except a remainder whose dividend is in a frame slot, and what is computed there |
| `A64Arith.SpilledRemainderExact` | crates/slopic-core/src/aarch64.rs:1288-1334 | with a spilled dividend the remainder is right if and only if the operands trap, the dividend is zero or the divisor is one |
| `A64Arith.SpilledDividendCounterexample` | crates/slopic-core/src/aarch64.rs:1288-1334 | 7 % 2 comes out as -3 when the dividend is in a frame slot |
| `A64Arith.Generator.EmitMaterialize` | crates/slopic-core/src/aarch64.rs:539-562 | the loop over halfwords emits that sequence |
| `A64Arith.Generator.EmitIntegerBinary` | crates/slopic-core/src/aarch64.rs:1047-1160 | the generator method emits exactly the code proved correct |
| `TwoMachines.MachinesAgree` | crates/slopic-core/src/aarch64.rs:1047-1334 | from equal operands the two programs stop with the same trap or leave the same word, wherever each put the three locals |
| `Items.BaseSections` | crates/slopic-core/src/asm.rs:78-98 | every object has `.text`, `.rodata` and an empty `.note.GNU-stack`, in that order |
| `Layout.BytesPlaced` | crates/slopic-core/src/asm.rs:569-650 | each section buffer is the concatenation of what the stream places in that section |
| `Layout.LabelsPlaced` | crates/slopic-core/src/asm.rs:576-580 | a label is at the number of bytes placed before it in its section, the last of equal names counting |
| `Layout.FixupsPlaced` | crates/slopic-core/src/asm.rs:626-641 | the fixups of a section are those of its instructions, moved to where each landed |
| `Layout.FixupsInOrder` | crates/slopic-core/src/asm.rs:626-641 | the fields to patch never overlap and lie inside the section |
| `Layout.ForwardMeaning` | crates/slopic-core/src/asm.rs:706-715 | a numeric reference finds the first label of its number that follows it in its own section of the stream, however sections interleave, and fails exactly when there is none |
| `Layout.SymbolsPlaced` | crates/slopic-core/src/asm.rs:594-620 | the sized symbols are the `.size` items in order, each with the bytes between its label and its `.size` |
| `Layout.GlobalsAdded` | crates/slopic-core/src/asm.rs:652-673 | every `.globl` reaches the symbol table, and what is added is where its label is or is left to the linker |
| `Layout.MarksPlaced` | crates/slopic-core/src/asm.rs:590-593 | the pass remembers exactly the `.globl` names and function marks of the stream |
| `Layout.TableFromItems` | crates/slopic-core/src/asm.rs:590-673 | the finished table has every `.globl` name of the stream, and a symbol no `.size` gives comes from a `.globl` and stands at the last label of its name or is undefined |
| `Layout.PlacesExactly` | crates/slopic-core/src/asm.rs:569-650 | a stream is accepted exactly when each item may stand where it does: bytes and labels in code or data, instructions and numeric labels in code, a `.size` in its label's section |
| `Layout.Layout.Run` | crates/slopic-core/src/asm.rs:569-674 | the layout pass over the mutable state computes that layout or its first error |
| `Resolve.PatchMeaning` | crates/slopic-core/src/asm.rs:800-850 | the processor reads the patched word as the displacement (bits 5 to 23, 0 to 25, or all 32), no other bit changes, and patching fails exactly for what the field cannot hold |
| `Resolve.ResolvableExactly` | crates/slopic-core/src/asm.rs:706-766 | a fixup inside one section is settled here exactly when some displacement can be patched for it and it is not a PLT call |
| `Resolve.ResolveAllSettles` | crates/slopic-core/src/asm.rs:701-766 | every fixup of a section is patched or left as one matching relocation; no other byte changes; the linker is asked about the remaining places only |
| `Resolve.Object.IndexOf` | crates/slopic-core/src/asm.rs:768-777 | a name is given its first symbol, or a new undefined one at the end |
| `Resolve.Object.ResolveFixups` | crates/slopic-core/src/asm.rs:701-766 | the resolution loops compute that outcome section by section, or the first error |
| `Linking.Finish` | crates/slopic-core/src/asm.rs:447-450 | layout followed by resolution; it fails only when one of the two must |
| `Resolve.ResolvesExactly` | crates/slopic-core/src/asm.rs:701-766 | the fixups of a section are accepted exactly when each forward label exists and each field settled here can hold its displacement |
| `Linking.FinishesExactly` | crates/slopic-core/src/asm.rs:447-450 | a stream makes an object exactly when every item may stand where it does and every reference can be resolved |
| `Linking.ReferencesMeanTheirLabels` | crates/slopic-core/src/asm.rs:569-766 | for every base address and outside name a linker may choose, each reference reaches the address the stream names plus its addend: as the processor reads the patched word, or as one relocation |
| `Linking.OnlyFieldsChange` | crates/slopic-core/src/asm.rs:800-833 | finishing changes no byte outside the fields, no bit beside them, and no bit at all of a field left to the linker |
| `Linking.LeftExactly` | crates/slopic-core/src/asm.rs:701-766 | the references left to the linker are exactly those of a kind it must patch, to a name it can see, or to a label of another section |
| `Linking.TableAgrees` | crates/slopic-core/src/asm.rs:594-673 | with unique labels the symbol table places every labelled name at its label and leaves exactly the others undefined |
| `Linking.SymbolsOfObject` | crates/slopic-core/src/asm.rs:590-777 | every symbol of a finished object has its reason in the stream (a `.size`, a `.globl` or a reference) and every `.globl` name is among them |
| `WordCode.ReachIsSharp` | crates/slopic-core/src/aarch64.rs:2014-2047 | a function is called too large exactly when a conditional branch over all of it has no encoding |
| `WordCode.ShortFunctionLaysOut` | crates/slopic-core/src/aarch64.rs:2014-2047 | in a section of fewer than 2^18 one-word instructions no fixup is refused, and every branch to a local label of the section is patched in place, leaving no relocation |
| `WordCode.ShortProgramFinishes` | crates/slopic-core/src/asm.rs:447-450 | when every code section is that short and its numeric references have their labels, the whole object finishes |
| `Peephole.Assembly.TextFor` | crates/slopic-core/src/asm.rs:334-344 | a function's section is registered once, handed back after that, and shared with no other symbol |
| `Peephole.Assembly.RemoveRedundantCopies` | crates/slopic-core/src/asm.rs:370-390 | the drain loop leaves exactly the rewritten stream |
| `Peephole.LocationsChangeNothing` | crates/slopic-core/src/asm.rs:301-303 | stripping `.loc` items before the peephole or after it gives the same stream |
| `Peephole.PeepholePreservesRuns` | crates/slopic-core/src/asm.rs:370-390 | when the copies that lost their mirrors restore, the two streams end the same way in the same state from the start or any label, or neither ends, whatever the other instructions are |
| `Peephole.PeepholeExactly` | crates/slopic-core/src/asm.rs:370-390 | for copies that fall through, the rewritten stream stays in step with the original from every kept item and state if and only if every copy that lost its mirror restores |
| `Peephole.OnlySoundUndo` | crates/slopic-core/src/asm.rs:253-259 | a copy whose mirror changes some state is a two-instruction stream the peephole changes |
| `Peephole.PeepholeShrinks` | crates/slopic-core/src/asm.rs:370-390 | the rewrite never lengthens a section |
| `Copies.RestoresExactly` | crates/slopic-core/src/aarch64_inst.rs:469-477 | a copy's mirror is redundant exactly when it is full-width or a self-copy and does not load over its own base register |
| `Copies.MirroredCopiesPreserveRuns` | crates/slopic-core/src/aarch64_inst.rs:469-477 | a stream runs the same after the peephole with the real `undo` when each deleted copy is full-width or a self-copy and does not undo a load over its own base |
| `Copies.PairDropped` | crates/slopic-core/src/aarch64_inst.rs:469-477 | of two instructions with only a location between, the second is dropped exactly when it copies the same operands back, registers and frame slots alike; a label between keeps it |
| `Copies.StreamExactly` | crates/slopic-core/src/aarch64_inst.rs:469-477 | with the real `undo` the streams stay in step if and only if that holds of the deleted copies |
| `Copies.NarrowPairChanges` | crates/slopic-core/src/aarch64_inst.rs:469-477 | the stream `mov w1, w2; mov w2, w1` is one whose run the peephole changes |
| `Bytes.NameAt` | crates/slopic-core/src/elf.rs:430-449 | the offset a string table hands out is where the name is read back, whatever is added later |
| `Bytes.StringTable.Add` | crates/slopic-core/src/elf.rs:439-444 | adding a name extends the table and returns its offset |
| `ElfRecords.SectionHeaderRoundTrip` | crates/slopic-core/src/elf.rs:373-384 | a section header reads back field by field |
| `ElfRecords.SymbolRoundTrip` | crates/slopic-core/src/elf.rs:419-426 | a symbol entry reads back |
| `ElfRecords.RelocationRoundTrip` | crates/slopic-core/src/elf.rs:190-192 | a relocation entry reads back, symbol and type unpacked and the addend with its sign |
| `ElfRecords.FileHeaderRoundTrip` | crates/slopic-core/src/elf.rs:317-337 | the file header is a relocatable ELF64 header and reads back |
| `ElfRecords.WriteFileHeader` | crates/slopic-core/src/elf.rs:317-337 | overwriting the reserved bytes in place gives that header in front of an untouched file |
| `Elf.PadTo` | crates/slopic-core/src/elf.rs:339-344 | padding adds the fewest zeroes that reach the alignment |
| `Elf.Write` | crates/slopic-core/src/elf.rs:105-315 | the writer produces the laid-out file, and refuses exactly an object with a reference the file cannot hold |
| `ElfReader.BodiesLaidOut` | crates/slopic-core/src/elf.rs:266-282 | section bodies are where their headers say, aligned, in range, past the file header and pairwise disjoint |
| `ElfReader.LocalsBeforeGlobals` | crates/slopic-core/src/elf.rs:120-131 | `sh_info` of the symbol table separates the symbols of binding 0 from those of binding 1 |
| `ElfReader.SectionReadBack` | crates/slopic-core/src/elf.rs:105-315 | one section reads back whole: kind, name, bytes and relocations |
| `ElfReader.RoundTrip` | crates/slopic-core/src/elf.rs:105-337 | a reader that knows only the numbers and rules of the System V gABI, chapter 4, accepts the written file and recovers exactly the sections, bytes, symbols and relocations |
| `ElfReader.SectionHeaderSays` | crates/slopic-core/src/elf.rs:197-225 | type, flags and alignment of each section header in numbers, by kind and machine |
| `ElfReader.AddedNames` | crates/slopic-core/src/elf.rs:226-300 | the sections the writer adds have the names the gABI gives them |
| `ElfReader.SmallPartsFit` | crates/slopic-core/src/elf.rs:265-315 | parts whose sizes stay small fit every field of the format |
| `ElfReader.OneByteFits` | crates/slopic-core/src/elf.rs:105-315 | the conditions of the round trip can be met: an object with one byte of code meets them on both machines |
| `Convention.StandardPlaces` | crates/slopic-core/src/codegen.rs:174-178 | every word is in the register the psABI or the AAPCS64 gives it (six or eight for integers, eight for floats), or on the stack behind the earlier words that are there |
| `Convention.ExternWordsInOrder` | crates/slopic-core/src/lowering.rs:126-190 | the words of an extern call are those of its arguments, in order |
| `Marshal.ExternSees` | crates/slopic-core/src/lowering.rs:48-72 | C is passed the pointer field of a string, and the pointer and length fields of a slice, list or array |
| `Convention.CallWordsAre` | crates/slopic-core/src/lowering.rs:89-122 | a Slopium callee is passed one word for each argument, a C function what its declared parameters expand to |
| `Convention.PlacesDistinct` | crates/slopic-core/src/codegen.rs:1851-1905 | no two words of a call share a place |
| `Convention.OutgoingBytes` | crates/slopic-core/src/aarch64.rs:1966-2012 | the reserved bytes are exactly the most any call stores on the stack |
| `Convention.FrameIsDisjoint` | crates/slopic-core/src/aarch64.rs:598-645 | stack words of a call, local slots and saved registers occupy disjoint parts of the frame, which is 16-aligned |
| `Marshal.Marshals` | crates/slopic-core/src/codegen.rs:1851-1905 | at the call every word is in its place, the stack pointer is 16-aligned, and only the outgoing area was written |
| `Marshal.Enters` | crates/slopic-core/src/codegen.rs:642-668 | after the prologue the incoming stack words are sixteen bytes above the frame pointer and undisturbed |
| `Marshal.ReceivedMeans` | crates/slopic-core/src/codegen.rs:762-772 | a narrow parameter is the value of its type with the low bits of the incoming word; any other is the word itself |
| `Epilogue.SavedApart` | crates/slopic-core/src/codegen.rs:618-668 | a saved register has a word of the frame clear of every local slot, every other saved register and the outgoing words |
| `Epilogue.SlotsAgree` | crates/slopic-core/src/aarch64.rs:598-645 | arithmetic, calls and the prologue keep AArch64 slots and saved registers at the same places of one layout |
| `Epilogue.CallPreserves` | crates/slopic-core/src/codegen.rs:680-690 | a call gives back the frame pointer, the stack pointer, the return word and every saved register, and touches no other register |
| `Marshal.ParametersStored` | crates/slopic-core/src/aarch64.rs:675-735 | every parameter's home holds its incoming word, canonicalised at a narrow type |
| `Marshal.ArgumentsArrive` | crates/slopic-core/src/aarch64.rs:1546-1613 | caller and callee together: the k-th parameter holds the k-th word the caller meant, on both architectures, and memory above the outgoing area is unchanged |
| `Marshal.LocalsClear` | crates/slopic-core/src/aarch64.rs:598-610 | in a frame with room for its widest call no local lies where a call writes |
| `Marshal.CanonicalArrives` | crates/slopic-core/src/codegen.rs:762-772 | a canonical argument arrives unchanged |
| `Marshal.Generator.EmitMarshalledCall` | crates/slopic-core/src/codegen.rs:1851-1905 | the two register counters and the stack list emit the code proved correct |
| `Marshal.Generator.EmitStoreParameters` | crates/slopic-core/src/codegen.rs:737-797 | the callee's counters emit the code proved correct |
| `Packing.AppendContents` | runtime/slop_rt_core.c:285-302 | an append adds exactly its text, keeps the representation invariant and leaves earlier words untouched |
| `Packing.AppendsConcatenate` | runtime/slop_rt_core.c:285-302 | however the text is cut into appends the builder holds the concatenation |
| `Packing.SameBytesSameWords` | runtime/slop_rt_core.c:285-302 | the representation is canonical: equal bytes mean equal words and tail |
| `Packing.PackWords` | runtime/slop_rt_core.c:285-302 | the loop over the word buffer appends the text or refuses exactly the bad calls, and writes no word past the count |
| `Packing.StringFromWords` | runtime/slop_rt_core.c:106-137 | the finalizer yields the packed bytes and a NUL, or refuses exactly the bad calls |
| `Packing.WriteStr` | std/core/builder.slp:172-192 | one write grows the words and packs the whole text, or is refused exactly when the length does not fit |
| `Packing.BuildString` | std/core/builder.slp:172-315 | any sequence of writes and the finalizer give the concatenation of the pieces and a NUL, or a refusal exactly when the length does not fit |
| `Lists.MemMove` | runtime/slop_rt_core.c:66-80 | the overlapping move equals a copy from a snapshot, in both directions |
| `Lists.GrowthIsCheap` | runtime/slop_rt_core.c:247-266 | after n pushes from empty the capacity is the least power of two that is at least n and at least 4, and growth has copied fewer than 2n elements |
| `Lists.FromElements` | runtime/slop_rt_core.c:247-266 | n pushes onto an empty list leave those elements, that capacity and fewer than 2n elements copied, or are refused exactly when the capacity does not fit |
| `Lists.LeastPowerUnique` | bench/builder-storage/run.py:27-30 | there is only one such capacity |
| `Lists.List.Push` | runtime/slop_rt_core.c:247-266 | push appends one element, growing by the doubling rule, or refuses a capacity or size that does not fit |
| `Lists.List.TryPop` | runtime/slop_rt_core.c:317-333 | pop removes and returns the last element, or nothing |
| `Lists.List.Remove` | runtime/slop_rt_core.c:335-349 | remove returns one element and closes the gap |
| `Lists.List.Replace` | runtime/slop_rt_core.c:354-363 | replace swaps one element in and hands the old one back |
| `Lists.List.Clone` | runtime/slop_rt_core.c:365-377 | clone builds an independent list of the cloned elements, and is refused exactly when the capacity that many pushes reach does not fit |
| `Lists.OwnCloneIsUsed` | runtime/slop_rt_core.c:365-377 | with an element clone the copy holds what that clone makes of each element |
| `Lists.PlainCloneIsEqual` | runtime/slop_rt_core.c:365-377 | without an element clone the copy holds the same elements |
| `Study.PackedByteAt` | bench/builder-storage/models.c:86-95 | the byte shifted out of a list word or the tail is the byte of the text |
| `Study.PushElement` | bench/builder-storage/list-model.c:6-20 | a push appends one element by the doubling rule and aborts exactly at the largest capacity |
| `Study.PushAll` | bench/builder-storage/list-model.c:26-32 | pushing every element gives a second buffer with the same bytes |
| `Study.StudyStorage.Reserve` | bench/builder-storage/models.c:30-46 | the doubling loop gives the byte buffer room and keeps its text, or aborts exactly when no capacity is large enough |
| `Study.StudyStorage.WriteByte` | bench/builder-storage/models.c:47-63 | a byte write appends one byte in every storage, through the tail, the reserved buffer or the list, or aborts exactly at that storage's limit |
| `Study.StudyStorage.AppendText` | bench/builder-storage/models.c:64-85 | an append adds its text in every storage, or aborts exactly at its limit |
| `Study.StudyStorage.ReadAt` | bench/builder-storage/models.c:86-95 | a read of the representation gives the byte of the text in every storage |
| `Study.StudyStorage.Clone` | bench/builder-storage/models.c:22-28 | a clone has the same text in buffers of its own |
| `Study.StudyStorage.Build` | bench/builder-storage/models.c:100-112 | building gives the text and a NUL in every storage |
| `Study.OwnWritesOnly` | bench/builder-storage/models.c:22-85 | after any run of writes and clones each storage has its own text followed by what was written to it and nothing else |
| `Study.Continue` | bench/builder-storage/models.c:22-85 | on any pool of storages the objects themselves do that, stay apart, and abort exactly when some text can no longer be held |
| `Study.Observe` | bench/builder-storage/models.c:13-112 | what a caller reads of a storage after a run depends on the run alone |
| `Study.Compare` | bench/builder-storage/models.c:13-112 | reads, size and finished text agree between the three storages for every run and every member of the pool |
| `Literals.PrintRoundTrip` | crates/slopic-core/src/ast.rs:286-297 | printing an integer literal and reading it back gives the same magnitude, sign and radix flag |
| `Literals.SpellingRead` | crates/slopic-core/src/ast.rs:2587-2637 | a sign, a prefix in either case and digits of its radix with separators read as that number, that sign and, with a prefix, a bit pattern |
| `Literals.SeparatorsExactly` | crates/slopic-core/src/ast.rs:2625-2635 | a separator is accepted exactly between two characters that are not separators |
| `Literals.SeparatorIgnored` | crates/slopic-core/src/ast.rs:2625-2635 | a separator makes no difference to the digits |
| `Literals.PlusIgnored` | crates/slopic-core/src/ast.rs:2614-2616 | digits may begin with a plus, as the 64-bit parser allows |
| `Literals.DigitsExactly` | crates/slopic-core/src/ast.rs:2614-2616 | the digits of a radix are the hexadecimal ones below it, in either case |
| `Literals.AtExactly` | crates/slopic-core/src/ast.rs:254-283 | a literal has a word at a type exactly when it is representable there, and then the one canonical word it denotes |
| `Literals.AcceptsExactly` | crates/slopic-core/src/ast.rs:210-219 | a conversion is free if and only if every canonical source word is canonical at the target |
| `Partition.OwnerMeaning` | crates/slopic-core/src/lib.rs:452-465 | a name belongs to the longest module it is inside, and to none when it is inside none |
| `Partition.InsideExactly` | crates/slopic-core/src/lib.rs:452-465 | a name is inside a module exactly when it is the module, a colon and a rest |
| `Partition.QualifiedInside` | crates/slopic-core/src/lib.rs:440-450 | what a file declares is inside its module, with the namespace in front when there is one |
| `Partition.MainEmittedByEntry` | crates/slopic-core/src/lib.rs:448-451 | `main` and what is named after it is emitted when the entry module is selected and at no other choice |
| `Partition.EmittedMeaning` | crates/slopic-core/src/lib.rs:472-486 | the table says of every function and test whether its own module is selected, and nothing else |
| `Partition.MirModule.PartitionCodegen` | crates/slopic-core/src/lib.rs:441-506 | the loops set every emit flag as specified and change no name |
| `Partition.EmittedByOwner` | crates/slopic-core/src/lib.rs:441-506 | every emit flag left behind says whether the selected module owns the item, or what the item is named after |
| `Partition.EmittedByExactlyOne` | crates/slopic-core/src/lib.rs:441-506 | with distinct module names, each function, struct, test and enum has its emit flag set by the one choice of selected module that owns it and by no other |
| `Partition.NamedAfterTogether` | crates/slopic-core/src/lib.rs:466-491 | the emit flag of a lambda body or closure struct equals the one of the function, or of the test and its runner, it is named after |
| `Partition.OwnedInside` | crates/slopic-core/src/lib.rs:452-465 | a name inside some module of the package is owned by one of its files |

## Left out

- Floating point: float operators, comparisons, conversions and literal values.
- Source spans, diagnostics, `.file` and `.loc` rendering, the text form of the assembly, and string interning.
- Generated clone and drop helpers, the entry wrapper, the test harness and the panic trampolines' bodies; a drop is one consultation of the world and a zero written back.
- `Sharing.SharingIsSafe`: calls with a unit result are modelled as storing a word, and the address-taken slots start out equal in the two runs, as memory neither run has written yet; which locals are address-taken is a parameter, as the lowering plans of builtins are not modelled.
- `Sharing.AllocationIsSafe`: asks that nothing assign a parameter, which the language guarantees; `Sharing.DeadParameterClobbers` shows the condition is needed.
- `Sharing.UnwrittenParametersKept`: asks that sharing locals both have intervals, as the allocator's answer does; an unused parameter without one may share and overwrite another.
- `A64Arith.IntegerBinaryCorrect`: its second clause excludes a remainder with a spilled dividend, which is false of the code; `A64Arith.SpilledRemainderExact` has the exact condition.
- Instruction encodings beyond the fields that fixups patch: an encoder is any function that promises whole, ordered fields, and AArch64 adds that an instruction is one word.
- `Layout.Layout.Run`: `u64` offsets are unbounded numbers; a section longer than 2^63 bytes is not modelled.
- `Layout.PlacesExactly`, `Linking.FinishesExactly`: say when a stream is refused, not which of several errors is reported.
- `ElfReader.RoundTrip`: names are their UTF-8 bytes; asks for fewer than 0xff00 sections, sizes and offsets within their fields and names without a NUL, and does not recover a function mark on an undefined symbol, which the writer drops.
- `Marshal.ArgumentsArrive`: memory is made of whole words, a pointer argument must not point into the area the call fills, and the far-offset forms of frame accesses are covered in `A64Arith` only.
- `Epilogue.CallPreserves`: stops before the return instruction itself; asks that the body leave the frame record and the saved words alone, which writing to local slots and outgoing words does by `Epilogue.SavedApart`.
- `Copies.StreamExactly`: asks that the deleted copies have an encoding, as one memory operand at most; every other instruction is an arbitrary effect.
- `Copies.RestoresExactly`: memory operands are full words; sub-word copies are not modelled.
- `Packing.PackWords` and the other runtime calls: allocation always succeeds, and the abort hooks become a refused result.
- `Lists.List.Push`: an element is read through its bytes, values are little-endian words of at most eight bytes, and dropping elements is not modelled.
- `Study.StudyStorage.AppendText`: a text is a value, so a null text pointer cannot be passed; allocation always succeeds; what a storage holds after an abort is not said.
- `Study.Compare`: asks that every text fit the narrow list, since the packed words abort seven bytes later.
- `Literals.PrintRoundTrip`: covers integer spellings; a float spelling is recognised and its value left open.
- `Packing.BuildString`: starts from an empty builder; a builder whose public fields were forged is covered by the refusals of `Packing.PackWords`.
- `Partition.EmittedByExactlyOne`: asks that test functions have names of their own; `main` is owned by the entry module, which must be one of the package's files to be emitted.
- Separate files `sema.rs`, `opt`, the parser and the driver are not part of this model.
