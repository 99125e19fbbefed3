/** The copies both back ends call undoable, and for which of them the mirror
    really restores the machine. */
module Copies {
  import opened Types
  import opened Words
  import opened Items
  import opened Peephole

  /** A 64-bit register, the 32-bit name of one, or the eight bytes at a register
      plus a displacement. */
  datatype Operand = Wide(r: nat) | Narrow(r: nat) | Slot(base: nat, disp: int)

  /** Copies, and every other instruction by its encoding. */
  datatype Inst = Mov(dst: Operand, src: Operand) | Other(code: nat)

  type Registers = s: seq<Word> | |s| == 32 witness seq(32, _ => 0)

  /** Every address holds a word; zeroes are not written down, so equal memories are
      equal maps. */
  type Memory = m: map<Word, Word> | forall w :: w in m ==> m[w] != 0

  function LoadFrom(m: Memory, at: Word): Word {
    if at in m then m[at] else 0
  }

  function StoreTo(m: Memory, at: Word, w: Word): Memory {
    if w == 0 then map x | x in m && x != at :: m[x] else m[at := w]
  }

  lemma StoredLoads(m: Memory, at: Word, w: Word, other: Word)
    ensures LoadFrom(StoreTo(m, at, w), other) == if other == at then w else LoadFrom(m, other)
  {
  }

  lemma StoreBack(m: Memory, at: Word)
    ensures StoreTo(m, at, LoadFrom(m, at)) == m
  {
  }

  datatype State = State(regs: Registers, mem: Memory)

  function Undo(i: Inst): Option<Inst> {
    match i
    case Mov(dst, src) => Some(Mov(src, dst))
    case Other(_) => None
  }

  predicate Exists(o: Operand) {
    match o
    case Wide(r) => r < 32
    case Narrow(r) => r < 32
    case Slot(b, _) => b < 32
  }

  /** The pairs of operands a copy has an encoding for. */
  predicate Encodable(dst: Operand, src: Operand) {
    && Exists(dst) && Exists(src)
    && match (dst, src)
       case (Wide(_), Wide(_)) => true
       case (Narrow(_), Narrow(_)) => true
       case (Wide(_), Slot(_, _)) => true
       case (Slot(_, _), Wide(_)) => true
       case _ => false
  }

  function Read(s: State, o: Operand): Word
    requires Exists(o)
  {
    match o
    case Wide(r) => s.regs[r]
    case Narrow(r) => s.regs[r] % 0x1_0000_0000
    case Slot(b, disp) => LoadFrom(s.mem, Wrap(s.regs[b] + disp))
  }

  /** Writing the 32-bit name clears the upper half. */
  function Write(s: State, o: Operand, w: Word): State
    requires Exists(o)
  {
    match o
    case Wide(r) => s.(regs := s.regs[r := w])
    case Narrow(r) => s.(regs := s.regs[r := w % 0x1_0000_0000])
    case Slot(b, disp) => s.(mem := StoreTo(s.mem, Wrap(s.regs[b] + disp), w))
  }

  function Copy(dst: Operand, src: Operand, s: State): State
    requires Encodable(dst, src)
  {
    Write(s, dst, Read(s, src))
  }

  /** When copying back leaves every state alone: not for two different registers by
      their 32-bit names, whose upper half the mirror clears, and not for a load
      that overwrites its own base. */
  predicate Mirrors(dst: Operand, src: Operand) {
    match (dst, src)
    case (Narrow(d), Narrow(s)) => d == s
    case (Wide(d), Slot(b, _)) => b != d
    case _ => true
  }

  ghost predicate CopyRestores(dst: Operand, src: Operand)
    requires Encodable(dst, src)
  {
    forall s: State :: Copy(src, dst, Copy(dst, src, s)) == Copy(dst, src, s)
  }

  lemma MirrorsRestore(dst: Operand, src: Operand, s: State)
    requires Encodable(dst, src) && Mirrors(dst, src)
    ensures Copy(src, dst, Copy(dst, src, s)) == Copy(dst, src, s)
  {
    match (dst, src)
    case (Slot(b, disp), Wide(r)) => StoreLoad(b, disp, r, s);
    case (Wide(r), Slot(b, disp)) => LoadStore(b, disp, r, s);
    case (Narrow(d), Narrow(r)) => MoveBack(dst, src, s);
    case (Wide(d), Wide(r)) => MoveBack(dst, src, s);
    case _ =>
  }

  lemma StoreLoad(b: nat, disp: int, r: nat, s: State)
    requires b < 32 && r < 32
    ensures var t := Copy(Slot(b, disp), Wide(r), s); Copy(Wide(r), Slot(b, disp), t) == t
  {
    hide Wrap, StoreTo, LoadFrom;
    var t := Copy(Slot(b, disp), Wide(r), s);
    var at := Wrap(s.regs[b] + disp);
    StoredLoads(s.mem, at, s.regs[r], at);
    assert t.regs[r := s.regs[r]] == t.regs;
  }

  lemma LoadStore(b: nat, disp: int, r: nat, s: State)
    requires b < 32 && r < 32 && b != r
    ensures var t := Copy(Wide(r), Slot(b, disp), s); Copy(Slot(b, disp), Wide(r), t) == t
  {
    hide Wrap, StoreTo, LoadFrom;
    var t := Copy(Wide(r), Slot(b, disp), s);
    assert t.regs[b] == s.regs[b];
    StoreBack(s.mem, Wrap(s.regs[b] + disp));
  }

  lemma MoveBack(dst: Operand, src: Operand, s: State)
    requires Exists(dst) && Exists(src)
    requires (dst.Wide? && src.Wide?) || (dst.Narrow? && src == dst)
    ensures Encodable(dst, src)
    ensures Copy(src, dst, Copy(dst, src, s)) == Copy(dst, src, s)
  {
    var t := Copy(dst, src, s);
    assert t.regs[src.r := t.regs[src.r]] == t.regs;
  }

  /** The peephole is right about a copy exactly when it mirrors. */
  lemma RestoresExactly(dst: Operand, src: Operand)
    requires Encodable(dst, src)
    ensures CopyRestores(dst, src) <==> Mirrors(dst, src)
  {
    if Mirrors(dst, src) {
      forall s: State ensures Copy(src, dst, Copy(dst, src, s)) == Copy(dst, src, s) {
        MirrorsRestore(dst, src, s);
      }
    } else if dst.Narrow? {
      NarrowMirror(dst, src);
    } else {
      LoadMirror(dst, src);
    }
  }

  /** `mov w1, w2` then `mov w2, w1` clears the upper half of `x2`. */
  lemma NarrowMirror(dst: Operand, src: Operand)
    requires Encodable(dst, src) && dst.Narrow? && src.Narrow? && dst.r != src.r
    ensures !CopyRestores(dst, src)
  {
    var s := State(seq(32, _ => -1), map[]);
    var t := Copy(dst, src, s);
    assert t.regs[src.r] == -1;
    assert Copy(src, dst, t).regs[src.r] != -1;
  }

  /** `mov rax, [rax]` then `mov [rax], rax` writes somewhere else. */
  lemma LoadMirror(dst: Operand, src: Operand)
    requires Encodable(dst, src) && dst.Wide? && src.Slot? && src.base == dst.r
    ensures !CopyRestores(dst, src)
  {
    var at, next := Wrap(src.disp), Wrap(1 + src.disp);
    WrapSuccessor(src.disp);
    var regs: Registers := seq(32, _ => 0);
    var s := State(regs, map[at := 1]);
    var t := Copy(dst, src, s);
    hide Wrap, StoreTo;
    assert regs[src.base] == 0;
    assert t.regs[dst.r] == 1 && t.mem == s.mem;
    StoredLoads(t.mem, next, 1, next);
    assert LoadFrom(t.mem, next) == 0;
  }

  lemma WrapSuccessor(x: int)
    ensures Wrap(1 + x) != Wrap(x)
  {
    if Wrap(1 + x) == Wrap(x) { SameWrap(1 + x, x); }
  }

  // ----- as a machine for the peephole -------------------------------------------------------

  /** What the instructions that are not copies do is left open, one by one. */
  type Others = (nat, State) -> Outcome<State>

  function Step(other: Others, i: Inst, s: State): Outcome<State> {
    match i
    case Mov(dst, src) => if Encodable(dst, src) then Next(Copy(dst, src, s)) else Done(s)
    case Other(code) => other(code, s)
  }

  function Processor(other: Others): Machine<Inst, State> {
    (i, s) => Step(other, i, s)
  }

  /** The copies that lost their mirrors have an encoding. */
  ghost predicate PairsEncodable(items: seq<Item<Inst>>) {
    forall k: nat :: Deleted(Undo, items, k) ==> items[k].inst.Mov? && Encodable(items[k].inst.src, items[k].inst.dst)
  }

  /** Every deleted item mirrored a copy that restores. */
  ghost predicate PairsMirror(items: seq<Item<Inst>>) {
    forall k: nat :: Deleted(Undo, items, k) ==> items[k].inst.Mov? && Mirrors(items[k].inst.src, items[k].inst.dst)
  }

  /** The deleted mirror has the operands of its copy, the other way round. */
  lemma MirrorOf(items: seq<Item<Inst>>, k: nat)
    requires Deleted(Undo, items, k)
    ensures items[k].inst.Mov? && CopyOf(Undo, items, k) == Mov(items[k].inst.src, items[k].inst.dst)
  {
    DeletedMeans(Undo, items, k);
    hide Kept, LastReal, Deleted;
  }

  lemma PairExact(other: Others, items: seq<Item<Inst>>, k: nat)
    requires Deleted(Undo, items, k) && PairsEncodable(items)
    ensures var i := items[k].inst;
      Restores(Processor(other), CopyOf(Undo, items, k), i) <==> Mirrors(i.src, i.dst)
  {
    MirrorOf(items, k);
    var dst, src := items[k].inst.src, items[k].inst.dst;
    RestoresExactly(dst, src);
    hide Kept, Deleted, CopyOf, Copy, Mirrors;
    assert CopyRestores(dst, src) <==> Restores(Processor(other), Mov(dst, src), Mov(src, dst)) by {
      RestoresIsCopyRestores(other, dst, src);
    }
  }

  lemma RestoresIsCopyRestores(other: Others, dst: Operand, src: Operand)
    requires Encodable(dst, src)
    ensures CopyRestores(dst, src) <==> Restores(Processor(other), Mov(dst, src), Mov(src, dst))
  {
    hide Copy;
    var m := Processor(other);
    forall s: State
      ensures m(Mov(dst, src), s) == Next(Copy(dst, src, s)) && m(Mov(src, dst), s) == Next(Copy(src, dst, s))
    {
    }
    if CopyRestores(dst, src) {
      forall s | m(Mov(dst, src), s).Next?
        ensures m(Mov(src, dst), m(Mov(dst, src), s).state) == Next(m(Mov(dst, src), s).state)
      {
        assert Copy(src, dst, Copy(dst, src, s)) == Copy(dst, src, s);
      }
    }
    if Restores(m, Mov(dst, src), Mov(src, dst)) {
      forall s: State ensures Copy(src, dst, Copy(dst, src, s)) == Copy(dst, src, s) {
        assert m(Mov(dst, src), s).Next?;
      }
    }
  }

  lemma PairsMirrorMeans(other: Others, items: seq<Item<Inst>>)
    requires PairsEncodable(items)
    ensures PairsMirror(items) <==> PairsRestore(Processor(other), Undo, items)
    ensures PairsFallThrough(Processor(other), Undo, items)
  {
    hide Kept, Restores, Mirrors, Copy;
    forall k: nat | Deleted(Undo, items, k)
      ensures items[k].inst.Mov?
      ensures Restores(Processor(other), CopyOf(Undo, items, k), items[k].inst) <==>
          Mirrors(items[k].inst.src, items[k].inst.dst)
    {
      MirrorOf(items, k);
      PairExact(other, items, k);
    }
    forall k: nat, s: State | Deleted(Undo, items, k)
      ensures Processor(other)(CopyOf(Undo, items, k), s).Next? && Processor(other)(items[k].inst, s).Next?
    {
      MirrorOf(items, k);
    }
  }

  /** With the `undo` both back ends have, a stream runs the same after the peephole
      when every copy whose mirror was deleted restores, whatever its other copies and
      instructions are. */
  lemma MirroredCopiesPreserveRuns(other: Others, items: seq<Item<Inst>>, k: nat, s: State, end: Config<State>)
    requires PairsEncodable(items) && PairsMirror(items)
    requires k == 0 || (k < |items| && (items[k].Label? || items[k].Numeric?))
    ensures Ends(Processor(other), items, Running(k, s), end)
       <==> Ends(Processor(other), Kept(Undo, items), Running(Pos(Undo, items, k), s), end)
  {
    PairsMirrorMeans(other, items);
    PeepholePreservesRuns(Processor(other), Undo, items, k, s, end);
  }

  /** And it stays in step with the original exactly then. */
  lemma StreamExactly(other: Others, items: seq<Item<Inst>>)
    requires PairsEncodable(items)
    ensures Lockstep(Processor(other), Undo, items) <==> PairsMirror(items)
  {
    PairsMirrorMeans(other, items);
    PeepholeExactly(Processor(other), Undo, items);
  }

  /** Of two instructions with only a location between them the second is dropped exactly
      when both are copies and it moves the same operands back, registers and frame slots
      alike; a label between them keeps it. */
  lemma PairDropped(a: Inst, b: Inst, at: Item<Inst>, name: Items.Name)
    requires at.IsLocation()
    ensures var back := a.Mov? && b.Mov? && b.dst == a.src && b.src == a.dst;
      && Kept(Undo, [Item.Instruction(a), at, Item.Instruction(b)])
           == [Item.Instruction(a), at] + (if back then [] else [Item.Instruction(b)])
      && Kept(Undo, [Item.Instruction(a), Item.Label(name), Item.Instruction(b)])
           == [Item.Instruction(a), Item.Label(name), Item.Instruction(b)]
  {
    KeptThree(Item.Instruction(a), at, Item.Instruction(b));
    KeptThree(Item.Instruction(a), Item.Label(name), Item.Instruction(b));
  }

  lemma KeptThree(x: Item<Inst>, y: Item<Inst>, z: Item<Inst>)
    requires x.Instruction? && !y.Instruction?
    ensures Kept(Undo, [x, y, z]) == [x, y] + (if Undone(Undo, [x, y], z) then [] else [z])
    ensures LastReal([x, y]) == if y.IsLocation() then Some(x) else Some(y)
  {
    assert [x, y, z][..2] == [x, y] && [x, y][..1] == [x] && [x][..0] == [];
    assert Kept(Undo, [x]) == [x];
    assert Kept(Undo, [x, y]) == [x, y];
  }

  function NarrowPair(): seq<Item<Inst>> {
    [Item.Instruction(Mov(Narrow(1), Narrow(2))), Item.Instruction(Mov(Narrow(2), Narrow(1)))]
  }

  /** A run of the stream that ends somewhere the rewritten stream does not. */
  ghost predicate Changes(other: Others, items: seq<Item<Inst>>, s: State, end: Config<State>) {
    Ends(Processor(other), items, Running(0, s), end) && !Ends(Processor(other), Kept(Undo, items), Running(0, s), end)
  }

  /** `mov w1, w2` followed by `mov w2, w1` is a stream whose run the peephole changes:
      the deleted mirror would have cleared the upper half of `x2`. */
  lemma NarrowPairChanges(other: Others)
    ensures exists s, end :: Changes(other, NarrowPair(), s, end)
  {
    var copy := Mov(Narrow(1), Narrow(2));
    var s := State(seq(32, _ => -1), map[]);
    var t := Copy(Narrow(1), Narrow(2), s);
    assert t.regs[2] == -1;
    assert Copy(Narrow(2), Narrow(1), t).regs[2] != -1;
    assert Undo(copy) == Some(Mov(Narrow(2), Narrow(1)));
    assert NarrowPair() == [Item.Instruction(copy), Item.Instruction(Undo(copy).value)];
    StepsToChange(other, copy, s);
  }

  lemma StepsToChange(other: Others, copy: Inst, s: State)
    requires Undo(copy).Some? && Processor(other)(copy, s).Next?
    requires var t, mirror := Processor(other)(copy, s).state, Undo(copy).value;
      Processor(other)(mirror, t).Next? && Processor(other)(mirror, t).state != t
    ensures exists end :: Changes(other, [Item.Instruction(copy), Item.Instruction(Undo(copy).value)], s, end)
  {
    hide *;
    OnlySoundUndo(Processor(other), Undo, copy, s);
    var items := [Item.Instruction(copy), Item.Instruction(Undo(copy).value)];
    var end :|
      && Ends(Processor(other), items, Running(0, s), end)
      && !Ends(Processor(other), Kept(Undo, items), Running(0, s), end);
    Changed(other, items, s, end);
  }

  lemma Changed(other: Others, items: seq<Item<Inst>>, s: State, end: Config<State>)
    requires Ends(Processor(other), items, Running(0, s), end)
    requires !Ends(Processor(other), Kept(Undo, items), Running(0, s), end)
    ensures Changes(other, items, s, end)
  {
  }
}
