/** Integer operators on AArch64: operands in registers or frame slots, the
    instructions the generator emits for them, and the proof that they compute
    what the operators mean, except `%` when its dividend was loaded from a slot. */
module A64Arith {
  import opened Types
  import M = Mir
  import opened RegAlloc
  import opened Words
  import opened IntSpec
  import C = Code

  type LocalId = M.LocalId

  // ----- the machine --------------------------------------------------------

  /** The generator's three scratch registers, the stack pointer, and the
      registers that locals are allocated to. */
  datatype Reg = X15 | X16 | X17 | Sp | Local(index: nat)

  datatype Cond = Vs | Hs | Lo | Hi | Ls | Eq | Ne | Lt | Gt | Le | Ge

  datatype ArithOp =
    | AddOp | Adds | Subs | MulOp | Smulh | Umulh | Sdiv | Udiv
    | AndOp | Orr | Eor | Lslv | Asrv | Lsrv

  datatype ExtendOp = Sxtb | Sxth | Uxtb | Uxth

  datatype Target = Trampoline(trap: Trap) | Forward

  datatype Inst =
    | Mov(dst: Reg, src: Reg)
    | MovW16
    | SxtwX16
    | ExtendX16(extend: ExtendOp)
    | Half(keep: bool, dst: Reg, half: nat, shift: nat)
    | Arith(op: ArithOp, dst: Reg, lhs: Reg, rhs: Reg)
    | AddImm(dst: Reg, src: Reg, imm: nat)
    | Msub(dst: Reg, lhs: Reg, rhs: Reg, addend: Reg)
    | Cmp(lhs: Reg, rhs: Reg)
    | CmpShifted(lhs: Reg, rhs: Reg, amount: nat)
    | CmnImm(lhs: Reg, imm: nat)
    | Cset(dst: Reg, cond: Cond)
    | Load(dst: Reg, base: Reg, offset: nat)
    | Store(src: Reg, base: Reg, offset: nat)
    | Bcond(cond: Cond, target: Target)
    | Cbz(lhs: Reg, trap: Trap)
    | Cbnz(lhs: Reg, trap: Trap)
    | Label
  {
    predicate Branches() {
      Bcond? || Cbz? || Cbnz?
    }
  }

  datatype Flags = Flags(n: bool, z: bool, c: bool, v: bool)

  datatype State = State(
    x15: Word, x16: Word, x17: Word, sp: Word,
    regs: map<nat, Word>,
    mem: map<Word, Word>,
    flags: Flags)

  type Result = C.Result<State>

  function Get(s: State, r: Reg): Word {
    match r
    case X15 => s.x15
    case X16 => s.x16
    case X17 => s.x17
    case Sp => s.sp
    case Local(i) => if i in s.regs then s.regs[i] else 0
  }

  function Set(s: State, r: Reg, w: Word): State {
    match r
    case X15 => s.(x15 := w)
    case X16 => s.(x16 := w)
    case X17 => s.(x17 := w)
    case Sp => s.(sp := w)
    case Local(i) => s.(regs := s.regs[i := w])
  }

  function MemAt(s: State, at: Word): Word {
    if at in s.mem then s.mem[at] else 0
  }

  function Holds(c: Cond, f: Flags): bool {
    match c
    case Vs => f.v
    case Hs => f.c
    case Lo => !f.c
    case Hi => f.c && !f.z
    case Ls => !f.c || f.z
    case Eq => f.z
    case Ne => !f.z
    case Lt => f.n != f.v
    case Ge => f.n == f.v
    case Gt => !f.z && f.n == f.v
    case Le => f.z || f.n != f.v
  }

  function AddFlags(a: Word, b: Word): Flags {
    Flags(Wrap(a + b) < 0, Wrap(a + b) == 0, Unsigned(a) + Unsigned(b) >= TWO64, !Fits(a + b))
  }

  /** The carry of a subtraction says that nothing was borrowed. */
  function SubFlags(a: Word, b: Word): Flags {
    Flags(Wrap(a - b) < 0, Wrap(a - b) == 0, Unsigned(a) >= Unsigned(b), !Fits(a - b))
  }

  /** The divides answer for every operand: zero for a zero divisor, and the
      wrapped quotient for the one that has no word. */
  function ArithResult(op: ArithOp, a: Word, b: Word): Word {
    match op
    case AddOp => Wrap(a + b)
    case Adds => Wrap(a + b)
    case Subs => Wrap(a - b)
    case MulOp => Wrap(a * b)
    case Smulh => Wrap((a * b) / TWO64)
    case Umulh => Wrap((Unsigned(a) * Unsigned(b)) / TWO64)
    case Sdiv => if b == 0 then 0 else Wrap(TruncDiv(a, b))
    case Udiv => if b == 0 then 0 else Wrap(TruncDiv(Unsigned(a), Unsigned(b)))
    case AndOp => Bitwise(And, a, b)
    case Orr => Bitwise(Or, a, b)
    case Eor => Bitwise(Xor, a, b)
    // The variable shifts reduce their count modulo the width.
    case Lslv => ShiftLeft(a, Unsigned(b) % 64)
    case Asrv => ArithmeticRight(a, Unsigned(b) % 64)
    case Lsrv => LogicalRight(a, Unsigned(b) % 64)
  }

  function ArithFlags(op: ArithOp, a: Word, b: Word, f: Flags): Flags {
    match op
    case Adds => AddFlags(a, b)
    case Subs => SubFlags(a, b)
    case _ => f
  }

  function Extended(op: ExtendOp, w: Word): Word {
    match op
    case Sxtb => Centered(w, 0x100)
    case Sxth => Centered(w, 0x1_0000)
    case Uxtb => w % 0x100
    case Uxth => w % 0x1_0000
  }

  /** A word with one 16-bit field replaced. */
  function WithHalf(u: nat, half: nat, shift: nat): Word {
    Wrap(u - u / Pow2(shift) % 0x1_0000 * Pow2(shift) + half * Pow2(shift))
  }

  function Effect(i: Inst, s: State): State {
    match i
    case Mov(dst, src) => Set(s, dst, Get(s, src))
    // Writing a 32-bit register clears the upper half.
    case MovW16 => s.(x16 := s.x16 % 0x1_0000_0000)
    case SxtwX16 => s.(x16 := Centered(s.x16, 0x1_0000_0000))
    case ExtendX16(op) => s.(x16 := Extended(op, s.x16))
    case Half(keep, dst, half, shift) =>
      Set(s, dst, WithHalf(if keep then Unsigned(Get(s, dst)) else 0, half, shift))
    case Arith(op, dst, lhs, rhs) =>
      var a, b := Get(s, lhs), Get(s, rhs);
      Set(s.(flags := ArithFlags(op, a, b, s.flags)), dst, ArithResult(op, a, b))
    case AddImm(dst, src, imm) => Set(s, dst, Wrap(Get(s, src) + imm))
    case Msub(dst, lhs, rhs, addend) => Set(s, dst, Wrap(Get(s, addend) - Get(s, lhs) * Get(s, rhs)))
    case Cmp(lhs, rhs) => s.(flags := SubFlags(Get(s, lhs), Get(s, rhs)))
    case CmpShifted(lhs, rhs, amount) =>
      s.(flags := SubFlags(Get(s, lhs), ArithmeticRight(Get(s, rhs), amount)))
    case CmnImm(lhs, imm) => s.(flags := AddFlags(Get(s, lhs), Wrap(imm)))
    case Cset(dst, cond) => Set(s, dst, if Holds(cond, s.flags) then 1 else 0)
    case Load(dst, base, offset) => Set(s, dst, MemAt(s, Wrap(Get(s, base) + offset)))
    case Store(src, base, offset) => s.(mem := s.mem[Wrap(Get(s, base) + offset) := Get(s, src)])
    case Bcond(_, _) => s
    case Cbz(_, _) => s
    case Cbnz(_, _) => s
    case Label => s
  }

  function Leaves(i: Inst, s: State): Option<Trap> {
    match i
    case Bcond(cond, Trampoline(trap)) => if Holds(cond, s.flags) then Some(trap) else None
    case Cbz(r, trap) => if Get(s, r) == 0 then Some(trap) else None
    case Cbnz(r, trap) => if Get(s, r) != 0 then Some(trap) else None
    case _ => None
  }

  function Step(i: Inst, s: State): C.Step<State> {
    match Leaves(i, s)
    case Some(trap) => C.Stop(trap)
    case None => C.Next(Effect(i, s))
  }

  const MACHINE: C.Machine<Inst, State> := C.Machine(
    (i, s) => Step(i, s),
    (i: Inst) => i.Bcond? && i.target.Forward?,
    (i: Inst, s: State) => i.Bcond? && Holds(i.cond, s.flags),
    i => i == Label)

  function Exec(code: seq<Inst>, pc: nat, s: State): Result {
    C.Exec(MACHINE, code, pc, s)
  }

  ghost predicate Closed(code: seq<Inst>) {
    C.Closed(MACHINE, code)
  }

  function AfterLabel(code: seq<Inst>, pc: nat): nat {
    C.AfterLabel(MACHINE, code, pc)
  }

  predicate NoForward(code: seq<Inst>) {
    forall i :: 0 <= i < |code| && code[i].Bcond? ==> code[i].target.Trampoline?
  }

  lemma NoForwardClosed(code: seq<Inst>)
    requires NoForward(code)
    ensures Closed(code)
  {
  }

  lemma ExecConcat(a: seq<Inst>, b: seq<Inst>, s: State)
    requires Closed(a)
    ensures Exec(a + b, 0, s) == match Exec(a, 0, s) { case Ended(t) => Exec(b, 0, t) case r => r }
  {
    C.ExecConcat(MACHINE, a, b, 0, s);
  }

  lemma ClosedConcat(a: seq<Inst>, b: seq<Inst>)
    requires Closed(a) && Closed(b)
    ensures Closed(a + b)
  {
    C.ClosedConcat(MACHINE, a, b);
  }

  lemma ExecStep(code: seq<Inst>, pc: nat, s: State)
    requires pc < |code| && !code[pc].Branches()
    ensures Exec(code, pc, s) == Exec(code, pc + 1, Effect(code[pc], s))
  {
    hide Effect;
  }

  lemma ExecJump(code: seq<Inst>, pc: nat, s: State)
    requires pc < |code| && code[pc].Branches()
    ensures Exec(code, pc, s) ==
      if Leaves(code[pc], s).Some? then C.Stopped(Leaves(code[pc], s).value)
      else if code[pc].Bcond? && Holds(code[pc].cond, s.flags) then Exec(code, AfterLabel(code, pc + 1), s)
      else Exec(code, pc + 1, s)
  {
    hide Holds;
  }

  lemma LabelSearch(code: seq<Inst>, pc: nat)
    requires pc < |code|
    ensures AfterLabel(code, pc) == if code[pc] == Label then pc else AfterLabel(code, pc + 1)
  {
  }

  lemma ClosedMeans(code: seq<Inst>)
    requires forall i :: 0 <= i < |code| && code[i].Bcond? && code[i].target.Forward? ==>
        AfterLabel(code, i + 1) < |code|
    ensures Closed(code)
  {
  }

  lemma ExecEnd(code: seq<Inst>, s: State)
    ensures Exec(code, |code|, s) == C.Ended(s)
  {
  }

  /** Code made of one plain instruction. */
  lemma RunSingle(i: Inst, s: State)
    requires !i.Branches()
    ensures Closed([i]) && Exec([i], 0, s) == C.Ended(Effect(i, s))
  {
    NoForwardClosed([i]);
    hide Effect, Exec, Closed;
    ExecStep([i], 0, s);
    ExecEnd([i], Effect(i, s));
  }

  /** A trap test that either leaves or changes nothing. */
  lemma RunTest(i: Inst, s: State)
    requires i.Branches() && !(i.Bcond? && i.target.Forward?)
    ensures Closed([i])
    ensures Exec([i], 0, s) ==
      match Leaves(i, s) { case Some(trap) => C.Stopped(trap) case None => C.Ended(s) }
  {
    NoForwardClosed([i]);
    hide Exec, Closed;
    ExecJump([i], 0, s);
    ExecEnd([i], s);
  }

  // ----- constants ------------------------------------------------------------

  function HalfAt(bits: nat, index: nat): nat {
    bits / Pow2(16 * index) % 0x1_0000
  }

  /** The halfwords of a constant from `index` on, zero ones skipped. */
  function MaterializeFrom(target: Reg, bits: nat, index: nat, written: bool): seq<Inst>
    decreases 4 - index
  {
    if index >= 4 then if written then [] else [Half(false, target, 0, 0)]
    else if HalfAt(bits, index) == 0 then MaterializeFrom(target, bits, index + 1, written)
    else [Half(written, target, HalfAt(bits, index), 16 * index)] + MaterializeFrom(target, bits, index + 1, true)
  }

  function Materialize(target: Reg, bits: nat): seq<Inst> {
    MaterializeFrom(target, bits, 0, false)
  }

  lemma SplitField(bits: nat, p: nat, k: nat)
    requires p >= 1 && k >= 1
    ensures bits % (p * k) == bits % p + bits / p % k * p
    ensures (bits % p) / p == 0
  {
    var q, r := bits / p, bits % p;
    var q2, r2 := q / k, q % k;
    assert bits == q * p + r && q == q2 * k + r2;
    assert q * p == q2 * (p * k) + r2 * p;
    assert r2 * p <= (k - 1) * p;
    assert (k - 1) * p == p * k - p;
    ModUnique(bits, p * k, q2, r2 * p + r);
    ModUnique(r, p, 0, r);
  }

  lemma NextHalf(bits: nat, index: nat)
    requires index < 4
    ensures bits % Pow2(16 * (index + 1)) == bits % Pow2(16 * index) + HalfAt(bits, index) * Pow2(16 * index)
    ensures 0 <= bits % Pow2(16 * index) < TWO64
    ensures (bits % Pow2(16 * index)) / Pow2(16 * index) == 0
  {
    Pow2Values();
    Pow2Add(16 * index, 16);
    SplitField(bits, Pow2(16 * index), 0x1_0000);
    Pow2Monotone(16 * index, 64);
    hide Pow2;
  }

  /** Before halfword `index` the register holds the bits below it. */
  ghost predicate HalvesBelow(s: State, target: Reg, bits: nat, index: nat, written: bool) {
    var low := bits % Pow2(16 * index);
    if written then Get(s, target) == Wrap(low) && (target.Local? ==> target.index in s.regs) else low == 0
  }

  lemma UnsignedWrap(u: nat)
    requires u < TWO64
    ensures Unsigned(Wrap(u)) == u
  {
    WrapNear(u);
    UnsignedIs(Wrap(u));
  }

  lemma InsertHalf(low: nat, half: nat, shift: nat)
    requires low < TWO64 && low / Pow2(shift) == 0
    ensures WithHalf(low, half, shift) == Wrap(low + half * Pow2(shift))
  {
    var p := Pow2(shift);
    assert 0 % 0x1_0000 * p == 0;
    hide Wrap, Pow2;
  }

  lemma HalfStep(s: State, target: Reg, bits: nat, index: nat, written: bool)
    requires index < 4 && HalvesBelow(s, target, bits, index, written)
    ensures var t := Effect(Half(written, target, HalfAt(bits, index), 16 * index), s);
      (forall w: Word :: Set(t, target, w) == Set(s, target, w)) && HalvesBelow(t, target, bits, index + 1, true)
  {
    var low := bits % Pow2(16 * index);
    NextHalf(bits, index);
    UnsignedWrap(low);
    InsertHalf(low, HalfAt(bits, index), 16 * index);
    HalfEffect(s, target, HalfAt(bits, index), 16 * index, written, low);
    hide Effect, Wrap, Pow2, HalfAt, Unsigned, WithHalf;
  }

  lemma HalfEffect(s: State, target: Reg, half: nat, shift: nat, written: bool, low: nat)
    requires low == if written then Unsigned(Get(s, target)) else 0
    ensures Effect(Half(written, target, half, shift), s) == Set(s, target, WithHalf(low, half, shift))
  {
    hide WithHalf, Unsigned;
  }

  lemma ZeroHalf(target: Reg, s: State)
    ensures Effect(Half(false, target, 0, 0), s) == Set(s, target, 0)
  {
  }

  lemma AllHalves(target: Reg, bits: nat, written: bool, s: State)
    requires bits < TWO64 && HalvesBelow(s, target, bits, 4, written)
    ensures if written then s == Set(s, target, Wrap(bits)) else bits == 0
  {
    Pow2Values();
    ModUnique(bits, TWO64, 0, bits);
    hide Wrap, Pow2;
  }

  lemma MaterializeEnd(target: Reg, bits: nat, written: bool, s: State)
    requires bits < TWO64 && HalvesBelow(s, target, bits, 4, written)
    ensures Closed(MaterializeFrom(target, bits, 4, written))
    ensures Exec(MaterializeFrom(target, bits, 4, written), 0, s) == C.Ended(Set(s, target, Wrap(bits)))
  {
    AllHalves(target, bits, written, s);
    WrapFits(0);
    hide Wrap, Exec, Closed, Effect, HalvesBelow;
    if written {
      NoForwardClosed([]);
      ExecEnd([], s);
    } else {
      ZeroHalf(target, s);
      RunSingle(Half(false, target, 0, 0), s);
    }
  }

  lemma {:induction false} MaterializeFromCorrect(target: Reg, bits: nat, index: nat, written: bool, s: State)
    requires index <= 4 && bits < TWO64 && HalvesBelow(s, target, bits, index, written)
    ensures Closed(MaterializeFrom(target, bits, index, written))
    ensures Exec(MaterializeFrom(target, bits, index, written), 0, s) == C.Ended(Set(s, target, Wrap(bits)))
    decreases 4 - index
  {
    hide Effect, Exec, Closed, HalvesBelow, HalfAt, Wrap;
    var half := HalfAt(bits, index);
    if index == 4 {
      MaterializeEnd(target, bits, written, s);
    } else if half == 0 {
      SkipHalf(s, target, bits, index, written);
      MaterializeFromCorrect(target, bits, index + 1, written, s);
    } else {
      var i := Half(written, target, half, 16 * index);
      var t := Effect(i, s);
      HalfStep(s, target, bits, index, written);
      RunSingle(i, s);
      MaterializeFromCorrect(target, bits, index + 1, true, t);
      var rest := MaterializeFrom(target, bits, index + 1, true);
      ClosedConcat([i], rest);
      ExecConcat([i], rest, s);
    }
  }

  lemma SkipHalf(s: State, target: Reg, bits: nat, index: nat, written: bool)
    requires index < 4 && HalvesBelow(s, target, bits, index, written) && HalfAt(bits, index) == 0
    ensures HalvesBelow(s, target, bits, index + 1, written)
  {
    NextHalf(bits, index);
    hide Pow2, Wrap, HalfAt;
  }

  /** A constant is in its register, whichever halfwords were worth writing. */
  lemma MaterializeCorrect(target: Reg, bits: nat, s: State)
    requires bits < TWO64
    ensures Closed(Materialize(target, bits))
    ensures Exec(Materialize(target, bits), 0, s) == C.Ended(Set(s, target, Wrap(bits)))
  {
    assert bits % Pow2(0) == 0;
    hide Wrap, Exec, Closed;
    MaterializeFromCorrect(target, bits, 0, false, s);
  }

  // ----- frame slots ------------------------------------------------------------

  /** Where locals live, and how far above `sp` slot zero is. */
  datatype Frame = Frame(place: LocalId -> Location, slotBase: nat)

  function SlotOffset(f: Frame, slot: nat): nat {
    f.slotBase + slot * 8
  }

  function Address(s: State, offset: nat): Word {
    Wrap(s.sp + offset)
  }

  /** An offset is a machine word. */
  predicate Reaches(f: Frame, at: Location) {
    at.Memory? ==> SlotOffset(f, at.slot) < TWO64
  }

  function CellOf(f: Frame, s: State, at: Location): Word {
    match at
    case Register(i) => Get(s, Local(i))
    case Memory(slot) => MemAt(s, Address(s, SlotOffset(f, slot)))
  }

  function AddressOfSlot(target: Reg, offset: nat): seq<Inst> {
    if offset <= 4095 then [AddImm(target, Sp, offset)]
    else Materialize(target, offset) + [Arith(AddOp, target, Sp, target)]
  }

  function FrameLoad(target: Reg, offset: nat): seq<Inst> {
    if offset <= 32760 then [Load(target, Sp, offset)]
    else AddressOfSlot(target, offset) + [Load(target, target, 0)]
  }

  /** A far store borrows `x17` for the address. */
  function FrameStore(source: Reg, offset: nat): seq<Inst> {
    if offset <= 32760 then [Store(source, Sp, offset)]
    else AddressOfSlot(X17, offset) + [Store(source, X17, 0)]
  }

  function ReadCode(f: Frame, l: LocalId, scratch: Reg): seq<Inst> {
    match f.place(l)
    case Register(_) => []
    case Memory(slot) => FrameLoad(scratch, SlotOffset(f, slot))
  }

  function ReadReg(f: Frame, l: LocalId, scratch: Reg): Reg {
    match f.place(l)
    case Register(i) => Local(i)
    case Memory(_) => scratch
  }

  function WriteCode(f: Frame, l: LocalId, source: Reg): seq<Inst> {
    match f.place(l)
    case Register(i) => if Local(i) != source then [Mov(Local(i), source)] else []
    case Memory(slot) => FrameStore(source, SlotOffset(f, slot))
  }

  predicate Scratch(r: Reg) {
    r == X15 || r == X16 || r == X17
  }

  lemma SumWraps(sp: Word, offset: nat)
    ensures Wrap(sp + Wrap(offset)) == Wrap(sp + offset)
    ensures Wrap(Wrap(sp + offset) + 0) == Wrap(sp + offset)
  {
    var k := (offset - Wrap(offset)) / TWO64;
    WrapCongruent(sp + Wrap(offset), k);
    assert sp + offset == sp + Wrap(offset) + k * TWO64;
    hide Wrap;
    WrapFits(Wrap(sp + offset));
  }

  lemma AddressCorrect(target: Reg, offset: nat, s: State)
    requires Scratch(target) && offset < TWO64
    ensures Closed(AddressOfSlot(target, offset))
    ensures Exec(AddressOfSlot(target, offset), 0, s) == C.Ended(Set(s, target, Address(s, offset)))
  {
    hide Exec, Closed, Wrap, Materialize;
    if offset <= 4095 {
      RunSingle(AddImm(target, Sp, offset), s);
    } else {
      MaterializeCorrect(target, offset, s);
      SumWraps(s.sp, offset);
      var t := Set(s, target, Wrap(offset));
      var add := Arith(AddOp, target, Sp, target);
      RunSingle(add, t);
      AddEffect(target, t);
      ClosedConcat(Materialize(target, offset), [add]);
      ExecConcat(Materialize(target, offset), [add], s);
    }
  }

  lemma AddEffect(target: Reg, t: State)
    ensures Effect(Arith(AddOp, target, Sp, target), t) == Set(t, target, Wrap(t.sp + Get(t, target)))
  {
    hide Wrap;
  }

  lemma LoadCorrect(target: Reg, offset: nat, s: State)
    requires Scratch(target) && offset < TWO64
    ensures Closed(FrameLoad(target, offset))
    ensures Exec(FrameLoad(target, offset), 0, s) == C.Ended(Set(s, target, MemAt(s, Address(s, offset))))
  {
    hide Exec, Closed, Wrap, AddressOfSlot;
    if offset <= 32760 {
      RunSingle(Load(target, Sp, offset), s);
    } else {
      AddressCorrect(target, offset, s);
      SumWraps(s.sp, offset);
      var load := Load(target, target, 0);
      RunSingle(load, Set(s, target, Address(s, offset)));
      ClosedConcat(AddressOfSlot(target, offset), [load]);
      ExecConcat(AddressOfSlot(target, offset), [load], s);
    }
  }

  function AfterRead(f: Frame, l: LocalId, scratch: Reg, s: State): State {
    if f.place(l).Memory? then Set(s, scratch, CellOf(f, s, f.place(l))) else s
  }

  lemma ReadCorrect(f: Frame, l: LocalId, scratch: Reg, s: State)
    requires Scratch(scratch) && Reaches(f, f.place(l))
    ensures Closed(ReadCode(f, l, scratch))
    ensures Exec(ReadCode(f, l, scratch), 0, s) == C.Ended(AfterRead(f, l, scratch, s))
    ensures Get(AfterRead(f, l, scratch, s), ReadReg(f, l, scratch)) == CellOf(f, s, f.place(l))
  {
    hide Exec, Closed, Wrap, FrameLoad;
    match f.place(l)
    case Register(_) =>
      NoForwardClosed([]);
      ExecEnd([], s);
    case Memory(slot) =>
      LoadCorrect(scratch, SlotOffset(f, slot), s);
  }

  /** `t` is `s` with `w` in one location; scratch registers and flags may differ. */
  ghost predicate StoredAt(f: Frame, s: State, at: Location, w: Word, t: State) {
    && t.sp == s.sp
    && match at
       case Register(i) => t.regs == s.regs[i := w] && t.mem == s.mem
       case Memory(slot) => t.regs == s.regs && t.mem == s.mem[Address(s, SlotOffset(f, slot)) := w]
  }

  lemma WriteCorrect(f: Frame, l: LocalId, s: State)
    requires Reaches(f, f.place(l))
    ensures Closed(WriteCode(f, l, X16))
    ensures var r := Exec(WriteCode(f, l, X16), 0, s); r.Ended? && StoredAt(f, s, f.place(l), s.x16, r.state)
  {
    hide Exec, Closed, Wrap, AddressOfSlot;
    match f.place(l)
    case Register(i) =>
      RunSingle(Mov(Local(i), X16), s);
    case Memory(slot) =>
      var offset := SlotOffset(f, slot);
      if offset <= 32760 {
        RunSingle(Store(X16, Sp, offset), s);
      } else {
        AddressCorrect(X17, offset, s);
        SumWraps(s.sp, offset);
        var store := Store(X16, X17, 0);
        RunSingle(store, Set(s, X17, Address(s, offset)));
        ClosedConcat(AddressOfSlot(X17, offset), [store]);
        ExecConcat(AddressOfSlot(X17, offset), [store], s);
      }
  }

  /** Writing one location leaves every other one alone. */
  lemma OthersKept(f: Frame, s: State, at: Location, w: Word, t: State, other: Location)
    requires StoredAt(f, s, at, w, t) && Reaches(f, at) && Reaches(f, other)
    ensures CellOf(f, t, other) == if other == at then w else CellOf(f, s, other)
  {
    if at.Memory? && other.Memory? && at != other {
      var a, b := SlotOffset(f, at.slot), SlotOffset(f, other.slot);
      assert a != b;
      if Address(s, a) == Address(s, b) { SameWrap(s.sp + a, s.sp + b); }
    }
  }

  // ----- what the generator emits ---------------------------------------------

  function Canonicalizing(kind: IntKind): seq<Inst> {
    if kind.bits == 64 then []
    else if kind.bits == 32 then [if kind.signed then SxtwX16 else MovW16]
    else if kind.bits == 8 then [ExtendX16(if kind.signed then Sxtb else Uxtb)]
    else [ExtendX16(if kind.signed then Sxth else Uxth)]
  }

  function CanonicalizeChecked(kind: IntKind): seq<Inst> {
    if kind.IsFullWidth() then []
    else [Mov(X15, X16)] + (Canonicalizing(kind) + ([Cmp(X16, X15)] + [Bcond(Ne, Trampoline(Overflow))]))
  }

  function Carried(op: M.BinaryOp, kind: IntKind): Cond {
    if kind.signed then Vs else if op == M.Add then Hs else Lo
  }

  function IntegerCondition(op: M.BinaryOp, kind: IntKind): Cond
    requires op.Compares()
  {
    var unsigned := !kind.signed && kind.IsFullWidth();
    match op
    case Less => if unsigned then Lo else Lt
    case Greater => if unsigned then Hi else Gt
    case LessEqual => if unsigned then Ls else Le
    case GreaterEqual => if unsigned then Hs else Ge
    case Equal => Eq
    case _ => Ne
  }

  function AddSubCode(op: M.BinaryOp, kind: IntKind, l: Reg, r: Reg): seq<Inst> {
    [Arith(if op == M.Add then Adds else Subs, X16, l, r)]
      + if kind.IsFullWidth() then [Bcond(Carried(op, kind), Trampoline(Overflow))] else CanonicalizeChecked(kind)
  }

  function MulTest(kind: IntKind): seq<Inst> {
    if kind.signed then [CmpShifted(X15, X16, 63)] + [Bcond(Ne, Trampoline(Overflow))]
    else [Cbnz(X15, Overflow)]
  }

  function MulCode(kind: IntKind, l: Reg, r: Reg): seq<Inst> {
    if kind.IsFullWidth() then
      [Arith(if kind.signed then Smulh else Umulh, X15, l, r), Arith(MulOp, X16, l, r)] + MulTest(kind)
    else [Arith(MulOp, X16, l, r)] + CanonicalizeChecked(kind)
  }

  function Guard(kind: IntKind, l: Reg, r: Reg): seq<Inst> {
    if kind.IsFullWidth() && kind.signed then
      Materialize(X15, 0x8000_0000_0000_0000)
        + [Cmp(l, X15), Bcond(Ne, Forward), CmnImm(r, 1), Bcond(Eq, Trampoline(Overflow)), Label]
    else []
  }

  function DivideCode(op: M.BinaryOp, kind: IntKind, l: Reg, r: Reg): seq<Inst> {
    [Cbz(r, DivZero)]
      + (Guard(kind, l, r)
      + ([Arith(if kind.signed || !kind.IsFullWidth() then Sdiv else Udiv, X16, l, r)]
      + if op == M.Rem then [Msub(X16, X16, r, l)] else CanonicalizeChecked(kind)))
  }

  function BitArith(op: M.BinaryOp): ArithOp {
    match op
    case BitAnd => AndOp
    case BitOr => Orr
    case _ => Eor
  }

  /** The operation, once its operands are in registers; shifts read theirs apart. */
  function Core(op: M.BinaryOp, kind: IntKind, l: Reg, r: Reg): seq<Inst>
    requires op != M.Shl && op != M.Shr
  {
    if op.Compares() then [Cmp(l, r)] + [Cset(X16, IntegerCondition(op, kind))]
    else
      match op
      case Add => AddSubCode(op, kind, l, r)
      case Sub => AddSubCode(op, kind, l, r)
      case Mul => MulCode(kind, l, r)
      case Div => DivideCode(op, kind, l, r)
      case Rem => DivideCode(op, kind, l, r)
      case _ => [Arith(BitArith(op), X16, l, r)]
  }

  function CountCheck(kind: IntKind, r: Reg): seq<Inst>
    requires kind.Valid()
  {
    Materialize(X15, kind.bits) + CompareCount(r)
  }

  function CompareCount(r: Reg): seq<Inst> {
    [Cmp(r, X15)] + [Bcond(Hs, Trampoline(ShiftCount))]
  }

  function Variable(op: M.BinaryOp, kind: IntKind): ArithOp {
    if op == M.Shl then Lslv else if kind.signed then Asrv else Lsrv
  }

  function ShiftTail(op: M.BinaryOp, kind: IntKind, l: Reg, r: Reg): seq<Inst> {
    [Arith(Variable(op, kind), X16, l, r)] + if op == M.Shl then Canonicalizing(kind) else []
  }

  function IntegerBinary(f: Frame, dst: LocalId, op: M.BinaryOp, lhs: LocalId, rhs: LocalId, kind: IntKind): seq<Inst>
    requires kind.Valid()
  {
    var l, r := ReadReg(f, lhs, X16), ReadReg(f, rhs, X17);
    if op == M.Shl || op == M.Shr then
      ReadCode(f, rhs, X17) + (CountCheck(kind, r) + (ReadCode(f, lhs, X16) + ShiftTail(op, kind, l, r)))
        + WriteCode(f, dst, X16)
    else
      ReadCode(f, lhs, X16) + (ReadCode(f, rhs, X17) + Core(op, kind, l, r)) + WriteCode(f, dst, X16)
  }

  // ----- pieces of code -------------------------------------------------------

  /** Only scratch registers and flags differ. */
  predicate Same(s: State, t: State) {
    t.sp == s.sp && t.regs == s.regs && t.mem == s.mem
  }

  /** The code leaves the outcome in `x16`, or stops in its trampoline. */
  ghost predicate ComputesX16(code: seq<Inst>, s: State, outcome: Outcome) {
    && Closed(code)
    && match outcome
       case Traps(trap) => Exec(code, 0, s) == C.Stopped(trap)
       case Gives(w) =>
         Exec(code, 0, s).Ended? && Exec(code, 0, s).state.x16 == w && Same(s, Exec(code, 0, s).state)
  }

  /** One piece of code and then another: either the first stops, or it leaves the
      locals alone and the second finishes the job. */
  lemma RunTwo(a: seq<Inst>, b: seq<Inst>, s: State, outcome: Outcome)
    requires Closed(a) && Closed(b)
    requires var r := Exec(a, 0, s);
      || (outcome.Traps? && r == C.Stopped(outcome.trap))
      || (r.Ended? && Same(s, r.state) && ComputesX16(b, r.state, outcome))
    ensures ComputesX16(a + b, s, outcome)
  {
    hide Exec, Closed;
    ExecConcat(a, b, s);
    ClosedConcat(a, b);
  }

  /** One plain instruction in front of the rest. */
  lemma RunFirst(i: Inst, b: seq<Inst>, s: State, outcome: Outcome)
    requires !i.Branches() && Same(s, Effect(i, s)) && ComputesX16(b, Effect(i, s), outcome)
    ensures ComputesX16([i] + b, s, outcome)
  {
    hide Exec, Closed, Effect;
    RunSingle(i, s);
    assert Closed(b);
    RunTwo([i], b, s, outcome);
  }

  lemma RunLast(i: Inst, s: State, w: Word)
    requires !i.Branches() && Same(s, Effect(i, s)) && Effect(i, s).x16 == w
    ensures ComputesX16([i], s, Gives(w))
  {
    hide Exec, Closed, Effect;
    RunSingle(i, s);
  }

  lemma RunNothing(s: State)
    ensures ComputesX16([], s, Gives(s.x16))
  {
    NoForwardClosed([]);
    hide Exec, Closed;
    ExecEnd([], s);
  }

  /** A trap test at the end keeps what `x16` holds. */
  lemma RunCheck(i: Inst, s: State)
    requires i.Branches() && !(i.Bcond? && i.target.Forward?)
    ensures ComputesX16([i], s, match Leaves(i, s) { case Some(trap) => Traps(trap) case None => Gives(s.x16) })
  {
    hide Exec, Closed, Leaves;
    RunTest(i, s);
  }

  // ----- flags and conditions ------------------------------------------------

  lemma ComparisonFlags(a: Word, b: Word)
    ensures var f := SubFlags(a, b);
      && (f.z <==> a == b)
      && (Holds(Lt, f) <==> a < b) && (Holds(Gt, f) <==> a > b)
      && (Holds(Le, f) <==> a <= b) && (Holds(Ge, f) <==> a >= b)
      && (Holds(Lo, f) <==> Unsigned(a) < Unsigned(b)) && (Holds(Hi, f) <==> Unsigned(a) > Unsigned(b))
      && (Holds(Ls, f) <==> Unsigned(a) <= Unsigned(b)) && (Holds(Hs, f) <==> Unsigned(a) >= Unsigned(b))
  {
    WrapNear(a - b);
    UnsignedIs(a);
    UnsignedIs(b);
  }

  lemma IntegerConditionCorrect(op: M.BinaryOp, kind: IntKind, a: Word, b: Word)
    requires op.Compares() && kind.Valid()
    ensures Holds(IntegerCondition(op, kind), SubFlags(a, b)) <==> Compare(op, Value(kind, a), Value(kind, b))
  {
    ComparisonFlags(a, b);
    UnsignedIs(a);
    UnsignedIs(b);
  }

  function CombinedFlags(op: M.BinaryOp, a: Word, b: Word): Flags {
    if op == M.Add then AddFlags(a, b) else SubFlags(a, b)
  }

  /** The flag each full-width type reads is set exactly when the exact result is
      outside the type: a borrow clears the carry that an addition would set. */
  lemma CarriedMeansOverflow(op: M.BinaryOp, kind: IntKind, a: Word, b: Word)
    requires kind.Valid() && kind.IsFullWidth() && (op == M.Add || op == M.Sub)
    ensures Holds(Carried(op, kind), CombinedFlags(op, a, b))
       <==> !InRange(kind, Combined(op, Value(kind, a), Value(kind, b)))
  {
    hide Wrap;
    UnsignedIs(a);
    UnsignedIs(b);
  }

  // ----- canonical words --------------------------------------------------------

  lemma CanonicalizingCorrect(kind: IntKind, s: State)
    requires kind.Valid()
    ensures Closed(Canonicalizing(kind))
    ensures Exec(Canonicalizing(kind), 0, s) == C.Ended(s.(x16 := Canonicalize(kind, s.x16)))
  {
    hide Exec, Closed;
    if kind.bits == 64 {
      NoForwardClosed([]);
      ExecEnd([], s);
    } else {
      CanonicalizeMeaning(kind, s.x16);
      hide Canonicalize;
      RunSingle(Canonicalizing(kind)[0], s);
    }
  }

  lemma CheckedCorrect(kind: IntKind, s: State)
    requires kind.Valid() && !kind.IsFullWidth()
    ensures ComputesX16(CanonicalizeChecked(kind), s, if Canonical(kind, s.x16) then Gives(s.x16) else Traps(Overflow))
  {
    hide Exec, Closed, ComputesX16, Canonicalize, Canonical, SubFlags, Canonicalizing;
    var s1 := s.(x15 := s.x16);
    var s2 := s1.(x16 := Canonicalize(kind, s.x16));
    var outcome := if Canonical(kind, s.x16) then Gives(s.x16) else Traps(Overflow);
    CanonicalizeIsCanonical(kind, s.x16);
    var last := Bcond(Ne, Trampoline(Overflow));
    UnequalTraps(Cmp(X16, X15), s2.x16, s2.x15, s2);
    CanonicalizingCorrect(kind, s1);
    CheckedClosed(last);
    RunTwo(Canonicalizing(kind), [Cmp(X16, X15)] + [last], s1, outcome);
    RunFirst(Mov(X15, X16), Canonicalizing(kind) + ([Cmp(X16, X15)] + [last]), s, outcome);
  }

  /** A comparison and the trap for unequal words. */
  lemma UnequalTraps(i: Inst, a: Word, b: Word, t: State)
    requires !i.Branches() && Effect(i, t) == t.(flags := SubFlags(a, b))
    ensures ComputesX16([i] + [Bcond(Ne, Trampoline(Overflow))], t, if a == b then Gives(t.x16) else Traps(Overflow))
  {
    var last := Bcond(Ne, Trampoline(Overflow));
    var u := t.(flags := SubFlags(a, b));
    UnequalLeaves(a, b, u);
    SameScratch(t, t.x15, t.x16, u.flags);
    hide *;
    RunFirst(i, [last], t, if a == b then Gives(t.x16) else Traps(Overflow));
  }

  lemma UnequalLeaves(a: Word, b: Word, u: State)
    requires u.flags == SubFlags(a, b)
    ensures ComputesX16([Bcond(Ne, Trampoline(Overflow))], u, if a == b then Gives(u.x16) else Traps(Overflow))
  {
    ComparisonFlags(a, b);
    hide ComputesX16, SubFlags;
    RunCheck(Bcond(Ne, Trampoline(Overflow)), u);
  }

  lemma CheckedClosed(last: Inst)
    requires last == Bcond(Ne, Trampoline(Overflow))
    ensures Closed([Cmp(X16, X15)] + [last])
  {
    NoForwardClosed([Cmp(X16, X15)] + [last]);
    hide Closed;
  }

  lemma NarrowRange(kind: IntKind, v: int)
    requires kind.Valid() && !kind.IsFullWidth()
    requires Fits(v) || (!kind.signed && 0 <= v < TWO64)
    ensures Canonical(kind, Wrap(v)) <==> InRange(kind, v)
    ensures InRange(kind, v) ==> Wrap(v) == v
  {
    WrapNear(v);
    hide Wrap;
  }

  /** A narrow result, followed by its range check. */
  lemma CheckedAfter(kind: IntKind, s: State, v: int)
    requires kind.Valid() && !kind.IsFullWidth() && s.x16 == Wrap(v)
    requires Fits(v) || (!kind.signed && 0 <= v < TWO64)
    ensures ComputesX16(CanonicalizeChecked(kind), s, Checked(kind, v))
  {
    hide Wrap, ComputesX16, CanonicalizeChecked, Canonical;
    NarrowRange(kind, v);
    CheckedCorrect(kind, s);
  }

  // ----- the operations -------------------------------------------------------

  /** Canonical operands in the registers the reads leave them in. */
  ghost predicate Operands(kind: IntKind, s: State, l: Reg, r: Reg) {
    && kind.Valid() && (l == X16 || l.Local?) && (r == X17 || r.Local?)
    && Canonical(kind, Get(s, l)) && Canonical(kind, Get(s, r))
  }

  lemma AddSubCorrect(op: M.BinaryOp, kind: IntKind, l: Reg, r: Reg, s: State)
    requires (op == M.Add || op == M.Sub) && Operands(kind, s, l, r)
    ensures ComputesX16(AddSubCode(op, kind, l, r), s, Meaning(op, kind, Get(s, l), Get(s, r)))
  {
    var a, b := Get(s, l), Get(s, r);
    var first := Arith(if op == M.Add then Adds else Subs, X16, l, r);
    var t := s.(x16 := Wrap(Combined(op, a, b)), flags := CombinedFlags(op, a, b));
    assert Effect(first, s) == t;
    assert kind.Valid() && (!kind.IsFullWidth() ==> Fits(Combined(op, a, b)));
    hide *;
    AddSubMeaning(op, kind, a, b);
    if kind.IsFullWidth() {
      CarriedMeansOverflow(op, kind, a, b);
      WrapUnsigned(kind, a, b);
      TestCarried(op, kind, t, Combined(op, Value(kind, a), Value(kind, b)));
    } else {
      NarrowValue(kind, a);
      NarrowValue(kind, b);
      CheckedAfter(kind, t, Combined(op, a, b));
    }
    AddSubShape(op, kind, l, r);
    ArithIsPlain();
    SameScratch(s, t.x15, t.x16, t.flags);
    RunFirst(first, AddSubTest(op, kind), s, Meaning(op, kind, a, b));
  }

  lemma SameScratch(s: State, x15: Word, x16: Word, flags: Flags)
    ensures Same(s, s.(x15 := x15, x16 := x16, flags := flags))
  {
  }

  lemma NarrowValue(kind: IntKind, a: Word)
    requires !kind.IsFullWidth()
    ensures Value(kind, a) == a
  {
  }

  function AddSubTest(op: M.BinaryOp, kind: IntKind): seq<Inst> {
    if kind.IsFullWidth() then [Bcond(Carried(op, kind), Trampoline(Overflow))] else CanonicalizeChecked(kind)
  }

  lemma AddSubShape(op: M.BinaryOp, kind: IntKind, l: Reg, r: Reg)
    ensures AddSubCode(op, kind, l, r) == [Arith(if op == M.Add then Adds else Subs, X16, l, r)] + AddSubTest(op, kind)
  {
  }

  lemma TestCarried(op: M.BinaryOp, kind: IntKind, t: State, v: int)
    requires kind.Valid() && kind.IsFullWidth() && t.x16 == Wrap(v)
    requires Holds(Carried(op, kind), t.flags) <==> !InRange(kind, v)
    ensures ComputesX16(AddSubTest(op, kind), t, Checked(kind, v))
  {
    hide Wrap, InRange, ComputesX16;
    RunCheck(Bcond(Carried(op, kind), Trampoline(Overflow)), t);
  }

  /** Products of numbers that differ by multiples of 2^64 do too. */
  lemma ProductCongruent(q: int, y: int, j: int, k: int) returns (m: int)
    ensures (q + j * TWO64) * (y + k * TWO64) == q * y + m * TWO64
  {
    m := q * k + j * y + j * k * TWO64;
    calc {
      (q + j * TWO64) * (y + k * TWO64);
      q * (y + k * TWO64) + (j * TWO64) * (y + k * TWO64);
      q * y + q * (k * TWO64) + (j * TWO64) * y + (j * TWO64) * (k * TWO64);
      { assert (j * TWO64) * y == j * y * TWO64; assert q * (k * TWO64) == q * k * TWO64; }
      q * y + q * k * TWO64 + j * y * TWO64 + (j * k * TWO64) * TWO64;
    }
  }

  /** A word and the value it stands for differ by a multiple of 2^64. */
  function Lift(kind: IntKind, w: Word): int {
    if kind.bits == 64 && !kind.signed && w < 0 then -1 else 0
  }

  lemma LiftMeaning(kind: IntKind, w: Word)
    ensures w == Value(kind, w) + Lift(kind, w) * TWO64
  {
    UnsignedIs(w);
  }

  lemma WrapProduct(kind: IntKind, a: Word, b: Word)
    ensures Wrap(a * b) == Wrap(Value(kind, a) * Value(kind, b))
  {
    LiftMeaning(kind, a);
    LiftMeaning(kind, b);
    hide Wrap, Value, Lift;
    var m := ProductCongruent(Value(kind, a), Value(kind, b), Lift(kind, a), Lift(kind, b));
    WrapCongruent(Value(kind, a) * Value(kind, b), m);
  }

  /** The signed high half matches the sign of the low half exactly when the
      product is a word. */
  lemma SignedHighHalf(a: Word, b: Word)
    ensures Wrap((a * b) / TWO64) == ArithmeticRight(Wrap(a * b), 63) <==> Fits(a * b)
  {
    ProductBounds(a, b, TWO63);
    HighHalfOf(a * b);
  }

  lemma HighHalfOf(p: int)
    requires -(TWO63 * TWO63) <= p <= TWO63 * TWO63
    ensures Wrap(p / TWO64) == ArithmeticRight(Wrap(p), 63) <==> Fits(p)
  {
    var q, r := p / TWO64, p % TWO64;
    assert p == q * TWO64 + r;
    var w: int := if r < TWO63 then r else r - TWO64;
    WrapUnique(p, w, if r < TWO63 then q else q + 1);
    WrapFits(q);
    Pow2Values();
    hide Wrap, Pow2;
    assert ArithmeticRight(w, 63) == if w < 0 then -1 else 0;
  }

  lemma UnsignedHighHalf(u: nat, v: nat)
    requires u < TWO64 && v < TWO64
    ensures 0 <= u * v && (Wrap((u * v) / TWO64) == 0 <==> u * v < TWO64)
  {
    ProductMonotone(u, v, 0xFFFF_FFFF_FFFF_FFFF);
    HighIsZero(u * v);
  }

  lemma HighIsZero(p: nat)
    requires p <= 0xFFFF_FFFF_FFFF_FFFF * 0xFFFF_FFFF_FFFF_FFFF
    ensures Wrap(p / TWO64) == 0 <==> p < TWO64
  {
    HighBound(p);
    SmallWrapsToZero(p / TWO64);
  }

  lemma SmallWrapsToZero(h: nat)
    requires h < TWO64
    ensures Wrap(h) == 0 <==> h == 0
  {
    WrapNear(h);
  }

  lemma HighBound(p: nat)
    requires p <= 0xFFFF_FFFF_FFFF_FFFF * 0xFFFF_FFFF_FFFF_FFFF
    ensures 0 <= p / TWO64 < TWO64
    ensures p / TWO64 == 0 <==> p < TWO64
  {
  }

  lemma MulCorrect(kind: IntKind, l: Reg, r: Reg, s: State)
    requires Operands(kind, s, l, r)
    ensures ComputesX16(MulCode(kind, l, r), s, Meaning(M.Mul, kind, Get(s, l), Get(s, r)))
  {
    var a, b := Get(s, l), Get(s, r);
    assert kind.Valid() && Canonical(kind, a) && Canonical(kind, b);
    MulEffects(kind, l, r, s);
    MulMeaning(kind, a, b);
    WrapProduct(kind, a, b);
    MulShape(kind, l, r);
    var p := Value(kind, a) * Value(kind, b);
    hide *;
    if kind.IsFullWidth() {
      MulFullCorrect(kind, a, b, p, l, r, s);
    } else {
      NarrowProduct(kind, a, b);
      MulNarrowCorrect(kind, p, l, r, s);
    }
  }

  lemma MulNarrowCorrect(kind: IntKind, p: int, l: Reg, r: Reg, s: State)
    requires kind.Valid() && !kind.IsFullWidth() && (Fits(p) || (!kind.signed && 0 <= p < TWO64))
    requires Effect(Arith(MulOp, X16, l, r), s) == s.(x16 := Wrap(p))
    ensures ComputesX16([Arith(MulOp, X16, l, r)] + CanonicalizeChecked(kind), s, Checked(kind, p))
  {
    hide *;
    ArithIsPlain();
    var t := s.(x16 := Wrap(p));
    SameScratch(s, s.x15, t.x16, s.flags);
    CheckedAfter(kind, t, p);
    RunFirst(Arith(MulOp, X16, l, r), CanonicalizeChecked(kind), s, Checked(kind, p));
  }

  lemma MulFullCorrect(kind: IntKind, a: Word, b: Word, p: int, l: Reg, r: Reg, s: State)
    requires kind.Valid() && kind.IsFullWidth() && p == Value(kind, a) * Value(kind, b)
    requires var first := Arith(if kind.signed then Smulh else Umulh, X15, l, r);
      var t := s.(x15 := ArithResult(first.op, a, b));
      && Effect(first, s) == t
      && Effect(Arith(MulOp, X16, l, r), t) == t.(x16 := Wrap(a * b))
    ensures ComputesX16([Arith(if kind.signed then Smulh else Umulh, X15, l, r)]
                          + ([Arith(MulOp, X16, l, r)] + MulTest(kind)), s, Checked(kind, p))
  {
    hide *;
    ArithIsPlain();
    var first, second := Arith(if kind.signed then Smulh else Umulh, X15, l, r), Arith(MulOp, X16, l, r);
    var t1 := s.(x15 := ArithResult(first.op, a, b));
    var t2 := t1.(x16 := Wrap(a * b));
    SameScratch(s, t1.x15, s.x16, s.flags);
    SameScratch(t1, t1.x15, t2.x16, s.flags);
    MulTestCorrect(kind, a, b, t2);
    RunFirst(second, MulTest(kind), t1, Checked(kind, p));
    RunFirst(first, [second] + MulTest(kind), s, Checked(kind, p));
  }

  lemma ArithIsPlain()
    ensures forall op, d, l, r :: !Arith(op, d, l, r).Branches()
  {
  }

  lemma MulEffects(kind: IntKind, l: Reg, r: Reg, s: State)
    requires Operands(kind, s, l, r)
    ensures var first := Arith(if kind.signed then Smulh else Umulh, X15, l, r);
      var t := s.(x15 := ArithResult(first.op, Get(s, l), Get(s, r)));
      && !first.Branches() && Effect(first, s) == t
      && Effect(Arith(MulOp, X16, l, r), t) == t.(x16 := Wrap(Get(s, l) * Get(s, r)))
    ensures Effect(Arith(MulOp, X16, l, r), s) == s.(x16 := Wrap(Get(s, l) * Get(s, r)))
    ensures !Arith(MulOp, X16, l, r).Branches()
  {
    hide Wrap, Canonical;
  }

  lemma MulShape(kind: IntKind, l: Reg, r: Reg)
    ensures MulCode(kind, l, r) ==
      if kind.IsFullWidth() then
        [Arith(if kind.signed then Smulh else Umulh, X15, l, r)] + ([Arith(MulOp, X16, l, r)] + MulTest(kind))
      else [Arith(MulOp, X16, l, r)] + CanonicalizeChecked(kind)
  {
    hide MulTest, CanonicalizeChecked;
  }

  /** Two narrow operands have a product that a range check can judge by its word. */
  lemma NarrowProduct(kind: IntKind, a: Word, b: Word)
    requires kind.Valid() && !kind.IsFullWidth() && Canonical(kind, a) && Canonical(kind, b)
    ensures var p := Value(kind, a) * Value(kind, b); Fits(p) || (!kind.signed && 0 <= p < TWO64)
  {
    if kind.signed {
      ProductBounds(a, b, 0x8000_0000);
    } else {
      ProductMonotone(a, b, 0xFFFF_FFFF);
    }
  }

  lemma MulTestCorrect(kind: IntKind, a: Word, b: Word, t: State)
    requires kind.Valid() && kind.IsFullWidth() && t.x16 == Wrap(a * b)
    requires t.x15 == ArithResult(if kind.signed then Smulh else Umulh, a, b)
    ensures ComputesX16(MulTest(kind), t, Checked(kind, Value(kind, a) * Value(kind, b)))
  {
    WrapProduct(kind, a, b);
    if kind.signed {
      assert t.x15 == Wrap((a * b) / TWO64);
      SignedHighHalf(a, b);
      SignedTest(kind, t, a * b);
    } else {
      assert t.x15 == Wrap((Unsigned(a) * Unsigned(b)) / TWO64);
      UnsignedHighHalf(Unsigned(a), Unsigned(b));
      UnsignedTest(kind, t, Unsigned(a) * Unsigned(b));
    }
    hide *;
  }

  lemma SignedTest(kind: IntKind, t: State, p: int)
    requires kind == IntKind(64, true) && t.x16 == Wrap(p)
    requires t.x15 == ArithmeticRight(t.x16, 63) <==> Fits(p)
    ensures ComputesX16(MulTest(kind), t, Checked(kind, p))
  {
    var outcome := if t.x15 == ArithmeticRight(t.x16, 63) then Gives(t.x16) else Traps(Overflow);
    FullRange(kind, p);
    assert Checked(kind, p) == outcome && MulTest(kind) == SignedMulTest();
    hide *;
    SignedMulTestCorrect(t);
  }

  function SignedMulTest(): seq<Inst> {
    [CmpShifted(X15, X16, 63)] + [Bcond(Ne, Trampoline(Overflow))]
  }

  lemma SignedMulTestCorrect(t: State)
    ensures ComputesX16(SignedMulTest(), t,
                        if t.x15 == ArithmeticRight(t.x16, 63) then Gives(t.x16) else Traps(Overflow))
  {
    hide ComputesX16, ArithmeticRight, SubFlags, Effect;
    CmpShiftedEffect(t);
    UnequalTraps(CmpShifted(X15, X16, 63), t.x15, ArithmeticRight(t.x16, 63), t);
  }

  lemma UnsignedTest(kind: IntKind, t: State, p: nat)
    requires kind == IntKind(64, false) && t.x16 == Wrap(p)
    requires t.x15 == 0 <==> p < TWO64
    ensures ComputesX16(MulTest(kind), t, Checked(kind, p))
  {
    FullRange(kind, p);
    hide Wrap, ComputesX16, InRange;
    RunCheck(Cbnz(X15, Overflow), t);
  }

  lemma CmpShiftedEffect(t: State)
    ensures Effect(CmpShifted(X15, X16, 63), t) == t.(flags := SubFlags(t.x15, ArithmeticRight(t.x16, 63)))
  {
    hide SubFlags, ArithmeticRight;
  }

  // ----- division ---------------------------------------------------------------

  /** What runs once the zero divisor is refused: the guard of the signed word,
      which leaves for its trampoline on the one quotient that has no word. */
  lemma GuardCorrect(kind: IntKind, l: Reg, r: Reg, s: State) returns (t: State)
    requires Operands(kind, s, l, r)
    ensures Closed(Guard(kind, l, r))
    ensures t == s.(x15 := t.x15, flags := t.flags)
    ensures Exec(Guard(kind, l, r), 0, s) ==
      if NoQuotient(kind, Value(kind, Get(s, l)), Value(kind, Get(s, r))) then C.Stopped(Overflow) else C.Ended(t)
  {
    var a, b := Get(s, l), Get(s, r);
    hide Exec, Closed, Wrap, SubFlags, Canonical;
    if kind == IntKind(64, true) {
      var first, rest := Materialize(X15, 0x8000_0000_0000_0000), GuardTail(l, r);
      hide Materialize;
      MaterializeCorrect(X15, 0x8000_0000_0000_0000, s);
      WrapNear(0x8000_0000_0000_0000);
      var s1 := s.(x15 := -0x8000_0000_0000_0000);
      t := GuardTailCorrect(l, r, s1);
      GuardTailClosed(l, r);
      ClosedConcat(first, rest);
      ExecConcat(first, rest, s);
    } else {
      t := s;
      NoForwardClosed([]);
      ExecEnd([], s);
    }
  }

  function GuardTail(l: Reg, r: Reg): seq<Inst> {
    [Cmp(l, X15), Bcond(Ne, Forward), CmnImm(r, 1), Bcond(Eq, Trampoline(Overflow)), Label]
  }

  lemma GuardLabel(l: Reg, r: Reg)
    ensures AfterLabel(GuardTail(l, r), 2) == 4
  {
    LabelSearch(GuardTail(l, r), 2);
    LabelSearch(GuardTail(l, r), 3);
    LabelSearch(GuardTail(l, r), 4);
    hide AfterLabel;
  }

  lemma GuardTailClosed(l: Reg, r: Reg)
    ensures Closed(GuardTail(l, r))
  {
    GuardLabel(l, r);
    hide AfterLabel, Closed;
    ClosedMeans(GuardTail(l, r));
  }

  /** `cmn r, #1` compares with the word that has every bit set. */
  lemma CmnMeaning(r: Reg, s: State)
    ensures Holds(Eq, AddFlags(Get(s, r), Wrap(1))) <==> Get(s, r) == -1
    ensures Effect(CmnImm(r, 1), s) == s.(flags := AddFlags(Get(s, r), Wrap(1)))
  {
    WrapNear(Get(s, r) + 1);
    hide Get, Unsigned;
  }

  lemma GuardTailCorrect(l: Reg, r: Reg, s: State) returns (t: State)
    requires (l == X16 || l.Local?) && (r == X17 || r.Local?) && s.x15 == -TWO63
    ensures t == s.(flags := t.flags)
    ensures Exec(GuardTail(l, r), 0, s) ==
      if Get(s, l) == -TWO63 && Get(s, r) == -1 then C.Stopped(Overflow) else C.Ended(t)
  {
    hide SubFlags, AddFlags, Effect, Exec, AfterLabel, Wrap;
    var code := GuardTail(l, r);
    var s1 := s.(flags := SubFlags(Get(s, l), s.x15));
    CmpEffect(l, X15, s);
    ComparisonFlags(Get(s, l), s.x15);
    ExecStep(code, 0, s);
    ExecJump(code, 1, s1);
    t := s1;
    if Get(s, l) == -TWO63 {
      var s2 := s1.(flags := AddFlags(Get(s, r), Wrap(1)));
      CmnMeaning(r, s1);
      ExecStep(code, 2, s1);
      ExecJump(code, 3, s2);
      t := s2;
    } else {
      GuardLabel(l, r);
    }
    LabelEffect(t);
    ExecStep(code, 4, t);
    ExecEnd(code, t);
  }

  lemma CmpEffect(l: Reg, r: Reg, s: State)
    ensures Effect(Cmp(l, r), s) == s.(flags := SubFlags(Get(s, l), Get(s, r)))
  {
    hide SubFlags;
  }

  lemma LabelEffect(s: State)
    ensures Effect(Label, s) == s
  {
  }

  /** What follows the guard. */
  function DivideTail(op: M.BinaryOp, kind: IntKind, l: Reg, r: Reg): seq<Inst> {
    [DivideInst(kind, l, r)] + if op == M.Rem then [Msub(X16, X16, r, l)] else CanonicalizeChecked(kind)
  }

  function DivideInst(kind: IntKind, l: Reg, r: Reg): Inst {
    Arith(if kind.signed || !kind.IsFullWidth() then Sdiv else Udiv, X16, l, r)
  }

  lemma DivideShape(op: M.BinaryOp, kind: IntKind, l: Reg, r: Reg)
    ensures DivideCode(op, kind, l, r) == [Cbz(r, DivZero)] + (Guard(kind, l, r) + DivideTail(op, kind, l, r))
  {
    hide Guard, CanonicalizeChecked;
  }

  lemma DivideInstEffect(kind: IntKind, l: Reg, r: Reg, s: State)
    requires Operands(kind, s, l, r) && Value(kind, Get(s, r)) != 0
    ensures Effect(DivideInst(kind, l, r), s)
         == s.(x16 := Wrap(TruncDiv(Value(kind, Get(s, l)), Value(kind, Get(s, r)))))
    ensures !DivideInst(kind, l, r).Branches()
  {
    UnsignedIs(Get(s, r));
    hide Wrap, Canonical, TruncDiv, Unsigned;
  }

  /** What `%` leaves: the exact remainder when the dividend is in a register of
      its own, and something else when it was read into the quotient's register. */
  function Remainder(kind: IntKind, a: Word, b: Word, spilled: bool): Outcome
    requires kind.Valid()
  {
    var x, y := Value(kind, a), Value(kind, b);
    if y == 0 then Traps(DivZero)
    else if NoQuotient(kind, x, y) then Traps(Overflow)
    else
      var q := TruncDiv(x, y);
      Gives(Wrap((if spilled then q else x) - q * y))
  }

  function Divided(op: M.BinaryOp, kind: IntKind, a: Word, b: Word, spilled: bool): Outcome
    requires kind.Valid()
  {
    if op == M.Rem then Remainder(kind, a, b, spilled) else Meaning(M.Div, kind, a, b)
  }

  lemma WrapMsub(kind: IntKind, addend: Word, p: int, i: int, q: int, b: Word)
    requires addend == p + i * TWO64
    ensures Wrap(addend - Wrap(q) * b) == Wrap(p - q * Value(kind, b))
  {
    var j := (Wrap(q) - q) / TWO64;
    var d := (q - Wrap(q)) / TWO64;
    assert q == Wrap(q) + d * TWO64;
    var w := Wrap(q);
    LiftMeaning(kind, b);
    var y, k := Value(kind, b), Lift(kind, b);
    hide Wrap, Value, Lift;
    var m := ProductCongruent(q, y, -d, k);
    assert w == q + -d * TWO64;
    assert addend - w * b == p - q * y + (i - m) * TWO64;
    WrapCongruent(p - q * y, i - m);
  }

  lemma MsubEffect(kind: IntKind, l: Reg, r: Reg, s: State, q: int)
    requires Operands(kind, s, l, r)
    ensures var x, y := Value(kind, Get(s, l)), Value(kind, Get(s, r));
      Effect(Msub(X16, X16, r, l), s.(x16 := Wrap(q)))
        == s.(x16 := Wrap((if l == X16 then q else x) - q * y))
  {
    var a, b := Get(s, l), Get(s, r);
    MsubWord(kind, a, b, q, l == X16);
    MsubReads(l, r, s, Wrap(q)) by { hide Canonical, Value; }
    hide *;
  }

  lemma MsubReads(l: Reg, r: Reg, s: State, w: Word)
    requires (l == X16 || l.Local?) && (r == X17 || r.Local?)
    ensures Effect(Msub(X16, X16, r, l), s.(x16 := w))
         == s.(x16 := Wrap((if l == X16 then w else Get(s, l)) - w * Get(s, r)))
  {
    hide Wrap;
  }

  lemma MsubWord(kind: IntKind, a: Word, b: Word, q: int, spilled: bool)
    ensures Wrap((if spilled then Wrap(q) else a) - Wrap(q) * b)
         == Wrap((if spilled then q else Value(kind, a)) - q * Value(kind, b))
  {
    if spilled {
      var d := (q - Wrap(q)) / TWO64;
      assert Wrap(q) == q + -d * TWO64;
      WrapMsub(kind, Wrap(q), q, -d, q, b);
    } else {
      LiftMeaning(kind, a);
      WrapMsub(kind, a, Value(kind, a), Lift(kind, a), q, b);
    }
    hide Wrap, Value, Lift;
  }

  lemma DivideTailCorrect(op: M.BinaryOp, kind: IntKind, l: Reg, r: Reg, s: State)
    requires (op == M.Div || op == M.Rem) && Operands(kind, s, l, r)
    requires Value(kind, Get(s, r)) != 0 && !NoQuotient(kind, Value(kind, Get(s, l)), Value(kind, Get(s, r)))
    ensures ComputesX16(DivideTail(op, kind, l, r), s, Divided(op, kind, Get(s, l), Get(s, r), l == X16))
  {
    var a, b := Get(s, l), Get(s, r);
    assert kind.Valid() && Canonical(kind, a) && Canonical(kind, b);
    var q := TruncDiv(Value(kind, a), Value(kind, b));
    var t := s.(x16 := Wrap(q));
    DivideInstEffect(kind, l, r, s);
    SameScratch(s, s.x15, t.x16, s.flags);
    var i := DivideInst(kind, l, r);
    if op == M.Rem {
      MsubCorrect(kind, l, r, s);
      hide Wrap, TruncDiv, ComputesX16, Operands, Value, Effect, DivideInst, Remainder;
      RunFirst(i, [Msub(X16, X16, r, l)], s, Remainder(kind, a, b, l == X16));
    } else {
      DivRemMeaning(kind, a, b);
      QuotientChecked(kind, a, b, t);
      hide Wrap, TruncDiv, ComputesX16, Operands, Value, Effect, DivideInst, Meaning, Checked;
      RunFirst(i, CanonicalizeChecked(kind), s, Checked(kind, q));
    }
  }

  lemma MsubCorrect(kind: IntKind, l: Reg, r: Reg, s: State)
    requires Operands(kind, s, l, r)
    requires Value(kind, Get(s, r)) != 0 && !NoQuotient(kind, Value(kind, Get(s, l)), Value(kind, Get(s, r)))
    ensures ComputesX16(
      [Msub(X16, X16, r, l)], s.(x16 := Wrap(TruncDiv(Value(kind, Get(s, l)), Value(kind, Get(s, r))))),
                        Remainder(kind, Get(s, l), Get(s, r), l == X16))
  {
    var a, b := Get(s, l), Get(s, r);
    assert kind.Valid();
    RemainderIs(kind, a, b, l == X16);
    var x, y := Value(kind, a), Value(kind, b);
    var q := TruncDiv(x, y);
    var w := Wrap((if l == X16 then q else x) - q * y);
    MsubEffect(kind, l, r, s, q);
    hide *;
    MsubLast(l, r, s, Wrap(q), w);
  }

  lemma RemainderIs(kind: IntKind, a: Word, b: Word, spilled: bool)
    requires kind.Valid() && Value(kind, b) != 0 && !NoQuotient(kind, Value(kind, a), Value(kind, b))
    ensures var (x, y) := (Value(kind, a), Value(kind, b));
      var q := TruncDiv(x, y);
      Remainder(kind, a, b, spilled) == Gives(Wrap((if spilled then q else x) - q * y))
  {
    hide Wrap, TruncDiv, Value, NoQuotient;
  }

  lemma MsubLast(l: Reg, r: Reg, s: State, v: Word, w: Word)
    requires Effect(Msub(X16, X16, r, l), s.(x16 := v)) == s.(x16 := w)
    ensures ComputesX16([Msub(X16, X16, r, l)], s.(x16 := v), Gives(w))
  {
    hide Effect, ComputesX16;
    RunLast(Msub(X16, X16, r, l), s.(x16 := v), w);
  }

  lemma QuotientChecked(kind: IntKind, a: Word, b: Word, t: State)
    requires kind.Valid() && Canonical(kind, a) && Canonical(kind, b) && Value(kind, b) != 0
    requires !NoQuotient(kind, Value(kind, a), Value(kind, b))
    requires t.x16 == Wrap(TruncDiv(Value(kind, a), Value(kind, b)))
    ensures ComputesX16(CanonicalizeChecked(kind), t, Checked(kind, TruncDiv(Value(kind, a), Value(kind, b))))
  {
    var q := TruncDiv(Value(kind, a), Value(kind, b));
    QuotientFits(kind, a, b);
    hide Wrap, TruncDiv, TruncRem, ComputesX16, Canonical, Value;
    if kind.IsFullWidth() {
      FullRange(kind, q);
      RunNothing(t);
    } else {
      CheckedAfter(kind, t, q);
    }
  }

  lemma DivideCorrect(op: M.BinaryOp, kind: IntKind, l: Reg, r: Reg, s: State)
    requires (op == M.Div || op == M.Rem) && Operands(kind, s, l, r)
    ensures ComputesX16(DivideCode(op, kind, l, r), s, Divided(op, kind, Get(s, l), Get(s, r), l == X16))
  {
    var x, y := Value(kind, Get(s, l)), Value(kind, Get(s, r));
    var outcome := Divided(op, kind, Get(s, l), Get(s, r), l == X16);
    assert y == 0 <==> Get(s, r) == 0 by { UnsignedIs(Get(s, r)); }
    var guard, tail := Guard(kind, l, r), DivideTail(op, kind, l, r);
    DivideShape(op, kind, l, r);
    DivRemMeaning(kind, Get(s, l), Get(s, r));
    hide Guard, DivideTail, DivideCode, ComputesX16, Exec, Closed, Canonical, Value, Meaning, TruncDiv, Wrap, Checked;
    var t := GuardCorrect(kind, l, r, s);
    DivideTailClosed(op, kind, l, r, s);
    ClosedConcat(guard, tail);
    RunTest(Cbz(r, DivZero), s);
    if y != 0 {
      if NoQuotient(kind, x, y) {
        NoQuotientOverflows(kind, x, y);
      } else {
        SameScratch(s, t.x15, s.x16, t.flags);
        DivideTailCorrect(op, kind, l, r, t);
      }
      RunTwo(guard, tail, s, outcome);
    }
    RunTwo([Cbz(r, DivZero)], guard + tail, s, outcome);
  }

  lemma DivideTailClosed(op: M.BinaryOp, kind: IntKind, l: Reg, r: Reg, s: State)
    requires kind.Valid()
    ensures Closed(DivideTail(op, kind, l, r))
  {
    NoForwardClosed(DivideTail(op, kind, l, r));
    hide Closed;
  }

  /** With the dividend in a register `%` is the remainder. */
  lemma RemainderFromRegister(kind: IntKind, a: Word, b: Word)
    requires kind.Valid()
    ensures Remainder(kind, a, b, false) == Meaning(M.Rem, kind, a, b)
  {
    DivRemMeaning(kind, a, b);
    hide Meaning, Wrap, TruncDiv, Value;
  }

  /** With the dividend in a frame slot the quotient has already replaced it when
      it is read back, so the answer is right exactly for a zero dividend, a
      divisor of one, and the operands that trap. */
  lemma RemainderFromSlot(kind: IntKind, a: Word, b: Word)
    requires kind.Valid() && Canonical(kind, a) && Canonical(kind, b)
    ensures var (x, y) := (Value(kind, a), Value(kind, b));
      (Remainder(kind, a, b, true) == Meaning(M.Rem, kind, a, b))
        <==> (y == 0 || NoQuotient(kind, x, y) || x == 0 || y == 1)
  {
    var x, y := Value(kind, a), Value(kind, b);
    RemainderFromRegister(kind, a, b);
    if y != 0 && !NoQuotient(kind, x, y) {
      var q := TruncDiv(x, y);
      QuotientIsDividend(x, y);
      QuotientNear(kind, a, b);
      hide TruncDiv, Meaning, Canonical, Value, Wrap;
      if Wrap(q - q * y) == Wrap(x - q * y) { SameWrap(q - q * y, x - q * y); }
    }
  }

  lemma QuotientIsDividend(x: int, y: int)
    requires y != 0
    ensures TruncDiv(x, y) == x <==> x == 0 || y == 1
  {
    TruncatedDivision(x, y);
    SignedProducts(x, 1);
    hide TruncRem;
    if y == 1 || y == -1 {
      DivideByOne(Magnitude(x));
    }
  }

  lemma DivideByOne(m: nat)
    ensures m / 1 == m
  {
  }

  lemma QuotientNear(kind: IntKind, a: Word, b: Word)
    requires kind.Valid() && Canonical(kind, a) && Canonical(kind, b) && Value(kind, b) != 0
    requires !NoQuotient(kind, Value(kind, a), Value(kind, b))
    ensures -TWO64 < TruncDiv(Value(kind, a), Value(kind, b)) - Value(kind, a) < TWO64
  {
    QuotientFits(kind, a, b);
    TruncatedDivision(Value(kind, a), Value(kind, b));
    hide TruncDiv, TruncRem;
  }

  lemma SevenByTwo(kind: IntKind)
    requires kind.Valid()
    ensures Meaning(M.Rem, kind, 7, 2) == Gives(1)
    ensures Remainder(kind, 7, 2, true) == Gives(-3)
  {
    assert TruncDiv(7, 2) == 3;
    assert TruncRem(7, 2) == 1;
    DivRemMeaning(kind, 7, 2);
    hide Meaning, TruncDiv;
  }

  // ----- shifts, comparisons and bit operations --------------------------------

  /** The unsigned comparison refuses negative counts along with large ones. */
  lemma CountMeaning(kind: IntKind, b: Word)
    requires kind.Valid() && Canonical(kind, b)
    ensures Holds(Hs, SubFlags(b, kind.bits)) <==> (Value(kind, b) < 0 || Value(kind, b) >= kind.bits)
    ensures !Holds(Hs, SubFlags(b, kind.bits)) ==> Unsigned(b) % 64 == Value(kind, b)
  {
    ComparisonFlags(b, kind.bits);
    UnsignedIs(b);
    UnsignedIs(kind.bits);
  }

  lemma CountCheckCorrect(kind: IntKind, r: Reg, s: State)
    requires kind.Valid() && (r == X17 || r.Local?) && Canonical(kind, Get(s, r))
    ensures Closed(CountCheck(kind, r))
    ensures var y := Value(kind, Get(s, r));
      Exec(CountCheck(kind, r), 0, s) ==
        if y < 0 || y >= kind.bits then C.Stopped(ShiftCount)
        else C.Ended(s.(x15 := kind.bits, flags := SubFlags(Get(s, r), kind.bits)))
  {
    var s1 := s.(x15 := kind.bits);
    assert Get(s1, r) == Get(s, r);
    WrapFits(kind.bits);
    CountMeaning(kind, Get(s, r));
    hide Exec, Closed, Materialize, SubFlags, Value, Unsigned, Canonical, CompareCount, Wrap, Holds;
    MaterializeCorrect(X15, kind.bits, s);
    CompareCountCorrect(r, s1);
    ExecConcat(Materialize(X15, kind.bits), CompareCount(r), s);
    ClosedConcat(Materialize(X15, kind.bits), CompareCount(r));
  }

  lemma CompareCountCorrect(r: Reg, s: State)
    ensures Closed(CompareCount(r))
    ensures var f := SubFlags(Get(s, r), s.x15);
      Exec(CompareCount(r), 0, s) == if Holds(Hs, f) then C.Stopped(ShiftCount) else C.Ended(s.(flags := f))
  {
    var last := Bcond(Hs, Trampoline(ShiftCount));
    hide Exec, Closed, SubFlags, Effect, Get, Holds;
    CmpEffect(r, X15, s);
    RunSingle(Cmp(r, X15), s);
    GetX15(s);
    RunTest(last, s.(flags := SubFlags(Get(s, r), s.x15)));
    ExecConcat([Cmp(r, X15)], [last], s);
    ClosedConcat([Cmp(r, X15)], [last]);
  }

  lemma GetX15(s: State)
    ensures Get(s, X15) == s.x15
  {
  }

  lemma VariableEffect(op: M.BinaryOp, kind: IntKind, l: Reg, r: Reg, s: State, y: nat)
    requires (op == M.Shl || op == M.Shr) && Unsigned(Get(s, r)) % 64 == y
    ensures Effect(Arith(Variable(op, kind), X16, l, r), s) == s.(x16 := Moved(op, kind, Get(s, l), y))
  {
    hide ShiftLeft, ArithmeticRight, LogicalRight, Unsigned;
  }

  lemma ShiftTailCorrect(op: M.BinaryOp, kind: IntKind, l: Reg, r: Reg, s: State, y: nat)
    requires (op == M.Shl || op == M.Shr) && kind.Valid()
    requires Unsigned(Get(s, r)) % 64 == y
    ensures ComputesX16(ShiftTail(op, kind, l, r), s, Gives(ShiftWord(op, kind, Get(s, l), y)))
  {
    var i := Arith(Variable(op, kind), X16, l, r);
    VariableEffect(op, kind, l, r, s, y);
    var t := s.(x16 := Moved(op, kind, Get(s, l), y));
    SameScratch(s, s.x15, t.x16, s.flags);
    hide Effect, Exec, Closed, Canonicalize, Moved, Unsigned, Canonicalizing;
    if op == M.Shl {
      CanonicalizingCorrect(kind, t);
      RunFirst(i, Canonicalizing(kind), s, Gives(ShiftWord(op, kind, Get(s, l), y)));
    } else {
      RunSingle(i, s);
      assert [i] + [] == [i];
    }
  }

  lemma BitMeaning(op: M.BinaryOp, kind: IntKind, a: Word, b: Word)
    requires kind.Valid() && op.Bitwise()
    ensures Meaning(op, kind, a, b) == Gives(ArithResult(BitArith(op), a, b))
    ensures forall f :: ArithFlags(BitArith(op), a, b, f) == f
  {
    hide Truncated, Bitwise, TruncDiv, TruncRem, Pow2, Compare, Checked, Value;
  }

  lemma BitCorrect(op: M.BinaryOp, kind: IntKind, l: Reg, r: Reg, s: State)
    requires op.Bitwise() && Operands(kind, s, l, r)
    ensures ComputesX16([Arith(BitArith(op), X16, l, r)], s, Meaning(op, kind, Get(s, l), Get(s, r)))
  {
    var i := Arith(BitArith(op), X16, l, r);
    hide ArithResult, ArithFlags, BitArith, Canonical, ComputesX16, Meaning;
    BitMeaning(op, kind, Get(s, l), Get(s, r));
    RunLast(i, s, ArithResult(i.op, Get(s, l), Get(s, r)));
  }

  lemma CompareCorrect(op: M.BinaryOp, kind: IntKind, l: Reg, r: Reg, s: State)
    requires op.Compares() && Operands(kind, s, l, r)
    ensures ComputesX16([Cmp(l, r)] + [Cset(X16, IntegerCondition(op, kind))], s,
                        Meaning(op, kind, Get(s, l), Get(s, r)))
  {
    var (a, b) := (Get(s, l), Get(s, r));
    assert kind.Valid();
    CompareMeaning(op, kind, a, b);
    IntegerConditionCorrect(op, kind, a, b);
    hide Operands, ComputesX16, Meaning, SubFlags, Compare, IntegerCondition, Holds, Value, Get;
    CompareInto(IntegerCondition(op, kind), l, r, s);
  }

  lemma CompareInto(cond: Cond, l: Reg, r: Reg, s: State)
    ensures ComputesX16([Cmp(l, r)] + [Cset(X16, cond)], s,
                        Gives(if Holds(cond, SubFlags(Get(s, l), Get(s, r))) then 1 else 0))
  {
    var t := s.(flags := SubFlags(Get(s, l), Get(s, r)));
    CmpEffect(l, r, s);
    hide SubFlags, Holds, ComputesX16;
    RunLast(Cset(X16, cond), t, if Holds(cond, t.flags) then 1 else 0);
    RunFirst(Cmp(l, r), [Cset(X16, cond)], s, Gives(if Holds(cond, t.flags) then 1 else 0));
  }

  /** What the emitted code computes: the operator's meaning, but for `%` with a
      spilled dividend. */
  function Computed(op: M.BinaryOp, kind: IntKind, a: Word, b: Word, spilled: bool): Outcome
    requires kind.Valid()
  {
    if op == M.Rem then Remainder(kind, a, b, spilled) else Meaning(op, kind, a, b)
  }

  lemma CoreCorrect(op: M.BinaryOp, kind: IntKind, l: Reg, r: Reg, s: State)
    requires op != M.Shl && op != M.Shr && Operands(kind, s, l, r)
    ensures ComputesX16(Core(op, kind, l, r), s, Computed(op, kind, Get(s, l), Get(s, r), l == X16))
  {
    hide ComputesX16, AddSubCode, MulCode, DivideCode, Meaning, Remainder, Canonical;
    match op
    case Add => AddSubCorrect(op, kind, l, r, s);
    case Sub => AddSubCorrect(op, kind, l, r, s);
    case Mul => MulCorrect(kind, l, r, s);
    case Div => DivideCorrect(op, kind, l, r, s);
    case Rem => DivideCorrect(op, kind, l, r, s);
    case BitAnd => BitCorrect(op, kind, l, r, s);
    case BitOr => BitCorrect(op, kind, l, r, s);
    case BitXor => BitCorrect(op, kind, l, r, s);
    case _ => CompareCorrect(op, kind, l, r, s);
  }

  // ----- from locals to locals --------------------------------------------------

  ghost predicate CanonicalLocals(f: Frame, lhs: LocalId, rhs: LocalId, kind: IntKind, s: State) {
    && kind.Valid() && Reaches(f, f.place(lhs)) && Reaches(f, f.place(rhs))
    && Canonical(kind, CellOf(f, s, f.place(lhs))) && Canonical(kind, CellOf(f, s, f.place(rhs)))
  }

  /** The code stores the outcome in one location and touches no other, or stops. */
  ghost predicate Computes(f: Frame, code: seq<Inst>, s: State, at: Location, outcome: Outcome) {
    match outcome
    case Traps(trap) => Exec(code, 0, s) == C.Stopped(trap)
    case Gives(w) => Exec(code, 0, s).Ended? && StoredAt(f, s, at, w, Exec(code, 0, s).state)
  }

  /** Both operands are in registers once they have been read, and reading leaves
      every local alone. */
  lemma ReadBoth(f: Frame, lhs: LocalId, rhs: LocalId, kind: IntKind, s: State)
    requires CanonicalLocals(f, lhs, rhs, kind, s)
    ensures var t := AfterRead(f, lhs, X16, s);
      var u := AfterRead(f, rhs, X17, t);
      var (l, r) := (ReadReg(f, lhs, X16), ReadReg(f, rhs, X17));
      && Same(s, t) && Same(t, u) && Operands(kind, u, l, r)
      && Get(u, l) == CellOf(f, s, f.place(lhs)) && Get(u, r) == CellOf(f, s, f.place(rhs))
      && (l == X16 <==> f.place(lhs).Memory?)
  {
    hide Canonical, Wrap;
  }

  lemma PlainCorrect(f: Frame, op: M.BinaryOp, lhs: LocalId, rhs: LocalId, kind: IntKind, s: State)
    requires CanonicalLocals(f, lhs, rhs, kind, s) && op != M.Shl && op != M.Shr
    ensures var (l, r) := (ReadReg(f, lhs, X16), ReadReg(f, rhs, X17));
      ComputesX16(ReadCode(f, lhs, X16) + (ReadCode(f, rhs, X17) + Core(op, kind, l, r)), s,
                  Computed(op, kind, CellOf(f, s, f.place(lhs)), CellOf(f, s, f.place(rhs)), f.place(lhs).Memory?))
  {
    var t := AfterRead(f, lhs, X16, s);
    var u := AfterRead(f, rhs, X17, t);
    var l, r := ReadReg(f, lhs, X16), ReadReg(f, rhs, X17);
    assert Reaches(f, f.place(lhs)) && Reaches(f, f.place(rhs));
    ReadBoth(f, lhs, rhs, kind, s);
    hide *;
    ReadCorrect(f, lhs, X16, s) by { ScratchRegisters(); }
    ReadCorrect(f, rhs, X17, t) by { ScratchRegisters(); }
    CoreCorrect(op, kind, l, r, u);
    var outcome := Computed(op, kind, Get(u, l), Get(u, r), l == X16);
    ComputesClosed(Core(op, kind, l, r), u, outcome);
    RunTwo(ReadCode(f, rhs, X17), Core(op, kind, l, r), t, outcome);
    ClosedConcat(ReadCode(f, rhs, X17), Core(op, kind, l, r));
    RunTwo(ReadCode(f, lhs, X16), ReadCode(f, rhs, X17) + Core(op, kind, l, r), s, outcome);
  }

  lemma ScratchRegisters()
    ensures Scratch(X15) && Scratch(X16) && Scratch(X17)
  {
  }

  lemma ComputesClosed(code: seq<Inst>, s: State, outcome: Outcome)
    requires ComputesX16(code, s, outcome)
    ensures Closed(code)
  {
    hide Closed, Exec;
  }

  function AfterCount(kind: IntKind, r: Reg, t: State): State
    requires kind.Valid()
  {
    t.(x15 := kind.bits, flags := SubFlags(Get(t, r), kind.bits))
  }

  /** A shift reads its count first, and the constant it is compared with takes
      the third scratch register, so reading the left operand disturbs neither. */
  lemma ShiftReads(f: Frame, lhs: LocalId, rhs: LocalId, kind: IntKind, s: State)
    requires CanonicalLocals(f, lhs, rhs, kind, s)
    ensures var (l, r) := (ReadReg(f, lhs, X16), ReadReg(f, rhs, X17));
      var t := AfterRead(f, rhs, X17, s);
      var u := AfterCount(kind, r, t);
      var v := AfterRead(f, lhs, X16, u);
      && (r == X17 || r.Local?) && Same(s, t) && Same(t, u) && Same(u, v)
      && Get(t, r) == Get(v, r) == CellOf(f, s, f.place(rhs))
      && Get(v, l) == CellOf(f, s, f.place(lhs))
  {
    hide Canonical, Wrap, SubFlags;
  }

  lemma ShiftTailClosed(op: M.BinaryOp, kind: IntKind, l: Reg, r: Reg)
    requires kind.Valid()
    ensures Closed(ShiftTail(op, kind, l, r))
  {
    NoForwardClosed(ShiftTail(op, kind, l, r));
    hide Closed;
  }

  lemma ShiftCorrect(f: Frame, op: M.BinaryOp, lhs: LocalId, rhs: LocalId, kind: IntKind, s: State)
    requires CanonicalLocals(f, lhs, rhs, kind, s) && (op == M.Shl || op == M.Shr)
    ensures var (l, r) := (ReadReg(f, lhs, X16), ReadReg(f, rhs, X17));
      ComputesX16(
        ReadCode(f, rhs, X17) + (CountCheck(kind, r) + (ReadCode(f, lhs, X16) + ShiftTail(op, kind, l, r))), s,
                  Meaning(op, kind, CellOf(f, s, f.place(lhs)), CellOf(f, s, f.place(rhs))))
  {
    var l, r := ReadReg(f, lhs, X16), ReadReg(f, rhs, X17);
    var a, b := CellOf(f, s, f.place(lhs)), CellOf(f, s, f.place(rhs));
    assert kind.Valid() && Reaches(f, f.place(lhs)) && Reaches(f, f.place(rhs));
    assert Canonical(kind, a) && Canonical(kind, b);
    CountMeaning(kind, b);
    ScratchRegisters();
    ShiftReads(f, lhs, rhs, kind, s);
    var t := AfterRead(f, rhs, X17, s);
    var u := AfterCount(kind, r, t);
    hide *;
    ReadCorrect(f, rhs, X17, s);
    ReadCorrect(f, lhs, X16, u);
    ShiftRest(f, op, lhs, r, kind, u, a, b);
    ShiftTailClosed(op, kind, l, r);
    CountThenShift(f, op, lhs, r, kind, t, a, b);
    var rest := ReadCode(f, lhs, X16) + ShiftTail(op, kind, l, r);
    ComputesClosed(CountCheck(kind, r) + rest, t, Meaning(op, kind, a, b));
    RunTwo(ReadCode(f, rhs, X17), CountCheck(kind, r) + rest, s, Meaning(op, kind, a, b));
  }

  /** With an accepted count: read the left operand and shift it. */
  lemma ShiftRest(f: Frame, op: M.BinaryOp, lhs: LocalId, r: Reg, kind: IntKind, u: State, a: Word, b: Word)
    requires kind.Valid() && Reaches(f, f.place(lhs)) && (op == M.Shl || op == M.Shr)
    requires var v := AfterRead(f, lhs, X16, u);
      Same(u, v) && Get(v, r) == b && Get(v, ReadReg(f, lhs, X16)) == a
    ensures Closed(ReadCode(f, lhs, X16) + ShiftTail(op, kind, ReadReg(f, lhs, X16), r))
    ensures var y := Unsigned(b) % 64;
      ComputesX16(ReadCode(f, lhs, X16) + ShiftTail(op, kind, ReadReg(f, lhs, X16), r), u,
                  Gives(ShiftWord(op, kind, a, y)))
  {
    hide *;
    ScratchRegisters();
    var l := ReadReg(f, lhs, X16);
    var v := AfterRead(f, lhs, X16, u);
    ReadCorrect(f, lhs, X16, u);
    ShiftTailClosed(op, kind, l, r);
    ClosedConcat(ReadCode(f, lhs, X16), ShiftTail(op, kind, l, r));
    ShiftTailCorrect(op, kind, l, r, v, Unsigned(b) % 64);
    RunTwo(ReadCode(f, lhs, X16), ShiftTail(op, kind, l, r), u, Gives(ShiftWord(op, kind, a, Unsigned(b) % 64)));
  }

  lemma CountThenShift(f: Frame, op: M.BinaryOp, lhs: LocalId, r: Reg, kind: IntKind, t: State, a: Word, b: Word)
    requires kind.Valid() && Reaches(f, f.place(lhs)) && (op == M.Shl || op == M.Shr) && (r == X17 || r.Local?)
    requires Canonical(kind, a) && Canonical(kind, b) && Get(t, r) == b
    requires var u := AfterCount(kind, r, t);
      var v := AfterRead(f, lhs, X16, u);
      Same(t, u) && Same(u, v) && Get(v, r) == b && Get(v, ReadReg(f, lhs, X16)) == a
    ensures ComputesX16(CountCheck(kind, r) + (ReadCode(f, lhs, X16) + ShiftTail(op, kind, ReadReg(f, lhs, X16), r)), t,
                        Meaning(op, kind, a, b))
  {
    var u, y := AfterCount(kind, r, t), Value(kind, b);
    assert u == t.(x15 := kind.bits, flags := SubFlags(b, kind.bits));
    hide *;
    CountMeaning(kind, b);
    CountCheckCorrect(kind, r, t);
    ShiftWordMeaning(op, kind, a, b);
    ShiftRest(f, op, lhs, r, kind, u, a, b);
    RunTwo(CountCheck(kind, r), ReadCode(f, lhs, X16) + ShiftTail(op, kind, ReadReg(f, lhs, X16), r), t,
           Meaning(op, kind, a, b));
  }

  /** AArch64 computes what the operator means, at every type, for all canonical
      operands and wherever the three locals live, except `%` with its dividend in
      a frame slot; there it computes `Remainder(.., true)`. */
  lemma IntegerBinaryCorrect(f: Frame, dst: LocalId, op: M.BinaryOp, lhs: LocalId, rhs: LocalId,
                             kind: IntKind, s: State)
    requires CanonicalLocals(f, lhs, rhs, kind, s) && Reaches(f, f.place(dst))
    ensures Computes(f, IntegerBinary(f, dst, op, lhs, rhs, kind), s, f.place(dst),
                     Computed(op, kind, CellOf(f, s, f.place(lhs)), CellOf(f, s, f.place(rhs)), f.place(lhs).Memory?))
    ensures op != M.Rem || f.place(lhs).Register? ==>
      Computes(f, IntegerBinary(f, dst, op, lhs, rhs, kind), s, f.place(dst),
               Meaning(op, kind, CellOf(f, s, f.place(lhs)), CellOf(f, s, f.place(rhs))))
  {
    var a, b := CellOf(f, s, f.place(lhs)), CellOf(f, s, f.place(rhs));
    assert kind.Valid();
    var outcome := Computed(op, kind, a, b, f.place(lhs).Memory?);
    RemainderFromRegister(kind, a, b);
    var (l, r) := (ReadReg(f, lhs, X16), ReadReg(f, rhs, X17));
    hide ReadCode, WriteCode, Computes, CellOf, Meaning, Remainder, Canonical, Core, CanonicalLocals, Reaches;
    if op == M.Shl || op == M.Shr {
      ShiftCorrect(f, op, lhs, rhs, kind, s);
      ThenWrite(f, ReadCode(f, rhs, X17) + (CountCheck(kind, r) + (ReadCode(f, lhs, X16) + ShiftTail(op, kind, l, r))),
                dst, s, outcome);
    } else {
      PlainCorrect(f, op, lhs, rhs, kind, s);
      ThenWrite(f, ReadCode(f, lhs, X16) + (ReadCode(f, rhs, X17) + Core(op, kind, l, r)), dst, s, outcome);
    }
  }

  lemma ThenWrite(f: Frame, code: seq<Inst>, dst: LocalId, s: State, outcome: Outcome)
    requires ComputesX16(code, s, outcome) && Reaches(f, f.place(dst))
    ensures Computes(f, code + WriteCode(f, dst, X16), s, f.place(dst), outcome)
  {
    hide Exec, Closed, WriteCode, Wrap;
    ExecConcat(code, WriteCode(f, dst, X16), s);
    if outcome.Gives? {
      WriteCorrect(f, dst, Exec(code, 0, s).state);
    }
  }

  /** With a spilled dividend `%` is right for exactly the operands that trap, a
      zero dividend, and a divisor of one. */
  lemma SpilledRemainderExact(f: Frame, dst: LocalId, lhs: LocalId, rhs: LocalId, kind: IntKind, s: State)
    requires CanonicalLocals(f, lhs, rhs, kind, s) && Reaches(f, f.place(dst)) && f.place(lhs).Memory?
    ensures var (a, b) := (CellOf(f, s, f.place(lhs)), CellOf(f, s, f.place(rhs)));
      var (x, y) := (Value(kind, a), Value(kind, b));
      (Computes(f, IntegerBinary(f, dst, M.Rem, lhs, rhs, kind), s, f.place(dst), Meaning(M.Rem, kind, a, b)))
        <==> (y == 0 || NoQuotient(kind, x, y) || x == 0 || y == 1)
  {
    var a, b := CellOf(f, s, f.place(lhs)), CellOf(f, s, f.place(rhs));
    assert kind.Valid() && Canonical(kind, a) && Canonical(kind, b);
    RemainderFromSlot(kind, a, b);
    var given := Computed(M.Rem, kind, a, b, true);
    assert given == Remainder(kind, a, b, true);
    var code := IntegerBinary(f, dst, M.Rem, lhs, rhs, kind);
    hide IntegerBinary, Computes, Meaning, Remainder, CellOf, Computed, Canonical, Value, NoQuotient;
    IntegerBinaryCorrect(f, dst, M.Rem, lhs, rhs, kind, s);
    if Computes(f, code, s, f.place(dst), Meaning(M.Rem, kind, a, b)) {
      OutcomeUnique(f, code, s, f.place(dst), given, Meaning(M.Rem, kind, a, b));
    }
  }

  /** 7 % 2 comes out as -3 when the dividend was spilled, at every type. */
  lemma SpilledDividendCounterexample(f: Frame, dst: LocalId, lhs: LocalId, rhs: LocalId, kind: IntKind, s: State)
    requires CanonicalLocals(f, lhs, rhs, kind, s) && Reaches(f, f.place(dst)) && f.place(lhs).Memory?
    requires CellOf(f, s, f.place(lhs)) == 7 && CellOf(f, s, f.place(rhs)) == 2
    ensures Computes(f, IntegerBinary(f, dst, M.Rem, lhs, rhs, kind), s, f.place(dst), Gives(-3))
    ensures Meaning(M.Rem, kind, 7, 2) == Gives(1)
  {
    assert kind.Valid();
    SevenByTwo(kind);
    assert Computed(M.Rem, kind, 7, 2, true) == Remainder(kind, 7, 2, true);
    hide IntegerBinary, Computes, Meaning, Remainder, CellOf, Computed, CanonicalLocals;
    IntegerBinaryCorrect(f, dst, M.Rem, lhs, rhs, kind, s);
  }

  lemma OutcomeUnique(f: Frame, code: seq<Inst>, s: State, at: Location, o: Outcome, p: Outcome)
    requires Computes(f, code, s, at, o) && Computes(f, code, s, at, p)
    ensures o == p
  {
    hide Exec, Wrap;
    if o.Gives? && p.Gives? {
      var t := Exec(code, 0, s).state;
      match at
      case Register(i) => assert t.regs[i] == o.word && t.regs[i] == p.word;
      case Memory(slot) =>
        var m := Address(s, SlotOffset(f, slot));
        assert t.mem[m] == o.word && t.mem[m] == p.word;
    }
  }

  function Worth(half: nat): nat {
    if half == 0 then 0 else 1
  }

  /** A constant takes one instruction for each halfword that is not zero, and one if all
      of them are. */
  lemma MaterializeLength(target: Reg, bits: nat)
    requires bits < TWO64
    ensures var halves := Worth(bits % 0x1_0000) + Worth(bits / 0x1_0000 % 0x1_0000)
                            + Worth(bits / 0x1_0000_0000 % 0x1_0000) + Worth(bits / 0x1_0000_0000_0000);
      |Materialize(target, bits)| == if halves == 0 then 1 else halves
  {
    HalvesAre(bits);
    hide HalfAt, Pow2;
    LengthFrom(target, bits, 0, false);
  }

  lemma HalvesAre(bits: nat)
    requires bits < TWO64
    ensures HalfAt(bits, 0) == bits % 0x1_0000 && HalfAt(bits, 1) == bits / 0x1_0000 % 0x1_0000
    ensures HalfAt(bits, 2) == bits / 0x1_0000_0000 % 0x1_0000 && HalfAt(bits, 3) == bits / 0x1_0000_0000_0000
  {
    Pow2Values();
    assert Pow2(0) == 1;
    hide Pow2;
    var top := bits / 0x1_0000_0000_0000;
    assert top < 0x1_0000;
    ModUnique(top, 0x1_0000, 0, top);
  }

  function WorthFrom(bits: nat, index: nat): nat
    decreases 4 - index
  {
    if index >= 4 then 0 else Worth(HalfAt(bits, index)) + WorthFrom(bits, index + 1)
  }

  lemma {:induction false} LengthFrom(target: Reg, bits: nat, index: nat, written: bool)
    ensures |MaterializeFrom(target, bits, index, written)|
         == WorthFrom(bits, index) + if !written && WorthFrom(bits, index) == 0 then 1 else 0
    decreases 4 - index
  {
    hide HalfAt;
    if index < 4 { LengthFrom(target, bits, index + 1, written || HalfAt(bits, index) != 0); }
  }

  // ----- encodings ------------------------------------------------------------------

  /** The immediates an instruction can hold: an offset in scaled words of twelve bits, an
      immediate of twelve bits, a halfword on a halfword boundary, a shift below 64. */
  predicate Encodable(i: Inst) {
    match i
    case Load(_, _, offset) => offset % 8 == 0 && offset / 8 < 0x1000
    case Store(_, _, offset) => offset % 8 == 0 && offset / 8 < 0x1000
    case AddImm(_, _, imm) => imm < 0x1000
    case CmnImm(_, imm) => imm < 0x1000
    case Half(_, _, half, shift) => half < 0x1_0000 && shift % 16 == 0 && shift < 64
    case CmpShifted(_, _, amount) => amount < 64
    case _ => true
  }

  ghost predicate AllEncodable(code: seq<Inst>) {
    forall i :: i in code ==> Encodable(i)
  }

  lemma EncodableConcat(a: seq<Inst>, b: seq<Inst>)
    ensures AllEncodable(a + b) <==> AllEncodable(a) && AllEncodable(b)
  {
    hide Encodable;
    forall i | i in a || i in b ensures i in a + b {}
  }

  lemma {:induction false} MaterializeEncodable(target: Reg, bits: nat, index: nat, written: bool)
    ensures AllEncodable(MaterializeFrom(target, bits, index, written))
    decreases 4 - index
  {
    hide Pow2;
    if index < 4 { MaterializeEncodable(target, bits, index + 1, written || HalfAt(bits, index) != 0); }
  }

  lemma OneEncodable(i: Inst)
    requires Encodable(i)
    ensures AllEncodable([i])
  {
  }

  lemma ConstantEncodable(target: Reg, bits: nat)
    ensures AllEncodable(Materialize(target, bits)) && |Materialize(target, bits)| >= 1
  {
    hide MaterializeFrom, AllEncodable;
    MaterializeEncodable(target, bits, 0, false);
    WritesSomething(target, bits, 0);
  }

  /** A slot's address is one addition exactly when its offset has an encoding. */
  lemma AddressEncodable(r: Reg, offset: nat)
    ensures AllEncodable(AddressOfSlot(r, offset))
    ensures AddressOfSlot(r, offset) == [AddImm(r, Sp, offset)] <==> Encodable(AddImm(r, Sp, offset))
  {
    ConstantEncodable(r, offset);
    hide Materialize;
    if offset > 4095 {
      EncodableConcat(Materialize(r, offset), [Arith(AddOp, r, Sp, r)]);
      assert |AddressOfSlot(r, offset)| >= 2;
    }
  }

  /** A frame access is short exactly when its offset has an encoding, and encodable
      either way. */
  lemma FrameAccessEncodable(r: Reg, offset: nat)
    requires offset % 8 == 0
    ensures AllEncodable(FrameLoad(r, offset)) && AllEncodable(FrameStore(r, offset))
    ensures FrameLoad(r, offset) == [Load(r, Sp, offset)] <==> Encodable(Load(r, Sp, offset))
    ensures FrameStore(r, offset) == [Store(r, Sp, offset)] <==> Encodable(Store(r, Sp, offset))
  {
    if offset > 32760 {
      AddressEncodable(r, offset);
      AddressEncodable(X17, offset);
      AddressTakes(r, offset);
      AddressTakes(X17, offset);
      OneEncodable(Load(r, r, 0));
      OneEncodable(Store(r, X17, 0));
      hide AddressOfSlot, AllEncodable;
      EncodableConcat(AddressOfSlot(r, offset), [Load(r, r, 0)]);
      EncodableConcat(AddressOfSlot(X17, offset), [Store(r, X17, 0)]);
      assert |FrameLoad(r, offset)| >= 2 && |FrameStore(r, offset)| >= 2;
    } else {
      OneEncodable(Load(r, Sp, offset));
      OneEncodable(Store(r, Sp, offset));
      hide AllEncodable;
    }
  }

  lemma AddressTakes(r: Reg, offset: nat)
    ensures |AddressOfSlot(r, offset)| >= 1
  {
    hide Materialize;
  }

  /** A constant takes at least one instruction. */
  lemma {:induction false} WritesSomething(target: Reg, bits: nat, index: nat)
    ensures |MaterializeFrom(target, bits, index, false)| >= 1
    decreases 4 - index
  {
    hide Pow2;
    if index < 4 && HalfAt(bits, index) == 0 { WritesSomething(target, bits, index + 1); }
  }

  /** Every instruction emitted for an operator has an encoding, wherever the locals are. */
  lemma IntegerBinaryEncodable(f: Frame, dst: LocalId, op: M.BinaryOp, lhs: LocalId, rhs: LocalId, kind: IntKind)
    requires kind.Valid() && f.slotBase % 8 == 0
    ensures AllEncodable(IntegerBinary(f, dst, op, lhs, rhs, kind))
  {
    var l, r := ReadReg(f, lhs, X16), ReadReg(f, rhs, X17);
    AccessEncodable(f, lhs, X16);
    AccessEncodable(f, rhs, X17);
    AccessEncodable(f, dst, X16);
    if op == M.Shl || op == M.Shr {
      ShiftEncodable(op, kind, l, r);
      hide AllEncodable, ReadCode, WriteCode, CountCheck, ShiftTail, ReadReg;
      EncodableConcat(ReadCode(f, lhs, X16), ShiftTail(op, kind, l, r));
      EncodableConcat(CountCheck(kind, r), ReadCode(f, lhs, X16) + ShiftTail(op, kind, l, r));
      var middle := CountCheck(kind, r) + (ReadCode(f, lhs, X16) + ShiftTail(op, kind, l, r));
      EncodableConcat(ReadCode(f, rhs, X17), middle);
      EncodableConcat(ReadCode(f, rhs, X17) + middle, WriteCode(f, dst, X16));
    } else {
      OperationEncodable(op, kind, l, r);
      hide AllEncodable, ReadCode, WriteCode, Core, ReadReg;
      EncodableConcat(ReadCode(f, rhs, X17), Core(op, kind, l, r));
      EncodableConcat(ReadCode(f, lhs, X16), ReadCode(f, rhs, X17) + Core(op, kind, l, r));
      EncodableConcat(ReadCode(f, lhs, X16) + (ReadCode(f, rhs, X17) + Core(op, kind, l, r)), WriteCode(f, dst, X16));
    }
  }

  lemma AccessEncodable(f: Frame, l: LocalId, r: Reg)
    requires f.slotBase % 8 == 0
    ensures AllEncodable(ReadCode(f, l, r)) && AllEncodable(WriteCode(f, l, r))
  {
    hide FrameLoad, FrameStore;
    if f.place(l).Memory? { FrameAccessEncodable(r, SlotOffset(f, f.place(l).slot)); }
  }

  lemma ShiftEncodable(op: M.BinaryOp, kind: IntKind, l: Reg, r: Reg)
    requires kind.Valid()
    ensures AllEncodable(CountCheck(kind, r)) && AllEncodable(ShiftTail(op, kind, l, r))
  {
    ConstantEncodable(X15, kind.bits);
    hide Materialize;
    EncodableConcat(Materialize(X15, kind.bits), CompareCount(r));
  }

  lemma OperationEncodable(op: M.BinaryOp, kind: IntKind, l: Reg, r: Reg)
    requires kind.Valid() && op != M.Shl && op != M.Shr
    ensures AllEncodable(Core(op, kind, l, r))
  {
    CheckEncodable(kind);
    GuardEncodable(kind, l, r);
    hide CanonicalizeChecked, Guard;
    if op == M.Div || op == M.Rem {
      var divide := [Arith(if kind.signed || !kind.IsFullWidth() then Sdiv else Udiv, X16, l, r)];
      var tail := if op == M.Rem then [Msub(X16, X16, r, l)] else CanonicalizeChecked(kind);
      EncodableConcat(divide, tail);
      EncodableConcat(Guard(kind, l, r), divide + tail);
      EncodableConcat([Cbz(r, DivZero)], Guard(kind, l, r) + (divide + tail));
    }
  }

  lemma CheckEncodable(kind: IntKind)
    ensures AllEncodable(CanonicalizeChecked(kind))
  {
  }

  lemma GuardTailEncodable(l: Reg, r: Reg)
    ensures AllEncodable([Cmp(l, X15), Bcond(Ne, Forward), CmnImm(r, 1), Bcond(Eq, Trampoline(Overflow)), Label])
  {
  }

  lemma NothingEncodable()
    ensures AllEncodable([])
  {
  }

  lemma GuardEncodable(kind: IntKind, l: Reg, r: Reg)
    ensures AllEncodable(Guard(kind, l, r))
  {
    ConstantEncodable(X15, 0x8000_0000_0000_0000);
    GuardTailEncodable(l, r);
    hide Materialize, AllEncodable;
    NothingEncodable();
    EncodableConcat(Materialize(X15, 0x8000_0000_0000_0000),
                    [Cmp(l, X15), Bcond(Ne, Forward), CmnImm(r, 1), Bcond(Eq, Trampoline(Overflow)), Label]);
  }

  // ----- the generator ------------------------------------------------------------

  class Generator {
    var asm: seq<Inst>
    const frame: Frame

    constructor (frame: Frame)
      ensures asm == [] && this.frame == frame
    {
      this.frame := frame;
      asm := [];
    }

    method Emit(i: Inst)
      modifies this
      ensures asm == old(asm) + [i]
    {
      asm := asm + [i];
    }

    method EmitMaterialize(target: Reg, bits: nat)
      modifies this
      ensures asm == old(asm) + Materialize(target, bits)
    {
      hide HalfAt;
      var written := false;
      var index := 0;
      while index < 4
        invariant 0 <= index <= 4
        invariant asm + MaterializeFrom(target, bits, index, written) == old(asm) + Materialize(target, bits)
      {
        var half := HalfAt(bits, index);
        if half != 0 {
          Emit(Half(written, target, half, 16 * index));
          written := true;
        }
        index := index + 1;
      }
      if !written {
        Emit(Half(false, target, 0, 0));
      }
    }

    method EmitAddressOfSlot(target: Reg, offset: nat)
      modifies this
      ensures asm == old(asm) + AddressOfSlot(target, offset)
    {
      hide Materialize;
      if offset <= 4095 {
        Emit(AddImm(target, Sp, offset));
      } else {
        EmitMaterialize(target, offset);
        Emit(Arith(AddOp, target, Sp, target));
      }
    }

    method EmitLoad(target: Reg, offset: nat)
      modifies this
      ensures asm == old(asm) + FrameLoad(target, offset)
    {
      hide AddressOfSlot;
      if offset <= 32760 {
        Emit(Load(target, Sp, offset));
      } else {
        EmitAddressOfSlot(target, offset);
        Emit(Load(target, target, 0));
      }
    }

    method EmitStore(source: Reg, offset: nat)
      modifies this
      ensures asm == old(asm) + FrameStore(source, offset)
    {
      hide AddressOfSlot;
      if offset <= 32760 {
        Emit(Store(source, Sp, offset));
      } else {
        EmitAddressOfSlot(X17, offset);
        Emit(Store(source, X17, 0));
      }
    }

    method EmitRead(l: LocalId, scratch: Reg) returns (r: Reg)
      modifies this
      ensures asm == old(asm) + ReadCode(frame, l, scratch)
      ensures r == ReadReg(frame, l, scratch)
    {
      hide FrameLoad;
      match frame.place(l)
      case Register(i) =>
        r := Local(i);
      case Memory(slot) =>
        EmitLoad(scratch, SlotOffset(frame, slot));
        r := scratch;
    }

    method EmitWrite(l: LocalId, source: Reg)
      modifies this
      ensures asm == old(asm) + WriteCode(frame, l, source)
    {
      hide FrameStore;
      match frame.place(l)
      case Register(i) =>
        if Local(i) != source {
          Emit(Mov(Local(i), source));
        }
      case Memory(slot) =>
        EmitStore(source, SlotOffset(frame, slot));
    }

    method EmitCanonicalize(kind: IntKind)
      requires kind.Valid()
      modifies this
      ensures asm == old(asm) + Canonicalizing(kind)
    {
      if kind.bits == 64 {
      } else if kind.bits == 32 && kind.signed {
        Emit(SxtwX16);
      } else if kind.bits == 32 {
        Emit(MovW16);
      } else if kind.bits == 8 && kind.signed {
        Emit(ExtendX16(Sxtb));
      } else if kind.signed {
        Emit(ExtendX16(Sxth));
      } else if kind.bits == 8 {
        Emit(ExtendX16(Uxtb));
      } else {
        Emit(ExtendX16(Uxth));
      }
    }

    method EmitCanonicalizeChecked(kind: IntKind)
      requires kind.Valid()
      modifies this
      ensures asm == old(asm) + CanonicalizeChecked(kind)
    {
      hide Canonicalizing;
      if !kind.IsFullWidth() {
        Emit(Mov(X15, X16));
        EmitCanonicalize(kind);
        Emit(Cmp(X16, X15));
        Emit(Bcond(Ne, Trampoline(Overflow)));
      }
    }

    method EmitIntegerBinary(dst: LocalId, op: M.BinaryOp, lhs: LocalId, rhs: LocalId, ty: Type)
      modifies this
      ensures asm == old(asm) + IntegerBinary(frame, dst, op, lhs, rhs, Regime(ty))
    {
      hide ReadCode, ReadReg, WriteCode, Core, CountCheck, ShiftTail;
      var kind := Regime(ty);
      if op == M.Shl || op == M.Shr {
        EmitShift(op, lhs, rhs, kind);
      } else {
        var left := EmitRead(lhs, X16);
        var right := EmitRead(rhs, X17);
        EmitCore(op, kind, left, right);
      }
      EmitWrite(dst, X16);
    }

    method EmitCore(op: M.BinaryOp, kind: IntKind, left: Reg, right: Reg)
      requires op != M.Shl && op != M.Shr && kind.Valid()
      modifies this
      ensures asm == old(asm) + Core(op, kind, left, right)
    {
      hide CanonicalizeChecked, IntegerCondition;
      if op.Compares() {
        Emit(Cmp(left, right));
        Emit(Cset(X16, IntegerCondition(op, kind)));
      } else if op == M.Add || op == M.Sub {
        EmitAddSub(op, kind, left, right);
      } else if op == M.Mul {
        EmitMul(kind, left, right);
      } else if op == M.Div || op == M.Rem {
        EmitDivide(op, kind, left, right);
      } else {
        Emit(Arith(BitArith(op), X16, left, right));
      }
    }

    method EmitAddSub(op: M.BinaryOp, kind: IntKind, left: Reg, right: Reg)
      requires kind.Valid()
      modifies this
      ensures asm == old(asm) + AddSubCode(op, kind, left, right)
    {
      Emit(Arith(if op == M.Add then Adds else Subs, X16, left, right));
      if kind.IsFullWidth() {
        Emit(Bcond(Carried(op, kind), Trampoline(Overflow)));
      }
      EmitCanonicalizeChecked(kind);
    }

    method EmitMul(kind: IntKind, left: Reg, right: Reg)
      requires kind.Valid()
      modifies this
      ensures asm == old(asm) + MulCode(kind, left, right)
    {
      if kind.IsFullWidth() {
        Emit(Arith(if kind.signed then Smulh else Umulh, X15, left, right));
      }
      Emit(Arith(MulOp, X16, left, right));
      if kind.IsFullWidth() {
        if kind.signed {
          Emit(CmpShifted(X15, X16, 63));
          Emit(Bcond(Ne, Trampoline(Overflow)));
        } else {
          Emit(Cbnz(X15, Overflow));
        }
      }
      EmitCanonicalizeChecked(kind);
    }

    method EmitDivide(op: M.BinaryOp, kind: IntKind, left: Reg, right: Reg)
      requires kind.Valid() && (op == M.Div || op == M.Rem)
      modifies this
      ensures asm == old(asm) + DivideCode(op, kind, left, right)
    {
      hide Guard, CanonicalizeChecked;
      Emit(Cbz(right, DivZero));
      EmitGuard(kind, left, right);
      Emit(Arith(if kind.signed || !kind.IsFullWidth() then Sdiv else Udiv, X16, left, right));
      if op == M.Rem {
        Emit(Msub(X16, X16, right, left));
      }
      if op == M.Div {
        EmitCanonicalizeChecked(kind);
      }
    }

    method EmitGuard(kind: IntKind, left: Reg, right: Reg)
      modifies this
      ensures asm == old(asm) + Guard(kind, left, right)
    {
      hide Materialize;
      if kind.IsFullWidth() && kind.signed {
        EmitMaterialize(X15, 0x8000_0000_0000_0000);
        Emit(Cmp(left, X15));
        Emit(Bcond(Ne, Forward));
        Emit(CmnImm(right, 1));
        Emit(Bcond(Eq, Trampoline(Overflow)));
        Emit(Label);
      }
    }

    method EmitShift(op: M.BinaryOp, lhs: LocalId, rhs: LocalId, kind: IntKind)
      requires kind.Valid() && (op == M.Shl || op == M.Shr)
      modifies this
      ensures asm == old(asm) + (ReadCode(frame, rhs, X17) + (CountCheck(kind, ReadReg(frame, rhs, X17))
                                   + (ReadCode(frame, lhs, X16)
                                   + ShiftTail(op, kind, ReadReg(frame, lhs, X16), ReadReg(frame, rhs, X17)))))
    {
      hide ReadCode, ReadReg, Materialize, Canonicalizing, Variable;
      var count := EmitRead(rhs, X17);
      EmitMaterialize(X15, kind.bits);
      Emit(Cmp(count, X15));
      Emit(Bcond(Hs, Trampoline(ShiftCount)));
      var left := EmitRead(lhs, X16);
      Emit(Arith(Variable(op, kind), X16, left, count));
      if op == M.Shl {
        EmitCanonicalize(kind);
      }
    }
  }
}
