/** Integer operators on x86-64: the instructions the generator emits, a machine
    that runs them, and the proof that they compute what the operators mean. */
module X86Arith {
  import opened Types
  import M = Mir
  import opened RegAlloc
  import opened Words
  import opened IntSpec
  import C = Code

  type LocalId = M.LocalId
  type Place = LocalId -> Location

  // ----- the machine --------------------------------------------------------

  datatype Operand = Rax | Rcx | Rdx | Cell(at: Location) | Imm(value: Word)

  datatype Cond = O | B | E | Ne | Ae | A | Be | L | G | Le | Ge

  datatype AluOp = AddOp | SubOp | AndOp | OrOp | XorOp | CmpOp

  datatype ShiftOp = Shl | Sar | Shr

  datatype Target = Trampoline(trap: Trap) | Forward

  datatype Inst =
    | Mov(dst: Operand, src: Operand)
    | MovEaxEax
    | MovsxdRaxEax
    | ShiftImm(shift: ShiftOp, count: nat)
    | ShiftCl(shift: ShiftOp)
    | Alu(alu: AluOp, dst: Operand, src: Operand)
    | Test(dst: Operand, src: Operand)
    | Imul(dst: Operand, src: Operand)
    | MulRcx
    | DivRcx
    | IdivRcx
    | Cqo
    | SetccAl(cond: Cond)
    | MovzxAl(dst: Operand)
    | Jcc(cond: Cond, target: Target)
    | Label

  datatype Flags = Flags(zero: bool, carry: bool, overflow: bool, sign: bool)

  datatype State = State(rax: Word, rcx: Word, rdx: Word, cells: map<Location, Word>, flags: Flags)

  type Result = C.Result<State>

  function CellOf(s: State, at: Location): Word {
    if at in s.cells then s.cells[at] else 0
  }

  function Get(s: State, o: Operand): Word {
    match o
    case Rax => s.rax
    case Rcx => s.rcx
    case Rdx => s.rdx
    case Cell(at) => CellOf(s, at)
    case Imm(v) => v
  }

  function Set(s: State, o: Operand, w: Word): State {
    match o
    case Rax => s.(rax := w)
    case Rcx => s.(rcx := w)
    case Rdx => s.(rdx := w)
    case Cell(at) => s.(cells := s.cells[at := w])
    case Imm(_) => s
  }

  function Holds(c: Cond, f: Flags): bool {
    match c
    case O => f.overflow
    case B => f.carry
    case Ae => !f.carry
    case E => f.zero
    case Ne => !f.zero
    case A => !f.carry && !f.zero
    case Be => f.carry || f.zero
    case L => f.sign != f.overflow
    case Ge => f.sign == f.overflow
    case G => !f.zero && f.sign == f.overflow
    case Le => f.zero || f.sign != f.overflow
  }

  function AddFlags(a: Word, b: Word): Flags {
    Flags(Wrap(a + b) == 0, Unsigned(a) + Unsigned(b) >= TWO64, !Fits(a + b), Wrap(a + b) < 0)
  }

  function SubFlags(a: Word, b: Word): Flags {
    Flags(Wrap(a - b) == 0, Unsigned(a) < Unsigned(b), !Fits(a - b), Wrap(a - b) < 0)
  }

  function LogicFlags(w: Word): Flags {
    Flags(w == 0, false, false, w < 0)
  }

  function AluResult(alu: AluOp, a: Word, b: Word): Word {
    match alu
    case AddOp => Wrap(a + b)
    case SubOp => Wrap(a - b)
    case AndOp => Bitwise(And, a, b)
    case OrOp => Bitwise(Or, a, b)
    case XorOp => Bitwise(Xor, a, b)
    case CmpOp => a
  }

  function AluFlags(alu: AluOp, a: Word, b: Word): Flags {
    match alu
    case AddOp => AddFlags(a, b)
    case SubOp => SubFlags(a, b)
    case CmpOp => SubFlags(a, b)
    case _ => LogicFlags(AluResult(alu, a, b))
  }

  function Shifted(shift: ShiftOp, w: Word, count: nat): Word {
    match shift
    case Shl => ShiftLeft(w, count)
    case Sar => ArithmeticRight(w, count)
    case Shr => LogicalRight(w, count)
  }

  function FullProduct(a: Word, b: Word): nat {
    Unsigned(a) * Unsigned(b)
  }

  /** What one instruction that is not a jump does; `None` is a divide fault. */
  function Effect(i: Inst, s: State): Option<State> {
    match i
    case Mov(dst, src) => Some(Set(s, dst, Get(s, src)))
    // Writing a 32-bit register clears the upper half.
    case MovEaxEax => Some(s.(rax := s.rax % 0x1_0000_0000))
    case MovsxdRaxEax => Some(s.(rax := Centered(s.rax, 0x1_0000_0000)))
    case ShiftImm(shift, count) => Some(s.(rax := Shifted(shift, s.rax, count)))
    // The hardware masks the count to six bits.
    case ShiftCl(shift) => Some(s.(rax := Shifted(shift, s.rax, Unsigned(s.rcx) % 64)))
    case Alu(alu, dst, src) =>
      var a, b := Get(s, dst), Get(s, src);
      var t := s.(flags := AluFlags(alu, a, b));
      Some(if alu == CmpOp then t else Set(t, dst, AluResult(alu, a, b)))
    case Test(dst, src) =>
      Some(s.(flags := LogicFlags(Bitwise(And, Get(s, dst), Get(s, src)))))
    case Imul(dst, src) =>
      var p := Get(s, dst) * Get(s, src);
      Some(Set(s.(flags := s.flags.(carry := !Fits(p), overflow := !Fits(p))), dst, Wrap(p)))
    case MulRcx =>
      var p := FullProduct(s.rax, s.rcx);
      var high := p / TWO64;
      Some(s.(rax := Wrap(p), rdx := Wrap(high),
              flags := s.flags.(carry := high != 0, overflow := high != 0)))
    case DivRcx =>
      var divisor, dividend := Unsigned(s.rcx), Unsigned(s.rdx) * TWO64 + Unsigned(s.rax);
      if divisor == 0 || dividend / divisor >= TWO64 then None
      else Some(s.(rax := Wrap(dividend / divisor), rdx := Wrap(dividend % divisor)))
    case IdivRcx =>
      var divisor, dividend := s.rcx, s.rdx * TWO64 + Unsigned(s.rax);
      if divisor == 0 || !Fits(TruncDiv(dividend, divisor)) then None
      else Some(s.(rax := TruncDiv(dividend, divisor), rdx := Wrap(TruncRem(dividend, divisor))))
    case Cqo => Some(s.(rdx := if s.rax < 0 then -1 else 0))
    case SetccAl(c) => Some(s.(rax := Wrap(s.rax - s.rax % 256 + if Holds(c, s.flags) then 1 else 0)))
    case MovzxAl(dst) => Some(Set(s, dst, s.rax % 256))
    case Jcc(_, _) => Some(s)
    case Label => Some(s)
  }

  function Step(i: Inst, s: State): C.Step<State> {
    if i.Jcc? && i.target.Trampoline? && Holds(i.cond, s.flags) then C.Stop(i.target.trap)
    else
      match Effect(i, s)
      case Some(t) => C.Next(t)
      case None => C.Fault
  }

  const MACHINE: C.Machine<Inst, State> := C.Machine(
    (i, s) => Step(i, s),
    (i: Inst) => i.Jcc? && i.target.Forward?,
    (i: Inst, s: State) => i.Jcc? && Holds(i.cond, s.flags),
    i => i == Label)

  function Exec(code: seq<Inst>, pc: nat, s: State): Result {
    C.Exec(MACHINE, code, pc, s)
  }

  ghost predicate Closed(code: seq<Inst>) {
    C.Closed(MACHINE, code)
  }

  function AfterLabel(code: seq<Inst>, pc: nat): nat {
    C.AfterLabel(MACHINE, code, pc)
  }

  /** Code without forward jumps needs no labels. */
  predicate NoForward(code: seq<Inst>) {
    forall i :: 0 <= i < |code| && code[i].Jcc? ==> code[i].target.Trampoline?
  }

  lemma NoForwardClosed(code: seq<Inst>)
    requires NoForward(code)
    ensures Closed(code)
  {
  }

  lemma ExecConcat(a: seq<Inst>, b: seq<Inst>, s: State)
    requires Closed(a)
    ensures Exec(a + b, 0, s) == match Exec(a, 0, s) { case Ended(t) => Exec(b, 0, t) case r => r }
  {
    C.ExecConcat(MACHINE, a, b, 0, s);
  }

  lemma ClosedConcat(a: seq<Inst>, b: seq<Inst>)
    requires Closed(a) && Closed(b)
    ensures Closed(a + b)
  {
    C.ClosedConcat(MACHINE, a, b);
  }

  lemma ExecStep(code: seq<Inst>, pc: nat, s: State)
    requires pc < |code| && !code[pc].Jcc? && Effect(code[pc], s).Some?
    ensures Exec(code, pc, s) == Exec(code, pc + 1, Effect(code[pc], s).value)
  {
    hide Effect;
  }

  lemma ExecJump(code: seq<Inst>, pc: nat, s: State)
    requires pc < |code| && code[pc].Jcc?
    ensures Exec(code, pc, s) ==
      if !Holds(code[pc].cond, s.flags) then Exec(code, pc + 1, s)
      else if code[pc].target.Trampoline? then C.Stopped(code[pc].target.trap)
      else Exec(code, AfterLabel(code, pc + 1), s)
  {
    hide Holds;
  }

  lemma LabelSearch(code: seq<Inst>, pc: nat)
    requires pc < |code|
    ensures AfterLabel(code, pc) == if code[pc] == Label then pc else AfterLabel(code, pc + 1)
  {
  }

  lemma ClosedMeans(code: seq<Inst>)
    requires forall i :: 0 <= i < |code| && code[i].Jcc? && code[i].target.Forward? ==> AfterLabel(code, i + 1) < |code|
    ensures Closed(code)
  {
  }

  lemma ExecEnd(code: seq<Inst>, s: State)
    ensures Exec(code, |code|, s) == C.Ended(s)
  {
  }

  /** A piece of one instruction. */
  lemma Single(i: Inst, s: State, t: State)
    requires !i.Jcc? && Effect(i, s) == Some(t)
    ensures Closed([i]) && Exec([i], 0, s) == C.Ended(t)
  {
    hide Effect, Exec, Closed;
    NoForwardClosed([i]);
    ExecStep([i], 0, s);
    ExecEnd([i], t);
  }

  // ----- what single instructions do ------------------------------------------

  lemma MovEffect(dst: Operand, src: Operand, s: State)
    ensures Effect(Mov(dst, src), s) == Some(Set(s, dst, Get(s, src)))
  {
  }

  lemma MovImmEffect(dst: Operand, v: Word, s: State)
    ensures Effect(Mov(dst, Imm(v)), s) == Some(Set(s, dst, v))
  {
  }

  lemma CmpEffect(dst: Operand, src: Operand, s: State)
    ensures Effect(Alu(CmpOp, dst, src), s) == Some(s.(flags := SubFlags(Get(s, dst), Get(s, src))))
  {
    hide SubFlags;
  }

  lemma LabelEffect(s: State)
    ensures Effect(Label, s) == Some(s)
  {
  }

  lemma TestEffect(s: State)
    ensures Effect(Test(Rcx, Rcx), s) == Some(s.(flags := LogicFlags(s.rcx)))
  {
    Pow2Values();
    AndSelf(s.rcx, 63);
    hide Pow2, Bits;
  }

  lemma ImulEffect(dst: Operand, src: Operand, s: State)
    ensures var p := Get(s, dst) * Get(s, src);
      Effect(Imul(dst, src), s)
        == Some(Set(s.(flags := s.flags.(carry := !Fits(p), overflow := !Fits(p))), dst, Wrap(p)))
  {
    hide Wrap;
  }

  lemma ShiftEffect(shift: ShiftOp, s: State)
    ensures Effect(ShiftCl(shift), s) == Some(s.(rax := Shifted(shift, s.rax, Unsigned(s.rcx) % 64)))
  {
    hide Shifted;
  }

  lemma AluEffect(alu: AluOp, dst: Operand, src: Operand, s: State)
    requires alu != CmpOp
    ensures var (a, b) := (Get(s, dst), Get(s, src));
      Effect(Alu(alu, dst, src), s) == Some(Set(s.(flags := AluFlags(alu, a, b)), dst, AluResult(alu, a, b)))
  {
    hide AluFlags, AluResult;
  }

  lemma ShiftImmEffect(shift: ShiftOp, count: nat, s: State)
    ensures Effect(ShiftImm(shift, count), s) == Some(s.(rax := Shifted(shift, s.rax, count)))
  {
    hide Shifted;
  }

  // ----- flags and conditions ------------------------------------------------

  lemma ComparisonFlags(a: Word, b: Word)
    ensures var f := SubFlags(a, b);
      && (f.zero <==> a == b)
      && (Holds(L, f) <==> a < b) && (Holds(G, f) <==> a > b)
      && (Holds(Le, f) <==> a <= b) && (Holds(Ge, f) <==> a >= b)
      && (Holds(B, f) <==> Unsigned(a) < Unsigned(b)) && (Holds(A, f) <==> Unsigned(a) > Unsigned(b))
      && (Holds(Be, f) <==> Unsigned(a) <= Unsigned(b)) && (Holds(Ae, f) <==> Unsigned(a) >= Unsigned(b))
  {
    WrapNear(a - b);
    UnsignedIs(a);
    UnsignedIs(b);
  }

  function SetCondition(op: M.BinaryOp, kind: IntKind): Cond
    requires op.Compares()
  {
    var unsigned := !kind.signed && kind.IsFullWidth();
    match op
    case Less => if unsigned then B else L
    case Greater => if unsigned then A else G
    case LessEqual => if unsigned then Be else Le
    case GreaterEqual => if unsigned then Ae else Ge
    case Equal => E
    case _ => Ne
  }

  lemma SetConditionCorrect(op: M.BinaryOp, kind: IntKind, a: Word, b: Word)
    requires op.Compares() && kind.Valid()
    ensures Holds(SetCondition(op, kind), SubFlags(a, b)) <==> Compare(op, Value(kind, a), Value(kind, b))
  {
    ComparisonFlags(a, b);
    UnsignedIs(a);
    UnsignedIs(b);
  }

  // ----- what the generator emits ---------------------------------------------

  function CanonicalizeRax(kind: IntKind): seq<Inst>
    requires kind.Valid()
  {
    if kind.bits == 64 then []
    else if kind.bits == 32 && kind.signed then [MovsxdRaxEax]
    else if kind.bits == 32 then [MovEaxEax]
    else if kind.signed then [ShiftImm(Shl, 64 - kind.bits), ShiftImm(Sar, 64 - kind.bits)]
    else [Alu(AndOp, Rax, Imm(Mask(kind)))]
  }

  function CanonicalizeRaxChecked(kind: IntKind): seq<Inst>
    requires kind.Valid()
  {
    [Mov(Rcx, Rax)] + CanonicalizeRax(kind) + [Alu(CmpOp, Rax, Rcx), Jcc(Ne, Trampoline(Overflow))]
  }

  function Carried(kind: IntKind): Cond {
    if kind.signed then O else B
  }

  function AluOf(op: M.BinaryOp): AluOp {
    match op
    case Add => AddOp
    case Sub => SubOp
    case BitAnd => AndOp
    case BitOr => OrOp
    case _ => XorOp
  }

  function ShiftOf(op: M.BinaryOp, kind: IntKind): ShiftOp {
    if op == M.Shl then Shl else if kind.signed then Sar else Shr
  }

  /** The divide, after the check for a zero divisor. */
  function DivideCode(kind: IntKind): seq<Inst> {
    if !kind.signed && kind.IsFullWidth() then [Alu(XorOp, Rdx, Rdx), DivRcx]
    else if kind.IsFullWidth() then
      [ Mov(Rdx, Imm(-0x8000_0000_0000_0000)),
        Alu(CmpOp, Rax, Rdx), Jcc(Ne, Forward),
        Alu(CmpOp, Rcx, Imm(-1)), Jcc(E, Trampoline(Overflow)),
        Label,
        Cqo, IdivRcx ]
    else [Cqo, IdivRcx]
  }

  /** The operation itself, with its operands in `rax` and `rcx`. */
  function Core(op: M.BinaryOp, kind: IntKind): seq<Inst>
    requires kind.Valid()
  {
    match op
    case Add => [Alu(AddOp, Rax, Rcx)] + if kind.IsFullWidth() then [Jcc(Carried(kind), Trampoline(Overflow))] else []
    case Sub => [Alu(SubOp, Rax, Rcx)] + if kind.IsFullWidth() then [Jcc(Carried(kind), Trampoline(Overflow))] else []
    case Mul =>
      [if kind.IsFullWidth() && !kind.signed then MulRcx else Imul(Rax, Rcx), Jcc(O, Trampoline(Overflow))]
    case Div => [Test(Rcx, Rcx), Jcc(E, Trampoline(DivZero))] + DivideCode(kind)
    case Rem => [Test(Rcx, Rcx), Jcc(E, Trampoline(DivZero))] + DivideCode(kind) + [Mov(Rax, Rdx)]
    case BitAnd => [Alu(AndOp, Rax, Rcx)]
    case BitOr => [Alu(OrOp, Rax, Rcx)]
    case BitXor => [Alu(XorOp, Rax, Rcx)]
    case Shl => ShiftCode(op, kind)
    case Shr => ShiftCode(op, kind)
    case _ => [Alu(CmpOp, Rax, Rcx), SetccAl(SetCondition(op, kind)), MovzxAl(Rax)]
  }

  function ShiftCode(op: M.BinaryOp, kind: IntKind): seq<Inst>
    requires kind.Valid()
  {
    [Alu(CmpOp, Rcx, Imm(kind.bits)), Jcc(Ae, Trampoline(ShiftCount)), ShiftCl(ShiftOf(op, kind))]
  }

  /** What a narrow type adds: a range check, a truncation or nothing. */
  function Tail(op: M.BinaryOp, kind: IntKind): seq<Inst>
    requires kind.Valid()
  {
    if kind.IsFullWidth() then []
    else
      match op
      case Add => CanonicalizeRaxChecked(kind)
      case Sub => CanonicalizeRaxChecked(kind)
      case Mul => CanonicalizeRaxChecked(kind)
      case Div => CanonicalizeRaxChecked(kind)
      case Shl => CanonicalizeRax(kind)
      case _ => []
  }

  function ThroughRax(place: Place, dst: LocalId, op: M.BinaryOp, lhs: LocalId, rhs: LocalId, kind: IntKind): seq<Inst>
    requires kind.Valid()
  {
    [Mov(Rax, Cell(place(lhs))), Mov(Rcx, Cell(place(rhs)))] + Core(op, kind) + Tail(op, kind)
      + [Mov(Cell(place(dst)), Rax)]
  }

  predicate CanAccumulate(place: Place, dst: LocalId, op: M.BinaryOp, rhs: LocalId, kind: IntKind) {
    && (op in {M.Add, M.Sub, M.Mul} || op.Bitwise())
    && place(dst).Register?
    && place(dst) != place(rhs)
    && (op.Bitwise() || (kind.IsFullWidth() && (kind.signed || op != M.Mul)))
  }

  function Accumulate(
      place: Place, dst: LocalId, op: M.BinaryOp, lhs: LocalId, rhs: LocalId, kind: IntKind): seq<Inst> {
    (if place(dst) != place(lhs) then [Mov(Cell(place(dst)), Cell(place(lhs)))] else [])
      + [AccumulateInst(op, place(dst), place(rhs))]
      + if op.Bitwise() then [] else [Jcc(Carried(kind), Trampoline(Overflow))]
  }

  predicate CanCompareInPlace(place: Place, lhs: LocalId, rhs: LocalId) {
    !(place(lhs).Memory? && place(rhs).Memory?)
  }

  function CompareInPlace(
      place: Place, dst: LocalId, op: M.BinaryOp, lhs: LocalId, rhs: LocalId, kind: IntKind): seq<Inst>
    requires op.Compares()
  {
    [Alu(CmpOp, Cell(place(lhs)), Cell(place(rhs))), SetccAl(SetCondition(op, kind))]
      + if place(dst).Register? then [MovzxAl(Cell(place(dst)))]
        else [MovzxAl(Rax), Mov(Cell(place(dst)), Rax)]
  }

  function IntegerBinary(
      place: Place, dst: LocalId, op: M.BinaryOp, lhs: LocalId, rhs: LocalId, kind: IntKind): seq<Inst>
    requires kind.Valid()
  {
    if CanAccumulate(place, dst, op, rhs, kind) then Accumulate(place, dst, op, lhs, rhs, kind)
    else if op.Compares() && CanCompareInPlace(place, lhs, rhs) then CompareInPlace(place, dst, op, lhs, rhs, kind)
    else ThroughRax(place, dst, op, lhs, rhs, kind)
  }

  /** Into a register that is not the right operand's, an operator that cannot leave its
      type, or whose overflow a flag shows, takes one instruction, one for a copy and one
      for the trap; and operands that are not both in memory are compared where they are. */
  lemma ShortPaths(place: Place, dst: LocalId, op: M.BinaryOp, lhs: LocalId, rhs: LocalId, kind: IntKind)
    requires kind.Valid()
    ensures var size := |IntegerBinary(place, dst, op, lhs, rhs, kind)|;
      && (place(dst).Register? && place(dst) != place(rhs) ==>
            && (op in {M.BitAnd, M.BitOr, M.BitXor} ==> size == if place(dst) == place(lhs) then 1 else 2)
            && (op in {M.Add, M.Sub} && kind.bits == 64 ==> size == if place(dst) == place(lhs) then 2 else 3)
            && (op == M.Mul && kind == IntKind(64, true) ==> size == if place(dst) == place(lhs) then 2 else 3))
      && (op.Compares() && (place(lhs).Register? || place(rhs).Register?) ==>
            size == if place(dst).Register? then 3 else 4)
  {
    hide ThroughRax;
  }

  // ----- pieces of code -------------------------------------------------------

  /** The code leaves the outcome in `rax`, or stops in its trampoline. */
  ghost predicate ComputesRax(code: seq<Inst>, s: State, outcome: Outcome) {
    match outcome
    case Traps(trap) => Exec(code, 0, s) == C.Stopped(trap)
    case Gives(w) =>
      Exec(code, 0, s).Ended? && Exec(code, 0, s).state.rax == w && Exec(code, 0, s).state.cells == s.cells
  }

  /** One piece of code and then another: either the first stops, or it leaves
      the cells alone and the second finishes the job. */
  lemma RunTwo(a: seq<Inst>, b: seq<Inst>, s: State, outcome: Outcome)
    requires Closed(a)
    requires var r := Exec(a, 0, s);
      || (outcome.Traps? && r == C.Stopped(outcome.trap))
      || (r.Ended? && r.state.cells == s.cells && ComputesRax(b, r.state, outcome))
    ensures ComputesRax(a + b, s, outcome)
  {
    hide Exec, Closed;
    ExecConcat(a, b, s);
  }

  lemma RunOne(a: seq<Inst>, s: State, w: Word)
    requires Exec(a, 0, s).Ended? && Exec(a, 0, s).state.cells == s.cells && Exec(a, 0, s).state.rax == w
    ensures ComputesRax(a, s, Gives(w)) && ComputesRax(a + [], s, Gives(w))
  {
    hide Exec;
    assert a + [] == a;
  }

  lemma CanonicalizeRaxCorrect(kind: IntKind, s: State)
    requires kind.Valid()
    ensures Closed(CanonicalizeRax(kind))
    ensures var r := Exec(CanonicalizeRax(kind), 0, s);
      r.Ended? && r.state == s.(rax := Canonicalize(kind, s.rax), flags := r.state.flags)
  {
    hide Exec, Closed, Effect, ShiftLeft, ArithmeticRight, Bitwise, Wrap, AluFlags;
    var code := CanonicalizeRax(kind);
    NoForwardClosed(code);
    if kind.bits == 64 {
      ExecEnd(code, s);
    } else if kind.bits == 32 {
      CanonicalizeMeaning(kind, s.rax);
      Extend32Effect(s);
      ExecStep(code, 0, s);
      ExecEnd(code, Effect(code[0], s).value);
    } else if kind.signed {
      ShiftImmEffect(Shl, 64 - kind.bits, s);
      var t := Effect(code[0], s).value;
      ExecStep(code, 0, s);
      ShiftImmEffect(Sar, 64 - kind.bits, t);
      ExecStep(code, 1, t);
      ExecEnd(code, Effect(code[1], t).value);
    } else {
      AluEffect(AndOp, Rax, Imm(Mask(kind)), s);
      ExecStep(code, 0, s);
      ExecEnd(code, Effect(code[0], s).value);
    }
  }

  lemma Extend32Effect(s: State)
    ensures Effect(MovEaxEax, s) == Some(s.(rax := s.rax % 0x1_0000_0000))
    ensures Effect(MovsxdRaxEax, s) == Some(s.(rax := Centered(s.rax, 0x1_0000_0000)))
  {
  }

  lemma CanonicalizeRaxCheckedCorrect(kind: IntKind, s: State)
    requires kind.Valid()
    ensures ComputesRax(CanonicalizeRaxChecked(kind), s,
                        if Canonical(kind, s.rax) then Gives(s.rax) else Traps(Overflow))
  {
    var first, middle := [Mov(Rcx, Rax)], CanonicalizeRax(kind);
    var last := [Alu(CmpOp, Rax, Rcx), Jcc(Ne, Trampoline(Overflow))];
    assert CanonicalizeRaxChecked(kind) == first + (middle + last);
    hide Exec, Closed, Effect, CanonicalizeRax, CanonicalizeRaxChecked, Canonicalize, Canonical, AfterLabel;
    var s1 := s.(rcx := s.rax);
    MovEffect(Rcx, Rax, s);
    Single(Mov(Rcx, Rax), s, s1);
    CanonicalizeRaxCorrect(kind, s1);
    var s2 := Exec(middle, 0, s1).state;
    ExecConcat(first, middle + last, s);
    ExecConcat(middle, last, s1);
    TrapUnlessEqual(s2);
    CanonicalizeIsCanonical(kind, s.rax);
  }

  /** The comparison that ends a range check. */
  lemma TrapUnlessEqual(s: State)
    ensures Exec([Alu(CmpOp, Rax, Rcx), Jcc(Ne, Trampoline(Overflow))], 0, s)
         == if s.rax == s.rcx then C.Ended(s.(flags := SubFlags(s.rax, s.rcx))) else C.Stopped(Overflow)
  {
    var code := [Alu(CmpOp, Rax, Rcx), Jcc(Ne, Trampoline(Overflow))];
    hide Exec, Effect, SubFlags, AfterLabel;
    var t := s.(flags := SubFlags(s.rax, s.rcx));
    CmpEffect(Rax, Rcx, s);
    ExecStep(code, 0, s);
    ExecJump(code, 1, t);
    ExecEnd(code, t);
    ComparisonFlags(s.rax, s.rcx);
  }

  // ----- the operations -------------------------------------------------------

  ghost predicate CanonicalOperands(kind: IntKind, s: State) {
    kind.Valid() && Canonical(kind, s.rax) && Canonical(kind, s.rcx)
  }

  /** A narrow result that fits a word, followed by its range check. */
  lemma CheckedAfter(kind: IntKind, core: seq<Inst>, s: State, v: int)
    requires kind.Valid() && !kind.IsFullWidth() && Closed(core)
    requires Exec(core, 0, s).Ended? && Exec(core, 0, s).state.cells == s.cells
    requires Fits(v) && Exec(core, 0, s).state.rax == v
    ensures ComputesRax(core + CanonicalizeRaxChecked(kind), s, Checked(kind, v))
  {
    var t := Exec(core, 0, s).state;
    ExecConcat(core, CanonicalizeRaxChecked(kind), s);
    CanonicalizeRaxCheckedCorrect(kind, t);
    hide CanonicalizeRaxChecked, Exec;
  }

  /** The flag each full-width type reads is set exactly when the exact result is
      outside the type. */
  lemma CarriedMeansOverflow(kind: IntKind, a: Word, b: Word)
    requires kind.Valid() && kind.IsFullWidth()
    ensures forall op :: op == M.Add || op == M.Sub ==>
      (Holds(Carried(kind), CombinedFlags(op, a, b)) <==> !InRange(kind, Combined(op, Value(kind, a), Value(kind, b))))
  {
    hide Wrap;
    UnsignedIs(a);
    UnsignedIs(b);
  }

  function CombinedFlags(op: M.BinaryOp, a: Word, b: Word): Flags {
    if op == M.Add then AddFlags(a, b) else SubFlags(a, b)
  }

  lemma AddSubEffect(op: M.BinaryOp, dst: Operand, src: Operand, s: State)
    requires op == M.Add || op == M.Sub
    ensures var (a, b) := (Get(s, dst), Get(s, src));
      Effect(Alu(AluOf(op), dst, src), s)
        == Some(Set(s.(flags := CombinedFlags(op, a, b)), dst, Wrap(Combined(op, a, b))))
  {
    hide Wrap, AddFlags, SubFlags;
  }

  lemma AddSubFullCorrect(op: M.BinaryOp, kind: IntKind, s: State)
    requires op == M.Add || op == M.Sub
    requires CanonicalOperands(kind, s) && kind.IsFullWidth()
    ensures ComputesRax(Core(op, kind), s, Meaning(op, kind, s.rax, s.rcx))
  {
    hide Effect, Exec, CombinedFlags, Combined, Holds, Wrap, InRange, Value, Meaning, Canonical;
    var code := Core(op, kind);
    AddSubMeaning(op, kind, s.rax, s.rcx);
    AddSubEffect(op, Rax, Rcx, s);
    var t := Effect(code[0], s).value;
    ExecStep(code, 0, s);
    ExecJump(code, 1, t);
    ExecEnd(code, t);
    WrapUnsigned(kind, s.rax, s.rcx);
    CarriedMeansOverflow(kind, s.rax, s.rcx);
  }

  lemma AddSubNarrowCorrect(op: M.BinaryOp, kind: IntKind, s: State)
    requires op == M.Add || op == M.Sub
    requires CanonicalOperands(kind, s) && !kind.IsFullWidth()
    ensures ComputesRax(Core(op, kind) + CanonicalizeRaxChecked(kind), s, Meaning(op, kind, s.rax, s.rcx))
  {
    hide *;
    var v, t := NarrowCombined(op, kind, s);
    Single(Alu(AluOf(op), Rax, Rcx), s, t);
    CheckedAfter(kind, Core(op, kind), s, v);
  }

  /** A sum or difference of narrow values fits a word. */
  lemma NarrowCombined(op: M.BinaryOp, kind: IntKind, s: State) returns (v: int, t: State)
    requires op == M.Add || op == M.Sub
    requires CanonicalOperands(kind, s) && !kind.IsFullWidth()
    ensures kind.Valid() && Core(op, kind) == [Alu(AluOf(op), Rax, Rcx)] && !Alu(AluOf(op), Rax, Rcx).Jcc?
    ensures Fits(v) && Meaning(op, kind, s.rax, s.rcx) == Checked(kind, v)
    ensures Effect(Alu(AluOf(op), Rax, Rcx), s) == Some(t) && t.rax == v && t.cells == s.cells
  {
    v := Combined(op, s.rax, s.rcx);
    assert Fits(v);
    hide Effect, Wrap, Meaning;
    AddSubMeaning(op, kind, s.rax, s.rcx);
    AddSubEffect(op, Rax, Rcx, s);
    t := s.(flags := CombinedFlags(op, s.rax, s.rcx), rax := v);
    WrapFits(v);
  }

  lemma WrapFits(v: int)
    requires Fits(v)
    ensures Wrap(v) == v
  {
  }

  lemma AddSubCorrect(op: M.BinaryOp, kind: IntKind, s: State)
    requires op == M.Add || op == M.Sub
    requires CanonicalOperands(kind, s)
    ensures ComputesRax(Core(op, kind) + Tail(op, kind), s, Meaning(op, kind, s.rax, s.rcx))
  {
    hide ComputesRax, CanonicalOperands;
    if kind.IsFullWidth() {
      AddSubFullCorrect(op, kind, s);
      assert Core(op, kind) + Tail(op, kind) == Core(op, kind);
    } else {
      AddSubNarrowCorrect(op, kind, s);
    }
  }

  /** A product whose overflow flag is followed by the trap. */
  lemma MulAfter(code: seq<Inst>, s: State, t: State, p: int, fits: bool)
    requires |code| == 2 && !code[0].Jcc? && Effect(code[0], s) == Some(t)
    requires code[1] == Jcc(O, Trampoline(Overflow)) && t.flags.overflow == !fits
    requires t.rax == Wrap(p) && t.cells == s.cells
    ensures ComputesRax(code, s, if fits then Gives(Wrap(p)) else Traps(Overflow))
  {
    hide Effect, Wrap;
    ExecStep(code, 0, s);
    ExecJump(code, 1, t);
    assert Exec(code, 2, t) == C.Ended(t);
  }

  lemma SignedProduct(s: State)
    ensures var t := Effect(Imul(Rax, Rcx), s);
      && t.Some? && t.value.rax == Wrap(s.rax * s.rcx) && t.value.cells == s.cells
      && t.value.flags.overflow == !Fits(s.rax * s.rcx)
  {
    hide Wrap;
  }

  lemma UnsignedProduct(s: State)
    ensures var t := Effect(MulRcx, s);
      var p := FullProduct(s.rax, s.rcx);
      && t.Some? && t.value.rax == Wrap(p) && t.value.cells == s.cells
      && t.value.flags.overflow == (p >= TWO64)
  {
    HighHalf(FullProduct(s.rax, s.rcx));
    hide Wrap, FullProduct;
  }

  lemma MulFullCorrect(kind: IntKind, s: State)
    requires CanonicalOperands(kind, s) && kind.IsFullWidth()
    ensures ComputesRax(Core(M.Mul, kind), s, Meaning(M.Mul, kind, s.rax, s.rcx))
  {
    MulMeaning(kind, s.rax, s.rcx);
    FullRange(kind, Value(kind, s.rax) * Value(kind, s.rcx));
    hide Wrap, Exec, Effect, Unsigned, ComputesRax, Canonical, Meaning, InRange;
    if kind.signed {
      var p := s.rax * s.rcx;
      SignedProduct(s);
      MulAfter(Core(M.Mul, kind), s, Effect(Imul(Rax, Rcx), s).value, p, Fits(p));
    } else {
      var p := Unsigned(s.rax) * Unsigned(s.rcx);
      UnsignedProduct(s);
      MulAfter(Core(M.Mul, kind), s, Effect(MulRcx, s).value, p, p < TWO64);
    }
  }

  lemma MulNarrowCorrect(kind: IntKind, s: State)
    requires CanonicalOperands(kind, s) && !kind.IsFullWidth()
    ensures ComputesRax(Core(M.Mul, kind) + CanonicalizeRaxChecked(kind), s, Meaning(M.Mul, kind, s.rax, s.rcx))
  {
    hide Effect, Wrap, Meaning, Exec, Closed, ComputesRax, CanonicalizeRaxChecked;
    var p := (s.rax as int) * (s.rcx as int);
    var code := Core(M.Mul, kind);
    MulMeaning(kind, s.rax, s.rcx);
    ImulEffect(Rax, Rcx, s);
    var t := Effect(code[0], s).value;
    ExecStep(code, 0, s);
    ExecJump(code, 1, t);
    ExecEnd(code, t);
    NoForwardClosed(code);
    if Fits(p) {
      WrapFits(p);
      CheckedAfter(kind, code, s, p);
    } else {
      RunTwo(code, CanonicalizeRaxChecked(kind), s, Checked(kind, p));
    }
  }

  lemma MulCorrect(kind: IntKind, s: State)
    requires CanonicalOperands(kind, s)
    ensures ComputesRax(Core(M.Mul, kind) + Tail(M.Mul, kind), s, Meaning(M.Mul, kind, s.rax, s.rcx))
  {
    if kind.IsFullWidth() {
      MulFullCorrect(kind, s);
      assert Core(M.Mul, kind) + Tail(M.Mul, kind) == Core(M.Mul, kind);
    } else {
      MulNarrowCorrect(kind, s);
    }
  }

  lemma SignedDivideCorrect(code: seq<Inst>, pc: nat, s: State)
    requires pc + 2 == |code| && code[pc] == Cqo && code[pc + 1] == IdivRcx
    requires s.rcx != 0 && Fits(TruncDiv(s.rax, s.rcx))
    ensures Exec(code, pc, s) == C.Ended(s.(rax := TruncDiv(s.rax, s.rcx), rdx := Wrap(TruncRem(s.rax, s.rcx))))
  {
    ExecStep(code, pc, s);
    var t := Effect(Cqo, s).value;
    UnsignedIs(s.rax);
    assert t.rdx * TWO64 + Unsigned(t.rax) == s.rax;
    hide TruncDiv, TruncRem;
    ExecStep(code, pc + 1, t);
  }

  lemma UnsignedDivideCorrect(kind: IntKind, s: State)
    requires kind == IntKind(64, false) && s.rcx != 0
    ensures var r := Exec(DivideCode(kind), 0, s);
      && r.Ended? && r.state.cells == s.cells
      && r.state.rax == Wrap(TruncDiv(Unsigned(s.rax), Unsigned(s.rcx)))
      && r.state.rdx == Wrap(TruncRem(Unsigned(s.rax), Unsigned(s.rcx)))
  {
    hide *;
    UnsignedDivideCode(kind);
    XorClears(s);
    var t := s.(rdx := 0, flags := AluFlags(XorOp, s.rdx, s.rdx));
    ExecStep(DivideCode(kind), 0, s);
    UnsignedDivStep(DivideCode(kind), 1, t);
  }

  lemma UnsignedDivideCode(kind: IntKind)
    requires kind == IntKind(64, false)
    ensures DivideCode(kind) == [Alu(XorOp, Rdx, Rdx), DivRcx]
    ensures !Alu(XorOp, Rdx, Rdx).Jcc?
  {
  }

  lemma XorClears(s: State)
    ensures Effect(Alu(XorOp, Rdx, Rdx), s) == Some(s.(rdx := 0, flags := AluFlags(XorOp, s.rdx, s.rdx)))
  {
    XorSelf(s.rdx, 63);
    hide AluFlags;
  }

  lemma UnsignedDivStep(code: seq<Inst>, pc: nat, t: State)
    requires pc + 1 == |code| && code[pc] == DivRcx && t.rdx == 0 && t.rcx != 0
    ensures Exec(code, pc, t) == C.Ended(t.(rax := Wrap(TruncDiv(Unsigned(t.rax), Unsigned(t.rcx))),
                                         rdx := Wrap(TruncRem(Unsigned(t.rax), Unsigned(t.rcx)))))
  {
    UnsignedIs(t.rcx);
    assert Unsigned(t.rdx) == 0;
    DivideNatFacts(Unsigned(t.rax), Unsigned(t.rcx));
    var q, r := TruncDiv(Unsigned(t.rax), Unsigned(t.rcx)), TruncRem(Unsigned(t.rax), Unsigned(t.rcx));
    assert Effect(DivRcx, t) == Some(t.(rax := Wrap(q), rdx := Wrap(r)));
    hide Exec, Effect, TruncDiv, TruncRem;
    ExecStep(code, pc, t);
    ExecEnd(code, t.(rax := Wrap(q), rdx := Wrap(r)));
  }

  /** The guard in front of the signed divide: it stops on the one quotient that
      has no word and otherwise falls through with the operands untouched. */
  lemma GuardCorrect(kind: IntKind, s: State) returns (t: State)
    requires kind == IntKind(64, true)
    ensures if NoQuotient(kind, s.rax, s.rcx) then Exec(DivideCode(kind), 0, s) == C.Stopped(Overflow)
            else Exec(DivideCode(kind), 0, s) == Exec(DivideCode(kind), 6, t)
    ensures t.rax == s.rax && t.rcx == s.rcx && t.cells == s.cells
  {
    hide SubFlags, Effect, Exec, AfterLabel;
    var code := DivideCode(kind);
    var s1 := s.(rdx := -TWO63);
    var s2 := s1.(flags := SubFlags(s.rax, -TWO63));
    GuardCompares(kind, s);
    ExecJump(code, 2, s2);
    ComparisonFlags(s.rax, -TWO63);
    t := s2;
    if s.rax == -TWO63 {
      var s3 := s2.(flags := SubFlags(s.rcx, -1));
      CmpEffect(Rcx, Imm(-1), s2);
      ExecStep(code, 3, s2);
      ExecJump(code, 4, s3);
      ComparisonFlags(s.rcx, -1);
      t := s3;
    } else {
      GuardLabel(kind);
    }
    LabelEffect(t);
    ExecStep(code, 5, t);
  }

  lemma GuardLabel(kind: IntKind)
    requires kind == IntKind(64, true)
    ensures AfterLabel(DivideCode(kind), 3) == 5
  {
    LabelSearch(DivideCode(kind), 3);
    LabelSearch(DivideCode(kind), 4);
    LabelSearch(DivideCode(kind), 5);
    hide AfterLabel;
  }

  lemma GuardCompares(kind: IntKind, s: State)
    requires kind == IntKind(64, true)
    ensures Exec(DivideCode(kind), 0, s)
         == Exec(DivideCode(kind), 2, s.(rdx := -TWO63, flags := SubFlags(s.rax, -TWO63)))
  {
    hide SubFlags, Effect, Exec;
    var code := DivideCode(kind);
    var s1 := s.(rdx := -TWO63);
    MovImmEffect(Rdx, -TWO63, s);
    ExecStep(code, 0, s);
    CmpEffect(Rax, Rdx, s1);
    ExecStep(code, 1, s1);
  }

  lemma GuardedDivideCorrect(kind: IntKind, s: State)
    requires kind == IntKind(64, true) && s.rcx != 0
    ensures var r := Exec(DivideCode(kind), 0, s);
      if NoQuotient(kind, s.rax, s.rcx) then r == C.Stopped(Overflow)
      else
        && r.Ended? && r.state.cells == s.cells
        && r.state.rax == TruncDiv(s.rax, s.rcx) && r.state.rdx == Wrap(TruncRem(s.rax, s.rcx))
  {
    hide TruncDiv, TruncRem, Exec, NoQuotient, Wrap;
    var t := GuardCorrect(kind, s);
    if !NoQuotient(kind, s.rax, s.rcx) {
      QuotientFits(kind, s.rax, s.rcx);
      SignedDivideCorrect(DivideCode(kind), 6, t);
    }
  }

  lemma DivideCodeCorrect(kind: IntKind, s: State)
    requires CanonicalOperands(kind, s) && s.rcx != 0
    ensures Closed(DivideCode(kind))
    ensures var (x, y) := (Value(kind, s.rax), Value(kind, s.rcx));
      var r := Exec(DivideCode(kind), 0, s);
      && y != 0
      && if NoQuotient(kind, x, y) then r == C.Stopped(Overflow)
         else
           && r.Ended? && r.state.cells == s.cells
           && r.state.rax == Wrap(TruncDiv(x, y)) && r.state.rdx == Wrap(TruncRem(x, y))
  {
    DivideCodeClosed(kind);
    UnsignedIs(s.rcx);
    hide Exec, Closed, TruncDiv, TruncRem, Wrap, Unsigned;
    if kind == IntKind(64, false) {
      UnsignedDivideCorrect(kind, s);
    } else if kind.IsFullWidth() {
      GuardedDivideCorrect(kind, s);
      if !NoQuotient(kind, s.rax, s.rcx) { QuotientFits(kind, s.rax, s.rcx); WrapFits(TruncDiv(s.rax, s.rcx)); }
    } else {
      QuotientFits(kind, s.rax, s.rcx);
      WrapFits(TruncDiv(s.rax, s.rcx));
      SignedDivideCorrect(DivideCode(kind), 0, s);
    }
  }

  /** The check for a zero divisor. */
  lemma ZeroCheckCorrect(s: State)
    ensures var check := [Test(Rcx, Rcx), Jcc(E, Trampoline(DivZero))];
      && Closed(check)
      && Exec(check, 0, s) == (if s.rcx == 0 then C.Stopped(DivZero) else C.Ended(s.(flags := LogicFlags(s.rcx))))
  {
    var check := [Test(Rcx, Rcx), Jcc(E, Trampoline(DivZero))];
    var t := s.(flags := LogicFlags(s.rcx));
    hide Effect, Exec, Closed;
    NoForwardClosed(check);
    TestEffect(s);
    ExecStep(check, 0, s);
    ExecJump(check, 1, t);
    ExecEnd(check, t);
  }

  /** The zero check and the divide: what `/` and `%` share. */
  function DivideWithCheck(kind: IntKind): seq<Inst> {
    [Test(Rcx, Rcx), Jcc(E, Trampoline(DivZero))] + DivideCode(kind)
  }

  lemma DivideWithCheckCorrect(kind: IntKind, s: State)
    requires CanonicalOperands(kind, s)
    ensures Closed(DivideWithCheck(kind))
    ensures var (x, y) := (Value(kind, s.rax), Value(kind, s.rcx));
      var r := Exec(DivideWithCheck(kind), 0, s);
      if y == 0 then r == C.Stopped(DivZero)
      else if NoQuotient(kind, x, y) then r == C.Stopped(Overflow)
      else
        && r.Ended? && r.state.cells == s.cells
        && r.state.rax == Wrap(TruncDiv(x, y)) && r.state.rdx == Wrap(TruncRem(x, y))
  {
    var check, divide := [Test(Rcx, Rcx), Jcc(E, Trampoline(DivZero))], DivideCode(kind);
    ZeroCheckCorrect(s);
    ExecConcat(check, divide, s);
    UnsignedIs(s.rcx);
    var t := s.(flags := LogicFlags(s.rcx));
    hide Exec, AfterLabel, TruncDiv, TruncRem, DivideCode;
    if s.rcx != 0 {
      DivideCodeCorrect(kind, t);
      ClosedConcat(check, divide);
    } else {
      DivideCodeClosed(kind);
      ClosedConcat(check, divide);
    }
  }

  lemma DivideCodeClosed(kind: IntKind)
    ensures Closed(DivideCode(kind))
  {
    if kind == IntKind(64, true) {
      GuardLabel(kind);
      hide AfterLabel, Closed;
      ClosedMeans(DivideCode(kind));
    } else {
      hide Closed;
      NoForwardClosed(DivideCode(kind));
    }
  }

  lemma DivCorrect(kind: IntKind, s: State)
    requires CanonicalOperands(kind, s)
    ensures ComputesRax(Core(M.Div, kind) + Tail(M.Div, kind), s, Meaning(M.Div, kind, s.rax, s.rcx))
  {
    var x, y := Value(kind, s.rax), Value(kind, s.rcx);
    var code := DivideWithCheck(kind);
    assert Core(M.Div, kind) == code;
    hide Exec, Closed, TruncDiv, TruncRem, Core, DivideWithCheck, Meaning, Wrap, ComputesRax, Checked, Unsigned;
    DivideWithCheckCorrect(kind, s);
    DivRemMeaning(kind, s.rax, s.rcx);
    if y == 0 {
      RunTwo(code, Tail(M.Div, kind), s, Traps(DivZero));
    } else if NoQuotient(kind, x, y) {
      NoQuotientOverflows(kind, x, y);
      RunTwo(code, Tail(M.Div, kind), s, Traps(Overflow));
    } else {
      QuotientFits(kind, s.rax, s.rcx);
      DivTail(kind, code, s, TruncDiv(x, y));
    }
  }

  lemma DivTail(kind: IntKind, code: seq<Inst>, s: State, q: int)
    requires kind.Valid() && Closed(code)
    requires if kind == IntKind(64, false) then 0 <= q < TWO64 else Fits(q)
    requires var r := Exec(code, 0, s); r.Ended? && r.state.cells == s.cells && r.state.rax == Wrap(q)
    ensures ComputesRax(code + Tail(M.Div, kind), s, Checked(kind, q))
  {
    hide Exec, Closed, ComputesRax, Wrap;
    if kind.IsFullWidth() {
      RunOne(code, s, Wrap(q));
      FullRange(kind, q);
    } else {
      WrapFits(q);
      CheckedAfter(kind, code, s, q);
    }
  }

  lemma RemCorrect(kind: IntKind, s: State)
    requires CanonicalOperands(kind, s)
    ensures ComputesRax(Core(M.Rem, kind) + Tail(M.Rem, kind), s, Meaning(M.Rem, kind, s.rax, s.rcx))
  {
    var code, move := DivideWithCheck(kind), [Mov(Rax, Rdx)];
    assert Core(M.Rem, kind) + Tail(M.Rem, kind) == code + move;
    DivideWithCheckCorrect(kind, s);
    DivRemMeaning(kind, s.rax, s.rcx);
    hide Exec, TruncDiv, TruncRem, Core, DivideWithCheck, Meaning, Wrap;
    ExecConcat(code, move, s);
    var r := Exec(code, 0, s);
    if r.Ended? {
      MovRaxRdx(r.state);
    }
  }

  lemma MovRaxRdx(s: State)
    ensures Exec([Mov(Rax, Rdx)], 0, s) == C.Ended(s.(rax := s.rdx))
  {
    ExecStep([Mov(Rax, Rdx)], 0, s);
    ExecEnd([Mov(Rax, Rdx)], s.(rax := s.rdx));
  }

  // ----- shifts, comparisons and bit operations --------------------------------

  /** The unsigned comparison refuses negative counts along with large ones. */
  lemma CountCheck(kind: IntKind, b: Word)
    requires kind.Valid() && Canonical(kind, b)
    ensures Holds(Ae, SubFlags(b, kind.bits)) <==> (Value(kind, b) < 0 || Value(kind, b) >= kind.bits)
    ensures !Holds(Ae, SubFlags(b, kind.bits)) ==> Unsigned(b) % 64 == Value(kind, b)
  {
    ComparisonFlags(b, kind.bits);
    UnsignedIs(b);
    UnsignedIs(kind.bits);
  }

  lemma ShiftCodeCorrect(op: M.BinaryOp, kind: IntKind, s: State)
    requires CanonicalOperands(kind, s) && (op == M.Shl || op == M.Shr)
    ensures Closed(ShiftCode(op, kind))
    ensures var y := Value(kind, s.rcx);
      Exec(ShiftCode(op, kind), 0, s) ==
        if y < 0 || y >= kind.bits then C.Stopped(ShiftCount)
        else C.Ended(s.(rax := Shifted(ShiftOf(op, kind), s.rax, y), flags := SubFlags(s.rcx, kind.bits)))
  {
    hide Effect, Exec, SubFlags, Shifted, Holds, Value, Unsigned, Closed, ShiftOf, Canonical;
    var code := ShiftCode(op, kind);
    NoForwardClosed(code);
    var t := s.(flags := SubFlags(s.rcx, kind.bits));
    CountCheck(kind, s.rcx);
    CmpEffect(Rcx, Imm(kind.bits), s);
    ExecStep(code, 0, s);
    ExecJump(code, 1, t);
    ShiftEffect(ShiftOf(op, kind), t);
    ExecStep(code, 2, t);
    ExecEnd(code, Effect(code[2], t).value);
  }

  lemma ShiftedMoves(op: M.BinaryOp, kind: IntKind, a: Word, y: nat)
    requires op == M.Shl || op == M.Shr
    ensures Shifted(ShiftOf(op, kind), a, y) == Moved(op, kind, a, y)
  {
    hide ShiftLeft, ArithmeticRight, LogicalRight;
  }

  lemma ShiftCorrect(op: M.BinaryOp, kind: IntKind, s: State)
    requires CanonicalOperands(kind, s) && (op == M.Shl || op == M.Shr)
    ensures ComputesRax(Core(op, kind) + Tail(op, kind), s, Meaning(op, kind, s.rax, s.rcx))
  {
    var code, y := ShiftCode(op, kind), Value(kind, s.rcx);
    assert Core(op, kind) == code && kind.Valid();
    hide Meaning, Exec, Closed, SubFlags, Core, ShiftCode, Shifted, Moved, Canonicalize, Tail, Canonical, Value,
        ComputesRax;
    ShiftCodeCorrect(op, kind, s);
    ShiftWordMeaning(op, kind, s.rax, s.rcx);
    if 0 <= y < kind.bits {
      ShiftedMoves(op, kind, s.rax, y);
      TailOfShift(op, kind, Exec(code, 0, s).state);
      RunTwo(code, Tail(op, kind), s, Gives(ShiftWord(op, kind, s.rax, y)));
    } else {
      RunTwo(code, Tail(op, kind), s, Traps(ShiftCount));
    }
  }

  lemma FullWidthKept(kind: IntKind, w: Word)
    requires kind.Valid()
    ensures kind.IsFullWidth() ==> Canonicalize(kind, w) == w
  {
    hide ArithmeticRight, ShiftLeft, Bitwise;
  }

  lemma TailOfShift(op: M.BinaryOp, kind: IntKind, t: State)
    requires kind.Valid() && (op == M.Shl || op == M.Shr)
    ensures ComputesRax(Tail(op, kind), t, Gives(if op == M.Shl then Canonicalize(kind, t.rax) else t.rax))
  {
    hide Exec, Canonicalize, CanonicalizeRax, CanonicalizeRaxChecked;
    if kind.IsFullWidth() || op == M.Shr {
      FullWidthKept(kind, t.rax);
      ExecEnd([], t);
    } else {
      CanonicalizeRaxCorrect(kind, t);
    }
  }

  lemma LowByte(w: Word, bit: int)
    requires bit == 0 || bit == 1
    ensures Fits(w - w % 256 + bit) && (w - w % 256 + bit) % 256 == bit
  {
  }

  /** `setcc` and `movzx` widen one condition into a register. */
  lemma FlagByte(code: seq<Inst>, pc: nat, c: Cond, dst: Operand, s: State) returns (t: State)
    requires pc + 2 <= |code| && code[pc] == SetccAl(c) && code[pc + 1] == MovzxAl(dst)
    ensures Exec(code, pc, s) == Exec(code, pc + 2, Set(t, dst, if Holds(c, s.flags) then 1 else 0))
    ensures t == s.(rax := t.rax)
  {
    var bit := if Holds(c, s.flags) then 1 else 0;
    t := SetccEffect(c, dst, s, bit);
    hide Holds, Effect, Exec, Set;
    ExecStep(code, pc, s);
    ExecStep(code, pc + 1, t);
  }

  lemma SetccEffect(c: Cond, dst: Operand, s: State, bit: int) returns (t: State)
    requires bit == if Holds(c, s.flags) then 1 else 0
    ensures Effect(SetccAl(c), s) == Some(t) && Effect(MovzxAl(dst), t) == Some(Set(t, dst, bit))
    ensures t == s.(rax := t.rax)
  {
    hide Holds, Set;
    LowByte(s.rax, bit);
    t := s.(rax := s.rax - s.rax % 256 + bit);
  }

  lemma CompareCorrect(op: M.BinaryOp, kind: IntKind, s: State)
    requires CanonicalOperands(kind, s) && op.Compares()
    ensures ComputesRax(Core(op, kind) + Tail(op, kind), s, Meaning(op, kind, s.rax, s.rcx))
  {
    var code, c := Core(op, kind), SetCondition(op, kind);
    assert code + Tail(op, kind) == code;
    assert code == [Alu(CmpOp, Rax, Rcx), SetccAl(c), MovzxAl(Rax)];
    hide *;
    CompareMeaning(op, kind, s.rax, s.rcx);
    SetConditionCorrect(op, kind, s.rax, s.rcx);
    var t := CompareFlag(code, Rax, Rcx, c, Rax, s);
    FlagInRax(code, s, t, if Holds(c, SubFlags(s.rax, s.rcx)) then 1 else 0);
  }

  lemma FlagInRax(code: seq<Inst>, s: State, t: State, bit: Word)
    requires |code| == 3 && t.cells == s.cells && Exec(code, 0, s) == Exec(code, 3, Set(t, Rax, bit))
    ensures ComputesRax(code, s, Gives(bit))
  {
    hide Exec;
    ExecEnd(code, Set(t, Rax, bit));
  }

  /** Compare, then widen one condition into a register. */
  lemma CompareFlag(code: seq<Inst>, x: Operand, y: Operand, c: Cond, d: Operand, s: State) returns (t: State)
    requires |code| >= 3 && code[0] == Alu(CmpOp, x, y) && code[1] == SetccAl(c) && code[2] == MovzxAl(d)
    ensures Exec(code, 0, s) == Exec(code, 3, Set(t, d, if Holds(c, SubFlags(Get(s, x), Get(s, y))) then 1 else 0))
    ensures t.cells == s.cells
  {
    hide Effect, Exec, SubFlags, Holds, Get;
    CmpEffect(x, y, s);
    ExecStep(code, 0, s);
    t := FlagByte(code, 1, c, d, s.(flags := SubFlags(Get(s, x), Get(s, y))));
  }

  lemma BitMeaning(op: M.BinaryOp, kind: IntKind, a: Word, b: Word)
    requires kind.Valid() && op.Bitwise()
    ensures Meaning(op, kind, a, b) == Gives(AluResult(AluOf(op), a, b))
    ensures AluOf(op) in {AndOp, OrOp, XorOp}
  {
    hide Truncated, Bitwise, TruncDiv, TruncRem, Pow2, Compare, Checked, Value;
  }

  lemma BitCorrect(op: M.BinaryOp, kind: IntKind, s: State)
    requires CanonicalOperands(kind, s) && op.Bitwise()
    ensures ComputesRax(Core(op, kind) + Tail(op, kind), s, Meaning(op, kind, s.rax, s.rcx))
  {
    var code := [Alu(AluOf(op), Rax, Rcx)];
    assert Core(op, kind) + Tail(op, kind) == code;
    hide Meaning, Exec, Effect, AluResult, AluFlags, Core, Tail;
    BitMeaning(op, kind, s.rax, s.rcx);
    AluEffect(AluOf(op), Rax, Rcx, s);
    ExecStep(code, 0, s);
    ExecEnd(code, Effect(code[0], s).value);
  }

  /** With its operands in `rax` and `rcx`, every operator leaves its meaning in
      `rax` or stops in the right trampoline; the divides never fault. */
  lemma CoreCorrect(op: M.BinaryOp, kind: IntKind, s: State)
    requires CanonicalOperands(kind, s)
    ensures ComputesRax(Core(op, kind) + Tail(op, kind), s, Meaning(op, kind, s.rax, s.rcx))
  {
    hide ComputesRax, CanonicalOperands, Core, Tail, Meaning;
    match op
    case Add => AddSubCorrect(op, kind, s);
    case Sub => AddSubCorrect(op, kind, s);
    case Mul => MulCorrect(kind, s);
    case Div => DivCorrect(kind, s);
    case Rem => RemCorrect(kind, s);
    case Shl => ShiftCorrect(op, kind, s);
    case Shr => ShiftCorrect(op, kind, s);
    case BitAnd => BitCorrect(op, kind, s);
    case BitOr => BitCorrect(op, kind, s);
    case BitXor => BitCorrect(op, kind, s);
    case _ => CompareCorrect(op, kind, s);
  }

  // ----- from locals to locals --------------------------------------------------

  /** The code stores the outcome in `dst` and touches no other cell, or stops. */
  ghost predicate Computes(code: seq<Inst>, s: State, dst: Location, outcome: Outcome) {
    match outcome
    case Traps(trap) => Exec(code, 0, s) == C.Stopped(trap)
    case Gives(w) => Exec(code, 0, s).Ended? && Exec(code, 0, s).state.cells == s.cells[dst := w]
  }

  ghost predicate CanonicalLocals(place: Place, lhs: LocalId, rhs: LocalId, kind: IntKind, s: State) {
    kind.Valid() && Canonical(kind, CellOf(s, place(lhs))) && Canonical(kind, CellOf(s, place(rhs)))
  }

  lemma CodeClosed(op: M.BinaryOp, kind: IntKind)
    requires kind.Valid()
    ensures Closed(Core(op, kind)) && Closed(Tail(op, kind))
  {
    hide Closed, AfterLabel, DivideCode;
    NoForwardClosed(Tail(op, kind));
    if op == M.Div || op == M.Rem {
      hide Tail;
      var check := [Test(Rcx, Rcx), Jcc(E, Trampoline(DivZero))];
      DivideCodeClosed(kind);
      NoForwardClosed(check);
      NoForwardClosed([Mov(Rax, Rdx)]);
      ClosedConcat(check, DivideCode(kind));
      ClosedConcat(check + DivideCode(kind), [Mov(Rax, Rdx)]);
    } else {
      hide Tail;
      NoForwardClosed(Core(op, kind));
    }
  }

  lemma LoadCorrect(l: Location, r: Location, s: State)
    ensures var load := [Mov(Rax, Cell(l)), Mov(Rcx, Cell(r))];
      Exec(load, 0, s) == C.Ended(s.(rax := CellOf(s, l), rcx := CellOf(s, r)))
  {
    var load := [Mov(Rax, Cell(l)), Mov(Rcx, Cell(r))];
    hide Exec;
    ExecStep(load, 0, s);
    ExecStep(load, 1, s.(rax := CellOf(s, l)));
    ExecEnd(load, s.(rax := CellOf(s, l), rcx := CellOf(s, r)));
  }

  lemma StoreCorrect(d: Location, s: State)
    ensures Exec([Mov(Cell(d), Rax)], 0, s) == C.Ended(s.(cells := s.cells[d := s.rax]))
  {
    hide Exec;
    ExecStep([Mov(Cell(d), Rax)], 0, s);
    ExecEnd([Mov(Cell(d), Rax)], s.(cells := s.cells[d := s.rax]));
  }

  lemma ThroughRaxCorrect(place: Place, dst: LocalId, op: M.BinaryOp, lhs: LocalId, rhs: LocalId,
                          kind: IntKind, s: State)
    requires CanonicalLocals(place, lhs, rhs, kind, s)
    ensures Computes(ThroughRax(place, dst, op, lhs, rhs, kind), s, place(dst),
                     Meaning(op, kind, CellOf(s, place(lhs)), CellOf(s, place(rhs))))
  {
    var l, r, d := place(lhs), place(rhs), place(dst);
    var middle := Core(op, kind) + Tail(op, kind);
    assert ThroughRax(place, dst, op, lhs, rhs, kind)
        == [Mov(Rax, Cell(l)), Mov(Rcx, Cell(r))] + (middle + [Mov(Cell(d), Rax)]);
    var t := s.(rax := CellOf(s, l), rcx := CellOf(s, r));
    assert CanonicalOperands(kind, t);
    hide *;
    CodeClosed(op, kind);
    ClosedConcat(Core(op, kind), Tail(op, kind));
    CoreCorrect(op, kind, t);
    LoadComputeStore(middle, s, l, r, d, Meaning(op, kind, t.rax, t.rcx));
  }

  lemma LoadComputeStore(middle: seq<Inst>, s: State, l: Location, r: Location, d: Location, outcome: Outcome)
    requires Closed(middle)
    requires ComputesRax(middle, s.(rax := CellOf(s, l), rcx := CellOf(s, r)), outcome)
    ensures Computes([Mov(Rax, Cell(l)), Mov(Rcx, Cell(r))] + (middle + [Mov(Cell(d), Rax)]), s, d, outcome)
  {
    hide Exec, Closed, CellOf;
    var load, store := [Mov(Rax, Cell(l)), Mov(Rcx, Cell(r))], [Mov(Cell(d), Rax)];
    NoForwardClosed(load);
    LoadCorrect(l, r, s);
    ExecConcat(load, middle + store, s);
    var t := s.(rax := CellOf(s, l), rcx := CellOf(s, r));
    ExecConcat(middle, store, t);
    if outcome.Gives? {
      StoreCorrect(d, Exec(middle, 0, t).state);
    }
  }

  /** One operation on a cell, then the trap on the flag its type reads. */
  lemma TrapAfter(code: seq<Inst>, s: State, t: State, kind: IntKind, d: Location, v: int, w: Word)
    requires kind.Valid() && |code| == 2 && !code[0].Jcc? && Effect(code[0], s) == Some(t)
    requires code[1] == Jcc(Carried(kind), Trampoline(Overflow))
    requires Holds(Carried(kind), t.flags) <==> !InRange(kind, v)
    requires w == Wrap(v) && t.cells == s.cells[d := w]
    ensures Computes(code, s, d, Checked(kind, v))
  {
    hide Effect, Wrap, InRange;
    ExecStep(code, 0, s);
    ExecJump(code, 1, t);
    ExecEnd(code, t);
  }

  function AccumulateInst(op: M.BinaryOp, d: Location, r: Location): Inst {
    if op == M.Mul then Imul(Cell(d), Cell(r)) else Alu(AluOf(op), Cell(d), Cell(r))
  }

  /** The operation on a register that already holds the left operand. */
  lemma AccumulateOp(op: M.BinaryOp, kind: IntKind, d: Location, r: Location, s: State)
    requires kind.Valid() && d != r
    requires op in {M.Add, M.Sub, M.Mul} && kind.IsFullWidth() && (kind.signed || op != M.Mul)
    ensures Computes([AccumulateInst(op, d, r), Jcc(Carried(kind), Trampoline(Overflow))], s, d,
                     Meaning(op, kind, CellOf(s, d), CellOf(s, r)))
  {
    var code := [AccumulateInst(op, d, r), Jcc(Carried(kind), Trampoline(Overflow))];
    var a, b := CellOf(s, d), CellOf(s, r);
    hide Effect, Exec, CombinedFlags, Combined, Wrap, InRange, Meaning, Computes, Checked;
    if op == M.Mul {
      var p := (a as int) * (b as int);
      MulMeaning(kind, a, b);
      FullRange(kind, p);
      ImulEffect(Cell(d), Cell(r), s);
      TrapAfter(code, s, Effect(code[0], s).value, kind, d, p, Wrap(p));
    } else {
      AddSubMeaning(op, kind, a, b);
      CarriedMeansOverflow(kind, a, b);
      WrapUnsigned(kind, a, b);
      AddSubEffect(op, Cell(d), Cell(r), s);
      TrapAfter(code, s, Effect(code[0], s).value, kind, d,
                Combined(op, Value(kind, a), Value(kind, b)), Wrap(Combined(op, a, b)));
    }
  }

  lemma AccumulateBits(op: M.BinaryOp, kind: IntKind, d: Location, r: Location, s: State)
    requires kind.Valid() && d != r && op.Bitwise()
    ensures Computes([AccumulateInst(op, d, r)], s, d, Meaning(op, kind, CellOf(s, d), CellOf(s, r)))
  {
    var code := [Alu(AluOf(op), Cell(d), Cell(r))];
    hide Meaning, Exec, Effect, AluResult, AluFlags;
    BitMeaning(op, kind, CellOf(s, d), CellOf(s, r));
    AluEffect(AluOf(op), Cell(d), Cell(r), s);
    ExecStep(code, 0, s);
    ExecEnd(code, Effect(code[0], s).value);
  }

  lemma AccumulateCorrect(place: Place, dst: LocalId, op: M.BinaryOp, lhs: LocalId, rhs: LocalId,
                          kind: IntKind, s: State)
    requires CanonicalLocals(place, lhs, rhs, kind, s) && CanAccumulate(place, dst, op, rhs, kind)
    ensures Computes(Accumulate(place, dst, op, lhs, rhs, kind), s, place(dst),
                     Meaning(op, kind, CellOf(s, place(lhs)), CellOf(s, place(rhs))))
  {
    var d, l, r := place(dst), place(lhs), place(rhs);
    var copy := if d != l then [Mov(Cell(d), Cell(l))] else [];
    var t := if d != l then s.(cells := s.cells[d := CellOf(s, l)]) else s;
    hide Exec, Closed, Meaning, AccumulateInst, Canonical, Carried;
    CopyCorrect(d, l, s);
    NoForwardClosed(copy);
    var code := [AccumulateInst(op, d, r)] + if op.Bitwise() then [] else [Jcc(Carried(kind), Trampoline(Overflow))];
    assert Accumulate(place, dst, op, lhs, rhs, kind) == copy + code;
    hide Accumulate;
    if op.Bitwise() {
      AccumulateBits(op, kind, d, r, t);
      assert code == [AccumulateInst(op, d, r)];
    } else {
      AccumulateOp(op, kind, d, r, t);
      assert code == [AccumulateInst(op, d, r), Jcc(Carried(kind), Trampoline(Overflow))];
    }
    ExecConcat(copy, code, s);
    var w := Meaning(op, kind, CellOf(s, l), CellOf(s, r));
    assert w.Gives? ==> t.cells[d := w.word] == s.cells[d := w.word];
  }

  lemma CopyCorrect(d: Location, l: Location, s: State)
    ensures d != l ==> Exec([Mov(Cell(d), Cell(l))], 0, s) == C.Ended(s.(cells := s.cells[d := CellOf(s, l)]))
    ensures Exec([], 0, s) == C.Ended(s)
  {
    var code := [Mov(Cell(d), Cell(l))];
    MovEffect(Cell(d), Cell(l), s);
    hide Effect, Exec;
    ExecEnd([], s);
    ExecStep(code, 0, s);
    ExecEnd(code, s.(cells := s.cells[d := CellOf(s, l)]));
  }

  lemma CompareInPlaceShape(place: Place, dst: LocalId, op: M.BinaryOp, lhs: LocalId, rhs: LocalId, kind: IntKind)
    requires op.Compares()
    ensures var code, at := CompareInPlace(place, dst, op, lhs, rhs, kind), place(dst);
      && |code| == (if at.Register? then 3 else 4)
      && code[0] == Alu(CmpOp, Cell(place(lhs)), Cell(place(rhs)))
      && code[1] == SetccAl(SetCondition(op, kind))
      && code[2] == MovzxAl(if at.Register? then Cell(at) else Rax)
      && (at.Memory? ==> code[3] == Mov(Cell(at), Rax))
  {
    hide SetCondition;
  }

  lemma CompareInPlaceCorrect(place: Place, dst: LocalId, op: M.BinaryOp, lhs: LocalId, rhs: LocalId,
                              kind: IntKind, s: State)
    requires CanonicalLocals(place, lhs, rhs, kind, s) && op.Compares()
    ensures Computes(CompareInPlace(place, dst, op, lhs, rhs, kind), s, place(dst),
                     Meaning(op, kind, CellOf(s, place(lhs)), CellOf(s, place(rhs))))
  {
    var x, y, at := Cell(place(lhs)), Cell(place(rhs)), place(dst);
    var code, c := CompareInPlace(place, dst, op, lhs, rhs, kind), SetCondition(op, kind);
    var d := if at.Register? then Cell(at) else Rax;
    assert Get(s, x) == CellOf(s, place(lhs)) && Get(s, y) == CellOf(s, place(rhs)) && kind.Valid();
    hide *;
    CompareInPlaceShape(place, dst, op, lhs, rhs, kind);
    CompareMeaning(op, kind, Get(s, x), Get(s, y));
    SetConditionCorrect(op, kind, Get(s, x), Get(s, y));
    var t := CompareFlag(code, x, y, c, d, s);
    StoreFlag(code, s, at, d, if Holds(c, SubFlags(Get(s, x), Get(s, y))) then 1 else 0, t);
  }

  /** The flag byte is in its register, or one store away from its slot. */
  lemma StoreFlag(code: seq<Inst>, s: State, at: Location, d: Operand, bit: Word, t: State)
    requires d == if at.Register? then Cell(at) else Rax
    requires if at.Register? then |code| == 3 else |code| == 4 && code[3] == Mov(Cell(at), Rax)
    requires t.cells == s.cells && Exec(code, 0, s) == Exec(code, 3, Set(t, d, bit))
    ensures Computes(code, s, at, Gives(bit))
  {
    hide Effect, Exec;
    var u := Set(t, d, bit);
    if at.Register? {
      ExecEnd(code, u);
    } else {
      MovEffect(Cell(at), Rax, u);
      ExecStep(code, 3, u);
      ExecEnd(code, Set(u, Cell(at), bit));
    }
  }

  /** x86-64 computes what the operator means, at every type, for all canonical
      operands and wherever the three locals live: it traps exactly when the
      meaning does, and otherwise changes the destination's cell alone. */
  lemma IntegerBinaryCorrect(place: Place, dst: LocalId, op: M.BinaryOp, lhs: LocalId, rhs: LocalId,
                             kind: IntKind, s: State)
    requires CanonicalLocals(place, lhs, rhs, kind, s)
    ensures Computes(IntegerBinary(place, dst, op, lhs, rhs, kind), s, place(dst),
                     Meaning(op, kind, CellOf(s, place(lhs)), CellOf(s, place(rhs))))
  {
    hide Computes, CanonicalLocals, Meaning, ThroughRax, Accumulate, CompareInPlace;
    if CanAccumulate(place, dst, op, rhs, kind) {
      AccumulateCorrect(place, dst, op, lhs, rhs, kind, s);
    } else if op.Compares() && CanCompareInPlace(place, lhs, rhs) {
      CompareInPlaceCorrect(place, dst, op, lhs, rhs, kind, s);
    } else {
      ThroughRaxCorrect(place, dst, op, lhs, rhs, kind, s);
    }
  }

  // ----- encodability -----------------------------------------------------------

  predicate InMemory(o: Operand) {
    o.Cell? && o.at.Memory?
  }

  predicate InRegister(o: Operand) {
    o == Rax || o == Rcx || o == Rdx || (o.Cell? && o.at.Register?)
  }

  /** An x86-64 instruction has at most one memory operand, `imul` and `movzx`
      write a register, and only a register takes a 64-bit immediate. */
  predicate Encodable(i: Inst) {
    match i
    case Mov(dst, src) =>
      && !dst.Imm? && !(InMemory(dst) && InMemory(src))
      && (src.Imm? && InMemory(dst) ==> -0x8000_0000 <= src.value < 0x8000_0000)
    case Alu(_, dst, src) =>
      && !dst.Imm? && !(InMemory(dst) && InMemory(src))
      && (src.Imm? ==> -0x8000_0000 <= src.value < 0x8000_0000)
    case Imul(dst, src) => InRegister(dst) && !src.Imm?
    case MovzxAl(dst) => InRegister(dst)
    case Test(dst, src) => InRegister(dst) && InRegister(src)
    case ShiftImm(_, count) => count < 64
    case _ => true
  }

  /** Every instruction the generator asks for has an encoding. */
  lemma IntegerBinaryEncodable(place: Place, dst: LocalId, op: M.BinaryOp, lhs: LocalId, rhs: LocalId, kind: IntKind)
    requires kind.Valid()
    ensures forall i :: i in IntegerBinary(place, dst, op, lhs, rhs, kind) ==> Encodable(i)
  {
    if CanAccumulate(place, dst, op, rhs, kind) {
      AccumulateEncodable(place, dst, op, lhs, rhs, kind);
    } else if !(op.Compares() && CanCompareInPlace(place, lhs, rhs)) {
      CoreEncodable(op, kind);
    }
    hide Core, Tail, Accumulate;
  }

  lemma AccumulateEncodable(place: Place, dst: LocalId, op: M.BinaryOp, lhs: LocalId, rhs: LocalId, kind: IntKind)
    requires CanAccumulate(place, dst, op, rhs, kind)
    ensures forall i :: i in Accumulate(place, dst, op, lhs, rhs, kind) ==> Encodable(i)
  {
  }

  lemma CoreEncodable(op: M.BinaryOp, kind: IntKind)
    requires kind.Valid()
    ensures forall i :: i in Core(op, kind) + Tail(op, kind) ==> Encodable(i)
  {
    hide Core, Tail, Encodable;
    OperationEncodable(op, kind);
    TailEncodable(op, kind);
  }

  lemma OperationEncodable(op: M.BinaryOp, kind: IntKind)
    requires kind.Valid()
    ensures forall i :: i in Core(op, kind) ==> Encodable(i)
  {
    DivideEncodable(kind);
    hide DivideCode, SetCondition;
  }

  lemma TailEncodable(op: M.BinaryOp, kind: IntKind)
    requires kind.Valid()
    ensures forall i :: i in Tail(op, kind) ==> Encodable(i)
  {
    RaxEncodable(kind);
    hide Encodable, CanonicalizeRax;
  }

  lemma RaxEncodable(kind: IntKind)
    requires kind.Valid()
    ensures forall i :: i in CanonicalizeRax(kind) ==> Encodable(i)
    ensures forall i :: i in [Mov(Rcx, Rax), Alu(CmpOp, Rax, Rcx), Jcc(Ne, Trampoline(Overflow))] ==> Encodable(i)
  {
  }

  lemma DivideEncodable(kind: IntKind)
    ensures forall i :: i in DivideCode(kind) ==> Encodable(i)
  {
  }

  // ----- the generator ------------------------------------------------------------

  class Generator {
    var asm: seq<Inst>
    const place: Place

    constructor (place: Place)
      ensures asm == [] && this.place == place
    {
      this.place := place;
      asm := [];
    }

    method Emit(i: Inst)
      modifies this
      ensures asm == old(asm) + [i]
    {
      asm := asm + [i];
    }

    method EmitIntegerBinary(dst: LocalId, op: M.BinaryOp, lhs: LocalId, rhs: LocalId, ty: Type)
      modifies this
      ensures asm == old(asm) + IntegerBinary(place, dst, op, lhs, rhs, Regime(ty))
    {
      hide ThroughRax, Accumulate, CompareInPlace, Regime, SetCondition;
      var kind := Regime(ty);
      if op in {M.Add, M.Sub, M.Mul} || op.Bitwise() {
        var done := EmitAccumulate(dst, op, lhs, rhs, kind);
        if done { return; }
      } else if op.Compares() {
        var done := EmitCompareInPlace(dst, op, lhs, rhs, kind);
        if done { return; }
      }
      EmitThroughRax(dst, op, lhs, rhs, kind);
    }

    method EmitCanonicalizeRax(kind: IntKind)
      requires kind.Valid()
      modifies this
      ensures asm == old(asm) + CanonicalizeRax(kind)
    {
      if kind.bits == 64 {
      } else if kind.bits == 32 && kind.signed {
        Emit(MovsxdRaxEax);
      } else if kind.bits == 32 {
        Emit(MovEaxEax);
      } else if kind.signed {
        Emit(ShiftImm(Shl, 64 - kind.bits));
        Emit(ShiftImm(Sar, 64 - kind.bits));
      } else {
        Emit(Alu(AndOp, Rax, Imm(Mask(kind))));
      }
    }

    method EmitCanonicalizeRaxChecked(kind: IntKind)
      requires kind.Valid()
      modifies this
      ensures asm == old(asm) + CanonicalizeRaxChecked(kind)
    {
      Emit(Mov(Rcx, Rax));
      EmitCanonicalizeRax(kind);
      Emit(Alu(CmpOp, Rax, Rcx));
      Emit(Jcc(Ne, Trampoline(Overflow)));
    }

    method EmitAccumulate(dst: LocalId, op: M.BinaryOp, lhs: LocalId, rhs: LocalId, kind: IntKind) returns (done: bool)
      requires op in {M.Add, M.Sub, M.Mul} || op.Bitwise()
      modifies this
      ensures done == CanAccumulate(place, dst, op, rhs, kind)
      ensures asm == old(asm) + if done then Accumulate(place, dst, op, lhs, rhs, kind) else []
    {
      if place(dst).Memory? || place(dst) == place(rhs) {
        return false;
      }
      if !op.Bitwise() && (!kind.IsFullWidth() || (!kind.signed && op == M.Mul)) {
        return false;
      }
      if place(dst) != place(lhs) {
        Emit(Mov(Cell(place(dst)), Cell(place(lhs))));
      }
      if op == M.Mul {
        Emit(Imul(Cell(place(dst)), Cell(place(rhs))));
      } else {
        Emit(Alu(AluOf(op), Cell(place(dst)), Cell(place(rhs))));
      }
      if !op.Bitwise() {
        Emit(Jcc(if kind.signed then O else B, Trampoline(Overflow)));
      }
      return true;
    }

    method EmitCompareInPlace(
        dst: LocalId, op: M.BinaryOp, lhs: LocalId, rhs: LocalId, kind: IntKind)
      returns (done: bool)
      requires op.Compares()
      modifies this
      ensures done == CanCompareInPlace(place, lhs, rhs)
      ensures asm == old(asm) + if done then CompareInPlace(place, dst, op, lhs, rhs, kind) else []
    {
      if place(lhs).Memory? && place(rhs).Memory? {
        return false;
      }
      Emit(Alu(CmpOp, Cell(place(lhs)), Cell(place(rhs))));
      Emit(SetccAl(SetCondition(op, kind)));
      if place(dst).Register? {
        Emit(MovzxAl(Cell(place(dst))));
      } else {
        Emit(MovzxAl(Rax));
        Emit(Mov(Cell(place(dst)), Rax));
      }
      return true;
    }

    method EmitThroughRax(dst: LocalId, op: M.BinaryOp, lhs: LocalId, rhs: LocalId, kind: IntKind)
      requires kind.Valid()
      modifies this
      ensures asm == old(asm) + ThroughRax(place, dst, op, lhs, rhs, kind)
    {
      hide Core, Tail;
      Emit(Mov(Rax, Cell(place(lhs))));
      Emit(Mov(Rcx, Cell(place(rhs))));
      EmitCore(op, kind);
      EmitTail(op, kind);
      Emit(Mov(Cell(place(dst)), Rax));
    }

    method EmitCore(op: M.BinaryOp, kind: IntKind)
      requires kind.Valid()
      modifies this
      ensures asm == old(asm) + Core(op, kind)
    {
      match op
      case Add =>
        Emit(Alu(AddOp, Rax, Rcx));
        if kind.IsFullWidth() { Emit(Jcc(Carried(kind), Trampoline(Overflow))); }
      case Sub =>
        Emit(Alu(SubOp, Rax, Rcx));
        if kind.IsFullWidth() { Emit(Jcc(Carried(kind), Trampoline(Overflow))); }
      case Mul =>
        if kind.IsFullWidth() && !kind.signed { Emit(MulRcx); } else { Emit(Imul(Rax, Rcx)); }
        Emit(Jcc(O, Trampoline(Overflow)));
      case Div => EmitDivide(kind);
      case Rem =>
        EmitDivide(kind);
        Emit(Mov(Rax, Rdx));
      case BitAnd => Emit(Alu(AndOp, Rax, Rcx));
      case BitOr => Emit(Alu(OrOp, Rax, Rcx));
      case BitXor => Emit(Alu(XorOp, Rax, Rcx));
      case Shl => EmitShift(op, kind);
      case Shr => EmitShift(op, kind);
      case _ =>
        Emit(Alu(CmpOp, Rax, Rcx));
        Emit(SetccAl(SetCondition(op, kind)));
        Emit(MovzxAl(Rax));
    }

    method EmitDivide(kind: IntKind)
      modifies this
      ensures asm == old(asm) + DivideWithCheck(kind)
    {
      Emit(Test(Rcx, Rcx));
      Emit(Jcc(E, Trampoline(DivZero)));
      if !kind.signed && kind.IsFullWidth() {
        Emit(Alu(XorOp, Rdx, Rdx));
        Emit(DivRcx);
      } else {
        if kind.IsFullWidth() {
          Emit(Mov(Rdx, Imm(-0x8000_0000_0000_0000)));
          Emit(Alu(CmpOp, Rax, Rdx));
          Emit(Jcc(Ne, Forward));
          Emit(Alu(CmpOp, Rcx, Imm(-1)));
          Emit(Jcc(E, Trampoline(Overflow)));
          Emit(Label);
        }
        Emit(Cqo);
        Emit(IdivRcx);
      }
    }

    method EmitShift(op: M.BinaryOp, kind: IntKind)
      requires kind.Valid()
      modifies this
      ensures asm == old(asm) + ShiftCode(op, kind)
    {
      Emit(Alu(CmpOp, Rcx, Imm(kind.bits)));
      Emit(Jcc(Ae, Trampoline(ShiftCount)));
      Emit(ShiftCl(ShiftOf(op, kind)));
    }

    method EmitTail(op: M.BinaryOp, kind: IntKind)
      requires kind.Valid()
      modifies this
      ensures asm == old(asm) + Tail(op, kind)
    {
      if !kind.IsFullWidth() {
        match op
        case Add => EmitCanonicalizeRaxChecked(kind);
        case Sub => EmitCanonicalizeRaxChecked(kind);
        case Mul => EmitCanonicalizeRaxChecked(kind);
        case Div => EmitCanonicalizeRaxChecked(kind);
        case Shl => EmitCanonicalizeRax(kind);
        case _ =>
      }
    }
  }
}
