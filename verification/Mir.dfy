/** The mid-level representation that control-flow analysis, register
    allocation and both code generators read. Source spans are dropped. */
module Mir {
  import opened Types

  type LocalId = nat
  type BlockId = nat

  datatype BinaryOp =
    | Add | Sub | Mul | Div | Rem
    | Less | Greater | LessEqual | GreaterEqual | Equal | NotEqual
    | BitAnd | BitOr | BitXor
    | Shl | Shr
  {
    predicate Compares() {
      this in {Less, Greater, LessEqual, GreaterEqual, Equal, NotEqual}
    }

    predicate Bitwise() {
      this in {BitAnd, BitOr, BitXor}
    }
  }

  datatype Instruction =
    | ConstInt(dst: LocalId, value: int)
    | ConstFloat(dst: LocalId, bits: nat)
    | ConstBool(dst: LocalId, flag: bool)
    | StringNew(dst: LocalId, text: seq<nat>)
    | Assign(dst: LocalId, src: LocalId)
    | AddressOf(dst: LocalId, src: LocalId)
    | Binary(dst: LocalId, op: BinaryOp, lhs: LocalId, rhs: LocalId, ty: Type)
    | Call(dst: LocalId, symbol: string, args: seq<LocalId>, argTypes: seq<Type>, result: Type)
    | FnAddr(dst: LocalId, symbol: string)
    | CallValue(dst: LocalId, callee: LocalId, args: seq<LocalId>, argTypes: seq<Type>, result: Type)
    | Drop(local: LocalId, ty: Type)
    | StructNew(dst: LocalId, name: string, fields: seq<LocalId>)
    | FieldLoad(dst: LocalId, base: LocalId, index: nat)
    | Load(dst: LocalId, src: LocalId)
    | FieldAddr(dst: LocalId, base: LocalId, index: nat)
    | EnumNew(dst: LocalId, name: string, tag: nat, fields: seq<LocalId>)
    | EnumTag(dst: LocalId, base: LocalId)
    | EnumFieldLoad(dst: LocalId, base: LocalId, index: nat)
    | EnumFieldAddr(dst: LocalId, base: LocalId, index: nat)
    | FieldStore(base: LocalId, index: nat, src: LocalId)
    | EnumFieldStore(base: LocalId, index: nat, src: LocalId)
    | Free(local: LocalId)
    | VolatileLoad(dst: LocalId, addr: LocalId, ty: Type)
    | VolatileStore(addr: LocalId, src: LocalId, ty: Type)

  datatype Terminator =
    | Return(value: Option<LocalId>)
    | Goto(target: BlockId)
    | Branch(condition: LocalId, thenBlock: BlockId, elseBlock: BlockId)
    | Unreachable

  datatype BasicBlock = BasicBlock(statements: seq<Instruction>, terminator: Terminator)

  datatype MirFunction = MirFunction(
    params: seq<LocalId>,
    locals: seq<Type>,
    blocks: seq<BasicBlock>,
    entry: BlockId)

  // ----- what the fields mean ------------------------------------------------

  /** A field of the instruction that names a local whose value it needs. */
  predicate ReadsLocal(i: Instruction, l: LocalId) {
    if i.Binary? then l == i.lhs || l == i.rhs
    else if i.Call? then l in i.args
    else if i.CallValue? then l == i.callee || l in i.args
    else if i.StructNew? || i.EnumNew? then l in i.fields
    else if i.Assign? || i.AddressOf? || i.Load? then l == i.src
    else if i.FieldStore? || i.EnumFieldStore? then l == i.base || l == i.src
    else if i.VolatileStore? then l == i.addr || l == i.src
    else if i.VolatileLoad? then l == i.addr
    else if i.Drop? || i.Free? then l == i.local
    else if i.FieldLoad? || i.FieldAddr? || i.EnumTag? || i.EnumFieldLoad? || i.EnumFieldAddr? then l == i.base
    else false
  }

  /** The destination field, for the instructions that have one. */
  predicate WritesLocal(i: Instruction, l: LocalId) {
    && !i.Drop? && !i.Free? && !i.FieldStore? && !i.EnumFieldStore? && !i.VolatileStore?
    && l == i.dst
  }

  predicate TerminatorReads(t: Terminator, l: LocalId) {
    (t.Branch? && l == t.condition) || (t.Return? && t.value == Some(l))
  }

  predicate LeadsTo(t: Terminator, b: BlockId) {
    (t.Goto? && b == t.target) || (t.Branch? && (b == t.thenBlock || b == t.elseBlock))
  }

  // ----- the analyses' own tables ----------------------------------------------

  /** Blocks that control flow can transfer to. */
  function Successors(t: Terminator): (blocks: seq<BlockId>)
    ensures forall b: BlockId :: b in blocks <==> LeadsTo(t, b)
  {
    match t
    case Return(_) => []
    case Unreachable => []
    case Goto(target) => [target]
    case Branch(_, a, b) => [a, b]
  }

  /** The local an instruction writes; `Drop` and `Free` define nothing. */
  function Defs(i: Instruction): (defined: Option<LocalId>)
    ensures forall l: LocalId :: defined == Some(l) <==> WritesLocal(i, l)
  {
    match i
    case Drop(_, _) => None
    case Free(_) => None
    case FieldStore(_, _, _) => None
    case EnumFieldStore(_, _, _) => None
    case VolatileStore(_, _, _) => None
    case _ => Some(i.dst)
  }

  /** The locals an instruction reads, in the order they are appended. */
  function Uses(i: Instruction): (used: seq<LocalId>)
    ensures forall l: LocalId :: l in used <==> ReadsLocal(i, l)
  {
    match i
    case ConstInt(_, _) => []
    case ConstFloat(_, _) => []
    case ConstBool(_, _) => []
    case StringNew(_, _) => []
    case FnAddr(_, _) => []
    case Assign(_, src) => [src]
    case AddressOf(_, src) => [src]
    case Load(_, src) => [src]
    case Binary(_, _, lhs, rhs, _) => [lhs, rhs]
    case Call(_, _, args, _, _) => args
    case CallValue(_, callee, args, _, _) => [callee] + args
    case StructNew(_, _, fields) => fields
    case EnumNew(_, _, _, fields) => fields
    case FieldLoad(_, base, _) => [base]
    case FieldAddr(_, base, _) => [base]
    case EnumTag(_, base) => [base]
    case EnumFieldLoad(_, base, _) => [base]
    case EnumFieldAddr(_, base, _) => [base]
    case Drop(local, _) => [local]
    case Free(local) => [local]
    case VolatileLoad(_, addr, _) => [addr]
    case VolatileStore(addr, src, _) => [addr, src]
    case FieldStore(base, _, src) => [base, src]
    case EnumFieldStore(base, _, src) => [base, src]
  }

  function TerminatorUses(t: Terminator): (used: seq<LocalId>)
    ensures forall l: LocalId :: l in used <==> TerminatorReads(t, l)
  {
    match t
    case Return(Some(v)) => [v]
    case Return(None) => []
    case Branch(c, _, _) => [c]
    case Goto(_) => []
    case Unreachable => []
  }
}
