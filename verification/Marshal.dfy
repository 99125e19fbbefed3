/** A call from both sides: the code that places the argument words, the callee's
    entry, and the code that stores its parameters, run on one machine. */
module Marshal {
  import opened Types
  import M = Mir
  import opened RegAlloc
  import Words
  import opened Convention

  // ----- the machine --------------------------------------------------------------

  /** Argument registers of both sequences, allocated registers, and the one scratch
      register the generator uses between two instructions. */
  datatype Reg = Arg(index: nat) | Flt(index: nat) | Held(index: nat) | Scratch

  datatype Base = Fp | Sp | Through(reg: Reg)

  datatype Operand = R(reg: Reg) | Mem(base: Base, disp: int)

  datatype Inst =
    | Mov(dst: Operand, src: Operand)
    | Push(src: Operand)
    | SubSp(bytes: nat)
    | Narrow(kind: IntKind)
    | CallPush(returnTo: int)
    | PushFp
    | PushRecord(link: int)
    | FpFromSp
    | SpFromFp
    | PopFp
    | PopRecord

  datatype State = State(sp: int, fp: int, regs: map<Reg, int>, mem: map<int, int>)

  function Get(s: State, r: Reg): int {
    if r in s.regs then s.regs[r] else 0
  }

  function MemAt(s: State, at: int): int {
    if at in s.mem then s.mem[at] else 0
  }

  function BaseOf(s: State, b: Base): int {
    match b
    case Fp => s.fp
    case Sp => s.sp
    case Through(r) => Get(s, r)
  }

  function Read(s: State, o: Operand): int {
    match o
    case R(r) => Get(s, r)
    case Mem(b, d) => MemAt(s, BaseOf(s, b) + d)
  }

  function SetReg(s: State, r: Reg, w: int): (t: State)
    ensures t.sp == s.sp && t.fp == s.fp && t.mem == s.mem
    ensures forall q :: Get(t, q) == if q == r then w else Get(s, q)
  {
    s.(regs := s.regs[r := w])
  }

  function SetMem(s: State, at: int, w: int): (t: State)
    ensures t.sp == s.sp && t.fp == s.fp && t.regs == s.regs
    ensures forall a :: MemAt(t, a) == if a == at then w else MemAt(s, a)
    ensures forall q :: Get(t, q) == Get(s, q)
  {
    s.(mem := s.mem[at := w])
  }

  function Write(s: State, o: Operand, w: int): State {
    match o
    case R(r) => SetReg(s, r, w)
    case Mem(b, d) => SetMem(s, BaseOf(s, b) + d, w)
  }

  /** The canonical word of a narrow type with the same low bits. */
  function Narrowed(kind: IntKind, w: int): int {
    if kind.Valid() then Words.Canonicalize(kind, Words.Wrap(w)) else w
  }

  function Step(i: Inst, s: State): State {
    match i
    case Mov(dst, src) => Write(s, dst, Read(s, src))
    case Push(src) => SetMem(s, s.sp - 8, Read(s, src)).(sp := s.sp - 8)
    case SubSp(n) => s.(sp := s.sp - n)
    case Narrow(kind) => SetReg(s, Scratch, Narrowed(kind, Get(s, Scratch)))
    case CallPush(returnTo) => SetMem(s, s.sp - 8, returnTo).(sp := s.sp - 8)
    case PushFp => SetMem(s, s.sp - 8, s.fp).(sp := s.sp - 8)
    case PushRecord(link) => SetMem(SetMem(s, s.sp - 16, s.fp), s.sp - 8, link).(sp := s.sp - 16)
    case FpFromSp => s.(fp := s.sp)
    case SpFromFp => s.(sp := s.fp)
    case PopFp => s.(fp := MemAt(s, s.sp), sp := s.sp + 8)
    case PopRecord => s.(fp := MemAt(s, s.sp), sp := s.sp + 16)
  }

  function Exec(code: seq<Inst>, s: State): State {
    if code == [] then s else Exec(code[1..], Step(code[0], s))
  }

  lemma {:induction false} ExecAppend(a: seq<Inst>, b: seq<Inst>, s: State)
    ensures Exec(a + b, s) == Exec(b, Exec(a, s))
    decreases |a|
  {
    if a == [] {
      assert a + b == b;
    } else {
      assert (a + b)[1..] == a[1..] + b;
      ExecAppend(a[1..], b, Step(a[0], s));
    }
  }

  lemma Exec1(i: Inst, s: State)
    ensures Exec([i], s) == Step(i, s)
  {
  }

  lemma Exec2(i: Inst, j: Inst, s: State)
    ensures Exec([i, j], s) == Step(j, Step(i, s))
  {
    assert [i, j][1..] == [j];
    Exec1(j, Step(i, s));
  }

  // ----- homes ----------------------------------------------------------------------

  /** Where a function keeps its locals. `slotBase` is where AArch64's slots start. */
  datatype Frame = Frame(arch: Arch, place: LocalId -> Location, slotBase: nat)

  /** x86-64 counts slots down from `rbp`, AArch64 up from `sp`. */
  function HomeOf(f: Frame, l: LocalId): (o: Operand)
    ensures if f.place(l).Register? then o == R(Held(f.place(l).index)) else o.Mem? && (o.base == Fp || o.base == Sp)
  {
    match f.place(l)
    case Register(i) => R(Held(i))
    case Memory(slot) =>
      if f.arch.X86? then Mem(Fp, -((slot + 1) * 8)) else Mem(Sp, f.slotBase + slot * 8)
  }

  function ValueOf(f: Frame, s: State, source: Source): int {
    match source
    case Value(l) => Read(s, HomeOf(f, l))
    case Indirect(b, offset) => MemAt(s, Read(s, HomeOf(f, b)) + offset)
  }

  // ----- what C sees -------------------------------------------------------------------

  /** The runtime's structs, field by field. */
  datatype SlString = SlString(len: int, cap: int, ptr: int)

  datatype SlSlice = SlSlice(len: int, elemSize: int, ptr: int)

  datatype SlList = SlList(len: int, cap: int, elemSize: int, ptr: int)

  /** Words one after another in memory, as a struct lays its fields out. */
  ghost predicate Struct(s: State, at: int, fields: seq<int>) {
    forall i :: 0 <= i < |fields| ==> MemAt(s, at + 8 * i) == fields[i]
  }

  function Values(f: Frame, s: State, words: seq<ArgWord>): seq<int> {
    seq(|words|, i requires 0 <= i < |words| => ValueOf(f, s, words[i].source))
  }

  /** What an extern function is passed for one argument: the pointer inside a string; the
      pointer and then the length of a slice, a list or an array; otherwise the word
      itself, in the float sequence if it is a double. */
  lemma ExternSees(f: Frame, s: State, arg: LocalId, ty: Type)
    ensures var words, it := ExternWordsOf(arg, ty), Read(s, HomeOf(f, arg));
      var values := Values(f, s, words);
      && (ty.Ref? && ty.inner.Str? ==>
            forall r: SlString :: Struct(s, it, [r.len, r.cap, r.ptr]) ==> values == [r.ptr])
      && (ty.Ref? && ty.inner.Slice? ==>
            forall r: SlSlice :: Struct(s, it, [r.len, r.elemSize, r.ptr]) ==> values == [r.ptr, r.len])
      && (ty.Ref? && (ty.inner.List? || ty.inner.Array?) ==>
            forall r: SlList :: Struct(s, it, [r.len, r.cap, r.elemSize, r.ptr]) ==> values == [r.ptr, r.len])
      && (!ty.Ref? || !(ty.inner.Str? || ty.inner.Slice? || ty.inner.List? || ty.inner.Array?) ==> values == [it])
      && (forall i :: 0 <= i < |words| ==> (words[i].kind == Float <==> ty == F64))
  {
    hide HomeOf;
    var it := Read(s, HomeOf(f, arg));
    forall fields | Struct(s, it, fields) && |fields| >= 3
      ensures MemAt(s, it) == fields[0] && MemAt(s, it + 16) == fields[2]
      ensures |fields| >= 4 ==> MemAt(s, it + 24) == fields[3]
    {
      assert MemAt(s, it + 8 * 0) == fields[0] && MemAt(s, it + 8 * 2) == fields[2];
      assert |fields| >= 4 ==> MemAt(s, it + 8 * 3) == fields[3];
    }
    assert Values(f, s, [ArgWord(Value(arg), ClassOf(ty))]) == [it];
  }

  predicate Clear(at: int, lo: int, hi: int) {
    at < lo || at >= hi
  }

  predicate HomeClear(f: Frame, s: State, l: LocalId, lo: int, hi: int) {
    match HomeOf(f, l)
    case R(_) => true
    case Mem(b, d) => Clear(BaseOf(s, b) + d, lo, hi)
  }

  /** Neither the local nor what it points at is in the part of the stack the call
      is about to fill. */
  predicate SourceClear(f: Frame, s: State, source: Source, lo: int, hi: int) {
    match source
    case Value(l) => HomeClear(f, s, l, lo, hi)
    case Indirect(b, offset) => HomeClear(f, s, b, lo, hi) && Clear(Read(s, HomeOf(f, b)) + offset, lo, hi)
  }

  // ----- placing one word ---------------------------------------------------------------

  /** Nothing changed but registers that no local is in, and `target` among them. */
  ghost predicate OnlyReg(s: State, t: State, target: Reg, v: int) {
    && t.sp == s.sp && t.fp == s.fp && t.mem == s.mem && Get(t, target) == v
    && forall r :: r != target && r != Scratch ==> Get(t, r) == Get(s, r)
  }

  function X86Operand(f: Frame, source: Source): Operand {
    match source
    case Value(l) => HomeOf(f, l)
    case Indirect(_, _) => R(Scratch)
  }

  function X86Fetch(f: Frame, source: Source): seq<Inst> {
    match source
    case Value(_) => []
    case Indirect(b, offset) => [Mov(R(Scratch), HomeOf(f, b)), Mov(R(Scratch), Mem(Through(Scratch), offset))]
  }

  function A64Register(f: Frame, source: Source): Reg {
    match source
    case Value(l) => (match f.place(l) case Register(i) => Held(i) case Memory(_) => Scratch)
    case Indirect(_, _) => Scratch
  }

  /** `read`: nothing for a local in a register, a load for one in a slot. */
  function A64Read(f: Frame, l: LocalId): seq<Inst> {
    if f.place(l).Register? then [] else [Mov(R(Scratch), HomeOf(f, l))]
  }

  function A64ReadReg(f: Frame, l: LocalId): Reg {
    match f.place(l)
    case Register(i) => Held(i)
    case Memory(_) => Scratch
  }

  function A64Fetch(f: Frame, source: Source): seq<Inst> {
    match source
    case Value(l) => A64Read(f, l)
    case Indirect(b, offset) => A64Read(f, b) + [Mov(R(Scratch), Mem(Through(A64ReadReg(f, b)), offset))]
  }

  /** The code for a word that goes in a register, or on AArch64 anywhere. */
  function PlaceCode(f: Frame, source: Source, p: Place): seq<Inst> {
    match p
    case IntegerRegister(i) =>
      (match source
       case Value(l) =>
         if f.arch.X86? || f.place(l).Register? then [Mov(R(Arg(i)), HomeOf(f, l))]
         else [Mov(R(Scratch), HomeOf(f, l)), Mov(R(Arg(i)), R(Scratch))]
       case Indirect(b, offset) =>
         if f.arch.X86? then [Mov(R(Arg(i)), HomeOf(f, b)), Mov(R(Arg(i)), Mem(Through(Arg(i)), offset))]
         else A64Read(f, b) + [Mov(R(Arg(i)), Mem(Through(A64ReadReg(f, b)), offset))])
    case FloatRegister(i) =>
      if f.arch.A64? then A64Fetch(f, source) + [Mov(R(Flt(i)), R(A64Register(f, source)))]
      else
        X86Fetch(f, source)
          + if X86Operand(f, source).R? then [Mov(R(Flt(i)), X86Operand(f, source))]
            else [Mov(R(Scratch), X86Operand(f, source)), Mov(R(Flt(i)), R(Scratch))]
    case Stack(j) =>
      if f.arch.A64? then A64Fetch(f, source) + [Mov(Mem(Sp, j * 8), R(A64Register(f, source)))] else []
  }

  /** A pointer into a register, then the word it points at into the same one. */
  lemma LoadThrough(f: Frame, r: Reg, b: LocalId, offset: int, s: State)
    ensures OnlyReg(s, Exec([Mov(R(r), HomeOf(f, b)), Mov(R(r), Mem(Through(r), offset))], s), r,
                    ValueOf(f, s, Indirect(b, offset)))
  {
    hide HomeOf, Exec, SetReg, SetMem;
    Exec2(Mov(R(r), HomeOf(f, b)), Mov(R(r), Mem(Through(r), offset)), s);
  }

  lemma FetchX86(f: Frame, source: Source, s: State)
    ensures var t := Exec(X86Fetch(f, source), s);
      && t.sp == s.sp && t.fp == s.fp && t.mem == s.mem && (forall r :: r != Scratch ==> Get(t, r) == Get(s, r))
      && (f.arch.X86? ==> Read(t, X86Operand(f, source)) == ValueOf(f, s, source))
  {
    match source
    case Value(_) =>
    case Indirect(b, offset) =>
      LoadThrough(f, Scratch, b, offset, s);
      hide Exec, HomeOf, ValueOf;
  }

  lemma ReadA64(f: Frame, l: LocalId, s: State)
    ensures var t := Exec(A64Read(f, l), s);
      && t.sp == s.sp && t.fp == s.fp && t.mem == s.mem && (forall r :: r != Scratch ==> Get(t, r) == Get(s, r))
      && Get(t, A64ReadReg(f, l)) == Read(s, HomeOf(f, l))
  {
    if f.place(l).Memory? { Exec1(Mov(R(Scratch), HomeOf(f, l)), s); }
  }

  lemma FetchA64(f: Frame, source: Source, s: State)
    ensures var t := Exec(A64Fetch(f, source), s);
      && t.sp == s.sp && t.fp == s.fp && t.mem == s.mem && (forall r :: r != Scratch ==> Get(t, r) == Get(s, r))
      && Get(t, A64Register(f, source)) == ValueOf(f, s, source)
  {
    match source
    case Value(l) => ReadA64(f, l, s);
    case Indirect(b, offset) =>
      ReadA64(f, b, s);
      var load := Mov(R(Scratch), Mem(Through(A64ReadReg(f, b)), offset));
      ExecAppend(A64Read(f, b), [load], s);
      Exec1(load, Exec(A64Read(f, b), s));
      hide Exec, HomeOf, A64Read, A64ReadReg;
  }

  lemma PlacesInRegister(f: Frame, source: Source, i: nat, s: State)
    ensures OnlyReg(s, Exec(PlaceCode(f, source, IntegerRegister(i)), s), Arg(i), ValueOf(f, s, source))
  {
    match source
    case Value(l) =>
      if f.arch.X86? || f.place(l).Register? {
        Exec1(Mov(R(Arg(i)), HomeOf(f, l)), s);
      } else {
        Exec2(Mov(R(Scratch), HomeOf(f, l)), Mov(R(Arg(i)), R(Scratch)), s);
      }
      hide Exec, HomeOf;
    case Indirect(b, offset) =>
      if f.arch.X86? {
        Exec2(Mov(R(Arg(i)), HomeOf(f, b)), Mov(R(Arg(i)), Mem(Through(Arg(i)), offset)), s);
      } else {
        ReadA64(f, b, s);
        var load := Mov(R(Arg(i)), Mem(Through(A64ReadReg(f, b)), offset));
        ExecAppend(A64Read(f, b), [load], s);
        Exec1(load, Exec(A64Read(f, b), s));
      }
      hide Exec, HomeOf, A64Read, A64ReadReg;
  }

  lemma PlacesInFloat(f: Frame, source: Source, i: nat, s: State)
    ensures OnlyReg(s, Exec(PlaceCode(f, source, FloatRegister(i)), s), Flt(i), ValueOf(f, s, source))
  {
    if f.arch.A64? {
      FetchA64(f, source, s);
      var move := Mov(R(Flt(i)), R(A64Register(f, source)));
      ExecAppend(A64Fetch(f, source), [move], s);
      Exec1(move, Exec(A64Fetch(f, source), s));
      hide Exec, HomeOf, A64Fetch, A64Register, ValueOf;
    } else {
      FetchX86(f, source, s);
      var o, t := X86Operand(f, source), Exec(X86Fetch(f, source), s);
      var direct, through := Mov(R(Flt(i)), o), [Mov(R(Scratch), o), Mov(R(Flt(i)), R(Scratch))];
      ExecAppend(X86Fetch(f, source), if o.R? then [direct] else through, s);
      Exec1(direct, t);
      Exec2(through[0], through[1], t);
      hide Exec, HomeOf, X86Fetch, X86Operand, ValueOf;
    }
  }

  lemma PlacesOnStack(f: Frame, source: Source, j: nat, s: State)
    requires f.arch.A64?
    ensures var t := Exec(PlaceCode(f, source, Stack(j)), s);
      && t.sp == s.sp && t.fp == s.fp && t.mem == SetMem(s, s.sp + j * 8, ValueOf(f, s, source)).mem
      && forall r :: r != Scratch ==> Get(t, r) == Get(s, r)
  {
    FetchA64(f, source, s);
    var store := Mov(Mem(Sp, j * 8), R(A64Register(f, source)));
    ExecAppend(A64Fetch(f, source), [store], s);
    Exec1(store, Exec(A64Fetch(f, source), s));
    hide Exec, HomeOf, A64Fetch, A64Register, ValueOf;
  }

  // ----- the whole argument list ----------------------------------------------------------

  /** What a callee finds in a place, once `sp` is where the call leaves it. */
  function ArgAt(s: State, p: Place): int {
    match p
    case IntegerRegister(i) => Get(s, Arg(i))
    case FloatRegister(i) => Get(s, Flt(i))
    case Stack(j) => MemAt(s, s.sp + j * 8)
  }

  /** The frame pointer, the locals' registers, and all memory outside a range. */
  ghost predicate Kept(s: State, t: State, lo: int, hi: int) {
    && t.fp == s.fp
    && (forall i :: Get(t, Held(i)) == Get(s, Held(i)))
    && (forall a :: Clear(a, lo, hi) ==> MemAt(t, a) == MemAt(s, a))
  }

  lemma KeptTransitive(s: State, t: State, u: State, lo: int, hi: int)
    requires Kept(s, t, lo, hi) && Kept(t, u, lo, hi)
    ensures Kept(s, u, lo, hi)
  {
  }

  /** x86-64 homes hang off the frame pointer, AArch64 homes off `sp`. */
  ghost predicate SameAnchor(f: Frame, s: State, t: State) {
    t.fp == s.fp && (f.arch.A64? ==> t.sp == s.sp)
  }

  lemma SourceStable(f: Frame, s: State, t: State, source: Source, lo: int, hi: int)
    requires SameAnchor(f, s, t) && Kept(s, t, lo, hi) && SourceClear(f, s, source, lo, hi)
    ensures ValueOf(f, t, source) == ValueOf(f, s, source) && SourceClear(f, t, source, lo, hi)
  {
  }

  /** Code for the words that need no push, one after another. */
  function WordsCode(f: Frame, words: seq<ArgWord>, k: nat): seq<Inst>
    requires k <= |words|
  {
    if k == 0 then []
    else WordsCode(f, words, k - 1) + PlaceCode(f, words[k - 1].source, PlaceOf(f.arch, words, k - 1))
  }

  ghost predicate AllClear(f: Frame, s: State, words: seq<ArgWord>, lo: int, hi: int) {
    forall k :: 0 <= k < |words| ==> SourceClear(f, s, words[k].source, lo, hi)
  }

  /** Whether the register pass has placed a word: AArch64 places all of them. */
  predicate PlacedNow(f: Frame, p: Place) {
    f.arch.A64? || !p.Stack?
  }

  lemma PlaceOne(f: Frame, source: Source, p: Place, s: State, lo: int, hi: int)
    requires PlacedNow(f, p) && (p.Stack? ==> lo <= s.sp + p.index * 8 < hi)
    ensures var t := Exec(PlaceCode(f, source, p), s);
      && Kept(s, t, lo, hi) && t.sp == s.sp && ArgAt(t, p) == ValueOf(f, s, source)
      && forall q: Place :: q != p ==> ArgAt(t, q) == ArgAt(s, q)
  {
    hide Exec, PlaceCode, ValueOf;
    match p {
      case IntegerRegister(i) => PlacesInRegister(f, source, i, s);
      case FloatRegister(i) => PlacesInFloat(f, source, i, s);
      case Stack(j) => PlacesOnStack(f, source, j, s);
    }
  }

  lemma {:induction false} WordsPlaced(f: Frame, words: seq<ArgWord>, k: nat, s: State, lo: int, hi: int)
    requires k <= |words| && AllClear(f, s, words, lo, hi)
    requires f.arch.A64? ==> lo <= s.sp && s.sp + Stacked(f.arch, words) * 8 <= hi
    ensures var t := Exec(WordsCode(f, words, k), s);
      && Kept(s, t, lo, hi) && t.sp == s.sp
      && forall j: nat :: j < k && PlacedNow(f, PlaceOf(f.arch, words, j)) ==>
           ArgAt(t, PlaceOf(f.arch, words, j)) == ValueOf(f, s, words[j].source)
  {
    hide Exec, PlaceOf, PlaceCode, ValueOf, SourceClear, Stacked, ArgAt;
    if k == 0 {
      ExecNothing(s);
    } else {
      WordsPlaced(f, words, k - 1, s, lo, hi);
      var t := Exec(WordsCode(f, words, k - 1), s);
      var p, source := PlaceOf(f.arch, words, k - 1), words[k - 1].source;
      ExecAppend(WordsCode(f, words, k - 1), PlaceCode(f, source, p), s);
      SourceStable(f, s, t, source, lo, hi);
      if PlacedNow(f, p) {
        PlaceInArea(f.arch, words, k - 1);
        PlaceOne(f, source, p, t, lo, hi);
      } else {
        NoCode(f, source, p, t);
      }
      forall j: nat | j < k - 1 ensures PlaceOf(f.arch, words, j) != p {
        PlacesDistinct(f.arch, words, j, k - 1);
      }
    }
  }

  lemma ExecNothing(s: State)
    ensures Exec([], s) == s
  {
  }

  lemma NoCode(f: Frame, source: Source, p: Place, s: State)
    requires !PlacedNow(f, p)
    ensures Exec(PlaceCode(f, source, p), s) == s
  {
  }

  // ----- x86-64: the words that are pushed -----------------------------------------------------

  /** The words past the registers, in order. */
  function StackSources(arch: Arch, words: seq<ArgWord>, k: nat): (ws: seq<Source>)
    requires k <= |words|
    ensures |ws| == Stacked(arch, words[..k])
    decreases k
  {
    if k == 0 then []
    else
      StackedStep(arch, words, k - 1);
      StackSources(arch, words, k - 1) + if PlaceOf(arch, words, k - 1).Stack? then [words[k - 1].source] else []
  }

  lemma {:induction false} StackSourceAt(arch: Arch, words: seq<ArgWord>, k: nat, n: nat)
    requires k < n <= |words| && PlaceOf(arch, words, k).Stack?
    ensures PlaceOf(arch, words, k).index < |StackSources(arch, words, n)|
    ensures StackSources(arch, words, n)[PlaceOf(arch, words, k).index] == words[k].source
    decreases n
  {
    if k < n - 1 { StackSourceAt(arch, words, k, n - 1); }
  }

  lemma {:induction false} StackSourceOf(arch: Arch, words: seq<ArgWord>, n: nat, i: nat)
    requires n <= |words| && i < |StackSources(arch, words, n)|
    ensures exists k: nat :: k < n && words[k].source == StackSources(arch, words, n)[i]
    decreases n
  {
    if n > 0 && i < |StackSources(arch, words, n - 1)| { StackSourceOf(arch, words, n - 1, i); }
  }

  /** Pushed last to first, so the first is at the lowest address. */
  function PushCode(f: Frame, ws: seq<Source>): seq<Inst>
    decreases |ws|
  {
    if ws == [] then []
    else PushCode(f, ws[1..]) + (X86Fetch(f, ws[0]) + [Push(X86Operand(f, ws[0]))])
  }

  lemma PushOne(f: Frame, source: Source, s: State)
    requires f.arch.X86?
    ensures var t := Exec(X86Fetch(f, source) + [Push(X86Operand(f, source))], s);
      && t.sp == s.sp - 8 && t.fp == s.fp && t.mem == SetMem(s, s.sp - 8, ValueOf(f, s, source)).mem
      && forall r :: r != Scratch ==> Get(t, r) == Get(s, r)
  {
    FetchX86(f, source, s);
    var push := Push(X86Operand(f, source));
    ExecAppend(X86Fetch(f, source), [push], s);
    Exec1(push, Exec(X86Fetch(f, source), s));
    hide Exec, X86Fetch, X86Operand, ValueOf;
  }

  lemma {:induction false} Pushed(f: Frame, ws: seq<Source>, s: State, lo: int, hi: int)
    requires f.arch.X86? && lo <= s.sp - 8 * |ws| && s.sp <= hi
    requires forall j :: 0 <= j < |ws| ==> SourceClear(f, s, ws[j], lo, hi)
    ensures var t := Exec(PushCode(f, ws), s);
      && Kept(s, t, lo, hi) && t.sp == s.sp - 8 * |ws|
      && (forall j: nat :: j < |ws| ==> MemAt(t, t.sp + j * 8) == ValueOf(f, s, ws[j]))
      && (forall r :: r != Scratch ==> Get(t, r) == Get(s, r))
    decreases |ws|
  {
    hide Exec, ValueOf, SourceClear, X86Fetch, X86Operand;
    if ws == [] {
      ExecNothing(s);
    } else {
      var rest := ws[1..];
      Pushed(f, rest, s, lo, hi);
      var t := Exec(PushCode(f, rest), s);
      var last := X86Fetch(f, ws[0]) + [Push(X86Operand(f, ws[0]))];
      ExecAppend(PushCode(f, rest), last, s);
      SourceStable(f, s, t, ws[0], lo, hi);
      PushOne(f, ws[0], t);
      var u := Exec(last, t);
      forall j: nat | j < |ws| ensures MemAt(u, u.sp + j * 8) == ValueOf(f, s, ws[j]) {
        if j > 0 {
          assert rest[j - 1] == ws[j];
          assert u.sp + j * 8 == t.sp + (j - 1) * 8;
        }
      }
    }
  }

  // ----- the call ------------------------------------------------------------------------------

  function Padding(n: nat): nat {
    if n % 2 == 0 then 0 else 8
  }

  function MarshalCode(f: Frame, words: seq<ArgWord>): seq<Inst> {
    WordsCode(f, words, |words|)
      + if f.arch.A64? then []
        else
          var ws := StackSources(f.arch, words, |words|);
          (if Padding(|ws|) != 0 then [SubSp(8)] else []) + PushCode(f, ws)
  }

  /** The range of the stack a call fills: below `sp` on x86-64, at the bottom of the
      frame on AArch64. */
  function AreaLow(f: Frame, s: State, words: seq<ArgWord>): int {
    if f.arch.A64? then s.sp else s.sp - 8 * Stacked(f.arch, words) - Padding(Stacked(f.arch, words))
  }

  function AreaHigh(f: Frame, s: State, words: seq<ArgWord>): int {
    if f.arch.A64? then s.sp + 8 * Stacked(f.arch, words) else s.sp
  }

  /** At the call every argument word is in its place, `sp` has kept its alignment,
      and only the outgoing area of memory has been written. */
  lemma Marshals(f: Frame, words: seq<ArgWord>, s: State)
    requires s.sp % 16 == 0 && AllClear(f, s, words, AreaLow(f, s, words), AreaHigh(f, s, words))
    ensures var t := Exec(MarshalCode(f, words), s);
      && t.sp == AreaLow(f, s, words) && t.sp % 16 == 0
      && Kept(s, t, AreaLow(f, s, words), AreaHigh(f, s, words))
      && forall k: nat :: k < |words| ==> ArgAt(t, PlaceOf(f.arch, words, k)) == ValueOf(f, s, words[k].source)
  {
    var lo, hi := AreaLow(f, s, words), AreaHigh(f, s, words);
    WordsPlaced(f, words, |words|, s, lo, hi);
    if f.arch.X86? {
      PushesRest(f, words, s);
    } else {
      hide Exec, WordsCode, PlaceOf, ValueOf, SourceClear, ArgAt, Stacked;
      assert MarshalCode(f, words) == WordsCode(f, words, |words|);
    }
  }

  /** The x86-64 code after the register pass: padding, then pushes. */
  lemma PushesRun(f: Frame, words: seq<ArgWord>, s: State)
    requires f.arch.X86?
    ensures var t, ws := Exec(WordsCode(f, words, |words|), s), StackSources(f.arch, words, |words|);
      Exec(MarshalCode(f, words), s) == Exec(PushCode(f, ws), t.(sp := t.sp - Padding(|ws|)))
  {
    hide Exec, StackSources, WordsCode, PushCode, Padding;
    var t := Exec(WordsCode(f, words, |words|), s);
    var ws := StackSources(f.arch, words, |words|);
    var pad := if Padding(|ws|) != 0 then [SubSp(8)] else [];
    PadRuns(pad, |ws|, t);
    ExecAppend(WordsCode(f, words, |words|), pad + PushCode(f, ws), s);
    ExecAppend(pad, PushCode(f, ws), t);
  }

  lemma PushesRest(f: Frame, words: seq<ArgWord>, s: State)
    requires f.arch.X86? && s.sp % 16 == 0 && AllClear(f, s, words, AreaLow(f, s, words), s.sp)
    requires var t := Exec(WordsCode(f, words, |words|), s);
      && Kept(s, t, AreaLow(f, s, words), s.sp) && t.sp == s.sp
      && forall j: nat :: j < |words| && PlacedNow(f, PlaceOf(f.arch, words, j)) ==>
           ArgAt(t, PlaceOf(f.arch, words, j)) == ValueOf(f, s, words[j].source)
    ensures var u := Exec(MarshalCode(f, words), s);
      && u.sp == AreaLow(f, s, words) && u.sp % 16 == 0 && Kept(s, u, AreaLow(f, s, words), s.sp)
      && forall k: nat :: k < |words| ==> ArgAt(u, PlaceOf(f.arch, words, k)) == ValueOf(f, s, words[k].source)
  {
    hide *;
    var t := Exec(WordsCode(f, words, |words|), s);
    var ws := StackSources(f.arch, words, |words|);
    var lo := AreaLow(f, s, words);
    PushesRun(f, words, s);
    WholeList(words, f.arch);
    LowAligned(f, s, words);
    var v := t.(sp := t.sp - Padding(|ws|));
    var u := Exec(PushCode(f, ws), v);
    SpOnly(t, v);
    KeptTransitive(s, t, v, lo, s.sp);
    SourcesClear(f, words, s, v, lo);
    Pushed(f, ws, v, lo, s.sp);
    KeptTransitive(s, v, u, lo, s.sp);
    forall k: nat | k < |words| ensures ArgAt(u, PlaceOf(f.arch, words, k)) == ValueOf(f, s, words[k].source) {
      PushedArg(f, words, k, s, t, v, u, lo);
    }
  }

  lemma WholeList(words: seq<ArgWord>, arch: Arch)
    ensures |StackSources(arch, words, |words|)| == Stacked(arch, words)
  {
    assert words[..|words|] == words;
  }

  lemma LowAligned(f: Frame, s: State, words: seq<ArgWord>)
    requires f.arch.X86? && s.sp % 16 == 0
    ensures var n := Stacked(f.arch, words);
      AreaLow(f, s, words) == s.sp - Padding(n) - 8 * n && AreaLow(f, s, words) % 16 == 0 && Padding(n) >= 0
  {
    hide Stacked;
  }

  lemma SpOnly(t: State, v: State)
    requires v == t.(sp := v.sp)
    ensures forall lo, hi :: Kept(t, v, lo, hi)
    ensures forall i: nat :: ArgAt(v, IntegerRegister(i)) == ArgAt(t, IntegerRegister(i))
    ensures forall i: nat :: ArgAt(v, FloatRegister(i)) == ArgAt(t, FloatRegister(i))
  {
  }

  lemma SourcesClear(f: Frame, words: seq<ArgWord>, s: State, v: State, lo: int)
    requires f.arch.X86? && AllClear(f, s, words, lo, s.sp) && Kept(s, v, lo, s.sp)
    ensures var ws := StackSources(f.arch, words, |words|);
      forall j :: 0 <= j < |ws| ==> SourceClear(f, v, ws[j], lo, s.sp)
  {
    var ws := StackSources(f.arch, words, |words|);
    hide ValueOf, SourceClear, StackSources, PlaceOf;
    forall j | 0 <= j < |ws| ensures SourceClear(f, v, ws[j], lo, s.sp) {
      StackSourceOf(f.arch, words, |words|, j);
      var k: nat :| k < |words| && words[k].source == ws[j];
      SourceStable(f, s, v, ws[j], lo, s.sp);
    }
  }

  /** A word is where it belongs after the pushes, whether it was pushed or not. */
  lemma PushedArg(f: Frame, words: seq<ArgWord>, k: nat, s: State, t: State, v: State, u: State, lo: int)
    requires f.arch.X86? && k < |words| && AllClear(f, s, words, lo, s.sp)
    requires Kept(s, v, lo, s.sp) && v == t.(sp := v.sp)
    requires PlacedNow(f, PlaceOf(f.arch, words, k)) ==>
        ArgAt(t, PlaceOf(f.arch, words, k)) == ValueOf(f, s, words[k].source)
    requires forall r :: r != Scratch ==> Get(u, r) == Get(v, r)
    requires var ws := StackSources(f.arch, words, |words|);
      forall j: nat :: j < |ws| ==> MemAt(u, u.sp + j * 8) == ValueOf(f, v, ws[j])
    ensures ArgAt(u, PlaceOf(f.arch, words, k)) == ValueOf(f, s, words[k].source)
  {
    hide *;
    var p := PlaceOf(f.arch, words, k);
    match p
    case IntegerRegister(i) => RegisterArg(f, p, v, t, u);
    case FloatRegister(i) => RegisterArg(f, p, v, t, u);
    case Stack(j) =>
      StackSourceAt(f.arch, words, k, |words|);
      ClearAt(f, s, v, words, k, lo);
      SourceStable(f, s, v, words[k].source, lo, s.sp);
      StackArg(u, j);
  }

  lemma RegisterArg(f: Frame, p: Place, v: State, t: State, u: State)
    requires !p.Stack? && v.regs == t.regs && forall r :: r != Scratch ==> Get(u, r) == Get(v, r)
    ensures PlacedNow(f, p) && ArgAt(u, p) == ArgAt(t, p)
  {
  }

  lemma StackArg(u: State, j: nat)
    ensures ArgAt(u, Stack(j)) == MemAt(u, u.sp + j * 8)
  {
  }

  lemma ClearAt(f: Frame, s: State, v: State, words: seq<ArgWord>, k: nat, lo: int)
    requires f.arch.X86? && k < |words| && AllClear(f, s, words, lo, s.sp) && Kept(s, v, lo, s.sp)
    ensures SourceClear(f, s, words[k].source, lo, s.sp) && SameAnchor(f, s, v)
  {
  }

  lemma PadRuns(pad: seq<Inst>, n: nat, t: State)
    requires pad == if Padding(n) != 0 then [SubSp(8)] else []
    ensures Exec(pad, t) == t.(sp := t.sp - Padding(n))
  {
  }

  // ----- the callee ----------------------------------------------------------------------------

  /** A called function: its homes, and how many slots and saved registers its frame
      holds. */
  datatype Callee = Callee(frame: Frame, slots: nat, saved: seq<nat>)

  function FrameBytes(g: Callee): nat {
    AlignTo((if g.frame.arch.X86? then 0 else g.frame.slotBase) + (g.slots + |g.saved|) * 8, 16)
  }

  /** Where saved register `i` is kept: behind the local slots. */
  function SaveSlot(g: Callee, i: nat): Operand {
    if g.frame.arch.X86? then Mem(Fp, -((g.slots + i + 1) * 8)) else Mem(Sp, g.frame.slotBase + (g.slots + i) * 8)
  }

  function SaveCode(g: Callee, n: nat): seq<Inst>
    requires n <= |g.saved|
  {
    if n == 0 then [] else SaveCode(g, n - 1) + [Mov(SaveSlot(g, n - 1), R(Held(g.saved[n - 1])))]
  }

  /** The call itself and the prologue: a return address or link, the frame record,
      the frame, and the callee-saved registers. */
  function EntryCode(g: Callee, link: int): seq<Inst> {
    (if g.frame.arch.X86? then [CallPush(link), PushFp] else [PushRecord(link)])
      + ([FpFromSp] + ((if FrameBytes(g) != 0 then [SubSp(FrameBytes(g))] else []) + SaveCode(g, |g.saved|)))
  }

  /** Registers hold what they did, and memory from `from` up is untouched. */
  ghost predicate Undisturbed(s: State, t: State, from: int) {
    t.regs == s.regs && forall a :: a >= from ==> MemAt(t, a) == MemAt(s, a)
  }

  lemma {:induction false} Saves(g: Callee, n: nat, s: State)
    requires n <= |g.saved| && s.sp == s.fp - FrameBytes(g)
    ensures var t := Exec(SaveCode(g, n), s);
      t.sp == s.sp && t.fp == s.fp && Undisturbed(s, t, s.fp)
    decreases n
  {
    FrameHolds(g);
    hide Exec, FrameBytes;
    if n == 0 {
      ExecNothing(s);
    } else {
      Saves(g, n - 1, s);
      var last := SaveCode(g, n)[|SaveCode(g, n)| - 1];
      assert SaveCode(g, n) == SaveCode(g, n - 1) + [last];
      ExecAppend(SaveCode(g, n - 1), [last], s);
      Exec1(last, Exec(SaveCode(g, n - 1), s));
    }
  }

  lemma FrameHolds(g: Callee)
    ensures FrameBytes(g) % 16 == 0
    ensures FrameBytes(g) >= (if g.frame.arch.X86? then 0 else g.frame.slotBase) + (g.slots + |g.saved|) * 8
  {
    AlignTo16((if g.frame.arch.X86? then 0 else g.frame.slotBase) + (g.slots + |g.saved|) * 8);
    hide AlignTo;
  }

  /** The frame pointer and where to return to take sixteen bytes. */
  lemma Recorded(g: Callee, link: int, s: State)
    ensures var t := Exec(if g.frame.arch.X86? then [CallPush(link), PushFp] else [PushRecord(link)], s);
      && t.sp == s.sp - 16 && t.fp == s.fp && Undisturbed(s, t, s.sp)
      && MemAt(t, t.sp) == s.fp && MemAt(t, t.sp + 8) == link
  {
    Exec1(PushRecord(link), s);
    Exec2(CallPush(link), PushFp, s);
    hide Exec;
  }

  lemma RoomMade(g: Callee, s: State, room: seq<Inst>)
    requires room == if FrameBytes(g) != 0 then [SubSp(FrameBytes(g))] else []
    ensures Exec(room, s) == s.(sp := s.sp - FrameBytes(g))
  {
    hide FrameBytes, Exec;
    ExecNothing(s);
    Exec1(SubSp(FrameBytes(g)), s);
  }

  /** The state in which the prologue starts to save registers. */
  lemma EntrySteps(g: Callee, link: int, s: State) returns (s3: State)
    ensures Exec(EntryCode(g, link), s) == Exec(SaveCode(g, |g.saved|), s3)
    ensures s3.fp == s.sp - 16 && s3.sp == s3.fp - FrameBytes(g) && s3.regs == s.regs && Undisturbed(s, s3, s.sp)
    ensures MemAt(s3, s3.fp) == s.fp && MemAt(s3, s3.fp + 8) == link
  {
    var record := if g.frame.arch.X86? then [CallPush(link), PushFp] else [PushRecord(link)];
    var room := if FrameBytes(g) != 0 then [SubSp(FrameBytes(g))] else [];
    var saves := SaveCode(g, |g.saved|);
    hide FrameBytes, SaveCode, Exec;
    var s1 := Exec(record, s);
    Recorded(g, link, s);
    var s2 := s1.(fp := s1.sp);
    Exec1(FpFromSp, s1);
    s3 := s2.(sp := s2.sp - FrameBytes(g));
    RoomMade(g, s2, room);
    ExecAppend(record, [FpFromSp] + (room + saves), s);
    ExecAppend([FpFromSp], room + saves, s1);
    ExecAppend(room, saves, s2);
  }

  /** After the prologue the caller's stack words are sixteen bytes above the frame
      pointer, in the order they were placed, and `sp` is aligned again. */
  lemma Enters(g: Callee, link: int, s: State)
    requires s.sp % 16 == 0
    ensures var t := Exec(EntryCode(g, link), s);
      && t.fp == s.sp - 16 && t.sp == t.fp - FrameBytes(g) && t.sp % 16 == 0 && Undisturbed(s, t, s.sp)
  {
    hide FrameBytes, Exec, EntryCode, SaveCode;
    FrameHolds(g);
    var s3 := EntrySteps(g, link, s);
    Saves(g, |g.saved|, s3);
  }

  // ----- storing parameters -----------------------------------------------------------------------

  function NarrowKind(ty: Type): Option<IntKind> {
    match ty.Kind()
    case Some(kind) => if kind.IsFullWidth() then None else Some(kind)
    case None => None
  }

  /** A narrow parameter is canonicalised on the way in. */
  function Received(ty: Type, v: int): int {
    match NarrowKind(ty)
    case Some(kind) => Narrowed(kind, v)
    case None => v
  }

  /** What a parameter holds after the prologue: at a narrow type the value of the type that
      has the low bits of the incoming word, otherwise the word itself. */
  lemma ReceivedMeans(ty: Type, v: Words.Word)
    ensures match ty
      case I8 => -128 <= Received(ty, v) <= 127 && (Received(ty, v) - v) % 0x100 == 0
      case U8 => 0 <= Received(ty, v) <= 255 && (Received(ty, v) - v) % 0x100 == 0
      case I16 => -32768 <= Received(ty, v) <= 32767 && (Received(ty, v) - v) % 0x1_0000 == 0
      case U16 => 0 <= Received(ty, v) <= 65535 && (Received(ty, v) - v) % 0x1_0000 == 0
      case I32 => -0x8000_0000 <= Received(ty, v) <= 0x7fff_ffff && (Received(ty, v) - v) % 0x1_0000_0000 == 0
      case U32 => 0 <= Received(ty, v) <= 0xffff_ffff && (Received(ty, v) - v) % 0x1_0000_0000 == 0
      case _ => Received(ty, v) == v
  {
    if NarrowKind(ty).Some? {
      var kind := NarrowKind(ty).value;
      WrapsToItself(v);
      Words.CanonicalizeIsCanonical(kind, v);
      Words.CanonicalizeCongruent(kind, v);
      hide Words.Canonicalize, Words.Wrap;
    }
  }

  lemma WrapsToItself(v: Words.Word)
    ensures Words.Wrap(v) == v
  {
  }

  function NarrowCode(ty: Type): seq<Inst> {
    match NarrowKind(ty)
    case Some(kind) => [Narrow(kind)]
    case None => []
  }

  function ParamCode(f: Frame, l: LocalId, ty: Type, p: Place): seq<Inst> {
    var home := HomeOf(f, l);
    match p
    case IntegerRegister(i) =>
      if NarrowKind(ty).None? then [Mov(home, R(Arg(i)))]
      else [Mov(R(Scratch), R(Arg(i)))] + (NarrowCode(ty) + [Mov(home, R(Scratch))])
    case FloatRegister(i) =>
      if f.arch.X86? && home.R? then [Mov(home, R(Flt(i)))]
      else [Mov(R(Scratch), R(Flt(i)))] + [Mov(home, R(Scratch))]
    case Stack(j) => [Mov(R(Scratch), Mem(Fp, 16 + j * 8))] + (NarrowCode(ty) + [Mov(home, R(Scratch))])
  }

  /** What the callee reads a parameter from. */
  function Incoming(s: State, p: Place): int {
    match p
    case IntegerRegister(i) => Get(s, Arg(i))
    case FloatRegister(i) => Get(s, Flt(i))
    case Stack(j) => MemAt(s, s.fp + 16 + j * 8)
  }

  /** One home holds a new value; scratch may differ. */
  ghost predicate StoredIn(f: Frame, s: State, t: State, l: LocalId, v: int) {
    && t.sp == s.sp && t.fp == s.fp
    && var u := Write(s, HomeOf(f, l), v);
      t.mem == u.mem && forall r :: r != Scratch ==> Get(t, r) == Get(u, r)
  }

  lemma NarrowRuns(ty: Type, s: State)
    ensures Exec(NarrowCode(ty), s) ==
      if NarrowKind(ty).Some? then SetReg(s, Scratch, Received(ty, Get(s, Scratch))) else s
  {
    match NarrowKind(ty)
    case Some(kind) =>
      Exec1(Narrow(kind), s);
      hide Exec, Narrowed;
    case None => ExecNothing(s);
  }

  /** Through the scratch register: fetch, canonicalise, store. */
  lemma ThroughScratch(f: Frame, l: LocalId, ty: Type, src: Operand, s: State)
    ensures StoredIn(f, s, Exec([Mov(R(Scratch), src)] + (NarrowCode(ty) + [Mov(HomeOf(f, l), R(Scratch))]), s), l,
                     Received(ty, Read(s, src)))
  {
    var fetch, store := Mov(R(Scratch), src), Mov(HomeOf(f, l), R(Scratch));
    var s1 := SetReg(s, Scratch, Read(s, src));
    Exec1(fetch, s);
    NarrowRuns(ty, s1);
    var s2 := Exec(NarrowCode(ty), s1);
    Exec1(store, s2);
    hide Exec, NarrowCode, Narrowed, NarrowKind;
    ExecAppend([fetch], NarrowCode(ty) + [store], s);
    ExecAppend(NarrowCode(ty), [store], s1);
    FinalStore(f, l, s, s2, Read(s2, R(Scratch)));
  }

  lemma FinalStore(f: Frame, l: LocalId, s: State, t: State, v: int)
    requires t.sp == s.sp && t.fp == s.fp && t.mem == s.mem && forall r :: r != Scratch ==> Get(t, r) == Get(s, r)
    requires v == Get(t, Scratch)
    ensures StoredIn(f, s, Step(Mov(HomeOf(f, l), R(Scratch)), t), l, v)
  {
    hide HomeOf, SetReg, SetMem;
    SameMemory(s, t);
    if HomeOf(f, l).Mem? {
      SameStore(s, t, BaseOf(s, HomeOf(f, l).base) + HomeOf(f, l).disp, v);
    }
  }

  lemma SameMemory(s: State, t: State)
    requires t.mem == s.mem
    ensures forall a :: MemAt(t, a) == MemAt(s, a)
  {
  }

  lemma SameStore(s: State, t: State, at: int, v: int)
    requires t.mem == s.mem
    ensures SetMem(t, at, v).mem == SetMem(s, at, v).mem
  {
  }

  lemma DirectStore(f: Frame, l: LocalId, r: Reg, s: State)
    ensures StoredIn(f, s, Exec([Mov(HomeOf(f, l), R(r))], s), l, Get(s, r))
  {
    Exec1(Mov(HomeOf(f, l), R(r)), s);
    hide Exec, HomeOf, SetReg, SetMem;
  }

  lemma NoNarrowing(ty: Type, v: int)
    ensures NarrowKind(ty).None? ==> Received(ty, v) == v && NarrowCode(ty) == []
  {
  }

  lemma ParamStored(f: Frame, l: LocalId, ty: Type, p: Place, s: State)
    requires p.FloatRegister? ==> ty == F64
    ensures StoredIn(f, s, Exec(ParamCode(f, l, ty, p), s), l, Received(ty, Incoming(s, p)))
  {
    hide *;
    ParamShape(f, l, ty, p);
    NoNarrowing(ty, Incoming(s, p));
    ThroughScratch(f, l, ty, SourceOf(p), s);
    SourceReads(s, p);
    match p
    case IntegerRegister(i) => DirectStore(f, l, Arg(i), s);
    case FloatRegister(i) => DirectStore(f, l, Flt(i), s);
    case Stack(_) =>
  }

  function SourceOf(p: Place): Operand {
    match p
    case IntegerRegister(i) => R(Arg(i))
    case FloatRegister(i) => R(Flt(i))
    case Stack(j) => Mem(Fp, 16 + j * 8)
  }

  lemma SourceReads(s: State, p: Place)
    ensures Read(s, SourceOf(p)) == Incoming(s, p)
    ensures match p
      case IntegerRegister(i) => Incoming(s, p) == Get(s, Arg(i))
      case FloatRegister(i) => Incoming(s, p) == Get(s, Flt(i))
      case Stack(_) => true
  {
  }

  /** A parameter is stored through the scratch register, or straight from its own
      when nothing has to be canonicalised. */
  lemma ParamShape(f: Frame, l: LocalId, ty: Type, p: Place)
    requires p.FloatRegister? ==> ty == F64
    ensures var code := ParamCode(f, l, ty, p);
      || code == [Mov(R(Scratch), SourceOf(p))] + (NarrowCode(ty) + [Mov(HomeOf(f, l), R(Scratch))])
      || (NarrowKind(ty).None? && p.IntegerRegister? && code == [Mov(HomeOf(f, l), R(Arg(p.index)))])
      || (NarrowKind(ty).None? && p.FloatRegister? && code == [Mov(HomeOf(f, l), R(Flt(p.index)))])
  {
    if p.FloatRegister? {
      assert NarrowCode(ty) == [];
      assert [] + [Mov(HomeOf(f, l), R(Scratch))] == [Mov(HomeOf(f, l), R(Scratch))];
    }
    hide HomeOf;
  }

  function StoreCode(f: Frame, params: seq<LocalId>, types: seq<Type>, k: nat): seq<Inst>
    requires |params| == |types| && k <= |params|
  {
    if k == 0 then []
    else
      StoreCode(f, params, types, k - 1)
        + ParamCode(f, params[k - 1], types[k - 1], PlaceOf(f.arch, ValueWords(params, types), k - 1))
  }

  /** The slots of the callee are below its frame pointer. */
  predicate HomeBelow(f: Frame, s: State, l: LocalId) {
    match HomeOf(f, l)
    case R(_) => true
    case Mem(b, d) => BaseOf(s, b) + d < s.fp
  }

  lemma HomesApart(f: Frame, s: State, t: State, l: LocalId, v: int, other: LocalId)
    requires StoredIn(f, s, t, l, v)
    ensures Read(t, HomeOf(f, other)) == if f.place(other) == f.place(l) then v else Read(s, HomeOf(f, other))
  {
  }

  lemma IncomingKept(f: Frame, s: State, t: State, l: LocalId, v: int, p: Place)
    requires StoredIn(f, s, t, l, v) && HomeBelow(f, s, l)
    ensures Incoming(t, p) == Incoming(s, p)
  {
  }

  lemma {:induction false} ParametersStored(f: Frame, params: seq<LocalId>, types: seq<Type>, k: nat, s: State)
    requires |params| == |types| && k <= |params|
    requires forall i :: 0 <= i < |params| ==> HomeBelow(f, s, params[i])
    requires forall i, j :: 0 <= i < j < |params| ==> f.place(params[i]) != f.place(params[j])
    ensures var t := Exec(StoreCode(f, params, types, k), s);
      && t.sp == s.sp && t.fp == s.fp
      && (forall p :: Incoming(t, p) == Incoming(s, p))
      && (forall a :: a >= s.fp ==> MemAt(t, a) == MemAt(s, a))
      && forall j: nat :: j < k ==>
           Read(t, HomeOf(f, params[j])) ==
               Received(types[j], Incoming(s, PlaceOf(f.arch, ValueWords(params, types), j)))
    decreases k
  {
    hide Exec, ParamCode, PlaceOf, Received, StoredIn, ValueWords, HomeOf;
    if k == 0 {
      ExecNothing(s);
    } else {
      ParametersStored(f, params, types, k - 1, s);
      var t := Exec(StoreCode(f, params, types, k - 1), s);
      var l, ty, p := params[k - 1], types[k - 1], PlaceOf(f.arch, ValueWords(params, types), k - 1);
      ExecAppend(StoreCode(f, params, types, k - 1), ParamCode(f, l, ty, p), s);
      FloatPlace(f.arch, params, types, k - 1);
      ParamStored(f, l, ty, p, t);
      var u := Exec(ParamCode(f, l, ty, p), t);
      StoredKeeps(f, t, u, l, Received(ty, Incoming(t, p)));
      SameBelow(f, s, t, l);
      forall q ensures Incoming(u, q) == Incoming(t, q) { IncomingKept(f, t, u, l, Received(ty, Incoming(t, p)), q); }
      forall j: nat | j < k
        ensures Read(u, HomeOf(f, params[j])) ==
            Received(types[j], Incoming(s, PlaceOf(f.arch, ValueWords(params, types), j)))
      {
        HomesApart(f, t, u, l, Received(ty, Incoming(t, p)), params[j]);
      }
      HighMemory(f, t, u, l, Received(ty, Incoming(t, p)));
    }
  }

  lemma StoredKeeps(f: Frame, s: State, t: State, l: LocalId, v: int)
    requires StoredIn(f, s, t, l, v)
    ensures t.sp == s.sp && t.fp == s.fp
  {
  }

  lemma WordsPerParameter(params: seq<LocalId>, types: seq<Type>)
    requires |params| == |types|
    ensures |ValueWords(params, types)| == |params|
  {
  }

  lemma SameBelow(f: Frame, s: State, t: State, l: LocalId)
    requires t.sp == s.sp && t.fp == s.fp && HomeBelow(f, s, l)
    ensures HomeBelow(f, t, l)
  {
  }

  lemma HighMemory(f: Frame, s: State, t: State, l: LocalId, v: int)
    requires StoredIn(f, s, t, l, v) && HomeBelow(f, s, l)
    ensures forall a :: a >= s.fp ==> MemAt(t, a) == MemAt(s, a)
  {
  }

  lemma FloatPlace(arch: Arch, params: seq<LocalId>, types: seq<Type>, k: nat)
    requires |params| == |types| && k < |params|
    ensures PlaceOf(arch, ValueWords(params, types), k).FloatRegister? ==> types[k] == F64
  {
  }

  // ----- both sides together ------------------------------------------------------------------------

  /** A callee's slots fit its frame. */
  ghost predicate FitsFrame(g: Callee, params: seq<LocalId>) {
    forall i :: 0 <= i < |params| && g.frame.place(params[i]).Memory? ==> g.frame.place(params[i]).slot < g.slots
  }

  function CallCode(
      f: Frame, words: seq<ArgWord>, g: Callee, link: int, params: seq<LocalId>, types: seq<Type>): seq<Inst>
    requires |params| == |types|
  {
    MarshalCode(f, words) + (EntryCode(g, link) + StoreCode(g.frame, params, types, |params|))
  }

  lemma HomesBelow(g: Callee, params: seq<LocalId>, s: State)
    requires FitsFrame(g, params) && s.sp == s.fp - FrameBytes(g)
    ensures forall i :: 0 <= i < |params| ==> HomeBelow(g.frame, s, params[i])
  {
    FrameHolds(g);
    hide FrameBytes;
  }

  /** Caller and callee agree: for every list of argument words, the k-th parameter's
      home holds the k-th word the caller meant, canonicalised at a narrow type; the
      stack pointer is aligned at the call and in the callee; and none of the caller's
      memory above its outgoing area has changed. */
  lemma ArgumentsArrive(
    f: Frame, words: seq<ArgWord>, g: Callee, link: int, params: seq<LocalId>, types: seq<Type>, s: State)
    requires g.frame.arch == f.arch && |params| == |types| == |words| && s.sp % 16 == 0
    requires forall i :: 0 <= i < |words| ==> words[i].kind == ClassOf(types[i])
    requires AllClear(f, s, words, AreaLow(f, s, words), AreaHigh(f, s, words))
    requires FitsFrame(g, params)
    requires forall i, j :: 0 <= i < j < |params| ==> g.frame.place(params[i]) != g.frame.place(params[j])
    ensures var t := Exec(CallCode(f, words, g, link, params, types), s);
      && (forall k: nat :: k < |words| ==>
            Read(t, HomeOf(g.frame, params[k])) == Received(types[k], ValueOf(f, s, words[k].source)))
      && Exec(MarshalCode(f, words), s).sp % 16 == 0 && t.sp % 16 == 0
      && (forall a :: a >= AreaHigh(f, s, words) ==> MemAt(t, a) == MemAt(s, a))
  {
    hide *;
    Marshals(f, words, s);
    var s1 := Exec(MarshalCode(f, words), s);
    Enters(g, link, s1);
    var s2 := Exec(EntryCode(g, link), s1);
    HomesBelow(g, params, s2);
    ParametersStored(g.frame, params, types, |params|, s2);
    CallRuns(f, words, g, link, params, types, s);
    AreaBounds(f, s, words);
    WordsPerParameter(params, types);
    forall k: nat | k < |words|
      ensures Incoming(s2, PlaceOf(g.frame.arch, ValueWords(params, types), k)) == ValueOf(f, s, words[k].source)
    {
      ParamPlaces(f.arch, words, params, types, k);
      Received16(s1, s2, PlaceOf(f.arch, words, k));
    }
    HighKept(s, s1, s2, AreaLow(f, s, words), AreaHigh(f, s, words));
  }

  /** In a frame with room for its widest call, no local is in the part of the stack
      that a call fills. */
  lemma LocalsClear(g: Callee, words: seq<ArgWord>, l: LocalId, s: State)
    requires s.sp == s.fp - FrameBytes(g)
    requires g.frame.place(l).Memory? ==> g.frame.place(l).slot < g.slots
    requires g.frame.arch.A64? ==> Stacked(A64, words) * 8 <= g.frame.slotBase
    ensures HomeClear(g.frame, s, l, AreaLow(g.frame, s, words), AreaHigh(g.frame, s, words))
  {
    FrameHolds(g);
    hide FrameBytes, Stacked;
  }

  lemma HighKept(s: State, s1: State, s2: State, lo: int, hi: int)
    requires Kept(s, s1, lo, hi) && Undisturbed(s1, s2, s1.sp) && s1.sp <= hi
    ensures forall a :: a >= hi ==> MemAt(s2, a) == MemAt(s, a)
  {
  }

  lemma AreaBounds(f: Frame, s: State, words: seq<ArgWord>)
    ensures AreaLow(f, s, words) <= AreaHigh(f, s, words)
  {
  }

  lemma CallRuns(
    f: Frame, words: seq<ArgWord>, g: Callee, link: int, params: seq<LocalId>, types: seq<Type>, s: State)
    requires |params| == |types|
    ensures Exec(CallCode(f, words, g, link, params, types), s)
         == Exec(StoreCode(g.frame, params, types, |params|), Exec(EntryCode(g, link), Exec(MarshalCode(f, words), s)))
  {
    ExecAppend(MarshalCode(f, words), EntryCode(g, link) + StoreCode(g.frame, params, types, |params|), s);
    ExecAppend(EntryCode(g, link), StoreCode(g.frame, params, types, |params|), Exec(MarshalCode(f, words), s));
    hide Exec, MarshalCode, EntryCode, StoreCode;
  }

  lemma ParamPlaces(arch: Arch, words: seq<ArgWord>, params: seq<LocalId>, types: seq<Type>, k: nat)
    requires |params| == |types| == |words| && k < |words|
    requires forall i :: 0 <= i < |words| ==> words[i].kind == ClassOf(types[i])
    ensures |ValueWords(params, types)| == |words|
    ensures PlaceOf(arch, ValueWords(params, types), k) == PlaceOf(arch, words, k)
  {
    SamePlaces(arch, ValueWords(params, types), words, k);
    hide PlaceOf;
  }

  /** The callee's sixteen bytes over the frame pointer are the caller's `sp`. */
  lemma Received16(s: State, t: State, p: Place)
    requires t.fp == s.sp - 16 && Undisturbed(s, t, s.sp)
    ensures Incoming(t, p) == ArgAt(s, p)
  {
  }

  /** An argument that is canonical at its type arrives unchanged. */
  lemma CanonicalArrives(ty: Type, w: Words.Word)
    requires NarrowKind(ty).Some? ==> NarrowKind(ty).value.Valid() && Words.Canonical(NarrowKind(ty).value, w)
    ensures Received(ty, w) == w
  {
    if NarrowKind(ty).Some? {
      Words.CanonicalizeIsCanonical(NarrowKind(ty).value, w);
    }
    hide Words.Canonicalize, Words.Canonical;
  }

  /** Register counters that stop at the last register say where the next word goes. */
  lemma NextPlace(arch: Arch, words: seq<ArgWord>, k: nat)
    requires k < |words|
    ensures var integers, floats :=
        Min(Count(words[..k], Integer), arch.Integers()), Min(Count(words[..k], Float), FLOATS);
      var p, c := PlaceOf(arch, words, k), words[k].kind;
      && p == (if c == Float && floats < FLOATS then FloatRegister(floats)
               else if c == Integer && integers < arch.Integers() then IntegerRegister(integers)
               else Stack(Stacked(arch, words[..k])))
      && Min(Count(words[..k + 1], Integer), arch.Integers()) == integers + (if p.IntegerRegister? then 1 else 0)
      && Min(Count(words[..k + 1], Float), FLOATS) == floats + (if p.FloatRegister? then 1 else 0)
      && Stacked(arch, words[..k + 1]) == Stacked(arch, words[..k]) + (if p.Stack? then 1 else 0)
  {
    CountStep(words, k, Integer);
    CountStep(words, k, Float);
    StackedStep(arch, words, k);
    hide Stacked;
  }

  lemma NoneBefore(arch: Arch, words: seq<ArgWord>)
    ensures Min(Count(words[..0], Integer), arch.Integers()) == 0 == Min(Count(words[..0], Float), FLOATS)
    ensures Stacked(arch, words[..0]) == 0
  {
  }

  // ----- the generators ---------------------------------------------------------------------------

  class Generator {
    var asm: seq<Inst>
    const frame: Frame

    constructor (frame: Frame)
      ensures asm == [] && this.frame == frame
    {
      this.frame := frame;
      asm := [];
    }

    method Emit(code: seq<Inst>)
      modifies this
      ensures asm == old(asm) + code
    {
      asm := asm + code;
    }

    /** The loop both back ends share: two register counters, and the stack. */
    method EmitMarshalledCall(words: seq<ArgWord>)
      modifies this
      ensures asm == old(asm) + MarshalCode(frame, words)
    {
      hide PlaceCode, PushCode, PlaceOf, Stacked, Count, Padding;
      NoneBefore(frame.arch, words);
      var integers, floats, stack := 0, 0, 0;
      var pushed: seq<Source> := [];
      for k := 0 to |words|
        invariant asm == old(asm) + WordsCode(frame, words, k)
        invariant integers == Min(Count(words[..k], Integer), frame.arch.Integers())
        invariant floats == Min(Count(words[..k], Float), FLOATS)
        invariant stack == Stacked(frame.arch, words[..k]) && pushed == StackSources(frame.arch, words, k)
      {
        NextPlace(frame.arch, words, k);
        var word := words[k];
        if word.kind == Float && floats < FLOATS {
          Emit(PlaceCode(frame, word.source, FloatRegister(floats)));
          floats := floats + 1;
        } else if word.kind == Integer && integers < frame.arch.Integers() {
          Emit(PlaceCode(frame, word.source, IntegerRegister(integers)));
          integers := integers + 1;
        } else {
          Emit(PlaceCode(frame, word.source, Stack(stack)));
          stack := stack + 1;
          pushed := pushed + [word.source];
        }
      }
      if frame.arch.X86? {
        EmitPushes(pushed);
      }
    }

    method EmitPushes(pushed: seq<Source>)
      modifies this
      ensures asm == old(asm) + ((if Padding(|pushed|) != 0 then [SubSp(8)] else []) + PushCode(frame, pushed))
    {
      if |pushed| % 2 != 0 {
        Emit([SubSp(8)]);
      }
      ghost var before := asm;
      var j := |pushed|;
      while j > 0
        invariant 0 <= j <= |pushed|
        invariant asm == before + PushCode(frame, pushed[j..])
      {
        j := j - 1;
        assert pushed[j..][1..] == pushed[j + 1..];
        Emit(X86Fetch(frame, pushed[j]));
        Emit([Push(X86Operand(frame, pushed[j]))]);
      }
    }

    method EmitStoreParameters(params: seq<LocalId>, types: seq<Type>)
      requires |params| == |types|
      modifies this
      ensures asm == old(asm) + StoreCode(frame, params, types, |params|)
    {
      hide ParamCode, PlaceOf, Stacked, Count;
      WordsPerParameter(params, types);
      NoneBefore(frame.arch, ValueWords(params, types));
      ghost var words := ValueWords(params, types);
      var integers, floats, stack := 0, 0, 0;
      for k := 0 to |params|
        invariant asm == old(asm) + StoreCode(frame, params, types, k)
        invariant integers == Min(Count(words[..k], Integer), frame.arch.Integers())
        invariant floats == Min(Count(words[..k], Float), FLOATS)
        invariant stack == Stacked(frame.arch, words[..k])
      {
        NextPlace(frame.arch, words, k);
        var local, ty := params[k], types[k];
        var place := Stack(stack);
        if ty == F64 {
          if floats < FLOATS { place := FloatRegister(floats); }
        } else if integers < frame.arch.Integers() {
          place := IntegerRegister(integers);
        }
        Emit(ParamCode(frame, local, ty, place));
        match place
        case IntegerRegister(_) => integers := integers + 1;
        case FloatRegister(_) => floats := floats + 1;
        case Stack(_) => stack := stack + 1;
      }
    }
  }
}
