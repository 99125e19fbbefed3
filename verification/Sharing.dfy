/** Why locals may share a register: a function run with one cell per local and
    the same function run under any assignment that separates overlapping
    intervals make the same steps and the same calls, and return the same word. */
module Sharing {
  import opened Types
  import opened Mir
  import opened Cfg
  import opened Liveness
  import opened Intervals
  import opened RegAlloc

  type Word = int
  type Store = map<Location, Word>
  type Place = LocalId -> Location

  /** One consultation of the world: which instruction, with which operand words. */
  datatype Event = Event(instruction: Instruction, operands: seq<Word>)

  /** Everything a function cannot compute by moving words: arithmetic, the heap,
      callees and devices. It sees the operands, the address-taken locals and the
      whole history, and either traps or answers a word and the new contents of
      the address-taken locals. */
  type World = (Instruction, seq<Word>, seq<Word>, seq<Event>) -> Option<(Word, seq<Word>)>

  datatype Config =
    | At(block: BlockId, next: nat, store: Store, history: seq<Event>)
    | Returned(value: Option<Word>, history: seq<Event>)
    | Trapped(history: seq<Event>)
    | Stuck(history: seq<Event>)

  /** A configuration without the contents of the cells. */
  datatype Observation =
    | Running(block: BlockId, next: nat, history: seq<Event>)
    | Done(final: Config)

  function Observe(c: Config): Observation {
    match c
    case At(b, i, _, h) => Running(b, i, h)
    case _ => Done(c)
  }

  // ----- the machine --------------------------------------------------------

  function Read(s: Store, cell: Location): Word {
    if cell in s then s[cell] else 0
  }

  /** The words an instruction works on, fetched field by field. */
  function Operands(s: Store, place: Place, i: Instruction): (words: seq<Word>)
    ensures i.Assign? || i.AddressOf? ==> |words| == 1
  {
    match i
    case Assign(_, src) => [Read(s, place(src))]
    case AddressOf(_, src) => [Read(s, place(src))]
    case Load(_, src) => [Read(s, place(src))]
    case Binary(_, _, lhs, rhs, _) => [Read(s, place(lhs)), Read(s, place(rhs))]
    case Call(_, _, args, _, _) => Fetch(s, place, args)
    case CallValue(_, callee, args, _, _) => [Read(s, place(callee))] + Fetch(s, place, args)
    case StructNew(_, _, fields) => Fetch(s, place, fields)
    case EnumNew(_, _, _, fields) => Fetch(s, place, fields)
    case FieldLoad(_, base, _) => [Read(s, place(base))]
    case FieldAddr(_, base, _) => [Read(s, place(base))]
    case EnumTag(_, base) => [Read(s, place(base))]
    case EnumFieldLoad(_, base, _) => [Read(s, place(base))]
    case EnumFieldAddr(_, base, _) => [Read(s, place(base))]
    case FieldStore(base, _, src) => [Read(s, place(base)), Read(s, place(src))]
    case EnumFieldStore(base, _, src) => [Read(s, place(base)), Read(s, place(src))]
    case VolatileLoad(_, addr, _) => [Read(s, place(addr))]
    case VolatileStore(addr, src, _) => [Read(s, place(addr)), Read(s, place(src))]
    case Drop(local, _) => [Read(s, place(local))]
    case Free(local) => [Read(s, place(local))]
    case _ => []
  }

  function Fetch(s: Store, place: Place, locals: seq<LocalId>): (words: seq<Word>)
    ensures |words| == |locals|
    ensures forall k :: 0 <= k < |locals| ==> words[k] == Read(s, place(locals[k]))
  {
    seq(|locals|, k requires 0 <= k < |locals| => Read(s, place(locals[k])))
  }

  /** The address-taken locals, as the world sees them. */
  function View(s: Store, place: Place, pinned: seq<bool>): (words: seq<Word>)
    ensures |words| == |pinned|
    ensures forall l: LocalId :: l < |pinned| ==> words[l] == if pinned[l] then Read(s, place(l)) else 0
  {
    seq(|pinned|, l requires 0 <= l < |pinned| => if pinned[l] then Read(s, place(l)) else 0)
  }

  /** What the world left in the address-taken locals below `n`. */
  function WriteBack(s: Store, place: Place, pinned: seq<bool>, words: seq<Word>, n: nat): Store
    requires n <= |pinned|
  {
    if n == 0 then s
    else
      var below := WriteBack(s, place, pinned, words, n - 1);
      if pinned[n - 1] && n - 1 < |words| then below[place(n - 1) := words[n - 1]] else below
  }

  /** The word an instruction stores without consulting the world. Borrowing a
      pointer-shaped local copies the pointer. */
  function Copied(i: Instruction, operands: seq<Word>, pinned: seq<bool>): Option<Word>
    requires i.Assign? || i.AddressOf? ==> |operands| == 1
  {
    match i
    case ConstInt(_, value) => Some(value)
    case ConstFloat(_, bits) => Some(bits)
    case ConstBool(_, flag) => Some(if flag then 1 else 0)
    case Assign(_, _) => Some(operands[0])
    case AddressOf(_, src) => if Pinned(pinned, src) then None else Some(operands[0])
    case _ => None
  }

  /** What an instruction leaves in the cells: `Drop` and `Free` zero their own operand,
      the three stores through a pointer write no local, and the rest have a destination. */
  function Put(s: Store, place: Place, i: Instruction, word: Word): Store {
    match i
    case Drop(local, _) => s[place(local) := 0]
    case Free(local) => s[place(local) := 0]
    case FieldStore(_, _, _) => s
    case EnumFieldStore(_, _, _) => s
    case VolatileStore(_, _, _) => s
    case _ => s[place(i.dst) := word]
  }

  /** The instruction may change the cell of `l`. */
  predicate Puts(i: Instruction, l: LocalId) {
    WritesLocal(i, l) || ((i.Drop? || i.Free?) && l == i.local)
  }

  lemma PutMeans(s: Store, place: Place, i: Instruction, word: Word)
    ensures forall l: LocalId :: Puts(i, l) ==>
      Put(s, place, i, word) == s[place(l) := if i.Drop? || i.Free? then 0 else word]
    ensures (forall l: LocalId :: !Puts(i, l)) ==> Put(s, place, i, word) == s
  {
    if !i.Drop? && !i.Free? && !i.FieldStore? && !i.EnumFieldStore? && !i.VolatileStore? { assert Puts(i, i.dst); }
    if i.Drop? || i.Free? { assert Puts(i, i.local); }
  }

  function Step(f: MirFunction, place: Place, pinned: seq<bool>, world: World, c: Config): Config {
    if !c.At? then c
    else if c.block >= |f.blocks| then Stuck(c.history)
    else
      var block := f.blocks[c.block];
      if c.next < |block.statements| then
        var i := block.statements[c.next];
        var operands := Operands(c.store, place, i);
        match Copied(i, operands, pinned)
        case Some(word) => At(c.block, c.next + 1, Put(c.store, place, i, word), c.history)
        case None =>
          var history := c.history + [Event(i, operands)];
          match world(i, operands, View(c.store, place, pinned), c.history)
          case None => Trapped(history)
          case Some((word, left)) =>
            var store := WriteBack(c.store, place, pinned, left, |pinned|);
            At(c.block, c.next + 1, Put(store, place, i, word), history)
      else
        match block.terminator
        case Return(None) => Returned(None, c.history)
        case Return(Some(l)) => Returned(Some(Read(c.store, place(l))), c.history)
        case Goto(t) => At(t, 0, c.store, c.history)
        case Branch(l, a, b) =>
          At(if Read(c.store, place(l)) != 0 then a else b, 0, c.store, c.history)
        case Unreachable => Trapped(c.history)
  }

  function Run(f: MirFunction, place: Place, pinned: seq<bool>, world: World, c: Config, n: nat): Config {
    if n == 0 then c else Step(f, place, pinned, world, Run(f, place, pinned, world, c, n - 1))
  }

  /** The prologue: each parameter stored in turn. */
  function EntryStores(place: Place, params: seq<LocalId>, args: seq<Word>, s: Store): Store
    requires |args| == |params|
  {
    if params == [] then s
    else
      var k := |params| - 1;
      EntryStores(place, params[..k], args[..k], s)[place(params[k]) := args[k]]
  }

  function Start(f: MirFunction, place: Place, args: seq<Word>, s: Store): Config
    requires |args| == |f.params|
  {
    At(f.entry, 0, EntryStores(place, f.params, args, s), [])
  }

  /** One frame slot for each local. */
  function Own(l: LocalId): Location {
    Memory(l)
  }

  // ----- what the MIR verifier guarantees ------------------------------------

  ghost predicate WellFormed(f: MirFunction) {
    && f.entry < |f.blocks|
    && (forall b: BlockId :: b < |f.blocks| ==> OperandsInRange(f.blocks[b], |f.locals|))
    && (forall k :: 0 <= k < |f.params| ==> f.params[k] == k < |f.locals|)
    && (forall l: LocalId :: l < |f.locals| && Live(f, f.entry, l) ==> l in f.params)
  }

  ghost predicate OperandsInRange(block: BasicBlock, locals: nat) {
    && (forall i, l: LocalId :: 0 <= i < |block.statements| && Mentions(block.statements[i], l) ==> l < locals)
    && (forall l: LocalId :: TerminatorReads(block.terminator, l) ==> l < locals)
  }

  /** Locals whose intervals overlap never share a cell; a local without an interval
      may share with any. */
  ghost predicate OverlapsApart(intervals: seq<Interval>, place: Place, locals: nat) {
    forall l: LocalId, m: LocalId :: l < locals && m < locals && l != m && place(l) == place(m) ==>
      Separate(intervals, l, m)
  }

  ghost predicate Separate(intervals: seq<Interval>, l: LocalId, m: LocalId) {
    forall x, y :: IntervalOf(intervals, l, x) && IntervalOf(intervals, m, y) ==> Disjoint(x, y)
  }

  /** An assignment sharing may use: overlapping intervals apart, and
      address-taken locals to themselves. */
  ghost predicate Admissible(f: MirFunction, intervals: seq<Interval>, place: Place, pinned: seq<bool>) {
    && |pinned| == |f.locals|
    && OverlapsApart(intervals, place, |f.locals|)
    && forall l: LocalId, m: LocalId :: l < |f.locals| && m < |f.locals| && l != m && pinned[l] ==>
         place(l) != place(m)
  }

  // ----- the simulation -----------------------------------------------------

  ghost predicate LiveAt(f: MirFunction, b: BlockId, i: nat, l: LocalId)
    requires b < |f.blocks| && i <= |f.blocks[b].statements|
  {
    LiveBefore(f.blocks[b], i, LiveAfter(f, b, l), l)
  }

  ghost predicate SameWord(place: Place, s: Store, u: Store, l: LocalId) {
    Read(s, place(l)) == Read(u, Own(l))
  }

  /** The live locals and the address-taken ones hold the same words in both runs. */
  ghost predicate StoresAgree(f: MirFunction, place: Place, pinned: seq<bool>,
                              b: BlockId, i: nat, s: Store, u: Store)
    requires b < |f.blocks| && i <= |f.blocks[b].statements|
  {
    forall l: LocalId :: l < |f.locals| && (LiveAt(f, b, i, l) || Pinned(pinned, l)) ==> SameWord(place, s, u, l)
  }

  ghost predicate Agree(f: MirFunction, order: seq<BlockId>, place: Place, pinned: seq<bool>, c: Config, d: Config) {
    && Observe(c) == Observe(d)
    && (c.At? && c.block < |f.blocks| ==>
          && c.block in order
          && c.next <= |f.blocks[c.block].statements|
          && StoresAgree(f, place, pinned, c.block, c.next, c.store, d.store))
  }

  lemma OneInterval(intervals: seq<Interval>, l: LocalId, x: Interval, y: Interval)
    requires ByLocal(intervals) && IntervalOf(intervals, l, x) && IntervalOf(intervals, l, y)
    ensures x == y
  {
    var i :| 0 <= i < |intervals| && intervals[i] == x;
    var j :| 0 <= j < |intervals| && intervals[j] == y;
  }

  lemma NotBothCovered(intervals: seq<Interval>, l: LocalId, m: LocalId, p: nat)
    requires Covers(intervals, l, p) && Covers(intervals, m, p)
    ensures !Separate(intervals, l, m)
  {
    var i :| 0 <= i < |intervals| && intervals[i].local == l && intervals[i].start <= p <= intervals[i].end;
    var j :| 0 <= j < |intervals| && intervals[j].local == m && intervals[j].start <= p <= intervals[j].end;
    assert IntervalOf(intervals, l, intervals[i]) && IntervalOf(intervals, m, intervals[j]);
  }

  /** The allocator's promise is stronger: both sharers have an interval. */
  lemma DisjointMeansSeparate(intervals: seq<Interval>, l: LocalId, m: LocalId)
    requires ByLocal(intervals) && OverlapFree(intervals, l, m)
    ensures Separate(intervals, l, m)
  {
    var x, y :| IntervalOf(intervals, l, x) && IntervalOf(intervals, m, y) && Disjoint(x, y);
    forall a, b | IntervalOf(intervals, l, a) && IntervalOf(intervals, m, b) ensures Disjoint(a, b) {
      OneInterval(intervals, l, a, x);
      OneInterval(intervals, m, b, y);
    }
  }

  /** A local that stays live across an instruction is not in the cell it writes. */
  lemma WrittenCellIsApart(f: MirFunction, order: seq<BlockId>, intervals: seq<Interval>, place: Place,
                           pinned: seq<bool>, b: BlockId, i: nat, l: LocalId, d: LocalId)
    requires InRange(f, order) && Hulls(f, order, intervals) && Admissible(f, intervals, place, pinned)
    requires b in order && b < |f.blocks| && i < |f.blocks[b].statements|
    requires l < |f.locals| && d < |f.locals| && l != d
    requires LiveAt(f, b, i, l) && Mentions(f.blocks[b].statements[i], d)
    ensures place(l) != place(d)
  {
    var k :| 0 <= k < |order| && order[k] == b;
    var p := BlockStart(f, order, k) + i;
    hide Covers, LiveBefore, Live, LiveAfter, Mentions, Separate, BlockStart;
    assert Covers(intervals, l, p) by { LivePointCovered(f, order, intervals, k, i, l); }
    assert Covers(intervals, d, p) by { MentionCovered(f, order, intervals, k, i, d); }
    NotBothCovered(intervals, l, d, p);
  }

  lemma {:induction false} WriteBackReads(s: Store, place: Place, pinned: seq<bool>, words: seq<Word>,
                                          n: nat, cell: Location)
    requires n <= |pinned|
    requires forall l: LocalId :: l < n && pinned[l] ==> place(l) != cell
    ensures Read(WriteBack(s, place, pinned, words, n), cell) == Read(s, cell)
  {
    if n > 0 {
      WriteBackReads(s, place, pinned, words, n - 1, cell);
    }
  }

  lemma {:induction false} WriteBackStores(s: Store, place: Place, pinned: seq<bool>, words: seq<Word>,
                                           n: nat, l: LocalId)
    requires l < n <= |pinned| && pinned[l] && l < |words|
    requires forall m: LocalId :: l < m < n && pinned[m] ==> place(m) != place(l)
    ensures Read(WriteBack(s, place, pinned, words, n), place(l)) == words[l]
  {
    if l < n - 1 {
      WriteBackStores(s, place, pinned, words, n - 1, l);
    }
  }

  /** The world's writes go to address-taken locals only, in both runs alike. */
  lemma WriteBackAgrees(f: MirFunction, intervals: seq<Interval>, place: Place, pinned: seq<bool>,
                        s: Store, u: Store, words: seq<Word>, l: LocalId)
    requires Admissible(f, intervals, place, pinned) && l < |f.locals| && SameWord(place, s, u, l)
    ensures SameWord(place, WriteBack(s, place, pinned, words, |pinned|),
                     WriteBack(u, Own, pinned, words, |pinned|), l)
  {
    if pinned[l] && l < |words| {
      WriteBackStores(s, place, pinned, words, |pinned|, l);
      WriteBackStores(u, Own, pinned, words, |pinned|, l);
    } else if pinned[l] {
      WriteBackShort(s, place, pinned, words, |pinned|, l);
      WriteBackShort(u, Own, pinned, words, |pinned|, l);
    } else {
      WriteBackReads(s, place, pinned, words, |pinned|, place(l));
      WriteBackReads(u, Own, pinned, words, |pinned|, Own(l));
    }
  }

  lemma {:induction false} WriteBackShort(s: Store, place: Place, pinned: seq<bool>, words: seq<Word>,
                                          n: nat, l: LocalId)
    requires n <= |pinned| && |words| <= l
    requires forall m: LocalId :: m < n && pinned[m] && m != l ==> place(m) != place(l)
    ensures Read(WriteBack(s, place, pinned, words, n), place(l)) == Read(s, place(l))
  {
    if n > 0 {
      WriteBackShort(s, place, pinned, words, n - 1, l);
    }
  }

  /** Storing an instruction's result keeps the live locals in agreement. */
  lemma PutAgrees(f: MirFunction, order: seq<BlockId>, intervals: seq<Interval>, place: Place, pinned: seq<bool>,
                  b: BlockId, i: nat, s: Store, u: Store, word: Word)
    requires WellFormed(f) && InRange(f, order) && Hulls(f, order, intervals)
    requires Admissible(f, intervals, place, pinned)
    requires b in order && b < |f.blocks| && i < |f.blocks[b].statements|
    requires StoresAgree(f, place, pinned, b, i, s, u)
    ensures var op := f.blocks[b].statements[i];
      StoresAgree(f, place, pinned, b, i + 1, Put(s, place, op, word), Put(u, Own, op, word))
  {
    var op := f.blocks[b].statements[i];
    assert OperandsInRange(f.blocks[b], |f.locals|);
    PutMeans(s, place, op, word);
    PutMeans(u, Own, op, word);
    forall l: LocalId | l < |f.locals| && (LiveAt(f, b, i + 1, l) || Pinned(pinned, l))
      ensures SameWord(place, Put(s, place, op, word), Put(u, Own, op, word), l)
    {
      hide Hulls, InRange, OverlapsApart, Live, LiveAfter, WellFormed, Put;
      if d: LocalId :| Puts(op, d) && d != l {
        assert Mentions(op, d);
        if Pinned(pinned, l) {
          assert place(l) != place(d);
        } else {
          assert LiveAt(f, b, i, l);
          WrittenCellIsApart(f, order, intervals, place, pinned, b, i, l, d);
        }
      } else if !Puts(op, l) && !Pinned(pinned, l) {
        assert LiveAt(f, b, i, l);
      }
    }
  }

  /** The operands are the words of the locals the instruction reads. */
  lemma OperandsAgree(i: Instruction, place: Place, s: Store, u: Store)
    requires forall l: LocalId :: ReadsLocal(i, l) ==> SameWord(place, s, u, l)
    ensures Operands(s, place, i) == Operands(u, Own, i)
  {
    if i.Binary? { assert ReadsLocal(i, i.lhs) && ReadsLocal(i, i.rhs); }
    if i.Assign? || i.AddressOf? || i.Load? || i.FieldStore? || i.EnumFieldStore? || i.VolatileStore? {
      assert ReadsLocal(i, i.src);
    }
    if i.FieldLoad? || i.FieldAddr? || i.FieldStore? { assert ReadsLocal(i, i.base); }
    if i.EnumTag? || i.EnumFieldLoad? || i.EnumFieldAddr? || i.EnumFieldStore? { assert ReadsLocal(i, i.base); }
    if i.VolatileLoad? || i.VolatileStore? { assert ReadsLocal(i, i.addr); }
    if i.Drop? || i.Free? { assert ReadsLocal(i, i.local); }
    if i.CallValue? { assert ReadsLocal(i, i.callee); }
    if i.Call? || i.CallValue? {
      FetchSame(i.args, place, s, u);
    } else if i.StructNew? || i.EnumNew? {
      FetchSame(i.fields, place, s, u);
    }
  }

  lemma FetchSame(locals: seq<LocalId>, place: Place, s: Store, u: Store)
    requires forall l: LocalId :: l in locals ==> SameWord(place, s, u, l)
    ensures Fetch(s, place, locals) == Fetch(u, Own, locals)
  {
    forall k | 0 <= k < |locals| ensures SameWord(place, s, u, locals[k]) {
      assert locals[k] in locals;
    }
  }

  /** An instruction depends on a local exactly when one of its fields reads it, and
      these are the locals the liveness analysis is given. */
  lemma OperandsExactly(i: Instruction, s: Store, l: LocalId, w: Word)
    requires w != Read(s, Own(l))
    ensures Operands(s[Own(l) := w], Own, i) != Operands(s, Own, i) <==> ReadsLocal(i, l)
    ensures ReadsLocal(i, l) <==> l in Uses(i)
  {
    var t := s[Own(l) := w];
    if !ReadsLocal(i, l) {
      OperandsAgree(i, Own, t, s);
    } else if (i.Call? || i.CallValue?) && l in i.args {
      var k :| 0 <= k < |i.args| && i.args[k] == l;
      assert Fetch(t, Own, i.args)[k] != Fetch(s, Own, i.args)[k];
      assert i.CallValue? ==> Operands(t, Own, i)[k + 1] != Operands(s, Own, i)[k + 1];
    } else if i.CallValue? {
      assert Operands(t, Own, i)[0] != Operands(s, Own, i)[0];
    } else if i.StructNew? || i.EnumNew? {
      var k :| 0 <= k < |i.fields| && i.fields[k] == l;
      assert Fetch(t, Own, i.fields)[k] != Fetch(s, Own, i.fields)[k];
    } else {
      OneOfTwo(i, s, t, l);
    }
  }

  lemma OneOfTwo(i: Instruction, s: Store, t: Store, l: LocalId)
    requires ReadsLocal(i, l) && !i.Call? && !i.CallValue? && !i.StructNew? && !i.EnumNew?
    requires Read(s, Own(l)) != Read(t, Own(l))
    ensures Operands(t, Own, i) != Operands(s, Own, i)
  {
    assert Operands(t, Own, i)[0] != Operands(s, Own, i)[0] || Operands(t, Own, i)[1] != Operands(s, Own, i)[1];
  }

  /** An instruction changes the cell of a local exactly when it defines it for the
      liveness analysis, or drops or frees it. */
  lemma PutExactly(i: Instruction, s: Store, l: LocalId, word: Word)
    requires word != Read(s, Own(l)) && Read(s, Own(l)) != 0
    ensures Read(Put(s, Own, i, word), Own(l)) != Read(s, Own(l)) <==> Puts(i, l)
    ensures Puts(i, l) <==> Defs(i) == Some(l) || ((i.Drop? || i.Free?) && l in Uses(i))
  {
    PutMeans(s, Own, i, word);
    if d: LocalId :| Puts(i, d) {
      assert Puts(i, l) <==> d == l;
    }
  }

  lemma FetchAgrees(f: MirFunction, place: Place, pinned: seq<bool>, b: BlockId, i: nat, s: Store, u: Store)
    requires b < |f.blocks| && i < |f.blocks[b].statements|
    requires OperandsInRange(f.blocks[b], |f.locals|)
    requires StoresAgree(f, place, pinned, b, i, s, u) && |pinned| == |f.locals|
    ensures Operands(s, place, f.blocks[b].statements[i]) == Operands(u, Own, f.blocks[b].statements[i])
    ensures View(s, place, pinned) == View(u, Own, pinned)
  {
    hide Live, LiveAfter, Uses, Defs, Operands;
    forall l: LocalId | ReadsLocal(f.blocks[b].statements[i], l) ensures SameWord(place, s, u, l) {
      assert Mentions(f.blocks[b].statements[i], l);
      assert LiveAt(f, b, i, l);
    }
    OperandsAgree(f.blocks[b].statements[i], place, s, u);
    forall l: LocalId | l < |pinned| && pinned[l] ensures SameWord(place, s, u, l) {}
  }

  /** Taking an edge: what is live at the target was live at the end of the block. */
  lemma JumpAgrees(f: MirFunction, order: seq<BlockId>, place: Place, pinned: seq<bool>,
                   b: BlockId, t: BlockId, s: Store, u: Store)
    requires ForwardOrder(f, order) && b in order && b < |f.blocks|
    requires StoresAgree(f, place, pinned, b, |f.blocks[b].statements|, s, u)
    requires Edge(f, b, t)
    ensures t in order && StoresAgree(f, place, pinned, t, 0, s, u)
  {
    OrderIsClosed(f, order);
    forall l: LocalId | l < |f.locals| && (LiveAt(f, t, 0, l) || Pinned(pinned, l)) ensures SameWord(place, s, u, l) {
      if LiveAt(f, t, 0, l) {
        LiveInIsTransfer(f, t, l);
        assert LiveAfter(f, b, l);
        assert LiveAt(f, b, |f.blocks[b].statements|, l);
      }
    }
  }

  lemma WriteBackKeepsAgreement(f: MirFunction, intervals: seq<Interval>, place: Place, pinned: seq<bool>,
                                b: BlockId, i: nat, s: Store, u: Store, words: seq<Word>)
    requires Admissible(f, intervals, place, pinned)
    requires b < |f.blocks| && i <= |f.blocks[b].statements|
    requires StoresAgree(f, place, pinned, b, i, s, u)
    ensures StoresAgree(f, place, pinned, b, i, WriteBack(s, place, pinned, words, |pinned|),
                        WriteBack(u, Own, pinned, words, |pinned|))
  {
    hide LiveAt, SameWord, WriteBack, Admissible;
    forall l: LocalId | l < |f.locals| && SameWord(place, s, u, l)
      ensures SameWord(place, WriteBack(s, place, pinned, words, |pinned|),
                       WriteBack(u, Own, pinned, words, |pinned|), l)
    {
      WriteBackAgrees(f, intervals, place, pinned, s, u, words, l);
    }
  }

  lemma InRangeAt(f: MirFunction, intervals: seq<Interval>, place: Place, pinned: seq<bool>, b: BlockId)
    requires WellFormed(f) && Admissible(f, intervals, place, pinned) && b < |f.blocks|
    ensures OperandsInRange(f.blocks[b], |f.locals|) && |pinned| == |f.locals|
  {
    hide OperandsInRange, OverlapsApart;
  }

  lemma StatementKeepsAgreement(f: MirFunction, order: seq<BlockId>, intervals: seq<Interval>, place: Place,
                                pinned: seq<bool>, world: World, c: Config, d: Config)
    requires WellFormed(f) && InRange(f, order) && Hulls(f, order, intervals)
    requires Admissible(f, intervals, place, pinned)
    requires Agree(f, order, place, pinned, c, d)
    requires c.At? && c.block < |f.blocks| && c.next < |f.blocks[c.block].statements|
    ensures Agree(f, order, place, pinned, Step(f, place, pinned, world, c), Step(f, Own, pinned, world, d))
  {
    hide StoresAgree, Copied, Operands, View, Put, WriteBack, WellFormed, Hulls, InRange, OperandsInRange, Admissible;
    var b, i := c.block, c.next;
    var op := f.blocks[b].statements[i];
    InRangeAt(f, intervals, place, pinned, b);
    FetchAgrees(f, place, pinned, b, i, c.store, d.store);
    var operands := Operands(c.store, place, op);
    match Copied(op, operands, pinned)
    case Some(word) =>
      PutAgrees(f, order, intervals, place, pinned, b, i, c.store, d.store, word);
    case None =>
      match world(op, operands, View(c.store, place, pinned), c.history)
      case None =>
      case Some((word, left)) =>
        WriteBackKeepsAgreement(f, intervals, place, pinned, b, i, c.store, d.store, left);
        PutAgrees(f, order, intervals, place, pinned, b, i, WriteBack(c.store, place, pinned, left, |pinned|),
                  WriteBack(d.store, Own, pinned, left, |pinned|), word);
  }

  lemma TerminatorKeepsAgreement(f: MirFunction, order: seq<BlockId>, place: Place,
                                 pinned: seq<bool>, world: World, c: Config, d: Config)
    requires WellFormed(f) && ForwardOrder(f, order)
    requires Agree(f, order, place, pinned, c, d)
    requires c.At? && c.block < |f.blocks| && c.next == |f.blocks[c.block].statements|
    ensures Agree(f, order, place, pinned, Step(f, place, pinned, world, c), Step(f, Own, pinned, world, d))
  {
    var block := f.blocks[c.block];
    assert OperandsInRange(block, |f.locals|);
    forall l: LocalId | TerminatorReads(block.terminator, l) ensures SameWord(place, c.store, d.store, l) {
      assert LiveAt(f, c.block, c.next, l);
    }
    forall t: BlockId | t < |f.blocks| && LeadsTo(block.terminator, t)
      ensures t in order && StoresAgree(f, place, pinned, t, 0, c.store, d.store)
    {
      JumpAgrees(f, order, place, pinned, c.block, t, c.store, d.store);
    }
    hide LiveAt, StoresAgree, ForwardOrder, WellFormed;
    match block.terminator
    case Goto(t) => assert LeadsTo(block.terminator, t);
    case Branch(l, x, y) =>
      assert TerminatorReads(block.terminator, l);
      assert LeadsTo(block.terminator, x) && LeadsTo(block.terminator, y);
    case Return(Some(l)) => assert TerminatorReads(block.terminator, l);
    case _ =>
  }

  lemma StepKeepsAgreement(f: MirFunction, order: seq<BlockId>, intervals: seq<Interval>, place: Place,
                           pinned: seq<bool>, world: World, c: Config, d: Config)
    requires WellFormed(f) && ForwardOrder(f, order) && InRange(f, order) && Hulls(f, order, intervals)
    requires Admissible(f, intervals, place, pinned)
    requires Agree(f, order, place, pinned, c, d)
    ensures Agree(f, order, place, pinned, Step(f, place, pinned, world, c), Step(f, Own, pinned, world, d))
  {
    if c.At? && c.block < |f.blocks| {
      hide *;
      if c.next < |f.blocks[c.block].statements| {
        StatementKeepsAgreement(f, order, intervals, place, pinned, world, c, d);
      } else {
        TerminatorKeepsAgreement(f, order, place, pinned, world, c, d);
      }
    }
  }

  lemma {:induction false} RunsAgree(f: MirFunction, order: seq<BlockId>, intervals: seq<Interval>, place: Place,
                                     pinned: seq<bool>, world: World, c: Config, d: Config, n: nat)
    requires WellFormed(f) && ForwardOrder(f, order) && InRange(f, order) && Hulls(f, order, intervals)
    requires Admissible(f, intervals, place, pinned)
    requires Agree(f, order, place, pinned, c, d)
    ensures Agree(f, order, place, pinned, Run(f, place, pinned, world, c, n), Run(f, Own, pinned, world, d, n))
  {
    hide Agree, WellFormed, ForwardOrder, InRange, Hulls, Admissible, Step;
    if n > 0 {
      RunsAgree(f, order, intervals, place, pinned, world, c, d, n - 1);
      StepKeepsAgreement(f, order, intervals, place, pinned, world,
                         Run(f, place, pinned, world, c, n - 1), Run(f, Own, pinned, world, d, n - 1));
    }
  }

  // ----- the entry ----------------------------------------------------------

  /** No parameter that is live on entry shares its cell with one stored later. */
  ghost predicate ParametersKept(f: MirFunction, place: Place) {
    forall k, m :: 0 <= k < m < |f.params| && Live(f, f.entry, f.params[k]) ==>
      place(f.params[k]) != place(f.params[m])
  }

  lemma {:induction false} EntryStoreReads(place: Place, params: seq<LocalId>, args: seq<Word>, s: Store, k: nat)
    requires |args| == |params| && k < |params|
    ensures (forall m :: k < m < |params| ==> place(params[m]) != place(params[k])) ==>
              Read(EntryStores(place, params, args, s), place(params[k])) == args[k]
    decreases |params|
  {
    var n := |params| - 1;
    if k < n && forall m :: k < m < |params| ==> place(params[m]) != place(params[k]) {
      assert forall m :: k < m < n ==> params[..n][m] == params[m];
      EntryStoreReads(place, params[..n], args[..n], s, k);
    }
  }

  lemma {:induction false} EntryStoreMisses(
      place: Place, params: seq<LocalId>, args: seq<Word>, s: Store, cell: Location)
    requires |args| == |params| && forall m :: 0 <= m < |params| ==> place(params[m]) != cell
    ensures Read(EntryStores(place, params, args, s), cell) == Read(s, cell)
    decreases |params|
  {
    if params != [] {
      var n := |params| - 1;
      assert forall m :: 0 <= m < n ==> params[..n][m] == params[m];
      EntryStoreMisses(place, params[..n], args[..n], s, cell);
    }
  }

  /** Every parameter that is live on entry holds its argument after the prologue. */
  ghost predicate EntryDelivers(f: MirFunction, place: Place, args: seq<Word>, s: Store)
    requires |args| == |f.params|
  {
    forall k :: 0 <= k < |f.params| && Live(f, f.entry, f.params[k]) ==>
      Read(EntryStores(place, f.params, args, s), place(f.params[k])) == args[k]
  }

  /** The prologue delivers every argument list exactly when no later store lands
      on a parameter that is still needed. */
  lemma EntryStoresExactly(f: MirFunction, place: Place, s: Store)
    ensures ParametersKept(f, place) <==>
            forall args: seq<Word> :: |args| == |f.params| ==> EntryDelivers(f, place, args, s)
  {
    if ParametersKept(f, place) {
      forall args: seq<Word> | |args| == |f.params| ensures EntryDelivers(f, place, args, s) {
        forall k | 0 <= k < |f.params| && Live(f, f.entry, f.params[k])
          ensures Read(EntryStores(place, f.params, args, s), place(f.params[k])) == args[k]
        {
          EntryStoreReads(place, f.params, args, s, k);
        }
      }
    } else {
      var k, m :| 0 <= k < m < |f.params| && Live(f, f.entry, f.params[k])
        && place(f.params[k]) == place(f.params[m]);
      var args := seq(|f.params|, i => i);
      ClobberedBy(place, f.params, args, s, k, m);
      assert !EntryDelivers(f, place, args, s);
    }
  }

  /** The cell of `params[k]` ends up with the argument of a later parameter. */
  lemma {:induction false} ClobberedBy(place: Place, params: seq<LocalId>, args: seq<Word>, s: Store, k: nat, m: nat)
    requires |args| == |params| && k < m < |params| && place(params[k]) == place(params[m])
    requires forall i :: 0 <= i < |args| ==> args[i] == i
    ensures Read(EntryStores(place, params, args, s), place(params[k])) > k
    decreases |params|
  {
    var n := |params| - 1;
    if m < n && place(params[n]) != place(params[k]) {
      ClobberedBy(place, params[..n], args[..n], s, k, m);
    }
  }

  ghost predicate ParametersUnwritten(f: MirFunction, order: seq<BlockId>) {
    forall b: BlockId, i :: b in order && b < |f.blocks| && 0 <= i < |f.blocks[b].statements| ==>
      var d := Defs(f.blocks[b].statements[i]);
      d.Some? ==> d.value !in f.params
  }

  /** A parameter nothing writes is live on entry as soon as it is live anywhere. */
  lemma {:induction false} UnwrittenStaysLive(f: MirFunction, order: seq<BlockId>, p: seq<BlockId>, l: LocalId)
    requires ForwardOrder(f, order) && ParametersUnwritten(f, order) && l in f.params
    requires IsPath(f, p) && p[0] in order && Live(f, p[|p| - 1], l)
    ensures Live(f, p[0], l)
    decreases |p|
  {
    if |p| > 1 {
      OrderIsClosed(f, order);
      assert Edge(f, p[0], p[1]);
      UnwrittenStaysLive(f, order, p[1..], l);
      ExtendPath(f, p[0], p[1], l);
    }
  }

  /** A block that marks `l` without writing it has `l` live at its start. */
  lemma MarkedIsLive(f: MirFunction, b: BlockId, start: nat, l: LocalId, p: nat)
    requires b < |f.blocks| && BlockMarks(f, b, start, l, p) && !Writes(f.blocks[b], l)
    ensures Live(f, b, l)
  {
    hide Live, LiveAfter, LiveBefore;
    var block := f.blocks[b];
    var n := |block.statements|;
    LiveInIsTransfer(f, b, l);
    TransferMeaning(block, LiveAfter(f, b, l), l);
    if MentionedAt(block.statements, start, n, l, p) {
      assert ReadAt(block, p - start, l) && !WrittenBefore(block, p - start, l);
    } else if l in TerminatorUses(block.terminator) {
      assert ReadAt(block, n, l) && !WrittenBefore(block, n, l);
    }
  }

  /** In particular a marked parameter is live on entry. */
  lemma MarkedParameterIsLive(f: MirFunction, order: seq<BlockId>, l: LocalId, p: nat)
    requires ForwardOrder(f, order) && InRange(f, order) && ParametersUnwritten(f, order) && l in f.params
    requires IsMark(f, order, |order|, l, p)
    ensures Live(f, f.entry, l)
  {
    var k: nat :| k < |order| && MarkedBy(f, order, k, l, p);
    var b := order[k];
    assert b in order && !Writes(f.blocks[b], l);
    hide Live, BlockMarks, ParametersUnwritten, BlockStart;
    MarkedIsLive(f, b, BlockStart(f, order, k), l, p);
    assert Reaches(f, f.entry, b) && f.entry in order;
    var path :| PathBetween(f, path, f.entry, b);
    hide ForwardOrder;
    UnwrittenStaysLive(f, order, path, l);
  }

  /** When nothing assigns a parameter, it is enough that locals share only when both
      have intervals and these are disjoint. */
  lemma UnwrittenParametersKept(f: MirFunction, order: seq<BlockId>, intervals: seq<Interval>, place: Place)
    requires WellFormed(f) && ForwardOrder(f, order) && InRange(f, order) && Hulls(f, order, intervals)
    requires SharesOnlyDisjoint(intervals, place, |f.locals|)
    requires ParametersUnwritten(f, order)
    ensures ParametersKept(f, place)
  {
    forall k, m | 0 <= k < m < |f.params| && Live(f, f.entry, f.params[k])
      ensures place(f.params[k]) != place(f.params[m])
    {
      var l, n := f.params[k], f.params[m];
      if place(l) == place(n) {
        assert OverlapFree(intervals, l, n);
        DisjointMeansSeparate(intervals, l, n);
        LiveOnEntryCovered(f, order, intervals, l);
        var x, y :| IntervalOf(intervals, l, x) && IntervalOf(intervals, n, y) && Disjoint(x, y);
        IntervalIsMarked(f, order, intervals, y);
        MarkedParameterIsLive(f, order, n, y.start);
        LiveOnEntryCovered(f, order, intervals, n);
        NotBothCovered(intervals, l, n, 0);
      }
    }
  }

  lemma IntervalIsMarked(f: MirFunction, order: seq<BlockId>, intervals: seq<Interval>, y: Interval)
    requires InRange(f, order) && Hulls(f, order, intervals) && y in intervals
    ensures IsMark(f, order, |order|, y.local, y.start)
  {
    var i :| 0 <= i < |intervals| && intervals[i] == y;
  }

  lemma LiveOnEntryCovered(f: MirFunction, order: seq<BlockId>, intervals: seq<Interval>, l: LocalId)
    requires WellFormed(f) && ForwardOrder(f, order) && InRange(f, order) && Hulls(f, order, intervals)
    requires l < |f.locals| && Live(f, f.entry, l)
    ensures Covers(intervals, l, 0)
  {
    LiveInIsTransfer(f, f.entry, l);
    LivePointCovered(f, order, intervals, 0, 0, l);
  }

  // ----- main results -------------------------------------------------------

  lemma StartAgrees(f: MirFunction, order: seq<BlockId>, place: Place, pinned: seq<bool>,
                    args: seq<Word>, s: Store, u: Store)
    requires WellFormed(f) && ForwardOrder(f, order) && |args| == |f.params|
    requires ParametersKept(f, place) && |pinned| == |f.locals|
    requires forall l: LocalId, m: LocalId :: l < |f.locals| && m < |f.locals| && l != m && pinned[l] ==>
               place(l) != place(m)
    requires forall l: LocalId :: l < |f.locals| && pinned[l] ==> SameWord(place, s, u, l)
    ensures Agree(f, order, place, pinned, Start(f, place, args, s), Start(f, Own, args, u))
  {
    var a, b := EntryStores(place, f.params, args, s), EntryStores(Own, f.params, args, u);
    forall l: LocalId | l < |f.locals| && (LiveAt(f, f.entry, 0, l) || Pinned(pinned, l))
      ensures SameWord(place, a, b, l)
    {
      LiveInIsTransfer(f, f.entry, l);
      if l in f.params {
        assert f.params[l] == l;
        EntryStoreReads(place, f.params, args, s, l);
        EntryStoreReads(Own, f.params, args, u, l);
      } else {
        EntryStoreMisses(place, f.params, args, s, place(l));
        EntryStoreMisses(Own, f.params, args, u, Own(l));
      }
    }
  }

  /** Sharing storage is safe: same steps, same consultations of the world with the
      same operands, same outcome, for every world, argument list and length of run. */
  lemma SharingIsSafe(f: MirFunction, order: seq<BlockId>, intervals: seq<Interval>, place: Place,
                      pinned: seq<bool>, world: World, args: seq<Word>, s: Store, u: Store, n: nat)
    requires WellFormed(f) && ForwardOrder(f, order) && InRange(f, order) && Hulls(f, order, intervals)
    requires Admissible(f, intervals, place, pinned) && ParametersKept(f, place)
    requires |args| == |f.params|
    requires forall l: LocalId :: l < |f.locals| && pinned[l] ==> SameWord(place, s, u, l)
    ensures Observe(Run(f, place, pinned, world, Start(f, place, args, s), n))
         == Observe(Run(f, Own, pinned, world, Start(f, Own, args, u), n))
  {
    StartAgrees(f, order, place, pinned, args, s, u);
    RunsAgree(f, order, intervals, place, pinned, world, Start(f, place, args, s), Start(f, Own, args, u), n);
  }

  /** The allocator's answer is such an assignment, whatever the register count. */
  lemma AllocationIsSafe(f: MirFunction, cfg: Cfg, registers: nat, pinned: seq<bool>, a: Allocation,
                         world: World, args: seq<Word>, s: Store, u: Store, n: nat)
    requires WellFormed(f) && Describes(f, cfg) && Sound(f, cfg.reversePostorder, registers, pinned, a)
    requires ParametersUnwritten(f, cfg.reversePostorder)
    requires |args| == |f.params| && |pinned| == |f.locals|
    requires forall l: LocalId :: l < |f.locals| && pinned[l] ==> SameWord(a.Location, s, u, l)
    ensures Observe(Run(f, a.Location, pinned, world, Start(f, a.Location, args, s), n))
         == Observe(Run(f, Own, pinned, world, Start(f, Own, args, u), n))
  {
    var order := cfg.reversePostorder;
    var intervals :| Hulls(f, order, intervals) && SharesOnlyDisjoint(intervals, a.Location, |f.locals|);
    UnwrittenParametersKept(f, order, intervals, a.Location);
    forall l: LocalId, m: LocalId | l < |f.locals| && m < |f.locals| && l != m && a.Location(l) == a.Location(m)
      ensures Separate(intervals, l, m)
    {
      DisjointMeansSeparate(intervals, l, m);
    }
    SharingIsSafe(f, order, intervals, a.Location, pinned, world, args, s, u, n);
  }

  // ----- what the machine does without the world ---------------------------------------

  /** `x = c; y = x; if y then 1 else 2` for a constant of each kind, a block for each arm
      that returns `y` or nothing. */
  function Choosing(constant: Instruction): MirFunction {
    MirFunction([], [I64, I64],
                [ BasicBlock([constant, Assign(1, 0)], Branch(1, 1, 2)),
                  BasicBlock([], Return(Some(1))),
                  BasicBlock([], Return(None)) ], 0)
  }

  /** Constants reach the branch and the return as they were written: any word but zero
      takes the first arm, and `true` is one. */
  lemma ConstantsRun(world: World, s: Store, value: int, bits: nat, flag: bool)
    ensures Observe(Run(Choosing(ConstInt(0, value)), Own, [false, false], world, At(0, 0, s, []), 4))
         == Done(Returned(if value != 0 then Some(value) else None, []))
    ensures Observe(Run(Choosing(ConstFloat(0, bits)), Own, [false, false], world, At(0, 0, s, []), 4))
         == Done(Returned(if bits != 0 then Some(bits) else None, []))
    ensures Observe(Run(Choosing(ConstBool(0, flag)), Own, [false, false], world, At(0, 0, s, []), 4))
         == Done(Returned(if flag then Some(1) else None, []))
  {
    ConstantRuns(world, s, ConstInt(0, value), value);
    ConstantRuns(world, s, ConstFloat(0, bits), bits);
    ConstantRuns(world, s, ConstBool(0, flag), if flag then 1 else 0);
  }

  lemma ConstantRuns(world: World, s: Store, constant: Instruction, value: int)
    requires
      || constant == ConstInt(0, value)
      || (value >= 0 && constant == ConstFloat(0, value))
      || (0 <= value <= 1 && constant == ConstBool(0, value == 1))
    ensures Run(Choosing(constant), Own, [false, false], world, At(0, 0, s, []), 4)
         == Returned(if value != 0 then Some(value) else None, [])
  {
    var f, pinned := Choosing(constant), [false, false];
    var t := s[Own(0) := value];
    var u := t[Own(1) := value];
    var c0 := At(0, 0, s, []);
    assert Step(f, Own, pinned, world, c0) == At(0, 1, t, []);
    assert Step(f, Own, pinned, world, At(0, 1, t, [])) == At(0, 2, u, []);
    var arm := if value != 0 then 1 else 2;
    assert Step(f, Own, pinned, world, At(0, 2, u, [])) == At(arm, 0, u, []);
    assert Step(f, Own, pinned, world, At(arm, 0, u, [])) == Returned(if value != 0 then Some(value) else None, []);
    hide Step, Choosing;
    assert Run(f, Own, pinned, world, c0, 1) == At(0, 1, t, []);
    assert Run(f, Own, pinned, world, c0, 2) == At(0, 2, u, []);
    assert Run(f, Own, pinned, world, c0, 3) == At(arm, 0, u, []);
  }

  // ----- where separating intervals is not enough ----------------------------

  /** `c = a; b = 5; return c` over parameters `a`, `b`: `b` is dead on entry. */
  const REASSIGNED: MirFunction :=
    MirFunction([0, 1], [I64, I64, I64],
                [BasicBlock([Assign(2, 0), ConstInt(1, 5)], Return(Some(2)))], 0)

  const REASSIGNED_INTERVALS: seq<Interval> := [Interval(0, 0, 0), Interval(1, 1, 1), Interval(2, 0, 2)]

  function ReassignedPlace(l: LocalId): Location {
    if l == 2 then Register(1) else Register(0)
  }

  lemma ReassignedLiveness(l: LocalId)
    ensures Live(REASSIGNED, 0, l) <==> l == 0
    ensures !LiveAfter(REASSIGNED, 0, l)
  {
    var block := REASSIGNED.blocks[0];
    assert forall s: BlockId :: !Edge(REASSIGNED, 0, s);
    LiveInIsTransfer(REASSIGNED, 0, l);
    assert LiveBefore(block, 2, false, l) <==> l == 2;
    assert LiveBefore(block, 1, false, l) <==> l == 2;
    assert LiveBefore(block, 0, false, l) <==> l == 0;
  }

  lemma ReassignedMarks(l: LocalId, p: nat)
    ensures IsMark(REASSIGNED, [0], 1, l, p) <==> (l, p) in {(0, 0), (2, 0), (1, 1), (2, 2)}
  {
    ReassignedLiveness(l);
    var statements := REASSIGNED.blocks[0].statements;
    assert BlockStart(REASSIGNED, [0], 0) == 0 && |statements| == 2;
    assert MentionedAt(statements, 0, 2, l, p) <==>
        ((p == 0 && Mentions(statements[0], l)) || (p == 1 && Mentions(statements[1], l)));
    assert IsMark(REASSIGNED, [0], 1, l, p) <==> MarkedBy(REASSIGNED, [0], 0, l, p);
  }

  lemma ReassignedHulls()
    ensures Hulls(REASSIGNED, [0], REASSIGNED_INTERVALS)
  {
    hide IsMark;
    forall l: LocalId, p: nat
      ensures IsMark(REASSIGNED, [0], 1, l, p) <==> (l, p) in {(0, 0), (2, 0), (1, 1), (2, 2)}
    {
      ReassignedMarks(l, p);
    }
    var r := REASSIGNED_INTERVALS;
    forall l: LocalId, p: nat | IsMark(REASSIGNED, [0], 1, l, p) ensures Covers(r, l, p) {
      assert r[l].local == l && r[l].start <= p <= r[l].end;
    }
  }

  lemma ReassignedOrder()
    ensures WellFormed(REASSIGNED) && ForwardOrder(REASSIGNED, [0])
  {
    var f := REASSIGNED;
    forall l: LocalId ensures Live(f, 0, l) <==> l == 0 { ReassignedLiveness(l); }
    ReachesSelf(f, 0);
    forall b: BlockId | Reaches(f, 0, b) ensures b == 0 {
      var p :| PathBetween(f, p, 0, b);
      assert |p| > 1 ==> Edge(f, p[0], p[1]);
    }
  }

  /** The straight-line run of the example, three steps from the stored arguments. */
  lemma ReassignedRun(place: Place, world: World, s: Store)
    requires place == ReassignedPlace || place == Own
    ensures Run(REASSIGNED, place, [false, false, false], world, At(0, 0, s, []), 3)
         == Returned(Some(Read(s, place(0))), [])
  {
    var f, pinned := REASSIGNED, [false, false, false];
    var c0 := At(0, 0, s, []);
    var c1 := Step(f, place, pinned, world, c0);
    assert c1 == At(0, 1, s[place(2) := Read(s, place(0))], []);
    var c2 := Step(f, place, pinned, world, c1);
    assert c2 == At(0, 2, c1.store[place(1) := 5], []);
    assert Run(f, place, pinned, world, c0, 1) == c1;
    assert Run(f, place, pinned, world, c0, 2) == c2;
  }

  /** Separating overlapping intervals does not by itself make sharing safe: a
      parameter that is dead on entry and assigned later may be given the register
      of one that is still needed, and its entry store then destroys it. */
  lemma DeadParameterClobbers(world: World)
    ensures WellFormed(REASSIGNED) && ForwardOrder(REASSIGNED, [0])
    ensures Hulls(REASSIGNED, [0], REASSIGNED_INTERVALS)
    ensures Admissible(REASSIGNED, REASSIGNED_INTERVALS, ReassignedPlace, [false, false, false])
    ensures Run(REASSIGNED, ReassignedPlace, [false, false, false], world,
                Start(REASSIGNED, ReassignedPlace, [7, 8], map[]), 3) == Returned(Some(8), [])
    ensures Run(REASSIGNED, Own, [false, false, false], world,
                Start(REASSIGNED, Own, [7, 8], map[]), 3) == Returned(Some(7), [])
  {
    hide Hulls, WellFormed, ForwardOrder, Run;
    ReassignedOrder();
    ReassignedHulls();
    var r := REASSIGNED_INTERVALS;
    assert IntervalOf(r, 0, r[0]) && IntervalOf(r, 1, r[1]) && Disjoint(r[0], r[1]) && Disjoint(r[1], r[0]);
    assert [0, 1][..1] == [0] && [7, 8][..1] == [7] && [0][..0] == [] && [7][..0] == [];
    ReassignedRun(ReassignedPlace, world, EntryStores(ReassignedPlace, [0, 1], [7, 8], map[]));
    ReassignedRun(Own, world, EntryStores(Own, [0, 1], [7, 8], map[]));
  }
}
