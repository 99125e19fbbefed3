/** Where the words of a call's arguments go: the two argument sequences of the
    System V AMD64 psABI and of AAPCS64, and the frame that makes room for them. */
module Convention {
  import opened Types
  import M = Mir

  type LocalId = M.LocalId

  datatype Class = Integer | Float

  /** One machine word of an argument list: a local, or a word of what it points at. */
  datatype Source = Value(local: LocalId) | Indirect(base: LocalId, offset: int)

  datatype ArgWord = ArgWord(source: Source, kind: Class)

  /** Six integer registers or eight, and eight for floats. */
  datatype Arch = X86 | A64 {
    function Integers(): nat {
      if X86? then 6 else 8
    }
  }

  const FLOATS: nat := 8

  // ----- from arguments to words --------------------------------------------------

  const BUFFER_OFFSET: int := 16
  const LENGTH_OFFSET: int := 0
  const LIST_BUFFER_OFFSET: int := 24

  function ClassOf(ty: Type): Class {
    if ty == F64 then Float else Integer
  }

  function Min(a: nat, b: nat): nat {
    if a < b then a else b
  }

  /** Every argument of a Slopium callee is one word; the shorter list decides. */
  function ValueWords(args: seq<LocalId>, types: seq<Type>): (ws: seq<ArgWord>)
    ensures |ws| == Min(|args|, |types|)
    ensures forall i :: 0 <= i < |ws| ==> ws[i].source == Value(args[i]) && (ws[i].kind.Float? <==> types[i] == F64)
  {
    seq(Min(|args|, |types|), i requires 0 <= i < Min(|args|, |types|) => ArgWord(Value(args[i]), ClassOf(types[i])))
  }

  /** What C sees of one argument: a borrowed string is its pointer, and a borrowed
      slice, list or array is a pointer and a length. */
  function ExternWordsOf(arg: LocalId, ty: Type): seq<ArgWord> {
    match ty
    case F64 => [ArgWord(Value(arg), Float)]
    case Ref(_, inner) =>
      (match inner
       case Str => [ArgWord(Indirect(arg, BUFFER_OFFSET), Integer)]
       case Slice(_) => [ArgWord(Indirect(arg, BUFFER_OFFSET), Integer), ArgWord(Indirect(arg, LENGTH_OFFSET), Integer)]
       case List(_) =>
         [ArgWord(Indirect(arg, LIST_BUFFER_OFFSET), Integer), ArgWord(Indirect(arg, LENGTH_OFFSET), Integer)]
       case Array(_, _) =>
         [ArgWord(Indirect(arg, LIST_BUFFER_OFFSET), Integer), ArgWord(Indirect(arg, LENGTH_OFFSET), Integer)]
       case _ => [ArgWord(Value(arg), Integer)])
    case _ => [ArgWord(Value(arg), Integer)]
  }

  function ExternWords(params: seq<Type>, args: seq<LocalId>): seq<ArgWord> {
    if params == [] || args == [] then []
    else ExternWordsOf(args[0], params[0]) + ExternWords(params[1..], args[1..])
  }

  /** The words of every argument that has a parameter, in order. */
  lemma {:induction false} ExternWordsInOrder(params: seq<Type>, args: seq<LocalId>, k: nat)
    requires k < |params| && k < |args|
    ensures ExternWords(params, args)
         == ExternWords(params[..k], args[..k]) + ExternWordsOf(args[k], params[k])
            + ExternWords(params[k + 1..], args[k + 1..])
  {
    hide ExternWordsOf, ExternWords;
    FirstWords(params, args);
    FirstWords(params[..k], args[..k]);
    if k > 0 {
      ExternWordsInOrder(params[1..], args[1..], k - 1);
      assert params[1..][..k - 1] == params[..k][1..] && args[1..][..k - 1] == args[..k][1..];
      assert params[1..][k..] == params[k + 1..] && args[1..][k..] == args[k + 1..];
    }
  }

  lemma FirstWords(params: seq<Type>, args: seq<LocalId>)
    ensures ExternWords(params, args)
         == if params == [] || args == [] then []
            else ExternWordsOf(args[0], params[0]) + ExternWords(params[1..], args[1..])
  {
    hide ExternWordsOf;
  }

  type Externs = map<string, seq<Type>>

  /** The words of a call instruction; `None` for everything that is not a call. */
  function CallWords(externs: Externs, i: M.Instruction): Option<seq<ArgWord>> {
    match i
    case Call(_, symbol, args, types, _) =>
      Some(if symbol in externs then ExternWords(externs[symbol], args) else ValueWords(args, types))
    case CallValue(_, _, args, types, _) => Some(ValueWords(args, types))
    case _ => None
  }

  /** A Slopium callee, named or a value, is passed one word for each argument; a C function
      is passed what its declared parameters expand to; nothing else passes anything. */
  lemma CallWordsAre(externs: Externs, i: M.Instruction)
    ensures CallWords(externs, i).Some? <==> i.Call? || i.CallValue?
    ensures i.CallValue? || (i.Call? && i.symbol !in externs) ==>
      var ws := CallWords(externs, i).value;
      |ws| == Min(|i.args|, |i.argTypes|) && forall k :: 0 <= k < |ws| ==> ws[k].source == Value(i.args[k])
    ensures i.Call? && i.symbol in externs && |i.args| == |externs[i.symbol]| == 1 ==>
      CallWords(externs, i).value == ExternWordsOf(i.args[0], externs[i.symbol][0])
  {
    hide ExternWordsOf;
    if i.Call? && i.symbol in externs && |i.args| == |externs[i.symbol]| == 1 {
      ExternWordsInOrder(externs[i.symbol], i.args, 0);
      assert ExternWords([], []) == [];
    }
  }

  // ----- locations ------------------------------------------------------------------

  datatype Place = IntegerRegister(index: nat) | FloatRegister(index: nat) | Stack(index: nat)

  function Count(words: seq<ArgWord>, c: Class): nat {
    if words == [] then 0
    else Count(words[..|words| - 1], c) + if words[|words| - 1].kind == c then 1 else 0
  }

  function Beyond(n: nat, registers: nat): nat {
    if n > registers then n - registers else 0
  }

  /** How many words of a list do not fit the registers. */
  function Stacked(arch: Arch, words: seq<ArgWord>): nat {
    Beyond(Count(words, Integer), arch.Integers()) + Beyond(Count(words, Float), FLOATS)
  }

  /** Where the calling convention puts word `k`: the next register of its class, or
      the next stack word once those run out. */
  function PlaceOf(arch: Arch, words: seq<ArgWord>, k: nat): Place
    requires k < |words|
  {
    var before := words[..k];
    var n := Count(before, words[k].kind);
    if words[k].kind == Integer && n < arch.Integers() then IntegerRegister(n)
    else if words[k].kind == Float && n < FLOATS then FloatRegister(n)
    else Stack(Stacked(arch, before))
  }

  lemma CountStep(words: seq<ArgWord>, k: nat, c: Class)
    requires k < |words|
    ensures Count(words[..k + 1], c) == Count(words[..k], c) + if words[k].kind == c then 1 else 0
  {
    assert words[..k + 1][..k] == words[..k];
  }

  lemma {:induction false} CountGrows(words: seq<ArgWord>, j: nat, k: nat, c: Class)
    requires j <= k <= |words|
    ensures Count(words[..j], c) <= Count(words[..k], c)
    decreases k
  {
    if j < k {
      CountStep(words, k - 1, c);
      CountGrows(words, j, k - 1, c);
    }
  }

  lemma StackedStep(arch: Arch, words: seq<ArgWord>, k: nat)
    requires k < |words|
    ensures Stacked(arch, words[..k + 1]) == Stacked(arch, words[..k]) + if PlaceOf(arch, words, k).Stack? then 1 else 0
  {
    CountStep(words, k, Integer);
    CountStep(words, k, Float);
  }

  lemma {:induction false} StackedGrows(arch: Arch, words: seq<ArgWord>, j: nat, k: nat)
    requires j <= k <= |words|
    ensures Stacked(arch, words[..j]) <= Stacked(arch, words[..k])
    decreases k
  {
    if j < k {
      StackedStep(arch, words, k - 1);
      StackedGrows(arch, words, j, k - 1);
    }
  }

  /** No two words share a place, and every stack word is inside the list's stack
      area. */
  lemma PlacesDistinct(arch: Arch, words: seq<ArgWord>, j: nat, k: nat)
    requires j < k < |words|
    ensures PlaceOf(arch, words, j) != PlaceOf(arch, words, k)
  {
    CountStep(words, j, Integer);
    CountStep(words, j, Float);
    CountGrows(words, j + 1, k, Integer);
    CountGrows(words, j + 1, k, Float);
    StackedStep(arch, words, j);
    StackedGrows(arch, words, j + 1, k);
  }

  lemma PlaceInArea(arch: Arch, words: seq<ArgWord>, k: nat)
    requires k < |words|
    ensures match PlaceOf(arch, words, k)
      case IntegerRegister(i) => i < arch.Integers()
      case FloatRegister(i) => i < FLOATS
      case Stack(i) => i < Stacked(arch, words)
  {
    StackedStep(arch, words, k);
    StackedGrows(arch, words, k + 1, |words|);
    assert words[..|words|] == words;
  }

  // ----- what the standards say ------------------------------------------------------

  /** The words of the same class in front of word `k`. */
  function Earlier(words: seq<ArgWord>, k: nat): set<nat>
    requires k < |words|
  {
    set j: nat | j < k && words[j].kind == words[k].kind
  }

  /** Section 3.2.3 of the psABI gives rdi, rsi, rdx, rcx, r8 and r9 to integer words and
      xmm0 to xmm7 to floats; section 6.8.2 of the AAPCS64 gives x0 to x7 and v0 to v7. A
      word with that many of its class in front of it is passed in memory. */
  predicate PassedInMemory(arch: Arch, words: seq<ArgWord>, k: nat)
    requires k < |words|
  {
    |Earlier(words, k)| >= if words[k].kind == Integer && arch == X86 then 6 else 8
  }

  /** Every word is where the standard of its architecture puts it: in the register of its
      class that the earlier words of the class leave next, or on the stack behind the
      earlier words that are there. */
  lemma StandardPlaces(arch: Arch, words: seq<ArgWord>, k: nat)
    requires k < |words|
    ensures var n := |Earlier(words, k)|;
      PlaceOf(arch, words, k) ==
        if PassedInMemory(arch, words, k) then Stack(|set j: nat | j < k && PassedInMemory(arch, words, j)|)
        else if words[k].kind == Integer then IntegerRegister(n) else FloatRegister(n)
  {
    CountIsEarlier(words, k, words[k].kind);
    assert Earlier(words, k) == set j: nat | j < k && words[j].kind == words[k].kind;
    MemoryWords(arch, words, k);
  }

  lemma {:induction false} CountIsEarlier(words: seq<ArgWord>, n: nat, c: Class)
    requires n <= |words|
    ensures Count(words[..n], c) == |set j: nat | j < n && words[j].kind == c|
    decreases n
  {
    hide Count;
    var earlier := set j: nat | j < n && words[j].kind == c;
    if n == 0 {
      NoWords(c);
      assert earlier == {} && words[..0] == [];
    } else {
      CountStep(words, n - 1, c);
      CountIsEarlier(words, n - 1, c);
      var before := set j: nat | j < n - 1 && words[j].kind == c;
      if words[n - 1].kind == c {
        assert earlier == before + {n - 1};
      } else {
        assert earlier == before;
      }
    }
  }

  lemma NoWords(c: Class)
    ensures Count([], c) == 0
  {
  }

  lemma OnTheStack(arch: Arch, words: seq<ArgWord>, k: nat)
    requires k < |words|
    ensures PlaceOf(arch, words, k).Stack? <==> PassedInMemory(arch, words, k)
  {
    CountIsEarlier(words, k, words[k].kind);
    assert Earlier(words, k) == set j: nat | j < k && words[j].kind == words[k].kind;
    hide Count;
  }

  lemma {:induction false} MemoryWords(arch: Arch, words: seq<ArgWord>, k: nat)
    requires k <= |words|
    ensures Stacked(arch, words[..k]) == |set j: nat | j < k && PassedInMemory(arch, words, j)|
    decreases k
  {
    hide PassedInMemory, PlaceOf, Earlier;
    var there := set j: nat | j < k && PassedInMemory(arch, words, j);
    if k == 0 {
      assert there == {};
    } else {
      var n := k - 1;
      MemoryWords(arch, words, n);
      StackedStep(arch, words, n);
      OnTheStack(arch, words, n);
      var before := set j: nat | j < n && PassedInMemory(arch, words, j);
      assert there == before + if PassedInMemory(arch, words, n) then {n} else {};
    }
  }

  /** A place depends only on the classes, so a caller and a callee that agree on
      those agree on the places. */
  lemma {:induction false} SameCount(a: seq<ArgWord>, b: seq<ArgWord>, c: Class)
    requires |a| == |b| && forall i :: 0 <= i < |a| ==> a[i].kind == b[i].kind
    ensures Count(a, c) == Count(b, c)
  {
    if a != [] { SameCount(a[..|a| - 1], b[..|b| - 1], c); }
  }

  lemma SamePlaces(arch: Arch, a: seq<ArgWord>, b: seq<ArgWord>, k: nat)
    requires |a| == |b| && k < |a| && forall i :: 0 <= i < |a| ==> a[i].kind == b[i].kind
    ensures PlaceOf(arch, a, k) == PlaceOf(arch, b, k)
  {
    SameCount(a[..k], b[..k], Integer);
    SameCount(a[..k], b[..k], Float);
  }

  // ----- the outgoing area --------------------------------------------------------------

  /** Instructions of a function, block after block. */
  function Statements(blocks: seq<M.BasicBlock>): seq<M.Instruction> {
    if blocks == [] then [] else Statements(blocks[..|blocks| - 1]) + blocks[|blocks| - 1].statements
  }

  /** Bytes of stack words one instruction stores. */
  function StackBytes(externs: Externs, i: M.Instruction): nat {
    match CallWords(externs, i)
    case Some(words) => Stacked(A64, words) * 8
    case None => 0
  }

  /** `bytes` is the most that any of some instructions stores. */
  ghost predicate Widest(externs: Externs, statements: seq<M.Instruction>, bytes: nat) {
    && (forall i :: i in statements ==> StackBytes(externs, i) <= bytes)
    && (bytes > 0 ==> exists i :: i in statements && StackBytes(externs, i) == bytes)
  }

  lemma WidestNext(externs: Externs, statements: seq<M.Instruction>, i: M.Instruction, bytes: nat)
    requires Widest(externs, statements, bytes)
    ensures var needed := StackBytes(externs, i);
      Widest(externs, statements + [i], if needed > bytes then needed else bytes)
  {
    hide StackBytes;
    var after := statements + [i];
    assert forall x :: x in after <==> x in statements || x == i;
  }

  /** Bytes of outgoing stack arguments the widest call of a function needs. */
  method OutgoingBytes(externs: Externs, f: M.MirFunction) returns (bytes: nat)
    ensures Widest(externs, Statements(f.blocks), bytes)
  {
    hide Widest, StackBytes;
    bytes := 0;
    NoCalls(externs);
    for b := 0 to |f.blocks|
      invariant Widest(externs, Statements(f.blocks[..b]), bytes)
    {
      var statements := f.blocks[b].statements;
      ghost var before := Statements(f.blocks[..b]);
      assert f.blocks[..b + 1][..b] == f.blocks[..b];
      assert before + statements[..0] == before;
      for k := 0 to |statements|
        invariant Widest(externs, before + statements[..k], bytes)
      {
        WidestNext(externs, before + statements[..k], statements[k], bytes);
        assert before + statements[..k] + [statements[k]] == before + statements[..k + 1];
        var needed := BytesOfCall(externs, statements[k]);
        if needed > bytes { bytes := needed; }
      }
      assert statements[..|statements|] == statements;
    }
    assert f.blocks[..|f.blocks|] == f.blocks;
  }

  lemma NoCalls(externs: Externs)
    ensures Widest(externs, [], 0)
  {
  }

  /** The same count, made by filtering floats and subtracting the registers. */
  method BytesOfCall(externs: Externs, i: M.Instruction) returns (bytes: nat)
    ensures bytes == StackBytes(externs, i)
  {
    match CallWords(externs, i)
    case None => bytes := 0;
    case Some(words) =>
      var floats := 0;
      for k := 0 to |words|
        invariant floats == Count(words[..k], Float)
      {
        CountStep(words, k, Float);
        if words[k].kind == Float { floats := floats + 1; }
      }
      assert words[..|words|] == words;
      CountsAll(words);
      var integers := |words| - floats;
      bytes := (Beyond(integers, A64.Integers()) + Beyond(floats, FLOATS)) * 8;
  }

  lemma {:induction false} CountsAll(words: seq<ArgWord>)
    ensures Count(words, Integer) + Count(words, Float) == |words|
  {
    if words != [] { CountsAll(words[..|words| - 1]); }
  }

  // ----- frames -------------------------------------------------------------------------

  function AlignTo(value: nat, alignment: nat): nat
    requires alignment > 0
  {
    (value + alignment - 1) / alignment * alignment
  }

  lemma AlignTo16(value: nat)
    ensures AlignTo(value, 16) % 16 == 0 && value <= AlignTo(value, 16) < value + 16
  {
  }

  /** The frame of an AArch64 function, in bytes above `sp`. */
  datatype FrameLayout = FrameLayout(outgoing: nat, slots: nat, saved: nat) {
    function SlotAt(slot: nat): nat { outgoing + slot * 8 }

    function SavedAt(index: nat): nat { outgoing + (slots + index) * 8 }

    function Size(): nat { AlignTo(outgoing + (slots + saved) * 8, 16) }
  }

  /** With room for the widest call, the stack words of any call stay clear of every
      local's slot and every saved register, which stay inside the frame and clear
      of each other. */
  lemma FrameIsDisjoint(f: FrameLayout, bytes: nat, words: seq<ArgWord>, k: nat, slot: nat, index: nat)
    requires f.outgoing == AlignTo(bytes, 16) && Stacked(A64, words) * 8 <= bytes
    requires k < |words| && PlaceOf(A64, words, k).Stack? && slot < f.slots && index < f.saved
    ensures var at := PlaceOf(A64, words, k).index * 8;
      at + 8 <= f.outgoing <= f.SlotAt(slot) < f.SlotAt(slot) + 8 <= f.SavedAt(index) < f.SavedAt(index) + 8 <= f.Size()
    ensures f.Size() % 16 == 0 && f.outgoing % 16 == 0
  {
    AlignTo16(bytes);
    AlignTo16(f.outgoing + (f.slots + f.saved) * 8);
    PlaceInArea(A64, words, k);
  }
}
