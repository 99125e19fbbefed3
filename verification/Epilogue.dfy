/** Returning: the callee-saved registers, the frame pointer and the stack pointer come
    back as the caller left them, whatever the body did to the rest of the frame. */
module Epilogue {
  import M = Mir
  import A64Arith
  import opened RegAlloc
  import opened Convention
  import opened Marshal

  // ----- where registers are saved --------------------------------------------------------

  function SaveAddress(g: Callee, s: State, i: nat): int {
    if g.frame.arch.X86? then s.fp - (g.slots + i + 1) * 8 else s.sp + g.frame.slotBase + (g.slots + i) * 8
  }

  function HomeAddress(g: Callee, s: State, l: LocalId): int
    requires g.frame.place(l).Memory?
  {
    BaseOf(s, HomeOf(g.frame, l).base) + HomeOf(g.frame, l).disp
  }

  /** The frame of an AArch64 function is one layout: where arithmetic, calls and the
      prologue keep slots and saved registers. */
  lemma SlotsAgree(place: LocalId -> Location, slots: nat, base: nat, saved: seq<nat>, l: LocalId, i: nat, s: State)
    requires place(l).Memory?
    ensures var g, layout := Callee(Frame(A64, place, base), slots, saved), FrameLayout(base, slots, |saved|);
      && HomeAddress(g, s, l) == s.sp + layout.SlotAt(place(l).slot)
      && layout.SlotAt(place(l).slot) == A64Arith.SlotOffset(A64Arith.Frame(place, base), place(l).slot)
      && SaveAddress(g, s, i) == s.sp + layout.SavedAt(i) && FrameBytes(g) == layout.Size()
  {
  }

  predicate ApartBytes(a: int, b: int) {
    a + 8 <= b || b + 8 <= a
  }

  /** A saved register has a word of the frame to itself: clear of every local's slot, of
      every other saved register, and of the outgoing stack words. */
  lemma SavedApart(g: Callee, s: State, l: LocalId, i: nat, j: nat)
    requires s.sp == s.fp - FrameBytes(g) && i < |g.saved| && j < |g.saved| && i != j
    requires g.frame.place(l).Memory? && g.frame.place(l).slot < g.slots
    ensures var kept := SaveAddress(g, s, i);
      && s.sp <= kept && kept + 8 <= s.fp && (g.frame.arch.A64? ==> s.sp + g.frame.slotBase <= kept)
      && ApartBytes(kept, HomeAddress(g, s, l)) && ApartBytes(kept, SaveAddress(g, s, j))
  {
    FrameHolds(g);
    hide FrameBytes;
  }

  lemma SaveInFrame(g: Callee, s: State, i: nat)
    requires s.sp == s.fp - FrameBytes(g) && i < |g.saved|
    ensures s.sp <= SaveAddress(g, s, i) && SaveAddress(g, s, i) + 8 <= s.fp
  {
    FrameHolds(g);
    hide FrameBytes;
  }

  // ----- saving ------------------------------------------------------------------------------

  /** The first `n` saved registers are in their words. */
  ghost predicate InWords(g: Callee, s: State, t: State, n: nat)
    requires n <= |g.saved|
  {
    forall i: nat :: i < n ==> MemAt(t, SaveAddress(g, t, i)) == Get(s, Held(g.saved[i]))
  }

  lemma SaveOne(g: Callee, i: nat, s: State)
    requires i < |g.saved|
    ensures Step(Mov(SaveSlot(g, i), R(Held(g.saved[i]))), s)
         == SetMem(s, SaveAddress(g, s, i), Get(s, Held(g.saved[i])))
  {
  }

  lemma {:induction false} SavesEach(g: Callee, n: nat, s: State)
    requires n <= |g.saved| && s.sp == s.fp - FrameBytes(g)
    ensures var t := Exec(SaveCode(g, n), s);
      && t.sp == s.sp && t.fp == s.fp && t.regs == s.regs && InWords(g, s, t, n)
      && forall a :: a >= s.fp ==> MemAt(t, a) == MemAt(s, a)
    decreases n
  {
    hide Exec, FrameBytes;
    if n == 0 {
      ExecNothing(s);
    } else {
      var front, last := SaveCode(g, n - 1), Mov(SaveSlot(g, n - 1), R(Held(g.saved[n - 1])));
      SavesEach(g, n - 1, s);
      var t := Exec(front, s);
      assert SaveCode(g, n) == front + [last];
      ExecAppend(front, [last], s);
      Exec1(last, t);
      SaveOne(g, n - 1, t);
      SaveInFrame(g, t, n - 1);
      var u := Step(last, t);
      forall i: nat | i < n ensures MemAt(u, SaveAddress(g, u, i)) == Get(s, Held(g.saved[i])) {
        assert SaveAddress(g, u, i) == SaveAddress(g, t, i);
      }
    }
  }

  // ----- restoring ---------------------------------------------------------------------------

  function RestoreCode(g: Callee, n: nat): seq<Inst>
    requires n <= |g.saved|
  {
    if n == 0 then [] else RestoreCode(g, n - 1) + [Mov(R(Held(g.saved[n - 1])), SaveSlot(g, n - 1))]
  }

  /** The end of a function, before the return itself. */
  function ExitCode(g: Callee): seq<Inst> {
    RestoreCode(g, |g.saved|) + [SpFromFp, if g.frame.arch.X86? then PopFp else PopRecord]
  }

  ghost predicate SavedOnce(g: Callee) {
    forall i, j :: 0 <= i < j < |g.saved| ==> g.saved[i] != g.saved[j]
  }

  /** The first `n` saved registers hold their words again, and nothing else changed. */
  ghost predicate FromWords(g: Callee, s: State, t: State, n: nat)
    requires n <= |g.saved|
  {
    && t.sp == s.sp && t.fp == s.fp && t.mem == s.mem
    && (forall i: nat :: i < n ==> Get(t, Held(g.saved[i])) == MemAt(s, SaveAddress(g, s, i)))
    && (forall r: Reg :: (forall i: nat :: i < n ==> r != Held(g.saved[i])) ==> Get(t, r) == Get(s, r))
  }

  lemma RestoreOne(g: Callee, i: nat, s: State)
    requires i < |g.saved|
    ensures Step(Mov(R(Held(g.saved[i])), SaveSlot(g, i)), s)
         == SetReg(s, Held(g.saved[i]), MemAt(s, SaveAddress(g, s, i)))
  {
  }

  lemma {:induction false} RestoresEach(g: Callee, n: nat, s: State)
    requires n <= |g.saved| && SavedOnce(g)
    ensures FromWords(g, s, Exec(RestoreCode(g, n), s), n)
    decreases n
  {
    hide Exec, SetReg;
    if n == 0 {
      ExecNothing(s);
    } else {
      var front, last := RestoreCode(g, n - 1), Mov(R(Held(g.saved[n - 1])), SaveSlot(g, n - 1));
      RestoresEach(g, n - 1, s);
      var t := Exec(front, s);
      assert RestoreCode(g, n) == front + [last];
      ExecAppend(front, [last], s);
      Exec1(last, t);
      RestoreOne(g, n - 1, t);
      var u := Step(last, t);
      forall r: Reg | forall i: nat :: i < n ==> r != Held(g.saved[i]) ensures Get(u, r) == Get(s, r) {
        assert r != Held(g.saved[n - 1]);
      }
    }
  }

  // ----- both ends of a function ----------------------------------------------------------------

  /** What the body has to leave alone: the frame pointer and the stack pointer, the two
      words of the frame record, and the words of the saved registers. */
  ghost predicate FrameKept(g: Callee, t: State, u: State) {
    && u.fp == t.fp && u.sp == t.sp
    && MemAt(u, t.fp) == MemAt(t, t.fp) && MemAt(u, t.fp + 8) == MemAt(t, t.fp + 8)
    && forall i: nat :: i < |g.saved| ==> MemAt(u, SaveAddress(g, u, i)) == MemAt(t, SaveAddress(g, t, i))
  }

  /** The frame record holds the caller's frame pointer and where to return to. */
  lemma RecordHeld(g: Callee, link: int, s: State)
    requires s.sp % 16 == 0
    ensures var t := Exec(EntryCode(g, link), s);
      && t.fp == s.sp - 16 && t.sp == t.fp - FrameBytes(g) && t.regs == s.regs
      && MemAt(t, t.fp) == s.fp && MemAt(t, t.fp + 8) == link && InWords(g, s, t, |g.saved|)
  {
    hide *;
    var s3 := EntrySteps(g, link, s);
    SavesEach(g, |g.saved|, s3);
    SameRegisters(g, s, s3, Exec(SaveCode(g, |g.saved|), s3));
  }

  lemma SameRegisters(g: Callee, s: State, s3: State, t: State)
    requires s3.regs == s.regs && InWords(g, s3, t, |g.saved|)
    ensures InWords(g, s, t, |g.saved|)
  {
  }

  /** A call gives the caller back its frame pointer, its stack pointer, the word to
      return to and every register the callee saved, and touches no other register:
      x86-64 returns by popping that word, AArch64 has it in the link register. */
  lemma CallPreserves(g: Callee, link: int, s: State, u: State)
    requires s.sp % 16 == 0 && SavedOnce(g)
    requires FrameKept(g, Exec(EntryCode(g, link), s), u)
    ensures var v := Exec(ExitCode(g), u);
      && v.fp == s.fp && v.mem == u.mem && MemAt(v, s.sp - 8) == link
      && v.sp == (if g.frame.arch.X86? then s.sp - 8 else s.sp)
      && (forall i: nat :: i < |g.saved| ==> Get(v, Held(g.saved[i])) == Get(s, Held(g.saved[i])))
      && (forall r: Reg :: (forall i: nat :: i < |g.saved| ==> r != Held(g.saved[i])) ==> Get(v, r) == Get(u, r))
  {
    hide Exec, EntryCode, RestoreCode, FrameBytes, SaveCode;
    RecordHeld(g, link, s);
    var t := Exec(EntryCode(g, link), s);
    RestoresEach(g, |g.saved|, u);
    var w := Exec(RestoreCode(g, |g.saved|), u);
    var pop := if g.frame.arch.X86? then PopFp else PopRecord;
    ExecAppend(RestoreCode(g, |g.saved|), [SpFromFp, pop], u);
    Exec2(SpFromFp, pop, w);
    assert MemAt(u, t.fp + 8) == link && t.fp + 8 == s.sp - 8;
  }
}
