/** Running a piece of emitted code: instructions one after another, forward
    jumps to the next `1:` label, and traps that leave for a trampoline. */
module Code {
  import opened IntSpec

  datatype Step<+S> = Next(state: S) | Stop(trap: Trap) | Fault

  datatype Result<+S> = Ended(state: S) | Stopped(trap: Trap) | Faulted

  /** `skips` marks a jump to the next label, `taken` says when it goes there, and
      `step` is what everything else does. */
  datatype Machine<!I, !S> = Machine(
    step: (I, S) -> Step<S>,
    skips: I -> bool,
    taken: (I, S) -> bool,
    isLabel: I -> bool)

  function AfterLabel<I, S>(m: Machine<I, S>, code: seq<I>, pc: nat): (n: nat)
    ensures pc <= |code| ==> pc <= n <= |code|
    decreases |code| - pc
  {
    if pc >= |code| then |code| else if m.isLabel(code[pc]) then pc else AfterLabel(m, code, pc + 1)
  }

  function Exec<I, S>(m: Machine<I, S>, code: seq<I>, pc: nat, s: S): Result<S>
    decreases |code| - pc
  {
    if pc >= |code| then Ended(s)
    else if m.skips(code[pc]) && m.taken(code[pc], s) then Exec(m, code, AfterLabel(m, code, pc + 1), s)
    else
      match m.step(code[pc], s)
      case Next(t) => Exec(m, code, pc + 1, t)
      case Stop(trap) => Stopped(trap)
      case Fault => Faulted
  }

  /** Every forward jump has its label in the same piece of code. */
  ghost predicate Closed<I, S>(m: Machine<I, S>, code: seq<I>) {
    forall i :: 0 <= i < |code| && m.skips(code[i]) ==> AfterLabel(m, code, i + 1) < |code|
  }

  /** Code run after other code. */
  function Then<I, S>(m: Machine<I, S>, r: Result<S>, code: seq<I>): Result<S> {
    match r
    case Ended(s) => Exec(m, code, 0, s)
    case _ => r
  }

  lemma {:induction false} LabelInFront<I, S>(m: Machine<I, S>, a: seq<I>, b: seq<I>, pc: nat)
    requires pc <= |a| && AfterLabel(m, a, pc) < |a|
    ensures AfterLabel(m, a + b, pc) == AfterLabel(m, a, pc)
    decreases |a| - pc
  {
    assert (a + b)[pc] == a[pc];
    if !m.isLabel(a[pc]) { LabelInFront(m, a, b, pc + 1); }
  }

  lemma {:induction false} LabelBehind<I, S>(m: Machine<I, S>, a: seq<I>, b: seq<I>, pc: nat)
    requires pc <= |b|
    ensures AfterLabel(m, a + b, |a| + pc) == |a| + AfterLabel(m, b, pc)
    decreases |b| - pc
  {
    if pc < |b| {
      assert (a + b)[|a| + pc] == b[pc];
      if !m.isLabel(b[pc]) { LabelBehind(m, a, b, pc + 1); }
    }
  }

  lemma ClosedConcat<I, S>(m: Machine<I, S>, a: seq<I>, b: seq<I>)
    requires Closed(m, a) && Closed(m, b)
    ensures Closed(m, a + b)
  {
    hide AfterLabel;
    forall i | 0 <= i < |a + b| && m.skips((a + b)[i]) ensures AfterLabel(m, a + b, i + 1) < |a + b| {
      if i < |a| {
        assert a[i] == (a + b)[i];
        LabelInFront(m, a, b, i + 1);
      } else {
        assert b[i - |a|] == (a + b)[i];
        LabelBehind(m, a, b, i - |a| + 1);
      }
    }
  }

  lemma {:induction false} ExecBehind<I, S>(m: Machine<I, S>, a: seq<I>, b: seq<I>, pc: nat, s: S)
    requires pc <= |b|
    ensures Exec(m, a + b, |a| + pc, s) == Exec(m, b, pc, s)
    decreases |b| - pc
  {
    if pc < |b| {
      assert (a + b)[|a| + pc] == b[pc];
      if m.skips(b[pc]) && m.taken(b[pc], s) {
        LabelBehind(m, a, b, pc + 1);
        ExecBehind(m, a, b, AfterLabel(m, b, pc + 1), s);
      } else if m.step(b[pc], s).Next? {
        ExecBehind(m, a, b, pc + 1, m.step(b[pc], s).state);
      }
    }
  }

  /** Running `a + b` is running `a`, and then `b` when `a` falls off its end. */
  lemma {:induction false} ExecConcat<I, S>(m: Machine<I, S>, a: seq<I>, b: seq<I>, pc: nat, s: S)
    requires pc <= |a| && Closed(m, a)
    ensures Exec(m, a + b, pc, s) == Then(m, Exec(m, a, pc, s), b)
    decreases |a| - pc
  {
    if pc == |a| {
      ExecBehind(m, a, b, 0, s);
    } else {
      assert (a + b)[pc] == a[pc];
      if m.skips(a[pc]) && m.taken(a[pc], s) {
        LabelInFront(m, a, b, pc + 1);
        ExecConcat(m, a, b, AfterLabel(m, a, pc + 1), s);
      } else if m.step(a[pc], s).Next? {
        ExecConcat(m, a, b, pc + 1, m.step(a[pc], s).state);
      }
    }
  }
}
