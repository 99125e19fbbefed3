/** The two back ends agree on integer operators. */
module TwoMachines {
  import opened Types
  import M = Mir
  import opened RegAlloc
  import opened Words
  import opened IntSpec
  import C = Code
  import X = X86Arith
  import A = A64Arith

  /** What a run leaves in the destination, or where it stopped. */
  function Seen<S>(r: C.Result<S>, read: S -> Word): Option<Outcome> {
    match r
    case Ended(s) => Some(Gives(read(s)))
    case Stopped(trap) => Some(Traps(trap))
    case Faulted => None
  }

  /** From equal operands, the two programs stop with the same trap or leave the
      same word, wherever each allocation put the three locals; `%` asks that its
      AArch64 dividend be in a register. */
  lemma MachinesAgree(place: X.Place, f: A.Frame, dst: M.LocalId, op: M.BinaryOp, lhs: M.LocalId, rhs: M.LocalId,
                      kind: IntKind, x: X.State, a: A.State)
    requires X.CanonicalLocals(place, lhs, rhs, kind, x) && A.CanonicalLocals(f, lhs, rhs, kind, a)
    requires X.CellOf(x, place(lhs)) == A.CellOf(f, a, f.place(lhs))
    requires X.CellOf(x, place(rhs)) == A.CellOf(f, a, f.place(rhs))
    requires A.Reaches(f, f.place(dst))
    requires op == M.Rem ==> f.place(lhs).Register?
    ensures var ran := X.Exec(X.IntegerBinary(place, dst, op, lhs, rhs, kind), 0, x);
      var ran' := A.Exec(A.IntegerBinary(f, dst, op, lhs, rhs, kind), 0, a);
      && Seen(ran, s => X.CellOf(s, place(dst))) == Seen(ran', s => A.CellOf(f, s, f.place(dst)))
      && Seen(ran, s => X.CellOf(s, place(dst))).Some?
  {
    X.IntegerBinaryCorrect(place, dst, op, lhs, rhs, kind, x);
    A.IntegerBinaryCorrect(f, dst, op, lhs, rhs, kind, a);
    var outcome := Meaning(op, kind, X.CellOf(x, place(lhs)), X.CellOf(x, place(rhs)));
    var code := A.IntegerBinary(f, dst, op, lhs, rhs, kind);
    assert kind.Valid();
    hide X.IntegerBinary, A.IntegerBinary, X.Exec, A.Exec, Meaning, Words.Canonical, A.CanonicalLocals, Words.Wrap;
    if outcome.Gives? {
      A.OthersKept(f, a, f.place(dst), outcome.word, A.Exec(code, 0, a).state, f.place(dst));
    }
  }
}
