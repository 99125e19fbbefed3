/** Live intervals: for each local, the hull over one linear order of the
    positions where the local is live or mentioned. */
module Intervals {
  import opened Types
  import opened Mir
  import opened Cfg
  import opened Liveness

  datatype Interval = Interval(local: LocalId, start: nat, end: nat)

  const USIZE_MAX: nat := 0xFFFF_FFFF_FFFF_FFFF

  // ----- the linear order ---------------------------------------------------

  ghost predicate InRange(f: MirFunction, order: seq<BlockId>) {
    forall b: BlockId :: b in order ==> b < |f.blocks|
  }

  function Length(f: MirFunction, b: BlockId): nat {
    if b < |f.blocks| then |f.blocks[b].statements| + 1 else 0
  }

  /** The position of the first statement of the `k`th block of the order. */
  function BlockStart(f: MirFunction, order: seq<BlockId>, k: nat): nat
    requires k <= |order|
  {
    if k == 0 then 0 else BlockStart(f, order, k - 1) + Length(f, order[k - 1])
  }

  lemma {:induction false} BlockStartMonotone(f: MirFunction, order: seq<BlockId>, j: nat, k: nat)
    requires j <= k <= |order|
    ensures BlockStart(f, order, j) <= BlockStart(f, order, k)
    decreases k
  {
    if j < k {
      BlockStartMonotone(f, order, j, k - 1);
    }
  }

  /** Statements and terminators of different blocks have different positions, in order. */
  lemma PositionsDistinct(f: MirFunction, order: seq<BlockId>, j: nat, k: nat, a: nat, b: nat)
    requires j < k < |order| && order[j] < |f.blocks| && order[k] < |f.blocks|
    requires a <= |f.blocks[order[j]].statements| && b <= |f.blocks[order[k]].statements|
    ensures BlockStart(f, order, j) + a < BlockStart(f, order, k) + b
  {
    BlockStartMonotone(f, order, j + 1, k);
  }

  // ----- which positions are marked ------------------------------------------

  predicate Mentions(i: Instruction, l: LocalId) {
    ReadsLocal(i, l) || WritesLocal(i, l)
  }

  /** What one block, whose first statement is at `start`, marks. */
  ghost predicate BlockMarks(f: MirFunction, b: BlockId, start: nat, l: LocalId, p: nat)
    requires b < |f.blocks|
  {
    var terminator := start + |f.blocks[b].statements|;
    && l < |f.locals|
    && (|| (p == start && Live(f, b, l))
        || (p == terminator && LiveAfter(f, b, l))
        || MentionedAt(f.blocks[b].statements, start, |f.blocks[b].statements|, l, p)
        || (p == terminator && TerminatorReads(f.blocks[b].terminator, l)))
  }

  ghost predicate MarkedBy(f: MirFunction, order: seq<BlockId>, k: nat, l: LocalId, p: nat)
    requires k < |order| && InRange(f, order)
  {
    order[k] in order && BlockMarks(f, order[k], BlockStart(f, order, k), l, p)
  }

  ghost predicate IsMark(f: MirFunction, order: seq<BlockId>, upto: nat, l: LocalId, p: nat)
    requires upto <= |order| && InRange(f, order)
  {
    exists k: nat :: k < upto && MarkedBy(f, order, k, l, p)
  }

  /** The intervals are the hulls of the marks, one for each marked local, by local. */
  ghost predicate Hulls(f: MirFunction, order: seq<BlockId>, intervals: seq<Interval>)
    requires InRange(f, order)
  {
    ByLocal(intervals) && CoverMarks(f, order, intervals) && EndAtMarks(f, order, intervals)
  }

  ghost predicate ByLocal(intervals: seq<Interval>) {
    forall i, j :: 0 <= i < j < |intervals| ==> intervals[i].local < intervals[j].local
  }

  ghost predicate CoverMarks(f: MirFunction, order: seq<BlockId>, intervals: seq<Interval>)
    requires InRange(f, order)
  {
    forall l: LocalId, p: nat :: IsMark(f, order, |order|, l, p) ==> Covers(intervals, l, p)
  }

  ghost predicate EndAtMarks(f: MirFunction, order: seq<BlockId>, intervals: seq<Interval>)
    requires InRange(f, order)
  {
    forall i :: 0 <= i < |intervals| ==>
      && intervals[i].start <= intervals[i].end
      && IsMark(f, order, |order|, intervals[i].local, intervals[i].start)
      && IsMark(f, order, |order|, intervals[i].local, intervals[i].end)
  }

  ghost predicate Covers(intervals: seq<Interval>, l: LocalId, p: nat) {
    exists i :: 0 <= i < |intervals| && intervals[i].local == l && intervals[i].start <= p <= intervals[i].end
  }

  // ----- every point where a local is live is covered -----------------------

  lemma {:induction false} LiveComesFrom(block: BasicBlock, i: nat, out: bool, l: LocalId)
    requires i <= |block.statements| && LiveBefore(block, i, out, l)
    ensures LiveBefore(block, 0, out, l) || exists j :: 0 <= j < i && Defs(block.statements[j]) == Some(l)
    decreases i
  {
    if i > 0 && Defs(block.statements[i - 1]) != Some(l) {
      LiveComesFrom(block, i - 1, out, l);
    }
  }

  lemma {:induction false} LiveLeadsTo(block: BasicBlock, i: nat, out: bool, l: LocalId)
    requires i <= |block.statements| && LiveBefore(block, i, out, l)
    ensures out || l in TerminatorUses(block.terminator)
         || exists j :: i <= j < |block.statements| && l in Uses(block.statements[j])
    decreases |block.statements| - i
  {
    if i < |block.statements| && l !in Uses(block.statements[i]) {
      LiveLeadsTo(block, i + 1, out, l);
    }
  }

  lemma CoveredBetween(f: MirFunction, order: seq<BlockId>, intervals: seq<Interval>,
                       l: LocalId, low: nat, p: nat, high: nat)
    requires InRange(f, order) && Hulls(f, order, intervals)
    requires low <= p <= high
    requires IsMark(f, order, |order|, l, low) && IsMark(f, order, |order|, l, high)
    ensures Covers(intervals, l, p)
  {
    hide IsMark, EndAtMarks;
    assert Covers(intervals, l, low) && Covers(intervals, l, high);
    var i :| 0 <= i < |intervals| && intervals[i].local == l && intervals[i].start <= low <= intervals[i].end;
    var j :| 0 <= j < |intervals| && intervals[j].local == l && intervals[j].start <= high <= intervals[j].end;
    assert i == j;
  }

  lemma MarkOf(f: MirFunction, order: seq<BlockId>, k: nat, l: LocalId, p: nat)
    requires InRange(f, order) && k < |order|
    requires order[k] in order && BlockMarks(f, order[k], BlockStart(f, order, k), l, p)
    ensures IsMark(f, order, |order|, l, p)
  {
    assert MarkedBy(f, order, k, l, p);
  }

  lemma MarkNoLater(f: MirFunction, order: seq<BlockId>, k: nat, i: nat, l: LocalId) returns (low: nat)
    requires InRange(f, order) && k < |order| && l < |f.locals| && order[k] < |f.blocks|
    requires i <= |f.blocks[order[k]].statements|
    requires LiveBefore(f.blocks[order[k]], i, LiveAfter(f, order[k], l), l)
    ensures low <= BlockStart(f, order, k) + i && IsMark(f, order, |order|, l, low)
  {
    hide IsMark, Live, LiveAfter, BlockStart, LiveBefore;
    var b := order[k];
    assert b in order;
    LiveComesFrom(f.blocks[b], i, LiveAfter(f, b, l), l);
    low := BlockStart(f, order, k);
    if LiveBefore(f.blocks[b], 0, LiveAfter(f, b, l), l) {
      LiveInIsTransfer(f, b, l);
    } else {
      var j: nat :| j < i && Defs(f.blocks[b].statements[j]) == Some(l);
      low := low + j;
    }
    MarkOf(f, order, k, l, low);
  }

  lemma MarkNoEarlier(f: MirFunction, order: seq<BlockId>, k: nat, i: nat, l: LocalId) returns (high: nat)
    requires InRange(f, order) && k < |order| && l < |f.locals| && order[k] < |f.blocks|
    requires i <= |f.blocks[order[k]].statements|
    requires LiveBefore(f.blocks[order[k]], i, LiveAfter(f, order[k], l), l)
    ensures high >= BlockStart(f, order, k) + i && IsMark(f, order, |order|, l, high)
  {
    hide IsMark, Live, LiveAfter, BlockStart, LiveBefore;
    var b := order[k];
    assert b in order;
    LiveLeadsTo(f.blocks[b], i, LiveAfter(f, b, l), l);
    if LiveAfter(f, b, l) || l in TerminatorUses(f.blocks[b].terminator) {
      high := BlockStart(f, order, k) + |f.blocks[b].statements|;
    } else {
      var j: nat :| i <= j < |f.blocks[b].statements| && l in Uses(f.blocks[b].statements[j]);
      high := BlockStart(f, order, k) + j;
    }
    MarkOf(f, order, k, l, high);
  }

  /** The claim of the interval construction: wherever a local is live, whatever
      the block, the position lies inside the local's interval. */
  lemma LivePointCovered(f: MirFunction, order: seq<BlockId>, intervals: seq<Interval>,
                         k: nat, i: nat, l: LocalId)
    requires InRange(f, order) && Hulls(f, order, intervals)
    requires k < |order| && l < |f.locals| && order[k] < |f.blocks|
    requires i <= |f.blocks[order[k]].statements|
    requires LiveBefore(f.blocks[order[k]], i, LiveAfter(f, order[k], l), l)
    ensures Covers(intervals, l, BlockStart(f, order, k) + i)
  {
    hide *;
    var low := MarkNoLater(f, order, k, i, l);
    var high := MarkNoEarlier(f, order, k, i, l);
    CoveredBetween(f, order, intervals, l, low, BlockStart(f, order, k) + i, high);
  }

  /** Path liveness obeys the transfer equation. */
  lemma LiveInIsTransfer(f: MirFunction, b: BlockId, l: LocalId)
    requires b < |f.blocks|
    ensures Live(f, b, l) <==> LiveBefore(f.blocks[b], 0, LiveAfter(f, b, l), l)
  {
    var out := LiveAfter(f, b, l);
    TransferMeaning(f.blocks[b], out, l);
    if Live(f, b, l) {
      var p :| LivePath(f, p, b, l);
      if |p| > 1 {
        assert !Writes(f.blocks[p[0]], l);
        assert LivePath(f, p[1..], p[1], l) by {
          forall k | 0 <= k < |p| - 2 ensures !Writes(f.blocks[p[1..][k]], l) {
            assert !Writes(f.blocks[p[k + 1]], l);
          }
        }
        assert Edge(f, b, p[1]) && Live(f, p[1], l);
      }
    }
    if ReadsFirst(f.blocks[b], l) {
      assert LivePath(f, [b], b, l);
    }
    if out && !Writes(f.blocks[b], l) {
      var s: BlockId :| Edge(f, b, s) && Live(f, s, l);
      ExtendPath(f, b, s, l);
    }
  }

  /** An instruction's own operands are covered at its position. */
  lemma MentionCovered(f: MirFunction, order: seq<BlockId>, intervals: seq<Interval>,
                       k: nat, i: nat, l: LocalId)
    requires InRange(f, order) && Hulls(f, order, intervals)
    requires k < |order| && l < |f.locals| && order[k] < |f.blocks|
    requires i < |f.blocks[order[k]].statements| && Mentions(f.blocks[order[k]].statements[i], l)
    ensures Covers(intervals, l, BlockStart(f, order, k) + i)
  {
    hide IsMark, Live, LiveAfter, Covers, BlockStart;
    assert order[k] in order;
    MarkOf(f, order, k, l, BlockStart(f, order, k) + i);
  }

  // ----- the loops ----------------------------------------------------------

  /** First and last position at which each local is mentioned. */
  class Ranges {
    var first: seq<nat>
    var last: seq<nat>
    var seen: seq<bool>
    /** Every (local, position) pair marked so far. */
    ghost var marks: set<(LocalId, nat)>

    ghost predicate Valid()
      reads this
    {
      && |first| == |last| == |seen|
      && (forall l: LocalId, p: nat :: (l, p) in marks ==> l < |seen| && seen[l] && first[l] <= p <= last[l])
      && (forall l: LocalId :: l < |seen| ==>
            if seen[l] then (l, first[l]) in marks && (l, last[l]) in marks
            else first[l] == USIZE_MAX && last[l] == 0)
    }

    constructor (locals: nat)
      ensures Valid() && marks == {} && |seen| == locals
    {
      first := seq(locals, _ => USIZE_MAX);
      last := seq(locals, _ => 0);
      seen := seq(locals, _ => false);
      marks := {};
    }

    method Mark(local: LocalId, at: nat)
      requires Valid() && at <= USIZE_MAX
      modifies this
      ensures Valid() && |seen| == old(|seen|)
      ensures marks == old(marks) + if local < |seen| then {(local, at)} else {}
    {
      if local >= |seen| {
        return;
      }
      seen := seen[local := true];
      first := first[local := if at < first[local] then at else first[local]];
      last := last[local := if at > last[local] then at else last[local]];
      marks := marks + {(local, at)};
    }

    method MarkAll(locals: seq<LocalId>, at: nat)
      requires Valid() && at <= USIZE_MAX
      modifies this
      ensures Valid() && |seen| == old(|seen|)
      ensures forall l: LocalId, p: nat ::
        (l, p) in marks <==> (l, p) in old(marks) || (p == at && l < |seen| && l in locals)
    {
      for k := 0 to |locals|
        invariant Valid() && |seen| == old(|seen|)
        invariant forall l: LocalId, p: nat ::
          (l, p) in marks <==> (l, p) in old(marks) || (p == at && l < |seen| && l in locals[..k])
      {
        Mark(locals[k], at);
      }
    }

    method MarkLive(live: Liveness, block: BlockId, start: nat, terminator: nat)
      requires Valid() && start <= terminator <= USIZE_MAX
      modifies this
      ensures Valid() && |seen| == old(|seen|)
      ensures forall l: LocalId, p: nat ::
        (l, p) in marks <==>
            ((l, p) in old(marks) ||
             (l < |seen| && ((p == start && live.IsLiveIn(block, l)) || (p == terminator && live.IsLiveOut(block, l)))))
    {
      for local := 0 to |seen|
        invariant Valid() && |seen| == old(|seen|)
        invariant forall l: LocalId, p: nat ::
          (l, p) in marks <==>
            ((l, p) in old(marks) ||
             (l < local && ((p == start && live.IsLiveIn(block, l)) || (p == terminator && live.IsLiveOut(block, l)))))
      {
        if live.IsLiveIn(block, local) {
          Mark(local, start);
        }
        if live.IsLiveOut(block, local) {
          Mark(local, terminator);
        }
      }
    }

    /** What one instruction reads, then what it writes. */
    method MarkInstruction(instruction: Instruction, at: nat)
      requires Valid() && at <= USIZE_MAX
      modifies this
      ensures Valid() && |seen| == old(|seen|)
      ensures forall l: LocalId, p: nat ::
        (l, p) in marks <==> ((l, p) in old(marks) || (p == at && l < |seen| && Mentions(instruction, l)))
    {
      MarkAll(Uses(instruction), at);
      if Defs(instruction).Some? {
        Mark(Defs(instruction).value, at);
      }
    }

    /** The statements of one block, from position `start` on. */
    method MarkStatements(statements: seq<Instruction>, start: nat)
      requires Valid() && start + |statements| <= USIZE_MAX
      modifies this
      ensures Valid() && |seen| == old(|seen|)
      ensures forall l: LocalId, p: nat ::
        (l, p) in marks <==>
          (l, p) in old(marks) || (l < |seen| && MentionedAt(statements, start, |statements|, l, p))
    {
      hide Valid;
      var at := start;
      for i := 0 to |statements|
        invariant Valid() && |seen| == old(|seen|) && at == start + i
        invariant forall l: LocalId, p: nat ::
          (l, p) in marks <==> ((l, p) in old(marks) || (l < |seen| && MentionedAt(statements, start, i, l, p)))
      {
        MentionedNext(statements, start, i);
        hide MentionedAt;
        MarkInstruction(statements[i], at);
        at := at + 1;
      }
    }
  }

  /** The statement at position `p`, one of the first `n`, mentions `l`. */
  ghost predicate MentionedAt(statements: seq<Instruction>, start: nat, n: nat, l: LocalId, p: nat)
    requires n <= |statements|
  {
    start <= p < start + n && Mentions(statements[p - start], l)
  }

  lemma MentionedNext(statements: seq<Instruction>, start: nat, i: nat)
    requires i < |statements|
    ensures forall l: LocalId, p: nat :: MentionedAt(statements, start, i + 1, l, p) <==>
              (MentionedAt(statements, start, i, l, p) || (p == start + i && Mentions(statements[i], l)))
  {
    forall l: LocalId, p: nat
      ensures MentionedAt(statements, start, i + 1, l, p) <==>
              (MentionedAt(statements, start, i, l, p) || (p == start + i && Mentions(statements[i], l)))
    {
      if p == start + i {
        assert statements[p - start] == statements[i];
      }
    }
  }

  method MarkBlock(f: MirFunction, live: Liveness, order: seq<BlockId>, k: nat, range: Ranges, start: nat)
    requires InRange(f, order) && Exact(f, live, order)
    requires k < |order| && start == BlockStart(f, order, k)
    requires start + Length(f, order[k]) <= USIZE_MAX
    requires range.Valid() && |range.seen| == |f.locals|
    modifies range
    ensures range.Valid() && |range.seen| == |f.locals|
    ensures forall l: LocalId, p: nat ::
      (l, p) in range.marks <==> (l, p) in old(range.marks) || MarkedBy(f, order, k, l, p)
  {
    var block := order[k];
    assert block in order;
    var terminator := start + |f.blocks[block].statements|;
    range.MarkLive(live, block, start, terminator);
    range.MarkStatements(f.blocks[block].statements, start);
    range.MarkAll(TerminatorUses(f.blocks[block].terminator), terminator);
    hide Live, LiveAfter, MentionedAt;
    assert forall l: LocalId :: l < |f.locals| ==> (live.IsLiveIn(block, l) <==> Live(f, block, l));
    assert forall l: LocalId :: l < |f.locals| ==> (live.IsLiveOut(block, l) <==> LiveAfter(f, block, l));
    assert forall l: LocalId, p: nat ::
        (l, p) in range.marks <==> ((l, p) in old(range.marks) || BlockMarks(f, block, start, l, p));
    hide BlockMarks;
  }

  lemma MarksGrow(f: MirFunction, order: seq<BlockId>, k: nat)
    requires InRange(f, order) && k < |order|
    ensures forall l: LocalId, p: nat ::
      IsMark(f, order, k + 1, l, p) <==> IsMark(f, order, k, l, p) || MarkedBy(f, order, k, l, p)
  {
    hide MarkedBy;
    forall l: LocalId, p: nat
      ensures IsMark(f, order, k + 1, l, p) <==> IsMark(f, order, k, l, p) || MarkedBy(f, order, k, l, p)
    {
      if IsMark(f, order, k + 1, l, p) {
        var j: nat :| j < k + 1 && MarkedBy(f, order, j, l, p);
      }
    }
  }

  method LiveIntervals(f: MirFunction, cfg: Cfg) returns (intervals: seq<Interval>)
    requires Describes(f, cfg)
    requires BlockStart(f, cfg.reversePostorder, |cfg.reversePostorder|) <= USIZE_MAX
    ensures InRange(f, cfg.reversePostorder) && Hulls(f, cfg.reversePostorder, intervals)
  {
    var live := Analyze(f, cfg);
    var order := cfg.reversePostorder;
    var range := new Ranges(|f.locals|);
    assert InRange(f, order);
    hide Describes, Exact, MarkedBy;
    var at := 0;
    for k := 0 to |order|
      invariant range.Valid() && |range.seen| == |f.locals|
      invariant at == BlockStart(f, order, k)
      invariant fresh(range)
      invariant forall l: LocalId, p: nat :: (l, p) in range.marks <==> IsMark(f, order, k, l, p)
    {
      BlockStartMonotone(f, order, k + 1, |order|);
      MarksGrow(f, order, k);
      MarkBlock(f, live, order, k, range, at);
      at := at + Length(f, order[k]);
    }
    intervals := Collect(range);
    HullsOfMarks(f, order, range.marks, intervals);
  }

  /** The seen locals in increasing order, each with its range. */
  method Collect(range: Ranges) returns (intervals: seq<Interval>)
    requires range.Valid()
    ensures HullsOf(range.marks, intervals)
  {
    intervals := [];
    for local := 0 to |range.seen|
      invariant forall i, j :: 0 <= i < j < |intervals| ==> intervals[i].local < intervals[j].local
      invariant forall i :: 0 <= i < |intervals| ==>
        && intervals[i].local < local && range.seen[intervals[i].local]
        && intervals[i].start == range.first[intervals[i].local]
        && intervals[i].end == range.last[intervals[i].local]
      invariant forall l: LocalId :: l < local && range.seen[l] ==> HasInterval(intervals, l)
    {
      if range.seen[local] {
        ghost var before := intervals;
        intervals := intervals + [Interval(local, range.first[local], range.last[local])];
        assert intervals[|before|].local == local;
        forall l: LocalId | HasInterval(before, l) ensures HasInterval(intervals, l) {
          var i :| 0 <= i < |before| && before[i].local == l;
          assert intervals[i].local == l;
        }
        assert HasInterval(intervals, local);
      }
    }
    forall l: LocalId, p: nat | (l, p) in range.marks ensures Covers(intervals, l, p) {
      assert HasInterval(intervals, l);
      var i :| 0 <= i < |intervals| && intervals[i].local == l;
    }
  }

  ghost predicate HasInterval(intervals: seq<Interval>, l: LocalId) {
    exists i :: 0 <= i < |intervals| && intervals[i].local == l
  }

  ghost predicate HullsOf(marks: set<(LocalId, nat)>, intervals: seq<Interval>) {
    && ByLocal(intervals)
    && (forall l: LocalId, p: nat :: (l, p) in marks ==> Covers(intervals, l, p))
    && (forall i :: 0 <= i < |intervals| ==>
          && intervals[i].start <= intervals[i].end
          && (intervals[i].local, intervals[i].start) in marks
          && (intervals[i].local, intervals[i].end) in marks)
  }

  lemma HullsOfMarks(f: MirFunction, order: seq<BlockId>, marks: set<(LocalId, nat)>, intervals: seq<Interval>)
    requires InRange(f, order) && HullsOf(marks, intervals)
    requires forall l: LocalId, p: nat :: (l, p) in marks <==> IsMark(f, order, |order|, l, p)
    ensures Hulls(f, order, intervals)
  {
    hide IsMark, Covers;
  }
}
