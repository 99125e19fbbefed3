/** Backward liveness dataflow: per-block live-in and live-out sets, and the
    proof that the loop ends with exactly the locals some path still reads. */
module Liveness {
  import opened Types
  import opened Mir
  import opened Cfg

  datatype Liveness = Liveness(liveIn: seq<seq<bool>>, liveOut: seq<seq<bool>>) {
    predicate IsLiveIn(block: BlockId, local: LocalId) {
      Lookup(liveIn, block, local)
    }

    predicate IsLiveOut(block: BlockId, local: LocalId) {
      Lookup(liveOut, block, local)
    }
  }

  predicate Lookup(sets: seq<seq<bool>>, block: BlockId, local: LocalId) {
    block < |sets| && local < |sets[block]| && sets[block][local]
  }

  // ----- what liveness means: paths ----------------------------------------

  predicate WrittenBefore(block: BasicBlock, i: nat, l: LocalId)
    requires i <= |block.statements|
  {
    exists j :: 0 <= j < i && WritesLocal(block.statements[j], l)
  }

  predicate ReadAt(block: BasicBlock, i: nat, l: LocalId)
    requires i <= |block.statements|
  {
    if i < |block.statements| then ReadsLocal(block.statements[i], l)
    else TerminatorReads(block.terminator, l)
  }

  /** The block reads `l` at a point no write of `l` in the block precedes. */
  ghost predicate ReadsFirst(block: BasicBlock, l: LocalId) {
    exists i :: 0 <= i <= |block.statements| && ReadAt(block, i, l) && !WrittenBefore(block, i, l)
  }

  ghost predicate Writes(block: BasicBlock, l: LocalId) {
    WrittenBefore(block, |block.statements|, l)
  }

  /** `p` runs from the start of `b` through blocks that do not write `l` to
      one that reads it first. */
  ghost predicate LivePath(f: MirFunction, p: seq<BlockId>, b: BlockId, l: LocalId) {
    && IsPath(f, p) && p[0] == b
    && (forall k :: 0 <= k < |p| ==> p[k] < |f.blocks|)
    && (forall k :: 0 <= k < |p| - 1 ==> !Writes(f.blocks[p[k]], l))
    && ReadsFirst(f.blocks[p[|p| - 1]], l)
  }

  /** Some control-flow path from the start of `b` reads `l` before writing it. */
  ghost predicate Live(f: MirFunction, b: BlockId, l: LocalId) {
    exists p :: LivePath(f, p, b, l)
  }

  ghost predicate LiveAfter(f: MirFunction, b: BlockId, l: LocalId) {
    exists s: BlockId :: Edge(f, b, s) && Live(f, s, l)
  }

  // ----- the transfer function ----------------------------------------------

  /** Whether `l` is live just before statement `i` (or the terminator), when
      `out` says whether it is live at the end of the block. */
  predicate LiveBefore(block: BasicBlock, i: nat, out: bool, l: LocalId)
    requires i <= |block.statements|
    decreases |block.statements| - i
  {
    if i == |block.statements| then out || l in TerminatorUses(block.terminator)
    else
      || l in Uses(block.statements[i])
      || (Defs(block.statements[i]) != Some(l) && LiveBefore(block, i + 1, out, l))
  }

  lemma {:induction false} TransferReads(block: BasicBlock, i: nat, out: bool, l: LocalId)
    requires i <= |block.statements|
    ensures LiveBefore(block, i, out, l) <==>
      || (exists j :: i <= j <= |block.statements| && ReadAt(block, j, l) && !WrittenBetween(block, i, j, l))
      || (out && !WrittenBetween(block, i, |block.statements|, l))
    decreases |block.statements| - i
  {
    var n := |block.statements|;
    if i == n {
      assert ReadAt(block, i, l) <==> l in TerminatorUses(block.terminator);
      assert !WrittenBetween(block, i, n, l);
    } else {
      TransferReads(block, i + 1, out, l);
      assert ReadAt(block, i, l) <==> l in Uses(block.statements[i]);
      assert !WrittenBetween(block, i, i, l);
      forall j | i < j <= n
        ensures WrittenBetween(block, i, j, l) <==>
                Defs(block.statements[i]) == Some(l) || WrittenBetween(block, i + 1, j, l)
      {
        if Defs(block.statements[i]) == Some(l) {
          assert WrittenBetween(block, i, j, l);
        }
      }
    }
  }

  predicate WrittenBetween(block: BasicBlock, i: nat, j: nat, l: LocalId)
    requires j <= |block.statements|
  {
    exists k :: i <= k < j && WritesLocal(block.statements[k], l)
  }

  /** The transfer of a whole block, in terms of first reads and writes. */
  lemma TransferMeaning(block: BasicBlock, out: bool, l: LocalId)
    ensures LiveBefore(block, 0, out, l) <==> ReadsFirst(block, l) || (out && !Writes(block, l))
  {
    TransferReads(block, 0, out, l);
    assert forall j :: 0 <= j <= |block.statements| ==>
        (WrittenBetween(block, 0, j, l) <==> WrittenBefore(block, j, l));
  }

  lemma TransferMonotone(block: BasicBlock, small: bool, large: bool, l: LocalId)
    requires small ==> large
    requires LiveBefore(block, 0, small, l)
    ensures LiveBefore(block, 0, large, l)
  {
    TransferMeaning(block, small, l);
    TransferMeaning(block, large, l);
  }

  // ----- sets over blocks ---------------------------------------------------

  ghost predicate Shaped(f: MirFunction, sets: seq<seq<bool>>) {
    |sets| == |f.blocks| && forall b :: 0 <= b < |sets| ==> |sets[b]| == |f.locals|
  }

  /** Live at the end of `b`, as the live-in sets of its successors say. */
  ghost predicate OutOf(f: MirFunction, liveIn: seq<seq<bool>>, b: BlockId, l: LocalId)
    requires b < |f.blocks|
  {
    exists s :: s in Successors(f.blocks[b].terminator) && Lookup(liveIn, s, l)
  }

  /** Every stored set is contained in its own transfer, and every bit in it
      has a path that justifies it. */
  ghost predicate Contained(f: MirFunction, liveIn: seq<seq<bool>>, liveOut: seq<seq<bool>>) {
    && Shaped(f, liveIn) && Shaped(f, liveOut)
    && forall b: BlockId, l: LocalId :: b < |f.blocks| && l < |f.locals| ==>
         && (liveOut[b][l] ==> OutOf(f, liveIn, b, l))
         && (liveIn[b][l] ==> LiveBefore(f.blocks[b], 0, OutOf(f, liveIn, b, l), l) && Live(f, b, l))
  }

  /** Both equations hold at `b`. */
  ghost predicate Balanced(f: MirFunction, liveIn: seq<seq<bool>>, liveOut: seq<seq<bool>>, b: BlockId)
    requires b < |f.blocks| && Shaped(f, liveIn) && Shaped(f, liveOut)
  {
    forall l: LocalId :: l < |f.locals| ==>
      && (liveOut[b][l] <==> OutOf(f, liveIn, b, l))
      && (liveIn[b][l] <==> LiveBefore(f.blocks[b], 0, OutOf(f, liveIn, b, l), l))
  }

  ghost predicate Grown(f: MirFunction, small: seq<seq<bool>>, large: seq<seq<bool>>)
    requires Shaped(f, small) && Shaped(f, large)
  {
    forall b: BlockId, l: LocalId :: b < |f.blocks| && l < |f.locals| && small[b][l] ==> large[b][l]
  }

  ghost function FalseBits(sets: seq<seq<bool>>): set<(nat, nat)> {
    set b: nat, l: nat | b < |sets| && l < |sets[b]| && !sets[b][l] :: (b, l)
  }

  lemma GrowthShrinksFalseBits(f: MirFunction, small: seq<seq<bool>>, large: seq<seq<bool>>)
    requires Shaped(f, small) && Shaped(f, large) && Grown(f, small, large)
    ensures FalseBits(large) <= FalseBits(small)
    ensures small != large ==> FalseBits(large) < FalseBits(small)
  {
    if small != large {
      var b :| 0 <= b < |small| && small[b] != large[b];
      var l :| 0 <= l < |small[b]| && small[b][l] != large[b][l];
      assert (b, l) in FalseBits(small) && (b, l) !in FalseBits(large);
    }
  }

  lemma OutOfMonotone(f: MirFunction, small: seq<seq<bool>>, large: seq<seq<bool>>, b: BlockId, l: LocalId)
    requires Shaped(f, small) && Shaped(f, large) && Grown(f, small, large)
    requires b < |f.blocks| && OutOf(f, small, b, l)
    ensures OutOf(f, large, b, l)
  {
    var s :| s in Successors(f.blocks[b].terminator) && Lookup(small, s, l);
    assert Lookup(large, s, l);
  }

  /** A bit the transfer produces is justified by a path. */
  lemma TransferWitness(f: MirFunction, liveIn: seq<seq<bool>>, liveOut: seq<seq<bool>>, b: BlockId, l: LocalId)
    requires Contained(f, liveIn, liveOut) && b < |f.blocks| && l < |f.locals|
    requires LiveBefore(f.blocks[b], 0, OutOf(f, liveIn, b, l), l)
    ensures Live(f, b, l)
  {
    TransferMeaning(f.blocks[b], OutOf(f, liveIn, b, l), l);
    if ReadsFirst(f.blocks[b], l) {
      assert LivePath(f, [b], b, l);
    } else {
      var s :| s in Successors(f.blocks[b].terminator) && Lookup(liveIn, s, l);
      ExtendPath(f, b, s, l);
    }
  }

  lemma ExtendPath(f: MirFunction, b: BlockId, s: BlockId, l: LocalId)
    requires Edge(f, b, s) && !Writes(f.blocks[b], l) && Live(f, s, l)
    ensures Live(f, b, l)
  {
    var p :| LivePath(f, p, s, l);
    var q := [b] + p;
    forall i, j | 0 <= i && j == i + 1 && j < |q| ensures Edge(f, q[i], q[j]) {
      if i > 0 { assert Edge(f, p[i - 1], p[j - 1]); }
    }
    forall k | 0 <= k < |q| - 1 ensures !Writes(f.blocks[q[k]], l) {
      if k > 0 { assert !Writes(f.blocks[p[k - 1]], l); }
    }
    assert LivePath(f, q, b, l);
  }

  /** Storing a freshly computed pair of sets keeps containment and only grows. */
  lemma StoreKeepsContained(f: MirFunction, liveIn: seq<seq<bool>>, liveOut: seq<seq<bool>>,
                            b: BlockId, inside: seq<bool>, out: seq<bool>)
    requires Contained(f, liveIn, liveOut) && b < |f.blocks|
    requires |inside| == |out| == |f.locals|
    requires forall l: LocalId :: l < |f.locals| ==>
      && (out[l] <==> OutOf(f, liveIn, b, l))
      && (inside[l] <==> LiveBefore(f.blocks[b], 0, OutOf(f, liveIn, b, l), l))
    ensures Contained(f, liveIn[b := inside], liveOut[b := out])
    ensures Grown(f, liveIn, liveIn[b := inside]) && Grown(f, liveOut, liveOut[b := out])
  {
    var newIn, newOut := liveIn[b := inside], liveOut[b := out];
    assert Grown(f, liveIn, newIn);
    forall c: BlockId, l: LocalId | c < |f.blocks| && l < |f.locals|
      ensures newOut[c][l] ==> OutOf(f, newIn, c, l)
      ensures newIn[c][l] ==> LiveBefore(f.blocks[c], 0, OutOf(f, newIn, c, l), l) && Live(f, c, l)
    {
      if OutOf(f, liveIn, c, l) {
        OutOfMonotone(f, liveIn, newIn, c, l);
      }
      if newIn[c][l] {
        assert LiveBefore(f.blocks[c], 0, OutOf(f, liveIn, c, l), l);
        TransferMonotone(f.blocks[c], OutOf(f, liveIn, c, l), OutOf(f, newIn, c, l), l);
        TransferWitness(f, liveIn, liveOut, c, l);
      }
    }
  }

  // ----- exactness ----------------------------------------------------------

  ghost predicate ClosedUnderSuccessors(f: MirFunction, order: seq<BlockId>) {
    forall u: BlockId, v: BlockId :: u in order && Edge(f, u, v) ==> v in order
  }

  lemma {:induction false} PathIsRecorded(f: MirFunction, liveIn: seq<seq<bool>>, liveOut: seq<seq<bool>>,
                                          order: seq<BlockId>, p: seq<BlockId>, l: LocalId)
    requires Contained(f, liveIn, liveOut) && ClosedUnderSuccessors(f, order)
    requires forall b: BlockId :: b in order ==> b < |f.blocks| && Balanced(f, liveIn, liveOut, b)
    requires |p| > 0 && p[0] in order && LivePath(f, p, p[0], l) && l < |f.locals|
    ensures liveIn[p[0]][l]
    decreases |p|
  {
    var b := p[0];
    TransferMeaning(f.blocks[b], OutOf(f, liveIn, b, l), l);
    if |p| > 1 {
      var q := p[1..];
      assert Edge(f, p[0], p[1]);
      assert LivePath(f, q, q[0], l) by {
        forall k | 0 <= k < |q| - 1 ensures !Writes(f.blocks[q[k]], l) {
          assert !Writes(f.blocks[p[k + 1]], l);
        }
      }
      PathIsRecorded(f, liveIn, liveOut, order, q, l);
      assert Lookup(liveIn, p[1], l);
    }
  }

  /** The sets are exact on the blocks of `order` and empty elsewhere. */
  ghost predicate Exact(f: MirFunction, live: Liveness, order: seq<BlockId>) {
    && Shaped(f, live.liveIn) && Shaped(f, live.liveOut)
    && forall b: BlockId, l: LocalId :: b < |f.blocks| && l < |f.locals| ==>
         if b in order then
           (live.liveIn[b][l] <==> Live(f, b, l)) && (live.liveOut[b][l] <==> LiveAfter(f, b, l))
         else !live.liveIn[b][l] && !live.liveOut[b][l]
  }

  ghost predicate OnlyIn(f: MirFunction, order: seq<BlockId>, sets: seq<seq<bool>>)
    requires Shaped(f, sets)
  {
    forall b: BlockId, l: LocalId :: b < |f.blocks| && l < |f.locals| && b !in order ==> !sets[b][l]
  }

  lemma BalancedIsExact(f: MirFunction, liveIn: seq<seq<bool>>, liveOut: seq<seq<bool>>, order: seq<BlockId>)
    requires Contained(f, liveIn, liveOut) && ClosedUnderSuccessors(f, order)
    requires forall b: BlockId :: b in order ==> b < |f.blocks| && Balanced(f, liveIn, liveOut, b)
    requires OnlyIn(f, order, liveIn) && OnlyIn(f, order, liveOut)
    ensures Exact(f, Liveness(liveIn, liveOut), order)
  {
    forall b: BlockId, l: LocalId | b in order && l < |f.locals| && Live(f, b, l) ensures liveIn[b][l] {
      var p :| LivePath(f, p, b, l);
      PathIsRecorded(f, liveIn, liveOut, order, p, l);
    }
    forall b: BlockId, l: LocalId | b in order && l < |f.locals|
      ensures liveOut[b][l] <==> LiveAfter(f, b, l)
    {
      assert Balanced(f, liveIn, liveOut, b);
      if liveOut[b][l] {
        var s :| s in Successors(f.blocks[b].terminator) && Lookup(liveIn, s, l);
        assert Edge(f, b, s) && Live(f, s, l);
      }
      if LiveAfter(f, b, l) {
        var s: BlockId :| Edge(f, b, s) && Live(f, s, l);
        assert Lookup(liveIn, s, l);
      }
    }
  }

  lemma OrderIsClosed(f: MirFunction, order: seq<BlockId>)
    requires ForwardOrder(f, order)
    ensures ClosedUnderSuccessors(f, order)
  {
    forall u: BlockId, v: BlockId | u in order && Edge(f, u, v) ensures v in order {
      ReachesStep(f, f.entry, u, v);
    }
  }

  // ----- the loops ----------------------------------------------------------

  function SetLive(bits: seq<bool>, local: LocalId, live: bool): seq<bool> {
    if local < |bits| then bits[local := live] else bits
  }

  method SetAllLive(bits: seq<bool>, locals: seq<LocalId>) returns (r: seq<bool>)
    ensures |r| == |bits|
    ensures forall l :: 0 <= l < |r| ==> (r[l] <==> bits[l] || l in locals)
  {
    r := bits;
    for k := 0 to |locals|
      invariant |r| == |bits|
      invariant forall l :: 0 <= l < |r| ==> (r[l] <==> bits[l] || l in locals[..k])
    {
      r := SetLive(r, locals[k], true);
    }
  }

  /** The union of the successors' live-in sets. */
  method LiveOutOf(f: MirFunction, liveIn: seq<seq<bool>>, block: BlockId) returns (out: seq<bool>)
    requires Shaped(f, liveIn) && block < |f.blocks|
    ensures |out| == |f.locals|
    ensures forall l: LocalId :: l < |f.locals| ==> (out[l] <==> OutOf(f, liveIn, block, l))
  {
    out := seq(|f.locals|, _ => false);
    var successors := Successors(f.blocks[block].terminator);
    for k := 0 to |successors|
      invariant |out| == |f.locals|
      invariant forall l: LocalId :: l < |f.locals| ==>
        (out[l] <==> exists s :: s in successors[..k] && Lookup(liveIn, s, l))
    {
      var successor := successors[k];
      assert successors[..k + 1] == successors[..k] + [successor];
      if successor < |liveIn| {
        var entry := liveIn[successor];
        ghost var before := out;
        for local := 0 to |entry|
          invariant |out| == |f.locals|
          invariant forall l :: 0 <= l < |out| ==>
            (out[l] <==> before[l] || (l < local && entry[l]))
        {
          out := out[local := out[local] || entry[local]];
        }
        assert forall l: LocalId :: l < |f.locals| ==>
            (Lookup(liveIn, successor, l) <==> entry[l]);
      }
    }
    assert successors[..|successors|] == successors;
  }

  /** Carries `out` back through the terminator and the statements. */
  method LiveInOf(f: MirFunction, block: BasicBlock, out: seq<bool>) returns (inside: seq<bool>)
    ensures |inside| == |out|
    ensures forall l: LocalId :: l < |out| ==> (inside[l] <==> LiveBefore(block, 0, out[l], l))
  {
    hide TerminatorUses, Defs, Uses;
    inside := SetAllLive(out, TerminatorUses(block.terminator));
    for i := |block.statements| downto 0
      invariant |inside| == |out|
      invariant forall l: LocalId :: l < |out| ==> (inside[l] <==> LiveBefore(block, i, out[l], l))
    {
      var instruction := block.statements[i];
      ghost var after := inside;
      if Defs(instruction).Some? {
        inside := SetLive(inside, Defs(instruction).value, false);
      }
      assert forall l: LocalId :: l < |out| ==> (inside[l] <==> after[l] && Defs(instruction) != Some(l));
      inside := SetAllLive(inside, Uses(instruction));
    }
  }

  /** Backward liveness, iterated until a whole round changes nothing. */
  method Analyze(f: MirFunction, cfg: Cfg) returns (live: Liveness)
    requires Describes(f, cfg)
    ensures Exact(f, live, cfg.reversePostorder)
  {
    var liveIn := seq(|f.blocks|, _ => seq(|f.locals|, _ => false));
    var liveOut := seq(|f.blocks|, _ => seq(|f.locals|, _ => false));
    var order := Reversed(cfg.reversePostorder);
    ReversedMembers(cfg.reversePostorder);
    var changed := true;
    while changed
      invariant Contained(f, liveIn, liveOut)
      invariant OnlyIn(f, order, liveIn) && OnlyIn(f, order, liveOut)
      invariant !changed ==> forall b: BlockId :: b in order ==> Balanced(f, liveIn, liveOut, b)
      decreases FalseBits(liveIn), FalseBits(liveOut), changed
    {
      ghost var startIn, startOut := liveIn, liveOut;
      liveIn, liveOut, changed := Round(f, order, liveIn, liveOut);
      GrowthShrinksFalseBits(f, startIn, liveIn);
      GrowthShrinksFalseBits(f, startOut, liveOut);
    }
    OrderIsClosed(f, cfg.reversePostorder);
    BalancedIsExact(f, liveIn, liveOut, cfg.reversePostorder);
    live := Liveness(liveIn, liveOut);
  }

  /** One sweep over the blocks. */
  method Round(f: MirFunction, order: seq<BlockId>, startIn: seq<seq<bool>>, startOut: seq<seq<bool>>)
    returns (liveIn: seq<seq<bool>>, liveOut: seq<seq<bool>>, changed: bool)
    requires Contained(f, startIn, startOut)
    requires forall b: BlockId :: b in order ==> b < |f.blocks|
    requires OnlyIn(f, order, startIn) && OnlyIn(f, order, startOut)
    ensures Contained(f, liveIn, liveOut)
    ensures OnlyIn(f, order, liveIn) && OnlyIn(f, order, liveOut)
    ensures Grown(f, startIn, liveIn) && Grown(f, startOut, liveOut)
    ensures changed <==> liveIn != startIn || liveOut != startOut
    ensures !changed ==> forall b: BlockId :: b in order ==> Balanced(f, liveIn, liveOut, b)
  {
    hide Live, LiveBefore, OutOf;
    liveIn, liveOut, changed := startIn, startOut, false;
    for k := 0 to |order|
      invariant Contained(f, liveIn, liveOut)
      invariant OnlyIn(f, order, liveIn) && OnlyIn(f, order, liveOut)
      invariant Grown(f, startIn, liveIn) && Grown(f, startOut, liveOut)
      invariant changed <==> liveIn != startIn || liveOut != startOut
      invariant !changed ==> forall j :: 0 <= j < k ==>
        order[j] in order && Balanced(f, liveIn, liveOut, order[j])
    {
      var block := order[k];
      assert block in order;
      var out := LiveOutOf(f, liveIn, block);
      var inside := LiveInOf(f, f.blocks[block], out);
      StoreKeepsContained(f, liveIn, liveOut, block, inside, out);
      if inside != liveIn[block] || out != liveOut[block] {
        ghost var wasIn, wasOut := liveIn, liveOut;
        liveIn := liveIn[block := inside];
        liveOut := liveOut[block := out];
        changed := true;
        GrowthIsVisible(f, startIn, wasIn, liveIn);
        GrowthIsVisible(f, startOut, wasOut, liveOut);
      }
    }
  }

  /** A set that has grown past an earlier one cannot be back where it started. */
  lemma GrowthIsVisible(f: MirFunction, start: seq<seq<bool>>, was: seq<seq<bool>>, now: seq<seq<bool>>)
    requires Shaped(f, start) && Shaped(f, was) && Shaped(f, now)
    requires Grown(f, start, was) && Grown(f, was, now)
    ensures Grown(f, start, now)
    ensures was != now || start != was ==> start != now
  {
    GrowthShrinksFalseBits(f, start, was);
    GrowthShrinksFalseBits(f, was, now);
  }
}
