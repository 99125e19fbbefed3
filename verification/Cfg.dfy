/** Control-flow information of one function: predecessor lists and the
    iterative depth-first search behind the reverse postorder. */
module Cfg {
  import opened Types
  import opened Mir

  datatype Cfg = Cfg(
    predecessors: seq<seq<BlockId>>,
    reversePostorder: seq<BlockId>,
    reachable: seq<bool>)

  // ----- paths -------------------------------------------------------------

  ghost predicate Edge(f: MirFunction, u: BlockId, v: BlockId) {
    u < |f.blocks| && v < |f.blocks| && LeadsTo(f.blocks[u].terminator, v)
  }

  ghost predicate Chain(f: MirFunction, p: seq<BlockId>) {
    forall i, j :: 0 <= i && j == i + 1 && j < |p| ==> Edge(f, p[i], p[j])
  }

  ghost predicate IsPath(f: MirFunction, p: seq<BlockId>) {
    |p| > 0 && p[0] < |f.blocks| && Chain(f, p)
  }

  ghost predicate PathBetween(f: MirFunction, p: seq<BlockId>, u: BlockId, v: BlockId) {
    IsPath(f, p) && p[0] == u && p[|p| - 1] == v
  }

  ghost predicate Reaches(f: MirFunction, u: BlockId, v: BlockId) {
    exists p :: PathBetween(f, p, u, v)
  }

  lemma ReachesSelf(f: MirFunction, u: BlockId)
    requires u < |f.blocks|
    ensures Reaches(f, u, u)
  {
    assert PathBetween(f, [u], u, u);
  }

  lemma ReachesStep(f: MirFunction, u: BlockId, v: BlockId, w: BlockId)
    requires Reaches(f, u, v) && Edge(f, v, w)
    ensures Reaches(f, u, w)
  {
    var p :| PathBetween(f, p, u, v);
    assert PathBetween(f, p + [w], u, w);
  }

  /** A set of blocks closed under edges contains everything reachable from it. */
  lemma {:induction false} ClosedUnderPaths(f: MirFunction, marked: seq<bool>, p: seq<BlockId>)
    requires |marked| == |f.blocks| && IsPath(f, p) && marked[p[0]]
    requires forall u: BlockId, v: BlockId :: Edge(f, u, v) && marked[u] ==> marked[v]
    ensures p[|p| - 1] < |marked| && marked[p[|p| - 1]]
    decreases |p|
  {
    if |p| > 1 {
      assert Edge(f, p[0], p[1]);
      ClosedUnderPaths(f, marked, p[1..]);
    }
  }

  // ----- predecessors ------------------------------------------------------

  ghost predicate Sorted(s: seq<BlockId>) {
    forall i, j :: 0 <= i < j < |s| ==> s[i] <= s[j]
  }

  function Occurrences(s: seq<BlockId>, b: BlockId): nat {
    multiset(s)[b]
  }

  /** `preds[v]` lists, in order, every edge into `v` leaving a block below `upto`,
      once for each time it is a successor there. */
  ghost predicate PredecessorsUpTo(f: MirFunction, preds: seq<seq<BlockId>>, upto: nat)
    requires upto <= |f.blocks| == |preds|
  {
    forall v :: 0 <= v < |preds| ==>
      && Sorted(preds[v])
      && (forall u :: u in preds[v] ==> u < upto)
      && forall u: BlockId :: u < upto ==>
           Occurrences(preds[v], u) == Occurrences(Successors(f.blocks[u].terminator), v)
  }

  method CollectPredecessors(f: MirFunction) returns (preds: seq<seq<BlockId>>)
    ensures |preds| == |f.blocks|
    ensures PredecessorsUpTo(f, preds, |f.blocks|)
  {
    preds := seq(|f.blocks|, _ => []);
    for index := 0 to |f.blocks|
      invariant |preds| == |f.blocks|
      invariant PredecessorsUpTo(f, preds, index)
    {
      var added := AddEdgesFrom(index, Successors(f.blocks[index].terminator), preds);
      forall v: BlockId | v < |preds| ensures Occurrences(preds[v], index) == 0 {
        assert index !in preds[v];
      }
      preds := added;
    }
  }

  /** The inner loop: pushes `index` onto the list of each target in range. */
  method AddEdgesFrom(index: BlockId, targets: seq<BlockId>, preds: seq<seq<BlockId>>)
    returns (added: seq<seq<BlockId>>)
    requires forall v: BlockId :: v < |preds| ==> Sorted(preds[v])
    requires forall v: BlockId, u: BlockId :: v < |preds| && u in preds[v] ==> u <= index
    ensures |added| == |preds|
    ensures forall v: BlockId :: v < |preds| ==>
      && Sorted(added[v])
      && (forall u: BlockId :: u in added[v] ==> u <= index)
      && (forall u: BlockId :: u != index ==> Occurrences(added[v], u) == Occurrences(preds[v], u))
      && Occurrences(added[v], index) == Occurrences(preds[v], index) + Occurrences(targets, v)
  {
    added := preds;
    assert targets[..0] == [];
    for k := 0 to |targets|
      invariant |added| == |preds|
      invariant forall v: BlockId :: v < |preds| ==>
        && Sorted(added[v])
        && (forall u: BlockId :: u in added[v] ==> u <= index)
        && (forall u: BlockId :: u != index ==> Occurrences(added[v], u) == Occurrences(preds[v], u))
        && Occurrences(added[v], index) == Occurrences(preds[v], index) + Occurrences(targets[..k], v)
    {
      var target := targets[k];
      assert targets[..k + 1] == targets[..k] + [target];
      assert forall v: BlockId ::
          Occurrences(targets[..k + 1], v) == Occurrences(targets[..k], v) + (if v == target then 1 else 0);
      if target < |added| {
        AppendLargest(added[target], index);
        added := added[target := added[target] + [index]];
      }
    }
    assert targets[..|targets|] == targets;
  }

  lemma AppendLargest(s: seq<BlockId>, x: BlockId)
    requires Sorted(s) && forall u: BlockId :: u in s ==> u <= x
    ensures Sorted(s + [x]) && forall u: BlockId :: u in s + [x] ==> u <= x
    ensures forall u: BlockId :: Occurrences(s + [x], u) == Occurrences(s, u) + (if u == x then 1 else 0)
  {
    assert forall i :: 0 <= i < |s| ==> s[i] in s;
  }

  // ----- depth-first search --------------------------------------------------

  /** A block being explored and the index of its next successor. */
  type Frame = (BlockId, nat)

  ghost function Blocks(stack: seq<Frame>): (gray: seq<BlockId>)
    ensures |gray| == |stack|
    ensures forall k :: 0 <= k < |stack| ==> gray[k] == stack[k].0
  {
    seq(|stack|, k requires 0 <= k < |stack| => stack[k].0)
  }

  ghost predicate Distinct(s: seq<BlockId>) {
    forall i, j :: 0 <= i < j < |s| ==> s[i] != s[j]
  }

  /** A marked block is in exactly one place: on the stack (gray) or finished. */
  ghost predicate Colored(f: MirFunction, gray: seq<BlockId>, post: seq<BlockId>, reachable: seq<bool>) {
    && |reachable| == |f.blocks|
    && Distinct(gray) && Distinct(post)
    && (forall b :: b in gray ==> b < |f.blocks| && b !in post)
    && (forall b :: b in post ==> b < |f.blocks|)
    && (forall b: BlockId :: b < |f.blocks| ==> (reachable[b] <==> b in gray || b in post))
  }

  /** The stack is a path from the entry, and only reachable blocks are marked. */
  ghost predicate Rooted(f: MirFunction, gray: seq<BlockId>, post: seq<BlockId>, reachable: seq<bool>)
    requires |reachable| == |f.blocks|
  {
    && Chain(f, gray)
    && (forall b: BlockId :: b < |f.blocks| && reachable[b] ==> Reaches(f, f.entry, b))
    && (if |gray| > 0 then gray[0] == f.entry else |post| > 0 && post[|post| - 1] == f.entry)
  }

  /** Whatever a frame or a finished block has passed over is marked. */
  ghost predicate Passed(f: MirFunction, stack: seq<Frame>, post: seq<BlockId>, reachable: seq<bool>)
    requires |reachable| == |f.blocks|
  {
    && (forall k :: 0 <= k < |stack| ==>
          && stack[k].0 < |f.blocks|
          && stack[k].1 <= |Successors(f.blocks[stack[k].0].terminator)|
          && MarkedBelow(f, stack[k].0, stack[k].1, reachable))
    && (forall u: BlockId, v: BlockId :: u in post && Edge(f, u, v) ==> reachable[v])
  }

  ghost predicate MarkedBelow(f: MirFunction, b: BlockId, next: nat, reachable: seq<bool>)
    requires |reachable| == |f.blocks| && b < |f.blocks|
  {
    var targets := Successors(f.blocks[b].terminator);
    forall j :: 0 <= j < next && j < |targets| && targets[j] < |reachable| ==> reachable[targets[j]]
  }

  /** The block finished at `i` has a predecessor that finishes later. */
  ghost predicate HasParent(f: MirFunction, gray: seq<BlockId>, post: seq<BlockId>, i: nat)
    requires i < |post|
  {
    exists u: BlockId :: Edge(f, u, post[i]) && (u in gray || u in post[i + 1..])
  }

  /** What the finishing order says about edges that leave a finished block. */
  ghost predicate Ordered(f: MirFunction, gray: seq<BlockId>, post: seq<BlockId>) {
    && (forall i {:trigger HasParent(f, gray, post, i)} ::
          0 <= i < |post| && post[i] != f.entry ==> HasParent(f, gray, post, i))
    && (forall i, v: BlockId :: 0 <= i < |post| && Edge(f, post[i], v) ==>
          Reaches(f, v, post[i]) || v in post[..i])
  }

  ghost predicate Searching(f: MirFunction, stack: seq<Frame>, post: seq<BlockId>, reachable: seq<bool>) {
    && Colored(f, Blocks(stack), post, reachable)
    && Rooted(f, Blocks(stack), post, reachable)
    && Passed(f, stack, post, reachable)
    && Ordered(f, Blocks(stack), post)
  }

  /** Successors the stack still has to visit, and one unit for each frame. */
  ghost function Work(f: MirFunction, stack: seq<Frame>): nat {
    if |stack| == 0 then 0
    else
      var (b, next) := stack[|stack| - 1];
      var own := if b < |f.blocks| && next <= |Successors(f.blocks[b].terminator)|
                 then |Successors(f.blocks[b].terminator)| - next + 1 else 0;
      Work(f, stack[..|stack| - 1]) + own
  }

  ghost function Unmarked(reachable: seq<bool>): set<nat> {
    set b: nat | b < |reachable| && !reachable[b]
  }

  lemma {:induction false} PathReaches(f: MirFunction, p: seq<BlockId>, i: nat, j: nat)
    requires i <= j < |p|
    requires forall k :: 0 <= k < |p| ==> p[k] < |f.blocks|
    requires Chain(f, p)
    ensures Reaches(f, p[i], p[j])
    decreases j
  {
    if i == j {
      ReachesSelf(f, p[i]);
    } else {
      PathReaches(f, p, i, j - 1);
      ReachesStep(f, p[i], p[j - 1], p[j]);
    }
  }

  /** Passing over a successor that is out of range or already marked. */
  lemma AdvanceKeeps(f: MirFunction, rest: seq<Frame>, b: BlockId, next: nat,
                     post: seq<BlockId>, reachable: seq<bool>)
    requires Searching(f, rest + [(b, next)], post, reachable)
    requires b < |f.blocks| && next < |Successors(f.blocks[b].terminator)|
    requires var v := Successors(f.blocks[b].terminator)[next]; v < |reachable| ==> reachable[v]
    ensures Searching(f, rest + [(b, next + 1)], post, reachable)
  {
    var before, after := rest + [(b, next)], rest + [(b, next + 1)];
    assert Blocks(before) == Blocks(after);
    assert before[|rest|] == (b, next);
    assert MarkedBelow(f, b, next, reachable);
    forall k | 0 <= k < |after|
      ensures after[k].0 < |f.blocks|
      ensures after[k].1 <= |Successors(f.blocks[after[k].0].terminator)|
      ensures MarkedBelow(f, after[k].0, after[k].1, reachable)
    {
      if k < |rest| {
        assert after[k] == before[k];
      }
    }
  }

  lemma EnterPassed(f: MirFunction, rest: seq<Frame>, b: BlockId, next: nat, v: BlockId,
                    post: seq<BlockId>, reachable: seq<bool>)
    requires |reachable| == |f.blocks| && Passed(f, rest + [(b, next)], post, reachable)
    requires b < |f.blocks| && next < |Successors(f.blocks[b].terminator)|
    requires v == Successors(f.blocks[b].terminator)[next] && v < |reachable|
    ensures Passed(f, rest + [(b, next + 1), (v, 0)], post, reachable[v := true])
  {
    var marked := reachable[v := true];
    var before, after := rest + [(b, next)], rest + [(b, next + 1), (v, 0)];
    assert before[|rest|] == (b, next);
    forall k | 0 <= k < |after|
      ensures after[k].0 < |f.blocks|
      ensures after[k].1 <= |Successors(f.blocks[after[k].0].terminator)|
      ensures MarkedBelow(f, after[k].0, after[k].1, marked)
    {
      if k < |rest| {
        assert after[k] == before[k] && MarkedBelow(f, before[k].0, before[k].1, reachable);
      } else {
        assert MarkedBelow(f, b, next, reachable);
      }
    }
  }

  lemma EnterOrdered(f: MirFunction, gray: seq<BlockId>, v: BlockId, post: seq<BlockId>)
    requires Ordered(f, gray, post)
    ensures Ordered(f, gray + [v], post)
  {
    hide Reaches, Edge;
    forall i | 0 <= i < |post| && post[i] != f.entry ensures HasParent(f, gray + [v], post, i) {
      assert HasParent(f, gray, post, i);
    }
  }

  lemma EnterRooted(f: MirFunction, gray: seq<BlockId>, v: BlockId, post: seq<BlockId>, reachable: seq<bool>)
    requires Colored(f, gray, post, reachable) && Rooted(f, gray, post, reachable)
    requires |gray| > 0 && Edge(f, gray[|gray| - 1], v) && !reachable[v]
    ensures Colored(f, gray + [v], post, reachable[v := true])
    ensures Rooted(f, gray + [v], post, reachable[v := true])
  {
    var top := gray[|gray| - 1];
    assert top in gray && reachable[top];
    ReachesStep(f, f.entry, top, v);
    hide Reaches;
  }

  /** Marking and entering an unvisited successor of the top of the stack. */
  lemma EnterKeeps(f: MirFunction, rest: seq<Frame>, b: BlockId, next: nat,
                   post: seq<BlockId>, reachable: seq<bool>)
    requires Searching(f, rest + [(b, next)], post, reachable)
    requires b < |f.blocks| && next < |Successors(f.blocks[b].terminator)|
    requires var v := Successors(f.blocks[b].terminator)[next]; v < |reachable| && !reachable[v]
    ensures var v := Successors(f.blocks[b].terminator)[next];
            Searching(f, rest + [(b, next + 1), (v, 0)], post, reachable[v := true])
  {
    hide Passed, Ordered, Rooted;
    var v := Successors(f.blocks[b].terminator)[next];
    var gray := Blocks(rest + [(b, next)]);
    assert Blocks(rest + [(b, next + 1), (v, 0)]) == gray + [v];
    assert gray[|rest|] == b && Edge(f, b, v);
    EnterPassed(f, rest, b, next, v, post, reachable);
    EnterOrdered(f, gray, v, post);
    EnterRooted(f, gray, v, post, reachable);
  }

  lemma FinishColored(f: MirFunction, gray: seq<BlockId>, b: BlockId,
                      post: seq<BlockId>, reachable: seq<bool>)
    requires Colored(f, gray + [b], post, reachable)
    ensures Colored(f, gray, post + [b], reachable)
    ensures b < |f.blocks|
  {
    var path, done := gray + [b], post + [b];
    assert path[|gray|] == b && b in path;
    assert forall k :: 0 <= k < |gray| ==> gray[k] == path[k];
    assert forall x: BlockId :: x in path || x in post <==> x in gray || x in done;
    assert b !in gray;
  }

  lemma FinishRooted(f: MirFunction, gray: seq<BlockId>, b: BlockId,
                     post: seq<BlockId>, reachable: seq<bool>)
    requires |reachable| == |f.blocks|
    requires Rooted(f, gray + [b], post, reachable)
    ensures Rooted(f, gray, post + [b], reachable)
  {
    assert forall k :: 0 <= k < |gray| ==> gray[k] == (gray + [b])[k];
  }

  lemma FinishParents(f: MirFunction, gray: seq<BlockId>, b: BlockId, post: seq<BlockId>, i: nat)
    requires i < |post| + 1
    requires i < |post| ==> HasParent(f, gray + [b], post, i)
    requires i == |post| ==> |gray| > 0 && Edge(f, gray[|gray| - 1], b)
    ensures HasParent(f, gray, post + [b], i)
  {
    var done := post + [b];
    if i < |post| {
      var u: BlockId :| Edge(f, u, post[i]) && (u in gray + [b] || u in post[i + 1..]);
      assert done[i + 1..] == post[i + 1..] + [b];
      assert Edge(f, u, done[i]) && (u in gray || u in done[i + 1..]);
    } else {
      assert Edge(f, gray[|gray| - 1], done[i]);
    }
  }

  lemma FinishOrdered(f: MirFunction, gray: seq<BlockId>, b: BlockId,
                      post: seq<BlockId>, reachable: seq<bool>)
    requires Colored(f, gray + [b], post, reachable) && Rooted(f, gray + [b], post, reachable)
    requires Ordered(f, gray + [b], post)
    requires forall v: BlockId :: Edge(f, b, v) ==> reachable[v]
    ensures Ordered(f, gray, post + [b])
  {
    var path, done := gray + [b], post + [b];
    assert path[|gray|] == b;
    forall i | 0 <= i < |done| && done[i] != f.entry ensures HasParent(f, gray, done, i) {
      if i < |post| {
        assert HasParent(f, path, post, i);
      } else {
        assert Edge(f, path[|gray| - 1], path[|gray|]);
      }
      FinishParents(f, gray, b, post, i);
    }
    forall i, v: BlockId | 0 <= i < |done| && Edge(f, done[i], v)
      ensures Reaches(f, v, done[i]) || v in done[..i]
    {
      if i < |post| {
        assert done[..i] == post[..i];
      } else if v !in post {
        assert done[..i] == post;
        var k :| 0 <= k < |path| && path[k] == v;
        assert forall m :: 0 <= m < |path| ==> path[m] in path;
        PathReaches(f, path, k, |gray|);
      }
    }
  }

  lemma FinishPassed(f: MirFunction, rest: seq<Frame>, b: BlockId, next: nat,
                     post: seq<BlockId>, reachable: seq<bool>)
    requires |reachable| == |f.blocks|
    requires Passed(f, rest + [(b, next)], post, reachable)
    requires b < |f.blocks| && next >= |Successors(f.blocks[b].terminator)|
    ensures Passed(f, rest, post + [b], reachable)
    ensures forall v: BlockId :: Edge(f, b, v) ==> reachable[v]
  {
    var before := rest + [(b, next)];
    assert before[|rest|] == (b, next);
    assert MarkedBelow(f, b, next, reachable);
    assert forall k :: 0 <= k < |rest| ==> rest[k] == before[k];
  }

  /** Finishing the top of the stack once all of its successors are passed over. */
  lemma FinishKeeps(f: MirFunction, rest: seq<Frame>, b: BlockId, next: nat,
                    post: seq<BlockId>, reachable: seq<bool>)
    requires Searching(f, rest + [(b, next)], post, reachable)
    requires b < |f.blocks| && next >= |Successors(f.blocks[b].terminator)|
    ensures Searching(f, rest, post + [b], reachable)
  {
    var gray := Blocks(rest);
    assert Blocks(rest + [(b, next)]) == gray + [b];
    FinishPassed(f, rest, b, next, post, reachable);
    FinishColored(f, gray, b, post, reachable);
    FinishRooted(f, gray, b, post, reachable);
    FinishOrdered(f, gray, b, post, reachable);
  }

  lemma StartSearch(f: MirFunction, reachable: seq<bool>)
    requires f.entry < |f.blocks| == |reachable|
    requires forall b: BlockId :: b < |f.blocks| ==> (reachable[b] <==> b == f.entry)
    ensures Searching(f, [(f.entry, 0)], [], reachable)
  {
    ReachesSelf(f, f.entry);
    assert Blocks([(f.entry, 0)]) == [f.entry];
  }

  lemma TopFrame(f: MirFunction, rest: seq<Frame>, b: BlockId, next: nat,
                 post: seq<BlockId>, reachable: seq<bool>)
    requires Searching(f, rest + [(b, next)], post, reachable)
    ensures |reachable| == |f.blocks|
    ensures b < |f.blocks| && next <= |Successors(f.blocks[b].terminator)|
    ensures Work(f, rest + [(b, next)])
         == Work(f, rest) + |Successors(f.blocks[b].terminator)| - next + 1
  {
    var stack := rest + [(b, next)];
    assert stack[|rest|] == (b, next) && stack[..|rest|] == rest;
  }

  // ----- the order the analyses use -----------------------------------------

  ghost predicate EarlierPredecessor(f: MirFunction, order: seq<BlockId>, i: nat)
    requires i < |order|
  {
    exists u: BlockId :: u in order[..i] && Edge(f, u, order[i])
  }

  /** `order` is a listing of the reachable blocks in which only cycles go back. */
  ghost predicate ForwardOrder(f: MirFunction, order: seq<BlockId>) {
    && Distinct(order)
    && (forall b: BlockId :: b in order ==> b < |f.blocks|)
    && (forall b: BlockId :: b in order <==> f.entry < |f.blocks| && Reaches(f, f.entry, b))
    && (f.entry < |f.blocks| ==> |order| > 0 && order[0] == f.entry)
    && (forall i :: 1 <= i < |order| ==> EarlierPredecessor(f, order, i))
    && (forall i, j :: 0 <= j <= i < |order| && Edge(f, order[i], order[j]) ==>
          Reaches(f, order[j], order[i]))
  }

  function Reversed(s: seq<BlockId>): (r: seq<BlockId>)
    ensures |r| == |s| && forall k :: 0 <= k < |s| ==> r[k] == s[|s| - 1 - k]
  {
    if s == [] then [] else Reversed(s[1..]) + [s[0]]
  }

  lemma SearchComplete(f: MirFunction, post: seq<BlockId>, reachable: seq<bool>)
    requires |reachable| == |f.blocks| && f.entry < |f.blocks|
    requires Colored(f, [], post, reachable) && Rooted(f, [], post, reachable)
    requires Passed(f, [], post, reachable)
    ensures forall b: BlockId :: b in post <==> Reaches(f, f.entry, b)
  {
    assert post[|post| - 1] == f.entry;
    forall b: BlockId | Reaches(f, f.entry, b) ensures b in post {
      var p :| PathBetween(f, p, f.entry, b);
      ClosedUnderPaths(f, reachable, p);
    }
  }

  lemma ReversedMembers(s: seq<BlockId>)
    ensures forall b: BlockId :: b in Reversed(s) <==> b in s
    ensures Distinct(s) ==> Distinct(Reversed(s))
  {
    forall b: BlockId | b in s ensures b in Reversed(s) {
      var k :| 0 <= k < |s| && s[k] == b;
      assert Reversed(s)[|s| - 1 - k] == b;
    }
  }

  lemma LaterComesEarlier(post: seq<BlockId>, k: nat, u: BlockId)
    requires k < |post| && u in post[k + 1..]
    ensures u in Reversed(post)[..|post| - 1 - k]
  {
    var tail := post[k + 1..];
    var n :| 0 <= n < |tail| && tail[n] == u;
    var j := |post| - 1 - (k + 1 + n);
    assert Reversed(post)[j] == post[k + 1 + n];
    assert Reversed(post)[..|post| - 1 - k][j] == u;
  }

  lemma ParentComesEarlier(f: MirFunction, post: seq<BlockId>, i: nat)
    requires 1 <= i < |post| && HasParent(f, [], post, |post| - 1 - i)
    ensures EarlierPredecessor(f, Reversed(post), i)
  {
    var k := |post| - 1 - i;
    var u: BlockId :| Edge(f, u, post[k]) && (u in [] || u in post[k + 1..]);
    LaterComesEarlier(post, k, u);
    assert Reversed(post)[i] == post[k];
  }

  lemma BackEdgeCycles(f: MirFunction, post: seq<BlockId>, i: nat, j: nat)
    requires j <= i < |post| && Ordered(f, [], post) && Distinct(post)
    requires Edge(f, Reversed(post)[i], Reversed(post)[j])
    ensures Reaches(f, Reversed(post)[j], Reversed(post)[i])
  {
    hide HasParent, Reaches, Edge, Reversed;
    var k, m := |post| - 1 - i, |post| - 1 - j;
    assert Edge(f, post[k], post[m]);
    assert forall n :: 0 <= n < k ==> post[..k][n] == post[n] != post[m];
  }

  lemma OrderReversed(f: MirFunction, post: seq<BlockId>)
    requires Ordered(f, [], post) && Distinct(post) && |post| > 0 && post[|post| - 1] == f.entry
    ensures forall i :: 1 <= i < |post| ==> EarlierPredecessor(f, Reversed(post), i)
    ensures forall i, j :: 0 <= j <= i < |post| && Edge(f, Reversed(post)[i], Reversed(post)[j]) ==>
              Reaches(f, Reversed(post)[j], Reversed(post)[i])
  {
    forall i | 1 <= i < |post|
      ensures EarlierPredecessor(f, Reversed(post), i)
    {
      assert HasParent(f, [], post, |post| - 1 - i);
      ParentComesEarlier(f, post, i);
    }
    hide HasParent;
    forall i, j | 0 <= j <= i < |post| && Edge(f, Reversed(post)[i], Reversed(post)[j])
      ensures Reaches(f, Reversed(post)[j], Reversed(post)[i])
    {
      BackEdgeCycles(f, post, i, j);
    }
  }

  lemma FinishedSearch(f: MirFunction, post: seq<BlockId>, reachable: seq<bool>)
    requires f.entry < |f.blocks|
    requires Searching(f, [], post, reachable)
    ensures ForwardOrder(f, Reversed(post))
    ensures forall b: BlockId :: b < |f.blocks| ==> (reachable[b] <==> b in Reversed(post))
  {
    hide Ordered, Reaches, Edge;
    assert Blocks([]) == [];
    SearchComplete(f, post, reachable);
    ReversedMembers(post);
    OrderReversed(f, post);
    var order := Reversed(post);
    assert |order| == |post|;
    assert order[0] == f.entry;
  }

  /** The stack loop of the constructor: it visits each block reachable from the
      entry once and lists them in finishing order. */
  method DepthFirst(f: MirFunction) returns (postorder: seq<BlockId>, reachable: seq<bool>)
    requires f.entry < |f.blocks|
    ensures Searching(f, [], postorder, reachable)
  {
    reachable := seq(|f.blocks|, _ => false);
    postorder := [];
    var stack: seq<Frame> := [(f.entry, 0)];
    reachable := reachable[f.entry := true];
    StartSearch(f, reachable);
    while stack != []
      invariant Searching(f, stack, postorder, reachable)
      decreases Unmarked(reachable), Work(f, stack)
    {
      ghost var before := stack;
      var (block, next) := stack[|stack| - 1];
      stack := stack[..|stack| - 1];
      assert before == stack + [(block, next)];
      stack, postorder, reachable := Visit(f, stack, block, next, postorder, reachable);
    }
  }

  /** One round of the loop, for the frame just popped. */
  method Visit(f: MirFunction, rest: seq<Frame>, block: BlockId, next: nat,
               post: seq<BlockId>, marked: seq<bool>)
    returns (stack: seq<Frame>, postorder: seq<BlockId>, reachable: seq<bool>)
    requires Searching(f, rest + [(block, next)], post, marked)
    ensures Searching(f, stack, postorder, reachable)
    ensures Unmarked(reachable) < Unmarked(marked)
         || (Unmarked(reachable) == Unmarked(marked) && Work(f, stack) < Work(f, rest + [(block, next)]))
  {
    hide Searching;
    TopFrame(f, rest, block, next, post, marked);
    stack, postorder, reachable := rest, post, marked;
    var targets := Successors(f.blocks[block].terminator);
    if next < |targets| {
      var target := targets[next];
      stack := stack + [(block, next + 1)];
      if target < |f.blocks| && !reachable[target] {
        EnterKeeps(f, rest, block, next, post, marked);
        reachable := reachable[target := true];
        stack := stack + [(target, 0)];
        assert stack == rest + [(block, next + 1), (target, 0)];
        assert target in Unmarked(marked) && target !in Unmarked(reachable);
      } else {
        AdvanceKeeps(f, rest, block, next, post, marked);
        TopFrame(f, rest, block, next + 1, post, marked);
      }
    } else {
      FinishKeeps(f, rest, block, next, post, marked);
      postorder := postorder + [block];
    }
  }

  ghost predicate Describes(f: MirFunction, cfg: Cfg) {
    && |cfg.predecessors| == |cfg.reachable| == |f.blocks|
    && PredecessorsUpTo(f, cfg.predecessors, |f.blocks|)
    && ForwardOrder(f, cfg.reversePostorder)
    && (forall b: BlockId :: b < |f.blocks| ==> (cfg.reachable[b] <==> b in cfg.reversePostorder))
  }

  method New(f: MirFunction) returns (cfg: Cfg)
    ensures Describes(f, cfg)
  {
    var predecessors := CollectPredecessors(f);
    var reachable := seq(|f.blocks|, _ => false);
    var postorder := [];
    if f.entry < |f.blocks| {
      postorder, reachable := DepthFirst(f);
      FinishedSearch(f, postorder, reachable);
    }
    cfg := Cfg(predecessors, Reversed(postorder), reachable);
  }
}
