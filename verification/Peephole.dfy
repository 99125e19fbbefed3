/** The stream a back end builds, and the peephole that deletes a copy which puts a
    value straight back: when it preserves every run, and that debug information
    changes nothing about it. */
module Peephole {
  import opened Types
  import opened Items
  import opened Layout
  import WordCode

  type Undo<!I> = I -> Option<I>

  // ----- the rewrite ----------------------------------------------------------------

  /** The last item that is not a line location. */
  function LastReal<I>(kept: seq<Item<I>>): Option<Item<I>> {
    if kept == [] then None
    else
      var last := kept[|kept| - 1];
      if last.IsLocation() then LastReal(kept[..|kept| - 1]) else Some(last)
  }

  /** The item copies back what the last instruction copied. */
  predicate Undone<I(==)>(undo: Undo<I>, kept: seq<Item<I>>, item: Item<I>) {
    && item.Instruction?
    && match LastReal(kept)
       case Some(Instruction(previous)) => undo(previous) == Some(item.inst)
       case _ => false
  }

  function Kept<I(==)>(undo: Undo<I>, items: seq<Item<I>>): seq<Item<I>> {
    if items == [] then []
    else
      var kept, last := Kept(undo, items[..|items| - 1]), items[|items| - 1];
      if Undone(undo, kept, last) then kept else kept + [last]
  }

  class Assembly<I(==)> {
    var items: seq<Item<I>>
    var sections: seq<SectionDef>
    const undo: Undo<I>

    /** Names tell sections apart, and the three fixed ones come first. */
    ghost predicate Valid()
      reads this
    {
      && |BASE| <= |sections| && sections[..|BASE|] == BASE
      && (forall i :: |BASE| <= i < |sections| ==> sections[i].kind.Text? && StartsWith(sections[i].name, ".text."))
      && (forall i, j :: 0 <= i < j < |sections| ==> sections[i].name != sections[j].name)
    }

    constructor (undo: Undo<I>)
      ensures Valid() && items == [] && sections == BASE && this.undo == undo
    {
      items, sections := [], BASE;
      this.undo := undo;
    }

    method Push(item: Item<I>)
      modifies this`items
      ensures items == old(items) + [item]
    {
      items := items + [item];
    }

    /** The section of a function's own code: registered on first ask, the same one
        handed back on every later one, and no two symbols share one. */
    method TextFor(symbol: Name) returns (s: Items.Section)
      requires Valid()
      modifies this`sections
      ensures Valid() && old(sections) <= sections
      ensures s < |sections| && sections[s] == SectionDef(Text, ".text." + symbol) && s >= |BASE|
      ensures sections == old(sections) || (s == |old(sections)| && |sections| == s + 1)
      ensures (exists i :: 0 <= i < |old(sections)| && old(sections)[i].name == ".text." + symbol) ==>
          sections == old(sections)
    {
      var name := ".text." + symbol;
      BaseNames(symbol);
      assert forall j :: 0 <= j < |BASE| ==> sections[j] == sections[..|BASE|][j];
      for i := 0 to |sections|
        invariant forall j :: 0 <= j < i ==> sections[j].name != name
      {
        if sections[i].name == name {
          return i;
        }
      }
      sections := sections + [SectionDef(Text, name)];
      return |sections| - 1;
    }

    method RemoveRedundantCopies()
      modifies this`items
      ensures items == Kept(undo, old(items))
    {
      var kept: seq<Item<I>> := [];
      for k := 0 to |items|
        invariant kept == Kept(undo, items[..k])
      {
        assert items[..k + 1][..k] == items[..k];
        if !Undone(undo, kept, items[k]) {
          kept := kept + [items[k]];
        }
      }
      assert items[..|items|] == items;
      items := kept;
    }
  }

  lemma BaseNames(symbol: Name)
    ensures forall i :: 0 <= i < |BASE| ==> BASE[i].name != ".text." + symbol
    ensures StartsWith(".text." + symbol, ".text.")
  {
    assert (".text." + symbol)[5] == '.' && (".text." + symbol)[1] == 't';
    assert |".text." + symbol| > |BASE[0].name|;
  }

  // ----- debug information ----------------------------------------------------------------

  function WithoutLocations<I>(items: seq<Item<I>>): seq<Item<I>> {
    if items == [] then []
    else
      WithoutLocations(items[..|items| - 1])
        + if items[|items| - 1].IsLocation() then [] else [items[|items| - 1]]
  }

  lemma {:induction false} LastRealStripped<I>(items: seq<Item<I>>)
    ensures LastReal(WithoutLocations(items)) == LastReal(items)
  {
    if items != [] {
      LastRealStripped(items[..|items| - 1]);
      var front := WithoutLocations(items[..|items| - 1]);
      assert WithoutLocations(items) == if items[|items| - 1].IsLocation() then front else front + [items[|items| - 1]];
    }
  }

  /** Taking the locations out before the rewrite or after it leaves the same
      stream, so `.loc` lines never change which instructions are emitted. */
  lemma {:induction false} LocationsChangeNothing<I>(undo: Undo<I>, items: seq<Item<I>>)
    ensures WithoutLocations(Kept(undo, items)) == Kept(undo, WithoutLocations(items))
  {
    if items != [] {
      var front, last := items[..|items| - 1], items[|items| - 1];
      LocationsChangeNothing(undo, front);
      var kept, bare := Kept(undo, front), WithoutLocations(front);
      var bareKept := WithoutLocations(kept);
      LastRealStripped(kept);
      assert (bare + [last])[..|bare|] == bare && (kept + [last])[..|kept|] == kept;
      assert WithoutLocations(items) == if last.IsLocation() then bare else bare + [last];
      assert WithoutLocations(kept + [last]) == if last.IsLocation() then bareKept else bareKept + [last];
    }
  }

  // ----- where items go ------------------------------------------------------------------

  /** Where item `k` is in the rewritten stream. */
  function Pos<I(==)>(undo: Undo<I>, items: seq<Item<I>>, k: nat): nat
    requires k <= |items|
  {
    |Kept(undo, items[..k])|
  }

  predicate Deleted<I(==)>(undo: Undo<I>, items: seq<Item<I>>, k: nat) {
    k < |items| && Undone(undo, Kept(undo, items[..k]), items[k])
  }

  lemma {:induction false} KeptPrefix<I>(undo: Undo<I>, items: seq<Item<I>>, k: nat)
    requires k <= |items|
    ensures Pos(undo, items, k) <= |Kept(undo, items)|
    ensures Kept(undo, items)[..Pos(undo, items, k)] == Kept(undo, items[..k])
  {
    if k == |items| {
      assert items[..k] == items;
    } else {
      var front := items[..|items| - 1];
      KeptPrefix(undo, front, k);
      assert front[..k] == items[..k];
      var kept, all := Kept(undo, front), Kept(undo, items);
      assert all[..|kept|] == kept;
      assert all[..Pos(undo, items, k)] == kept[..Pos(undo, items, k)];
    }
  }

  lemma PosNext<I>(undo: Undo<I>, items: seq<Item<I>>, k: nat)
    requires k < |items|
    ensures Pos(undo, items, k + 1) == Pos(undo, items, k) + if Deleted(undo, items, k) then 0 else 1
    ensures !Deleted(undo, items, k) ==>
      Pos(undo, items, k) < |Kept(undo, items)| && Kept(undo, items)[Pos(undo, items, k)] == items[k]
  {
    assert items[..k + 1][..k] == items[..k];
    KeptPrefix(undo, items, k + 1);
    var p := Pos(undo, items, k);
    if !Deleted(undo, items, k) {
      assert Kept(undo, items[..k + 1])[p] == items[k];
      assert Kept(undo, items)[..p + 1][p] == items[k];
    }
  }

  lemma {:induction false} PosMonotone<I>(undo: Undo<I>, items: seq<Item<I>>, j: nat, k: nat)
    requires j < k <= |items| && !Deleted(undo, items, j)
    ensures Pos(undo, items, j) < Pos(undo, items, k)
    decreases k
  {
    PosNext(undo, items, k - 1);
    if j < k - 1 { PosMonotone(undo, items, j, k - 1); }
  }

  /** Every place of the rewritten stream comes from an item that was kept. */
  lemma {:induction false} PosCovers<I>(undo: Undo<I>, items: seq<Item<I>>, p: nat) returns (k: nat)
    requires p < |Kept(undo, items)|
    ensures k < |items| && !Deleted(undo, items, k) && Pos(undo, items, k) == p
  {
    var n := |items| - 1;
    var front := items[..n];
    if p < |Kept(undo, front)| {
      k := PosCovers(undo, front, p);
      assert front[..k] == items[..k];
    } else {
      k := n;
    }
  }

  lemma {:induction false} SectionKept<I>(undo: Undo<I>, items: seq<Item<I>>)
    ensures SectionAfter(Kept(undo, items)) == SectionAfter(items)
  {
    if items != [] {
      var front, last := items[..|items| - 1], items[|items| - 1];
      SectionKept(undo, front);
      assert (Kept(undo, front) + [last])[..|Kept(undo, front)|] == Kept(undo, front);
    }
  }

  /** Labels keep their meaning: `j` is the next `id:` after `k` exactly when its
      place is in the rewritten stream. */
  lemma MarksKept<I>(undo: Undo<I>, items: seq<Item<I>>, k: nat, s: Items.Section, id: nat)
    requires k < |items|
    ensures Marks(items, k, s, id) <==> !Deleted(undo, items, k) && Marks(Kept(undo, items), Pos(undo, items, k), s, id)
  {
    PosNext(undo, items, k);
    KeptPrefix(undo, items, k);
    SectionKept(undo, items[..k]);
  }

  lemma NextMarkKept<I>(undo: Undo<I>, items: seq<Item<I>>, k: nat, s: Items.Section, id: nat, j: nat)
    requires k < |items| && !Deleted(undo, items, k) && NextMark(items, k, s, id, j)
    ensures NextMark(Kept(undo, items), Pos(undo, items, k), s, id, Pos(undo, items, j))
  {
    var kept, p, q := Kept(undo, items), Pos(undo, items, k), Pos(undo, items, j);
    hide Kept, Marks, SectionAfter, Undone;
    MarkInRange(items, j, s, id);
    MarksKept(undo, items, j, s, id);
    PosMonotone(undo, items, k, j);
    forall m: nat | p < m < q ensures !Marks(kept, m, s, id) {
      if Marks(kept, m, s, id) {
        MarkInRange(kept, m, s, id);
        var i := PosCovers(undo, items, m);
        MarksKept(undo, items, i, s, id);
        Between(undo, items, k, i, j);
      }
    }
  }

  lemma MarkInRange<I>(items: seq<Item<I>>, k: nat, s: Items.Section, id: nat)
    requires Marks(items, k, s, id)
    ensures k < |items|
  {
  }

  lemma Between<I>(undo: Undo<I>, items: seq<Item<I>>, k: nat, i: nat, j: nat)
    requires k < |items| && i < |items| && j < |items|
    requires !Deleted(undo, items, k) && !Deleted(undo, items, i) && !Deleted(undo, items, j)
    requires Pos(undo, items, k) < Pos(undo, items, i) < Pos(undo, items, j)
    ensures k < i < j
  {
    hide Kept, Deleted;
    if i < k { PosMonotone(undo, items, i, k); }
    if j < i { PosMonotone(undo, items, j, i); }
  }

  // ----- running a stream ------------------------------------------------------------------

  /** What an instruction does besides changing the state. */
  datatype Outcome<S> = Next(state: S) | Jump(target: Target, state: S) | Done(state: S)

  type Machine<!I, !S> = (I, S) -> Outcome<S>

  datatype Ending = Finished | FellOff | Left(target: Target)

  /** A run is at an item of the stream, or it is over. */
  datatype Config<S> = Running(at: nat, state: S) | Over(ending: Ending, state: S)

  /** Where a jump lands: the last label of that name, or the next `id:` of the
      section; other names are outside the stream. */
  ghost function Destination<I>(items: seq<Item<I>>, k: nat, target: Target): Option<nat>
    requires k < |items|
  {
    match target
    case Named(name) => if j: nat :| LastLabel(items, name, j) then Some(j) else None
    case Forward(id) =>
      (match SectionAfter(items[..k])
       case None => None
       case Some(s) => if j: nat :| NextMark(items, k, s, id, j) then Some(j) else None)
  }

  /** What one item asks for: fall through, jump, or stop. */
  datatype Move<S> = Fall(state: S) | Go(target: Target, state: S) | Stop(ending: Ending, state: S)

  function Act<I, S>(m: Machine<I, S>, item: Item<I>, s: S): Move<S> {
    match item
    case Section(_) => Stop(FellOff, s)
    case Bytes(_) => Stop(FellOff, s)
    case Instruction(inst) =>
      (match m(inst, s)
       case Next(t) => Fall(t)
       case Done(t) => Stop(Finished, t)
       case Jump(target, t) => Go(target, t))
    case _ => Fall(s)
  }

  ghost function Step<I, S>(m: Machine<I, S>, items: seq<Item<I>>, c: Config<S>): Config<S> {
    match c
    case Over(_, _) => c
    case Running(k, s) =>
      if k >= |items| then Over(FellOff, s)
      else AfterMove(items, k, Act(m, items[k], s))
  }

  ghost function AfterMove<I, S>(items: seq<Item<I>>, k: nat, move: Move<S>): Config<S>
    requires k < |items|
  {
    match move
    case Fall(t) => Running(k + 1, t)
    case Stop(ending, t) => Over(ending, t)
    case Go(target, t) =>
      match Destination(items, k, target)
      case Some(j) => Running(j, t)
      case None => Over(Left(target), t)
  }

  ghost function Run<I, S>(m: Machine<I, S>, items: seq<Item<I>>, c: Config<S>, n: nat): Config<S>
    decreases n
  {
    if n == 0 then c else Run(m, items, Step(m, items, c), n - 1)
  }

  /** What the peephole relies on: after the copy has fallen through, its mirror leaves
      the state alone. */
  ghost predicate Restores<I, S(!new)>(m: Machine<I, S>, copy: I, mirror: I) {
    forall s :: m(copy, s).Next? ==> m(mirror, m(copy, s).state) == Next(m(copy, s).state)
  }

  /** The copy that a deleted item undoes. */
  function CopyOf<I(==)>(undo: Undo<I>, items: seq<Item<I>>, k: nat): I
    requires Deleted(undo, items, k)
  {
    LastReal(Kept(undo, items[..k])).value.inst
  }

  /** Every copy whose mirror is deleted restores; other copies may do as they like. */
  ghost predicate PairsRestore<I, S(!new)>(m: Machine<I, S>, undo: Undo<I>, items: seq<Item<I>>) {
    forall k: nat :: Deleted(undo, items, k) ==> Restores(m, CopyOf(undo, items, k), items[k].inst)
  }

  /** The same place and state in the rewritten stream. */
  function Moved<I(==), S>(undo: Undo<I>, items: seq<Item<I>>, c: Config<S>): Config<S>
    requires c.Running? ==> c.at <= |items|
  {
    match c
    case Running(k, s) => Running(Pos(undo, items, k), s)
    case Over(_, _) => c
  }

  /** The first item from `k` on that is not a location. */
  function NextReal<I>(items: seq<Item<I>>, k: nat): (d: nat)
    requires k <= |items|
    ensures k <= d <= |items|
    decreases |items| - k
  {
    if k < |items| && items[k].IsLocation() then NextReal(items, k + 1) else k
  }

  /** A deleted mirror that comes next does nothing to this state. */
  ghost predicate MirrorIdle<I, S>(m: Machine<I, S>, undo: Undo<I>, items: seq<Item<I>>, k: nat, s: S)
    requires k <= |items|
  {
    var d := NextReal(items, k);
    Deleted(undo, items, d) ==> m(items[d].inst, s) == Next(s)
  }

  /** Runs enter code at labels, so a mirror is only ever reached through its copy. */
  ghost predicate Entered<I, S>(m: Machine<I, S>, undo: Undo<I>, items: seq<Item<I>>, c: Config<S>) {
    match c
    case Over(_, _) => true
    case Running(k, s) => k <= |items| && MirrorIdle(m, undo, items, k, s)
  }

  lemma NamedDestination<I>(items: seq<Item<I>>, k: nat, name: Name, j: nat)
    requires k < |items| && LastLabel(items, name, j)
    ensures Destination(items, k, Target.Named(name)) == Some(j)
  {
  }

  lemma ForwardDestination<I>(items: seq<Item<I>>, k: nat, s: Items.Section, id: nat, j: nat)
    requires k < |items| && SectionAfter(items[..k]) == Some(s) && NextMark(items, k, s, id, j)
    ensures Destination(items, k, Target.Forward(id)) == Some(j)
  {
    hide SectionAfter, Marks;
    assert MarkedAt(items, j, s, id);
    assert forall i: nat :: NextMark(items, k, s, id, i) ==> MarkedAt(items, i, s, id);
  }

  predicate MarkedAt<I>(items: seq<Item<I>>, j: nat, s: Items.Section, id: nat) {
    Marks(items, j, s, id)
  }

  /** Jumps land on the same item in both streams. */
  lemma DestinationKept<I>(undo: Undo<I>, items: seq<Item<I>>, k: nat, target: Target)
    requires k < |items| && !Deleted(undo, items, k)
    ensures Pos(undo, items, k) < |Kept(undo, items)|
    ensures match Destination(items, k, target)
      case None => Destination(Kept(undo, items), Pos(undo, items, k), target) == None
      case Some(j) =>
        && j < |items| && (items[j].Label? || items[j].Numeric?)
        && Destination(Kept(undo, items), Pos(undo, items, k), target) == Some(Pos(undo, items, j))
  {
    PosNext(undo, items, k);
    KeptPrefix(undo, items, k);
    SectionKept(undo, items[..k]);
    var kept, p := Kept(undo, items), Pos(undo, items, k);
    match target
    case Named(name) =>
      LastLabelKept(undo, items, name);
      hide LastLabel, Kept, Deleted;
      if j: nat :| LastLabel(items, name, j) {
        NamedDestination(items, k, name, j);
        NamedDestination(kept, p, name, Pos(undo, items, j));
      }
    case Forward(id) =>
      var s := SectionAfter(items[..k]);
      assert SectionAfter(kept[..p]) == s;
      if s.Some? { NextMarkBoth(undo, items, k, s.value, id); }
      hide NextMark, Kept, SectionAfter, Deleted;
      if j: nat :| s.Some? && NextMark(items, k, s.value, id, j) {
        ForwardDestination(items, k, s.value, id, j);
        ForwardDestination(kept, p, s.value, id, Pos(undo, items, j));
      }
  }

  lemma LabelPos<I>(undo: Undo<I>, items: seq<Item<I>>, k: nat)
    requires k < |items| && !items[k].Instruction?
    ensures !Deleted(undo, items, k)
    ensures Pos(undo, items, k) < |Kept(undo, items)| && Kept(undo, items)[Pos(undo, items, k)] == items[k]
  {
    PosNext(undo, items, k);
  }

  lemma LastLabelKept<I>(undo: Undo<I>, items: seq<Item<I>>, name: Name)
    ensures forall j: nat :: LastLabel(items, name, j) ==>
      j < |items| && items[j].Label? && LastLabel(Kept(undo, items), name, Pos(undo, items, j))
    ensures (exists p: nat :: LastLabel(Kept(undo, items), name, p)) ==> exists j: nat :: LastLabel(items, name, j)
  {
    var kept := Kept(undo, items);
    forall j: nat | LastLabel(items, name, j) ensures LastLabel(kept, name, Pos(undo, items, j)) {
      LabelPos(undo, items, j);
      forall p: nat | Pos(undo, items, j) < p < |kept| ensures kept[p] != Item.Label(name) {
        var i := PosCovers(undo, items, p);
        PosNext(undo, items, i);
        if i < j { PosMonotone(undo, items, i, j); }
      }
    }
    if p: nat :| LastLabel(kept, name, p) {
      var i := PosCovers(undo, items, p);
      PosNext(undo, items, i);
      HasLast(items, name, i);
    }
  }

  lemma {:induction false} HasLast<I>(items: seq<Item<I>>, name: Name, i: nat)
    requires i < |items| && items[i] == Item.Label(name)
    ensures exists j: nat :: LastLabel(items, name, j)
    decreases |items| - i
  {
    if k :| i < k < |items| && items[k] == Item.Label(name) {
      HasLast(items, name, k);
    } else {
      assert LastLabel(items, name, i);
    }
  }

  lemma NextMarkBoth<I>(undo: Undo<I>, items: seq<Item<I>>, k: nat, s: Items.Section, id: nat)
    requires k < |items| && !Deleted(undo, items, k)
    ensures forall j: nat :: NextMark(items, k, s, id, j) ==>
      j < |items| && items[j].Numeric? && NextMark(Kept(undo, items), Pos(undo, items, k), s, id, Pos(undo, items, j))
    ensures (exists p: nat :: NextMark(Kept(undo, items), Pos(undo, items, k), s, id, p)) ==>
      exists j: nat :: NextMark(items, k, s, id, j)
  {
    var kept := Kept(undo, items);
    forall j: nat | NextMark(items, k, s, id, j)
      ensures j < |items| && items[j].Numeric? && NextMark(kept, Pos(undo, items, k), s, id, Pos(undo, items, j))
    {
      NextMarkKept(undo, items, k, s, id, j);
    }
    if p: nat :| NextMark(kept, Pos(undo, items, k), s, id, p) {
      MarkInRange(kept, p, s, id);
      var i := PosCovers(undo, items, p);
      MarksKept(undo, items, i, s, id);
      if i <= k { PosOrder(undo, items, i, k); }
      HasNext(items, k, s, id, i);
    }
  }

  lemma PosOrder<I>(undo: Undo<I>, items: seq<Item<I>>, j: nat, k: nat)
    requires j <= k < |items| && !Deleted(undo, items, j)
    ensures Pos(undo, items, j) <= Pos(undo, items, k)
  {
    if j < k { PosMonotone(undo, items, j, k); }
  }

  lemma {:induction false} HasNext<I>(items: seq<Item<I>>, k: nat, s: Items.Section, id: nat, i: nat)
    requires k < i && Marks(items, i, s, id)
    ensures exists j: nat :: NextMark(items, k, s, id, j)
    decreases i
  {
    if h: nat :| k < h < i && Marks(items, h, s, id) {
      HasNext(items, k, s, id, h);
    } else {
      assert NextMark(items, k, s, id, i);
    }
  }

  // ----- the simulation -------------------------------------------------------------------

  lemma LastRealKept<I>(undo: Undo<I>, items: seq<Item<I>>, k: nat)
    requires k < |items|
    ensures var before, after := LastReal(Kept(undo, items[..k])), LastReal(Kept(undo, items[..k + 1]));
      if Deleted(undo, items, k) || items[k].IsLocation() then after == before else after == Some(items[k])
  {
    assert items[..k + 1][..k] == items[..k];
    var kept := Kept(undo, items[..k]);
    assert (kept + [items[k]])[..|kept|] == kept;
  }

  /** Locations in between do not come between a copy and its mirror. */
  lemma {:induction false} RealBefore<I>(undo: Undo<I>, items: seq<Item<I>>, k: nat)
    requires k <= |items|
    ensures LastReal(Kept(undo, items[..NextReal(items, k)])) == LastReal(Kept(undo, items[..k]))
    decreases |items| - k
  {
    if k < |items| && items[k].IsLocation() {
      LastRealKept(undo, items, k);
      hide Kept, LastReal, Deleted;
      RealBefore(undo, items, k + 1);
    }
  }

  lemma DeletedMeans<I>(undo: Undo<I>, items: seq<Item<I>>, k: nat)
    ensures Deleted(undo, items, k) <==>
      && k < |items| && items[k].Instruction?
      && LastReal(Kept(undo, items[..k])).Some? && LastReal(Kept(undo, items[..k])).value.Instruction?
      && undo(LastReal(Kept(undo, items[..k])).value.inst) == Some(items[k].inst)
  {
    hide Kept, LastReal;
  }

  /** A deleted mirror was a step that changed nothing. */
  lemma DeletedStep<I, S(!new)>(m: Machine<I, S>, undo: Undo<I>, items: seq<Item<I>>, k: nat, s: S)
    requires Deleted(undo, items, k) && Entered(m, undo, items, Running(k, s))
    ensures Step(m, items, Running(k, s)) == Running(k + 1, s)
    ensures Entered(m, undo, items, Running(k + 1, s)) && Pos(undo, items, k + 1) == Pos(undo, items, k)
  {
    DeletedMeans(undo, items, k);
    LastRealKept(undo, items, k);
    PosNext(undo, items, k);
    RealBefore(undo, items, k + 1);
    DeletedMeans(undo, items, NextReal(items, k + 1));
    hide Kept, LastReal, Destination, Deleted;
  }

  /** Falling through to the next item, a mirror there is idle. */
  lemma IdleAfter<I, S(!new)>(m: Machine<I, S>, undo: Undo<I>, items: seq<Item<I>>, k: nat, s: S, t: S)
    requires PairsRestore(m, undo, items) && k < |items| && !Deleted(undo, items, k)
    requires items[k].IsLocation() ==> MirrorIdle(m, undo, items, k, s)
    requires Act(m, items[k], s) == Fall(t)
    ensures Entered(m, undo, items, Running(k + 1, t))
  {
    var d := NextReal(items, k + 1);
    LastRealKept(undo, items, k);
    RealBefore(undo, items, k + 1);
    DeletedMeans(undo, items, d);
    hide Kept, LastReal, Deleted;
    if !items[k].IsLocation() && Deleted(undo, items, d) {
      assert Restores(m, CopyOf(undo, items, d), items[d].inst);
    }
  }

  lemma EnteredAtReal<I, S>(m: Machine<I, S>, undo: Undo<I>, items: seq<Item<I>>, k: nat, s: S)
    requires k < |items| && !items[k].IsLocation() && !Deleted(undo, items, k)
    ensures Entered(m, undo, items, Running(k, s))
  {
    hide Kept, LastReal, Deleted;
  }

  lemma EnteredAtLabel<I, S>(m: Machine<I, S>, undo: Undo<I>, items: seq<Item<I>>, k: nat, s: S)
    requires k < |items| && (items[k].Label? || items[k].Numeric?)
    ensures Entered(m, undo, items, Running(k, s))
  {
    DeletedMeans(undo, items, k);
    EnteredAtReal(m, undo, items, k, s);
  }

  lemma EnteredLocation<I, S>(m: Machine<I, S>, undo: Undo<I>, items: seq<Item<I>>, k: nat, s: S)
    requires k < |items| && Entered(m, undo, items, Running(k, s))
    ensures MirrorIdle(m, undo, items, k, s)
  {
    hide Kept, LastReal, MirrorIdle;
  }

  lemma MoveKept<I, S>(undo: Undo<I>, items: seq<Item<I>>, k: nat, move: Move<S>)
    requires k < |items| && !Deleted(undo, items, k)
    ensures Pos(undo, items, k) < |Kept(undo, items)|
    ensures AfterMove(items, k, move).Running? ==> AfterMove(items, k, move).at <= |items|
    ensures AfterMove(Kept(undo, items), Pos(undo, items, k), move) == Moved(undo, items, AfterMove(items, k, move))
  {
    PosNext(undo, items, k);
    hide Kept, Destination, Deleted;
    if move.Go? { DestinationKept(undo, items, k, move.target); }
  }

  lemma MoveEntered<I, S(!new)>(m: Machine<I, S>, undo: Undo<I>, items: seq<Item<I>>, k: nat, s: S)
    requires PairsRestore(m, undo, items) && k < |items| && !Deleted(undo, items, k)
    requires Entered(m, undo, items, Running(k, s))
    ensures Entered(m, undo, items, AfterMove(items, k, Act(m, items[k], s)))
  {
    var move := Act(m, items[k], s);
    match move
    case Fall(t) =>
      if items[k].IsLocation() { EnteredLocation(m, undo, items, k, s); }
      IdleAfter(m, undo, items, k, s, t);
    case Stop(ending, t) => OverEntered(m, undo, items, ending, t);
    case Go(target, t) =>
      DestinationKept(undo, items, k, target);
      hide Destination, Kept, Entered, Deleted, PairsRestore;
      match Destination(items, k, target)
      case Some(j) => EnteredAtLabel(m, undo, items, j, t);
      case None => OverEntered(m, undo, items, Left(target), t);
  }

  /** Everything else is the same step in both streams. */
  lemma KeptStep<I, S(!new)>(m: Machine<I, S>, undo: Undo<I>, items: seq<Item<I>>, k: nat, s: S)
    requires PairsRestore(m, undo, items) && k <= |items| && !Deleted(undo, items, k)
    requires Entered(m, undo, items, Running(k, s))
    ensures Entered(m, undo, items, Step(m, items, Running(k, s)))
    ensures Step(m, items, Running(k, s)).Running? ==> Step(m, items, Running(k, s)).at <= |items|
    ensures Step(m, Kept(undo, items), Running(Pos(undo, items, k), s)) ==
        Moved(undo, items, Step(m, items, Running(k, s)))
  {
    if k == |items| {
      assert items[..k] == items;
      OverEntered(m, undo, items, FellOff, s);
      hide Kept, Entered;
    } else {
      PosNext(undo, items, k);
      MoveKept(undo, items, k, Act(m, items[k], s));
      MoveEntered(m, undo, items, k, s);
      hide Kept, Entered, Act, AfterMove, PairsRestore, Deleted;
    }
  }

  lemma OverEntered<I, S>(m: Machine<I, S>, undo: Undo<I>, items: seq<Item<I>>, ending: Ending, s: S)
    ensures Entered(m, undo, items, Over(ending, s))
  {
  }

  lemma {:induction false} RunStays<I, S>(m: Machine<I, S>, items: seq<Item<I>>, c: Config<S>, n: nat)
    requires c.Over?
    ensures Run(m, items, c, n) == c
    decreases n
  {
    if n > 0 { RunStays(m, items, c, n - 1); }
  }

  /** Every run of the original stream is a run of the rewritten one that is no
      longer. */
  lemma {:induction false} RunsForward<I, S(!new)>(
    m: Machine<I, S>, undo: Undo<I>, items: seq<Item<I>>, c: Config<S>, n: nat) returns (n': nat)
    requires PairsRestore(m, undo, items) && Entered(m, undo, items, c)
    ensures n' <= n && Entered(m, undo, items, Run(m, items, c, n))
    ensures Run(m, Kept(undo, items), Moved(undo, items, c), n') == Moved(undo, items, Run(m, items, c, n))
    decreases n
  {
    hide Step, Kept, Entered, PairsRestore, Deleted;
    n' := 0;
    if n > 0 {
      EnteredBound(m, undo, items, c);
      if c.Over? {
        RunStays(m, items, c, n);
      } else if Deleted(undo, items, c.at) {
        DeletedStep(m, undo, items, c.at, c.state);
        EnteredBound(m, undo, items, Step(m, items, c));
        n' := RunsForward(m, undo, items, Step(m, items, c), n - 1);
      } else {
        KeptStep(m, undo, items, c.at, c.state);
        var rest := RunsForward(m, undo, items, Step(m, items, c), n - 1);
        n' := rest + 1;
      }
    }
  }

  lemma EnteredBound<I, S>(m: Machine<I, S>, undo: Undo<I>, items: seq<Item<I>>, c: Config<S>)
    requires Entered(m, undo, items, c)
    ensures c.Running? ==> c.at <= |items|
  {
  }

  /** And the other way round: only finitely many deleted mirrors come between. */
  lemma {:induction false} RunsBackward<I, S(!new)>(
    m: Machine<I, S>, undo: Undo<I>, items: seq<Item<I>>, c: Config<S>, n': nat) returns (n: nat)
    requires PairsRestore(m, undo, items) && Entered(m, undo, items, c)
    ensures n' <= n && Entered(m, undo, items, Run(m, items, c, n))
    ensures Run(m, Kept(undo, items), Moved(undo, items, c), n') == Moved(undo, items, Run(m, items, c, n))
    decreases n', if c.Running? then |items| + 1 - c.at else 0
  {
    hide Step, Kept, Entered, PairsRestore, Deleted;
    n := 0;
    if n' > 0 {
      EnteredBound(m, undo, items, c);
      if c.Over? {
        RunStays(m, items, c, n');
        RunStays(m, Kept(undo, items), c, n');
        n := n';
      } else if Deleted(undo, items, c.at) {
        DeletedStep(m, undo, items, c.at, c.state);
        DeletedBound(undo, items, c.at);
        EnteredBound(m, undo, items, Step(m, items, c));
        var rest := RunsBackward(m, undo, items, Step(m, items, c), n');
        n := rest + 1;
      } else {
        KeptStep(m, undo, items, c.at, c.state);
        var rest := RunsBackward(m, undo, items, Step(m, items, c), n' - 1);
        n := rest + 1;
      }
    }
  }

  lemma DeletedBound<I>(undo: Undo<I>, items: seq<Item<I>>, k: nat)
    requires Deleted(undo, items, k)
    ensures k < |items|
  {
  }

  ghost predicate Ends<I, S(!new)>(m: Machine<I, S>, items: seq<Item<I>>, c: Config<S>, end: Config<S>) {
    end.Over? && exists n: nat :: Run(m, items, c, n) == end
  }

  /** The peephole preserves execution: from the start of the stream or any label,
      in any state, the two streams end the same way in the same state, or neither
      ends. Only the copies whose mirrors were deleted matter. */
  lemma PeepholePreservesRuns<I, S(!new)>(
    m: Machine<I, S>, undo: Undo<I>, items: seq<Item<I>>, k: nat, s: S, end: Config<S>)
    requires PairsRestore(m, undo, items)
    requires k == 0 || (k < |items| && (items[k].Label? || items[k].Numeric?))
    ensures Ends(m, items, Running(k, s), end)
       <==> Ends(m, Kept(undo, items), Running(Pos(undo, items, k), s), end)
  {
    var c := Running(k, s);
    assert k == 0 ==> items[..k] == [];
    StartEntered(m, undo, items, k, s);
    hide Entered, Kept, Step;
    if Ends(m, items, c, end) {
      var n: nat :| Run(m, items, c, n) == end;
      var n' := RunsForward(m, undo, items, c, n);
    }
    if Ends(m, Kept(undo, items), Moved(undo, items, c), end) {
      var n': nat :| Run(m, Kept(undo, items), Moved(undo, items, c), n') == end;
      var n := RunsBackward(m, undo, items, c, n');
    }
  }

  /** Nothing comes before the first item, so nothing there is a mirror. */
  lemma StartEntered<I, S>(m: Machine<I, S>, undo: Undo<I>, items: seq<Item<I>>, k: nat, s: S)
    requires k == 0 || (k < |items| && (items[k].Label? || items[k].Numeric?))
    ensures Entered(m, undo, items, Running(k, s))
  {
    if k == 0 {
      RealBefore(undo, items, 0);
      DeletedMeans(undo, items, NextReal(items, 0));
      NothingFirst(undo, items);
      hide Kept, LastReal, Deleted;
    } else {
      EnteredAtLabel(m, undo, items, k, s);
    }
  }

  // ----- exactly when ------------------------------------------------------------------------

  /** The configuration of the rewritten stream that corresponds to one of the
      original. */
  ghost predicate Corresponds<I, S>(undo: Undo<I>, items: seq<Item<I>>, c: Config<S>, d: Config<S>) {
    match c
    case Over(_, _) => d == c
    case Running(k, s) => k <= |items| && d == Running(Pos(undo, items, k), s)
  }

  ghost predicate Follows<I, S>(m: Machine<I, S>, undo: Undo<I>, items: seq<Item<I>>, k: nat, s: S, n: nat)
    requires k <= |items|
  {
    exists n': nat :: n' <= n
      && Corresponds(undo, items, Run(m, items, Running(k, s), n),
           Run(m, Kept(undo, items), Running(Pos(undo, items, k), s), n'))
  }

  /** From every item that was kept and in every state, the rewritten stream follows
      the original at every step. */
  ghost predicate Lockstep<I, S(!new)>(m: Machine<I, S>, undo: Undo<I>, items: seq<Item<I>>) {
    forall k: nat, s: S, n: nat :: k < |items| && !Deleted(undo, items, k) && !items[k].IsLocation() ==>
      Follows(m, undo, items, k, s, n)
  }

  /** The deleted mirrors and their copies are copies: they fall through. */
  ghost predicate PairsFallThrough<I, S(!new)>(m: Machine<I, S>, undo: Undo<I>, items: seq<Item<I>>) {
    forall k: nat, s :: Deleted(undo, items, k) ==> m(CopyOf(undo, items, k), s).Next? && m(items[k].inst, s).Next?
  }

  lemma RestoringFollows<I, S(!new)>(m: Machine<I, S>, undo: Undo<I>, items: seq<Item<I>>, k: nat, s: S, n: nat)
    requires PairsRestore(m, undo, items) && k < |items| && !Deleted(undo, items, k) && !items[k].IsLocation()
    ensures Follows(m, undo, items, k, s, n)
  {
    EnteredAtReal(m, undo, items, k, s);
    hide Entered, Kept, Step, Deleted, PairsRestore;
    var n' := RunsForward(m, undo, items, Running(k, s), n);
    EnteredBound(m, undo, items, Run(m, items, Running(k, s), n));
  }

  /** The copy of a deleted mirror, and the first mirror that was deleted after it. */
  lemma {:induction false} FindCopy<I>(undo: Undo<I>, items: seq<Item<I>>, k: nat) returns (c: nat)
    requires k <= |items| && LastReal(Kept(undo, items[..k])).Some?
    ensures c < k && !Deleted(undo, items, c) && !items[c].IsLocation()
    ensures LastReal(Kept(undo, items[..k])) == Some(items[c])
    ensures forall j :: c < j < k ==> items[j].IsLocation() || Deleted(undo, items, j)
  {
    hide Kept, LastReal, Deleted;
    NothingFirst(undo, items);
    LastRealKept(undo, items, k - 1);
    if Deleted(undo, items, k - 1) || items[k - 1].IsLocation() {
      c := FindCopy(undo, items, k - 1);
    } else {
      c := k - 1;
    }
  }

  lemma NothingFirst<I>(undo: Undo<I>, items: seq<Item<I>>)
    ensures LastReal(Kept(undo, items[..0])) == None
  {
  }

  lemma FirstMirror<I>(undo: Undo<I>, items: seq<Item<I>>, k: nat) returns (c: nat, d: nat)
    requires Deleted(undo, items, k)
    ensures c < d <= k && !Deleted(undo, items, c) && items[c] == Item.Instruction(CopyOf(undo, items, k))
    ensures d == NextReal(items, c + 1) && Deleted(undo, items, d) && items[d].inst == items[k].inst
  {
    DeletedMeans(undo, items, k);
    c := FindCopy(undo, items, k);
    d := NextReal(items, c + 1);
    StopsBefore(items, c + 1, k);
    LastRealKept(undo, items, c);
    RealBefore(undo, items, c + 1);
    DeletedMeans(undo, items, d);
    hide Kept, LastReal, Deleted;
  }

  lemma {:induction false} StopsBefore<I>(items: seq<Item<I>>, j: nat, k: nat)
    requires j <= k < |items| && !items[k].IsLocation()
    ensures NextReal(items, j) <= k && !items[NextReal(items, j)].IsLocation()
    decreases k - j
  {
    if items[j].IsLocation() { StopsBefore(items, j + 1, k); }
  }

  /** Locations are stepped over in both streams alike. */
  lemma {:induction false} OverLocations<I, S>(
      m: Machine<I, S>, undo: Undo<I>, items: seq<Item<I>>, j: nat, s: S, n: nat)
    requires j <= |items| && n <= NextReal(items, j) - j
    ensures Run(m, items, Running(j, s), n) == Running(j + n, s) && j + n <= |items|
    ensures Pos(undo, items, j + n) == Pos(undo, items, j) + n
    ensures Run(m, Kept(undo, items), Running(Pos(undo, items, j), s), n) == Running(Pos(undo, items, j) + n, s)
    decreases n
  {
    hide Kept, LastReal, Deleted, Destination, Pos, NextReal, Step;
    if n > 0 {
      GapStarts(items, j);
      OverLocation(m, undo, items, j, s);
      OverLocations(m, undo, items, j + 1, s, n - 1);
    }
  }

  lemma GapStarts<I>(items: seq<Item<I>>, j: nat)
    requires j <= |items| && NextReal(items, j) > j
    ensures j < |items| && items[j].IsLocation() && NextReal(items, j) == NextReal(items, j + 1)
  {
  }

  lemma OverLocation<I, S>(m: Machine<I, S>, undo: Undo<I>, items: seq<Item<I>>, j: nat, s: S)
    requires j < |items| && items[j].IsLocation()
    ensures Step(m, items, Running(j, s)) == Running(j + 1, s)
    ensures Pos(undo, items, j + 1) == Pos(undo, items, j) + 1
    ensures Step(m, Kept(undo, items), Running(Pos(undo, items, j), s)) == Running(Pos(undo, items, j) + 1, s)
  {
    hide *;
    LocationStays(undo, items, j);
    PosNext(undo, items, j);
    LocationStep(m, items, j, s);
    LocationStep(m, Kept(undo, items), Pos(undo, items, j), s);
  }

  lemma LocationStep<I, S>(m: Machine<I, S>, items: seq<Item<I>>, k: nat, s: S)
    requires k < |items| && items[k].IsLocation()
    ensures Step(m, items, Running(k, s)) == Running(k + 1, s)
  {
    hide Destination;
  }

  lemma LocationStays<I>(undo: Undo<I>, items: seq<Item<I>>, k: nat)
    requires k < |items| && items[k].IsLocation()
    ensures !Deleted(undo, items, k)
  {
    hide Kept, LastReal;
    DeletedMeans(undo, items, k);
  }

  lemma {:induction false} RunAppend<I, S>(m: Machine<I, S>, items: seq<Item<I>>, c: Config<S>, a: nat, b: nat)
    ensures Run(m, items, c, a + b) == Run(m, items, Run(m, items, c, a), b)
    decreases a
  {
    if a > 0 { RunAppend(m, items, Step(m, items, c), a - 1, b); }
  }

  /** An instruction does not lead straight back to itself. */
  lemma StepLeaves<I, S>(m: Machine<I, S>, items: seq<Item<I>>, k: nat, s: S)
    ensures Step(m, items, Running(k, s)).Running? ==> Step(m, items, Running(k, s)).at != k
  {
    if k < |items| && Act(m, items[k], s).Go? {
      var target := Act(m, items[k], s).target;
      match target {
        case Named(name) =>
          if j: nat :| LastLabel(items, name, j) { NamedDestination(items, k, name, j); }
        case Forward(id) =>
      }
    }
  }

  /** A pair that does not restore makes the streams part: one step past the mirror
      the original is in a state the rewritten stream does not reach there. */
  lemma PairBreaksStep<I, S(!new)>(
    m: Machine<I, S>, undo: Undo<I>, items: seq<Item<I>>, c: nat, d: nat, s: S, t: S, u: S, n': nat)
    requires c < d < |items| && !Deleted(undo, items, c) && d == NextReal(items, c + 1) && Deleted(undo, items, d)
    requires items[c].Instruction? && m(items[c].inst, s) == Next(t)
    requires m(items[d].inst, t) == Next(u) && u != t && n' <= d - c + 1
    ensures !Corresponds(undo, items, Run(m, items, Running(c, s), d - c + 1),
                         Run(m, Kept(undo, items), Running(Pos(undo, items, c), s), n'))
  {
    hide *;
    var kept, p, gap := Kept(undo, items), Pos(undo, items, c), d - c - 1;
    PosNext(undo, items, c);
    PosNext(undo, items, d);
    DeletedMeans(undo, items, d);
    CopyRuns(m, undo, items, c, s, t);
    OverLocations(m, undo, items, c + 1, t, gap);
    MirrorRuns(m, items, c, d, s, t, u);
    if n' == 0 {
      RunNone(m, kept, Running(p, s));
      Apart(undo, items, d, u, Running(p, s));
    } else if n' <= gap + 1 {
      OverLocations(m, undo, items, c + 1, t, n' - 1);
      RunAppend(m, kept, Running(p, s), 1, n' - 1);
      Apart(undo, items, d, u, Running(p + n', t));
    } else {
      RunAppend(m, kept, Running(p, s), 1, gap);
      RunAppend(m, kept, Running(p, s), gap + 1, 1);
      OneStep(m, kept, Running(p + gap + 1, t));
      StepLeaves(m, kept, p + gap + 1, t);
      Apart(undo, items, d, u, Step(m, kept, Running(p + gap + 1, t)));
    }
  }

  lemma Apart<I, S>(undo: Undo<I>, items: seq<Item<I>>, d: nat, u: S, e: Config<S>)
    requires d < |items|
    requires e.Over? || e.at != Pos(undo, items, d + 1) || e.state != u
    ensures !Corresponds(undo, items, Running(d + 1, u), e)
  {
    hide Pos;
  }

  /** A copy falls through to the next item. */
  lemma StepFalls<I, S>(m: Machine<I, S>, items: seq<Item<I>>, k: nat, s: S, t: S)
    requires k < |items| && items[k].Instruction? && m(items[k].inst, s) == Next(t)
    ensures Step(m, items, Running(k, s)) == Running(k + 1, t)
  {
    hide Destination;
  }

  lemma RunNone<I, S>(m: Machine<I, S>, items: seq<Item<I>>, c: Config<S>)
    ensures Run(m, items, c, 0) == c
  {
  }

  lemma OneStep<I, S>(m: Machine<I, S>, items: seq<Item<I>>, c: Config<S>)
    ensures Run(m, items, c, 1) == Step(m, items, c)
  {
    hide Step;
  }

  lemma CopyRuns<I, S>(m: Machine<I, S>, undo: Undo<I>, items: seq<Item<I>>, c: nat, s: S, t: S)
    requires c < |items| && !Deleted(undo, items, c) && items[c].Instruction? && m(items[c].inst, s) == Next(t)
    ensures Run(m, items, Running(c, s), 1) == Running(c + 1, t)
    ensures Run(m, Kept(undo, items), Running(Pos(undo, items, c), s), 1) == Running(Pos(undo, items, c) + 1, t)
  {
    hide *;
    PosNext(undo, items, c);
    StepFalls(m, items, c, s, t);
    StepFalls(m, Kept(undo, items), Pos(undo, items, c), s, t);
    OneStep(m, items, Running(c, s));
    OneStep(m, Kept(undo, items), Running(Pos(undo, items, c), s));
  }

  lemma MirrorRuns<I, S>(m: Machine<I, S>, items: seq<Item<I>>, c: nat, d: nat, s: S, t: S, u: S)
    requires c < d < |items| && items[d].Instruction? && m(items[d].inst, t) == Next(u)
    requires Run(m, items, Running(c, s), 1) == Running(c + 1, t)
    requires Run(m, items, Running(c + 1, t), d - c - 1) == Running(d, t)
    ensures Run(m, items, Running(c, s), d - c + 1) == Running(d + 1, u)
  {
    hide *;
    RunAppend(m, items, Running(c, s), 1, d - c - 1);
    RunAppend(m, items, Running(c, s), d - c, 1);
    OneStep(m, items, Running(d, t));
    StepFalls(m, items, d, t, u);
  }

  lemma LockstepRestores<I, S(!new)>(m: Machine<I, S>, undo: Undo<I>, items: seq<Item<I>>, k: nat, s: S)
    requires Lockstep(m, undo, items) && PairsFallThrough(m, undo, items) && Deleted(undo, items, k)
    ensures var t := m(CopyOf(undo, items, k), s).state; m(items[k].inst, t) == Next(t)
  {
    var c, d := FirstMirror(undo, items, k);
    DeletedMeans(undo, items, d);
    var t := m(CopyOf(undo, items, k), s).state;
    hide Kept, LastReal, Deleted, Destination, Step, Run, NextReal;
    assert m(CopyOf(undo, items, k), s).Next? && m(items[k].inst, t).Next?;
    var u := m(items[k].inst, t).state;
    if u != t {
      assert Follows(m, undo, items, c, s, d - c + 1);
      var n': nat :| n' <= d - c + 1
        && Corresponds(undo, items, Run(m, items, Running(c, s), d - c + 1),
             Run(m, Kept(undo, items), Running(Pos(undo, items, c), s), n'));
      PairBreaksStep(m, undo, items, c, d, s, t, u, n');
    }
  }

  /** The peephole keeps a stream in step with the original exactly when every copy
      whose mirror it deletes restores. */
  lemma PeepholeExactly<I, S(!new)>(m: Machine<I, S>, undo: Undo<I>, items: seq<Item<I>>)
    requires PairsFallThrough(m, undo, items)
    ensures Lockstep(m, undo, items) <==> PairsRestore(m, undo, items)
  {
    hide Follows, Deleted, CopyOf;
    if PairsRestore(m, undo, items) {
      forall k: nat, s: S, n: nat | k < |items| && !Deleted(undo, items, k) && !items[k].IsLocation()
        ensures Follows(m, undo, items, k, s, n)
      {
        RestoringFollows(m, undo, items, k, s, n);
      }
    }
    if Lockstep(m, undo, items) {
      forall k: nat | Deleted(undo, items, k) ensures PairRestores(m, undo, items, k) {
        LockstepPair(m, undo, items, k);
      }
      AllPairs(m, undo, items);
    }
  }

  ghost predicate PairRestores<I, S(!new)>(m: Machine<I, S>, undo: Undo<I>, items: seq<Item<I>>, k: nat)
    requires Deleted(undo, items, k)
  {
    Restores(m, CopyOf(undo, items, k), items[k].inst)
  }

  lemma AllPairs<I, S(!new)>(m: Machine<I, S>, undo: Undo<I>, items: seq<Item<I>>)
    requires forall k: nat :: Deleted(undo, items, k) ==> PairRestores(m, undo, items, k)
    ensures PairsRestore(m, undo, items)
  {
    hide Kept, Restores;
    forall k: nat | Deleted(undo, items, k) ensures Restores(m, CopyOf(undo, items, k), items[k].inst) {
      assert PairRestores(m, undo, items, k);
    }
  }

  lemma LockstepPair<I, S(!new)>(m: Machine<I, S>, undo: Undo<I>, items: seq<Item<I>>, k: nat)
    requires Lockstep(m, undo, items) && PairsFallThrough(m, undo, items) && Deleted(undo, items, k)
    ensures PairRestores(m, undo, items, k)
  {
    forall s: S | m(CopyOf(undo, items, k), s).Next?
      ensures m(items[k].inst, m(CopyOf(undo, items, k), s).state) == Next(m(CopyOf(undo, items, k), s).state)
    {
      LockstepRestores(m, undo, items, k, s);
    }
    hide Lockstep, PairsFallThrough, Kept;
  }

  /** And only a sound `undo` does: a copy whose mirror changes some state is a
      stream of two instructions that the peephole changes. */
  lemma OnlySoundUndo<I, S(!new)>(m: Machine<I, S>, undo: Undo<I>, copy: I, s: S)
    requires undo(copy).Some? && m(copy, s).Next?
    requires var t := m(copy, s).state; m(undo(copy).value, t).Next? && m(undo(copy).value, t).state != t
    ensures var items := [Item.Instruction(copy), Item.Instruction(undo(copy).value)];
      exists end :: Ends(m, items, Running(0, s), end) && !Ends(m, Kept(undo, items), Running(0, s), end)
  {
    var mirror := undo(copy).value;
    var items := [Item.Instruction(copy), Item.Instruction(mirror)];
    var t := m(copy, s).state;
    var u := m(mirror, t).state;
    assert items[..1] == [items[0]] && items[..0] == [];
    assert Kept(undo, items[..1]) == [items[0]];
    assert LastReal([items[0]]) == Some(items[0]);
    assert Kept(undo, items) == [items[0]];
    var end := Over(FellOff, u);
    assert Run(m, items, Running(0, s), 3) == end by {
      assert Step(m, items, Running(0, s)) == Running(1, t);
      assert Step(m, items, Running(1, t)) == Running(2, u);
      assert Run(m, items, Running(2, u), 1) == end;
      assert Run(m, items, Running(1, t), 2) == end;
    }
    if n: nat :| Run(m, [items[0]], Running(0, s), n) == end {
      assert Step(m, [items[0]], Running(0, s)) == Running(1, t);
      assert Step(m, [items[0]], Running(1, t)) == Over(FellOff, t);
      if n >= 2 {
        assert Run(m, [items[0]], Running(0, s), n) == Run(m, [items[0]], Over(FellOff, t), n - 2);
        RunStays(m, [items[0]], Over(FellOff, t), n - 2);
      }
    }
    assert Ends(m, items, Running(0, s), end);
  }

  // ----- what it does to the length ------------------------------------------------------

  /** The rewrite never makes a function longer, so one that was short enough for its
      branches stays so. */
  lemma {:induction false} PeepholeShrinks<I>(undo: Undo<I>, items: seq<Item<I>>, s: Items.Section)
    ensures WordCode.WordsIn(Kept(undo, items), s) <= WordCode.WordsIn(items, s)
  {
    if items != [] {
      hide *;
      var front, last := items[..|items| - 1], items[|items| - 1];
      PeepholeShrinks(undo, front, s);
      SectionKept(undo, front);
      WordsNext(front, last, s);
      WordsNext(Kept(undo, front), last, s);
      KeptNext(undo, front, last);
      assert items == front + [last];
    } else {
      assert Kept(undo, items) == [];
    }
  }

  lemma WordsNext<I>(front: seq<Item<I>>, last: Item<I>, s: Items.Section)
    ensures WordCode.WordsIn(front + [last], s)
         == WordCode.WordsIn(front, s) + if last.Instruction? && SectionAfter(front) == Some(s) then 1 else 0
  {
    assert (front + [last])[..|front|] == front;
  }

  lemma KeptNext<I>(undo: Undo<I>, front: seq<Item<I>>, last: Item<I>)
    ensures Kept(undo, front + [last]) == Kept(undo, front) || Kept(undo, front + [last]) == Kept(undo, front) + [last]
  {
    assert (front + [last])[..|front|] == front;
  }
}
