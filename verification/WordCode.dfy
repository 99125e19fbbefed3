/** Sections of one-word instructions: a function short enough for its conditional
    branches always lays out. */
module WordCode {
  import opened Types
  import opened Items
  import opened Layout
  import opened Resolve
  import opened Linking

  /** How far a conditional branch reaches, in words. */
  const CONDITIONAL_BRANCH_REACH: nat := 0x4_0000

  function TooLargeForABranch(words: nat): bool {
    words >= CONDITIONAL_BRANCH_REACH
  }

  /** A function is too large exactly when a conditional branch over all of it would not
      be encodable. */
  lemma ReachIsSharp(words: nat)
    ensures TooLargeForABranch(words) <==> !Displaces(CondBr19, 4 * words)
    ensures words > 0 && !TooLargeForABranch(words) ==> Displaces(CondBr19, -4 * words)
  {
  }

  /** An AArch64 instruction is one word with at most one field, measured from the
      instruction itself. */
  ghost predicate OneWordEach<I(!new)>(enc: Encoder<I>) {
    forall i :: enc(i).Ok? ==>
      && |enc(i).value.bytes| == 4 && |enc(i).value.fixups| <= 1
      && forall f :: f in enc(i).value.fixups ==> f.offset == 0 && f.addend == 0 && f.kind != Pc32 && f.kind != Plt32
  }

  /** Nothing but instructions takes up space in section `s`. */
  ghost predicate OnlyCode<I>(items: seq<Item<I>>, s: Items.Section) {
    forall k :: 0 <= k < |items| && items[k].Bytes? ==> SectionAfter(items[..k]) != Some(s)
  }

  function WordsIn<I>(items: seq<Item<I>>, s: Items.Section): nat {
    if items == [] then 0
    else
      var front := items[..|items| - 1];
      WordsIn(front, s) + if items[|items| - 1].Instruction? && SectionAfter(front) == Some(s) then 1 else 0
  }

  lemma OneWordEncodes<I(!new)>(enc: Encoder<I>)
    requires OneWordEach(enc)
    ensures Encodes(enc)
  {
  }

  lemma PlacedEncodes<I>(enc: Encoder<I>, defs: seq<SectionDef>, st: Placed, item: Item<I>)
    requires Valid(defs, st) && (item.Section? ==> item.section < |defs|)
    requires Place(enc, defs, st, item).Ok? && item.Instruction?
    ensures enc(item.inst).Ok?
  {
  }

  /** A section of code is as many words as it has instructions. */
  lemma {:induction false} WordBytes<I(!new)>(
      enc: Encoder<I>, defs: seq<SectionDef>, items: seq<Item<I>>, s: Items.Section)
    requires InTable(defs, items) && PlaceAll(enc, defs, items).Ok? && OneWordEach(enc) && OnlyCode(items, s)
    ensures |BytesIn(enc, items, s)| == 4 * WordsIn(items, s)
  {
    hide Place, Valid, SectionAfter;
    if items != [] {
      var n := |items| - 1;
      var front, last := items[..n], items[n];
      OnlyCodeBefore(items, s, n);
      WordBytes(enc, defs, front, s);
      if last.Instruction? { PlacedEncodes(enc, defs, PlaceAll(enc, defs, front).value, last); }
    }
  }

  lemma OnlyCodeBefore<I>(items: seq<Item<I>>, s: Items.Section, n: nat)
    requires OnlyCode(items, s) && n <= |items|
    ensures OnlyCode(items[..n], s)
    ensures n < |items| && items[n].Bytes? ==> SectionAfter(items[..n]) != Some(s)
  {
    forall k | 0 <= k < n && items[..n][k].Bytes? ensures SectionAfter(items[..n][..k]) != Some(s) {
      assert items[..n][..k] == items[..k];
    }
  }

  lemma {:induction false} WordsGrow<I>(items: seq<Item<I>>, j: nat, k: nat, s: Items.Section)
    requires j <= k <= |items|
    ensures WordsIn(items[..j], s) <= WordsIn(items[..k], s)
    decreases k
  {
    if j < k {
      assert items[..k][..k - 1] == items[..k - 1];
      WordsGrow(items, j, k - 1, s);
    }
  }

  /** Where item `k` of a code section is, in words. */
  lemma PlaceInWords<I(!new)>(enc: Encoder<I>, defs: seq<SectionDef>, items: seq<Item<I>>, k: nat, s: Items.Section)
    requires InTable(defs, items) && PlaceAll(enc, defs, items).Ok?
    requires OneWordEach(enc) && OnlyCode(items, s) && k <= |items|
    ensures |BytesIn(enc, items[..k], s)| % 4 == 0
    ensures |BytesIn(enc, items[..k], s)| <= 4 * WordsIn(items, s)
  {
    hide PlaceAll, BytesIn, WordsIn, OnlyCode, OneWordEach;
    if PlaceAll(enc, defs, items[..k]).Err? { PrefixFails(enc, defs, items, k); }
    OnlyCodeBefore(items, s, k);
    WordBytes(enc, defs, items[..k], s);
    assert items[..|items|] == items;
    WordsGrow(items, k, |items|, s);
  }

  /** A reference of a code section that can be patched is between two places that
      a short section keeps within reach. */
  lemma ReferenceFits<I(!new)>(
    enc: Encoder<I>, defs: seq<SectionDef>, items: seq<Item<I>>, k: nat, s: Items.Section, f: Fixup)
    requires InTable(defs, items) && PlaceAll(enc, defs, items).Ok?
    requires OneWordEach(enc) && OnlyCode(items, s) && s < |defs|
    requires !TooLargeForABranch(WordsIn(items, s)) && Refers(enc, items, k, s, f)
    ensures f.offset % 4 == 0 && f.offset < 4 * WordsIn(items, s) && f.addend == 0 && f.kind != Pc32 && f.kind != Plt32
    ensures var st := PlaceAll(enc, defs, items).value;
      var place := Where(Scope(s, st.labels, st.code[s].forward), f);
      place.Some? && place.value.section == s ==>
          place.value.offset % 4 == 0 && place.value.offset <= 4 * WordsIn(items, s)
  {
    var st := PlaceAll(enc, defs, items).value;
    var place := Where(Scope(s, st.labels, st.code[s].forward), f);
    OneWordEncodes(enc);
    PlaceInWords(enc, defs, items, k, s);
    FieldBefore(enc, defs, items, k, s, f);
    LabelsPlaced(enc, defs, items);
    if f.target.Forward? { ForwardMeaning(enc, defs, items, k, s, f); }
    hide PlaceAll, BytesIn, NextMark, WordsIn, SectionAfter, LastLabel, OneWordEach, OnlyCode;
    if place.Some? && place.value.section == s {
      match f.target
      case Forward(id) =>
        var j: nat :| NextMark(items, k, s, id, j) && |BytesIn(enc, items[..j], s)| == place.value.offset;
        MarkInStream(items, k, s, id, j);
        PlaceInWords(enc, defs, items, j, s);
      case Named(name) =>
        var j: nat :| LastLabel(items, name, j);
        LabelInStream(items, name, j);
        assert At(enc, items, j, place.value);
        PlaceInWords(enc, defs, items, j, s);
    }
  }

  lemma MarkInStream<I>(items: seq<Item<I>>, k: nat, s: Items.Section, id: nat, j: nat)
    requires NextMark(items, k, s, id, j)
    ensures j < |items|
  {
  }

  lemma LabelInStream<I>(items: seq<Item<I>>, name: Name, j: nat)
    requires LastLabel(items, name, j)
    ensures j < |items|
  {
  }

  lemma FieldBefore<I(!new)>(
    enc: Encoder<I>, defs: seq<SectionDef>, items: seq<Item<I>>, k: nat, s: Items.Section, f: Fixup)
    requires InTable(defs, items) && PlaceAll(enc, defs, items).Ok? && OneWordEach(enc) && OnlyCode(items, s)
    requires Refers(enc, items, k, s, f)
    ensures f.offset == |BytesIn(enc, items[..k], s)| && f.offset + 4 <= 4 * WordsIn(items, s)
    ensures f.addend == 0 && f.kind != Pc32 && f.kind != Plt32
  {
    assert items[..k + 1][..k] == items[..k];
    PlaceInWords(enc, defs, items, k + 1, s);
    assert |BytesIn(enc, items[..k + 1], s)| == |BytesIn(enc, items[..k], s)| + 4;
  }

  /** One fixup of a short code section is never refused. */
  lemma FixupResolves(scope: Scope, w: Work, f: Fixup, words: nat)
    requires !TooLargeForABranch(words) && |w.bytes| == 4 * words
    requires f.offset % 4 == 0 && f.offset < 4 * words && f.addend == 0 && f.kind != Pc32 && f.kind != Plt32
    requires f.target.Forward? ==> Where(scope, f).Some?
    requires var place := Where(scope, f);
      place.Some? && place.value.section == scope.here ==>
          place.value.offset % 4 == 0 && place.value.offset <= 4 * words
    ensures ResolveOne(scope, w, f).Ok? && |ResolveOne(scope, w, f).value.bytes| == |w.bytes|
  {
    hide Where, Patch, SymbolIndex, WithSymbol;
    var place := Where(scope, f);
    if place.Some? && place.value.section == scope.here {
      PatchMeaning(w.bytes, f, place.value.offset + f.addend - f.offset);
    }
  }

  lemma {:induction false} ShortResolves(scope: Scope, w: Work, fixups: seq<Fixup>, words: nat)
    requires !TooLargeForABranch(words) && |w.bytes| == 4 * words
    requires forall f :: f in fixups ==>
      && f.offset % 4 == 0 && f.offset < 4 * words && f.addend == 0 && f.kind != Pc32 && f.kind != Plt32
      && (f.target.Forward? ==> Where(scope, f).Some?)
      && (Where(scope, f).Some? && Where(scope, f).value.section == scope.here ==>
            Where(scope, f).value.offset % 4 == 0 && Where(scope, f).value.offset <= 4 * words)
    ensures ResolveAll(scope, w, fixups).Ok?
    decreases |fixups|
  {
    hide Where, ResolveOne;
    if fixups != [] {
      FixupResolves(scope, w, fixups[0], words);
      ShortResolves(scope, ResolveOne(scope, w, fixups[0]).value, fixups[1..], words);
    }
  }

  /** Every `1f` written in section `s` has its label. */
  ghost predicate LabelsFollow<I(!new)>(enc: Encoder<I>, items: seq<Item<I>>, s: Items.Section) {
    forall k: nat, f :: Refers(enc, items, k, s, f) && f.target.Forward? ==> PointsInto(items, k, s, f.target)
  }

  /** A function under 2^18 words always lays out: in a section of fewer
      instructions than that, with every numeric reference followed by its label,
      no fixup is refused, whatever the other sections did before; and a reference of
      a kind that can be patched, to a local label of the section, is patched. */
  lemma ShortFunctionLaysOut<I(!new)>(
    enc: Encoder<I>, defs: seq<SectionDef>, items: seq<Item<I>>, s: Items.Section, w: Work)
    requires InTable(defs, items) && PlaceAll(enc, defs, items).Ok?
    requires OneWordEach(enc) && OnlyCode(items, s) && s < |defs|
    requires !TooLargeForABranch(WordsIn(items, s))
    requires |w.bytes| == |BytesIn(enc, items, s)| && LabelsFollow(enc, items, s)
    ensures var st := PlaceAll(enc, defs, items).value;
      var r := ResolveAll(Scope(s, st.labels, st.code[s].forward), w, st.code[s].fixups);
      && r.Ok?
      && (w.relocations == [] ==>
            forall k: nat, f :: Refers(enc, items, k, s, f) ==>
              (f.offset in Offsets(r.value.relocations) <==> !PatchedHere(items, k, s, f)))
  {
    var st := PlaceAll(enc, defs, items).value;
    var scope, words := Scope(s, st.labels, st.code[s].forward), WordsIn(items, s);
    OneWordEncodes(enc);
    WordBytes(enc, defs, items, s);
    FixupsPlaced(enc, defs, items, s);
    FixupsInOrder(enc, defs, items);
    BytesPlaced(enc, defs, items);
    hide PlaceAll, BytesIn, Refers, WordsIn, OneWordEach, OnlyCode, TooLargeForABranch, PointsInto, FieldsInOrder,
        InPlace;
    forall f | f in st.code[s].fixups
      ensures f.offset % 4 == 0 && f.offset < 4 * words && f.addend == 0 && f.kind != Pc32 && f.kind != Plt32
        && (f.target.Forward? ==> Where(scope, f).Some?)
        && (Where(scope, f).Some? && Where(scope, f).value.section == scope.here ==>
              Where(scope, f).value.offset % 4 == 0 && Where(scope, f).value.offset <= 4 * words)
    {
      var k: nat :| Refers(enc, items, k, s, f);
      ReferenceFits(enc, defs, items, k, s, f);
      WhereInto(enc, defs, items, k, s, f);
    }
    ShortResolves(scope, w, st.code[s].fixups, words);
    hide Where;
    if w.relocations == [] {
      forall k: nat, f | Refers(enc, items, k, s, f)
        ensures f.offset in Offsets(ResolveAll(scope, w, st.code[s].fixups).value.relocations) <==>
            !PatchedHere(items, k, s, f)
      {
        LeftAre(scope, w, st.code[s].fixups, f);
        HereInto(enc, defs, items, k, s, f);
      }
    }
  }

  /** A conditional branch, call or jump to a local label of its own section. */
  ghost predicate PatchedHere<I>(items: seq<Item<I>>, k: nat, s: Items.Section, f: Fixup) {
    f.kind.ResolvableInPlace() && IsLocal(f.target) && PointsInto(items, k, s, f.target)
  }

  lemma HereInto<I(!new)>(
      enc: Encoder<I>, defs: seq<SectionDef>, items: seq<Item<I>>, k: nat, s: Items.Section, f: Fixup)
    requires InTable(defs, items) && PlaceAll(enc, defs, items).Ok?
    requires Encodes(enc) && s < |defs| && Refers(enc, items, k, s, f)
    ensures var st := PlaceAll(enc, defs, items).value;
      InPlace(Scope(s, st.labels, st.code[s].forward), f) <==> PatchedHere(items, k, s, f)
  {
    hide PlaceAll, Refers, Where, PointsInto, InTable, Encodes;
    WhereInto(enc, defs, items, k, s, f);
  }

  lemma LeftAre(scope: Scope, w: Work, fixups: seq<Fixup>, f: Fixup)
    requires FieldsInOrder(fixups, |w.bytes|) && ResolveAll(scope, w, fixups).Ok? && w.relocations == [] && f in fixups
    ensures f.offset in Offsets(ResolveAll(scope, w, fixups).value.relocations) <==> !InPlace(scope, f)
  {
    hide ResolveAll, InPlace, LeftOffsets, FieldsInOrder, Settled;
    ResolveAllSettles(scope, w, fixups);
    LeftOffsetsAre(scope, fixups, f.offset);
    assert Offsets(w.relocations) + LeftOffsets(scope, fixups) == LeftOffsets(scope, fixups);
    forall g | g in fixups && g.offset == f.offset ensures g == f {
      SameField(fixups, |w.bytes|, f, g);
    }
  }

  // ----- the whole object ----------------------------------------------------------------

  /** Every code section holds instructions only, few enough, with its labels. */
  ghost predicate ShortCode<I(!new)>(enc: Encoder<I>, defs: seq<SectionDef>, items: seq<Item<I>>) {
    forall s: Items.Section :: s < |defs| && defs[s].kind.HoldsCode() ==>
      OnlyCode(items, s) && !TooLargeForABranch(WordsIn(items, s)) && LabelsFollow(enc, items, s)
  }

  /** The fixups of section `s` are accepted whatever was resolved before. */
  ghost predicate Accepts(labels: map<Name, Spot>, o: Resolved, s: nat)
    requires s < |o.data|
  {
    forall w: Work :: |w.bytes| == |o.data[s].bytes| ==> ResolveAll(ScopeOf(labels, o.data, s), w, o.data[s].fixups).Ok?
  }

  lemma {:induction false} AllAccepted(labels: map<Name, Spot>, o: Resolved, s: nat)
    requires forall i :: s <= i < |o.data| ==> Accepts(labels, o, i)
    ensures ResolveFrom(labels, o, s).Ok?
    decreases |o.data| - s
  {
    hide ResolveAll;
    if s < |o.data| {
      var sd := o.data[s];
      assert Accepts(labels, o, s);
      var w := ResolveAll(ScopeOf(labels, o.data, s), Work(sd.bytes, sd.relocations, o.symbols), sd.fixups).value;
      var next := AfterSection(o, s, w);
      forall i | s + 1 <= i < |next.data| ensures Accepts(labels, next, i) {
        assert Accepts(labels, o, i) && next.data[i] == o.data[i];
      }
      AllAccepted(labels, next, s + 1);
    }
  }

  /** A section that holds no code has no instruction to record a fixup. */
  lemma DataHasNoFixups<I(!new)>(enc: Encoder<I>, defs: seq<SectionDef>, items: seq<Item<I>>, s: Items.Section)
    requires InTable(defs, items) && PlaceAll(enc, defs, items).Ok?
    requires Encodes(enc) && s < |defs| && !defs[s].kind.HoldsCode()
    ensures PlaceAll(enc, defs, items).value.code[s].fixups == []
  {
    FixupsPlaced(enc, defs, items, s);
    var fixups := PlaceAll(enc, defs, items).value.code[s].fixups;
    if fixups != [] {
      assert fixups[0] in fixups;
      var k: nat :| Refers(enc, items, k, s, fixups[0]);
      InstructionInCode(enc, defs, items, k, s);
    }
  }

  lemma InstructionInCode<I(!new)>(
      enc: Encoder<I>, defs: seq<SectionDef>, items: seq<Item<I>>, k: nat, s: Items.Section)
    requires InTable(defs, items) && PlaceAll(enc, defs, items).Ok? && s < |defs|
    requires k < |items| && items[k].Instruction? && SectionAfter(items[..k]) == Some(s)
    ensures defs[s].kind.HoldsCode()
  {
    hide SectionAfter;
    if PlaceAll(enc, defs, items[..k + 1]).Err? { PrefixFails(enc, defs, items, k + 1); }
    assert items[..k + 1][..k] == items[..k];
    BytesPlaced(enc, defs, items[..k]);
  }

  /** A program of short functions finishes. */
  lemma ShortProgramFinishes<I(!new)>(enc: Encoder<I>, defs: seq<SectionDef>, items: seq<Item<I>>)
    requires InTable(defs, items) && PlaceAll(enc, defs, items).Ok? && OneWordEach(enc) && ShortCode(enc, defs, items)
    ensures exists end :: Finishes(enc, defs, items, end)
  {
    hide PlaceAll, BytesIn, OnlyCode, WordsIn, LabelsFollow, ResolveAll, ResolveFrom, OneWordEach, TooLargeForABranch;
    OneWordEncodes(enc);
    LaidOut(enc, defs, items);
    var st := PlaceAll(enc, defs, items).value;
    var o := Initial(st);
    forall s | 0 <= s < |o.data| ensures Accepts(st.labels, o, s) {
      forall w: Work | |w.bytes| == |o.data[s].bytes|
        ensures ResolveAll(ScopeOf(st.labels, o.data, s), w, o.data[s].fixups).Ok?
      {
        if defs[s].kind.HoldsCode() {
          ShortFunctionLaysOut(enc, defs, items, s, w);
        } else {
          DataHasNoFixups(enc, defs, items, s);
          NothingToResolve(ScopeOf(st.labels, o.data, s), w);
        }
      }
    }
    AllAccepted(st.labels, o, 0);
    assert Finishes(enc, defs, items, ResolveFrom(st.labels, o, 0).value);
  }

  lemma NothingToResolve(scope: Scope, w: Work)
    ensures ResolveAll(scope, w, []).Ok?
  {
  }
}
