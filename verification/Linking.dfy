/** From the stream to the linked program: what every reference of a finished
    object means. */
module Linking {
  import opened Types
  import opened Items
  import opened Layout
  import L = Layout
  import opened Resolve

  /** Where a linker puts each section, and where it finds other names. */
  datatype Image = Image(base: Items.Section -> int, external: Name -> int)

  function Initial(st: Placed): Resolved {
    Resolved(seq(|st.code|, i requires 0 <= i < |st.code| => DataOf(st.code[i])),
             AddGlobals(st.symbols, st.labels, st.globals))
  }

  /** The finished object of a stream: laid out, then resolved. */
  ghost predicate Finishes<I(!new)>(enc: Encoder<I>, defs: seq<SectionDef>, items: seq<Item<I>>, end: Resolved) {
    && Encodes(enc) && InTable(defs, items)
    && match PlaceAll(enc, defs, items)
       case Err(_) => false
       case Ok(st) => ResolveFrom(st.labels, Initial(st), 0) == Ok(end)
  }

  /** `Assembly::finish`: the same two passes in sequence. */
  method Finish<I(!new)>(enc: Encoder<I>, defs: seq<SectionDef>, items: seq<Item<I>>) returns (r: Result<Object>)
    requires Encodes(enc) && InTable(defs, items)
    ensures r.Ok? ==> fresh(r.value) && Finishes(enc, defs, items, Resolved(r.value.data, r.value.symbols))
    ensures r.Err? ==> forall end :: !Finishes(enc, defs, items, end)
  {
    var pass := new L.Layout(enc, defs);
    var placed := pass.Run(items);
    if placed.Err? { return Err(placed.error); }
    var finished := new Object(pass.code, pass.symbols, pass.labels);
    assert Resolved(finished.data, finished.symbols) == Initial(PlaceAll(enc, defs, items).value);
    var resolved := finished.ResolveFixups();
    if resolved.Err? { return Err(resolved.error); }
    return Ok(finished);
  }

  // ----- all sections ---------------------------------------------------------------

  /** The section as its fixups are settled, with the final symbol table. */
  function WorkOf(o: Resolved, s: nat): Work
    requires s < |o.data|
  {
    Work(o.data[s].bytes, o.data[s].relocations, o.symbols)
  }

  lemma {:induction false} SectionsExtend(labels: map<Name, Spot>, o: Resolved, s: nat)
    requires ResolveFrom(labels, o, s).Ok?
    requires forall i :: s <= i < |o.data| ==> FieldsInOrder(o.data[i].fixups, |o.data[i].bytes|)
    ensures var end := ResolveFrom(labels, o, s).value;
      && |end.data| == |o.data| && |o.symbols| <= |end.symbols| && end.symbols[..|o.symbols|] == o.symbols
      && forall i :: 0 <= i < |o.data| && i < s ==> end.data[i] == o.data[i]
    decreases |o.data| - s
  {
    if s < |o.data| {
      var sd := o.data[s];
      var w := ResolveAll(ScopeOf(labels, o.data, s), Work(sd.bytes, sd.relocations, o.symbols), sd.fixups).value;
      ResolveAllSettles(ScopeOf(labels, o.data, s), Work(sd.bytes, sd.relocations, o.symbols), sd.fixups);
      hide ResolveAll;
      var next := AfterSection(o, s, w);
      SectionsExtend(labels, next, s + 1);
      var end := ResolveFrom(labels, o, s).value;
      assert end.symbols[..|o.symbols|] == end.symbols[..|w.symbols|][..|o.symbols|];
    } else {
      assert o.symbols[..|o.symbols|] == o.symbols;
    }
  }

  /** What one pass over the sections does to section `t`. */
  ghost predicate SectionSettled(labels: map<Name, Spot>, o: Resolved, end: Resolved, t: nat)
    requires t < |o.data| && t < |end.data|
  {
    var scope, sd := ScopeOf(labels, o.data, t), o.data[t];
    && |end.data[t].bytes| == |sd.bytes|
    && (forall f :: f in sd.fixups ==> Settled(scope, sd.bytes, WorkOf(end, t), f))
    && (forall p :: 0 <= p < |sd.bytes| && (forall f :: f in sd.fixups ==> Outside(f, p)) ==>
          end.data[t].bytes[p] == sd.bytes[p])
    && Offsets(end.data[t].relocations) == Offsets(sd.relocations) + LeftOffsets(scope, sd.fixups)
  }

  lemma {:induction false} SectionsSettled(labels: map<Name, Spot>, o: Resolved, s: nat, t: nat)
    requires ResolveFrom(labels, o, s).Ok? && s <= t < |o.data|
    requires forall i :: s <= i < |o.data| ==> FieldsInOrder(o.data[i].fixups, |o.data[i].bytes|)
    ensures |ResolveFrom(labels, o, s).value.data| == |o.data|
    ensures SectionSettled(labels, o, ResolveFrom(labels, o, s).value, t)
    decreases |o.data| - s
  {
    var sd, scope := o.data[s], ScopeOf(labels, o.data, s);
    var start := Work(sd.bytes, sd.relocations, o.symbols);
    var w := ResolveAll(scope, start, sd.fixups).value;
    var next := AfterSection(o, s, w);
    hide ResolveAll, Settled, LeftOffsets, FieldsInOrder, SectionSettled;
    if s == t {
      ResolveAllSettles(scope, start, sd.fixups);
      SectionsExtend(labels, next, s + 1);
      LaterSettled(labels, o, next, ResolveFrom(labels, o, s).value, s, w);
    } else {
      SectionsSettled(labels, next, s + 1, t);
    }
  }

  /** A section that is done stays as it is while the others are worked on. */
  lemma LaterSettled(labels: map<Name, Spot>, o: Resolved, next: Resolved, end: Resolved, s: nat, w: Work)
    requires s < |o.data| && next == AfterSection(o, s, w) && |end.data| == |o.data| && end.data[s] == next.data[s]
    requires |next.symbols| <= |end.symbols| && end.symbols[..|next.symbols|] == next.symbols
    requires FieldsInOrder(o.data[s].fixups, |o.data[s].bytes|)
    requires var scope, sd := ScopeOf(labels, o.data, s), o.data[s];
      && |w.bytes| == |sd.bytes|
      && (forall f :: f in sd.fixups ==> Settled(scope, sd.bytes, w, f))
      && (forall p :: 0 <= p < |sd.bytes| && (forall f :: f in sd.fixups ==> Outside(f, p)) ==>
           w.bytes[p] == sd.bytes[p])
      && Offsets(w.relocations) == Offsets(sd.relocations) + LeftOffsets(scope, sd.fixups)
    ensures SectionSettled(labels, o, end, s)
  {
    hide Settled, LeftOffsets, FieldsInOrder;
    var scope, sd := ScopeOf(labels, o.data, s), o.data[s];
    assert WorkOf(end, s) == w.(symbols := end.symbols);
    assert w.relocations[..|w.relocations|] == w.relocations;
    forall f | f in sd.fixups ensures Settled(scope, sd.bytes, WorkOf(end, s), f) {
      KeptInside(sd.fixups, |sd.bytes|, f);
      SettledStays(scope, sd.bytes, w, WorkOf(end, s), f);
    }
  }

  lemma KeptInside(fixups: seq<Fixup>, size: nat, f: Fixup)
    requires FieldsInOrder(fixups, size) && f in fixups
    ensures f.offset + 4 <= size
  {
  }

  /** Every fixup of the sections from `s` on can be resolved. */
  ghost predicate AllResolvable(labels: map<Name, Spot>, o: Resolved, s: nat) {
    forall t, f :: s <= t < |o.data| && f in o.data[t].fixups ==>
      Resolvable(ScopeOf(labels, o.data, t), |o.data[t].bytes|, f)
  }

  lemma {:induction false} SectionsResolve(labels: map<Name, Spot>, o: Resolved, s: nat)
    ensures ResolveFrom(labels, o, s).Ok? <==> AllResolvable(labels, o, s)
    decreases |o.data| - s
  {
    hide ResolveAll, Resolvable;
    if s < |o.data| {
      var sd := o.data[s];
      var start := Work(sd.bytes, sd.relocations, o.symbols);
      ResolvesExactly(ScopeOf(labels, o.data, s), start, sd.fixups);
      var r := ResolveAll(ScopeOf(labels, o.data, s), start, sd.fixups);
      if r.Ok? {
        var next := AfterSection(o, s, r.value);
        SectionsResolve(labels, next, s + 1);
        assert forall t :: s + 1 <= t < |o.data| ==> next.data[t] == o.data[t];
        OthersResolve(labels, o, next, s);
      }
    }
  }

  lemma OthersResolve(labels: map<Name, Spot>, o: Resolved, next: Resolved, s: nat)
    requires s < |o.data| == |next.data| && forall t :: s + 1 <= t < |o.data| ==> next.data[t] == o.data[t]
    ensures AllResolvable(labels, next, s + 1) <==> AllResolvable(labels, o, s + 1)
  {
    hide Resolvable;
    forall t | s + 1 <= t < |o.data| ensures ScopeOf(labels, next.data, t) == ScopeOf(labels, o.data, t) {
      assert next.data[t] == o.data[t];
    }
  }

  /** A stream makes an object exactly when every item may stand where it does and every
      reference can be resolved. */
  lemma FinishesExactly<I(!new)>(enc: Encoder<I>, defs: seq<SectionDef>, items: seq<Item<I>>)
    requires Encodes(enc) && InTable(defs, items)
    ensures (exists end :: Finishes(enc, defs, items, end)) <==>
      && AllPlaceable(enc, defs, items)
      && (PlaceAll(enc, defs, items).Ok? ==>
            var st := PlaceAll(enc, defs, items).value; AllResolvable(st.labels, Initial(st), 0))
  {
    PlacesExactly(enc, defs, items);
    hide PlaceAll, AllPlaceable, AllResolvable, ResolveFrom;
    if PlaceAll(enc, defs, items).Ok? {
      var st := PlaceAll(enc, defs, items).value;
      SectionsResolve(st.labels, Initial(st), 0);
      if ResolveFrom(st.labels, Initial(st), 0).Ok? {
        assert Finishes(enc, defs, items, ResolveFrom(st.labels, Initial(st), 0).value);
      }
    }
  }

  // ----- references ------------------------------------------------------------------

  /** The address a reference of item `k` is written to name, read off the stream:
      the next `1:` of the section, the last local label of that name, or whatever
      the linker knows by that name. */
  ghost predicate Names<I>(
      enc: Encoder<I>, items: seq<Item<I>>, k: nat, s: Items.Section, target: Target, image: Image, a: int) {
    match target
    case Forward(id) =>
      exists j: nat :: NextMark(items, k, s, id, j) && a == image.base(s) + |BytesIn(enc, items[..j], s)|
    case Named(name) =>
      if IsLocal(target) && exists j: nat :: LastLabel(items, name, j) then
        exists j: nat, spot ::
          LastLabel(items, name, j) && At(enc, items, j, spot) && a == image.base(spot.section) + spot.offset
      else a == image.external(name)
  }

  /** The linker's symbol plus addend. */
  function Asked(r: Relocation, symbols: seq<L.Symbol>, image: Image): int {
    match r.against
    case Section(there) => image.base(there) + r.addend
    case Symbol(i) => if i < |symbols| then image.external(symbols[i].name) + r.addend else 0
  }

  /** Once linked, the reference in the field of `f` is to address `a`: either the
      object holds a + addend - place already and asks nothing, or the one
      relocation for the field asks for a + addend. */
  ghost predicate Reaches(end: Resolved, s: nat, f: Fixup, image: Image, a: int)
    requires s < |end.data|
  {
    var sd := end.data[s];
    if f.offset in Offsets(sd.relocations) then
      exists r :: r in sd.relocations && r.offset == f.offset && r.kind == f.kind
        && Asked(r, end.symbols, image) == a + f.addend
    else
      && f.offset + 4 <= |sd.bytes|
      && Displaced(f.kind, WordAt(sd.bytes, f.offset)) == a + f.addend - (image.base(s) + f.offset)
  }

  lemma {:induction false} LeftOffsetsAre(scope: Scope, fixups: seq<Fixup>, o: nat)
    ensures o in LeftOffsets(scope, fixups) <==> exists f :: f in fixups && !InPlace(scope, f) && f.offset == o
  {
    hide InPlace;
    if fixups != [] {
      LeftOffsetsAre(scope, fixups[1..], o);
    }
  }

  lemma SameField(fixups: seq<Fixup>, size: nat, f: Fixup, g: Fixup)
    requires FieldsInOrder(fixups, size) && f in fixups && g in fixups && f.offset == g.offset
    ensures f == g
  {
  }

  /** The linker is asked about exactly the fields that are not patched. */
  lemma AskedExactly(labels: map<Name, Spot>, o: Resolved, end: Resolved, s: nat, f: Fixup)
    requires s < |o.data| == |end.data| && SectionSettled(labels, o, end, s)
    requires f in o.data[s].fixups && FieldsInOrder(o.data[s].fixups, |o.data[s].bytes|) && o.data[s].relocations == []
    ensures f.offset in Offsets(end.data[s].relocations) <==> !InPlace(ScopeOf(labels, o.data, s), f)
  {
    var scope, sd := ScopeOf(labels, o.data, s), o.data[s];
    LeftOffsetsAre(scope, sd.fixups, f.offset);
    assert Offsets(end.data[s].relocations) == LeftOffsets(scope, sd.fixups);
    hide LeftOffsets, SectionSettled, InPlace, FieldsInOrder;
    forall g | g in sd.fixups && g.offset == f.offset ensures g == f {
      SameField(sd.fixups, |sd.bytes|, f, g);
    }
  }

  /** A reference resolves to the address its place in the object says. */
  lemma SettledReaches(labels: map<Name, Spot>, o: Resolved, end: Resolved, s: nat, f: Fixup, image: Image)
    requires s < |o.data| == |end.data| && SectionSettled(labels, o, end, s)
    requires f in o.data[s].fixups && FieldsInOrder(o.data[s].fixups, |o.data[s].bytes|) && o.data[s].relocations == []
    ensures var place := Where(ScopeOf(labels, o.data, s), f);
      Reaches(end, s, f, image,
              if IsLocal(f.target) && place.Some? then image.base(place.value.section) + place.value.offset
              else if f.target.Named? then image.external(f.target.name) else 0)
      || (f.target.Forward? && place.None?)
  {
    var scope, sd := ScopeOf(labels, o.data, s), o.data[s];
    AskedExactly(labels, o, end, s, f);
    assert Settled(scope, sd.bytes, WorkOf(end, s), f);
    hide LeftOffsets, SectionSettled, Where, WordAt, SameOpcode, Displaced, FieldsInOrder;
    if !InPlace(scope, f) {
      var r :| r in end.data[s].relocations && Stands(scope, end.symbols, r, f);
    }
  }

  /** What the layout of a stream gives the resolver. */
  lemma LaidOut<I(!new)>(enc: Encoder<I>, defs: seq<SectionDef>, items: seq<Item<I>>)
    requires Encodes(enc) && InTable(defs, items) && PlaceAll(enc, defs, items).Ok?
    ensures var o := Initial(PlaceAll(enc, defs, items).value);
      && |o.data| == |defs|
      && forall s: Items.Section :: s < |defs| ==>
           && o.data[s].bytes == BytesIn(enc, items, s) && o.data[s].relocations == []
           && FieldsInOrder(o.data[s].fixups, |o.data[s].bytes|)
           && o.data[s].fixups == PlaceAll(enc, defs, items).value.code[s].fixups
           && o.data[s].forward == PlaceAll(enc, defs, items).value.code[s].forward
  {
    BytesPlaced(enc, defs, items);
    FixupsInOrder(enc, defs, items);
    hide PlaceAll, FieldsInOrder, BytesIn;
  }

  /** Every reference of a finished object means its label: whatever base addresses
      and outside names a linker chooses, the field of the reference reaches the
      address the stream names, plus its addend. */
  lemma ReferencesMeanTheirLabels<I(!new)>(
    enc: Encoder<I>, defs: seq<SectionDef>, items: seq<Item<I>>, end: Resolved,
    k: nat, s: Items.Section, f: Fixup, image: Image)
    requires Finishes(enc, defs, items, end) && s < |defs| && Refers(enc, items, k, s, f)
    ensures |end.data| == |defs|
    ensures exists a :: Names(enc, items, k, s, f.target, image, a) && Reaches(end, s, f, image, a)
  {
    var st := PlaceAll(enc, defs, items).value;
    var o := Initial(st);
    LaidOut(enc, defs, items);
    SectionsSettled(st.labels, o, 0, s);
    FixupsPlaced(enc, defs, items, s);
    LabelsPlaced(enc, defs, items);
    hide PlaceAll, ResolveFrom, SectionSettled, FieldsInOrder, LastLabel, BytesIn, Reaches, Refers, Where, Names;
    SettledReaches(st.labels, o, end, s, f, image);
    if f.target.Forward? {
      ForwardFound(st.labels, o, end, s, f);
      ForwardNames(enc, defs, items, k, s, f, image);
    } else {
      NamedNames(enc, items, st.labels, k, s, f, ScopeOf(st.labels, o.data, s), image);
    }
  }

  lemma ForwardNames<I(!new)>(
    enc: Encoder<I>, defs: seq<SectionDef>, items: seq<Item<I>>, k: nat, s: Items.Section, f: Fixup, image: Image)
    requires InTable(defs, items) && PlaceAll(enc, defs, items).Ok? && Encodes(enc) && s < |defs|
    requires Refers(enc, items, k, s, f) && f.target.Forward?
    ensures var st := PlaceAll(enc, defs, items).value;
      var place := Where(Scope(s, st.labels, st.code[s].forward), f);
      place.Some? ==>
        place.value.section == s && Names(enc, items, k, s, f.target, image, image.base(s) + place.value.offset)
  {
    hide PlaceAll, BytesIn, NextMark, Refers, Marks, Encodes, InTable, FindForward;
    ForwardMeaning(enc, defs, items, k, s, f);
  }

  lemma NamedNames<I>(
    enc: Encoder<I>, items: seq<Item<I>>, labels: map<Name, Spot>, k: nat, s: Items.Section, f: Fixup, scope: Scope,
    image: Image)
    requires f.target.Named? && scope.labels == labels
    requires forall name :: name in labels ==> exists j: nat :: LastLabel(items, name, j)
    requires forall name, j: nat :: LastLabel(items, name, j) ==> name in labels && At(enc, items, j, labels[name])
    ensures var place := Where(scope, f);
      Names(enc, items, k, s, f.target, image,
            if IsLocal(f.target) && place.Some? then image.base(place.value.section) + place.value.offset
            else image.external(f.target.name))
  {
    hide BytesIn, At;
    var name := f.target.name;
    if IsLocal(f.target) && name in labels {
      var j: nat :| LastLabel(items, name, j);
      assert At(enc, items, j, labels[name]);
    }
  }

  /** A finished object has found every forward label. */
  lemma ForwardFound(labels: map<Name, Spot>, o: Resolved, end: Resolved, s: nat, f: Fixup)
    requires s < |o.data| == |end.data| && SectionSettled(labels, o, end, s)
    requires f in o.data[s].fixups && f.target.Forward?
    ensures Where(ScopeOf(labels, o.data, s), f).Some?
  {
    var scope, sd := ScopeOf(labels, o.data, s), o.data[s];
    assert Settled(scope, sd.bytes, WorkOf(end, s), f);
    hide SectionSettled, Where, WordAt, SameOpcode, Displaced;
    if !InPlace(scope, f) {
      var r :| r in end.data[s].relocations && Stands(scope, end.symbols, r, f);
    }
  }

  /** Finishing changes nothing but the patched fields: every byte of a section
      that belongs to no field is the byte its item put there, and so is every bit
      beside a field. */
  lemma OnlyFieldsChange<I(!new)>(
    enc: Encoder<I>, defs: seq<SectionDef>, items: seq<Item<I>>, end: Resolved, s: Items.Section)
    requires Finishes(enc, defs, items, end) && s < |defs|
    ensures |end.data| == |defs| && |end.data[s].bytes| == |BytesIn(enc, items, s)|
    ensures forall p | 0 <= p < |end.data[s].bytes| &&
                       (forall k: nat, f :: Refers(enc, items, k, s, f) ==> Outside(f, p)) ::
              end.data[s].bytes[p] == BytesIn(enc, items, s)[p]
    ensures forall k: nat, f :: Refers(enc, items, k, s, f) ==>
              && f.offset + 4 <= |end.data[s].bytes|
              && SameOpcode(f.kind, WordAt(end.data[s].bytes, f.offset),
                   WordAt(BytesIn(enc, items, s), f.offset))
              && (f.offset in Offsets(end.data[s].relocations) ==>
                    WordAt(end.data[s].bytes, f.offset) == WordAt(BytesIn(enc, items, s), f.offset))
  {
    var st := PlaceAll(enc, defs, items).value;
    var o := Initial(st);
    LaidOut(enc, defs, items);
    SectionsSettled(st.labels, o, 0, s);
    FixupsPlaced(enc, defs, items, s);
    hide PlaceAll, ResolveFrom, FieldsInOrder, BytesIn, Refers, WordAt, SameOpcode, Displaced, InPlace;
    forall k: nat, f | Refers(enc, items, k, s, f)
      ensures f.offset + 4 <= |end.data[s].bytes|
        && SameOpcode(f.kind, WordAt(end.data[s].bytes, f.offset), WordAt(BytesIn(enc, items, s), f.offset))
        && (f.offset in Offsets(end.data[s].relocations) ==>
              WordAt(end.data[s].bytes, f.offset) == WordAt(BytesIn(enc, items, s), f.offset))
    {
      AskedExactly(st.labels, o, end, s, f);
      assert Settled(ScopeOf(st.labels, o.data, s), o.data[s].bytes, WorkOf(end, s), f);
      SameOpcodeSelf(f.kind, WordAt(BytesIn(enc, items, s), f.offset));
    }
  }

  /** The label a target names is in section `s`: the next `1:` of that section, or the
      last label of that name. */
  ghost predicate PointsInto<I>(items: seq<Item<I>>, k: nat, s: Items.Section, target: Target) {
    match target
    case Forward(id) => exists j: nat :: NextMark(items, k, s, id, j)
    case Named(name) => exists j: nat :: LastLabel(items, name, j) && SectionAfter(items[..j]) == Some(s)
  }

  /** Which references are left to the linker, read off the stream: all but those of a
      patchable kind to a local label in their own section. */
  lemma LeftExactly<I(!new)>(
    enc: Encoder<I>, defs: seq<SectionDef>, items: seq<Item<I>>, end: Resolved, k: nat, s: Items.Section, f: Fixup)
    requires Finishes(enc, defs, items, end) && s < |defs| && Refers(enc, items, k, s, f)
    ensures |end.data| == |defs|
    ensures f.offset !in Offsets(end.data[s].relocations)
       <==> f.kind.ResolvableInPlace() && IsLocal(f.target) && PointsInto(items, k, s, f.target)
  {
    var st := PlaceAll(enc, defs, items).value;
    var o := Initial(st);
    LaidOut(enc, defs, items);
    SectionsSettled(st.labels, o, 0, s);
    FixupsPlaced(enc, defs, items, s);
    assert f in o.data[s].fixups;
    hide PlaceAll, ResolveFrom, SectionSettled, FieldsInOrder, BytesIn, Refers, Where, PointsInto;
    AskedExactly(st.labels, o, end, s, f);
    WhereInto(enc, defs, items, k, s, f);
  }

  /** The resolver knows a place in the section exactly when the label is there. */
  lemma WhereInto<I(!new)>(
      enc: Encoder<I>, defs: seq<SectionDef>, items: seq<Item<I>>, k: nat, s: Items.Section, f: Fixup)
    requires InTable(defs, items) && PlaceAll(enc, defs, items).Ok?
    requires Encodes(enc) && s < |defs| && Refers(enc, items, k, s, f)
    ensures var st := PlaceAll(enc, defs, items).value;
      var place := Where(Scope(s, st.labels, st.code[s].forward), f);
      place.Some? && place.value.section == s <==> PointsInto(items, k, s, f.target)
  {
    hide PlaceAll, BytesIn, NextMark, Refers, Encodes, InTable, FindForward, LastLabel;
    if f.target.Forward? {
      ForwardMeaning(enc, defs, items, k, s, f);
      if j: nat :| NextMark(items, k, s, f.target.id, j) { MarkAfter(items, k, s, f.target.id, j); }
    } else {
      LabelsPlaced(enc, defs, items);
      NamedInto(enc, items, PlaceAll(enc, defs, items).value.labels, f.target.name, s);
    }
  }

  lemma MarkAfter<I>(items: seq<Item<I>>, k: nat, s: Items.Section, id: nat, j: nat)
    requires NextMark(items, k, s, id, j)
    ensures k < j && Marks(items, j, s, id)
  {
  }

  lemma NamedInto<I>(enc: Encoder<I>, items: seq<Item<I>>, labels: map<Name, Spot>, name: Name, s: Items.Section)
    requires forall name :: name in labels ==> exists j: nat :: LastLabel(items, name, j)
    requires forall name, j: nat :: LastLabel(items, name, j) ==> name in labels && At(enc, items, j, labels[name])
    ensures name in labels && labels[name].section == s
       <==> exists j: nat :: LastLabel(items, name, j) && SectionAfter(items[..j]) == Some(s)
  {
    hide BytesIn, SectionAfter;
    if name in labels {
      var j: nat :| LastLabel(items, name, j);
      assert At(enc, items, j, labels[name]);
    }
    if j: nat :| LastLabel(items, name, j) && SectionAfter(items[..j]) == Some(s) {
      assert At(enc, items, j, labels[name]);
    }
  }

  lemma SameOpcodeSelf(kind: FixupKind, w: nat)
    ensures SameOpcode(kind, w, w)
  {
  }

  // ----- the symbol table -------------------------------------------------------------

  ghost predicate UniqueLabels<I>(items: seq<Item<I>>) {
    forall j, k :: 0 <= j < k < |items| && items[j].Label? ==> items[j] != items[k]
  }

  /** In a stream that writes each label once, the symbol table places every name
      where its label is, and leaves exactly the other names to the linker. */
  lemma TableAgrees<I(!new)>(enc: Encoder<I>, defs: seq<SectionDef>, items: seq<Item<I>>)
    requires InTable(defs, items) && PlaceAll(enc, defs, items).Ok? && UniqueLabels(items)
    ensures var st := PlaceAll(enc, defs, items).value;
      var all := AddGlobals(st.symbols, st.labels, st.globals);
      forall i :: 0 <= i < |all| ==>
        && (all[i].definition.Some? <==> all[i].name in st.labels)
        && (all[i].definition.Some? ==>
              st.labels[all[i].name] == Spot(all[i].definition.value.section, all[i].definition.value.offset))
  {
    var st := PlaceAll(enc, defs, items).value;
    var all := AddGlobals(st.symbols, st.labels, st.globals);
    SymbolsPlaced(enc, defs, items);
    LabelsPlaced(enc, defs, items);
    GlobalsAdded(st.symbols, st.labels, st.globals);
    hide PlaceAll, AddGlobals, BytesIn, SectionAfter;
    forall i | 0 <= i < |st.symbols|
      ensures all[i].definition.Some? && all[i].name in st.labels
        && st.labels[all[i].name] == Spot(all[i].definition.value.section, all[i].definition.value.offset)
    {
      assert all[i] == all[..|st.symbols|][i];
      var k: nat :| Sizes(enc, items, k, all[i]);
      SizedAgrees(enc, defs, items, all[i], k, st.labels);
    }
  }

  lemma SizedAgrees<I>(
      enc: Encoder<I>, defs: seq<SectionDef>, items: seq<Item<I>>, sym: L.Symbol, k: nat, labels: map<Name, Spot>)
    requires UniqueLabels(items) && Sizes(enc, items, k, sym)
    requires forall name, j: nat :: LastLabel(items, name, j) ==> name in labels && At(enc, items, j, labels[name])
    ensures sym.name in labels && labels[sym.name] == Spot(sym.definition.value.section, sym.definition.value.offset)
  {
    var d := sym.definition.value;
    var j: nat :| j < k && LastLabel(items[..k], sym.name, j) && At(enc, items, j, Spot(d.section, d.offset));
    assert items[..k][j] == items[j];
    assert LastLabel(items, sym.name, j);
    hide BytesIn, SectionAfter;
    assert At(enc, items, j, labels[sym.name]);
  }

  // ----- where the symbols come from ------------------------------------------------------

  /** An undefined symbol added for a fixup that names it. */
  ghost predicate Wanted(fixups: seq<Fixup>, sym: L.Symbol) {
    sym.definition.None? && exists f :: f in fixups && f.target == Target.Named(sym.name)
  }

  lemma {:induction false} AddedByFixups(scope: Scope, w: Work, fixups: seq<Fixup>)
    requires ResolveAll(scope, w, fixups).Ok?
    ensures var end := ResolveAll(scope, w, fixups).value;
      |w.symbols| <= |end.symbols| && end.symbols[..|w.symbols|] == w.symbols
      && forall i :: |w.symbols| <= i < |end.symbols| ==> Wanted(fixups, end.symbols[i])
    decreases |fixups|
  {
    hide ResolveOne;
    if fixups == [] {
      assert w.symbols[..|w.symbols|] == w.symbols;
    } else {
      var f, rest := fixups[0], fixups[1..];
      var next := ResolveOne(scope, w, f).value;
      AddedByOne(scope, w, f);
      AddedByFixups(scope, next, rest);
      var end := ResolveAll(scope, next, rest).value;
      assert end.symbols[..|w.symbols|] == end.symbols[..|next.symbols|][..|w.symbols|];
      forall i | |w.symbols| <= i < |end.symbols| ensures Wanted(fixups, end.symbols[i]) {
        if i < |next.symbols| {
          assert end.symbols[i] == end.symbols[..|next.symbols|][i];
          assert f in fixups;
        } else {
          assert Wanted(rest, end.symbols[i]);
          var g :| g in rest && g.target == Target.Named(end.symbols[i].name);
          assert g in fixups;
        }
      }
    }
  }

  lemma AddedByOne(scope: Scope, w: Work, f: Fixup)
    requires ResolveOne(scope, w, f).Ok?
    ensures var next := ResolveOne(scope, w, f).value;
      |w.symbols| <= |next.symbols| && next.symbols[..|w.symbols|] == w.symbols
      && forall i :: |w.symbols| <= i < |next.symbols| ==>
           next.symbols[i].definition.None? && f.target == Target.Named(next.symbols[i].name)
  {
    hide Patch, Where, SymbolNamed;
  }

  lemma {:induction false} AddedBySections(labels: map<Name, Spot>, o: Resolved, s: nat)
    requires ResolveFrom(labels, o, s).Ok?
    ensures var end := ResolveFrom(labels, o, s).value;
      |o.symbols| <= |end.symbols| && end.symbols[..|o.symbols|] == o.symbols
      && forall i :: |o.symbols| <= i < |end.symbols| ==>
           exists t :: s <= t < |o.data| && Wanted(o.data[t].fixups, end.symbols[i])
    decreases |o.data| - s
  {
    if s >= |o.data| {
      assert o.symbols[..|o.symbols|] == o.symbols;
    } else {
      var sd := o.data[s];
      var start := Work(sd.bytes, sd.relocations, o.symbols);
      var w := ResolveAll(ScopeOf(labels, o.data, s), start, sd.fixups).value;
      AddedByFixups(ScopeOf(labels, o.data, s), start, sd.fixups);
      hide ResolveAll, Wanted;
      var next := AfterSection(o, s, w);
      AddedBySections(labels, next, s + 1);
      var end := ResolveFrom(labels, next, s + 1).value;
      assert end.symbols[..|o.symbols|] == end.symbols[..|w.symbols|][..|o.symbols|];
      forall i | |o.symbols| <= i < |end.symbols|
        ensures exists t :: s <= t < |o.data| && Wanted(o.data[t].fixups, end.symbols[i])
      {
        if i < |w.symbols| {
          assert end.symbols[i] == end.symbols[..|w.symbols|][i];
        } else {
          var t :| s + 1 <= t < |next.data| && Wanted(next.data[t].fixups, end.symbols[i]);
          assert next.data[t] == o.data[t];
        }
      }
    }
  }

  /** An instruction of the stream names this symbol, and nothing defines it here. */
  ghost predicate Mentioned<I>(enc: Encoder<I>, items: seq<Item<I>>, sym: L.Symbol) {
    sym.definition.None? && exists k: nat, s: Items.Section, f ::
      Refers(enc, items, k, s, f) && f.target == Target.Named(sym.name)
  }

  /** Every symbol of a finished object has its reason in the stream, and every `.globl`
      name is among them: nothing is dropped and nothing is made up. */
  lemma SymbolsOfObject<I(!new)>(enc: Encoder<I>, defs: seq<SectionDef>, items: seq<Item<I>>, end: Resolved)
    requires Finishes(enc, defs, items, end)
    ensures forall name :: Item.Global(name) in items ==> Knows(end.symbols, name)
    ensures forall i :: 0 <= i < |end.symbols| ==>
      || IsSized(enc, items, end.symbols[i]) || FromGlobal(enc, items, end.symbols[i])
      || Mentioned(enc, items, end.symbols[i])
  {
    var st := PlaceAll(enc, defs, items).value;
    var o := Initial(st);
    TableFromItems(enc, defs, items);
    LaidOut(enc, defs, items);
    AddedBySections(st.labels, o, 0);
    hide PlaceAll, ResolveFrom, AddGlobals, IsSized, FromGlobal, FieldsInOrder, BytesIn, Refers;
    assert o.symbols == AddGlobals(st.symbols, st.labels, st.globals);
    forall name | Item.Global(name) in items ensures Knows(end.symbols, name) {
      StillKnown(o.symbols, end.symbols, name);
    }
    forall i | 0 <= i < |end.symbols|
      ensures IsSized(enc, items, end.symbols[i]) || FromGlobal(enc, items, end.symbols[i])
           || Mentioned(enc, items, end.symbols[i])
    {
      if i < |o.symbols| {
        assert end.symbols[i] == end.symbols[..|o.symbols|][i];
      } else {
        var t: Items.Section :| t < |o.data| && Wanted(o.data[t].fixups, end.symbols[i]);
        var f :| f in o.data[t].fixups && f.target == Target.Named(end.symbols[i].name);
        FixupsPlaced(enc, defs, items, t);
        var k: nat :| Refers(enc, items, k, t, f);
      }
    }
  }
}
