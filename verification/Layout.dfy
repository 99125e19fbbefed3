/** The layout pass: one stream of items becomes the bytes, labels, symbols and
    fixups of each section. */
module Layout {
  import opened Types
  import opened Items

  datatype Spot = Spot(section: Section, offset: nat)

  datatype Definition = Definition(section: Section, offset: nat, size: nat)

  datatype Symbol = Symbol(name: Name, definition: Option<Definition>)

  /** The `1:` labels of one section in the order they appear. */
  datatype NumericLabel = NumericLabel(id: nat, offset: nat)

  /** The buffer of one section. */
  datatype Code = Code(bytes: seq<Byte>, fixups: seq<Fixup>, forward: seq<NumericLabel>)

  datatype Placed = Placed(
    section: Option<Section>,
    code: seq<Code>,
    labels: map<Name, Spot>,
    open: map<Name, Spot>,
    globals: seq<Name>,
    functions: set<Name>,
    symbols: seq<Symbol>)

  // ----- what one item does ----------------------------------------------------

  /** Every section an item names is in the table. */
  ghost predicate InTable<I>(defs: seq<SectionDef>, items: seq<Item<I>>) {
    forall k :: 0 <= k < |items| && items[k].Section? ==> items[k].section < |defs|
  }

  ghost predicate Valid(defs: seq<SectionDef>, st: Placed) {
    && |st.code| == |defs| && (st.section.Some? ==> st.section.value < |defs|)
    && forall name :: name in st.open ==> Inside(st, st.open[name])
  }

  /** A label is never past the end of the section it was opened in. */
  predicate Inside(st: Placed, spot: Spot) {
    spot.section < |st.code| && spot.offset <= |st.code[spot.section].bytes|
  }

  function Start(defs: seq<SectionDef>): (st: Placed)
    ensures Valid(defs, st)
  {
    Placed(None, seq(|defs|, _ => Code([], [], [])), map[], map[], [], {}, [])
  }

  /** Where the next byte of the current section will be written. */
  function Position(defs: seq<SectionDef>, st: Placed): Result<Spot>
    requires Valid(defs, st)
  {
    if st.section.None? then Err(BeforeFirstSection)
    else if !defs[st.section.value].kind.HoldsData() then Err(NotPlaceable(st.section.value))
    else Ok(Spot(st.section.value, |st.code[st.section.value].bytes|))
  }

  function Append(c: Code, e: Encoded): Code {
    c.(bytes := c.bytes + e.bytes,
       fixups := c.fixups + seq(|e.fixups|, i requires 0 <= i < |e.fixups| => e.fixups[i].At(|c.bytes|)))
  }

  function Place<I>(enc: Encoder<I>, defs: seq<SectionDef>, st: Placed, item: Item<I>): (r: Result<Placed>)
    requires Valid(defs, st) && (item.Section? ==> item.section < |defs|)
    ensures r.Ok? ==> Valid(defs, r.value)
  {
    match item
    case Section(s) => Ok(st.(section := Some(s)))
    case Label(name) =>
      (match Position(defs, st)
       case Err(e) => Err(e)
       case Ok(spot) => Ok(st.(labels := st.labels[name := spot], open := st.open[name := spot])))
    case Numeric(id) =>
      (match Position(defs, st)
       case Err(e) => Err(e)
       case Ok(spot) =>
         if !defs[spot.section].kind.HoldsCode() then Err(NotCode(spot.section))
         else
           var c := st.code[spot.section];
           Ok(st.(code := st.code[spot.section := c.(forward := c.forward + [NumericLabel(id, spot.offset)])])))
    case Global(name) => Ok(st.(globals := st.globals + [name]))
    case Function(name) => Ok(st.(functions := st.functions + {name}))
    case Size(name) =>
      (match Position(defs, st)
       case Err(e) => Err(e)
       case Ok(spot) =>
         if name !in st.open then Err(SizeBeforeLabel(name))
         else if st.open[name].section != spot.section then Err(SizeInAnotherSection(name))
         else
           var start := st.open[name].offset;
           Ok(st.(symbols := st.symbols + [Symbol(name, Some(Definition(spot.section, start, spot.offset - start)))])))
    case Bytes(bytes) =>
      (match Position(defs, st)
       case Err(e) => Err(e)
       case Ok(spot) => Ok(st.(code := st.code[spot.section := Append(st.code[spot.section], Encoded(bytes, []))])))
    case Instruction(inst) =>
      if st.section.None? then Err(BeforeFirstSection)
      else
        var s := st.section.value;
        if !defs[s].kind.HoldsCode() then Err(NotCode(s))
        else
          (match enc(inst)
           case Err(e) => Err(CannotEncode)
           case Ok(e) => Ok(st.(code := st.code[s := Append(st.code[s], e)])))
    case File(_, _) => Ok(st)
    case Loc(_, _, _) => Ok(st)
    case Syntax(_) => Ok(st)
  }

  /** The layout of a stream, one item after another. */
  function PlaceAll<I>(enc: Encoder<I>, defs: seq<SectionDef>, items: seq<Item<I>>): (r: Result<Placed>)
    requires InTable(defs, items)
    ensures r.Ok? ==> Valid(defs, r.value) && |r.value.code| == |defs|
  {
    if items == [] then Ok(Start(defs))
    else
      match PlaceAll(enc, defs, items[..|items| - 1])
      case Err(e) => Err(e)
      case Ok(st) => Place(enc, defs, st, items[|items| - 1])
  }

  predicate Knows(symbols: seq<Symbol>, name: Name) {
    exists i :: 0 <= i < |symbols| && symbols[i].name == name
  }

  /** A `.globl` with no `.size` still has to reach the symbol table. */
  function WithGlobal(symbols: seq<Symbol>, labels: map<Name, Spot>, name: Name): seq<Symbol> {
    if Knows(symbols, name) then symbols
    else if name !in labels then symbols + [Symbol(name, None)]
    else symbols + [Symbol(name, Some(Definition(labels[name].section, labels[name].offset, 0)))]
  }

  function AddGlobals(symbols: seq<Symbol>, labels: map<Name, Spot>, globals: seq<Name>): seq<Symbol>
    decreases |globals|
  {
    if globals == [] then symbols else AddGlobals(WithGlobal(symbols, labels, globals[0]), labels, globals[1..])
  }

  // ----- what the layout means --------------------------------------------------

  /** The section that items after `items` are placed in. */
  function SectionAfter<I>(items: seq<Item<I>>): Option<Section> {
    if items == [] then None
    else
      var last := items[|items| - 1];
      if last.Section? then Some(last.section) else SectionAfter(items[..|items| - 1])
  }

  /** The bytes of one item, wherever they go. */
  function BytesOf<I>(enc: Encoder<I>, item: Item<I>): seq<Byte> {
    match item
    case Bytes(bytes) => bytes
    case Instruction(inst) => if enc(inst).Ok? then enc(inst).value.bytes else []
    case _ => []
  }

  /** Everything the stream puts in section `s`, the other sections skipped. */
  function BytesIn<I>(enc: Encoder<I>, items: seq<Item<I>>, s: Section): seq<Byte> {
    if items == [] then []
    else
      var front := items[..|items| - 1];
      BytesIn(enc, front, s) + if SectionAfter(front) == Some(s) then BytesOf(enc, items[|items| - 1]) else []
  }

  /** Where item `k` would be placed: its section, and how many bytes of that
      section come before it in the stream. */
  predicate At<I>(enc: Encoder<I>, items: seq<Item<I>>, k: nat, spot: Spot)
    requires k < |items|
  {
    SectionAfter(items[..k]) == Some(spot.section) && |BytesIn(enc, items[..k], spot.section)| == spot.offset
  }

  lemma {:induction false} BytesInGrow<I>(enc: Encoder<I>, items: seq<Item<I>>, j: nat, k: nat, s: Section)
    requires j <= k <= |items|
    ensures |BytesIn(enc, items[..j], s)| <= |BytesIn(enc, items[..k], s)|
    decreases k
  {
    if j < k {
      assert items[..k][..k - 1] == items[..k - 1];
      BytesInGrow(enc, items, j, k - 1, s);
    }
  }

  lemma PlaceBytes<I>(enc: Encoder<I>, defs: seq<SectionDef>, st: Placed, item: Item<I>)
    requires Valid(defs, st) && (item.Section? ==> item.section < |defs|) && Place(enc, defs, st, item).Ok?
    ensures var after := Place(enc, defs, st, item).value;
      && after.section == (if item.Section? then Some(item.section) else st.section)
      && forall s: Section :: s < |defs| ==>
           after.code[s].bytes == st.code[s].bytes + if st.section == Some(s) then BytesOf(enc, item) else []
  {
  }

  /** The section buffers hold exactly what the stream places in them. */
  lemma {:induction false} BytesPlaced<I>(enc: Encoder<I>, defs: seq<SectionDef>, items: seq<Item<I>>)
    requires InTable(defs, items) && PlaceAll(enc, defs, items).Ok?
    ensures var st := PlaceAll(enc, defs, items).value;
      && st.section == SectionAfter(items)
      && (forall s: Section :: s < |defs| ==> st.code[s].bytes == BytesIn(enc, items, s))
  {
    hide Place, BytesOf, Valid;
    if items != [] {
      var front, last := items[..|items| - 1], items[|items| - 1];
      BytesPlaced(enc, defs, front);
      PlaceBytes(enc, defs, PlaceAll(enc, defs, front).value, last);
    }
  }

  lemma PlaceLabels<I>(enc: Encoder<I>, defs: seq<SectionDef>, st: Placed, item: Item<I>)
    requires Valid(defs, st) && (item.Section? ==> item.section < |defs|) && Place(enc, defs, st, item).Ok?
    ensures var after := Place(enc, defs, st, item).value;
      && (!item.Label? ==> after.labels == st.labels && after.open == st.open)
      && (item.Label? ==>
            && st.section.Some? && st.section.value < |defs|
            && var spot := Spot(st.section.value, |st.code[st.section.value].bytes|);
              after.labels == st.labels[item.name := spot] && after.open == st.open[item.name := spot])
  {
  }

  /** A label is where the bytes placed before it in its section end; of labels
      with one name the last counts. */
  lemma {:induction false} LabelsPlaced<I>(enc: Encoder<I>, defs: seq<SectionDef>, items: seq<Item<I>>)
    requires InTable(defs, items) && PlaceAll(enc, defs, items).Ok?
    ensures var st := PlaceAll(enc, defs, items).value;
      && st.open == st.labels
      && (forall name :: name in st.labels ==> exists k: nat :: LastLabel(items, name, k))
      && (forall name, k: nat :: LastLabel(items, name, k) ==> name in st.labels && At(enc, items, k, st.labels[name]))
  {
    hide Place, Valid, BytesIn, SectionAfter;
    if items != [] {
      var n := |items| - 1;
      var front, last := items[..n], items[n];
      LabelsPlaced(enc, defs, front);
      BytesPlaced(enc, defs, front);
      var before := PlaceAll(enc, defs, front).value;
      PlaceLabels(enc, defs, before, last);
      var st := PlaceAll(enc, defs, items).value;
      forall k: nat, name | LastLabel(items, name, k)
        ensures name in st.labels && At(enc, items, k, st.labels[name])
      {
        if k < n {
          assert last != Item.Label(name);
          LastLabelBefore(items, name, k, n);
          assert LastLabel(front, name, k);
          AtPrefix(enc, items, n, k, st.labels[name]);
        }
      }
      forall name | name in st.labels ensures exists k: nat :: LastLabel(items, name, k) {
        if last == Item.Label(name) {
          assert LastLabel(items, name, n);
        } else {
          var k: nat :| LastLabel(front, name, k);
          LastLabelBefore(items, name, k, n);
        }
      }
    }
  }

  lemma AtPrefix<I>(enc: Encoder<I>, items: seq<Item<I>>, n: nat, k: nat, spot: Spot)
    requires k < n <= |items|
    ensures At(enc, items[..n], k, spot) == At(enc, items, k, spot)
  {
    assert items[..n][..k] == items[..k];
  }

  lemma LastLabelBefore<I>(items: seq<Item<I>>, name: Name, k: nat, n: nat)
    requires n < |items| && n + 1 == |items| && items[n] != Item.Label(name) && k < n
    ensures LastLabel(items[..n], name, k) <==> LastLabel(items, name, k)
  {
    if LastLabel(items, name, k) {
      forall j | k < j < n ensures items[..n][j] != Item.Label(name) { assert items[j] != Item.Label(name); }
    }
  }

  ghost predicate LastLabel<I>(items: seq<Item<I>>, name: Name, k: nat) {
    k < |items| && items[k] == Item.Label(name) && forall j :: k < j < |items| ==> items[j] != Item.Label(name)
  }

  // ----- fixups -------------------------------------------------------------------

  /** Item `k` is an instruction of section `s` that records the fixup `f`. */
  ghost predicate Refers<I>(enc: Encoder<I>, items: seq<Item<I>>, k: nat, s: Section, f: Fixup) {
    && k < |items| && items[k].Instruction? && enc(items[k].inst).Ok?
    && SectionAfter(items[..k]) == Some(s)
    && exists rel :: rel in enc(items[k].inst).value.fixups && f == rel.At(|BytesIn(enc, items[..k], s)|)
  }

  lemma PlaceFixups<I(!new)>(enc: Encoder<I>, defs: seq<SectionDef>, st: Placed, item: Item<I>)
    requires Encodes(enc) && Valid(defs, st)
    requires (item.Section? ==> item.section < |defs|) && Place(enc, defs, st, item).Ok?
    ensures var after := Place(enc, defs, st, item).value;
      forall s: Section :: s < |defs| ==>
        if item.Instruction? && st.section == Some(s)
        then enc(item.inst).Ok? && after.code[s].fixups == Append(st.code[s], enc(item.inst).value).fixups
        else after.code[s].fixups == st.code[s].fixups
  {
  }

  lemma AppendInOrder(c: Code, e: Encoded)
    requires FieldsInOrder(c.fixups, |c.bytes|) && FieldsInOrder(e.fixups, |e.bytes|)
    ensures FieldsInOrder(Append(c, e).fixups, |Append(c, e).bytes|)
  {
  }

  lemma AppendFixups(c: Code, e: Encoded)
    ensures forall f :: f in Append(c, e).fixups <==>
        f in c.fixups || exists rel :: rel in e.fixups && f == rel.At(|c.bytes|)
  {
    var a := Append(c, e);
    forall rel | rel in e.fixups ensures rel.At(|c.bytes|) in a.fixups {
      var i :| 0 <= i < |e.fixups| && e.fixups[i] == rel;
      assert a.fixups[|c.fixups| + i] == rel.At(|c.bytes|);
    }
    forall f | f in c.fixups ensures f in a.fixups {
      var i :| 0 <= i < |c.fixups| && c.fixups[i] == f;
      assert a.fixups[i] == f;
    }
  }

  /** The fields to patch in a section never overlap. */
  lemma {:induction false} FixupsInOrder<I(!new)>(enc: Encoder<I>, defs: seq<SectionDef>, items: seq<Item<I>>)
    requires InTable(defs, items) && PlaceAll(enc, defs, items).Ok? && Encodes(enc)
    ensures var st := PlaceAll(enc, defs, items).value;
      forall s: Section :: s < |defs| ==> FieldsInOrder(st.code[s].fixups, |st.code[s].bytes|)
  {
    hide Place, BytesOf, FieldsInOrder, Append, Valid;
    if items == [] {
      NoFields();
    } else {
      var front, last := items[..|items| - 1], items[|items| - 1];
      FixupsInOrder(enc, defs, front);
      var before, st := PlaceAll(enc, defs, front).value, PlaceAll(enc, defs, items).value;
      PlaceBytes(enc, defs, before, last);
      PlaceFixups(enc, defs, before, last);
      forall s: Section | s < |defs| ensures FieldsInOrder(st.code[s].fixups, |st.code[s].bytes|) {
        if last.Instruction? && before.section == Some(s) {
          EncodedInOrder(enc, last.inst);
          AppendInOrder(before.code[s], enc(last.inst).value);
          AppendBytes(enc, last, before.code[s]);
        } else {
          MoreBytes(before.code[s].fixups, |before.code[s].bytes|, |st.code[s].bytes|);
        }
      }
    }
  }

  lemma NoFields()
    ensures FieldsInOrder([], 0)
  {
  }

  lemma MoreBytes(fixups: seq<Fixup>, size: nat, more: nat)
    requires FieldsInOrder(fixups, size) && size <= more
    ensures FieldsInOrder(fixups, more)
  {
  }

  lemma EncodedInOrder<I(!new)>(enc: Encoder<I>, inst: I)
    requires Encodes(enc) && enc(inst).Ok?
    ensures FieldsInOrder(enc(inst).value.fixups, |enc(inst).value.bytes|)
  {
    hide FieldsInOrder;
  }

  lemma AppendBytes<I>(enc: Encoder<I>, item: Item<I>, c: Code)
    requires item.Instruction? && enc(item.inst).Ok?
    ensures Append(c, enc(item.inst).value).bytes == c.bytes + BytesOf(enc, item)
  {
  }

  /** The fixups of a section are those of its instructions, moved to where the
      instruction landed. */
  lemma {:induction false} FixupsPlaced<I(!new)>(
      enc: Encoder<I>, defs: seq<SectionDef>, items: seq<Item<I>>, s: Section)
    requires InTable(defs, items) && PlaceAll(enc, defs, items).Ok? && Encodes(enc) && s < |defs|
    ensures forall f :: f in PlaceAll(enc, defs, items).value.code[s].fixups <==>
        exists k: nat :: Refers(enc, items, k, s, f)
  {
    hide Place, Append, BytesIn, SectionAfter, Valid;
    if items != [] {
      var n := |items| - 1;
      var front, last := items[..n], items[n];
      FixupsPlaced(enc, defs, front, s);
      BytesPlaced(enc, defs, front);
      var before, st := PlaceAll(enc, defs, front).value, PlaceAll(enc, defs, items).value;
      PlaceFixups(enc, defs, before, last);
      forall f ensures f in st.code[s].fixups <==> exists k: nat :: Refers(enc, items, k, s, f) {
        var here := last.Instruction? && before.section == Some(s);
        if here { AppendFixups(before.code[s], enc(last.inst).value); }
        RefersPrefix(enc, items, n, s, f);
      }
    }
  }

  /** Adding an item adds its own references and no others. */
  lemma RefersPrefix<I>(enc: Encoder<I>, items: seq<Item<I>>, n: nat, s: Section, f: Fixup)
    requires |items| == n + 1
    ensures (exists k: nat :: Refers(enc, items, k, s, f))
       <==> ((exists k: nat :: Refers(enc, items[..n], k, s, f)) || Refers(enc, items, n, s, f))
  {
    hide BytesIn, SectionAfter;
    forall k: nat | k < n ensures Refers(enc, items[..n], k, s, f) <==> Refers(enc, items, k, s, f) {
      assert items[..n][..k] == items[..k];
    }
    if k: nat :| Refers(enc, items, k, s, f) && k < n {
      assert Refers(enc, items[..n], k, s, f);
    }
    if k: nat :| Refers(enc, items[..n], k, s, f) {
      assert Refers(enc, items, k, s, f);
    }
  }

  // ----- numeric labels -------------------------------------------------------------

  /** The first label `id:` recorded after an offset. */
  function FindForward(forward: seq<NumericLabel>, id: nat, place: nat): Option<nat> {
    if forward == [] then None
    else if forward[0].id == id && forward[0].offset > place then Some(forward[0].offset)
    else FindForward(forward[1..], id, place)
  }

  /** Item `k` writes `id:` in section `s`. */
  predicate Marks<I>(items: seq<Item<I>>, k: nat, s: Section, id: nat) {
    k < |items| && items[k] == Item.Numeric(id) && SectionAfter(items[..k]) == Some(s)
  }

  /** The items that write numeric labels in section `s`. */
  function NumericsIn<I>(items: seq<Item<I>>, s: Section): (ks: seq<nat>)
    ensures forall i :: 0 <= i < |ks| ==>
        ks[i] < |items| && items[ks[i]].Numeric? && Marks(items, ks[i], s, items[ks[i]].id)
    ensures forall i, j :: 0 <= i < j < |ks| ==> ks[i] < ks[j]
  {
    if items == [] then []
    else
      var n := |items| - 1;
      var front := items[..n];
      var ks := NumericsIn(front, s);
      assert forall i :: 0 <= i < |ks| ==> front[..ks[i]] == items[..ks[i]];
      ks + if items[n].Numeric? && SectionAfter(front) == Some(s) then [n] else []
  }

  lemma {:induction false} NumericsComplete<I>(items: seq<Item<I>>, s: Section, k: nat, id: nat)
    requires Marks(items, k, s, id)
    ensures k in NumericsIn(items, s)
  {
    var n := |items| - 1;
    if k < n {
      assert items[..n][..k] == items[..k];
      NumericsComplete(items[..n], s, k, id);
    }
  }

  lemma PlaceForward<I>(enc: Encoder<I>, defs: seq<SectionDef>, st: Placed, item: Item<I>)
    requires Valid(defs, st) && (item.Section? ==> item.section < |defs|) && Place(enc, defs, st, item).Ok?
    ensures var after := Place(enc, defs, st, item).value;
      forall s: Section :: s < |defs| ==>
        after.code[s].forward == st.code[s].forward +
          if item.Numeric? && st.section == Some(s) then [NumericLabel(item.id, |st.code[s].bytes|)] else []
  {
  }

  lemma {:induction false} ForwardPlaced<I>(enc: Encoder<I>, defs: seq<SectionDef>, items: seq<Item<I>>, s: Section)
    requires InTable(defs, items) && PlaceAll(enc, defs, items).Ok? && s < |defs|
    ensures var forward, ks := PlaceAll(enc, defs, items).value.code[s].forward, NumericsIn(items, s);
      && |forward| == |ks|
      && forall i :: 0 <= i < |ks| ==>
           forward[i] == NumericLabel(items[ks[i]].id, |BytesIn(enc, items[..ks[i]], s)|)
  {
    hide Place, BytesIn, SectionAfter, Valid;
    if items != [] {
      var n := |items| - 1;
      var front := items[..n];
      ForwardPlaced(enc, defs, front, s);
      BytesPlaced(enc, defs, front);
      PlaceForward(enc, defs, PlaceAll(enc, defs, front).value, items[n]);
      var ks := NumericsIn(front, s);
      assert forall i :: 0 <= i < |ks| ==> front[..ks[i]] == items[..ks[i]];
    }
  }

  lemma {:induction false} FindMeaning(forward: seq<NumericLabel>, id: nat, place: nat)
    ensures match FindForward(forward, id, place)
      case Some(o) => exists i :: FirstAfter(forward, id, place, i) && forward[i].offset == o
      case None => forall i :: 0 <= i < |forward| && forward[i].id == id ==> forward[i].offset <= place
  {
    if forward != [] {
      if forward[0].id == id && forward[0].offset > place {
        assert FirstAfter(forward, id, place, 0);
      } else {
        FindMeaning(forward[1..], id, place);
        if FindForward(forward[1..], id, place).Some? {
          var i :|
            && FirstAfter(forward[1..], id, place, i)
            && forward[1..][i].offset == FindForward(forward[1..], id, place).value;
          forall j | 0 <= j < i + 1 && forward[j].id == id ensures forward[j].offset <= place {
            if j > 0 { assert forward[1..][j - 1] == forward[j]; }
          }
          assert FirstAfter(forward, id, place, i + 1);
        } else {
          forall j | 0 <= j < |forward| && forward[j].id == id ensures forward[j].offset <= place {
            if j > 0 { assert forward[1..][j - 1] == forward[j]; }
          }
        }
      }
    }
  }

  predicate FirstAfter(forward: seq<NumericLabel>, id: nat, place: nat, i: int) {
    && 0 <= i < |forward| && forward[i].id == id && forward[i].offset > place
    && forall j :: 0 <= j < i && forward[j].id == id ==> forward[j].offset <= place
  }

  /** `j` is the first item after `k` that writes `id:` in section `s`. */
  predicate NextMark<I>(items: seq<Item<I>>, k: nat, s: Section, id: nat, j: nat) {
    k < j && Marks(items, j, s, id) && forall m: nat :: k < m < j ==> !Marks(items, m, s, id)
  }

  /** A forward reference finds the first label with its number that follows the
      referring instruction in its own section of the stream, however the sections
      are interleaved, and fails exactly when there is none. */
  lemma ForwardMeaning<I(!new)>(
      enc: Encoder<I>, defs: seq<SectionDef>, items: seq<Item<I>>, k: nat, s: Section, f: Fixup)
    requires InTable(defs, items) && PlaceAll(enc, defs, items).Ok? && Encodes(enc) && s < |defs|
    requires Refers(enc, items, k, s, f) && f.target.Forward?
    ensures match FindForward(PlaceAll(enc, defs, items).value.code[s].forward, f.target.id, f.offset)
      case Some(o) => exists j: nat :: NextMark(items, k, s, f.target.id, j) && |BytesIn(enc, items[..j], s)| == o
      case None => forall j: nat :: k < j ==> !Marks(items, j, s, f.target.id)
  {
    hide PlaceAll, NumericsIn, BytesIn, Refers, Encodes, Sides, NextMark, Marks, FindForward, SectionAfter;
    var forward, id := PlaceAll(enc, defs, items).value.code[s].forward, f.target.id;
    SidesPlaced(enc, defs, items, k, s, f);
    FindMeaning(forward, id, f.offset);
    if FindForward(forward, id, f.offset).Some? {
      var i: nat :|
        FirstAfter(forward, id, f.offset, i) && forward[i].offset == FindForward(forward, id, f.offset).value;
      FirstIsNext(items, k, s, id, forward, f.offset, i);
      OffsetPlaced(enc, defs, items, s, i);
    } else {
      NoneIsNext(items, k, s, id, forward, f.offset);
    }
  }

  lemma OffsetPlaced<I(!new)>(enc: Encoder<I>, defs: seq<SectionDef>, items: seq<Item<I>>, s: Section, i: nat)
    requires InTable(defs, items) && PlaceAll(enc, defs, items).Ok? && s < |defs| && i < |NumericsIn(items, s)|
    ensures var forward, ks := PlaceAll(enc, defs, items).value.code[s].forward, NumericsIn(items, s);
      i < |forward| && ks[i] < |items| && |BytesIn(enc, items[..ks[i]], s)| == forward[i].offset
  {
    hide PlaceAll, NumericsIn, BytesIn;
    ForwardPlaced(enc, defs, items, s);
  }

  /** The recorded labels are those of the stream, and an offset divides them as the
      item it belongs to does. */
  ghost predicate Sides<I>(items: seq<Item<I>>, k: nat, s: Section, forward: seq<NumericLabel>, place: nat) {
    var ks := NumericsIn(items, s);
    && |forward| == |ks|
    && forall i :: 0 <= i < |ks| ==> forward[i].id == items[ks[i]].id && (forward[i].offset > place <==> ks[i] > k)
  }

  lemma SidesPlaced<I(!new)>(enc: Encoder<I>, defs: seq<SectionDef>, items: seq<Item<I>>, k: nat, s: Section, f: Fixup)
    requires InTable(defs, items) && PlaceAll(enc, defs, items).Ok?
    requires Encodes(enc) && s < |defs| && Refers(enc, items, k, s, f)
    ensures Sides(items, k, s, PlaceAll(enc, defs, items).value.code[s].forward, f.offset)
  {
    hide PlaceAll, NumericsIn, BytesIn, Refers, Encodes;
    ForwardPlaced(enc, defs, items, s);
    var forward, ks := PlaceAll(enc, defs, items).value.code[s].forward, NumericsIn(items, s);
    forall i | 0 <= i < |ks| ensures forward[i].id == items[ks[i]].id && (forward[i].offset > f.offset <==> ks[i] > k) {
      MarkSide(enc, items, k, s, f, ks[i]);
    }
  }

  lemma FirstIsNext<I>(items: seq<Item<I>>, k: nat, s: Section, id: nat, forward: seq<NumericLabel>, place: nat, i: nat)
    requires Sides(items, k, s, forward, place) && FirstAfter(forward, id, place, i)
    ensures i < |NumericsIn(items, s)| && NextMark(items, k, s, id, NumericsIn(items, s)[i])
  {
    hide NumericsIn;
    var ks := NumericsIn(items, s);
    forall m: nat | k < m < ks[i] ensures !Marks(items, m, s, id) {
      if Marks(items, m, s, id) { NumericsComplete(items, s, m, id); }
    }
  }

  lemma NoneIsNext<I>(items: seq<Item<I>>, k: nat, s: Section, id: nat, forward: seq<NumericLabel>, place: nat)
    requires Sides(items, k, s, forward, place)
    requires forall i :: 0 <= i < |forward| && forward[i].id == id ==> forward[i].offset <= place
    ensures forall j: nat :: k < j ==> !Marks(items, j, s, id)
  {
    hide NumericsIn;
    forall j: nat | k < j ensures !Marks(items, j, s, id) {
      if Marks(items, j, s, id) { NumericsComplete(items, s, j, id); }
    }
  }

  /** A label after the instruction is past every field of it, and one before it
      is not. */
  lemma MarkSide<I(!new)>(enc: Encoder<I>, items: seq<Item<I>>, k: nat, s: Section, f: Fixup, j: nat)
    requires Encodes(enc) && Refers(enc, items, k, s, f) && j < |items| && items[j].Numeric?
    ensures |BytesIn(enc, items[..j], s)| > f.offset <==> j > k
  {
    assert items[..k + 1][..k] == items[..k];
    if j > k {
      BytesInGrow(enc, items, k + 1, j, s);
    } else {
      BytesInGrow(enc, items, j, k, s);
    }
  }

  // ----- symbols --------------------------------------------------------------------

  /** Item `k` closes the symbol: its label is the last one before `k`, in the same
      section, and its size counts the bytes placed between the two. */
  ghost predicate Sizes<I>(enc: Encoder<I>, items: seq<Item<I>>, k: nat, sym: Symbol) {
    && k < |items| && items[k] == Item.Size(sym.name) && sym.definition.Some?
    && var d := sym.definition.value;
      && At(enc, items, k, Spot(d.section, d.offset + d.size))
      && exists j: nat :: j < k && LastLabel(items[..k], sym.name, j) && At(enc, items, j, Spot(d.section, d.offset))
  }

  ghost predicate IsSized<I>(enc: Encoder<I>, items: seq<Item<I>>, sym: Symbol) {
    exists k: nat :: Sizes(enc, items, k, sym)
  }

  lemma PlaceSymbols<I>(enc: Encoder<I>, defs: seq<SectionDef>, st: Placed, item: Item<I>)
    requires Valid(defs, st) && (item.Section? ==> item.section < |defs|) && Place(enc, defs, st, item).Ok?
    ensures var after := Place(enc, defs, st, item).value;
      if item.Size? then
        && st.section.Some? && st.section.value < |defs| && item.name in st.open
        && var start, end := st.open[item.name], |st.code[st.section.value].bytes|;
          && start.section == st.section.value && start.offset <= end
          && var d := Definition(start.section, start.offset, end - start.offset);
            after.symbols == st.symbols + [Symbol(item.name, Some(d))]
      else after.symbols == st.symbols
  {
  }

  /** The symbols of a layout are its `.size` items, in order. */
  lemma {:induction false} SymbolsPlaced<I>(enc: Encoder<I>, defs: seq<SectionDef>, items: seq<Item<I>>)
    requires InTable(defs, items) && PlaceAll(enc, defs, items).Ok?
    ensures var st := PlaceAll(enc, defs, items).value;
      && (forall i :: 0 <= i < |st.symbols| ==> IsSized(enc, items, st.symbols[i]))
      && (forall k: nat :: k < |items| && items[k].Size? ==>
            exists i :: 0 <= i < |st.symbols| && Sizes(enc, items, k, st.symbols[i]))
  {
    hide Place, Valid, BytesIn, SectionAfter, LastLabel, At;
    if items != [] {
      var n := |items| - 1;
      var front, last := items[..n], items[n];
      var before, st := PlaceAll(enc, defs, front).value, PlaceAll(enc, defs, items).value;
      SymbolsPlaced(enc, defs, front);
      PlaceSymbols(enc, defs, before, last);
      forall k: nat, i | 0 <= i < |before.symbols| && Sizes(enc, front, k, before.symbols[i])
        ensures Sizes(enc, items, k, st.symbols[i])
      {
        SizesPrefix(enc, items, n, k, before.symbols[i]);
      }
      if last.Size? {
        SizesLast(enc, defs, items, n, st.symbols[|before.symbols|]);
      }
      forall k: nat | k < |items| && items[k].Size?
        ensures exists i :: 0 <= i < |st.symbols| && Sizes(enc, items, k, st.symbols[i])
      {
        if k < n {
          assert front[k].Size?;
          var i :| 0 <= i < |before.symbols| && Sizes(enc, front, k, before.symbols[i]);
          assert Sizes(enc, items, k, st.symbols[i]);
        } else {
          assert Sizes(enc, items, k, st.symbols[|before.symbols|]);
        }
      }
      forall i | 0 <= i < |st.symbols| ensures IsSized(enc, items, st.symbols[i]) {
        if i < |before.symbols| {
          var k: nat :| Sizes(enc, front, k, before.symbols[i]);
          assert Sizes(enc, items, k, st.symbols[i]);
        } else {
          assert Sizes(enc, items, n, st.symbols[i]);
        }
      }
    }
  }

  lemma SizesPrefix<I>(enc: Encoder<I>, items: seq<Item<I>>, n: nat, k: nat, sym: Symbol)
    requires n < |items| && Sizes(enc, items[..n], k, sym)
    ensures Sizes(enc, items, k, sym)
  {
    hide BytesIn, SectionAfter, LastLabel;
    var d := sym.definition.value;
    assert items[..n][..k] == items[..k];
    AtPrefix(enc, items, n, k, Spot(d.section, d.offset + d.size));
    var j: nat :| j < k && LastLabel(items[..n][..k], sym.name, j) && At(enc, items[..n], j, Spot(d.section, d.offset));
    AtPrefix(enc, items, n, j, Spot(d.section, d.offset));
  }

  lemma SizesLast<I>(enc: Encoder<I>, defs: seq<SectionDef>, items: seq<Item<I>>, n: nat, sym: Symbol)
    requires InTable(defs, items) && |items| == n + 1 && items[n] == Item.Size(sym.name)
    requires PlaceAll(enc, defs, items[..n]).Ok?
    requires var before := PlaceAll(enc, defs, items[..n]).value;
      && before.section.Some? && before.section.value < |defs| && sym.name in before.open
      && var start, end := before.open[sym.name], |before.code[before.section.value].bytes|;
        && start.section == before.section.value && start.offset <= end
        && sym.definition == Some(Definition(start.section, start.offset, end - start.offset))
    ensures Sizes(enc, items, n, sym)
  {
    hide PlaceAll, Valid, BytesIn, SectionAfter;
    LabelsPlaced(enc, defs, items[..n]);
    BytesPlaced(enc, defs, items[..n]);
    var before := PlaceAll(enc, defs, items[..n]).value;
    var j: nat :| LastLabel(items[..n], sym.name, j);
    AtPrefix(enc, items, n, j, before.labels[sym.name]);
  }

  /** Every `.globl` is in the final table, once when it had no `.size`; what is
      added is where its label is, or is left to the linker. */
  lemma {:induction false} GlobalsAdded(symbols: seq<Symbol>, labels: map<Name, Spot>, globals: seq<Name>)
    ensures var all := AddGlobals(symbols, labels, globals);
      && |symbols| <= |all| && all[..|symbols|] == symbols
      && (forall i :: |symbols| <= i < |all| ==> all[i].name in globals && Added(all[i], labels))
      && (forall i, j :: 0 <= i < j < |all| && |symbols| <= j ==> all[i].name != all[j].name)
      && (forall g :: g in globals ==> Knows(all, g))
    decreases |globals|
  {
    if globals == [] {
      assert symbols[..|symbols|] == symbols;
    } else {
      var more := WithGlobal(symbols, labels, globals[0]);
      GlobalsAdded(more, labels, globals[1..]);
      var all := AddGlobals(symbols, labels, globals);
      GlobalKnown(symbols, labels, globals[0]);
      hide AddGlobals, WithGlobal, Knows, Added;
      PrefixOfPrefix(all, more, symbols);
      forall j | |symbols| <= j < |all| ensures all[j].name in globals && Added(all[j], labels) {
        if j < |more| { assert all[j] == more[j]; }
      }
      forall h, j | 0 <= h < j < |all| && |symbols| <= j ensures all[h].name != all[j].name {
        if j < |more| { assert all[j] == more[j] && all[h] == more[h]; }
      }
      forall g | g in globals ensures Knows(all, g) {
        if g == globals[0] { StillKnown(more, all, g); } else { assert g in globals[1..]; }
      }
    }
  }

  lemma PrefixOfPrefix<T>(all: seq<T>, more: seq<T>, some: seq<T>)
    requires |some| <= |more| <= |all| && all[..|more|] == more && more[..|some|] == some
    ensures all[..|some|] == some && forall i :: 0 <= i < |more| ==> all[i] == more[i]
  {
  }

  lemma GlobalKnown(symbols: seq<Symbol>, labels: map<Name, Spot>, name: Name)
    ensures var more := WithGlobal(symbols, labels, name);
      && |symbols| <= |more| <= |symbols| + 1 && more[..|symbols|] == symbols && Knows(more, name)
      && forall j :: |symbols| <= j < |more| ==>
           more[j].name == name && Added(more[j], labels) && forall h :: 0 <= h < j ==> more[h].name != name
  {
    var more := WithGlobal(symbols, labels, name);
    if !Knows(symbols, name) { assert more[|symbols|].name == name; }
  }

  lemma StillKnown(symbols: seq<Symbol>, all: seq<Symbol>, name: Name)
    requires Knows(symbols, name) && |symbols| <= |all| && all[..|symbols|] == symbols
    ensures Knows(all, name)
  {
    var i :| 0 <= i < |symbols| && symbols[i].name == name;
    assert all[..|symbols|][i] == all[i];
  }

  /** The pass remembers exactly the `.globl` names and the function marks of the stream. */
  lemma {:induction false} MarksPlaced<I>(enc: Encoder<I>, defs: seq<SectionDef>, items: seq<Item<I>>)
    requires InTable(defs, items) && PlaceAll(enc, defs, items).Ok?
    ensures var st := PlaceAll(enc, defs, items).value;
      forall name ::
        && (name in st.globals <==> Item.Global(name) in items)
        && (name in st.functions <==> Item.Function(name) in items)
  {
    hide Place, Valid;
    if items != [] {
      var front, last := items[..|items| - 1], items[|items| - 1];
      assert items == front + [last];
      MarksPlaced(enc, defs, front);
      PlaceMarks(enc, defs, PlaceAll(enc, defs, front).value, last);
    }
  }

  lemma PlaceMarks<I>(enc: Encoder<I>, defs: seq<SectionDef>, st: Placed, item: Item<I>)
    requires Valid(defs, st) && (item.Section? ==> item.section < |defs|) && Place(enc, defs, st, item).Ok?
    ensures var after := Place(enc, defs, st, item).value;
      && after.globals == st.globals + (if item.Global? then [item.name] else [])
      && after.functions == st.functions + (if item.Function? then {item.name} else {})
  {
  }

  /** The finished table read off the stream: every `.globl` name is in it, a symbol that
      no `.size` gives comes from a `.globl`, and such a symbol is where the last label of
      its name is, or undefined when the stream has none. */
  lemma TableFromItems<I>(enc: Encoder<I>, defs: seq<SectionDef>, items: seq<Item<I>>)
    requires InTable(defs, items) && PlaceAll(enc, defs, items).Ok?
    ensures var st := PlaceAll(enc, defs, items).value;
      var all := AddGlobals(st.symbols, st.labels, st.globals);
      && (forall name :: Item.Global(name) in items ==> Knows(all, name))
      && (forall i :: 0 <= i < |all| ==> IsSized(enc, items, all[i]) || FromGlobal(enc, items, all[i]))
  {
    hide PlaceAll, AddGlobals, IsSized, BytesIn, SectionAfter, Knows;
    var st := PlaceAll(enc, defs, items).value;
    var all := AddGlobals(st.symbols, st.labels, st.globals);
    MarksPlaced(enc, defs, items);
    SymbolsPlaced(enc, defs, items);
    LabelsPlaced(enc, defs, items);
    GlobalsAdded(st.symbols, st.labels, st.globals);
    forall i | 0 <= i < |all| ensures IsSized(enc, items, all[i]) || FromGlobal(enc, items, all[i]) {
      if i < |st.symbols| {
        assert all[i] == all[..|st.symbols|][i];
      } else if all[i].name in st.labels {
        var k: nat :| LastLabel(items, all[i].name, k);
        assert At(enc, items, k, st.labels[all[i].name]);
      }
    }
  }

  /** A `.globl` with no `.size`: no bytes of its own, and its label's place if there is one. */
  ghost predicate FromGlobal<I>(enc: Encoder<I>, items: seq<Item<I>>, sym: Symbol) {
    && Item.Global(sym.name) in items
    && match sym.definition
       case None => forall k: nat :: !LastLabel(items, sym.name, k)
       case Some(d) =>
         d.size == 0 && exists k: nat :: LastLabel(items, sym.name, k) && At(enc, items, k, Spot(d.section, d.offset))
  }

  // ----- what is refused ----------------------------------------------------------------

  /** Item `k` may stand where it does: bytes and labels in a section of code or data,
      instructions and numeric labels in code, a `.size` in the section of the last label
      of its name. */
  ghost predicate Placeable<I>(enc: Encoder<I>, defs: seq<SectionDef>, items: seq<Item<I>>, k: nat)
    requires k < |items|
  {
    var here := SectionAfter(items[..k]);
    match items[k]
    case Label(_) => HoldsOneOf(defs, here, {Text, RoData})
    case Bytes(_) => HoldsOneOf(defs, here, {Text, RoData})
    case Numeric(_) => HoldsOneOf(defs, here, {Text})
    case Instruction(inst) => HoldsOneOf(defs, here, {Text}) && enc(inst).Ok?
    case Size(name) =>
      && HoldsOneOf(defs, here, {Text, RoData})
      && exists j: nat :: j < k && LastLabel(items[..k], name, j) && SectionAfter(items[..j]) == here
    case _ => true
  }

  predicate HoldsOneOf(defs: seq<SectionDef>, here: Option<Section>, kinds: set<SectionKind>) {
    here.Some? && here.value < |defs| && defs[here.value].kind in kinds
  }

  ghost predicate AllPlaceable<I>(enc: Encoder<I>, defs: seq<SectionDef>, items: seq<Item<I>>) {
    forall k: nat :: k < |items| ==> Placeable(enc, defs, items, k)
  }

  /** The layout pass accepts a stream exactly when every item may stand where it does. */
  lemma {:induction false} PlacesExactly<I>(enc: Encoder<I>, defs: seq<SectionDef>, items: seq<Item<I>>)
    requires InTable(defs, items)
    ensures PlaceAll(enc, defs, items).Ok? <==> AllPlaceable(enc, defs, items)
  {
    hide Place, Placeable, Valid;
    if items != [] {
      var n := |items| - 1;
      var front := items[..n];
      PlacesExactly(enc, defs, front);
      assert forall k: nat :: k < n ==> items[..n][..k] == items[..k];
      forall k: nat | k < n ensures Placeable(enc, defs, front, k) <==> Placeable(enc, defs, items, k) {
        PlaceableBefore(enc, defs, items, n, k);
      }
      if PlaceAll(enc, defs, front).Ok? {
        PlaceOne(enc, defs, items, n);
      }
    }
  }

  lemma PlaceableBefore<I>(enc: Encoder<I>, defs: seq<SectionDef>, items: seq<Item<I>>, n: nat, k: nat)
    requires k < n <= |items|
    ensures Placeable(enc, defs, items[..n], k) <==> Placeable(enc, defs, items, k)
  {
    hide LastLabel, SectionAfter;
    assert items[..n][..k] == items[..k];
    assert forall j: nat :: j < k ==> items[..n][..j] == items[..j];
  }

  lemma PlaceOne<I>(enc: Encoder<I>, defs: seq<SectionDef>, items: seq<Item<I>>, n: nat)
    requires InTable(defs, items) && n < |items| && PlaceAll(enc, defs, items[..n]).Ok?
    ensures Place(enc, defs, PlaceAll(enc, defs, items[..n]).value, items[n]).Ok? <==> Placeable(enc, defs, items, n)
  {
    hide PlaceAll, SectionAfter, BytesIn, Append;
    var front := items[..n];
    var st := PlaceAll(enc, defs, front).value;
    BytesPlaced(enc, defs, front);
    if items[n].Size? && st.section.Some? {
      LabelsPlaced(enc, defs, front);
      SizeOne(enc, items, n, st.labels, items[n].name, st.section);
    }
  }

  lemma SizeOne<I>(
      enc: Encoder<I>, items: seq<Item<I>>, n: nat, labels: map<Name, Spot>, name: Name, here: Option<Section>)
    requires n <= |items| && here.Some?
    requires name in labels ==> exists k: nat :: LastLabel(items[..n], name, k)
    requires forall k: nat :: LastLabel(items[..n], name, k) ==> name in labels && At(enc, items[..n], k, labels[name])
    ensures name in labels && labels[name].section == here.value
       <==> exists j: nat :: j < n && LastLabel(items[..n], name, j) && SectionAfter(items[..j]) == here
  {
    hide BytesIn, SectionAfter;
    assert forall j: nat :: j < n ==> items[..n][..j] == items[..j];
    if name in labels {
      var k: nat :| LastLabel(items[..n], name, k);
      assert At(enc, items[..n], k, labels[name]);
    }
    if j: nat :| j < n && LastLabel(items[..n], name, j) && SectionAfter(items[..j]) == here {
      assert At(enc, items[..n], j, labels[name]);
    }
  }

  predicate Added(sym: Symbol, labels: map<Name, Spot>) {
    sym.definition ==
      if sym.name in labels then Some(Definition(labels[sym.name].section, labels[sym.name].offset, 0)) else None
  }

  // ----- the pass ---------------------------------------------------------------------

  class Layout<I(!new)> {
    var section: Option<Section>
    var code: seq<Code>
    var labels: map<Name, Spot>
    var open: map<Name, Spot>
    var globals: seq<Name>
    var functions: set<Name>
    var symbols: seq<Symbol>
    const defs: seq<SectionDef>
    const enc: Encoder<I>

    ghost function State(): Placed
      reads this
    {
      Placed(section, code, labels, open, globals, functions, symbols)
    }

    constructor (enc: Encoder<I>, defs: seq<SectionDef>)
      ensures this.enc == enc && this.defs == defs && State() == Start(defs)
    {
      this.enc := enc;
      this.defs := defs;
      section := None;
      code := seq(|defs|, _ => Code([], [], []));
      labels, open, globals, functions, symbols := map[], map[], [], {}, [];
    }

    method Here() returns (r: Result<Spot>)
      requires Valid(defs, State())
      ensures r == Position(defs, State())
    {
      if section.None? {
        return Err(BeforeFirstSection);
      }
      if !defs[section.value].kind.HoldsData() {
        return Err(NotPlaceable(section.value));
      }
      return Ok(Spot(section.value, |code[section.value].bytes|));
    }

    /** Lays out a whole stream, or reports its first impossible item. */
    method Run(items: seq<Item<I>>) returns (r: Result<()>)
      requires State() == Start(defs) && InTable(defs, items)
      modifies this
      ensures match PlaceAll(enc, defs, items)
        case Err(e) => r == Err(e)
        case Ok(st) =>
          r == Ok(()) && State() == st.(symbols := AddGlobals(st.symbols, st.labels, st.globals))
    {
      for k := 0 to |items|
        invariant PlaceAll(enc, defs, items[..k]) == Ok(State())
      {
        assert items[..k + 1][..k] == items[..k];
        var step := PlaceItem(items[k]);
        if step.Err? {
          PrefixFails(enc, defs, items, k + 1);
          return step;
        }
      }
      assert items[..|items|] == items;
      ghost var st := State();
      for g := 0 to |globals|
        invariant State() == st.(symbols := symbols)
        invariant AddGlobals(symbols, labels, globals[g..]) == AddGlobals(st.symbols, st.labels, st.globals)
      {
        var name := globals[g];
        assert globals[g..][1..] == globals[g + 1..];
        if !Knows(symbols, name) {
          var definition :=
            if name in labels then Some(Definition(labels[name].section, labels[name].offset, 0)) else None;
          symbols := symbols + [Symbol(name, definition)];
        }
      }
      return Ok(());
    }

    method PlaceItem(item: Item<I>) returns (r: Result<()>)
      requires Valid(defs, State()) && (item.Section? ==> item.section < |defs|)
      modifies this
      ensures match Place(enc, defs, old(State()), item)
        case Err(e) => r == Err(e)
        case Ok(st) => r == Ok(()) && State() == st
    {
      r := Ok(());
      match item
      case Section(s) => section := Some(s);
      case Label(name) =>
        var here := Here();
        if here.Err? { return Err(here.error); }
        labels := labels[name := here.value];
        open := open[name := here.value];
      case Numeric(id) =>
        var here := Here();
        if here.Err? { return Err(here.error); }
        var s := here.value.section;
        if !defs[s].kind.HoldsCode() { return Err(NotCode(s)); }
        code := code[s := code[s].(forward := code[s].forward + [NumericLabel(id, here.value.offset)])];
      case Global(name) => globals := globals + [name];
      case Function(name) => functions := functions + {name};
      case Size(name) =>
        var here := Here();
        if here.Err? { return Err(here.error); }
        if name !in open { return Err(SizeBeforeLabel(name)); }
        var start := open[name];
        if start.section != here.value.section { return Err(SizeInAnotherSection(name)); }
        symbols := symbols
          + [Symbol(name, Some(Definition(start.section, start.offset, here.value.offset - start.offset)))];
      case Bytes(bytes) =>
        var here := Here();
        if here.Err? { return Err(here.error); }
        var s := here.value.section;
        code := code[s := Append(code[s], Encoded(bytes, []))];
      case File(_, _) =>
      case Loc(_, _, _) =>
      case Syntax(_) =>
      case Instruction(inst) =>
        if section.None? { return Err(BeforeFirstSection); }
        var s := section.value;
        if !defs[s].kind.HoldsCode() { return Err(NotCode(s)); }
        var e := enc(inst);
        if e.Err? { return Err(CannotEncode); }
        code := code[s := Append(code[s], e.value)];
    }
  }

  lemma {:induction false} PrefixFails<I>(enc: Encoder<I>, defs: seq<SectionDef>, items: seq<Item<I>>, k: nat)
    requires InTable(defs, items) && k <= |items| && PlaceAll(enc, defs, items[..k]).Err?
    ensures PlaceAll(enc, defs, items) == PlaceAll(enc, defs, items[..k])
    decreases |items| - k
  {
    if k < |items| {
      assert items[..k + 1][..k] == items[..k];
      PrefixFails(enc, defs, items, k + 1);
    } else {
      assert items[..k] == items;
    }
  }
}
