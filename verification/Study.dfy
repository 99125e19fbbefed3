/** Three ways to hold one growing byte string: a list of packed words with a scalar
    tail, a byte buffer that reserves its own room, and a list of one-byte elements. */
module Study {
  import opened Types
  import opened Items
  import opened Bytes
  import opened Packing
  import Lists
  import Words

  type List = Lists.List

  datatype Storage = PackedWords | ByteBuffer | NarrowList {
    function Width(): nat { if PackedWords? then 8 else 1 }

    /** The largest capacity in elements that doubling from four reaches before the size
        in bytes stops fitting a word. */
    function Most(): nat { if PackedWords? then 0x1000_0000_0000_0000 else 0x8000_0000_0000_0000 }

    /** Whether a text of `n` bytes can be held: its complete elements have room. */
    predicate Holds(n: nat) { n / Width() <= Most() }
  }

  // ----- capacities -----------------------------------------------------------------------

  /** Doubling leads from one capacity to the other. */
  predicate Reaches(cap: nat, limit: nat)
    decreases limit - cap
  {
    cap == limit || (0 < cap < limit && Reaches(2 * cap, limit))
  }

  predicate Grown(cap: nat, storage: Storage) {
    cap == 0 || Reaches(cap, storage.Most())
  }

  lemma {:induction false} PowersReach(k: nat, n: nat)
    requires k <= n
    ensures Reaches(Words.Pow2(k), Words.Pow2(n))
    decreases n - k
  {
    if k < n {
      PowersReach(k + 1, n);
      Words.Pow2Monotone(k + 1, n);
    }
  }

  lemma FourReaches(storage: Storage)
    ensures Reaches(4, storage.Most())
  {
    PowersReach(2, 60);
    PowersReach(2, 63);
    hide Reaches;
    Words.Pow2Values();
    assert Words.Pow2(2) == 4;
    assert Words.Pow2(63) == 8 * Words.Pow2(60);
  }

  lemma ReachesWithin(cap: nat, limit: nat)
    requires Reaches(cap, limit) && limit > 0
    ensures 0 < cap <= limit && (cap < limit ==> Reaches(2 * cap, limit) && 2 * cap <= limit)
  {
  }

  /** Growing passes the overflow checks exactly below the largest capacity. */
  lemma GrowthFits(cap: nat, storage: Storage)
    requires Grown(cap, storage)
    ensures cap <= storage.Most()
    ensures Lists.Fits(Lists.NextCap(cap), storage.Width()) <==> cap < storage.Most()
    ensures cap < storage.Most() ==> Grown(Lists.NextCap(cap), storage)
  {
    Lists.AreaIsProduct(Lists.NextCap(cap), storage.Width());
    FourReaches(storage);
    hide Lists.Area;
    if cap > 0 { ReachesWithin(cap, storage.Most()); }
    hide Reaches;
  }

  // ----- words and bytes --------------------------------------------------------------------

  lemma {:induction false} FromLeBelow(b: seq<Byte>)
    ensures FromLe(b) < Radix(|b|)
  {
    if b != [] { FromLeBelow(b[1..]); }
  }

  /** The word of eight bytes. */
  function WordOf(element: seq<Byte>): U64
    requires |element| == 8
  {
    FromLeBelow(element);
    RadixValues();
    FromLe(element)
  }

  lemma WordByte(element: seq<Byte>, r: nat)
    requires |element| == 8 && r < 8
    ensures LowByteOf(WordOf(element), r) == element[r]
  {
    Lists.FromLeBound(element);
    TailByte(WordOf(element), 8, r);
  }

  lemma Eights(n: nat)
    ensures Lists.Area(n, 8) == 8 * n && Lists.Area(n, 1) == n
  {
    Lists.AreaIsProduct(n, 8);
    Lists.AreaIsProduct(n, 1);
  }

  /** The word an index is read from: an element of the list, or the tail. */
  function WordHolding(b: seq<Byte>, n: nat, tail: U64, index: nat): U64
    requires |b| == Lists.Area(n, 8)
  {
    if index / 8 < n then
      Lists.RowAt(b, 8, n, index / 8);
      WordOf(Lists.Rows(b, 8, n)[index / 8])
    else tail
  }

  /** Reading through the word that holds an index gives the byte there. */
  lemma PackedByteAt(b: seq<Byte>, n: nat, tail: U64, used: nat, index: nat)
    requires |b| == Lists.Area(n, 8) && n == used / 8 && index < used
    ensures |b| == 8 * n
    ensures (b + Le(tail, used % 8))[index]
         == LowByteOf(WordHolding(b, n, tail, index), index % 8)
  {
    hide Le, LowByteOf, Lists.Area, WordOf;
    Eights(n);
    Eights(index / 8);
    var q, r := index / 8, index % 8;
    if q < n {
      Lists.RowAt(b, 8, n, q);
      WordByte(b[8 * q..8 * q + 8], r);
    } else {
      TailByte(tail, used % 8, r);
    }
  }

  /** Or-ing the next byte into the tail appends it to the bytes the tail holds. */
  lemma NextTail(tail: U64, byte: Byte, k: nat)
    requires k < 8 && tail < Radix(k)
    ensures 0 <= WithByte(tail, byte, k) < Radix(k + 1) <= 0x1_0000_0000_0000_0000
    ensures Le(WithByte(tail, byte, k), k + 1) == Le(tail, k) + [byte]
  {
    WithByteAdds(tail, byte, k);
    LeSnoc(tail, byte, k);
  }

  // ----- lists --------------------------------------------------------------------------------

  method PushElement(list: List, storage: Storage, element: seq<Byte>) returns (ok: bool)
    requires list.Valid() && list.elemSize == storage.Width() == |element| && Grown(list.cap, storage)
    modifies list, list.ptr
    ensures list.Valid() && (list.ptr == old(list.ptr) || fresh(list.ptr)) && Grown(list.cap, storage)
    ensures ok <==> old(list.len) < storage.Most()
    ensures list.Used() == if ok then old(list.Used()) + element else old(list.Used())
    ensures list.len == if ok then old(list.len) + 1 else old(list.len)
  {
    GrowthFits(list.cap, storage);
    hide Lists.Fits, Lists.NextCap, Reaches;
    ghost var before := list.Elements();
    ok := list.Push(element);
    assert |list.Elements()| == if ok then |before| + 1 else |before|;
  }

  /** Pushes every element of one list onto another that is empty. */
  method PushAll(source: List, target: List, storage: Storage)
    requires source.Valid() && source.elemSize == storage.Width() && source.len <= storage.Most()
    requires target.Valid() && target.elemSize == storage.Width() && target.cap == 0 && target.ptr == null
    requires source != target
    modifies target
    ensures target.Valid() && (target.ptr == null || fresh(target.ptr)) && Grown(target.cap, storage)
    ensures target.Used() == source.Used() && target.len == source.len
  {
    hide Reaches, Lists.Area, Lists.Rows;
    ghost var all, size := source.Used(), storage.Width();
    Eights(0);
    for i := 0 to source.len
      invariant source.Valid() && source.Used() == all && source.len == old(source.len) && source.ptr == old(source.ptr)
      invariant target.Valid() && (target.ptr == null || fresh(target.ptr)) && Grown(target.cap, storage)
      invariant target.len == i && Lists.Area(i, size) <= |all| && target.Used() == all[..Lists.Area(i, size)]
    {
      Lists.Extent(i, source.len, size);
      Lists.RowAt(all, size, source.len, i);
      var element := source.ElementAt(i);
      assert all[..Lists.Area(i + 1, size)] == all[..Lists.Area(i, size)] + element;
      var ok := PushElement(target, storage, element);
    }
  }

  // ----- one storage ----------------------------------------------------------------------------

  class StudyStorage {
    const storage: Storage
    const list: List
    var tail: U64
    var used: nat

    ghost predicate Valid()
      reads this, list, list.ptr
    {
      && list.Valid() && list.elemSize == storage.Width() && Grown(list.cap, storage)
      && if storage.PackedWords? then list.len == used / 8 && tail < Radix(used % 8) else list.len == used
    }

    /** What no other storage may share. */
    ghost function Repr(): (repr: set<object>)
      reads this, list
      ensures this in repr && list in repr && (list.ptr != null ==> list.ptr in repr)
    {
      {this, list} + if list.ptr == null then {} else {list.ptr}
    }

    /** The bytes written so far, as the representation holds them. */
    ghost function Text(): (text: seq<Byte>)
      requires Valid()
      reads this, list, list.ptr
      ensures |text| == used && storage.Holds(used)
    {
      Eights(list.len);
      Within();
      if storage.PackedWords? then list.Used() + Le(tail, used % 8) else list.Used()
    }

    /** A storage of this kind with this text. */
    ghost predicate Is(storage: Storage, text: seq<Byte>)
      reads this, list, list.ptr
    {
      this.storage == storage && Valid() && Text() == text
    }

    lemma Within()
      requires Valid()
      ensures list.len <= list.cap <= storage.Most() && storage.Holds(used)
    {
      GrowthFits(list.cap, storage);
    }

    constructor (storage: Storage)
      ensures Valid() && Text() == [] && this.storage == storage && list.cap == 0 && list.ptr == null
      ensures fresh(Repr())
    {
      this.storage := storage;
      list := new Lists.List(storage.Width(), None);
      tail, used := 0, 0;
    }

    /** Doubles the byte buffer until the extra bytes have room; `false` is the abort. */
    method Reserve(extra: nat) returns (ok: bool)
      requires Valid() && storage.ByteBuffer?
      modifies list
      ensures Valid() && Text() == old(Text()) && (list.ptr == old(list.ptr) || fresh(list.ptr))
      ensures ok <==> storage.Holds(used + extra)
      ensures ok ==> used + extra <= list.cap
    {
      Within();
      if extra > Lists.UINT64_MAX - used { return false; }
      var needed := used + extra;
      if needed <= list.cap { return true; }
      var next := if list.cap == 0 then 4 else list.cap;
      FourReaches(storage);
      while next < needed
        invariant Reaches(next, storage.Most()) && used <= next && list.cap <= next
        decreases storage.Most() - next
        modifies {}
      {
        ReachesWithin(next, storage.Most());
        if next > Lists.UINT64_MAX / 2 { return false; }
        next := 2 * next;
      }
      ReachesWithin(next, storage.Most());
      Eights(next);
      Eights(list.cap);
      Eights(used);
      var data := new Byte[next];
      if used > 0 {
        Lists.MemCopy(data, 0, list.ptr, 0, used);
      }
      list.ptr, list.cap, list.copied := data, next, list.copied + used;
      return true;
    }

    /** Appends one byte; `false` is the abort of a capacity that does not fit. */
    method WriteByte(byte: Byte) returns (ok: bool)
      requires Valid()
      modifies Repr()
      ensures ok <==> storage.Holds(old(used) + 1)
      ensures ok ==> Valid() && Text() == old(Text()) + [byte]
      ensures fresh(Repr() - old(Repr()))
    {
      match storage {
        case PackedWords => ok := WritePacked(byte);
        case ByteBuffer => ok := WriteBuffered(byte);
        case NarrowList =>
          Within();
          ok := PushElement(list, storage, [byte]);
          used := used + 1;
      }
    }

    method WritePacked(byte: Byte) returns (ok: bool)
      requires Valid() && storage.PackedWords?
      modifies Repr()
      ensures ok <==> storage.Holds(old(used) + 1)
      ensures ok ==> Valid() && Text() == old(Text()) + [byte]
      ensures fresh(Repr() - old(Repr()))
    {
      hide WithByte, Le, Radix, Reaches;
      Within();
      ghost var held := list.Used();
      ghost var k := used % 8;
      NextTail(tail, byte, k);
      ghost var before := Le(tail, k);
      NoTail();
      tail := WithByte(tail, byte, used % 8);
      assert held + (before + [byte]) == held + before + [byte];
      if used % 8 == 7 {
        ok := PushElement(list, storage, Le(tail, 8));
        if !ok { return; }
        tail := 0;
      }
      used := used + 1;
      ok := true;
    }

    /** Reserve, then the store at the end. */
    method WriteBuffered(byte: Byte) returns (ok: bool)
      requires Valid() && storage.ByteBuffer?
      modifies Repr()
      ensures ok <==> storage.Holds(old(used) + 1)
      ensures ok ==> Valid() && Text() == old(Text()) + [byte]
      ensures fresh(Repr() - old(Repr()))
    {
      ok := Reserve(1);
      if !ok { return; }
      Eights(used);
      Eights(list.cap);
      list.ptr[used] := byte;
      list.len := list.len + 1;
      used := used + 1;
      Eights(used);
    }

    method AppendText(text: seq<Byte>) returns (ok: bool)
      requires Valid()
      modifies Repr()
      ensures ok <==> storage.Holds(old(used) + |text|)
      ensures ok ==> Valid() && Text() == old(Text()) + text
      ensures fresh(Repr() - old(Repr()))
    {
      match storage {
        case PackedWords => ok := PackText(text);
        case ByteBuffer => ok := AppendBuffered(text);
        case NarrowList => ok := AppendEach(text);
      }
    }

    /** One push for every byte. */
    method AppendEach(text: seq<Byte>) returns (ok: bool)
      requires Valid() && storage.NarrowList?
      modifies Repr()
      ensures ok <==> storage.Holds(old(used) + |text|)
      ensures ok ==> Valid() && Text() == old(Text()) + text
      ensures fresh(Repr() - old(Repr()))
    {
      ghost var before := Text();
      for i := 0 to |text|
        invariant Valid() && used == |before| + i && Text() == before + text[..i]
        invariant fresh(Repr() - old(Repr()))
      {
        assert before + text[..i + 1] == before + text[..i] + [text[i]];
        ok := WriteByte(text[i]);
        if !ok { return; }
      }
      Within();
      assert text[..|text|] == text;
      ok := true;
    }

    /** Reserve, then one copy behind the text. */
    method AppendBuffered(text: seq<Byte>) returns (ok: bool)
      requires Valid() && storage.ByteBuffer?
      modifies Repr()
      ensures ok <==> storage.Holds(old(used) + |text|)
      ensures ok ==> Valid() && Text() == old(Text()) + text
      ensures fresh(Repr() - old(Repr()))
    {
      ok := Reserve(|text|);
      if !ok { return; }
      Eights(used);
      Eights(list.cap);
      if |text| > 0 {
        Lists.Fill(list.ptr, used, text);
      }
      used := used + |text|;
      list.len := used;
      Eights(used);
    }

    /** Zero words first, then every byte into the tail or the word it completes. */
    method PackText(text: seq<Byte>) returns (ok: bool)
      requires Valid() && storage.PackedWords?
      modifies Repr()
      ensures ok <==> storage.Holds(old(used) + |text|)
      ensures ok ==> Valid() && Text() == old(Text()) + text
      ensures fresh(Repr() - old(Repr()))
    {
      Within();
      Eights(list.len);
      ok := Prefill((used + |text|) / 8);
      if !ok { return; }
      FillWords(text);
    }

    /** Zero words up to a count. */
    method Prefill(complete: nat) returns (ok: bool)
      requires Valid() && storage.PackedWords? && list.len <= complete
      modifies list, list.ptr
      ensures list.Valid() && Grown(list.cap, storage) && (list.ptr == old(list.ptr) || fresh(list.ptr))
      ensures ok <==> complete <= storage.Most()
      ensures ok ==> list.len == complete
      ensures |old(list.Used())| <= |list.Used()| && list.Used()[..|old(list.Used())|] == old(list.Used())
    {
      hide Reaches, Lists.Area, Le;
      Within();
      ghost var held := list.Used();
      while list.len < complete
        invariant list.Valid() && Grown(list.cap, storage) && (list.ptr == old(list.ptr) || fresh(list.ptr))
        invariant old(list.len) <= list.len <= complete && list.len <= storage.Most()
        invariant |held| <= |list.Used()| && list.Used()[..|held|] == held
      {
        ok := PushElement(list, storage, Le(0, 8));
        if !ok { return; }
      }
      ok := true;
    }

    /** The text so far: the words in use and the bytes of the tail. */
    ghost predicate Holding(before: seq<Byte>)
      reads this, list, list.ptr
    {
      && list.Valid() && list.elemSize == 8
      && 8 * (used / 8) <= |list.Used()| && tail < Radix(used % 8)
      && list.Used()[..8 * (used / 8)] + Le(tail, used % 8) == before
    }

    method FillWords(text: seq<Byte>)
      requires storage.PackedWords? && list.Valid() && list.elemSize == 8 && list.len == (used + |text|) / 8
      requires Grown(list.cap, storage) && tail < Radix(used % 8) && 8 * (used / 8) <= |list.Used()|
      modifies this, list.ptr
      ensures Valid() && used == old(used) + |text|
      ensures Text() == old(list.Used()[..8 * (used / 8)] + Le(tail, used % 8)) + text
    {
      hide WithByte, Le, Radix, Reaches, Lists.Area;
      ghost var before := list.Used()[..8 * (used / 8)] + Le(tail, used % 8);
      assert before + text[..0] == before;
      for i := 0 to |text|
        invariant used == old(used) + i && list.len == old(list.len)
        invariant list.cap == old(list.cap) && list.ptr == old(list.ptr)
        invariant Holding(before + text[..i])
      {
        assert before + text[..i + 1] == before + text[..i] + [text[i]];
        assert (used + 1) / 8 <= list.len by { assert used + 1 <= old(used) + |text|; }
        FillByte(text[i], before + text[..i]);
      }
      assert text[..|text|] == text;
      Eights(list.len);
      assert list.Used()[..8 * (used / 8)] == list.Used();
    }

    method FillByte(byte: Byte, ghost before: seq<Byte>)
      requires Holding(before) && (used + 1) / 8 <= list.len
      modifies this, list.ptr
      ensures used == old(used) + 1 && Holding(before + [byte])
    {
      hide WithByte, Le, Radix, Lists.Area, Lists.Rows, Lists.List.Valid, Lists.List.Used, Lists.List.Elements;
      var k, at := used % 8, used / 8;
      ghost var held := list.Used();
      NextTail(tail, byte, k);
      Extended(held, at, Le(tail, k), byte, Le(WithByte(tail, byte, k), k + 1), before);
      tail := WithByte(tail, byte, k);
      if k == 7 {
        CompleteWord(before + [byte]);
      } else {
        used := used + 1;
      }
    }

    /** The full tail is stored as the word it completes. */
    method CompleteWord(ghost before: seq<Byte>)
      requires list.Valid() && list.elemSize == 8 && used % 8 == 7 && used / 8 < list.len
      requires 8 * (used / 8) <= |list.Used()| && list.Used()[..8 * (used / 8)] + Le(tail, 8) == before
      modifies this`tail, this`used, list.ptr
      ensures used == old(used) + 1 && Holding(before)
    {
      hide Le, Radix, Lists.Area, Lists.Rows, Lists.List.Valid, Lists.List.Used, Lists.List.Elements;
      var at := used / 8;
      Eights(at);
      ghost var held := list.Used();
      list.Store(at, Le(tail, 8));
      Stored(held, at, Le(tail, 8));
      NoTail();
      tail := 0;
      used := used + 1;
    }

    /** The writes as one call. */
    method Take(storage: Storage, ghost text: seq<Byte>, action: Action) returns (ok: bool)
      requires Is(storage, text) && !action.Fork?
      modifies Repr()
      ensures ok <==> storage.Holds(|text + action.Bytes(action.who)|)
      ensures ok ==> Is(storage, text + action.Bytes(action.who))
      ensures fresh(Repr() - old(Repr()))
    {
      match action {
        case WriteOne(_, byte) => ok := WriteByte(byte);
        case AppendMany(_, more) => ok := AppendText(more);
      }
    }

    method Fork(storage: Storage, ghost text: seq<Byte>) returns (copy: StudyStorage)
      requires Is(storage, text)
      ensures fresh(copy.Repr()) && copy.Is(storage, text)
    {
      copy := Clone();
    }

    /** The byte at an index; `None` is the abort past the end. */
    method ReadAt(index: nat) returns (byte: Option<Byte>)
      requires Valid()
      ensures byte == if index < used then Some(Text()[index]) else None
    {
      hide Reaches, Lists.Area, Le, LowByteOf;
      if index >= used { return None; }
      Eights(list.len);
      Eights(list.cap);
      if storage.PackedWords? {
        PackedByteAt(list.Used(), list.len, tail, used, index);
        var word := tail;
        if index / 8 < list.len {
          var element := list.ElementAt(index / 8);
          word := WordOf(element);
        }
        return Some(LowByteOf(word, index % 8));
      }
      return Some(list.ptr[index]);
    }

    method Size() returns (size: nat)
      requires Valid()
      ensures size == |Text()|
    {
      size := used;
    }

    /** A storage of its own with the same text. */
    method Clone() returns (copy: StudyStorage)
      requires Valid()
      ensures fresh(copy) && fresh(copy.Repr()) && copy.Valid() && copy.storage == storage && copy.Text() == Text()
    {
      hide Reaches;
      Within();
      copy := new StudyStorage(storage);
      PushAll(list, copy.list, storage);
      copy.tail, copy.used := tail, used;
    }

    /** The finished text and its closing NUL. */
    method Build() returns (text: array<Byte>)
      requires Valid()
      ensures fresh(text) && text[..] == Text() + [0]
    {
      hide Reaches, Le, Lists.Area;
      text := new Byte[used + 1];
      if storage.PackedWords? {
        ReadOut(text);
      } else if used > 0 {
        Eights(used);
        Eights(list.cap);
        Lists.MemCopy(text, 0, list.ptr, 0, used);
      }
      ghost var body := text[..used];
      text[used] := 0;
      assert text[..] == body + [0];
    }

    /** One read for every index. */
    method ReadOut(out: array<Byte>)
      requires Valid() && out !in Repr() && out.Length == used + 1
      modifies out
      ensures Text() == old(Text()) && out[..used] == Text()
    {
      ghost var text := Text();
      for i := 0 to used
        invariant Text() == text && out[..i] == text[..i]
      {
        var byte := ReadAt(i);
        out[i] := byte.value;
        assert out[..i + 1] == out[..i] + [byte.value];
      }
      assert text[..used] == text;
    }
  }

  lemma Extended(held: seq<Byte>, at: nat, bytes: seq<Byte>, byte: Byte, more: seq<Byte>, before: seq<Byte>)
    requires 8 * at <= |held| && held[..8 * at] + bytes == before && more == bytes + [byte]
    ensures held[..8 * at] + more == before + [byte]
  {
  }

  lemma Stored(held: seq<Byte>, at: nat, word: seq<Byte>)
    requires |word| == 8 && 8 * at + 8 <= |held|
    ensures var b := held[..8 * at] + word + held[8 * at + 8..];
      |b| == |held| && b[..8 * at + 8] == held[..8 * at] + word
  {
  }

  lemma NoTail()
    ensures Le(0, 0) == [] && Radix(0) == 1
  {
  }

  // ----- pools of storages ------------------------------------------------------------------------

  /** What happens to one of the storages there are, counted from the first. */
  datatype Action = WriteOne(who: nat, byte: Byte) | AppendMany(who: nat, text: seq<Byte>) | Fork(who: nat) {
    /** The bytes this writes to storage `i`. */
    function Bytes(i: nat): seq<Byte> {
      if who != i || Fork? then [] else if WriteOne? then [byte] else text
    }
  }

  function Acted(texts: seq<seq<Byte>>, action: Action): seq<seq<Byte>> {
    if action.who >= |texts| then texts
    else if action.Fork? then texts + [texts[action.who]]
    else texts[action.who := texts[action.who] + action.Bytes(action.who)]
  }

  function TextsAfter(texts: seq<seq<Byte>>, actions: seq<Action>): seq<seq<Byte>> {
    if actions == [] then texts else Acted(TextsAfter(texts, actions[..|actions| - 1]), actions[|actions| - 1])
  }

  /** Everything a run writes to storage `i`. */
  function Written(actions: seq<Action>, i: nat): seq<Byte> {
    if actions == [] then [] else Written(actions[..|actions| - 1], i) + actions[|actions| - 1].Bytes(i)
  }

  /** Each storage ends with its own text and what was written to it, whatever was
      written to the storages it was cloned from or to. */
  lemma {:induction false} OwnWritesOnly(texts: seq<seq<Byte>>, actions: seq<Action>, i: nat)
    requires i < |texts|
    ensures i < |TextsAfter(texts, actions)| && TextsAfter(texts, actions)[i] == texts[i] + Written(actions, i)
  {
    if actions == [] {
      assert texts[i] + [] == texts[i];
    } else {
      var front, last := actions[..|actions| - 1], actions[|actions| - 1];
      OwnWritesOnly(texts, front, i);
      assert texts[i] + (Written(front, i) + last.Bytes(i)) == texts[i] + Written(front, i) + last.Bytes(i);
      assert TextsAfter(texts, front)[i] + [] == TextsAfter(texts, front)[i];
    }
  }

  ghost predicate AllHold(storage: Storage, texts: seq<seq<Byte>>) {
    forall text :: text in texts ==> storage.Holds(|text|)
  }

  /** A text that cannot be held stays one. */
  lemma {:induction false} HoldsBefore(storage: Storage, texts: seq<seq<Byte>>, actions: seq<Action>, n: nat)
    requires n <= |actions| && AllHold(storage, TextsAfter(texts, actions))
    ensures AllHold(storage, TextsAfter(texts, actions[..n]))
    decreases |actions|
  {
    if n < |actions| {
      var front, last := actions[..|actions| - 1], actions[|actions| - 1];
      var before, after := TextsAfter(texts, front), TextsAfter(texts, actions);
      forall text | text in before ensures storage.Holds(|text|) {
        var i :| 0 <= i < |before| && before[i] == text;
        assert after[i] in after && |after[i]| >= |text|;
      }
      HoldsBefore(storage, texts, front, n);
      assert front[..n] == actions[..n];
    } else {
      assert actions[..n] == actions;
    }
  }

  /** Storages of one kind that share nothing, all inside `owned`, with their texts. */
  ghost predicate Pool(storage: Storage, pool: seq<StudyStorage>, owned: set<object>, texts: seq<seq<Byte>>)
    reads owned
  {
    && |texts| == |pool|
    && (forall i :: 0 <= i < |pool| ==> pool[i] in owned && pool[i].list in owned && pool[i].Repr() <= owned)
    && (forall i, j :: 0 <= i < j < |pool| ==> pool[i].Repr() !! pool[j].Repr())
    && (forall i :: 0 <= i < |pool| ==> pool[i].Is(storage, texts[i]))
  }

  method Write(
      storage: Storage, pool: seq<StudyStorage>, ghost owned: set<object>, ghost texts: seq<seq<Byte>>, action: Action)
    returns (ok: bool, ghost now: set<object>)
    requires Pool(storage, pool, owned, texts) && action.who < |pool| && !action.Fork?
    modifies owned
    ensures ok <==> storage.Holds(|texts[action.who] + action.Bytes(action.who)|)
    ensures ok ==> Pool(storage, pool, now, texts[action.who := texts[action.who] + action.Bytes(action.who)])
    ensures owned <= now && fresh(now - owned)
  {
    hide StudyStorage.Is, StudyStorage.Repr, StudyStorage.Valid, StudyStorage.Text, TextsAfter, Acted, Written;
    var who := action.who;
    ghost var after := texts[who] + action.Bytes(who);
    ok := pool[who].Take(storage, texts[who], action);
    now := owned + pool[who].Repr();
    assert forall j :: 0 <= j < |pool| && j != who ==> pool[j].Repr() == old(pool[j].Repr());
    assert forall j :: 0 <= j < |pool| && j != who ==> pool[j].Repr() !! pool[who].Repr();
    if ok {
      forall j | 0 <= j < |pool| ensures pool[j].Is(storage, texts[who := after][j]) {
        if j != who { assert pool[j].Is(storage, texts[j]); }
      }
    }
  }

  method ForkOne(
      storage: Storage, pool: seq<StudyStorage>, ghost owned: set<object>, ghost texts: seq<seq<Byte>>, who: nat)
    returns (out: seq<StudyStorage>, ghost now: set<object>)
    requires Pool(storage, pool, owned, texts) && who < |pool|
    ensures pool <= out && Pool(storage, out, now, texts + [texts[who]])
    ensures owned <= now && fresh(now - owned)
  {
    hide StudyStorage.Is, StudyStorage.Repr;
    var copy := pool[who].Fork(storage, texts[who]);
    out := pool + [copy];
    now := owned + copy.Repr();
    assert forall i :: 0 <= i < |pool| ==> pool[i].Repr() !! copy.Repr();
    forall i | 0 <= i < |out| ensures out[i].Is(storage, (texts + [texts[who]])[i]) {
      if i < |pool| { assert pool[i].Is(storage, texts[i]); }
    }
  }

  lemma OneMoreHeld(storage: Storage, texts: seq<seq<Byte>>, action: Action)
    requires AllHold(storage, texts) && action.who < |texts|
    ensures action.Fork? ==> AllHold(storage, Acted(texts, action))
    ensures AllHold(storage, Acted(texts, action)) ==> storage.Holds(|texts[action.who] + action.Bytes(action.who)|)
    ensures storage.Holds(|texts[action.who] + action.Bytes(action.who)|) ==> AllHold(storage, Acted(texts, action))
  {
    var who := action.who;
    var after := Acted(texts, action);
    assert texts[who] + [] == texts[who];
    if !action.Fork? { assert after[who] in after; } else { assert texts[who] in texts && texts[who] in after; }
  }

  lemma PoolHolds(storage: Storage, pool: seq<StudyStorage>, owned: set<object>, texts: seq<seq<Byte>>)
    requires Pool(storage, pool, owned, texts)
    ensures |pool| == |texts| && forall i :: 0 <= i < |pool| ==> pool[i].Valid() && pool[i].Text() == texts[i]
    ensures AllHold(storage, texts)
  {
    forall text | text in texts ensures storage.Holds(|text|) {
      var i :| 0 <= i < |texts| && texts[i] == text;
      assert pool[i].Is(storage, text);
    }
  }

  /** One action on the objects themselves. */
  method Act(
      storage: Storage, pool: seq<StudyStorage>, ghost owned: set<object>, ghost texts: seq<seq<Byte>>, action: Action)
    returns (ok: bool, out: seq<StudyStorage>, ghost now: set<object>)
    requires Pool(storage, pool, owned, texts)
    modifies owned
    ensures ok <==> AllHold(storage, Acted(texts, action))
    ensures ok ==> Pool(storage, out, now, Acted(texts, action))
    ensures pool <= out && owned <= now && fresh(now - owned)
  {
    hide Pool, AllHold, Storage.Holds;
    PoolHolds(storage, pool, owned, texts);
    ok, out, now := true, pool, owned;
    if action.who < |pool| {
      OneMoreHeld(storage, texts, action);
      if action.Fork? {
        out, now := ForkOne(storage, pool, owned, texts, action.who);
      } else {
        ok, now := Write(storage, pool, owned, texts, action);
      }
    }
  }

  /** Any run on any pool of storages that share nothing: the objects there at the start
      stay in place, all stay apart, and every storage holds its own text followed by
      what was written to it. */
  method Continue(storage: Storage, pool: seq<StudyStorage>, ghost owned: set<object>, ghost texts: seq<seq<Byte>>,
                  actions: seq<Action>)
    returns (ok: bool, out: seq<StudyStorage>, ghost now: set<object>)
    requires Pool(storage, pool, owned, texts)
    modifies owned
    ensures ok <==> AllHold(storage, TextsAfter(texts, actions))
    ensures pool <= out && owned <= now && fresh(now - owned)
    ensures ok ==> Pool(storage, out, now, TextsAfter(texts, actions))
    ensures ok ==> forall i :: 0 <= i < |pool| ==>
      out[i] == pool[i] && out[i].Valid() && out[i].Text() == old(pool[i].Text()) + Written(actions, i)
  {
    hide Pool, AllHold, StudyStorage.Valid, StudyStorage.Text;
    PoolHolds(storage, pool, owned, texts);
    ok, out, now := true, pool, owned;
    for i := 0 to |actions|
      invariant ok && pool <= out && owned <= now && fresh(now - owned)
      invariant Pool(storage, out, now, TextsAfter(texts, actions[..i]))
    {
      assert actions[..i + 1][..i] == actions[..i];
      ok, out, now := Act(storage, out, now, TextsAfter(texts, actions[..i]), actions[i]);
      if !ok {
        if AllHold(storage, TextsAfter(texts, actions)) { HoldsBefore(storage, texts, actions, i + 1); }
        return;
      }
    }
    assert actions[..|actions|] == actions;
    PoolHolds(storage, out, now, TextsAfter(texts, actions));
    OwnTexts(storage, out, now, texts, actions);
  }

  lemma OwnTexts(
      storage: Storage, out: seq<StudyStorage>, now: set<object>, texts: seq<seq<Byte>>, actions: seq<Action>)
    requires Pool(storage, out, now, TextsAfter(texts, actions))
    ensures |texts| <= |out|
    ensures forall i :: 0 <= i < |texts| ==> out[i].Valid() && out[i].Text() == texts[i] + Written(actions, i)
  {
    hide TextsAfter, Written;
    if texts != [] { OwnWritesOnly(texts, actions, |texts| - 1); }
    forall i | 0 <= i < |texts| ensures i < |out| && out[i].Valid() && out[i].Text() == texts[i] + Written(actions, i) {
      OwnWritesOnly(texts, actions, i);
      assert out[i].Is(storage, TextsAfter(texts, actions)[i]);
    }
  }

  // ----- the three side by side -----------------------------------------------------------------------

  /** What a caller can see of a storage. */
  datatype Seen = Seen(byte: Option<Byte>, size: nat, built: seq<Byte>)

  function SeenIn(text: seq<Byte>, index: nat): Seen {
    Seen(if index < |text| then Some(text[index]) else None, |text|, text + [0])
  }

  /** Runs a pool from one empty storage and looks at one of its storages; `None` is an
      abort on the way. */
  method Observe(storage: Storage, actions: seq<Action>, who: nat, index: nat) returns (seen: Option<Seen>)
    requires who < |TextsAfter([[]], actions)|
    ensures var texts := TextsAfter([[]], actions);
      seen == if AllHold(storage, texts) then Some(SeenIn(texts[who], index)) else None
  {
    hide AllHold, TextsAfter, Written, Pool, Reaches, Grown;
    hide StudyStorage.Valid, StudyStorage.Text, StudyStorage.Repr, StudyStorage.Is;
    var first := new StudyStorage(storage);
    Alone(storage, first);
    var ok, pool, owned := Continue(storage, [first], first.Repr(), [[]], actions);
    if !ok { return None; }
    PoolHolds(storage, pool, owned, TextsAfter([[]], actions));
    var byte := pool[who].ReadAt(index);
    var size := pool[who].Size();
    var built := pool[who].Build();
    return Some(Seen(byte, size, built[..]));
  }

  lemma Alone(storage: Storage, first: StudyStorage)
    requires first.Valid() && first.Text() == [] && first.storage == storage
    ensures Pool(storage, [first], first.Repr(), [[]])
  {
  }

  /** After every run whose texts stay below the smallest limit, the three storages show
      the same reads, sizes and finished texts in every member of the pool. */
  method Compare(actions: seq<Action>, who: nat, index: nat) returns (packed: Seen, buffered: Seen, narrow: Seen)
    requires who < |TextsAfter([[]], actions)| && AllHold(NarrowList, TextsAfter([[]], actions))
    ensures packed == buffered == narrow == SeenIn(TextsAfter([[]], actions)[who], index)
  {
    var one := Observe(PackedWords, actions, who, index);
    var two := Observe(ByteBuffer, actions, who, index);
    var three := Observe(NarrowList, actions, who, index);
    packed, buffered, narrow := one.value, two.value, three.value;
  }
}
