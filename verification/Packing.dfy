/** The packed byte builder: eight bytes to a word, a scalar tail, and the finalizer
    that turns them into a string. */
module Packing {
  import opened Types
  import opened Items
  import opened Bytes
  import Words

  type U64 = w: int | 0 <= w < 0x1_0000_0000_0000_0000

  const INT64_MAX: int := 0x7FFF_FFFF_FFFF_FFFF

  // ----- or as addition ---------------------------------------------------------------

  lemma {:induction false} RadixIsPow2(k: nat)
    ensures Radix(k) == Words.Pow2(8 * k)
  {
    if k > 0 {
      RadixIsPow2(k - 1);
      Words.Pow2Add(8 * (k - 1), 8);
      assert Words.Pow2(8) == 256 by { Words.Pow2Values(); }
    }
  }

  lemma {:induction false} OrZero(c: nat, n: nat)
    requires c < Words.Pow2(n)
    ensures Words.Bits(Words.Or, 0, c, n) == c
    decreases n
  {
    if n > 0 { OrZero(c / 2, n - 1); }
  }

  /** Or-ing in bits above everything that is set adds them. */
  lemma {:induction false} OrDisjoint(a: nat, c: nat, k: nat, n: nat)
    requires k <= n && a < Words.Pow2(k) && c * Words.Pow2(k) < Words.Pow2(n)
    ensures Words.Bits(Words.Or, a, c * Words.Pow2(k), n) == a + c * Words.Pow2(k)
    decreases n
  {
    if k == 0 {
      OrZero(c, n);
    } else {
      var half := c * Words.Pow2(k - 1);
      assert c * Words.Pow2(k) == 2 * half;
      OrDisjoint(a / 2, c, k - 1, n - 1);
    }
  }

  /** `tail | byte << 8k`, as the machine forms it. */
  function WithByte(tail: U64, b: Byte, k: nat): int
  {
    Words.Bits(Words.Or, tail, b * Words.Pow2(8 * k), 64)
  }

  lemma WithByteAdds(tail: U64, b: Byte, k: nat)
    requires k < 8 && tail < Radix(k)
    ensures WithByte(tail, b, k) == tail + b * Radix(k)
    ensures 0 <= WithByte(tail, b, k) < Radix(k + 1) <= 0x1_0000_0000_0000_0000
  {
    RadixIsPow2(k);
    RadixIsPow2(k + 1);
    Words.Pow2Monotone(8 * (k + 1), 64);
    Words.Pow2Values();
    assert Radix(k + 1) == 0x100 * Radix(k);
    hide Radix, Words.Pow2, Words.Bits;
    ByteBelow(tail, b, Words.Pow2(8 * k));
    OrDisjoint(tail, b, 8 * k, 64);
  }

  lemma ByteBelow(tail: nat, b: Byte, r: nat)
    requires tail < r
    ensures 0 <= b * r <= tail + b * r < 0x100 * r
  {
  }

  /** The guard on the tail: no bit above the bytes it holds. */
  lemma TailGuard(tail: U64, k: nat)
    ensures tail / Words.Pow2(8 * k) == 0 <==> tail < Radix(k)
  {
    RadixIsPow2(k);
    var p := Words.Pow2(8 * k);
    assert tail == tail / p * p + tail % p;
    if tail < p { Words.ModUnique(tail, p, 0, tail); }
  }

  // ----- packed bytes --------------------------------------------------------------------

  /** `used` bytes: whole words, then the low bytes of a tail. */
  datatype Packed = Packed(words: seq<U64>, tail: U64, used: nat)

  const NOTHING: Packed := Packed([], 0, 0)

  ghost predicate Valid(p: Packed) {
    |p.words| == p.used / 8 && p.tail < Radix(p.used % 8)
  }

  function WordBytes(words: seq<U64>): (b: seq<Byte>)
    ensures |b| == 8 * |words|
  {
    if words == [] then [] else WordBytes(words[..|words| - 1]) + Le(words[|words| - 1], 8)
  }

  function Contents(p: Packed): (b: seq<Byte>)
    ensures |p.words| == p.used / 8 ==> |b| == p.used
  {
    WordBytes(p.words) + Le(p.tail, p.used % 8)
  }

  function AppendByte(p: Packed, b: Byte): Packed
    requires p.tail < Radix(p.used % 8)
  {
    var k := p.used % 8;
    WithByteAdds(p.tail, b, k);
    var t: U64 := WithByte(p.tail, b, k);
    if k == 7 then Packed(p.words + [t], 0, p.used + 1) else Packed(p.words, t, p.used + 1)
  }

  lemma {:induction false} LeSnoc(n: nat, b: Byte, k: nat)
    requires n < Radix(k)
    ensures Le(n + b * Radix(k), k + 1) == Le(n, k) + [b]
    decreases k
  {
    if k == 0 {
      assert Le(b, 1) == [b] + Le(b / 0x100, 0);
    } else {
      LeSnoc(n / 0x100, b, k - 1);
      assert b * Radix(k) == 0x100 * (b * Radix(k - 1));
      var m := n + b * Radix(k);
      assert m / 0x100 == n / 0x100 + b * Radix(k - 1) && m % 0x100 == n % 0x100;
    }
  }

  /** One more byte, and every earlier word as it was. */
  lemma AppendByteContents(p: Packed, b: Byte)
    requires Valid(p)
    ensures var q := AppendByte(p, b);
      && Valid(q) && Contents(q) == Contents(p) + [b] && p.words <= q.words && q.used == p.used + 1
  {
    hide WithByte, WordBytes, Le, Radix;
    var k := p.used % 8;
    WithByteAdds(p.tail, b, k);
    LeSnoc(p.tail, b, k);
    var t := WithByte(p.tail, b, k);
    WordAdded(p.words, t);
    assert WordBytes(p.words) + (Le(p.tail, k) + [b]) == Contents(p) + [b];
  }

  lemma WordAdded(words: seq<U64>, t: U64)
    ensures WordBytes(words + [t]) + Le(0, 0) == WordBytes(words) + Le(t, 8) && Radix(0) == 1
  {
    hide Le;
    assert (words + [t])[..|words|] == words;
  }

  function Append(p: Packed, text: seq<Byte>): (q: Packed)
    requires Valid(p)
    ensures Valid(q)
  {
    if text == [] then p
    else
      var q := Append(p, text[..|text| - 1]);
      AppendByteContents(q, text[|text| - 1]);
      AppendByte(q, text[|text| - 1])
  }

  /** An append adds exactly its text and leaves earlier words untouched. */
  lemma {:induction false} AppendContents(p: Packed, text: seq<Byte>)
    requires Valid(p)
    ensures var q := Append(p, text);
      q.used == p.used + |text| && Contents(q) == Contents(p) + text && p.words <= q.words
  {
    hide AppendByte, Contents, Valid;
    if text != [] {
      var front, last := text[..|text| - 1], text[|text| - 1];
      AppendContents(p, front);
      AppendByteContents(Append(p, front), last);
      assert text == front + [last];
    } else {
      assert Contents(p) + text == Contents(p);
    }
  }

  /** Any sequence of appends. */
  function AppendAll(p: Packed, pieces: seq<seq<Byte>>): (q: Packed)
    requires Valid(p)
    ensures Valid(q)
  {
    if pieces == [] then p else Append(AppendAll(p, pieces[..|pieces| - 1]), pieces[|pieces| - 1])
  }

  /** However the text was cut into appends, the builder holds the concatenation. */
  lemma {:induction false} AppendsConcatenate(pieces: seq<seq<Byte>>)
    ensures Contents(AppendAll(NOTHING, pieces)) == Flat(pieces)
  {
    if pieces != [] {
      AppendsConcatenate(pieces[..|pieces| - 1]);
      AppendContents(AppendAll(NOTHING, pieces[..|pieces| - 1]), pieces[|pieces| - 1]);
    }
  }

  /** The representation is canonical: valid builders with the same bytes are equal
      word for word, tail included. */
  lemma {:induction false} SameBytesSameWords(p: Packed, q: Packed)
    requires Valid(p) && Valid(q) && Contents(p) == Contents(q)
    ensures p == q
  {
    assert |Contents(p)| == p.used && |Contents(q)| == q.used;
    var n := 8 * |p.words|;
    assert WordBytes(p.words) == Contents(p)[..n] == Contents(q)[..n] == WordBytes(q.words);
    assert Le(p.tail, p.used % 8) == Contents(p)[n..] == Contents(q)[n..] == Le(q.tail, q.used % 8);
    LeRoundTrip(p.tail, p.used % 8);
    LeRoundTrip(q.tail, q.used % 8);
    WordsUnique(p.words, q.words);
  }

  lemma LastWord(a: seq<U64>)
    requires a != []
    ensures var n := |a| - 1;
      WordBytes(a)[..8 * n] == WordBytes(a[..n]) && FromLe(WordBytes(a)[8 * n..]) == a[n]
  {
    var n := |a| - 1;
    SplitAt(WordBytes(a[..n]), Le(a[n], 8));
    RadixValues();
    hide Radix, Le, FromLe;
    LeRoundTrip(a[n], 8);
  }

  lemma {:induction false} WordsUnique(a: seq<U64>, b: seq<U64>)
    requires |a| == |b| && WordBytes(a) == WordBytes(b)
    ensures a == b
  {
    hide WordBytes, FromLe;
    if a != [] {
      var n := |a| - 1;
      LastWord(a);
      LastWord(b);
      WordsUnique(a[..n], b[..n]);
      assert a == a[..n] + [a[n]] && b == b[..n] + [b[n]];
    }
  }

  // ----- the runtime calls ------------------------------------------------------------------

  /** What `sl_rt_builder_pack_words` refuses: bad counts, a missing buffer, or a tail
      with bits it cannot hold. */
  predicate PackRefused(hasWords: bool, count: int, tail: U64, used: int, hasText: bool, length: int) {
    || used < 0 || length < 0 || used > INT64_MAX - length
    || count != (used + length) / 8 || (count != 0 && !hasWords) || (length != 0 && !hasText)
    || tail / Words.Pow2(8 * (used % 8)) != 0
  }

  /** The calls that are accepted: the new length is an `i64`, the count is the number of
      complete words, what is used is there, and the tail holds just the bytes it should. */
  ghost predicate PackAccepted(words: array?<U64>, count: int, tail: U64, used: int, text: array?<Byte>, length: int) {
    && 0 <= used && 0 <= length && used + length <= 0x7FFF_FFFF_FFFF_FFFF
    && 8 * count <= used + length < 8 * count + 8
    && (words == null ==> count == 0) && (text == null ==> length == 0)
    && tail < Radix(used % 8)
  }

  ghost predicate BuildAccepted(words: array?<U64>, count: int, tail: U64, used: int) {
    && 0 <= used && 8 * count <= used < 8 * count + 8 && (words == null ==> count == 0)
    && tail < Radix(used % 8)
  }

  /** What a pointer that may be null points at. */
  function Buffer<T>(a: array?<T>): (s: seq<T>)
    reads a
  {
    if a == null then [] else a[..]
  }

  /** The next byte goes into the tail, or completes the word it belongs to. */
  lemma PackStep(p: Packed, added: seq<Byte>, i: nat, words: seq<U64>, rest: U64, position: nat)
    requires Valid(p) && i < |added| && position / 8 <= |words| && (position % 8 == 7 ==> position / 8 < |words|)
    requires Packed(words[..position / 8], rest, position) == Append(p, added[..i])
    ensures rest < Radix(position % 8)
    ensures 0 <= WithByte(rest, added[i], position % 8) < 0x1_0000_0000_0000_0000
    ensures var t: U64 := WithByte(rest, added[i], position % 8);
      if position % 8 == 7 then
        Packed(words[position / 8 := t][..(position + 1) / 8], 0, position + 1) == Append(p, added[..i + 1])
      else Packed(words[..(position + 1) / 8], t, position + 1) == Append(p, added[..i + 1])
  {
    assert added[..i + 1][..i] == added[..i];
    var q := Append(p, added[..i]);
    assert Valid(q);
    WithByteAdds(rest, added[i], position % 8);
    assert Append(p, added[..i + 1]) == AppendByte(q, added[i]);
    hide Append, WithByte, Radix;
    var t: U64 := WithByte(rest, added[i], position % 8);
    if position % 8 == 7 {
      assert words[position / 8 := t][..(position + 1) / 8] == words[..position / 8] + [t];
    }
  }

  method PackWords(words: array?<U64>, count: int, tail: U64, used: int, text: array?<Byte>, length: int)
    returns (r: Option<U64>)
    requires words != null ==> words.Length >= count
    requires text != null ==> text.Length >= length
    modifies words
    ensures r.Some? <==> PackAccepted(words, count, tail, used, text, length)
    ensures r.None? ==> Buffer(words) == old(Buffer(words))
    ensures r.Some? ==>
      var before, added := Packed(old(Buffer(words))[..used / 8], tail, used), old(Buffer(text))[..length];
      Valid(before) && Packed(Buffer(words)[..count], r.value, used + length) == Append(before, added)
    ensures r.Some? ==> Buffer(words)[count..] == old(Buffer(words))[count..]
  {
    TailGuard(tail, used % 8);
    if PackRefused(words != null, count, tail, used, text != null, length) {
      return None;
    }
    var packed := PackLoop(words, count, tail, used, text, length);
    return Some(packed);
  }

  method PackLoop(
      words: array?<U64>, count: nat, tail: U64, used: nat, text: array?<Byte>, length: nat)
    returns (rest: U64)
    requires count == (used + length) / 8 <= |Buffer(words)| && length <= |Buffer(text)| && tail < Radix(used % 8)
    modifies words
    ensures Packed(Buffer(words)[..count], rest, used + length)
         == Append(Packed(old(Buffer(words))[..used / 8], tail, used), old(Buffer(text))[..length])
    ensures Buffer(words)[count..] == old(Buffer(words))[count..]
  {
    hide *;
    ghost var was, all := Buffer(words), Buffer(text);
    ghost var before := Packed(was[..used / 8], tail, used);
    ghost var added := all[..length];
    rest := tail;
    var position := used;
    Starts(before);
    for i := 0 to length
      invariant position == used + i && |Buffer(words)| == |was| && Buffer(text) == all
      invariant Packed(Buffer(words)[..position / 8], rest, position) == Append(before, added[..i])
      invariant Buffer(words)[count..] == was[count..]
    {
      PackStep(before, added, i, Buffer(words), rest, position);
      var byte := At(text, i);
      rest := WithByte(rest, byte, position % 8);
      if position % 8 == 7 {
        Above(Buffer(words), position / 8, rest, count);
        Put(words, position / 8, rest);
        rest := 0;
      }
      position := position + 1;
    }
    assert added[..length] == added;
  }

  lemma Starts(p: Packed)
    requires |p.words| == p.used / 8 && p.tail < Radix(p.used % 8)
    ensures Valid(p) && Append(p, []) == p
  {
  }

  lemma Above<T>(s: seq<T>, at: nat, v: T, count: nat)
    requires at < count <= |s|
    ensures s[at := v][count..] == s[count..]
  {
  }

  method At<T>(a: array?<T>, i: nat) returns (v: T)
    requires i < |Buffer(a)|
    ensures v == Buffer(a)[i]
  {
    v := a[i];
  }

  method Put<T>(a: array?<T>, i: nat, v: T)
    requires i < |Buffer(a)|
    modifies a
    ensures Buffer(a) == old(Buffer(a))[i := v]
  {
    a[i] := v;
  }

  /** What `sl_rt_string_from_words` refuses. */
  predicate BuildRefused(hasWords: bool, count: int, tail: U64, used: int) {
    || used < 0 || count != used / 8 || (count != 0 && !hasWords)
    || tail / Words.Pow2(8 * (used % 8)) != 0
  }

  /** The string: its bytes with the closing NUL, its length and its capacity. */
  datatype Built = Built(len: nat, cap: nat, bytes: array<Byte>)

  method StringFromWords(words: array?<U64>, count: int, tail: U64, used: int) returns (r: Option<Built>)
    requires words != null ==> words.Length >= count
    ensures r.Some? <==> BuildAccepted(words, count, tail, used)
    ensures r.Some? ==>
      && fresh(r.value.bytes) && r.value.len == used && r.value.cap == used + 1
      && var p := Packed(Buffer(words)[..count], tail, used);
        Valid(p) && r.value.bytes[..] == Contents(p) + [0]
  {
    TailGuard(tail, used % 8);
    if BuildRefused(words != null, count, tail, used) {
      return None;
    }
    var bytes := BuildBytes(words, count, tail, used);
    return Some(Built(used, used + 1, bytes));
  }

  method BuildBytes(words: array?<U64>, count: nat, tail: U64, used: nat) returns (bytes: array<Byte>)
    requires count == used / 8 && count <= |Buffer(words)|
    ensures fresh(bytes) && bytes[..] == Contents(Packed(Buffer(words)[..count], tail, used)) + [0]
  {
    hide Le, WordBytes, LowByteOf, Radix, Buffer;
    bytes := new Byte[used + 1];
    WordsOut(bytes, words, count);
    TailOut(bytes, 8 * count, tail, used % 8);
    ghost var body := bytes[..used];
    Joined(bytes[..], 8 * count, used);
    bytes[used] := 0;
    assert bytes[..] == body + [0];
  }

  lemma Joined<T>(s: seq<T>, i: nat, j: nat)
    requires i <= j <= |s|
    ensures s[..j] == s[..i] + s[i..j]
  {
  }

  /** The complete words, a word at a time. */
  method WordsOut(out: array<Byte>, words: array?<U64>, count: nat)
    requires count <= |Buffer(words)| && 8 * count <= out.Length
    modifies out
    ensures out[..8 * count] == WordBytes(Buffer(words)[..count])
    ensures Buffer(words) == old(Buffer(words))
  {
    hide Le, WordBytes, LowByteOf;
    NoWords();
    ghost var ws := Buffer(words);
    for index := 0 to count
      invariant Buffer(words) == ws
      invariant out[..8 * index] == WordBytes(ws[..index])
    {
      ghost var before := out[..8 * index];
      WordOut(out, 8 * index, words[index]);
      OneMoreWord(ws, index);
      assert out[..8 * index + 8] == before + out[8 * index..8 * index + 8];
    }
  }

  lemma NoWords()
    ensures WordBytes([]) == []
  {
  }

  lemma OneMoreWord(words: seq<U64>, index: nat)
    requires index < |words|
    ensures WordBytes(words[..index + 1]) == WordBytes(words[..index]) + Le(words[index], 8)
  {
    assert words[..index + 1][..index] == words[..index];
  }

  /** The low bytes of the tail. */
  method TailOut(out: array<Byte>, at: nat, tail: U64, n: nat)
    requires at + n <= out.Length
    modifies out
    ensures out[..at] == old(out[..at]) && out[at..at + n] == Le(tail, n)
  {
    hide Le, LowByteOf;
    for index := 0 to n
      invariant out[..at] == old(out[..at])
      invariant forall i :: 0 <= i < index ==> out[at + i] == Le(tail, n)[i]
    {
      TailByte(tail, n, index);
      out[at + index] := LowByteOf(tail, index);
    }
  }

  lemma TailByte(tail: U64, n: nat, i: nat)
    requires i < n
    ensures Le(tail, n)[i] == LowByteOf(tail, i)
  {
    LeAt(tail, n, i);
  }

  /** `(unsigned char)(word >> 8 * index)` */
  function LowByteOf(w: U64, index: nat): Byte {
    w / Words.Pow2(8 * index) % 0x100
  }

  lemma {:induction false} LeAt(n: nat, width: nat, index: nat)
    requires index < width
    ensures Le(n, width)[index] == n / Words.Pow2(8 * index) % 0x100
    decreases width
  {
    if index > 0 {
      LeAt(n / 0x100, width - 1, index - 1);
      RadixIsPow2(index - 1);
      RadixIsPow2(index);
      NestedDivision(n, 0x100, Radix(index - 1));
    }
  }

  lemma NestedDivision(n: nat, a: nat, b: nat)
    requires a > 0 && b > 0
    ensures n / a / b == n / (a * b)
  {
    var q, r := n / a, n % a;
    var q2, r2 := q / b, q % b;
    assert n == q * a + r && q == q2 * b + r2;
    assert q * a == q2 * (a * b) + r2 * a;
    assert r2 * a <= (b - 1) * a;
    assert (b - 1) * a == a * b - a;
    Words.ModUnique(n, a * b, q2, r2 * a + r);
  }

  /** Eight explicit byte stores, lowest first. */
  method WordOut(out: array<Byte>, at: nat, word: U64)
    requires at + 8 <= out.Length
    modifies out
    ensures out[at..at + 8] == Le(word, 8)
    ensures out[..at] == old(out[..at]) && out[at + 8..] == old(out[at + 8..])
  {
    out[at] := LowByteOf(word, 0);
    out[at + 1] := LowByteOf(word, 1);
    out[at + 2] := LowByteOf(word, 2);
    out[at + 3] := LowByteOf(word, 3);
    out[at + 4] := LowByteOf(word, 4);
    out[at + 5] := LowByteOf(word, 5);
    out[at + 6] := LowByteOf(word, 6);
    out[at + 7] := LowByteOf(word, 7);
    hide LowByteOf, Le;
    forall i | 0 <= i < 8 ensures out[at..at + 8][i] == Le(word, 8)[i] {
      TailByte(word, 8, i);
    }
  }

  // ----- a whole builder ----------------------------------------------------------------------

  /** What a builder does with its pieces: each time zero words up to the new count and one
      `PackWords`, at the end one `StringFromWords`. It is refused exactly when the length
      does not fit. */
  method BuildString(pieces: seq<seq<Byte>>) returns (r: Option<Built>)
    ensures r.Some? <==> |Flat(pieces)| <= INT64_MAX
    ensures r.Some? ==> fresh(r.value.bytes) && r.value.bytes[..] == Flat(pieces) + [0] && r.value.len == |Flat(pieces)|
  {
    hide Append, Contents, Valid, PackRefused;
    var words, tail: U64, used := new U64[0], 0, 0;
    Started();
    assert words[..] == [] && pieces[..0] == [];
    for i := 0 to |pieces|
      invariant fresh(words) && used == |Flat(pieces[..i])| <= INT64_MAX
      invariant Valid(Packed(words[..], tail, used)) && Contents(Packed(words[..], tail, used)) == Flat(pieces[..i])
    {
      assert pieces[..i + 1][..i] == pieces[..i];
      ghost var before := Packed(words[..], tail, used);
      AppendContents(before, pieces[i]);
      var added := WriteStr(words, tail, used, pieces[i]);
      if added.None? {
        FlatGrows(pieces, i + 1, |pieces|);
        assert pieces[..|pieces|] == pieces;
        return None;
      }
      words, tail, used := added.value.words, added.value.tail, used + |pieces[i]|;
    }
    assert pieces[..|pieces|] == pieces;
    Metadata(Packed(words[..], tail, used));
    r := StringFromWords(words, words.Length, tail, used);
    assert words[..words.Length] == words[..];
  }

  /** The words with room for the text, and the new tail. */
  datatype Sized = Sized(words: array<U64>, tail: U64)

  /** Zero words up to the new count, then one call that packs the whole text. */
  method WriteStr(words: array<U64>, tail: U64, used: nat, text: seq<Byte>) returns (r: Option<Sized>)
    requires Valid(Packed(words[..], tail, used)) && used <= INT64_MAX
    ensures r.Some? <==> used + |text| <= INT64_MAX
    ensures r.Some? ==> r.value.words == words || fresh(r.value.words)
    ensures r.Some? ==>
      Packed(r.value.words[..], r.value.tail, used + |text|) == Append(Packed(words[..], tail, used), text)
  {
    hide Append, Contents, Radix;
    Metadata(Packed(words[..], tail, used));
    if used > INT64_MAX - |text| { return None; }
    if text == [] {
      Starts(Packed(words[..], tail, used));
      return Some(Sized(words, tail));
    }
    var complete := (used + |text|) / 8;
    ghost var before := words[..];
    var grown := new U64[complete](i requires 0 <= i < complete reads words =>
      if i < words.Length then words[i] else 0);
    var piece := new Byte[|text|](i requires 0 <= i < |text| => text[i]);
    assert piece[..|text|] == text;
    assert grown[..used / 8] == before;
    var packed := PackWords(grown, complete, tail, used, piece, |text|);
    assert grown[..complete] == grown[..];
    return Some(Sized(grown, packed.value));
  }

  /** Valid metadata passes the runtime's checks. */
  lemma Metadata(p: Packed)
    requires Valid(p)
    ensures |p.words| == p.used / 8 && p.tail < Radix(p.used % 8)
  {
  }

  lemma Started()
    ensures Valid(NOTHING) && Contents(NOTHING) == []
  {
  }

  lemma {:induction false} FlatGrows(pieces: seq<seq<Byte>>, i: nat, n: nat)
    requires i <= n <= |pieces|
    ensures |Flat(pieces[..i])| <= |Flat(pieces[..n])|
    decreases n
  {
    if i < n {
      FlatGrows(pieces, i, n - 1);
      assert pieces[..n][..n - 1] == pieces[..n - 1];
    }
  }
}
