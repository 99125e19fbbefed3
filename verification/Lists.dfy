/** The runtime's growable list: a byte buffer of equal elements that doubles when it
    is full, closes gaps with overlapping moves, and stands for a sequence. */
module Lists {
  import opened Types
  import opened Items
  import opened Bytes
  import Words

  const UINT64_MAX: int := 0xFFFF_FFFF_FFFF_FFFF

  // ----- moving bytes -------------------------------------------------------------------

  /** A forward copy between two buffers. */
  method MemCopy(destination: array<Byte>, at: nat, source: array<Byte>, from: nat, count: nat)
    requires destination != source && at + count <= destination.Length && from + count <= source.Length
    modifies destination
    ensures destination[..] == Spliced(old(destination[..]), at, source[from..from + count])
  {
    ghost var was := destination[..];
    for i := 0 to count
      invariant destination[..] == Spliced(was, at, source[from..from + i])
    {
      SplicedNext(was, at, source[from..from + count], i);
      SlicePrefix(source[from..from + count], [], 0, i);
      assert source[from..from + count][..i] == source[from..from + i];
      assert source[from..from + count][..i + 1] == source[from..from + i + 1];
      destination[at + i] := source[from + i];
    }
  }

  /** A buffer with one stretch replaced. */
  function Spliced(b: seq<Byte>, at: nat, piece: seq<Byte>): (r: seq<Byte>)
    requires at + |piece| <= |b|
    ensures |r| == |b|
  {
    b[..at] + piece + b[at + |piece|..]
  }

  lemma SplicedWithin(b: seq<Byte>, at: nat, piece: seq<Byte>, n: nat)
    requires at + |piece| <= n <= |b|
    ensures Spliced(b, at, piece)[..n] == b[..n][..at] + piece + b[..n][at + |piece|..]
  {
  }

  lemma SplicedNext(b: seq<Byte>, at: nat, piece: seq<Byte>, i: nat)
    requires at + |piece| <= |b| && i < |piece|
    ensures Spliced(b, at, piece[..i])[at + i := piece[i]] == Spliced(b, at, piece[..i + 1])
  {
  }

  method Fill(destination: array<Byte>, at: nat, bytes: seq<Byte>)
    requires at + |bytes| <= destination.Length
    modifies destination
    ensures destination[..] == Spliced(old(destination[..]), at, bytes)
  {
    ghost var was := destination[..];
    for i := 0 to |bytes|
      invariant destination[..] == Spliced(was, at, bytes[..i])
    {
      SplicedNext(was, at, bytes, i);
      destination[at + i] := bytes[i];
    }
    assert bytes[..|bytes|] == bytes;
  }

  /** A copy inside one buffer, right for every overlap: forwards when the gap is
      closed downwards, backwards otherwise. */
  method MemMove(a: array<Byte>, at: nat, from: nat, count: nat)
    requires at + count <= a.Length && from + count <= a.Length
    modifies a
    ensures a[..] == Spliced(old(a[..]), at, old(a[from..from + count]))
  {
    if at < from {
      MoveForwards(a, at, from, count);
    } else {
      MoveBackwards(a, at, from, count);
    }
  }

  method MoveForwards(a: array<Byte>, at: nat, from: nat, count: nat)
    requires at < from && from + count <= a.Length
    modifies a
    ensures a[..] == Spliced(old(a[..]), at, old(a[from..from + count]))
  {
    ghost var was := a[..];
    for i := 0 to count
      invariant a[..] == Up(was, at, from, i)
    {
      MoveUp(was, at, from, i);
      ghost var now := a[..];
      assert a[from + i] == now[from + i];
      a[at + i] := a[from + i];
    }
  }

  method MoveBackwards(a: array<Byte>, at: nat, from: nat, count: nat)
    requires from <= at && at + count <= a.Length
    modifies a
    ensures a[..] == Spliced(old(a[..]), at, old(a[from..from + count]))
  {
    ghost var was := a[..];
    assert was == Down(was, at, from, count, count);
    for i := count downto 0
      invariant a[..] == Down(was, at, from, i, count)
    {
      MoveDown(was, at, from, i, count);
      ghost var now := a[..];
      assert a[from + i] == now[from + i];
      a[at + i] := a[from + i];
    }
  }

  /** The first `i` bytes have moved. */
  function Up(was: seq<Byte>, at: nat, from: nat, i: nat): (r: seq<Byte>)
    requires at < from && from + i <= |was|
    ensures |r| == |was|
  {
    was[..at] + was[from..from + i] + was[at + i..]
  }

  lemma MoveUp(was: seq<Byte>, at: nat, from: nat, i: nat)
    requires at < from && from + i < |was|
    ensures Up(was, at, from, i)[from + i] == was[from + i]
    ensures Up(was, at, from, i)[at + i := was[from + i]] == Up(was, at, from, i + 1)
  {
  }

  /** The bytes from `i` on have moved. */
  function Down(was: seq<Byte>, at: nat, from: nat, i: nat, count: nat): (r: seq<Byte>)
    requires from <= at && i <= count && at + count <= |was|
    ensures |r| == |was|
  {
    was[..at + i] + was[from + i..from + count] + was[at + count..]
  }

  lemma MoveDown(was: seq<Byte>, at: nat, from: nat, i: nat, count: nat)
    requires from <= at && i < count && at + count <= |was|
    ensures Down(was, at, from, i + 1, count)[from + i] == was[from + i]
    ensures Down(was, at, from, i + 1, count)[at + i := was[from + i]] == Down(was, at, from, i, count)
  {
  }

  // ----- elements in bytes ----------------------------------------------------------------

  /** `n * size`, by repeated addition. */
  function Area(n: nat, size: nat): nat {
    if n == 0 then 0 else Area(n - 1, size) + size
  }

  lemma {:induction false} AreaIsProduct(n: nat, size: nat)
    ensures Area(n, size) == n * size
  {
    if n > 0 {
      AreaIsProduct(n - 1, size);
      assert n * size == (n - 1) * size + size;
    }
  }

  lemma {:induction false} AreaAdds(m: nat, n: nat, size: nat)
    ensures Area(m + n, size) == Area(m, size) + Area(n, size)
    decreases n
  {
    if n > 0 {
      assert Area(m + n, size) == Area(m + n - 1, size) + size;
      AreaAdds(m, n - 1, size);
    }
  }

  lemma Extent(i: nat, n: nat, size: nat)
    requires i < n
    ensures 0 <= Area(i, size) <= Area(i, size) + size <= Area(n, size) && Area(i + 1, size) == Area(i, size) + size
  {
    AreaAdds(i + 1, n - i - 1, size);
  }

  /** The buffer cut into `n` elements. */
  function Rows(b: seq<Byte>, size: nat, n: nat): (rows: seq<seq<Byte>>)
    requires |b| == Area(n, size)
    ensures |rows| == n
  {
    seq(n, i requires 0 <= i < n => (Extent(i, n, size); b[Area(i, size)..Area(i, size) + size]))
  }

  lemma RowAt(b: seq<Byte>, size: nat, n: nat, i: nat)
    requires |b| == Area(n, size) && i < n
    ensures Area(i, size) + size <= |b| && Rows(b, size, n)[i] == b[Area(i, size)..Area(i, size) + size]
  {
    Extent(i, n, size);
  }

  lemma Times(n: nat, size: nat)
    ensures Area(n + 1, size) == Area(n, size) + size
  {
  }

  lemma RowsPush(b: seq<Byte>, size: nat, n: nat, e: seq<Byte>)
    requires |b| == Area(n, size) && |e| == size
    ensures |b + e| == Area(n + 1, size) && Rows(b + e, size, n + 1) == Rows(b, size, n) + [e]
  {
    Times(n, size);
    forall i | 0 <= i < n + 1 ensures Rows(b + e, size, n + 1)[i] == (Rows(b, size, n) + [e])[i] {
      RowAt(b + e, size, n + 1, i);
      if i < n {
        RowAt(b, size, n, i);
        SlicePrefix(b, e, Area(i, size), Area(i, size) + size);
      }
    }
  }

  lemma RowsPop(b: seq<Byte>, size: nat, n: nat)
    requires n > 0 && |b| == Area(n, size)
    ensures Area(n - 1, size) <= |b|
    ensures Rows(b[..Area(n - 1, size)], size, n - 1) == Rows(b, size, n)[..n - 1]
    ensures b[Area(n - 1, size)..] == Rows(b, size, n)[n - 1]
  {
    Times(n - 1, size);
    var front, last := b[..Area(n - 1, size)], b[Area(n - 1, size)..];
    assert b == front + last;
    RowsPush(front, size, n - 1, last);
  }

  lemma RowsReplace(b: seq<Byte>, size: nat, n: nat, i: nat, e: seq<Byte>)
    requires |b| == Area(n, size) && i < n && |e| == size
    ensures Area(i, size) + size <= |b|
    ensures var c := b[..Area(i, size)] + e + b[Area(i, size) + size..];
      |c| == |b| && Rows(c, size, n) == Rows(b, size, n)[i := e]
  {
    Extent(i, n, size);
    var c := b[..Area(i, size)] + e + b[Area(i, size) + size..];
    forall j | 0 <= j < n ensures Rows(c, size, n)[j] == Rows(b, size, n)[i := e][j] {
      RowAt(c, size, n, j);
      RowAt(b, size, n, j);
      if j < i { Extent(j, i, size); } else if j > i { After(i, j, size); }
    }
  }

  lemma After(i: nat, j: nat, size: nat)
    requires i < j
    ensures Area(i, size) + size <= Area(j, size)
  {
    Extent(i, j, size);
  }

  lemma RowRemoved(b: seq<Byte>, size: nat, n: nat, i: nat, j: nat)
    requires |b| == Area(n, size) && i < n && j < n - 1 && Area(i, size) + size <= |b|
    requires |b[..Area(i, size)] + b[Area(i, size) + size..]| == Area(n - 1, size)
    ensures Rows(b[..Area(i, size)] + b[Area(i, size) + size..], size, n - 1)[j]
         == if j < i then Rows(b, size, n)[j] else Rows(b, size, n)[j + 1]
  {
    hide Rows;
    RowAt(b[..Area(i, size)] + b[Area(i, size) + size..], size, n - 1, j);
    if j < i {
      RowAt(b, size, n, j);
      Extent(j, i, size);
      SlicePrefix(b[..Area(i, size)], b[Area(i, size) + size..], Area(j, size), Area(j, size) + size);
    } else {
      RowAt(b, size, n, j + 1);
      Times(j, size);
      if j > i { After(i, j, size); }
      SliceSuffix(b[..Area(i, size)], b, Area(i, size) + size, Area(j, size), Area(j, size) + size);
    }
  }

  lemma RowsRemove(b: seq<Byte>, size: nat, n: nat, i: nat)
    requires |b| == Area(n, size) && i < n
    ensures Area(i, size) + size <= |b|
    ensures var c := b[..Area(i, size)] + b[Area(i, size) + size..];
      |c| == Area(n - 1, size) && Rows(c, size, n - 1) == Rows(b, size, n)[..i] + Rows(b, size, n)[i + 1..]
  {
    hide Rows;
    Extent(i, n, size);
    Times(n - 1, size);
    var c := b[..Area(i, size)] + b[Area(i, size) + size..];
    var all, left := Rows(b, size, n), Rows(c, size, n - 1);
    forall j | 0 <= j < i ensures left[j] == all[j] { RowRemoved(b, size, n, i, j); }
    forall j | i <= j < |left| ensures left[j] == all[j + 1] { RowRemoved(b, size, n, i, j); }
    Spread(all, left, i);
  }

  lemma Spread(all: seq<seq<Byte>>, left: seq<seq<Byte>>, i: nat)
    requires i < |all| && |left| == |all| - 1
    requires forall j :: 0 <= j < i ==> left[j] == all[j]
    requires forall j :: i <= j < |left| ==> left[j] == all[j + 1]
    ensures left == all[..i] + all[i + 1..]
  {
    var r := all[..i] + all[i + 1..];
    forall j | 0 <= j < |left| ensures left[j] == r[j] {
      if j < i {
        assert r[j] == all[..i][j];
      } else {
        assert r[j] == all[i + 1..][j - i];
      }
    }
  }

  lemma SliceSuffix(a: seq<Byte>, b: seq<Byte>, skip: nat, i: nat, j: nat)
    requires |a| <= i <= j && skip >= |a| && skip <= |b| && j + (skip - |a|) <= |b|
    ensures (a + b[skip..])[i..j] == b[i + (skip - |a|)..j + (skip - |a|)]
  {
  }

  // ----- growth ----------------------------------------------------------------------------

  function NextCap(cap: nat): nat {
    if cap == 0 then 4 else cap * 2
  }

  /** A capacity that passes both overflow checks. */
  predicate Fits(cap: nat, size: nat) {
    cap <= UINT64_MAX && Area(cap, size) <= UINT64_MAX
  }

  /** Capacity and elements copied by growing, after `n` pushes onto an empty list. */
  datatype Growth = Growth(cap: nat, copied: nat)

  function Pushed(g: Growth, len: nat): Growth {
    if len == g.cap then Growth(NextCap(g.cap), g.copied + len) else g
  }

  function AfterPushes(n: nat): Growth {
    if n == 0 then Growth(0, 0) else Pushed(AfterPushes(n - 1), n - 1)
  }

  /** The least power of two that is at least `n` and at least four. */
  ghost predicate LeastPower(cap: nat, n: nat) {
    && (exists k: nat {:trigger Words.Pow2(k)} :: k >= 2 && cap == Words.Pow2(k))
    && cap >= n && (cap == 4 || cap / 2 < n)
  }

  /** Doubling keeps the buffer at a power of two, and all the growth together has
      copied fewer than two elements for every push. */
  lemma {:induction false} GrowthIsCheap(n: nat)
    requires n > 0
    ensures LeastPower(AfterPushes(n).cap, n)
    ensures AfterPushes(n).copied == AfterPushes(n).cap - 4 && AfterPushes(n).copied < 2 * n
  {
    if n == 1 {
      assert Words.Pow2(2) == 4;
    } else {
      GrowthIsCheap(n - 1);
      var g := AfterPushes(n - 1);
      var k: nat :| k >= 2 && g.cap == Words.Pow2(k);
      assert Words.Pow2(k + 1) == 2 * g.cap;
    }
  }

  lemma LeastPowerUnique(a: nat, b: nat, n: nat)
    requires LeastPower(a, n) && LeastPower(b, n)
    ensures a == b
  {
    var j: nat :| j >= 2 && a == Words.Pow2(j);
    var k: nat :| k >= 2 && b == Words.Pow2(k);
    Words.Pow2Monotone(2, j);
    Words.Pow2Monotone(2, k);
    assert Words.Pow2(2) == 4 && Words.Pow2(j + 1) == 2 * a && Words.Pow2(k + 1) == 2 * b;
    if j < k { Words.Pow2Monotone(j + 1, k); }
    if k < j { Words.Pow2Monotone(k + 1, j); }
  }

  // ----- the list --------------------------------------------------------------------------------

  class List {
    var len: nat
    var cap: nat
    const elemSize: nat
    var ptr: array?<Byte>
    const cloneElement: Option<int -> int>
    /** Elements that growing has moved so far. */
    ghost var copied: nat

    ghost predicate Valid()
      reads this, ptr
    {
      && len <= cap && elemSize <= 8
      && (ptr == null ==> cap == 0)
      && (ptr != null ==> ptr.Length == Area(cap, elemSize))
    }

    /** The bytes in use. */
    ghost function Used(): (b: seq<Byte>)
      requires Valid()
      reads this, ptr
      ensures |b| == Area(len, elemSize)
    {
      if ptr == null then []
      else
        Within(len, cap, elemSize);
        ptr[..Area(len, elemSize)]
    }

    ghost function Elements(): (es: seq<seq<Byte>>)
      requires Valid()
      reads this, ptr
      ensures |es| == len
    {
      Rows(Used(), elemSize, len)
    }

    constructor (elemSize: nat, cloneElement: Option<int -> int>)
      requires elemSize <= 8
      ensures Valid() && Elements() == [] && this.elemSize == elemSize && this.cloneElement == cloneElement
      ensures cap == 0 && copied == 0 && ptr == null
    {
      this.elemSize := elemSize;
      this.cloneElement := cloneElement;
      len, cap, ptr, copied := 0, 0, null, 0;
    }

    /** Appends, growing first when the buffer is full; refuses only a capacity or a
        size that does not fit a word. */
    method Push(element: seq<Byte>) returns (ok: bool)
      requires Valid() && |element| == elemSize
      modifies this, ptr
      ensures Valid() && (ptr == old(ptr) || fresh(ptr))
      ensures ok <==> old(len < cap) || Fits(NextCap(old(cap)), elemSize)
      ensures Elements() == if ok then old(Elements()) + [element] else old(Elements())
      ensures Used() == if ok then old(Used()) + element else old(Used())
      ensures ok ==> Growth(cap, copied) == Pushed(Growth(old(cap), old(copied)), old(len)) && len == old(len) + 1
      ensures !ok ==> cap == old(cap) && copied == old(copied)
    {
      hide Rows, Area, Spliced;
      if len == cap {
        if cap > UINT64_MAX / 2 { return false; }
        var next := NextCap(cap);
        TooWide(next, elemSize);
        if elemSize != 0 && next > UINT64_MAX / elemSize { return false; }
        Grow(next);
      }
      Place(element);
      return true;
    }

    /** Writes the next element into free space. */
    method Place(element: seq<Byte>)
      requires Valid() && |element| == elemSize && len < cap
      modifies this`len, ptr
      ensures Valid() && len == old(len) + 1
      ensures Elements() == old(Elements()) + [element] && Used() == old(Used()) + element
    {
      hide Rows, Area, Spliced;
      ghost var before, was := Used(), ptr[..];
      var at := Area(len, elemSize);
      Extent(len, cap, elemSize);
      Fill(ptr, at, element);
      len := len + 1;
      RowsPush(before, elemSize, len - 1, element);
      SplicedWithin(was, at, element, at + elemSize);
      assert was[..at + elemSize][..at] == was[..at] && was[..at + elemSize][at + elemSize..] == [];
      assert Used() == before + element;
    }

    /** Allocate, copy, free. */
    method Grow(next: nat)
      requires Valid() && next > cap && len == cap
      modifies this
      ensures Valid() && cap == next && ptr != null && fresh(ptr) && len == old(len) && copied == old(copied) + len
      ensures Used() == old(Used())
    {
      Within(len, next, elemSize);
      var grown := new Byte[Area(next, elemSize)];
      if ptr != null {
        MemCopy(grown, 0, ptr, 0, Area(len, elemSize));
      }
      ptr := grown;
      cap := next;
      copied := copied + len;
    }

    /** The last element as a word, when there is one. */
    method TryPop() returns (value: Option<nat>)
      requires Valid()
      modifies this
      ensures Valid() && cap == old(cap) && ptr == old(ptr)
      ensures value.None? <==> old(len) == 0
      ensures value.None? ==> Elements() == old(Elements())
      ensures value.Some? ==>
        Elements() == old(Elements())[..old(len) - 1] && value.value == FromLe(old(Elements())[old(len) - 1])
    {
      if len == 0 { return None; }
      ghost var before := Used();
      ghost var n := len;
      RowsPop(before, elemSize, n);
      len := len - 1;
      Extent(len, n, elemSize);
      Within(n, cap, elemSize);
      assert before[Area(len, elemSize)..] == ptr[Area(len, elemSize)..Area(len, elemSize) + elemSize];
      assert Used() == before[..Area(len, elemSize)];
      return Some(FromLe(ptr[Area(len, elemSize)..Area(len, elemSize) + elemSize]));
    }

    /** Takes one element out and closes the gap behind it. */
    method Remove(index: nat) returns (value: Option<nat>)
      requires Valid()
      modifies this, ptr
      ensures Valid() && cap == old(cap) && ptr == old(ptr)
      ensures value.None? <==> index >= old(len)
      ensures value.None? ==> Elements() == old(Elements())
      ensures value.Some? ==>
        && Elements() == old(Elements())[..index] + old(Elements())[index + 1..]
        && value.value == FromLe(old(Elements())[index])
    {
      if index >= len { return None; }
      ghost var before := Used();
      var element := ElementAt(index);
      RowsRemove(before, elemSize, len, index);
      CloseGap(index);
      return Some(FromLe(element));
    }

    /** Moves the elements behind a gap down over it. */
    method CloseGap(index: nat)
      requires Valid() && index < len
      modifies this, ptr
      ensures Valid() && cap == old(cap) && ptr == old(ptr) && len == old(len) - 1
      ensures var at := Area(index, elemSize);
        at + elemSize <= |old(Used())| && Used() == old(Used())[..at] + old(Used())[at + elemSize..]
    {
      hide Rows, Area, Spliced;
      var size, at, rest := elemSize, Area(index, elemSize), Area(len - index - 1, elemSize);
      Extent(index, len, size);
      Within(len, cap, size);
      Remaining(index, len, size);
      ghost var was := ptr[..];
      if index + 1 < len {
        MemMove(ptr, at, at + size, rest);
      }
      Closed(was, ptr[..], at, size, rest);
      len := len - 1;
    }

    /** The new element takes the slot and the old one is handed back. */
    method Replace(index: nat, element: seq<Byte>) returns (value: Option<nat>)
      requires Valid() && |element| == elemSize
      modifies ptr
      ensures Valid()
      ensures value.None? <==> index >= len
      ensures value.None? ==> Elements() == old(Elements())
      ensures value.Some? ==>
        Elements() == old(Elements())[index := element] && value.value == FromLe(old(Elements())[index])
    {
      hide Rows, Area, Spliced;
      if index >= len { return None; }
      var previous := ElementAt(index);
      Store(index, element);
      return Some(FromLe(previous));
    }

    /** Overwrites the bytes of one element. */
    method Store(index: nat, element: seq<Byte>)
      requires Valid() && |element| == elemSize && index < len
      modifies ptr
      ensures Valid() && Elements() == old(Elements())[index := element]
      ensures var at := Area(index, elemSize);
        at + elemSize <= |old(Used())| && Used() == old(Used())[..at] + element + old(Used())[at + elemSize..]
    {
      hide Rows, Area, Spliced;
      ghost var before, was := Used(), ptr[..];
      var at := Area(index, elemSize);
      Extent(index, len, elemSize);
      Within(len, cap, elemSize);
      RowsReplace(before, elemSize, len, index, element);
      Fill(ptr, at, element);
      SplicedWithin(was, at, element, Area(len, elemSize));
      assert Used() == before[..at] + element + before[at + elemSize..];
    }

    /** What cloning makes of one element. */
    function Cloned(element: seq<Byte>): seq<Byte> {
      Le(if cloneElement.Some? then cloneElement.value(FromLe(element)) else FromLe(element), elemSize)
    }

    /** A list of its own with every element cloned, unless its capacity would not fit. */
    method Clone() returns (copy: Option<List>)
      requires Valid()
      ensures copy.Some? <==> Fits(AfterPushes(len).cap, elemSize)
      ensures copy.Some? ==>
        && fresh(copy.value) && (copy.value.ptr == null || fresh(copy.value.ptr)) && copy.value.Valid()
        && copy.value.elemSize == elemSize && copy.value.cloneElement == cloneElement
        && copy.value.Elements() == ClonedAll(Elements())
        && Growth(copy.value.cap, copy.value.copied) == AfterPushes(len)
    {
      AfterPushesNone();
      hide Area, Rows, AfterPushes;
      var made := new List(elemSize, cloneElement);
      ghost var all := Elements();
      for index := 0 to len
        invariant fresh(made) && (made.ptr == null || fresh(made.ptr)) && made.Valid() && made.len == index
        invariant made.elemSize == elemSize && made.cloneElement == cloneElement
        invariant made.Elements() == ClonedAll(all[..index])
        invariant Growth(made.cap, made.copied) == AfterPushes(index) && Fits(made.cap, elemSize)
      {
        var element := ElementAt(index);
        OneMoreClone(all, index);
        FitsNext(index, len, elemSize);
        var ok := made.Push(Cloned(element));
        if !ok { return None; }
      }
      assert all[..len] == all;
      return Some(made);
    }

    ghost function ClonedAll(elements: seq<seq<Byte>>): (r: seq<seq<Byte>>)
      ensures |r| == |elements|
    {
      seq(|elements|, i requires 0 <= i < |elements| => Cloned(elements[i]))
    }

    lemma OneMoreClone(all: seq<seq<Byte>>, index: nat)
      requires index < |all|
      ensures ClonedAll(all[..index + 1]) == ClonedAll(all[..index]) + [Cloned(all[index])]
    {
    }

    method ElementAt(index: nat) returns (element: seq<Byte>)
      requires Valid() && index < len
      ensures element == Elements()[index] && |element| == elemSize
    {
      Extent(index, len, elemSize);
      Within(len, cap, elemSize);
      RowAt(Used(), elemSize, len, index);
      element := ptr[Area(index, elemSize)..Area(index, elemSize) + elemSize];
      SlicePrefix(Used(), ptr[Area(len, elemSize)..], Area(index, elemSize), Area(index, elemSize) + elemSize);
      assert ptr[..] == Used() + ptr[Area(len, elemSize)..];
    }
  }

  /** Pushes a sequence of elements onto an empty list. */
  method FromElements(elements: seq<seq<Byte>>, elemSize: nat) returns (list: Option<List>)
    requires elemSize <= 8 && Uniform(elements, elemSize)
    ensures list.Some? <==> Fits(AfterPushes(|elements|).cap, elemSize)
    ensures list.Some? ==> fresh(list.value) && list.value.Valid() && list.value.Elements() == elements
    ensures list.Some? && elements != [] ==>
      LeastPower(list.value.cap, |elements|) && list.value.copied < 2 * |elements|
  {
    hide Area, LeastPower;
    var made := new List(elemSize, None);
    for i := 0 to |elements|
      invariant fresh(made) && (made.ptr == null || fresh(made.ptr)) && made.Valid() && made.elemSize == elemSize
      invariant made.Elements() == elements[..i]
      invariant Growth(made.cap, made.copied) == AfterPushes(i) && Fits(made.cap, elemSize)
    {
      FitsNext(i, |elements|, elemSize);
      assert elements[..i + 1] == elements[..i] + [elements[i]];
      var ok := made.Push(elements[i]);
      if !ok { return None; }
    }
    assert elements[..|elements|] == elements;
    if elements != [] { GrowthIsCheap(|elements|); }
    return Some(made);
  }

  lemma AfterPushesNone()
    ensures AfterPushes(0) == Growth(0, 0)
  {
  }

  /** Capacities only grow, so the last one decides. */
  lemma {:induction false} FitsNext(i: nat, n: nat, size: nat)
    requires i < n
    ensures AfterPushes(i + 1) == Pushed(AfterPushes(i), i) && Fits(0, size)
    ensures Fits(AfterPushes(n).cap, size) ==> Fits(AfterPushes(i + 1).cap, size)
  {
    CapsGrow(i + 1, n);
    Within(AfterPushes(i + 1).cap, AfterPushes(n).cap, size);
  }

  lemma {:induction false} CapsGrow(i: nat, n: nat)
    requires i <= n
    ensures AfterPushes(i).cap <= AfterPushes(n).cap
    decreases n
  {
    if i < n { CapsGrow(i, n - 1); }
  }

  lemma Within(n: nat, cap: nat, size: nat)
    requires n <= cap
    ensures Area(n, size) <= Area(cap, size)
  {
    AreaAdds(n, cap - n, size);
  }

  lemma Remaining(index: nat, n: nat, size: nat)
    requires index < n
    ensures Area(index, size) + size + Area(n - index - 1, size) == Area(n, size)
    ensures Area(n - 1, size) == Area(n, size) - size
  {
    AreaAdds(index + 1, n - index - 1, size);
  }

  /** The overflow check by division. */
  lemma TooWide(next: nat, size: nat)
    ensures size == 0 ==> Area(next, size) == 0
    ensures size > 0 ==> (next > UINT64_MAX / size <==> Area(next, size) > UINT64_MAX)
  {
    AreaIsProduct(next, size);
    if size > 0 {
      var q, r := UINT64_MAX / size, UINT64_MAX % size;
      assert UINT64_MAX == q * size + r;
      if next <= q { ProductWithin(next, q, size); } else { ProductWithin(q + 1, next, size); }
    }
  }

  lemma ProductWithin(n: nat, cap: nat, size: nat)
    requires n <= cap
    ensures n * size <= cap * size && (n + 1) * size == n * size + size
  {
  }

  lemma Closed(was: seq<Byte>, after: seq<Byte>, at: nat, size: nat, rest: nat)
    requires at + size + rest <= |was|
    requires after == Spliced(was, at, was[at + size..at + size + rest]) || (rest == 0 && after == was)
    ensures |after| == |was|
    ensures after[..at + rest] == was[..at + size + rest][..at] + was[..at + size + rest][at + size..]
  {
  }

  /** With one, the copy's element is what that clone makes of the source's. */
  lemma OwnCloneIsUsed(list: List, element: seq<Byte>, made: int)
    requires list.cloneElement.Some? && made == list.cloneElement.value(FromLe(element))
    requires 0 <= made < Radix(list.elemSize)
    ensures FromLe(list.Cloned(element)) == made
  {
    LeRoundTrip(made, list.elemSize);
  }

  /** Without an element's own clone, a clone holds the same elements. */
  lemma PlainCloneIsEqual(list: List, element: seq<Byte>)
    requires list.cloneElement == None && |element| == list.elemSize
    ensures list.Cloned(element) == element
  {
    FromLeBound(element);
  }

  lemma {:induction false} FromLeBound(b: seq<Byte>)
    ensures Le(FromLe(b), |b|) == b
  {
    if b != [] {
      FromLeBound(b[1..]);
      LowestByte(b[0], FromLe(b[1..]));
      assert b == [b[0]] + b[1..];
    }
  }

  lemma LowestByte(low: Byte, rest: nat)
    ensures ByteOf(low + 0x100 * rest) == low && (low + 0x100 * rest) / 0x100 == rest
  {
  }
}
