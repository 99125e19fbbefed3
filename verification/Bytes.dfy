/** Byte-level building blocks of a file: little-endian numbers, tables of rows of
    one width, and NUL-terminated names. */
module Bytes {
  import opened Items

  type Text = seq<Byte>

  // ----- numbers --------------------------------------------------------------------

  function Radix(width: nat): (r: int)
    ensures r >= 1
  {
    if width == 0 then 1 else 0x100 * Radix(width - 1)
  }

  /** The low `width` bytes of a number, least significant first. */
  function Le(n: int, width: nat): (b: seq<Byte>)
    ensures |b| == width
    decreases width
  {
    if width == 0 then [] else [ByteOf(n)] + Le(n / 0x100, width - 1)
  }

  function ByteOf(n: int): Byte {
    n % 0x100
  }

  function FromLe(b: seq<Byte>): (n: nat) {
    if b == [] then 0 else b[0] as int + 0x100 * FromLe(b[1..])
  }

  /** Bytes written and read back give the number, when it fits. */
  lemma {:induction false} LeRoundTrip(n: nat, width: nat)
    requires n < Radix(width)
    ensures FromLe(Le(n, width)) == n
    decreases width
  {
    if width > 0 {
      LeRoundTrip(n / 0x100, width - 1);
      assert Le(n, width)[1..] == Le(n / 0x100, width - 1);
    }
  }

  /** In two's complement, for a number of either sign. */
  function FromLeSigned(b: seq<Byte>): int {
    var n := FromLe(b);
    if n < Radix(|b|) / 2 then n else n - Radix(|b|)
  }

  lemma {:induction false} LeOfNegative(n: int, width: nat)
    requires -Radix(width) <= n < 0
    ensures Le(n, width) == Le(n + Radix(width), width)
    decreases width
  {
    if width > 0 {
      LeOfNegative(n / 0x100, width - 1);
      assert (n + Radix(width)) / 0x100 == n / 0x100 + Radix(width - 1);
    }
  }

  lemma LeSignedRoundTrip(n: int, width: nat)
    requires width > 0 && -(Radix(width) / 2) <= n < Radix(width) / 2
    ensures FromLeSigned(Le(n, width)) == n
  {
    if n >= 0 {
      LeRoundTrip(n, width);
    } else {
      LeOfNegative(n, width);
      LeRoundTrip(n + Radix(width), width);
    }
  }

  lemma RadixValues()
    ensures Radix(1) == 0x100 && Radix(2) == 0x1_0000 && Radix(4) == 0x1_0000_0000
    ensures Radix(8) == 0x1_0000_0000_0000_0000
  {
    assert Radix(4) == 0x1_0000_0000;
    assert Radix(6) == 0x1_0000 * Radix(4);
  }

  // ----- slices -----------------------------------------------------------------------

  lemma SplitAt<T>(a: seq<T>, b: seq<T>)
    ensures (a + b)[..|a|] == a && (a + b)[|a|..] == b
  {
  }

  lemma SliceMiddle<T>(a: seq<T>, b: seq<T>, c: seq<T>)
    ensures (a + b + c)[|a|..|a| + |b|] == b
  {
  }

  lemma SlicePrefix<T>(a: seq<T>, b: seq<T>, i: nat, j: nat)
    requires i <= j <= |a|
    ensures (a + b)[i..j] == a[i..j]
  {
  }

  // ----- tables -----------------------------------------------------------------------

  function Flat(rows: seq<seq<Byte>>): seq<Byte> {
    if rows == [] then [] else Flat(rows[..|rows| - 1]) + rows[|rows| - 1]
  }

  ghost predicate Uniform(rows: seq<seq<Byte>>, width: nat) {
    forall i :: 0 <= i < |rows| ==> |rows[i]| == width
  }

  lemma {:induction false} FlatLength(rows: seq<seq<Byte>>, width: nat)
    requires Uniform(rows, width)
    ensures |Flat(rows)| == width * |rows|
  {
    if rows != [] {
      FlatLength(rows[..|rows| - 1], width);
      assert width * (|rows| - 1) + width == width * |rows|;
    }
  }

  /** Row `i` of a table is where its index says. */
  lemma {:induction false} FlatRow(rows: seq<seq<Byte>>, width: nat, i: nat)
    requires Uniform(rows, width) && i < |rows|
    ensures width * i + width <= |Flat(rows)|
    ensures Flat(rows)[width * i..width * i + width] == rows[i]
  {
    var n := |rows| - 1;
    FlatLength(rows[..n], width);
    FlatLength(rows, width);
    if i < n {
      FlatRow(rows[..n], width, i);
      SlicePrefix(Flat(rows[..n]), rows[n], width * i, width * i + width);
    } else {
      assert Flat(rows)[width * i..width * i + width] == rows[n];
    }
  }

  // ----- names --------------------------------------------------------------------------

  /** A leading NUL, then every name, each NUL-terminated. */
  function Strings(names: seq<Text>): (b: seq<Byte>)
    ensures |b| >= 1
  {
    if names == [] then [0] else Strings(names[..|names| - 1]) + names[|names| - 1] + [0]
  }

  /** The bytes from `at` up to the next NUL. */
  function CString(b: seq<Byte>, at: nat): Text
    decreases |b| - at
  {
    if at >= |b| || b[at] == 0 then [] else [b[at]] + CString(b, at + 1)
  }

  lemma {:induction false} CStringAt(b: seq<Byte>, at: nat, name: Text)
    requires at + |name| < |b| && b[at..at + |name|] == name && b[at + |name|] == 0 && 0 !in name
    ensures CString(b, at) == name
    decreases |name|
  {
    if name != [] {
      assert b[at] == b[at..at + |name|][0] == name[0];
      assert b[at + 1..at + |name|] == b[at..at + |name|][1..];
      CStringAt(b, at + 1, name[1..]);
    }
  }

  lemma {:induction false} StringsPrefix(names: seq<Text>, i: nat)
    requires i <= |names|
    ensures |Strings(names[..i])| <= |Strings(names)|
    ensures Strings(names)[..|Strings(names[..i])|] == Strings(names[..i])
  {
    if i == |names| {
      assert names[..i] == names;
    } else {
      var front := names[..|names| - 1];
      StringsPrefix(front, i);
      assert front[..i] == names[..i];
      var a := Strings(names[..i]);
      assert Strings(names)[..|a|] == Strings(front)[..|a|];
    }
  }

  /** The offset a table hands out when it adds a name is where the name is read
      back, whatever is added later. */
  lemma NameAt(names: seq<Text>, i: nat)
    requires i < |names| && 0 !in names[i]
    ensures CString(Strings(names), |Strings(names[..i])|) == names[i]
  {
    var b, at := Strings(names), |Strings(names[..i])|;
    StringsPrefix(names, i + 1);
    var head := Strings(names[..i + 1]);
    assert names[..i + 1][..i] == names[..i];
    assert head == Strings(names[..i]) + names[i] + [0];
    assert head[at..at + |names[i]|] == names[i];
    assert b == head + b[|head|..];
    SlicePrefix(head, b[|head|..], at, at + |names[i]|);
    CStringAt(b, at, names[i]);
  }

  class StringTable {
    var bytes: seq<Byte>
    ghost var names: seq<Text>

    ghost predicate Valid()
      reads this
    {
      bytes == Strings(names)
    }

    constructor ()
      ensures Valid() && names == []
    {
      bytes := [0];
      names := [];
    }

    /** Where the name will be read back. */
    method Add(name: Text) returns (offset: nat)
      requires Valid()
      modifies this
      ensures Valid() && names == old(names) + [name]
      ensures offset == |Strings(old(names))|
    {
      offset := |bytes|;
      bytes := bytes + name + [0];
      assert (names + [name])[..|names|] == names;
      names := names + [name];
    }
  }
}
