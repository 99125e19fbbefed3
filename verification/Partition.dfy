/** Separate compilation: which module of a package emits which function, test,
    struct and enum. */
module Partition {
  import opened Types

  type Name = string

  datatype SourceFile = SourceFile(name: Name, namespace: Option<Name>)

  datatype PackageInput = PackageInput(files: seq<SourceFile>, entryModule: Name)

  /** Something a module either emits or leaves to another. */
  datatype Symbol = Symbol(name: Name, emit: bool)

  /** A test has a name of its own and a function that runs it. */
  datatype Test = Test(name: Name, runner: Symbol, emit: bool)

  /** Everything a package's module of MIR holds. */
  datatype Parts = Parts(functions: seq<Symbol>, tests: seq<Test>, structs: seq<Symbol>, enums: seq<Symbol>)

  // ----- ownership ----------------------------------------------------------------------

  function ModuleName(f: SourceFile): Name {
    match f.namespace
    case Some(space) => space + ":" + f.name
    case None => f.name
  }

  function ModuleNames(input: PackageInput): (names: seq<Name>)
    ensures |names| == |input.files|
  {
    seq(|input.files|, i requires 0 <= i < |input.files| => ModuleName(input.files[i]))
  }

  /** `name` is inside module `m`: the module's name, a colon, and more. */
  predicate Inside(m: Name, name: Name) {
    |m| < |name| && name[..|m|] == m && name[|m|] == ':'
  }

  /** The longest of the modules a name is inside. */
  function Longest(names: seq<Name>, name: Name): Option<Name> {
    if names == [] then None
    else
      var last, rest := names[|names| - 1], Longest(names[..|names| - 1], name);
      if Inside(last, name) && (rest.None? || |last| >= |rest.value|) then Some(last) else rest
  }

  function Owner(input: PackageInput, name: Name): Option<Name> {
    if name == "main" then Some(input.entryModule) else Longest(ModuleNames(input), name)
  }

  lemma {:induction false} LongestMeaning(names: seq<Name>, name: Name)
    ensures match Longest(names, name)
      case Some(m) => m in names && Inside(m, name) && forall n :: n in names && Inside(n, name) ==> |n| <= |m|
      case None => forall n :: n in names ==> !Inside(n, name)
  {
    if names != [] {
      var front, last := names[..|names| - 1], names[|names| - 1];
      LongestMeaning(front, name);
      assert forall n :: n in names <==> n in front || n == last;
    }
  }

  /** A name other than `main` belongs to the longest module it is inside, and to no
      module when it is inside none. */
  lemma OwnerMeaning(input: PackageInput, name: Name)
    requires name != "main"
    ensures match Owner(input, name)
      case Some(m) =>
        && m in ModuleNames(input) && Inside(m, name)
        && forall n :: n in ModuleNames(input) && Inside(n, name) && n != m ==> |n| < |m|
      case None => forall n :: n in ModuleNames(input) ==> !Inside(n, name)
  {
    LongestMeaning(ModuleNames(input), name);
  }

  /** Inside a module means its name, a colon and a rest. */
  lemma InsideExactly(m: Name, name: Name)
    ensures Inside(m, name) <==> exists rest :: name == m + ":" + rest
  {
    if Inside(m, name) {
      assert name == m + ":" + name[|m| + 1..];
    }
    if rest :| name == m + ":" + rest {
      assert name[|m|] == ':' && name[..|m|] == m;
    }
  }

  /** What a file declares is inside its module: namespace, file and name, by colons. */
  lemma QualifiedInside(f: SourceFile, space: Name, rest: Name)
    ensures f.namespace == Some(space) ==> Inside(ModuleName(f), space + ":" + f.name + ":" + rest)
    ensures f.namespace == None ==> Inside(ModuleName(f), f.name + ":" + rest)
  {
    InsideExactly(ModuleName(f), ModuleName(f) + ":" + rest);
  }

  // ----- bases ----------------------------------------------------------------------------

  /** The part before the first `$`: what a lambda or a closure is named after. */
  function BaseOf(name: Name): (base: Name)
    ensures '$' !in base && |base| <= |name| && name[..|base|] == base
    ensures |base| < |name| ==> name[|base|] == '$'
    ensures '$' !in name <==> base == name
  {
    if name == [] || name[0] == '$' then [] else [name[0]] + BaseOf(name[1..])
  }

  // ----- partitioning ------------------------------------------------------------------------

  /** Functions first, then tests, the later entry winning. */
  function Emitted(input: PackageInput, functions: seq<Symbol>, tests: seq<Test>, selected: Name): map<Name, bool> {
    if tests != [] then
      var last := tests[|tests| - 1];
      var before := Emitted(input, functions, tests[..|tests| - 1], selected);
      before[last.runner.name := Owner(input, last.name) == Some(selected)]
    else if functions != [] then
      var last := functions[|functions| - 1];
      var before := Emitted(input, functions[..|functions| - 1], tests, selected);
      if '$' in last.name then before else before[last.name := Owner(input, last.name) == Some(selected)]
    else map[]
  }

  /** What a function or struct of this name does when `selected` is compiled. */
  function Flag(input: PackageInput, emitted: map<Name, bool>, selected: Name, name: Name): bool {
    if BaseOf(name) in emitted then emitted[BaseOf(name)] else Owner(input, name) == Some(selected)
  }

  class MirModule {
    var functions: seq<Symbol>
    var tests: seq<Test>
    var structs: seq<Symbol>
    var enums: seq<Symbol>

    constructor (functions: seq<Symbol>, tests: seq<Test>, structs: seq<Symbol>, enums: seq<Symbol>)
      ensures this.functions == functions && this.tests == tests && this.structs == structs && this.enums == enums
    {
      this.functions, this.tests, this.structs, this.enums := functions, tests, structs, enums;
    }

    function All(): Parts
      reads this
    {
      Parts(functions, tests, structs, enums)
    }

    /** Sets every `emit` flag for one selected module; names never change. */
    method PartitionCodegen(input: PackageInput, selected: Name)
      modifies this
      ensures All() == Partitioned(input, selected, old(All()))
    {
      var emitted := FillEmitted(input, selected);
      hide FlagAll, OwnTests, OwnAll, Emitted;
      FlagFunctions(input, emitted, selected);
      FlagTests(input, selected);
      FlagStructs(input, emitted, selected);
      FlagEnums(input, selected);
    }

    method FlagFunctions(input: PackageInput, emitted: map<Name, bool>, selected: Name)
      modifies this`functions
      ensures functions == FlagAll(input, emitted, selected, old(functions))
    {
      hide Flag;
      ghost var after := FlagAll(input, emitted, selected, functions);
      for k := 0 to |functions|
        invariant |functions| == |after| && functions[k..] == old(functions)[k..] && functions[..k] == after[..k]
      {
        assert functions[k] == old(functions)[k];
        functions := functions[k := functions[k].(emit := Flag(input, emitted, selected, functions[k].name))];
      }
    }

    method FlagTests(input: PackageInput, selected: Name)
      modifies this`tests
      ensures tests == OwnTests(input, selected, old(tests))
    {
      hide Owner;
      ghost var after := OwnTests(input, selected, tests);
      for k := 0 to |tests|
        invariant |tests| == |after| && tests[k..] == old(tests)[k..] && tests[..k] == after[..k]
      {
        assert tests[k] == old(tests)[k];
        var emit := Owner(input, tests[k].name) == Some(selected);
        tests := tests[k := Test(tests[k].name, tests[k].runner.(emit := emit), emit)];
      }
    }

    method FlagStructs(input: PackageInput, emitted: map<Name, bool>, selected: Name)
      modifies this`structs
      ensures structs == FlagAll(input, emitted, selected, old(structs))
    {
      hide Flag;
      ghost var after := FlagAll(input, emitted, selected, structs);
      for k := 0 to |structs|
        invariant |structs| == |after| && structs[k..] == old(structs)[k..] && structs[..k] == after[..k]
      {
        assert structs[k] == old(structs)[k];
        structs := structs[k := structs[k].(emit := Flag(input, emitted, selected, structs[k].name))];
      }
    }

    method FlagEnums(input: PackageInput, selected: Name)
      modifies this`enums
      ensures enums == OwnAll(input, selected, old(enums))
    {
      hide Owner;
      ghost var after := OwnAll(input, selected, enums);
      for k := 0 to |enums|
        invariant |enums| == |after| && enums[k..] == old(enums)[k..] && enums[..k] == after[..k]
      {
        assert enums[k] == old(enums)[k];
        enums := enums[k := enums[k].(emit := Owner(input, enums[k].name) == Some(selected))];
      }
    }

    method FillEmitted(input: PackageInput, selected: Name) returns (emitted: map<Name, bool>)
      ensures emitted == Emitted(input, functions, tests, selected)
    {
      hide Owner;
      emitted := map[];
      for k := 0 to |functions|
        invariant emitted == Emitted(input, functions[..k], [], selected)
      {
        assert functions[..k + 1][..k] == functions[..k];
        if '$' !in functions[k].name {
          emitted := emitted[functions[k].name := Owner(input, functions[k].name) == Some(selected)];
        }
      }
      assert functions[..|functions|] == functions;
      for k := 0 to |tests|
        invariant emitted == Emitted(input, functions, tests[..k], selected)
      {
        assert tests[..k + 1][..k] == tests[..k];
        emitted := emitted[tests[k].runner.name := Owner(input, tests[k].name) == Some(selected)];
      }
      assert tests[..|tests|] == tests;
    }
  }

  function FlagAll(
      input: PackageInput, emitted: map<Name, bool>, selected: Name, symbols: seq<Symbol>): (r: seq<Symbol>)
    ensures |r| == |symbols|
  {
    seq(|symbols|, i requires 0 <= i < |symbols| =>
      symbols[i].(emit := Flag(input, emitted, selected, symbols[i].name)))
  }

  function OwnAll(input: PackageInput, selected: Name, symbols: seq<Symbol>): (r: seq<Symbol>)
    ensures |r| == |symbols|
  {
    seq(|symbols|, i requires 0 <= i < |symbols| =>
      symbols[i].(emit := Owner(input, symbols[i].name) == Some(selected)))
  }

  function OwnTests(input: PackageInput, selected: Name, tests: seq<Test>): (r: seq<Test>)
    ensures |r| == |tests|
  {
    seq(|tests|, i requires 0 <= i < |tests| =>
      var emit := Owner(input, tests[i].name) == Some(selected);
      Test(tests[i].name, tests[i].runner.(emit := emit), emit))
  }

  /** The flags one choice of selected module leaves. */
  function Partitioned(input: PackageInput, selected: Name, was: Parts): Parts {
    var emitted := Emitted(input, was.functions, was.tests, selected);
    Parts(FlagAll(input, emitted, selected, was.functions), OwnTests(input, selected, was.tests),
          FlagAll(input, emitted, selected, was.structs), OwnAll(input, selected, was.enums))
  }

  // ----- a true partition ----------------------------------------------------------------------

  /** No two tests run the same function, and no test runs an ordinary one. */
  ghost predicate NamesApart(functions: seq<Symbol>, tests: seq<Test>) {
    && (forall f, t :: f in functions && t in tests ==> f.name != t.runner.name)
    && (forall i, j :: 0 <= i < j < |tests| ==> tests[i].runner.name != tests[j].runner.name)
  }

  ghost predicate FunctionsRight(
      input: PackageInput, functions: seq<Symbol>, selected: Name, emitted: map<Name, bool>) {
    forall f :: f in functions && '$' !in f.name ==>
      f.name in emitted && emitted[f.name] == (Owner(input, f.name) == Some(selected))
  }

  ghost predicate TestsRight(input: PackageInput, tests: seq<Test>, selected: Name, emitted: map<Name, bool>) {
    forall t :: t in tests ==>
      t.runner.name in emitted && emitted[t.runner.name] == (Owner(input, t.name) == Some(selected))
  }

  ghost predicate Runs(tests: seq<Test>, n: Name) {
    exists t :: t in tests && t.runner.name == n
  }

  ghost predicate Names(functions: seq<Symbol>, n: Name) {
    exists f :: f in functions && f.name == n
  }

  ghost predicate KeysKnown(functions: seq<Symbol>, tests: seq<Test>, emitted: map<Name, bool>) {
    forall n :: n in emitted ==> Names(functions, n) || Runs(tests, n)
  }

  /** The table says of every ordinary function and every test whether its own module
      is selected, and says nothing else. */
  lemma {:induction false} EmittedMeaning(input: PackageInput, functions: seq<Symbol>, tests: seq<Test>, selected: Name)
    requires NamesApart(functions, tests)
    ensures var emitted := Emitted(input, functions, tests, selected);
      && FunctionsRight(input, functions, selected, emitted) && TestsRight(input, tests, selected, emitted)
      && KeysKnown(functions, tests, emitted)
    decreases |tests| + |functions|
  {
    hide Owner, FunctionsRight, TestsRight, KeysKnown, NamesApart;
    if tests != [] {
      ApartBefore(functions, tests);
      EmittedMeaning(input, functions, tests[..|tests| - 1], selected);
      TestStep(input, functions, tests, selected, Emitted(input, functions, tests[..|tests| - 1], selected));
    } else if functions != [] {
      ApartWithout(functions);
      EmittedMeaning(input, functions[..|functions| - 1], tests, selected);
      FunctionStep(input, functions, selected, Emitted(input, functions[..|functions| - 1], [], selected));
    } else {
      NoneYet(input, selected);
    }
  }

  lemma NoneYet(input: PackageInput, selected: Name)
    ensures FunctionsRight(input, [], selected, map[])
    ensures TestsRight(input, [], selected, map[]) && KeysKnown([], [], map[])
  {
  }

  lemma ApartBefore(functions: seq<Symbol>, tests: seq<Test>)
    requires NamesApart(functions, tests) && tests != []
    ensures NamesApart(functions, tests[..|tests| - 1])
  {
  }

  lemma ApartWithout(functions: seq<Symbol>)
    ensures functions != [] ==> NamesApart(functions[..|functions| - 1], [])
  {
  }

  lemma TestStep(input: PackageInput, functions: seq<Symbol>, tests: seq<Test>, selected: Name, before: map<Name, bool>)
    requires NamesApart(functions, tests) && tests != []
    requires FunctionsRight(input, functions, selected, before)
    requires TestsRight(input, tests[..|tests| - 1], selected, before)
    requires KeysKnown(functions, tests[..|tests| - 1], before)
    ensures var last := tests[|tests| - 1];
      var after := before[last.runner.name := Owner(input, last.name) == Some(selected)];
      && FunctionsRight(input, functions, selected, after) && TestsRight(input, tests, selected, after)
      && KeysKnown(functions, tests, after)
  {
    hide Owner;
    var front, last := tests[..|tests| - 1], tests[|tests| - 1];
    assert last in tests;
    forall t | t in front ensures t in tests && t.runner.name != last.runner.name {
      var i :| 0 <= i < |front| && front[i] == t;
      assert tests[i] == t;
    }
    forall n | Runs(front, n) ensures Runs(tests, n) {
      var t :| t in front && t.runner.name == n;
      assert t in tests;
    }
  }

  lemma FunctionStep(input: PackageInput, functions: seq<Symbol>, selected: Name, before: map<Name, bool>)
    requires functions != [] && FunctionsRight(input, functions[..|functions| - 1], selected, before)
    requires KeysKnown(functions[..|functions| - 1], [], before)
    ensures var last := functions[|functions| - 1];
      var after := if '$' in last.name then before else before[last.name := Owner(input, last.name) == Some(selected)];
      && FunctionsRight(input, functions, selected, after) && TestsRight(input, [], selected, after)
      && KeysKnown(functions, [], after)
  {
    hide Owner;
    var front, last := functions[..|functions| - 1], functions[|functions| - 1];
    assert functions == front + [last] && last in functions;
    forall n | Names(front, n) ensures Names(functions, n) {
      var f :| f in front && f.name == n;
      assert f in functions;
    }
  }

  /** An ordinary function is emitted by the module that owns it; what is named after a
      function or a test is emitted with it. */
  lemma FlagMeaning(input: PackageInput, functions: seq<Symbol>, tests: seq<Test>, selected: Name, name: Name)
    requires NamesApart(functions, tests)
    ensures var flag := Flag(input, Emitted(input, functions, tests, selected), selected, name);
      && ((exists f :: f in functions && f.name == BaseOf(name)) ==>
           flag == (Owner(input, BaseOf(name)) == Some(selected)))
      && (forall t :: t in tests && t.runner.name == BaseOf(name) ==> flag == (Owner(input, t.name) == Some(selected)))
      && (!Names(functions, BaseOf(name)) && !Runs(tests, BaseOf(name)) ==>
            flag == (Owner(input, name) == Some(selected)))
  {
    EmittedMeaning(input, functions, tests, selected);
    hide Owner, Emitted, BaseOf;
    assert '$' !in BaseOf(name);
  }

  /** What decides the flag of a name. */
  ghost function Decides(input: PackageInput, functions: seq<Symbol>, tests: seq<Test>, name: Name): Option<Name> {
    if exists f :: f in functions && f.name == BaseOf(name) then Owner(input, BaseOf(name))
    else if exists t :: t in tests && t.runner.name == BaseOf(name) then
      var t :| t in tests && t.runner.name == BaseOf(name);
      Owner(input, t.name)
    else Owner(input, name)
  }

  ghost predicate DistinctModules(input: PackageInput) {
    forall i, j :: 0 <= i < j < |input.files| ==> ModuleNames(input)[i] != ModuleNames(input)[j]
  }

  lemma FlagDecided(input: PackageInput, was: Parts, selected: Name, name: Name)
    requires NamesApart(was.functions, was.tests)
    ensures Flag(input, Emitted(input, was.functions, was.tests, selected), selected, name)
       <==> Decides(input, was.functions, was.tests, name) == Some(selected)
  {
    FlagMeaning(input, was.functions, was.tests, selected, name);
    hide Owner, Emitted, BaseOf, Flag;
  }

  /** Every flag that is left says whether the selected module is the one that decides. */
  lemma EmittedByOwner(input: PackageInput, was: Parts, selected: Name)
    requires NamesApart(was.functions, was.tests)
    ensures var now := Partitioned(input, selected, was);
      && (forall k :: 0 <= k < |was.functions| ==>
            (now.functions[k].emit <==>
                Decides(input, was.functions, was.tests, was.functions[k].name) == Some(selected)))
      && (forall k :: 0 <= k < |was.structs| ==>
            (now.structs[k].emit <==> Decides(input, was.functions, was.tests, was.structs[k].name) == Some(selected)))
      && (forall k :: 0 <= k < |was.tests| ==>
            now.tests[k].emit == now.tests[k].runner.emit == (Owner(input, was.tests[k].name) == Some(selected)))
      && (forall k :: 0 <= k < |was.enums| ==>
           (now.enums[k].emit <==> Owner(input, was.enums[k].name) == Some(selected)))
  {
    hide Owner, Emitted, Flag, Decides;
    forall name: Name
      ensures Flag(input, Emitted(input, was.functions, was.tests, selected), selected, name)
         <==> Decides(input, was.functions, was.tests, name) == Some(selected)
    {
      FlagDecided(input, was, selected, name);
    }
  }

  /** `main`, and what is named after it, is emitted by the entry module alone. */
  lemma MainEmittedByEntry(input: PackageInput, was: Parts, selected: Name, k: nat)
    requires NamesApart(was.functions, was.tests)
    requires k < |was.functions| && BaseOf(was.functions[k].name) == "main"
    requires forall t :: t in was.tests ==> t.runner.name != "main"
    requires exists f :: f in was.functions && f.name == "main"
    ensures Partitioned(input, selected, was).functions[k].emit <==> selected == input.entryModule
  {
    EmittedByOwner(input, was, selected);
    hide Partitioned, BaseOf, ModuleNames;
  }

  /** Partitioning is a true partition: with distinct module names, every function,
      struct, test and enum that module `m` decides about is emitted when `m` is
      selected and by no other choice. */
  lemma EmittedByExactlyOne(input: PackageInput, was: Parts, m: nat, i: nat)
    requires NamesApart(was.functions, was.tests) && DistinctModules(input) && m < |input.files| && i < |input.files|
    ensures var owner, now := Some(ModuleNames(input)[m]), Partitioned(input, ModuleNames(input)[i], was);
      && (forall k |
            0 <= k < |was.functions| && Decides(input, was.functions, was.tests, was.functions[k].name) == owner ::
            (now.functions[k].emit <==> i == m))
      && (forall k | 0 <= k < |was.structs| && Decides(input, was.functions, was.tests, was.structs[k].name) == owner ::
            (now.structs[k].emit <==> i == m))
      && (forall k :: 0 <= k < |was.tests| && Owner(input, was.tests[k].name) == owner ==>
            (now.tests[k].emit <==> i == m) && (now.tests[k].runner.emit <==> i == m))
      && (forall k :: 0 <= k < |was.enums| && Owner(input, was.enums[k].name) == owner ==>
           (now.enums[k].emit <==> i == m))
  {
    hide Owner, Decides, FlagAll, OwnAll, OwnTests, Emitted;
    EmittedByOwner(input, was, ModuleNames(input)[i]);
    assert ModuleNames(input)[i] == ModuleNames(input)[m] ==> i == m;
  }

  /** A name inside some module of the package has an owner there. */
  lemma OwnedInside(input: PackageInput, name: Name) returns (m: nat)
    requires name != "main" && exists n :: n in ModuleNames(input) && Inside(n, name)
    ensures m < |input.files| && Owner(input, name) == Some(ModuleNames(input)[m])
  {
    OwnerMeaning(input, name);
    hide Longest;
    m :| m < |input.files| && ModuleNames(input)[m] == Owner(input, name).value;
  }

  /** A lambda's body and its closure's struct are emitted with the function, or the
      test, they were written in, whatever is selected. */
  lemma NamedAfterTogether(input: PackageInput, was: Parts, selected: Name)
    requires NamesApart(was.functions, was.tests)
    ensures var now := Partitioned(input, selected, was);
      && (forall a, b | 0 <= a < |was.functions| && 0 <= b < |was.functions| &&
            BaseOf(was.functions[a].name) == was.functions[b].name ::
              now.functions[a].emit == now.functions[b].emit)
      && (forall a, b | 0 <= a < |was.structs| && 0 <= b < |was.functions| &&
            BaseOf(was.structs[a].name) == was.functions[b].name ::
              now.structs[a].emit == now.functions[b].emit)
      && (forall a, t | 0 <= a < |was.functions| && 0 <= t < |was.tests| &&
            BaseOf(was.functions[a].name) == was.tests[t].runner.name ::
              now.functions[a].emit == now.tests[t].emit == now.tests[t].runner.emit)
      && (forall a, t | 0 <= a < |was.structs| && 0 <= t < |was.tests| &&
            BaseOf(was.structs[a].name) == was.tests[t].runner.name ::
              now.structs[a].emit == now.tests[t].emit == now.tests[t].runner.emit)
  {
    hide Owner, Emitted, Flag, BaseOf, NamesApart;
    ghost var emitted := Emitted(input, was.functions, was.tests, selected);
    forall name: Name, f | f in was.functions && BaseOf(name) == f.name
      ensures Flag(input, emitted, selected, name) == Flag(input, emitted, selected, f.name)
    {
      BaseFlag(input, was, selected, name);
      BaseFlag(input, was, selected, f.name);
      assert BaseOf(f.name) == f.name;
    }
    forall name: Name, t | t in was.tests && BaseOf(name) == t.runner.name
      ensures Flag(input, emitted, selected, name) == (Owner(input, t.name) == Some(selected))
    {
      FlagMeaning(input, was.functions, was.tests, selected, name);
    }
  }

  lemma BaseFlag(input: PackageInput, was: Parts, selected: Name, name: Name)
    requires NamesApart(was.functions, was.tests) && exists f :: f in was.functions && f.name == BaseOf(name)
    ensures Flag(input, Emitted(input, was.functions, was.tests, selected), selected, name)
       <==> Owner(input, BaseOf(name)) == Some(selected)
  {
    FlagMeaning(input, was.functions, was.tests, selected, name);
  }
}
