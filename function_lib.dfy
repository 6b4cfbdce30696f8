/**
 * Function records (src/tcc/symbols/Function.h) and the name-keyed function table of
 * src/tcc/symbols/FunctionLib.cpp, which refuses a second record under a name it holds.
 */
module FunctionLib {
  import opened Wrappers
  import opened Maps
  import opened Types

  datatype Function = Function(name: string, returnType: TypeId, parameters: seq<TypeId>)

  /** The table after `add(f)`: `f` is stored only when its name is new. */
  function Registration(m: map<string, Function>, f: Function): map<string, Function>
  {
    Insert(m, f.name, f)
  }

  /** The table after adding `fs` in order. */
  function RegisterAll(m: map<string, Function>, fs: seq<Function>): map<string, Function>
    decreases |fs|
  {
    if fs == [] then m else RegisterAll(Registration(m, fs[0]), fs[1..])
  }

  /** Every record is stored under its own name. */
  ghost predicate KeyedByName(m: map<string, Function>)
  {
    forall k :: k in m ==> m[k].name == k
  }

  /** `FunctionLibrary::inst()` always yields the same table: one object of this class. */
  class FunctionLibrary {
    var namedFunctions: map<string, Function>

    ghost predicate Valid()
      reads this
    {
      KeyedByName(namedFunctions)
    }

    constructor ()
      ensures Valid() && namedFunctions == map[]
    {
      namedFunctions := map[];
    }

    /** `get`: the record added under `name`, or null when none was. */
    method Get(name: string) returns (r: Option<Function>)
      ensures r.None? <==> name !in namedFunctions
      ensures r.Some? ==> r.value == namedFunctions[name]
    {
      if name in namedFunctions {
        return Some(namedFunctions[name]);
      }
      return None;
    }

    /** `add`: false, with the table untouched, when the name is taken; otherwise true and
        the record is stored under its name. */
    method Add(f: Function) returns (added: bool)
      requires Valid()
      modifies this
      ensures Valid()
      ensures added <==> f.name !in old(namedFunctions)
      ensures !added ==> namedFunctions == old(namedFunctions)
      ensures added ==> namedFunctions == old(namedFunctions)[f.name := f]
      ensures namedFunctions == Registration(old(namedFunctions), f)
    {
      if f.name in namedFunctions {
        return false;
      }
      namedFunctions := Insert(namedFunctions, f.name, f);
      return true;
    }
  }

  /** After `add(f)`, `get` of any other name is what it was. */
  lemma RegistrationFrame(m: map<string, Function>, f: Function, k: string)
    requires k != f.name
    ensures k in Registration(m, f) <==> k in m
    ensures k in m ==> Registration(m, f)[k] == m[k]
  {
  }

  /** A sequence of additions never overwrites a name the table already held. */
  lemma {:induction false} RegisterAllKeeps(m: map<string, Function>, fs: seq<Function>, k: string)
    requires k in m
    ensures k in RegisterAll(m, fs) && RegisterAll(m, fs)[k] == m[k]
    decreases |fs|
  {
    if fs != [] {
      RegisterAllKeeps(Registration(m, fs[0]), fs[1..], k);
    }
  }

  /** The first record added under a fresh name is the one the table keeps. */
  lemma {:induction false} FirstRegistrationWins(m: map<string, Function>, fs: seq<Function>, i: nat)
    requires i < |fs| && fs[i].name !in m
    requires forall j :: 0 <= j < i ==> fs[j].name != fs[i].name
    ensures fs[i].name in RegisterAll(m, fs) && RegisterAll(m, fs)[fs[i].name] == fs[i]
    decreases |fs|
  {
    if i == 0 {
      RegisterAllKeeps(Registration(m, fs[0]), fs[1..], fs[0].name);
    } else {
      FirstRegistrationWins(Registration(m, fs[0]), fs[1..], i - 1);
    }
  }

  /** Adding a sequence of records keeps the table keyed by name. */
  lemma {:induction false} RegisterAllKeyedByName(m: map<string, Function>, fs: seq<Function>)
    requires KeyedByName(m)
    ensures KeyedByName(RegisterAll(m, fs))
    decreases |fs|
  {
    if fs != [] {
      RegisterAllKeyedByName(Registration(m, fs[0]), fs[1..]);
    }
  }
}
