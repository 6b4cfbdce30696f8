/**
 * The type table of src/tcc/symbols/TypeLib.cpp. A type name is a registered scalar name
 * with any number of `*` characters anywhere in it; each `*` adds one pointer layer.
 */
module TypeLib {
  import opened Wrappers
  import opened Maps
  import opened Types

  /** The name with every `*` erased (`erase(remove(...))`). */
  function StripStars(s: string): (r: string)
    ensures '*' !in r
    ensures |r| <= |s|
  {
    if s == [] then []
    else StripStars(s[..|s| - 1]) + (if s[|s| - 1] == '*' then [] else [s[|s| - 1]])
  }

  /** The number of `*` characters in the name (`std::count`). */
  function CountStars(s: string): (k: nat)
    ensures k + |StripStars(s)| == |s|
  {
    if s == [] then 0
    else CountStars(s[..|s| - 1]) + (if s[|s| - 1] == '*' then 1 else 0)
  }

  /** The scalar the constructor registers as `int`. */
  const IntType: Type := Base("int")

  /** The scalar the constructor registers as `void`. */
  const VoidType: Type := Base("void")

  /** The table the constructor builds. */
  function Builtins(): map<string, Type>
  {
    map["int" := IntType, "void" := VoidType]
  }

  /** What `get(name)` returns for a table holding `named`. */
  function Lookup(named: map<string, Type>, name: string): TypeId
  {
    var realName := StripStars(name);
    if realName !in named then None else Some(PtrTo(named[realName], CountStars(name)))
  }

  class TypeLibrary {
    var namedTypes: map<string, Type>

    /** Registration (`add`) is not part of this model, so the table keeps its initial contents. */
    ghost predicate Valid()
      reads this
    {
      namedTypes == Builtins()
    }

    constructor ()
      ensures Valid()
      ensures namedTypes.Keys == {"int", "void"}
      ensures namedTypes["int"] == Base("int") && namedTypes["void"] == Base("void")
    {
      var registered: map<string, Type> := map[];
      registered := Insert(registered, "int", IntType);
      registered := Insert(registered, "void", VoidType);
      namedTypes := registered;
    }

    /** `get`: invalid when the star-free name is unregistered, else the stored type under one
        pointer layer per star. It reads the table and never changes it. */
    method Get(name: string) returns (r: TypeId)
      ensures r.None? <==> StripStars(name) !in namedTypes
      ensures r.Some? ==> r.value == PtrTo(namedTypes[StripStars(name)], CountStars(name))
      ensures r == Lookup(namedTypes, name)
    {
      var realName: string := [];
      var refCount: nat := 0;
      var i := 0;
      while i < |name|
        invariant 0 <= i <= |name|
        invariant realName == StripStars(name[..i])
        invariant refCount == CountStars(name[..i])
      {
        assert name[..i + 1][..i] == name[..i];
        if name[i] == '*' {
          refCount := refCount + 1;
        } else {
          realName := realName + [name[i]];
        }
        i := i + 1;
      }
      assert name[..|name|] == name;
      if realName !in namedTypes {
        return None;
      }
      var t := namedTypes[realName];
      var j := 0;
      while j < refCount
        invariant 0 <= j <= refCount
        invariant t == PtrTo(namedTypes[realName], j)
      {
        t := t.GetRef();
        j := j + 1;
      }
      return Some(t);
    }
  }

  /** Erasing stars distributes over concatenation. */
  lemma {:induction false} StripStarsConcat(a: string, b: string)
    ensures StripStars(a + b) == StripStars(a) + StripStars(b)
    ensures CountStars(a + b) == CountStars(a) + CountStars(b)
    decreases |b|
  {
    if b != [] {
      var b' := b[..|b| - 1];
      assert (a + b)[..|a + b| - 1] == a + b';
      StripStarsConcat(a, b');
    } else {
      assert a + b == a;
    }
  }

  /** A name without stars is left as it is. */
  lemma {:induction false} StarFreeUnchanged(s: string)
    requires '*' !in s
    ensures StripStars(s) == s
    ensures CountStars(s) == 0
  {
    if s != [] {
      StarFreeUnchanged(s[..|s| - 1]);
      assert s[..|s| - 1] + [s[|s| - 1]] == s;
    }
  }

  /** Moving a `*` to the end of the name does not change the looked-up type: `get` depends
      only on the star-free name and the star count. */
  lemma MovingAStar(named: map<string, Type>, a: string, b: string)
    ensures Lookup(named, a + ['*'] + b) == Lookup(named, a + b + ['*'])
  {
    InsertStar(a, b);
    InsertStar(a + b, []);
    assert a + b + [] == a + b;
    assert a + b + ['*'] + [] == a + b + ['*'];
  }

  /** A `*` inserted anywhere is erased and counted once. */
  lemma InsertStar(a: string, b: string)
    ensures StripStars(a + ['*'] + b) == StripStars(a + b)
    ensures CountStars(a + ['*'] + b) == CountStars(a + b) + 1
  {
    var star: string := ['*'];
    LoneStar();
    var left := a + star;
    StripStarsConcat(a, star);
    assert StripStars(left) == StripStars(a);
    StripStarsConcat(left, b);
    StripStarsConcat(a, b);
  }

  lemma LoneStar()
    ensures StripStars(['*']) == [] && CountStars(['*']) == 1
  {
    var star: string := ['*'];
    assert star[..0] == [];
  }

  /** With no stars, `get` yields the registered instance itself. */
  lemma ZeroStarsIsStored(named: map<string, Type>, name: string)
    requires '*' !in name
    ensures Lookup(named, name) == if name in named then Some(named[name]) else None
  {
    StarFreeUnchanged(name);
  }

  /** Dereferencing `get(name)` once per star gives `get` of the star-free name. */
  lemma DerefGet(named: map<string, Type>, name: string)
    ensures DerefTimes(Lookup(named, name), CountStars(name)) == Lookup(named, StripStars(name))
  {
    var realName := StripStars(name);
    StarFreeUnchanged(realName);
    if realName in named {
      DerefPtrTo(named[realName], CountStars(name));
    }
  }

  /** `get("int")` on the initial table is the registered `int` scalar. */
  lemma GetInt()
    ensures Lookup(Builtins(), "int") == Some(IntType)
    ensures Lookup(Builtins(), "void") == Some(VoidType)
  {
    ZeroStarsIsStored(Builtins(), "int");
    ZeroStarsIsStored(Builtins(), "void");
  }
}
