/**
 * The type model of src/tcc/symbols/Type.cpp: a named scalar (`BaseType`), a pointer
 * (`PtrType`) and an array (`ArrayType`). Every derived type is an immutable value built
 * from its underlying type; `Type::invalid()`, the null `Type::Id`, is `None`.
 */
module Types {
  import opened Wrappers

  /** The C++ `int` that `ArrayType` stores as its size. */
  newtype int32 = x: int | -0x8000_0000 <= x < 0x8000_0000

  datatype Type =
    | Base(name: string)
    | Ptr(underlying: Type)
    | Array(underlying: Type, size: int32)
  {
    /** `getRef`: the pointer to this type. */
    function GetRef(): Type
    {
      Ptr(this)
    }

    /** `getArray(size)`: the array of `size` elements of this type. */
    function GetArray(size: int32): Type
    {
      Array(this, size)
    }

    predicate IsPtr()
    {
      match this
      case Ptr(_) => true
      case Array(_, _) => false
      case Base(_) => false
    }

    predicate IsArray()
    {
      match this
      case Ptr(_) => false
      case Array(_, _) => true
      case Base(_) => false
    }

    /** `getDeref`: the pointee of a pointer, invalid for every other variant. */
    function GetDeref(): Option<Type>
    {
      match this
      case Ptr(u) => Some(u)
      case Array(_, _) => None
      case Base(_) => None
    }

    /** `getIndexed`: the element type of an array, invalid for every other variant. */
    function GetIndexed(): Option<Type>
    {
      match this
      case Ptr(_) => None
      case Array(u, _) => Some(u)
      case Base(_) => None
    }

    function GetSize(): int32
    {
      match this
      case Ptr(_) => 1
      case Array(_, n) => n
      case Base(_) => 1
    }

    /** `getNamed`: the scalar at the bottom of all pointer and array layers. */
    function GetNamed(): (r: Type)
      ensures r.Base?
      ensures r.name == Innermost()
    {
      match this
      case Ptr(u) => u.GetNamed()
      case Array(u, _) => u.GetNamed()
      case Base(_) => this
    }

    /** The name of the scalar this type is built from. */
    function Innermost(): string
    {
      if Base? then name else underlying.Innermost()
    }
  }

  /** `Type::Id`: a shared pointer to a type, or null. */
  type TypeId = Option<Type>

  lemma RefDerefRoundTrip(t: Type)
    ensures t.GetRef().GetDeref() == Some(t)
    ensures t.GetRef().IsPtr() && !t.GetRef().IsArray()
  {
  }

  lemma ArrayIndexRoundTrip(t: Type, n: int32)
    ensures t.GetArray(n).GetIndexed() == Some(t)
    ensures t.GetArray(n).GetSize() == n
    ensures t.GetArray(n).IsArray() && !t.GetArray(n).IsPtr()
  {
  }

  /** Only a pointer can be dereferenced and only an array can be indexed. */
  lemma AccessorsInvalid(t: Type)
    ensures t.GetDeref().Some? <==> t.Ptr?
    ensures t.GetIndexed().Some? <==> t.Array?
    ensures t.GetDeref().Some? ==> t.GetDeref().value.GetRef() == t
    ensures t.GetIndexed().Some? ==> t.GetIndexed().value.GetArray(t.GetSize()) == t
  {
  }

  /** `isPtr` and `isArray` identify their variant, and no type is both. */
  lemma VariantTests(t: Type)
    ensures t.IsPtr() <==> t.Ptr?
    ensures t.IsArray() <==> t.Array?
    ensures !(t.IsPtr() && t.IsArray())
  {
  }

  lemma SizeRule(t: Type)
    ensures t.Array? ==> t.GetSize() == t.size
    ensures !t.Array? ==> t.GetSize() == 1
  {
  }

  /** Wrapping a type in a pointer or an array does not change its named scalar. */
  lemma NamedThroughLayers(t: Type, n: int32)
    ensures t.GetRef().GetNamed() == t.GetNamed()
    ensures t.GetArray(n).GetNamed() == t.GetNamed()
  {
  }

  /** `getNamed` is idempotent, and a scalar is its own named type. */
  lemma NamedIdempotent(t: Type)
    ensures t.GetNamed().GetNamed() == t.GetNamed()
    ensures t.Base? ==> t.GetNamed() == t
  {
  }

  /** The pointer `k` levels deep to `t`. */
  function PtrTo(t: Type, k: nat): (r: Type)
    ensures r.GetNamed() == t.GetNamed()
  {
    if k == 0 then t else PtrTo(t, k - 1).GetRef()
  }

  /** `getDeref` applied `k` times; invalid once a non-pointer is reached. */
  function DerefTimes(t: TypeId, k: nat): TypeId
    decreases k
  {
    if k == 0 || t.None? then t else DerefTimes(t.value.GetDeref(), k - 1)
  }

  /** Dereferencing a `k`-level pointer `k` times gives back the type it was built from. */
  lemma {:induction false} DerefPtrTo(t: Type, k: nat)
    ensures DerefTimes(Some(PtrTo(t, k)), k) == Some(t)
  {
    if k > 0 {
      DerefPtrToOuter(t, k);
      DerefPtrTo(t, k - 1);
    }
  }

  /** The outermost layer of `PtrTo(t, k)` is a pointer to `PtrTo(t, k - 1)`. */
  lemma {:induction false} DerefPtrToOuter(t: Type, k: nat)
    requires k > 0
    ensures DerefTimes(Some(PtrTo(t, k)), k) == DerefTimes(Some(PtrTo(t, k - 1)), k - 1)
  {
  }
}
