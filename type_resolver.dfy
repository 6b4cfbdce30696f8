/**
 * The second resolver pass, src/tcc/symbols/TypeResolver.cpp, as an object that walks the
 * tree, stamps `exprType` on the expressions it types and clears `ok` on a mismatch. Each
 * visit is proved to return the type and leave the state that `TypingRules.Typing` gives,
 * so the typing rules proved there hold of the pass.
 */
module TypeResolution {
  import opened Wrappers
  import opened Types
  import opened TypeLib
  import opened Asg
  import opened TypingRules

  class TypeResolver {
    /** `ok_`: cleared by the first failed check and never set again. */
    var ok: bool
    /** `TypeLibrary::inst()`. */
    const types: TypeLibrary
    /** `Type::isSame`. */
    const same: (TypeId, TypeId) -> bool

    constructor (types: TypeLibrary, same: (TypeId, TypeId) -> bool)
      ensures this.types == types && this.same == same && ok
    {
      this.types := types;
      this.same := same;
      ok := true;
    }

    /** What the pass reads: the resolved tree, the type table and `isSame`. */
    function Input(asg: Tree): Env
      reads asg, types
    {
      Env(asg.View(), types.namedTypes, same)
    }

    /** What the pass writes: the tree's `exprType` and `ok`. */
    function State(asg: Tree): Typed
      reads this, asg
    {
      Typed(asg.exprType, ok)
    }

    /** `modify(data)`: anything but a node gives nothing back; a node is visited and given
        back exactly when every check passed. */
    method Modify(asg: Tree, data: Option<NodeId>) returns (result: Option<NodeId>)
      requires asg.Valid() && (data.Some? ==> data.value < |asg.kinds|)
      modifies this`ok, asg`exprType
      ensures asg.Valid()
      ensures data.None? ==> result.None? && State(asg) == old(State(asg))
      ensures data.Some? ==> State(asg) == Typing(Input(asg), old(State(asg)), data.value).state
      ensures data.Some? ==> (result == data <==> ok) && (result.None? <==> !ok)
      ensures data.Some? && !old(ok) ==> result.None?
    {
      if data.None? {
        return None;
      }
      var root := data.value;
      TypingLater(Input(asg), State(asg), root);
      var _ := Visit(asg, root);
      if ok {
        return Some(root);
      }
      return None;
    }

    /** `accept`: dispatch on the node's kind. The pass types neither struct definitions nor
        field accesses. */
    method Visit(asg: Tree, n: NodeId) returns (t: TypeId)
      requires asg.Valid() && n < |asg.kinds|
      modifies this`ok, asg`exprType
      ensures asg.Valid()
      ensures Outcome(State(asg), t) == Typing(Input(asg), old(State(asg)), n)
      decreases |asg.kinds| - n, 2
    {
      match asg.kinds[n] {
        case StatementList(_) => t := VisitStatementList(asg, n);
        case StructDefinition => t := None;
        case FunctionDefinition(_, _, _, _) => t := VisitFunctionDefinition(asg, n);
        case VariableDefinition(_, _, _) => t := VisitVariableDefinition(asg, n);
        case Return(_) => t := VisitReturn(asg, n);
        case Assignment(_, _, _) => t := VisitAssignment(asg, n);
        case Conditional(_, _, _) => t := VisitConditional(asg, n);
        case Loop(_, _) => t := VisitLoop(asg, n);
        case Comp(_, _, _) => t := VisitComp(asg, n);
        case AddSub(_) => t := VisitArithmetic(asg, n);
        case MulDiv(_) => t := VisitArithmetic(asg, n);
        case FieldAccess(_) => t := None;
        case Indexing(_, _) => t := VisitIndexing(asg, n);
        case OpDeref(_, _) => t := VisitOpDeref(asg, n);
        case OpRef(_) => t := VisitOpRef(asg, n);
        case Variable(_) => t := VisitVariable(asg, n);
        case Call(_, _) => t := VisitCall(asg, n);
        case IntLiteral(_) => t := VisitIntLiteral(asg, n);
      }
    }

    /** Visits each statement in order. */
    method VisitStatementList(asg: Tree, n: NodeId) returns (t: TypeId)
      requires asg.Valid() && n < |asg.kinds| && asg.kinds[n].StatementList?
      modifies this`ok, asg`exprType
      ensures asg.Valid()
      ensures Outcome(State(asg), t) == Typing(Input(asg), old(State(asg)), n)
      decreases |asg.kinds| - n, 1
    {
      assert NodeIn(asg.kinds, asg.list, n);
      VisitStatements(asg, n, asg.kinds[n].statements);
      t := None;
    }

    /** Visits the body. */
    method VisitFunctionDefinition(asg: Tree, n: NodeId) returns (t: TypeId)
      requires asg.Valid() && n < |asg.kinds| && asg.kinds[n].FunctionDefinition?
      modifies this`ok, asg`exprType
      ensures asg.Valid()
      ensures Outcome(State(asg), t) == Typing(Input(asg), old(State(asg)), n)
      decreases |asg.kinds| - n, 1
    {
      assert NodeIn(asg.kinds, asg.list, n);
      var _ := Visit(asg, asg.kinds[n].body);
      t := None;
    }

    /** Checks an initial value against the declared type. */
    method VisitVariableDefinition(asg: Tree, n: NodeId) returns (t: TypeId)
      requires asg.Valid() && n < |asg.kinds| && asg.kinds[n].VariableDefinition?
      modifies this`ok, asg`exprType
      ensures asg.Valid()
      ensures Outcome(State(asg), t) == Typing(Input(asg), old(State(asg)), n)
      decreases |asg.kinds| - n, 1
    {
      assert NodeIn(asg.kinds, asg.list, n);
      var declared := types.Get(asg.kinds[n].typeName);
      var initializer := asg.kinds[n].initializer;
      if initializer.Some? {
        var valueType := Visit(asg, initializer.value);
        if !same(declared, valueType) {
          ok := false;
        }
      }
      t := None;
    }

    /** Checks the returned value against the enclosing function's return type; a return
        without an enclosing function record fails. */
    method VisitReturn(asg: Tree, n: NodeId) returns (t: TypeId)
      requires asg.Valid() && n < |asg.kinds| && asg.kinds[n].Return?
      modifies this`ok, asg`exprType
      ensures asg.Valid()
      ensures Outcome(State(asg), t) == Typing(Input(asg), old(State(asg)), n)
      decreases |asg.kinds| - n, 1
    {
      assert NodeIn(asg.kinds, asg.list, n);
      var f := asg.enclosingFunction[n];
      if f.None? || f.value >= |asg.signature| || asg.signature[f.value].None? {
        ok := false;
        return None;
      }
      var expected := asg.signature[f.value].value.returnType;
      var actual := Visit(asg, asg.kinds[n].value);
      if !same(actual, expected) {
        ok := false;
      }
      t := None;
    }

    /** Types the value, then the assignable, and requires them to be the same. */
    method VisitAssignment(asg: Tree, n: NodeId) returns (t: TypeId)
      requires asg.Valid() && n < |asg.kinds| && asg.kinds[n].Assignment?
      modifies this`ok, asg`exprType
      ensures asg.Valid()
      ensures Outcome(State(asg), t) == Typing(Input(asg), old(State(asg)), n)
      decreases |asg.kinds| - n, 1
    {
      assert NodeIn(asg.kinds, asg.list, n);
      var valueType := Visit(asg, asg.kinds[n].value);
      var assignableType := Visit(asg, asg.kinds[n].assignable);
      if !same(valueType, assignableType) {
        ok := false;
        return None;
      }
      asg.exprType := asg.exprType[n := valueType];
      t := valueType;
    }

    /** Visits the condition, the then branch and the else branch if any. */
    method VisitConditional(asg: Tree, n: NodeId) returns (t: TypeId)
      requires asg.Valid() && n < |asg.kinds| && asg.kinds[n].Conditional?
      modifies this`ok, asg`exprType
      ensures asg.Valid()
      ensures Outcome(State(asg), t) == Typing(Input(asg), old(State(asg)), n)
      decreases |asg.kinds| - n, 1
    {
      assert NodeIn(asg.kinds, asg.list, n);
      var k := asg.kinds[n];
      var _ := Visit(asg, k.condition);
      var _ := Visit(asg, k.thenNode);
      if k.elseNode.Some? {
        var _ := Visit(asg, k.elseNode.value);
      }
      t := None;
    }

    /** Visits the condition and the body. */
    method VisitLoop(asg: Tree, n: NodeId) returns (t: TypeId)
      requires asg.Valid() && n < |asg.kinds| && asg.kinds[n].Loop?
      modifies this`ok, asg`exprType
      ensures asg.Valid()
      ensures Outcome(State(asg), t) == Typing(Input(asg), old(State(asg)), n)
      decreases |asg.kinds| - n, 1
    {
      assert NodeIn(asg.kinds, asg.list, n);
      var _ := Visit(asg, asg.kinds[n].condition);
      var _ := Visit(asg, asg.kinds[n].body);
      t := None;
    }

    /** Requires both sides to be the same type; the comparison has type `int`. */
    method VisitComp(asg: Tree, n: NodeId) returns (t: TypeId)
      requires asg.Valid() && n < |asg.kinds| && asg.kinds[n].Comp?
      modifies this`ok, asg`exprType
      ensures asg.Valid()
      ensures Outcome(State(asg), t) == Typing(Input(asg), old(State(asg)), n)
      decreases |asg.kinds| - n, 1
    {
      assert NodeIn(asg.kinds, asg.list, n);
      var lhsType := Visit(asg, asg.kinds[n].lhs);
      var rhsType := Visit(asg, asg.kinds[n].rhs);
      if !same(lhsType, rhsType) {
        ok := false;
        return None;
      }
      var intType := types.Get("int");
      asg.exprType := asg.exprType[n := intType];
      t := intType;
    }

    /** An add/sub or mul/div chain: every operand must be `int`. */
    method VisitArithmetic(asg: Tree, n: NodeId) returns (t: TypeId)
      requires asg.Valid() && n < |asg.kinds| && (asg.kinds[n].AddSub? || asg.kinds[n].MulDiv?)
      modifies this`ok, asg`exprType
      ensures asg.Valid()
      ensures Outcome(State(asg), t) == Typing(Input(asg), old(State(asg)), n)
      decreases |asg.kinds| - n, 1
    {
      assert NodeIn(asg.kinds, asg.list, n);
      var k := asg.kinds[n];
      var cs := if k.AddSub? then Expressions(k.terms) else Expressions(k.factors);
      var stopped := VisitOperands(asg, n, cs, Ints);
      if stopped {
        return None;
      }
      var intType := types.Get("int");
      asg.exprType := asg.exprType[n := intType];
      t := intType;
    }

    /** The indexed expression must be an array, every index `int`, and each index strips one
        array layer. */
    method VisitIndexing(asg: Tree, n: NodeId) returns (t: TypeId)
      requires asg.Valid() && n < |asg.kinds| && asg.kinds[n].Indexing?
      modifies this`ok, asg`exprType
      ensures asg.Valid()
      ensures Outcome(State(asg), t) == Typing(Input(asg), old(State(asg)), n)
      decreases |asg.kinds| - n, 1
    {
      assert NodeIn(asg.kinds, asg.list, n);
      var indexes := asg.kinds[n].indexes;
      var indexedType := Visit(asg, asg.kinds[n].indexed);
      if indexedType.None? || !indexedType.value.IsArray() {
        ok := false;
        return None;
      }
      var stopped := VisitOperands(asg, n, indexes, Ints);
      if stopped {
        return None;
      }
      var element := StripArrayLayers(indexedType, |indexes|);
      if element.None? {
        ok := false;
        return None;
      }
      asg.exprType := asg.exprType[n := element.value];
      t := element.value;
    }

    /** Strips one pointer layer per `*`. */
    method VisitOpDeref(asg: Tree, n: NodeId) returns (t: TypeId)
      requires asg.Valid() && n < |asg.kinds| && asg.kinds[n].OpDeref?
      modifies this`ok, asg`exprType
      ensures asg.Valid()
      ensures Outcome(State(asg), t) == Typing(Input(asg), old(State(asg)), n)
      decreases |asg.kinds| - n, 1
    {
      assert NodeIn(asg.kinds, asg.list, n);
      var operand := Visit(asg, asg.kinds[n].expression);
      var pointee := StripPointerLayers(operand, asg.kinds[n].derefCount);
      if pointee.None? {
        ok := false;
        return None;
      }
      asg.exprType := asg.exprType[n := pointee.value];
      t := pointee.value;
    }

    /** Adds one pointer layer; an operand without a type fails. */
    method VisitOpRef(asg: Tree, n: NodeId) returns (t: TypeId)
      requires asg.Valid() && n < |asg.kinds| && asg.kinds[n].OpRef?
      modifies this`ok, asg`exprType
      ensures asg.Valid()
      ensures Outcome(State(asg), t) == Typing(Input(asg), old(State(asg)), n)
      decreases |asg.kinds| - n, 1
    {
      assert NodeIn(asg.kinds, asg.list, n);
      var operand := Visit(asg, asg.kinds[n].value);
      if operand.None? {
        ok := false;
        return None;
      }
      asg.exprType := asg.exprType[n := Some(operand.value.GetRef())];
      t := Some(operand.value.GetRef());
    }

    /** Takes the type of the nearest binding of the name; an unbound name stays untyped. */
    method VisitVariable(asg: Tree, n: NodeId) returns (t: TypeId)
      requires asg.Valid() && n < |asg.kinds| && asg.kinds[n].Variable?
      modifies this`ok, asg`exprType
      ensures asg.Valid()
      ensures Outcome(State(asg), t) == Typing(Input(asg), old(State(asg)), n)
      decreases |asg.kinds| - n, 1
    {
      var found := FindBinding(asg, asg.list[n], asg.kinds[n].name);
      if found.None? {
        return None;
      }
      asg.exprType := asg.exprType[n := found.value];
      t := found.value;
    }

    /** The arity must match and each argument must be the same type as its parameter; the
        call has the callee's return type. */
    method VisitCall(asg: Tree, n: NodeId) returns (t: TypeId)
      requires asg.Valid() && n < |asg.kinds| && asg.kinds[n].Call?
      modifies this`ok, asg`exprType
      ensures asg.Valid()
      ensures Outcome(State(asg), t) == Typing(Input(asg), old(State(asg)), n)
      decreases |asg.kinds| - n, 1
    {
      assert NodeIn(asg.kinds, asg.list, n);
      var arguments := asg.kinds[n].arguments;
      var f := asg.callee[n];
      if f.None? || |f.value.parameters| != |arguments| {
        ok := false;
        return None;
      }
      var stopped := VisitOperands(asg, n, arguments, Params(f.value.parameters));
      if stopped {
        return None;
      }
      asg.exprType := asg.exprType[n := f.value.returnType];
      t := f.value.returnType;
    }

    /** A literal has type `int`. */
    method VisitIntLiteral(asg: Tree, n: NodeId) returns (t: TypeId)
      requires asg.Valid() && n < |asg.kinds| && asg.kinds[n].IntLiteral?
      modifies this`ok, asg`exprType
      ensures asg.Valid()
      ensures Outcome(State(asg), t) == Typing(Input(asg), old(State(asg)), n)
      decreases |asg.kinds| - n, 1
    {
      var intType := types.Get("int");
      asg.exprType := asg.exprType[n := intType];
      t := intType;
    }

    /** Visits the statements `cs` of `n` in order. */
    method VisitStatements(asg: Tree, n: NodeId, cs: seq<NodeId>)
      requires asg.Valid() && n < |asg.kinds|
      requires forall i | 0 <= i < |cs| :: n < cs[i] < |asg.kinds|
      modifies this`ok, asg`exprType
      ensures asg.Valid()
      ensures State(asg) == Visited(Input(asg), old(State(asg)), n, cs)
      decreases |asg.kinds| - n, 0
    {
      var i := 0;
      while i < |cs|
        invariant 0 <= i <= |cs| && asg.Valid()
        invariant State(asg) == Visited(Input(asg), old(State(asg)), n, cs[..i])
      {
        var _ := Visit(asg, cs[i]);
        assert cs[..i + 1][..i] == cs[..i];
        i := i + 1;
      }
      assert cs[..i] == cs;
    }

    /** Visits the operands `cs` of `n` in order and stops, clearing `ok`, at the first whose
        type `rule` rejects: `int` for arithmetic and indexes, the parameter's type under
        `isSame` for call arguments. */
    method VisitOperands(asg: Tree, n: NodeId, cs: seq<NodeId>, rule: Expect) returns (stopped: bool)
      requires asg.Valid() && n < |asg.kinds|
      requires forall i | 0 <= i < |cs| :: n < cs[i] < |asg.kinds|
      modifies this`ok, asg`exprType
      ensures asg.Valid()
      ensures Run(State(asg), stopped) == Operands(Input(asg), old(State(asg)), n, cs, rule)
      decreases |asg.kinds| - n, 0
    {
      var intType := types.Get("int");
      var i := 0;
      while i < |cs|
        invariant 0 <= i <= |cs| && asg.Valid()
        invariant Run(State(asg), false) == Operands(Input(asg), old(State(asg)), n, cs[..i], rule)
      {
        var operandType := Visit(asg, cs[i]);
        assert cs[..i + 1][..i] == cs[..i];
        var accepted := match rule
          case Ints => operandType == intType
          case Params(ps) => i < |ps| && same(ps[i], operandType);
        if !accepted {
          ok := false;
          OperandsStopEarly(Input(asg), old(State(asg)), n, cs, rule, i + 1, |cs|);
          assert cs[..|cs|] == cs;
          return true;
        }
        i := i + 1;
      }
      assert cs[..i] == cs;
      stopped := false;
    }

    /** The indexing loop: strips `k` array layers, or gives `None` when a round meets an
        invalid type or a non-array. */
    method StripArrayLayers(t: TypeId, k: nat) returns (r: Option<TypeId>)
      ensures r == StripArrays(t, k)
      ensures t.Some? ==> (r.None? <==> k > ArrayDepth(t.value))
    {
      if t.Some? {
        StripArraysDepth(t.value, k);
      }
      var current := t;
      var i := 0;
      while i < k
        invariant 0 <= i <= k
        invariant StripArrays(current, k - i) == StripArrays(t, k)
      {
        if current.None? || !current.value.IsArray() {
          return None;
        }
        current := current.value.GetIndexed();
        i := i + 1;
      }
      r := Some(current);
    }

    /** The dereference loop: strips `k` pointer layers, or gives `None` when a round meets an
        invalid type or a non-pointer. */
    method StripPointerLayers(t: TypeId, k: nat) returns (r: Option<TypeId>)
      ensures r == StripPtrs(t, k)
      ensures t.Some? ==> (r.None? <==> k > PtrDepth(t.value))
      ensures t.Some? && k <= PtrDepth(t.value) ==> r == Some(DerefTimes(t, k))
    {
      if t.Some? {
        StripPtrsDepth(t.value, k);
      }
      var current := t;
      var i := 0;
      while i < k
        invariant 0 <= i <= k
        invariant StripPtrs(current, k - i) == StripPtrs(t, k)
      {
        if current.None? || !current.value.IsPtr() {
          return None;
        }
        current := current.value.GetDeref();
        i := i + 1;
      }
      r := Some(current);
    }

    /** The lookup loop of `visitVariable`: walks the `list` chain from `l` outward and gives
        the binding of `name` in the first statement list that has one. */
    method FindBinding(asg: Tree, l: Option<NodeId>, name: string) returns (found: Option<TypeId>)
      requires asg.Valid()
      ensures found == Nearest(asg.View(), l, name)
    {
      var current: Option<NodeId> := l;
      while current.Some? && current.value < |asg.kinds|
        invariant Nearest(asg.View(), current, name) == Nearest(asg.View(), l, name)
        decreases if current.Some? then current.value + 1 else 0
      {
        var scope := asg.localVariables[current.value];
        if name in scope {
          return Some(scope[name]);
        }
        assert NodeIn(asg.kinds, asg.list, current.value);
        current := asg.list[current.value];
      }
      found := None;
    }
  }
}
