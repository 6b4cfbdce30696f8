/**
 * The first resolver pass, src/tcc/symbols/SymbolResolver.cpp, as an object that walks the
 * tree and writes into it: each visit is proved to leave exactly the state that
 * `ResolutionRules.Resolved` describes, so the properties proved there hold of the pass.
 */
module SymbolResolution {
  import opened Wrappers
  import opened Maps
  import opened Types
  import opened TypeLib
  import opened FunctionLib
  import opened Asg
  import opened ResolutionRules

  class SymbolResolver {
    /** The statement lists being visited, innermost last (`code_blocks_`). */
    var codeBlocks: seq<NodeId>
    var currentFunction: Option<NodeId>
    var errors: seq<Diagnostic>
    /** `TypeLibrary::inst()` and `FunctionLibrary::inst()`. */
    const types: TypeLibrary
    const functions: FunctionLibrary

    constructor (types: TypeLibrary, functions: FunctionLibrary)
      ensures this.types == types && this.functions == functions
      ensures codeBlocks == [] && currentFunction == None && errors == []
    {
      this.types := types;
      this.functions := functions;
      codeBlocks := [];
      currentFunction := None;
      errors := [];
    }

    /** What the pass reads: the tree's shape and the type table. */
    function Input(asg: Tree): Context
      reads asg, types
    {
      Context(asg.kinds, asg.list, types.namedTypes)
    }

    /** Everything the pass writes, read off the resolver, the tree and the function table. */
    function State(asg: Tree): Written
      reads this, asg, functions
    {
      Written(errors, currentFunction, asg.parent, asg.enclosingFunction, asg.signature,
              asg.localVariables, functions.namedFunctions)
    }

    /** What a visit of `n` needs: a well-formed tree and function table, and an open statement
        list unless `n` is a list or a function definition. */
    ghost predicate CanVisit(asg: Tree, n: NodeId)
      reads this, asg, types, functions
    {
      asg.Valid() && functions.Valid() && Ready(Input(asg), codeBlocks, State(asg), n)
    }

    /** `resolve(root)`: visits the tree and succeeds exactly when no diagnostic was reported. */
    method Resolve(asg: Tree, root: NodeId) returns (ok: bool)
      requires CanVisit(asg, root)
      modifies this, asg`parent, asg`enclosingFunction, asg`localVariables, asg`signature, functions
      ensures State(asg) == Resolved(Input(asg), old(codeBlocks), old(State(asg)), root)
      ensures ok <==> errors == []
    {
      Visit(asg, root);
      ok := errors == [];
    }

    /** `accept`: dispatch on the node's kind. The pass has no visit for conditionals, loops,
        comparisons, indexing, dereference, address-of, field access or struct definitions. */
    method Visit(asg: Tree, n: NodeId)
      requires CanVisit(asg, n)
      modifies this, asg`parent, asg`enclosingFunction, asg`localVariables, asg`signature, functions
      ensures asg.Valid() && functions.Valid() && codeBlocks == old(codeBlocks)
      ensures State(asg) == Resolved(Input(asg), old(codeBlocks), old(State(asg)), n)
      decreases |asg.kinds| - n, 2
    {
      match asg.kinds[n] {
        case StatementList(_) => VisitStatementList(asg, n);
        case FunctionDefinition(_, _, _, _) => VisitFunctionDefinition(asg, n);
        case VariableDefinition(_, _, _) => VisitVariableDefinition(asg, n);
        case Return(_) => VisitReturn(asg, n);
        case Assignment(_, _, _) => VisitAssignment(asg, n);
        case AddSub(_) => VisitChain(asg, n);
        case MulDiv(_) => VisitChain(asg, n);
        case Variable(_) => VisitVariable(asg, n);
        case Call(_, _) => VisitCall(asg, n);
        case IntLiteral(_) => VisitIntLiteral(asg, n);
        case StructDefinition =>
        case Conditional(_, _, _) =>
        case Loop(_, _) =>
        case Comp(_, _, _) =>
        case FieldAccess(_) =>
        case Indexing(_, _) =>
        case OpDeref(_, _) =>
        case OpRef(_) =>
      }
    }

    /** Links the list to the enclosing one, opens it as the innermost scope, visits each
        statement in order and closes it again. */
    method VisitStatementList(asg: Tree, n: NodeId)
      requires CanVisit(asg, n) && asg.kinds[n].StatementList?
      modifies this, asg`parent, asg`enclosingFunction, asg`localVariables, asg`signature, functions
      ensures asg.Valid() && functions.Valid() && codeBlocks == old(codeBlocks)
      ensures State(asg) == Resolved(Input(asg), old(codeBlocks), old(State(asg)), n)
      decreases |asg.kinds| - n, 1
    {
      assert NodeIn(asg.kinds, asg.list, n);
      if codeBlocks != [] {
        asg.parent := asg.parent[n := Some(codeBlocks[|codeBlocks| - 1])];
      }
      codeBlocks := codeBlocks + [n];
      asg.enclosingFunction := asg.enclosingFunction[n := currentFunction];
      assert State(asg) == Opened(old(State(asg)), old(codeBlocks), n);
      VisitAll(asg, n, asg.kinds[n].statements);
      codeBlocks := codeBlocks[..|codeBlocks| - 1];
      assert codeBlocks == old(codeBlocks);
    }

    /** The parameter loop of a function definition: resolves each parameter type, reports the
        unknown ones and declares each parameter in the body's scope. */
    method DeclareParameters(asg: Tree, body: NodeId, parameters: seq<Parameter>, functionName: string)
      returns (paramTypes: seq<TypeId>)
      requires asg.Valid() && body < |asg.kinds|
      modifies this`errors, asg`localVariables
      ensures asg.Valid()
      ensures paramTypes == ParameterTypes(types.namedTypes, parameters)
      ensures errors == old(errors) + ParameterDiagnostics(types.namedTypes, parameters, functionName)
      ensures asg.localVariables == old(asg.localVariables)[body := Declared(old(asg.localVariables[body]), types.namedTypes, parameters)]
    {
      paramTypes := [];
      ghost var named := types.namedTypes;
      ghost var scope := asg.localVariables[body];
      var i := 0;
      while i < |parameters|
        invariant 0 <= i <= |parameters| && |asg.localVariables| == |asg.kinds|
        invariant paramTypes == ParameterTypes(named, parameters[..i])
        invariant errors == old(errors) + ParameterDiagnostics(named, parameters[..i], functionName)
        invariant asg.localVariables == old(asg.localVariables)[body := Declared(scope, named, parameters[..i])]
      {
        ParameterStep(named, parameters, i, functionName, scope);
        var t := DeclareParameter(asg, body, parameters[i], functionName);
        paramTypes := paramTypes + [t];
        i := i + 1;
      }
      assert parameters[..i] == parameters;
    }

    /** One round of the parameter loop. */
    method DeclareParameter(asg: Tree, body: NodeId, parameter: Parameter, functionName: string)
      returns (t: TypeId)
      requires body < |asg.localVariables|
      modifies this`errors, asg`localVariables
      ensures t == Lookup(types.namedTypes, parameter.typeName)
      ensures errors == old(errors) + (if t.None? then [UndefinedParameterType(parameter.typeName, functionName)] else [])
      ensures asg.localVariables == old(asg.localVariables)[body := Insert(old(asg.localVariables[body]), parameter.name, t)]
    {
      t := types.Get(parameter.typeName);
      if t.None? {
        errors := errors + [UndefinedParameterType(parameter.typeName, functionName)];
      }
      asg.AddListLocalVar(body, parameter.name, t);
    }

    /** Visits a function definition: its record is built and registered, its parameters are
        declared in the body's scope, and the body is visited with the function as the current
        one. */
    method VisitFunctionDefinition(asg: Tree, n: NodeId)
      requires CanVisit(asg, n) && asg.kinds[n].FunctionDefinition?
      modifies this, asg`parent, asg`enclosingFunction, asg`localVariables, asg`signature, functions
      ensures asg.Valid() && functions.Valid() && codeBlocks == old(codeBlocks)
      ensures State(asg) == Resolved(Input(asg), old(codeBlocks), old(State(asg)), n)
      decreases |asg.kinds| - n, 1
    {
      assert NodeIn(asg.kinds, asg.list, n);
      EnterFunction(asg, n);
      Visit(asg, asg.kinds[n].body);
      currentFunction := None;
    }

    /** Everything a function definition does before its body is visited: the signature is
        resolved, the record registered (a taken name is reported) and the function becomes
        the current one. */
    method EnterFunction(asg: Tree, n: NodeId)
      requires asg.Valid() && functions.Valid() && n < |asg.kinds| && asg.kinds[n].FunctionDefinition?
      modifies this`errors, this`currentFunction, asg`localVariables, asg`signature, functions
      ensures asg.Valid() && functions.Valid()
      ensures State(asg) == Entered(Input(asg), old(State(asg)), n)
    {
      var record := ResolveSignature(asg, n);
      var added := functions.Add(record);
      asg.signature := asg.signature[n := if added then Some(record) else None];
      if !added {
        errors := errors + [FunctionRedefinition(asg.kinds[n].name)];
      }
      currentFunction := Some(n);
    }

    /** Builds the record of function definition `n`: the return type and each parameter type
        are resolved and reported when unknown, and the parameters are declared in the body's
        scope. */
    method ResolveSignature(asg: Tree, n: NodeId) returns (record: Function)
      requires asg.Valid() && n < |asg.kinds| && asg.kinds[n].FunctionDefinition?
      modifies this`errors, asg`localVariables
      ensures asg.Valid() && asg.kinds[n].body < |asg.kinds|
      ensures var FunctionDefinition(name, returnType, parameters, body) := asg.kinds[n];
        && record == Signature(types.namedTypes, name, returnType, parameters)
        && errors == old(errors)
             + (if Lookup(types.namedTypes, returnType).None? then [UndefinedReturnType(returnType, name)] else [])
             + ParameterDiagnostics(types.namedTypes, parameters, name)
        && asg.localVariables == old(asg.localVariables)[body := Declared(old(asg.localVariables[body]), types.namedTypes, parameters)]
    {
      var FunctionDefinition(name, returnType, parameters, body) := asg.kinds[n];
      assert NodeIn(asg.kinds, asg.list, n);
      var retType := types.Get(returnType);
      if retType.None? {
        errors := errors + [UndefinedReturnType(returnType, name)];
      }
      var paramTypes := DeclareParameters(asg, body, parameters, name);
      record := Function(name, retType, paramTypes);
    }

    /** Declares the variable in the innermost scope (an existing binding is kept and
        reported) and visits its initializer. */
    method VisitVariableDefinition(asg: Tree, n: NodeId)
      requires CanVisit(asg, n) && asg.kinds[n].VariableDefinition?
      modifies this, asg`parent, asg`enclosingFunction, asg`localVariables, asg`signature, functions
      ensures asg.Valid() && functions.Valid() && codeBlocks == old(codeBlocks)
      ensures State(asg) == Resolved(Input(asg), old(codeBlocks), old(State(asg)), n)
      decreases |asg.kinds| - n, 1
    {
      assert NodeIn(asg.kinds, asg.list, n);
      DefineVariable(asg, n);
      if asg.kinds[n].initializer.Some? {
        Visit(asg, asg.kinds[n].initializer.value);
      }
    }

    /** A variable definition before its initializer: linked, reported when the innermost
        scope already binds the name or the type is unknown, and declared there. */
    method DefineVariable(asg: Tree, n: NodeId)
      requires asg.Valid() && n < |asg.kinds| && asg.kinds[n].VariableDefinition?
      requires codeBlocks != [] && codeBlocks[|codeBlocks| - 1] < |asg.kinds|
      modifies this`errors, asg`parent, asg`enclosingFunction, asg`localVariables
      ensures asg.Valid()
      ensures State(asg) == Defined(Input(asg), codeBlocks, old(State(asg)), n)
    {
      var VariableDefinition(typeName, name, _) := asg.kinds[n];
      var top := codeBlocks[|codeBlocks| - 1];
      asg.enclosingFunction := asg.enclosingFunction[n := currentFunction];
      asg.parent := asg.parent[n := Some(top)];
      var redefined: seq<Diagnostic> := if name in asg.localVariables[top] then [VariableRedefined(name)] else [];
      errors := errors + redefined;
      var t := types.Get(typeName);
      var untyped: seq<Diagnostic> := if t.None? then [UndefinedType(typeName, name)] else [];
      errors := errors + untyped;
      asg.AddListLocalVar(top, name, t);
      assert errors == old(errors) + (redefined + untyped);
    }

    method VisitReturn(asg: Tree, n: NodeId)
      requires CanVisit(asg, n) && asg.kinds[n].Return?
      modifies this, asg`parent, asg`enclosingFunction, asg`localVariables, asg`signature, functions
      ensures asg.Valid() && functions.Valid() && codeBlocks == old(codeBlocks)
      ensures State(asg) == Resolved(Input(asg), old(codeBlocks), old(State(asg)), n)
      decreases |asg.kinds| - n, 1
    {
      assert NodeIn(asg.kinds, asg.list, n);
      asg.enclosingFunction := asg.enclosingFunction[n := currentFunction];
      asg.parent := asg.parent[n := Some(codeBlocks[|codeBlocks| - 1])];
      assert State(asg) == Checked(old(State(asg)), codeBlocks, n, []);
      Visit(asg, asg.kinds[n].value);
    }

    /** Reports an assigned name the innermost scope does not declare, then visits the value;
        the assigned expression itself is not visited. */
    method VisitAssignment(asg: Tree, n: NodeId)
      requires CanVisit(asg, n) && asg.kinds[n].Assignment?
      modifies this, asg`parent, asg`enclosingFunction, asg`localVariables, asg`signature, functions
      ensures asg.Valid() && functions.Valid() && codeBlocks == old(codeBlocks)
      ensures State(asg) == Resolved(Input(asg), old(codeBlocks), old(State(asg)), n)
      decreases |asg.kinds| - n, 1
    {
      assert NodeIn(asg.kinds, asg.list, n);
      var top := codeBlocks[|codeBlocks| - 1];
      asg.enclosingFunction := asg.enclosingFunction[n := currentFunction];
      asg.parent := asg.parent[n := Some(top)];
      var undefined: seq<Diagnostic> := if asg.kinds[n].name in asg.localVariables[top] then [] else [UndefinedVariable(asg.kinds[n].name)];
      errors := errors + undefined;
      assert State(asg) == Checked(old(State(asg)), codeBlocks, n, undefined);
      Visit(asg, asg.kinds[n].value);
    }

    /** Add/sub and mul/div chains: visits each operand in order. */
    method VisitChain(asg: Tree, n: NodeId)
      requires CanVisit(asg, n) && (asg.kinds[n].AddSub? || asg.kinds[n].MulDiv?)
      modifies this, asg`parent, asg`enclosingFunction, asg`localVariables, asg`signature, functions
      ensures asg.Valid() && functions.Valid() && codeBlocks == old(codeBlocks)
      ensures State(asg) == Resolved(Input(asg), old(codeBlocks), old(State(asg)), n)
      decreases |asg.kinds| - n, 1
    {
      assert NodeIn(asg.kinds, asg.list, n);
      asg.enclosingFunction := asg.enclosingFunction[n := currentFunction];
      asg.parent := asg.parent[n := Some(codeBlocks[|codeBlocks| - 1])];
      assert State(asg) == Checked(old(State(asg)), codeBlocks, n, []);
      var operands := if asg.kinds[n].AddSub? then Expressions(asg.kinds[n].terms) else Expressions(asg.kinds[n].factors);
      VisitAll(asg, n, operands);
    }

    /** Reports a name the innermost scope does not declare. */
    method VisitVariable(asg: Tree, n: NodeId)
      requires CanVisit(asg, n) && asg.kinds[n].Variable?
      modifies this, asg`parent, asg`enclosingFunction
      ensures asg.Valid() && codeBlocks == old(codeBlocks)
      ensures State(asg) == Resolved(Input(asg), old(codeBlocks), old(State(asg)), n)
    {
      var top := codeBlocks[|codeBlocks| - 1];
      asg.enclosingFunction := asg.enclosingFunction[n := currentFunction];
      asg.parent := asg.parent[n := Some(top)];
      if asg.kinds[n].name !in asg.localVariables[top] {
        errors := errors + [UndefinedVariable(asg.kinds[n].name)];
      }
    }

    /** Reports a callee name the function table does not hold, then visits the arguments. */
    method VisitCall(asg: Tree, n: NodeId)
      requires CanVisit(asg, n) && asg.kinds[n].Call?
      modifies this, asg`parent, asg`enclosingFunction, asg`localVariables, asg`signature, functions
      ensures asg.Valid() && functions.Valid() && codeBlocks == old(codeBlocks)
      ensures State(asg) == Resolved(Input(asg), old(codeBlocks), old(State(asg)), n)
      decreases |asg.kinds| - n, 1
    {
      assert NodeIn(asg.kinds, asg.list, n);
      asg.enclosingFunction := asg.enclosingFunction[n := currentFunction];
      asg.parent := asg.parent[n := Some(codeBlocks[|codeBlocks| - 1])];
      var callee := functions.Get(asg.kinds[n].functionName);
      var undefined: seq<Diagnostic> := if callee.None? then [UndefinedFunction(asg.kinds[n].functionName)] else [];
      errors := errors + undefined;
      assert State(asg) == Checked(old(State(asg)), codeBlocks, n, undefined);
      VisitAll(asg, n, asg.kinds[n].arguments);
    }

    method VisitIntLiteral(asg: Tree, n: NodeId)
      requires CanVisit(asg, n) && asg.kinds[n].IntLiteral?
      modifies asg`parent, asg`enclosingFunction
      ensures asg.Valid()
      ensures State(asg) == Resolved(Input(asg), old(codeBlocks), old(State(asg)), n)
    {
      asg.enclosingFunction := asg.enclosingFunction[n := currentFunction];
      asg.parent := asg.parent[n := Some(codeBlocks[|codeBlocks| - 1])];
      assert errors == old(errors) + [];
    }

    /** Visits the children `cs` of `n` in order. */
    method VisitAll(asg: Tree, n: NodeId, cs: seq<NodeId>)
      requires asg.Valid() && functions.Valid() && n < |asg.kinds|
      requires forall i | 0 <= i < |cs| :: n < cs[i] < |asg.kinds|
      requires forall i | 0 <= i < |codeBlocks| :: codeBlocks[i] < |asg.kinds|
      requires codeBlocks != []
      modifies this, asg`parent, asg`enclosingFunction, asg`localVariables, asg`signature, functions
      ensures asg.Valid() && functions.Valid() && codeBlocks == old(codeBlocks)
      ensures State(asg) == ResolvedAll(Input(asg), codeBlocks, old(State(asg)), n, cs)
      decreases |asg.kinds| - n, 0
    {
      var i := 0;
      while i < |cs|
        invariant 0 <= i <= |cs|
        invariant asg.Valid() && functions.Valid() && codeBlocks == old(codeBlocks)
        invariant State(asg) == ResolvedAll(Input(asg), codeBlocks, old(State(asg)), n, cs[..i])
      {
        Visit(asg, cs[i]);
        assert cs[..i + 1][..i] == cs[..i];
        i := i + 1;
      }
      assert cs[..i] == cs;
    }
  }
}
