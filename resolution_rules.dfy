/**
 * What the first resolver pass, src/tcc/symbols/SymbolResolver.cpp, computes, as functions on
 * values: every visited node is linked to its innermost statement list and enclosing function,
 * parameters and local variables are declared, function records registered and binding
 * diagnostics collected. `SymbolResolution.SymbolResolver` is proved to compute `Resolved`.
 */
module ResolutionRules {
  import opened Wrappers
  import opened Maps
  import opened Types
  import opened TypeLib
  import opened FunctionLib
  import opened Asg

  /** One reported binding error, with the names the message prints. */
  datatype Diagnostic =
    | UndefinedReturnType(typeName: string, functionName: string)
    | UndefinedParameterType(typeName: string, functionName: string)
    | FunctionRedefinition(functionName: string)
    | VariableRedefined(variable: string)
    | UndefinedType(typeName: string, variable: string)
    | UndefinedVariable(variable: string)
    | UndefinedFunction(functionName: string)

  /** The kinds whose visit reads the innermost statement list (`code_blocks_.top()`). */
  predicate NeedsScope(k: Kind)
  {
    k.VariableDefinition? || k.Return? || k.Assignment? || k.AddSub? || k.MulDiv?
    || k.Variable? || k.Call? || k.IntLiteral?
  }

  /** The parameter types of a signature, `null` where a type name is unknown. */
  function ParameterTypes(named: map<string, Type>, ps: seq<Parameter>): (ts: seq<TypeId>)
    ensures |ts| == |ps|
  {
    seq(|ps|, i requires 0 <= i < |ps| => Lookup(named, ps[i].typeName))
  }

  /** The diagnostics of the parameter loop, in parameter order. */
  function ParameterDiagnostics(named: map<string, Type>, ps: seq<Parameter>, functionName: string): seq<Diagnostic>
  {
    if ps == [] then []
    else
      var last := ps[|ps| - 1];
      ParameterDiagnostics(named, ps[..|ps| - 1], functionName)
      + (if Lookup(named, last.typeName).None? then [UndefinedParameterType(last.typeName, functionName)] else [])
  }

  /** The function body's scope after the parameters were inserted in order. */
  function Declared(m: map<string, TypeId>, named: map<string, Type>, ps: seq<Parameter>): map<string, TypeId>
  {
    if ps == [] then m
    else
      var last := ps[|ps| - 1];
      Insert(Declared(m, named, ps[..|ps| - 1]), last.name, Lookup(named, last.typeName))
  }

  /** The record a function definition registers. */
  function Signature(named: map<string, Type>, name: string, returnType: string, ps: seq<Parameter>): Function
  {
    Function(name, Lookup(named, returnType), ParameterTypes(named, ps))
  }

  /** One more parameter: its type is appended, its diagnostic (if any) reported last, and its
      name inserted into the scope. */
  lemma ParameterStep(named: map<string, Type>, ps: seq<Parameter>, i: nat, functionName: string, m: map<string, TypeId>)
    requires i < |ps|
    ensures ParameterTypes(named, ps[..i + 1]) == ParameterTypes(named, ps[..i]) + [Lookup(named, ps[i].typeName)]
    ensures ParameterDiagnostics(named, ps[..i + 1], functionName)
            == ParameterDiagnostics(named, ps[..i], functionName)
               + (if Lookup(named, ps[i].typeName).None? then [UndefinedParameterType(ps[i].typeName, functionName)] else [])
    ensures Declared(m, named, ps[..i + 1]) == Insert(Declared(m, named, ps[..i]), ps[i].name, Lookup(named, ps[i].typeName))
  {
    assert ps[..i + 1][..i] == ps[..i];
  }

  /** The diagnostics a node reports itself, before its children are visited, given the type
      table, the innermost scope and the function table at that point. */
  function OwnDiagnostics(k: Kind, named: map<string, Type>, scope: map<string, TypeId>,
                          table: map<string, Function>): seq<Diagnostic>
  {
    match k
    case FunctionDefinition(name, returnType, ps, _) =>
      (if Lookup(named, returnType).None? then [UndefinedReturnType(returnType, name)] else [])
      + ParameterDiagnostics(named, ps, name)
      + (if name in table then [FunctionRedefinition(name)] else [])
    case VariableDefinition(typeName, name, _) =>
      (if name in scope then [VariableRedefined(name)] else [])
      + (if Lookup(named, typeName).None? then [UndefinedType(typeName, name)] else [])
    case Assignment(name, _, _) => if name in scope then [] else [UndefinedVariable(name)]
    case Variable(name) => if name in scope then [] else [UndefinedVariable(name)]
    case Call(functionName, _) => if functionName in table then [] else [UndefinedFunction(functionName)]
    case _ => []
  }

  /** When a node is free of binding errors, stated independently of the diagnostic list. */
  predicate Clean(k: Kind, named: map<string, Type>, scope: map<string, TypeId>, table: map<string, Function>)
  {
    match k
    case FunctionDefinition(name, returnType, ps, _) =>
      && Lookup(named, returnType).Some?
      && (forall i | 0 <= i < |ps| :: Lookup(named, ps[i].typeName).Some?)
      && name !in table
    case VariableDefinition(typeName, name, _) => name !in scope && Lookup(named, typeName).Some?
    case Assignment(name, _, _) => name in scope
    case Variable(name) => name in scope
    case Call(functionName, _) => functionName in table
    case _ => true
  }

  /** What the pass writes: diagnostics, the current function, per-node links, records and
      scopes, and the function table. */
  datatype Written = Written(
    errors: seq<Diagnostic>,
    currentFunction: Option<NodeId>,
    parent: seq<Option<NodeId>>,
    enclosingFunction: seq<Option<NodeId>>,
    signature: seq<Option<Function>>,
    localVariables: seq<map<string, TypeId>>,
    table: map<string, Function>)

  /** What the pass reads and never changes: the tree's shape and the type table. */
  datatype Context = Context(kinds: seq<Kind>, list: seq<Option<NodeId>>, named: map<string, Type>)

  /** Every per-node array of `s` has one entry per node. */
  predicate Fits(s: Written, size: nat)
  {
    |s.parent| == size && |s.enclosingFunction| == size && |s.signature| == size && |s.localVariables| == size
  }

  /** What a visit of `n` needs: a tree, room for every node, a block stack of nodes, and an open
      statement list unless `n` is a list or a function definition. */
  predicate Ready(c: Context, blocks: seq<NodeId>, s: Written, n: NodeId)
  {
    && Structured(c.kinds, c.list) && n < |c.kinds| && Fits(s, |c.kinds|)
    && (forall i | 0 <= i < |blocks| :: blocks[i] < |c.kinds|)
    && (blocks != [] || !NeedsScope(c.kinds[n]))
  }

  /** The innermost statement list (`code_blocks_.top()`). */
  function Top(blocks: seq<NodeId>): NodeId
    requires blocks != []
  {
    blocks[|blocks| - 1]
  }

  /** The innermost scope's variables, empty outside any statement list. */
  function Scope(s: Written, blocks: seq<NodeId>): map<string, TypeId>
  {
    if blocks == [] || Top(blocks) >= |s.localVariables| then map[] else s.localVariables[Top(blocks)]
  }

  /** `n` linked to the innermost statement list and the current function, and the
      diagnostics `found` reported. */
  function Checked(s: Written, blocks: seq<NodeId>, n: NodeId, found: seq<Diagnostic>): Written
    requires blocks != [] && n < |s.parent| && n < |s.enclosingFunction|
  {
    s.(errors := s.errors + found,
       parent := s.parent[n := Some(Top(blocks))],
       enclosingFunction := s.enclosingFunction[n := s.currentFunction])
  }

  /** A statement list linked to the enclosing one, if any, and to the current function. */
  function Opened(s: Written, blocks: seq<NodeId>, n: NodeId): Written
    requires n < |s.parent| && n < |s.enclosingFunction|
  {
    s.(parent := if blocks == [] then s.parent else s.parent[n := Some(Top(blocks))],
       enclosingFunction := s.enclosingFunction[n := s.currentFunction])
  }

  /** The state in which the body of function definition `n` is visited: its diagnostics
      reported, its parameters declared in the body's scope, its record registered unless the
      name is taken, and `n` the current function. */
  function Entered(c: Context, s: Written, n: NodeId): Written
    requires Structured(c.kinds, c.list) && n < |c.kinds| && Fits(s, |c.kinds|) && c.kinds[n].FunctionDefinition?
  {
    assert NodeIn(c.kinds, c.list, n);
    var FunctionDefinition(name, returnType, parameters, body) := c.kinds[n];
    var record := Signature(c.named, name, returnType, parameters);
    s.(errors := s.errors
         + (if Lookup(c.named, returnType).None? then [UndefinedReturnType(returnType, name)] else [])
         + ParameterDiagnostics(c.named, parameters, name)
         + (if name in s.table then [FunctionRedefinition(name)] else []),
       localVariables := s.localVariables[body := Declared(s.localVariables[body], c.named, parameters)],
       signature := s.signature[n := if name in s.table then None else Some(record)],
       table := Registration(s.table, record),
       currentFunction := Some(n))
  }

  /** The state after variable definition `n` is linked, checked and declared in the innermost
      scope, before its initializer is visited. */
  function Defined(c: Context, blocks: seq<NodeId>, s: Written, n: NodeId): Written
    requires n < |c.kinds| && Fits(s, |c.kinds|) && c.kinds[n].VariableDefinition?
    requires blocks != [] && Top(blocks) < |c.kinds|
  {
    var VariableDefinition(typeName, name, _) := c.kinds[n];
    var top := Top(blocks);
    var t := Lookup(c.named, typeName);
    var linked := Checked(s, blocks, n,
      (if name in s.localVariables[top] then [VariableRedefined(name)] else [])
      + (if t.None? then [UndefinedType(typeName, name)] else []));
    linked.(localVariables := s.localVariables[top := Insert(s.localVariables[top], name, t)])
  }

  /** The kinds the pass has no visit for. */
  predicate Unvisited(k: Kind)
  {
    k.StructDefinition? || k.Conditional? || k.Loop? || k.Comp? || k.FieldAccess? || k.Indexing?
    || k.OpDeref? || k.OpRef?
  }

  /** The state after visiting `n` from state `s` with `blocks` open. */
  function Resolved(c: Context, blocks: seq<NodeId>, s: Written, n: NodeId): (r: Written)
    requires Ready(c, blocks, s, n)
    ensures Fits(r, |c.kinds|)
    decreases |c.kinds| - n, 1, 0
  {
    assert NodeIn(c.kinds, c.list, n);
    match c.kinds[n]
    case StatementList(statements) =>
      ResolvedAll(c, blocks + [n], Opened(s, blocks, n), n, statements)
    case FunctionDefinition(_, _, _, body) =>
      Resolved(c, blocks, Entered(c, s, n), body).(currentFunction := None)
    case VariableDefinition(_, _, initializer) =>
      var declared := Defined(c, blocks, s, n);
      if initializer.Some? then Resolved(c, blocks, declared, initializer.value) else declared
    case Return(value) =>
      Resolved(c, blocks, Checked(s, blocks, n, []), value)
    case Assignment(name, _, value) =>
      var found := if name in s.localVariables[Top(blocks)] then [] else [UndefinedVariable(name)];
      Resolved(c, blocks, Checked(s, blocks, n, found), value)
    case AddSub(terms) =>
      ResolvedAll(c, blocks, Checked(s, blocks, n, []), n, Expressions(terms))
    case MulDiv(factors) =>
      ResolvedAll(c, blocks, Checked(s, blocks, n, []), n, Expressions(factors))
    case Variable(name) =>
      Checked(s, blocks, n, if name in s.localVariables[Top(blocks)] then [] else [UndefinedVariable(name)])
    case Call(functionName, arguments) =>
      var found := if functionName in s.table then [] else [UndefinedFunction(functionName)];
      ResolvedAll(c, blocks, Checked(s, blocks, n, found), n, arguments)
    case IntLiteral(_) =>
      Checked(s, blocks, n, [])
    case _ => s
  }

  /** The state after visiting the children `cs` of `n` in order. */
  function ResolvedAll(c: Context, blocks: seq<NodeId>, s: Written, n: NodeId, cs: seq<NodeId>): (r: Written)
    requires Structured(c.kinds, c.list) && n < |c.kinds| && Fits(s, |c.kinds|)
    requires (forall i | 0 <= i < |blocks| :: blocks[i] < |c.kinds|) && blocks != []
    requires forall i | 0 <= i < |cs| :: n < cs[i] < |c.kinds|
    ensures Fits(r, |c.kinds|)
    decreases |c.kinds| - n, 0, |cs|
  {
    if cs == [] then s
    else Resolved(c, blocks, ResolvedAll(c, blocks, s, n, cs[..|cs| - 1]), cs[|cs| - 1])
  }

  /** From `a` to `b` the pass only added: earlier diagnostics stay first, nodes before `n`
      keep their links and records, and every scope and the function table keep their
      bindings. */
  predicate Extended(a: Written, b: Written, n: nat)
  {
    && a.errors <= b.errors
    && |b.parent| == |a.parent| && |b.enclosingFunction| == |a.enclosingFunction|
    && |b.signature| == |a.signature| && |b.localVariables| == |a.localVariables|
    && (forall i | 0 <= i < n && i < |a.parent| :: b.parent[i] == a.parent[i])
    && (forall i | 0 <= i < n && i < |a.enclosingFunction| :: b.enclosingFunction[i] == a.enclosingFunction[i])
    && (forall i | 0 <= i < n && i < |a.signature| :: b.signature[i] == a.signature[i])
    && (forall l | 0 <= l < |a.localVariables| :: Extends(a.localVariables[l], b.localVariables[l]))
    && Extends(a.table, b.table)
  }

  /** `Extended`, and the current function is kept or cleared. */
  predicate Grows(a: Written, b: Written, n: nat)
  {
    Extended(a, b, n) && (b.currentFunction == a.currentFunction || b.currentFunction == None)
  }

  lemma ExtendedTransitive(a: Written, b: Written, c: Written, n: nat)
    requires Extended(a, b, n) && Extended(b, c, n)
    ensures Extended(a, c, n)
  {
  }

  lemma GrowsTransitive(a: Written, b: Written, c: Written, n: nat)
    requires Grows(a, b, n) && Grows(b, c, n)
    ensures Grows(a, c, n)
  {
    ExtendedTransitive(a, b, c, n);
  }

  lemma CheckedGrows(s: Written, blocks: seq<NodeId>, n: NodeId, found: seq<Diagnostic>)
    requires blocks != [] && n < |s.parent| && n < |s.enclosingFunction|
    ensures Grows(s, Checked(s, blocks, n, found), n)
  {
  }

  lemma OpenedGrows(s: Written, blocks: seq<NodeId>, n: NodeId)
    requires n < |s.parent| && n < |s.enclosingFunction|
    ensures Grows(s, Opened(s, blocks, n), n)
  {
  }

  lemma EnteredExtends(c: Context, s: Written, n: NodeId)
    requires Structured(c.kinds, c.list) && n < |c.kinds| && Fits(s, |c.kinds|) && c.kinds[n].FunctionDefinition?
    ensures Extended(s, Entered(c, s, n), n)
  {
    assert NodeIn(c.kinds, c.list, n);
    var FunctionDefinition(_, _, parameters, body) := c.kinds[n];
    DeclaredExtends(s.localVariables[body], c.named, parameters);
  }

  lemma DefinedGrows(c: Context, blocks: seq<NodeId>, s: Written, n: NodeId)
    requires n < |c.kinds| && Fits(s, |c.kinds|) && c.kinds[n].VariableDefinition?
    requires blocks != [] && Top(blocks) < |c.kinds|
    ensures Grows(s, Defined(c, blocks, s, n), n)
  {
  }

  /** A visit only adds: it keeps earlier diagnostics, earlier nodes' links and records, and
      every binding; it keeps or clears the current function; and a kind the pass has no visit
      for changes nothing. */
  lemma {:induction false} ResolvedGrows(c: Context, blocks: seq<NodeId>, s: Written, n: NodeId)
    requires Ready(c, blocks, s, n)
    ensures Grows(s, Resolved(c, blocks, s, n), n)
    ensures Unvisited(c.kinds[n]) ==> Resolved(c, blocks, s, n) == s
    decreases |c.kinds| - n, 1, 1
  {
    var k := c.kinds[n];
    if k.StatementList? {
      ListGrows(c, blocks, s, n);
    } else if k.FunctionDefinition? {
      FunctionGrows(c, blocks, s, n);
    } else if k.VariableDefinition? {
      VariableGrows(c, blocks, s, n);
    } else if NeedsScope(k) {
      CheckedKindGrows(c, blocks, s, n);
    } else {
      assert Resolved(c, blocks, s, n) == s;
    }
  }

  lemma {:induction false} ListGrows(c: Context, blocks: seq<NodeId>, s: Written, n: NodeId)
    requires Ready(c, blocks, s, n) && c.kinds[n].StatementList?
    ensures Grows(s, Resolved(c, blocks, s, n), n)
    decreases |c.kinds| - n, 1, 0
  {
    assert NodeIn(c.kinds, c.list, n);
    var linked := Opened(s, blocks, n);
    OpenedGrows(s, blocks, n);
    ResolvedAllGrows(c, blocks + [n], linked, n, c.kinds[n].statements);
    GrowsTransitive(s, linked, Resolved(c, blocks, s, n), n);
  }

  lemma {:induction false} FunctionGrows(c: Context, blocks: seq<NodeId>, s: Written, n: NodeId)
    requires Ready(c, blocks, s, n) && c.kinds[n].FunctionDefinition?
    ensures Grows(s, Resolved(c, blocks, s, n), n)
    decreases |c.kinds| - n, 1, 0
  {
    assert NodeIn(c.kinds, c.list, n);
    var entered := Entered(c, s, n);
    EnteredExtends(c, s, n);
    ResolvedGrows(c, blocks, entered, c.kinds[n].body);
    ExtendedTransitive(s, entered, Resolved(c, blocks, entered, c.kinds[n].body), n);
  }

  lemma {:induction false} VariableGrows(c: Context, blocks: seq<NodeId>, s: Written, n: NodeId)
    requires Ready(c, blocks, s, n) && c.kinds[n].VariableDefinition?
    ensures Grows(s, Resolved(c, blocks, s, n), n)
    decreases |c.kinds| - n, 1, 0
  {
    assert NodeIn(c.kinds, c.list, n);
    var declared := Defined(c, blocks, s, n);
    DefinedGrows(c, blocks, s, n);
    if c.kinds[n].initializer.Some? {
      ResolvedGrows(c, blocks, declared, c.kinds[n].initializer.value);
      GrowsTransitive(s, declared, Resolved(c, blocks, s, n), n);
    }
  }

  lemma {:induction false} CheckedKindGrows(c: Context, blocks: seq<NodeId>, s: Written, n: NodeId)
    requires Ready(c, blocks, s, n) && NeedsScope(c.kinds[n]) && !c.kinds[n].VariableDefinition?
    ensures Grows(s, Resolved(c, blocks, s, n), n)
    decreases |c.kinds| - n, 1, 0
  {
    assert NodeIn(c.kinds, c.list, n);
    match c.kinds[n]
    case Return(value) =>
      StepGrows(c, blocks, s, n, [], [value]);
    case Assignment(name, _, value) =>
      StepGrows(c, blocks, s, n, if name in s.localVariables[Top(blocks)] then [] else [UndefinedVariable(name)], [value]);
    case AddSub(terms) =>
      StepGrows(c, blocks, s, n, [], Expressions(terms));
    case MulDiv(factors) =>
      StepGrows(c, blocks, s, n, [], Expressions(factors));
    case Variable(name) =>
      CheckedGrows(s, blocks, n, if name in s.localVariables[Top(blocks)] then [] else [UndefinedVariable(name)]);
    case Call(functionName, arguments) =>
      StepGrows(c, blocks, s, n, if functionName in s.table then [] else [UndefinedFunction(functionName)], arguments);
    case IntLiteral(_) =>
      CheckedGrows(s, blocks, n, []);
  }

  /** Linking and checking `n`, then visiting its children, only adds. */
  lemma {:induction false} StepGrows(c: Context, blocks: seq<NodeId>, s: Written, n: NodeId, found: seq<Diagnostic>, cs: seq<NodeId>)
    requires Structured(c.kinds, c.list) && n < |c.kinds| && Fits(s, |c.kinds|)
    requires (forall i | 0 <= i < |blocks| :: blocks[i] < |c.kinds|) && blocks != []
    requires forall i | 0 <= i < |cs| :: n < cs[i] < |c.kinds|
    ensures Grows(s, ResolvedAll(c, blocks, Checked(s, blocks, n, found), n, cs), n)
    ensures |cs| == 1 ==> (Resolved(c, blocks, Checked(s, blocks, n, found), cs[0])
                           == ResolvedAll(c, blocks, Checked(s, blocks, n, found), n, cs))
    decreases |c.kinds| - n, 0, |cs| + 1
  {
    var checked := Checked(s, blocks, n, found);
    CheckedGrows(s, blocks, n, found);
    ResolvedAllGrows(c, blocks, checked, n, cs);
    GrowsTransitive(s, checked, ResolvedAll(c, blocks, checked, n, cs), n);
    if |cs| == 1 {
      assert cs[..0] == [];
    }
  }

  /** Visiting the children of `n` only adds, and keeps `n` and every earlier node as they were. */
  lemma {:induction false} ResolvedAllGrows(c: Context, blocks: seq<NodeId>, s: Written, n: NodeId, cs: seq<NodeId>)
    requires Structured(c.kinds, c.list) && n < |c.kinds| && Fits(s, |c.kinds|)
    requires (forall i | 0 <= i < |blocks| :: blocks[i] < |c.kinds|) && blocks != []
    requires forall i | 0 <= i < |cs| :: n < cs[i] < |c.kinds|
    ensures Grows(s, ResolvedAll(c, blocks, s, n, cs), n + 1)
    decreases |c.kinds| - n, 0, |cs|
  {
    if cs != [] {
      var before := ResolvedAll(c, blocks, s, n, cs[..|cs| - 1]);
      ResolvedAllGrows(c, blocks, s, n, cs[..|cs| - 1]);
      ResolvedGrows(c, blocks, before, cs[|cs| - 1]);
      GrowsTransitive(s, before, ResolvedAll(c, blocks, s, n, cs), n + 1);
    }
  }

  /** Declaring parameters keeps every earlier binding of the body's scope. */
  lemma {:induction false} DeclaredExtends(m: map<string, TypeId>, named: map<string, Type>, ps: seq<Parameter>)
    ensures Extends(m, Declared(m, named, ps))
    decreases |ps|
  {
    if ps != [] {
      DeclaredExtends(m, named, ps[..|ps| - 1]);
    }
  }

  /** A node's own diagnostics are reported right after the earlier ones and before any of its
      children's; the innermost scope and the function table are those the visit starts from. */
  lemma OwnDiagnosticsReported(c: Context, blocks: seq<NodeId>, s: Written, n: NodeId)
    requires Ready(c, blocks, s, n)
    ensures s.errors + OwnDiagnostics(c.kinds[n], c.named, Scope(s, blocks), s.table)
            <= Resolved(c, blocks, s, n).errors
  {
    var k := c.kinds[n];
    if k.StatementList? || Unvisited(k) {
      ResolvedGrows(c, blocks, s, n);
      assert s.errors + OwnDiagnostics(k, c.named, Scope(s, blocks), s.table) == s.errors;
    } else if k.FunctionDefinition? {
      EnteredOwnReported(c, blocks, s, n);
    } else if k.VariableDefinition? {
      DefinedOwnReported(c, blocks, s, n);
    } else {
      CheckedOwnReported(c, blocks, s, n);
    }
  }

  lemma EnteredOwnReported(c: Context, blocks: seq<NodeId>, s: Written, n: NodeId)
    requires Ready(c, blocks, s, n) && c.kinds[n].FunctionDefinition?
    ensures s.errors + OwnDiagnostics(c.kinds[n], c.named, Scope(s, blocks), s.table)
            <= Resolved(c, blocks, s, n).errors
  {
    assert NodeIn(c.kinds, c.list, n);
    var entered := Entered(c, s, n);
    assert entered.errors == s.errors + OwnDiagnostics(c.kinds[n], c.named, Scope(s, blocks), s.table);
    ResolvedGrows(c, blocks, entered, c.kinds[n].body);
  }

  lemma DefinedOwnReported(c: Context, blocks: seq<NodeId>, s: Written, n: NodeId)
    requires Ready(c, blocks, s, n) && c.kinds[n].VariableDefinition?
    ensures s.errors + OwnDiagnostics(c.kinds[n], c.named, Scope(s, blocks), s.table)
            <= Resolved(c, blocks, s, n).errors
  {
    assert NodeIn(c.kinds, c.list, n);
    assert Scope(s, blocks) == s.localVariables[Top(blocks)];
    var declared := Defined(c, blocks, s, n);
    assert declared.errors == s.errors + OwnDiagnostics(c.kinds[n], c.named, Scope(s, blocks), s.table);
    if c.kinds[n].initializer.Some? {
      ResolvedGrows(c, blocks, declared, c.kinds[n].initializer.value);
    }
  }

  lemma CheckedOwnReported(c: Context, blocks: seq<NodeId>, s: Written, n: NodeId)
    requires Ready(c, blocks, s, n) && NeedsScope(c.kinds[n]) && !c.kinds[n].VariableDefinition?
    ensures s.errors + OwnDiagnostics(c.kinds[n], c.named, Scope(s, blocks), s.table)
            <= Resolved(c, blocks, s, n).errors
  {
    assert NodeIn(c.kinds, c.list, n);
    assert Scope(s, blocks) == s.localVariables[Top(blocks)];
    match c.kinds[n]
    case Return(value) =>
      StepGrows(c, blocks, s, n, [], [value]);
    case Assignment(name, _, value) =>
      ResolvedGrows(c, blocks, Checked(s, blocks, n, if name in s.localVariables[Top(blocks)] then [] else [UndefinedVariable(name)]), value);
    case AddSub(terms) =>
      StepGrows(c, blocks, s, n, [], Expressions(terms));
    case MulDiv(factors) =>
      StepGrows(c, blocks, s, n, [], Expressions(factors));
    case Variable(name) =>
    case Call(functionName, arguments) =>
      var found := if functionName in s.table then [] else [UndefinedFunction(functionName)];
      CheckedGrows(s, blocks, n, found);
      ResolvedAllGrows(c, blocks, Checked(s, blocks, n, found), n, arguments);
    case IntLiteral(_) =>
  }

  /** Every node the pass visits, except a function definition, is linked to the innermost
      statement list (the root list keeps no parent) and to the current function; other nodes
      keep their links. */
  lemma ResolvedLinks(c: Context, blocks: seq<NodeId>, s: Written, n: NodeId)
    requires Ready(c, blocks, s, n)
    ensures var r := Resolved(c, blocks, s, n);
      && (NeedsScope(c.kinds[n]) ==> r.parent[n] == Some(Top(blocks)) && r.enclosingFunction[n] == s.currentFunction)
      && (c.kinds[n].StatementList? ==>
            && r.parent[n] == (if blocks == [] then s.parent[n] else Some(Top(blocks)))
            && r.enclosingFunction[n] == s.currentFunction)
      && (!NeedsScope(c.kinds[n]) && !c.kinds[n].StatementList? ==>
            r.parent[n] == s.parent[n] && r.enclosingFunction[n] == s.enclosingFunction[n])
  {
    assert NodeIn(c.kinds, c.list, n);
    var k := c.kinds[n];
    if k.StatementList? {
      ResolvedAllGrows(c, blocks + [n], Opened(s, blocks, n), n, k.statements);
    } else if k.FunctionDefinition? {
      ResolvedGrows(c, blocks, Entered(c, s, n), k.body);
    } else if k.VariableDefinition? {
      if k.initializer.Some? {
        ResolvedGrows(c, blocks, Defined(c, blocks, s, n), k.initializer.value);
      }
    } else if NeedsScope(k) {
      CheckedLinks(c, blocks, s, n);
    } else {
      ResolvedGrows(c, blocks, s, n);
    }
  }

  lemma CheckedLinks(c: Context, blocks: seq<NodeId>, s: Written, n: NodeId)
    requires Ready(c, blocks, s, n) && NeedsScope(c.kinds[n]) && !c.kinds[n].VariableDefinition?
    ensures Resolved(c, blocks, s, n).parent[n] == Some(Top(blocks))
    ensures Resolved(c, blocks, s, n).enclosingFunction[n] == s.currentFunction
  {
    assert NodeIn(c.kinds, c.list, n);
    match c.kinds[n]
    case Return(value) =>
      ResolvedGrows(c, blocks, Checked(s, blocks, n, []), value);
    case Assignment(name, _, value) =>
      ResolvedGrows(c, blocks, Checked(s, blocks, n, if name in s.localVariables[Top(blocks)] then [] else [UndefinedVariable(name)]), value);
    case AddSub(terms) =>
      ResolvedAllGrows(c, blocks, Checked(s, blocks, n, []), n, Expressions(terms));
    case MulDiv(factors) =>
      ResolvedAllGrows(c, blocks, Checked(s, blocks, n, []), n, Expressions(factors));
    case Variable(name) =>
    case Call(functionName, arguments) =>
      ResolvedAllGrows(c, blocks, Checked(s, blocks, n, if functionName in s.table then [] else [UndefinedFunction(functionName)]), n, arguments);
    case IntLiteral(_) =>
  }

  /** After a function definition: no function is current, the definition holds its record
      exactly when the name was free, the table keeps the first registration of the name, and
      the body's scope holds the declared parameters. */
  lemma FunctionDefinitionResolved(c: Context, blocks: seq<NodeId>, s: Written, n: NodeId)
    requires Ready(c, blocks, s, n) && c.kinds[n].FunctionDefinition?
    ensures var k := c.kinds[n];
      var record := Signature(c.named, k.name, k.returnType, k.parameters);
      var r := Resolved(c, blocks, s, n);
      && k.body < |c.kinds|
      && r.currentFunction == None
      && r.signature[n] == (if k.name in s.table then None else Some(record))
      && Extends(Registration(s.table, record), r.table)
      && Extends(Declared(s.localVariables[k.body], c.named, k.parameters), r.localVariables[k.body])
  {
    assert NodeIn(c.kinds, c.list, n);
    ResolvedGrows(c, blocks, Entered(c, s, n), c.kinds[n].body);
  }

  /** After a variable definition the innermost scope holds the name, bound to its declared
      type unless the name was already bound there. */
  lemma VariableDefinitionResolved(c: Context, blocks: seq<NodeId>, s: Written, n: NodeId)
    requires Ready(c, blocks, s, n) && c.kinds[n].VariableDefinition?
    ensures var k := c.kinds[n];
      Extends(Insert(s.localVariables[Top(blocks)], k.name, Lookup(c.named, k.typeName)),
              Resolved(c, blocks, s, n).localVariables[Top(blocks)])
  {
    assert NodeIn(c.kinds, c.list, n);
    if c.kinds[n].initializer.Some? {
      ResolvedGrows(c, blocks, Defined(c, blocks, s, n), c.kinds[n].initializer.value);
    }
  }

  /** The parameter loop reports nothing exactly when every parameter type is known. */
  lemma {:induction false} ParameterDiagnosticsEmpty(named: map<string, Type>, ps: seq<Parameter>, functionName: string)
    ensures ParameterDiagnostics(named, ps, functionName) == []
            <==> forall i | 0 <= i < |ps| :: Lookup(named, ps[i].typeName).Some?
    decreases |ps|
  {
    if ps != [] {
      var init := ps[..|ps| - 1];
      ParameterDiagnosticsEmpty(named, init, functionName);
      assert forall i | 0 <= i < |init| :: init[i] == ps[i];
    }
  }

  /** A node reports no diagnostic of its own exactly when it is clean. */
  lemma SilentIffClean(k: Kind, named: map<string, Type>, scope: map<string, TypeId>, table: map<string, Function>)
    ensures OwnDiagnostics(k, named, scope, table) == [] <==> Clean(k, named, scope, table)
  {
    if k.FunctionDefinition? {
      ParameterDiagnosticsEmpty(named, k.parameters, k.name);
    }
  }

  /** A visit that ends without diagnostics started without any, and its node is clean. */
  lemma ErrorFreeVisitIsClean(c: Context, blocks: seq<NodeId>, s: Written, n: NodeId)
    requires Ready(c, blocks, s, n) && Resolved(c, blocks, s, n).errors == []
    ensures s.errors == [] && Clean(c.kinds[n], c.named, Scope(s, blocks), s.table)
  {
    OwnDiagnosticsReported(c, blocks, s, n);
    SilentIffClean(c.kinds[n], c.named, Scope(s, blocks), s.table);
  }

  /** Declaring parameters binds every parameter name and nothing else new. */
  lemma {:induction false} DeclaredKeys(m: map<string, TypeId>, named: map<string, Type>, ps: seq<Parameter>)
    ensures Declared(m, named, ps).Keys == m.Keys + (set p | p in ps :: p.name)
    decreases |ps|
  {
    if ps != [] {
      var init := ps[..|ps| - 1];
      DeclaredKeys(m, named, init);
      assert ps == init + [ps[|ps| - 1]];
      assert (set p | p in ps :: p.name) == (set p | p in init :: p.name) + {ps[|ps| - 1].name};
    }
  }

  /** A name first declared by parameter `i`, and not bound before, is bound to that
      parameter's type: a later parameter of the same name does not replace it. */
  lemma {:induction false} DeclaredFirstBinding(m: map<string, TypeId>, named: map<string, Type>, ps: seq<Parameter>, i: nat)
    requires i < |ps| && ps[i].name !in m
    requires forall j | 0 <= j < i :: ps[j].name != ps[i].name
    ensures ps[i].name in Declared(m, named, ps)
    ensures Declared(m, named, ps)[ps[i].name] == Lookup(named, ps[i].typeName)
    decreases |ps|
  {
    var init := ps[..|ps| - 1];
    var last := ps[|ps| - 1];
    if i == |ps| - 1 {
      DeclaredKeys(m, named, init);
      forall p | p in init ensures p.name != last.name {
        var j :| 0 <= j < |init| && init[j] == p;
        assert ps[j] == p;
      }
    } else {
      assert init[i] == ps[i];
      DeclaredFirstBinding(m, named, init, i);
    }
  }
}
