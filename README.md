# TinyC symbol and type resolution, modelled in Dafny

This project models the middle of the TinyC compiler. That is the part between building the
abstract semantic graph (ASG) and emitting LLVM IR. It covers:

- **Types** (`types.dfy`). These are the scalar, pointer and array types of
  `src/tcc/symbols/Type.cpp`. Each is an immutable value, and the null `Type::Id` is `None`.
- **Type table** (`type_lib.dfy`). This is `TypeLibrary`. It holds `int` and `void`, and
  `get(name)` adds one pointer layer per `*` in the name.
- **Function table** (`function_lib.dfy`). This is `FunctionLibrary`, keyed by name. A second
  `add` under a name it already holds is refused.
- **The ASG** (`asg.dfy`). It is an arena: node `n` is index `n` of each per-node field.
  - Each node kind's `updateChild` is modelled.
  - `addLocalVar` is modelled, both on a node and on a statement list.
- **The symbol resolver** (`resolution_rules.dfy`, `symbol_resolver.dfy`). This is the first
  pass. It:
  - links each visited node to its innermost statement list and enclosing function;
  - declares parameters and local variables;
  - registers function records;
  - collects the binding diagnostics.
- **The type resolver** (`typing_rules.dfy`, `type_resolver.dfy`). This is the second pass. It
  stamps `exprType` on each expression it types, and it clears the sticky `ok` flag on the first
  failed check.

Each pass is an imperative class whose visit methods update the tree and the resolver in
place. Each visit is proved to leave exactly the state that a function on values describes:
`ResolutionRules.Resolved` for the first pass and `TypingRules.Typing` for the second. The
properties of the passes are proved as lemmas about those functions:

- the first pass only adds;
- diagnostics appear in order;
- a node reports no diagnostic of its own exactly when it is clean, and a visit that ends
  error-free started error-free with its node clean;
- the typing rules of arithmetic, indexing, dereference, address-of, calls and variables are
  proved as lemmas; the other kinds' rules are the branches of `TypingRules.Typing`;
- `ok` is never set again once cleared.

## Model

| member | source | states |
|---|---|---|
| Types.RefDerefRoundTrip | src/tcc/symbols/Type.cpp:74-95 | `getRef` builds a pointer, and `getDeref` of it gives the original type back |
| Types.ArrayIndexRoundTrip | src/tcc/symbols/Type.cpp:10-49 | `getArray(n)` builds an array that `getIndexed` undoes; its size is `n`, it is an array and not a pointer |
| Types.AccessorsInvalid | src/tcc/symbols/Type.cpp:28-165 | only a pointer dereferences and only an array indexes; every other variant gives the invalid type; `getRef`/`getArray` rebuild the original |
| Types.VariantTests | src/tcc/symbols/Type.cpp:22-159 | `isPtr` and `isArray` identify their variant, and no type is both |
| Types.SizeRule | src/tcc/symbols/Type.cpp:46-171 | an array's size is the stored size; pointers and scalars have size 1 |
| Types.Type.GetNamed | src/tcc/symbols/Type.cpp:52-177 | `getNamed` reaches the scalar at the bottom of all layers |
| Types.NamedThroughLayers | src/tcc/symbols/Type.cpp:115-118 | wrapping a type in a pointer or array keeps its named scalar |
| Types.NamedIdempotent | src/tcc/symbols/Type.cpp:174-177 | `getNamed` is idempotent and a scalar is its own named type |
| Types.DerefPtrTo | src/tcc/symbols/Type.cpp:74-95 | dereferencing a `k`-level pointer `k` times gives back the type it was built from |
| TypeLib.TypeLibrary.constructor | src/tcc/symbols/TypeLib.cpp:39-55 | the table starts with exactly `int` and `void`, two distinct scalars |
| TypeLib.TypeLibrary.Get | src/tcc/symbols/TypeLib.cpp:9-27 | `get` is invalid when the star-free name is unregistered, else the stored type under one pointer layer per `*` |
| TypeLib.StripStars | src/tcc/symbols/TypeLib.cpp:11-12 | the erased name holds no `*` and is no longer than the name |
| TypeLib.CountStars | src/tcc/symbols/TypeLib.cpp:14 | the star count plus the erased name's length is the name's length |
| TypeLib.StripStarsConcat | src/tcc/symbols/TypeLib.cpp:11-14 | erasing and counting stars distribute over concatenation |
| TypeLib.StarFreeUnchanged | src/tcc/symbols/TypeLib.cpp:11-14 | a name without `*` is kept as it is and has no stars |
| TypeLib.MovingAStar | src/tcc/symbols/TypeLib.cpp:9-27 | `int*x` and `intx*` style names look up the same type: a `*` may move to the end |
| TypeLib.InsertStar | src/tcc/symbols/TypeLib.cpp:11-14 | a `*` inserted anywhere is erased and counted once |
| TypeLib.ZeroStarsIsStored | src/tcc/symbols/TypeLib.cpp:16-20 | with no `*`, `get` gives the registered instance itself, or invalid |
| TypeLib.DerefGet | src/tcc/symbols/TypeLib.cpp:20-26 | dereferencing `get(name)` once per `*` gives `get` of the star-free name |
| TypeLib.GetInt | src/tcc/symbols/TypeLib.cpp:39-55 | on the initial table, `get("int")` and `get("void")` are the registered scalars |
| FunctionLib.FunctionLibrary.constructor | src/tcc/symbols/FunctionLib.cpp:7-13 | the table starts empty and keyed by name |
| FunctionLib.FunctionLibrary.Get | src/tcc/symbols/FunctionLib.cpp:16-22 | `get` is null exactly when no record was added under the name, else that record |
| FunctionLib.FunctionLibrary.Add | src/tcc/symbols/FunctionLib.cpp:25-32 | `add` succeeds exactly when the name is new; a refused add leaves the table untouched; the table stays keyed by name |
| FunctionLib.RegistrationFrame | src/tcc/symbols/FunctionLib.cpp:25-32 | adding a record leaves every other name's record as it was |
| FunctionLib.RegisterAllKeeps | src/tcc/symbols/FunctionLib.cpp:25-32 | a sequence of adds never overwrites a name the table held |
| FunctionLib.FirstRegistrationWins | src/tcc/symbols/FunctionLib.cpp:25-32 | the first record added under a fresh name is the one kept |
| FunctionLib.RegisterAllKeyedByName | src/tcc/symbols/FunctionLib.cpp:25-32 | adding records keeps every record stored under its own name |
| Asg.Tree.UpdateChild | src/tcc/asg/AsgNode.cpp:15-265 | `updateChild` changes only node `n`'s kind, to the kind with the matching slots swapped; the tree stays well formed when the new child is a later node and a function body is replaced by a statement list |
| Asg.UpdatedChildrenIn | src/tcc/asg/AsgNode.cpp:15-265 | swapping in a child inside the range keeps every slot inside it and keeps the node a statement list or a function definition exactly when it was one |
| Asg.UpdateKeepsStructure | src/tcc/asg/AsgNode.cpp:15-265 | `updateChild` keeps the tree well formed when the new child is a later node and a function body is replaced only by a statement list |
| Asg.Tree.AddListLocalVar | src/tcc/asg/AsgNode.cpp:25-28 | a statement list's `addLocalVar` is a map insert that keeps an existing binding; the tree stays well formed |
| Asg.Tree.AddLocalVar | src/tcc/asg/AsgNode.cpp:3-8 | a node's `addLocalVar` forwards to its enclosing list, an earlier node, and does nothing without one |
| Asg.ReplaceSlots | src/tcc/asg/AsgNode.cpp:15-23 | the statement loop resets every slot holding `from` and keeps the others |
| Asg.ReplaceOperands | src/tcc/asg/AsgNode.cpp:150-173 | the operand loop swaps matching expressions and keeps the operators |
| Asg.ReplacedSlots | src/tcc/asg/AsgNode.cpp:15-23 | list-shaped updates keep the length, reset each matching slot, keep every other slot, and leave no `from` behind |
| Asg.ReplacedOperandsKeepsOperators | src/tcc/asg/AsgNode.cpp:150-173 | add/sub and mul/div updates keep every operator and the operand order |
| Asg.UpdateNotAChild | src/tcc/asg/AsgNode.cpp:15-265 | a node none of whose slots holds `from` is unchanged by `updateChild` |
| Asg.UpdateChainReplacesFirst | src/tcc/asg/AsgNode.cpp:83-143 | assignment, conditional, loop and comparison replace only the first matching slot in declaration order, keeping name and operator |
| Asg.UpdateListReplacesAll | src/tcc/asg/AsgNode.cpp:150-256 | statement lists, chains and calls replace every matching slot and keep operators and the callee name |
| Asg.UpdateIndexing | src/tcc/asg/AsgNode.cpp:193-206 | indexing replaces the indexed expression alone when it matches, else every matching index |
| Asg.UpdateLeafIsNoOp | src/tcc/asg/AsgNode.cpp:35-37 | struct definitions, variables and literals have no slot, so `updateChild` leaves them unchanged |
| ResolutionRules.ParameterStep | src/tcc/symbols/SymbolResolver.cpp:51-59 | one more parameter appends its type, reports its unknown type last and inserts its name |
| ResolutionRules.ResolvedGrows | src/tcc/symbols/SymbolResolver.cpp:16-189 | a visit only adds: earlier diagnostics stay first, earlier nodes keep their links and records, every binding is kept, and unvisited kinds change nothing |
| ResolutionRules.ResolvedAllGrows | src/tcc/symbols/SymbolResolver.cpp:26-28 | visiting the children only adds, and keeps the parent and every earlier node |
| ResolutionRules.StepGrows | src/tcc/symbols/SymbolResolver.cpp:127-180 | linking and checking a node and then visiting its children only adds |
| ResolutionRules.EnteredExtends | src/tcc/symbols/SymbolResolver.cpp:38-67 | entering a function definition only adds diagnostics, records and bindings |
| ResolutionRules.DefinedGrows | src/tcc/symbols/SymbolResolver.cpp:79-91 | declaring a variable only adds |
| ResolutionRules.CheckedGrows | src/tcc/symbols/SymbolResolver.cpp:103-104 | linking a node to its list and function only adds |
| ResolutionRules.OpenedGrows | src/tcc/symbols/SymbolResolver.cpp:18-24 | opening a statement list only adds |
| ResolutionRules.DeclaredExtends | src/tcc/symbols/SymbolResolver.cpp:58 | declaring parameters keeps every earlier binding of the body's scope |
| ResolutionRules.OwnDiagnosticsReported | src/tcc/symbols/SymbolResolver.cpp:36-180 | a node's own diagnostics come right after the earlier ones and before its children's, computed from the scope and table it starts with |
| ResolutionRules.ResolvedLinks | src/tcc/symbols/SymbolResolver.cpp:18-24 | every visited node except a function definition is linked to the innermost list and the current function; a statement list is linked to the enclosing list when there is one, and the root list keeps the parent it had; other nodes keep their links |
| ResolutionRules.FunctionDefinitionResolved | src/tcc/symbols/SymbolResolver.cpp:36-74 | afterwards no function is current, the definition holds its record exactly when the name was free, the table keeps it, and the body's scope holds the parameters |
| ResolutionRules.VariableDefinitionResolved | src/tcc/symbols/SymbolResolver.cpp:77-98 | afterwards the innermost scope binds the name, to its declared type unless it was bound already |
| ResolutionRules.ParameterDiagnosticsEmpty | src/tcc/symbols/SymbolResolver.cpp:51-59 | the parameter loop reports nothing exactly when every parameter type is known |
| ResolutionRules.SilentIffClean | src/tcc/symbols/SymbolResolver.cpp:36-180 | a node reports nothing of its own exactly when its types are known, its names bound and its function name free |
| ResolutionRules.ErrorFreeVisitIsClean | src/tcc/symbols/SymbolResolver.cpp:9-13 | a visit ending without diagnostics started without any, and its node is clean |
| ResolutionRules.DeclaredKeys | src/tcc/symbols/SymbolResolver.cpp:51-59 | declaring parameters binds every parameter name and nothing else new |
| ResolutionRules.DeclaredFirstBinding | src/tcc/symbols/SymbolResolver.cpp:58 | a repeated parameter name keeps the type of its first occurrence |
| SymbolResolution.SymbolResolver.Resolve | src/tcc/symbols/SymbolResolver.cpp:9-13 | `resolve` leaves the state `Resolved` describes and succeeds exactly when no diagnostic was reported |
| SymbolResolution.SymbolResolver.Visit | src/tcc/symbols/SymbolResolver.cpp:16-189 | each visit leaves exactly the state `Resolved` describes and restores the block stack |
| SymbolResolution.SymbolResolver.VisitStatementList | src/tcc/symbols/SymbolResolver.cpp:16-33 | a list is linked to the enclosing one, opened, its statements visited in order, and closed |
| SymbolResolution.SymbolResolver.VisitFunctionDefinition | src/tcc/symbols/SymbolResolver.cpp:36-74 | the signature is resolved, the record registered, the body visited with the function current, and then no function is current |
| SymbolResolution.SymbolResolver.EnterFunction | src/tcc/symbols/SymbolResolver.cpp:38-67 | the state before the body is visited is `Entered` |
| SymbolResolution.SymbolResolver.ResolveSignature | src/tcc/symbols/SymbolResolver.cpp:38-59 | the record holds the resolved return and parameter types; unknown ones are reported in order; parameters are declared |
| SymbolResolution.SymbolResolver.DeclareParameters | src/tcc/symbols/SymbolResolver.cpp:51-59 | the loop yields `ParameterTypes`, reports `ParameterDiagnostics` and declares the parameters in order |
| SymbolResolution.SymbolResolver.DeclareParameter | src/tcc/symbols/SymbolResolver.cpp:52-58 | one parameter: its type is resolved, reported when unknown and inserted into the body's scope |
| SymbolResolution.SymbolResolver.VisitVariableDefinition | src/tcc/symbols/SymbolResolver.cpp:77-98 | the variable is declared and then its initializer visited |
| SymbolResolution.SymbolResolver.DefineVariable | src/tcc/symbols/SymbolResolver.cpp:79-91 | the variable is linked, reported when redefined or untyped, and declared in the innermost scope |
| SymbolResolution.SymbolResolver.VisitReturn | src/tcc/symbols/SymbolResolver.cpp:101-109 | a return is linked and its value visited |
| SymbolResolution.SymbolResolver.VisitAssignment | src/tcc/symbols/SymbolResolver.cpp:112-124 | an assignment is linked, reported when its name is unbound in the innermost scope, and its value visited |
| SymbolResolution.SymbolResolver.VisitChain | src/tcc/symbols/SymbolResolver.cpp:127-150 | an add/sub or mul/div chain is linked and its operands visited in order |
| SymbolResolution.SymbolResolver.VisitVariable | src/tcc/symbols/SymbolResolver.cpp:153-163 | a variable is linked and reported when unbound in the innermost scope |
| SymbolResolution.SymbolResolver.VisitCall | src/tcc/symbols/SymbolResolver.cpp:166-180 | a call is linked, reported when the callee is unregistered, and its arguments visited |
| SymbolResolution.SymbolResolver.VisitIntLiteral | src/tcc/symbols/SymbolResolver.cpp:183-189 | a literal is linked |
| SymbolResolution.SymbolResolver.VisitAll | src/tcc/symbols/SymbolResolver.cpp:26-28 | the children loop leaves the state `ResolvedAll` describes |
| TypingRules.TypingLater | src/tcc/symbols/TypeResolver.cpp:6-210 | a visit never sets `ok` again and keeps the types of earlier nodes; any type it returns is the one stamped on its node |
| TypingRules.OperandsLater | src/tcc/symbols/TypeResolver.cpp:101-199 | the operand loops never set `ok` again, keep the node and earlier ones, and clear `ok` when they stop |
| TypingRules.VisitedLater | src/tcc/symbols/TypeResolver.cpp:19-25 | visiting the statements never sets `ok` again and keeps the list and earlier nodes |
| TypingRules.OperandsStopIff | src/tcc/symbols/TypeResolver.cpp:101-199 | the operand loop runs to the end exactly when every operand's type is accepted |
| TypingRules.OperandsStopEarly | src/tcc/symbols/TypeResolver.cpp:104-108 | once an operand is rejected, no later operand is visited |
| TypingRules.StripPtrsDepth | src/tcc/symbols/TypeResolver.cpp:156-163 | dereferencing fails exactly when there are more rounds than pointer layers, else gives `getDeref` applied that many times |
| TypingRules.StripPtrsPtrTo | src/tcc/symbols/TypeResolver.cpp:156-163 | a `k`-level pointer dereferenced `k` times is the type it points to |
| TypingRules.StripArraysDepth | src/tcc/symbols/TypeResolver.cpp:140-146 | indexing fails exactly when there are more indexes than array layers |
| TypingRules.NearestIsFirstBinding | src/tcc/symbols/TypeResolver.cpp:175-186 | the lookup finds a binding exactly when some list on the chain binds the name, and it is the one in the first such list |
| TypingRules.ArithmeticRule | src/tcc/symbols/TypeResolver.cpp:101-123 | a chain has type `int` exactly when every operand has type `int`; otherwise it is untyped and `ok` is cleared |
| TypingRules.IndexingRule | src/tcc/symbols/TypeResolver.cpp:125-150 | indexing is typed exactly when the base is an array with enough layers and every index is `int`; the type is the base with one layer stripped per index; otherwise `ok` is cleared |
| TypingRules.DerefRule | src/tcc/symbols/TypeResolver.cpp:152-166 | `k` stars type exactly when the operand has at least `k` pointer layers; the type is `getDeref` applied `k` times, so a `k`-level pointer to `u` gives `u`; otherwise `ok` is cleared |
| TypingRules.AddressOfRule | src/tcc/symbols/TypeResolver.cpp:168-173 | `&v` is a pointer whose `getDeref` is `v`'s type; an untyped operand fails |
| TypingRules.CallRule | src/tcc/symbols/TypeResolver.cpp:188-204 | a call without a callee record, or with an arity mismatch, fails before any argument is visited; otherwise the call has the callee's return type exactly when every argument is the same type as its parameter, and fails otherwise |
| TypingRules.VariableRule | src/tcc/symbols/TypeResolver.cpp:175-186 | a variable takes the type bound in the first list on its chain that binds it; an unbound name is untyped and leaves `ok` alone |
| TypeResolution.TypeResolver.constructor | src/tcc/symbols/TypeResolver.h:35 | a new resolver starts with `ok` set |
| TypeResolution.TypeResolver.Modify | src/tcc/symbols/TypeResolver.cpp:6-17 | a non-node input gives nothing back and changes nothing; a node is typed by `Typing` and given back exactly when `ok` is still set, never when it was already cleared |
| TypeResolution.TypeResolver.Visit | src/tcc/symbols/TypeResolver.cpp:6-210 | each visit returns the type and leaves the state that `Typing` gives |
| TypeResolution.TypeResolver.VisitStatementList | src/tcc/symbols/TypeResolver.cpp:19-25 | the statements are visited in order and the list is untyped |
| TypeResolution.TypeResolver.VisitFunctionDefinition | src/tcc/symbols/TypeResolver.cpp:32-36 | the body is visited and the definition is untyped |
| TypeResolution.TypeResolver.VisitVariableDefinition | src/tcc/symbols/TypeResolver.cpp:38-48 | an initializer of a type other than the declared one clears `ok` |
| TypeResolution.TypeResolver.VisitReturn | src/tcc/symbols/TypeResolver.cpp:50-58 | a returned value of a type other than the function's return type clears `ok` |
| TypeResolution.TypeResolver.VisitAssignment | src/tcc/symbols/TypeResolver.cpp:60-70 | value and assignable must be the same type, which the assignment takes; else `ok` is cleared |
| TypeResolution.TypeResolver.VisitConditional | src/tcc/symbols/TypeResolver.cpp:72-80 | condition, then branch and optional else branch are visited in order |
| TypeResolution.TypeResolver.VisitLoop | src/tcc/symbols/TypeResolver.cpp:82-87 | condition and body are visited in order |
| TypeResolution.TypeResolver.VisitComp | src/tcc/symbols/TypeResolver.cpp:89-99 | both sides must be the same type; the comparison has type `int`; else `ok` is cleared |
| TypeResolution.TypeResolver.VisitArithmetic | src/tcc/symbols/TypeResolver.cpp:101-123 | the chain is typed as `ArithmeticRule` states |
| TypeResolution.TypeResolver.VisitIndexing | src/tcc/symbols/TypeResolver.cpp:125-150 | indexing is typed as `IndexingRule` states |
| TypeResolution.TypeResolver.VisitOpDeref | src/tcc/symbols/TypeResolver.cpp:152-166 | dereference is typed as `DerefRule` states |
| TypeResolution.TypeResolver.VisitOpRef | src/tcc/symbols/TypeResolver.cpp:168-173 | address-of is typed as `AddressOfRule` states |
| TypeResolution.TypeResolver.VisitVariable | src/tcc/symbols/TypeResolver.cpp:175-186 | a variable is typed as `VariableRule` states |
| TypeResolution.TypeResolver.VisitCall | src/tcc/symbols/TypeResolver.cpp:188-204 | a call is typed as `CallRule` states |
| TypeResolution.TypeResolver.VisitIntLiteral | src/tcc/symbols/TypeResolver.cpp:206-210 | a literal has type `int` |
| TypeResolution.TypeResolver.VisitStatements | src/tcc/symbols/TypeResolver.cpp:21-23 | the statement loop leaves the state `Visited` gives |
| TypeResolution.TypeResolver.VisitOperands | src/tcc/symbols/TypeResolver.cpp:104-109 | the operand loops leave the state `Operands` gives, stopping and clearing `ok` at the first rejected operand |
| TypeResolution.TypeResolver.StripArrayLayers | src/tcc/symbols/TypeResolver.cpp:140-146 | the indexing loop fails exactly when there are more indexes than array layers |
| TypeResolution.TypeResolver.StripPointerLayers | src/tcc/symbols/TypeResolver.cpp:156-162 | the dereference loop fails exactly when there are more rounds than pointer layers, else gives `getDeref` applied that many times |
| TypeResolution.TypeResolver.FindBinding | src/tcc/symbols/TypeResolver.cpp:177-185 | the lookup loop gives the binding of the nearest list on the chain that binds the name |

## Left out

- IR emission (`IrEmitter`), AST-to-ASG building (`AstVisitor`), the pipeline, file I/O and
  the LLVM type getters (`getLLVMType`, `getLLVMParamType`) are outside this model.
- `TypeLibrary::add` is not part of this model. The type table keeps the two scalars its
  constructor registers.
- `TypeLibrary::inst` and `FunctionLibrary::inst` are singletons. They become one object of
  each class, passed to the resolvers.
- The body of `Type::isSame` is not part of this model. The type resolver takes it as a given
  function, `TypeResolver.same`.
- Type identity is value equality. The source compares shared pointers with the registered
  `int`. Only one instance of each scalar exists, so equality is the same there. The source
  would also see two separately built pointer types as different objects.
- The tree is an arena of per-node sequences, not owning pointers. Each child's index is
  larger than its parent's, and each node's enclosing list comes before it.
  - `updateChild`'s release of the old child is not modelled.
  - Aliasing between nodes is not modelled.
- Asg.Tree.UpdateChild: `from` and `to` are node ids, never null. So `updateChild(nullptr, x)`,
  which fills an empty variable initializer or conditional else branch (src/tcc/asg/AsgNode.cpp:59,
  107), and `updateChild(c, nullptr)`, which empties a slot, are not modelled. Well-formedness
  is kept only when `to` is later than `n` and a function body is swapped for a statement
  list; the source does not check either.
- `parent` is written by the symbol resolver and `list` is read by the type resolver and
  `addLocalVar`. The two are kept as separate fields, as the two files name them.
  - Nothing in the modelled files sets `list` or `callee`. They are inputs of the tree.
- Symbol resolution checks a name only in the innermost statement list, as the code does. It
  does not walk the enclosing lists, although the type resolver's `visitVariable` does.
- The symbol resolver has no visit for conditionals, loops, comparisons, indexing, dereference,
  address-of, field access or struct definitions. Those nodes and their subtrees are left
  unvisited.
- An assignment is modelled with a name, an assignable and a value. The symbol resolver reads
  the name and the value, and the type resolver reads the value and the assignable.
- Diagnostics are modelled as values naming what is reported, not as formatted strings.
- TypeResolution.TypeResolver.Visit: several operations would dereference a null pointer in
  the source. Each is modelled as a failed check, with `ok` cleared and the invalid type:
  - a return whose enclosing function has no record;
  - a call without a callee record;
  - address-of an untyped operand.
- TypeResolution.TypeResolver.Visit: the type resolver has no visit for field accesses and
  struct definitions. Both are modelled as untyped with `ok` untouched, because structs are
  outside this model.
- TypeResolution.TypeResolver.Modify: the `std::any` payload is an optional node index. Any
  other payload is `None`.
- `int32` sizes are carried as values. No arithmetic on them happens in the core.
