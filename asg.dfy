/**
 * The abstract semantic graph of src/tcc/asg/AsgNode.h and AsgNode.cpp, kept as an arena:
 * every node is a `NodeId` into the `Tree`, an owned child slot holds the child's id, and
 * the non-owning back-references (`parent`, `list`, `function`) are ids as well.
 */
module Asg {
  import opened Wrappers
  import opened Maps
  import opened Types
  import opened FunctionLib

  /** Handle of a node in the tree's arena. */
  type NodeId = nat

  datatype Parameter = Parameter(typeName: string, name: string)

  datatype AddSubOp = Add | Sub

  datatype MulDivOp = Mul | Div

  datatype CompOp = Equals | NotEquals | Less | LessEquals | Greater | GreaterEquals

  /** One operand of an add/sub or mul/div chain with the operator written before it. */
  datatype Operand<Op> = Operand(leadingOp: Op, expression: NodeId)

  /** The node kinds and their owned child slots. */
  datatype Kind =
    | StatementList(statements: seq<NodeId>)
    | StructDefinition
    | FunctionDefinition(name: string, returnType: string, parameters: seq<Parameter>, body: NodeId)
    | VariableDefinition(typeName: string, name: string, initializer: Option<NodeId>)
    | Return(value: NodeId)
    | Assignment(name: string, assignable: NodeId, value: NodeId)
    | Conditional(condition: NodeId, thenNode: NodeId, elseNode: Option<NodeId>)
    | Loop(condition: NodeId, body: NodeId)
    | Comp(lhs: NodeId, rhs: NodeId, op: CompOp)
    | AddSub(terms: seq<Operand<AddSubOp>>)
    | MulDiv(factors: seq<Operand<MulDivOp>>)
    | FieldAccess(accessed: NodeId)
    | Indexing(indexed: NodeId, indexes: seq<NodeId>)
    | OpDeref(derefCount: nat, expression: NodeId)
    | OpRef(value: NodeId)
    | Variable(name: string)
    | Call(functionName: string, arguments: seq<NodeId>)
    | IntLiteral(literal: int32)

  function Expressions<Op>(ops: seq<Operand<Op>>): (es: seq<NodeId>)
    ensures |es| == |ops|
  {
    seq(|ops|, i requires 0 <= i < |ops| => ops[i].expression)
  }

  function LeadingOps<Op>(ops: seq<Operand<Op>>): seq<Op>
  {
    seq(|ops|, i requires 0 <= i < |ops| => ops[i].leadingOp)
  }

  function OptionalSlot(o: Option<NodeId>): seq<NodeId>
  {
    if o.Some? then [o.value] else []
  }

  /** The owned child slots of a node, in declaration order. */
  function Children(k: Kind): seq<NodeId>
  {
    match k
    case StatementList(ss) => ss
    case StructDefinition => []
    case FunctionDefinition(_, _, _, b) => [b]
    case VariableDefinition(_, _, v) => OptionalSlot(v)
    case Return(v) => [v]
    case Assignment(_, a, v) => [a, v]
    case Conditional(c, t, e) => [c, t] + OptionalSlot(e)
    case Loop(c, b) => [c, b]
    case Comp(l, r, _) => [l, r]
    case AddSub(ts) => Expressions(ts)
    case MulDiv(fs) => Expressions(fs)
    case FieldAccess(a) => [a]
    case Indexing(b, idx) => [b] + idx
    case OpDeref(_, e) => [e]
    case OpRef(v) => [v]
    case Variable(_) => []
    case Call(_, args) => args
    case IntLiteral(_) => []
  }

  /** Every child slot of `k` holds an id strictly between `lo` and `hi`. */
  predicate ChildrenIn(k: Kind, lo: int, hi: int)
  {
    match k
    case StatementList(ss) => forall i | 0 <= i < |ss| :: lo < ss[i] < hi
    case StructDefinition => true
    case FunctionDefinition(_, _, _, b) => lo < b < hi
    case VariableDefinition(_, _, v) => v.Some? ==> lo < v.value < hi
    case Return(v) => lo < v < hi
    case Assignment(_, a, v) => lo < a < hi && lo < v < hi
    case Conditional(c, t, e) => lo < c < hi && lo < t < hi && (e.Some? ==> lo < e.value < hi)
    case Loop(c, b) => lo < c < hi && lo < b < hi
    case Comp(l, r, _) => lo < l < hi && lo < r < hi
    case AddSub(ts) => forall i | 0 <= i < |ts| :: lo < ts[i].expression < hi
    case MulDiv(fs) => forall i | 0 <= i < |fs| :: lo < fs[i].expression < hi
    case FieldAccess(a) => lo < a < hi
    case Indexing(b, idx) => lo < b < hi && forall i | 0 <= i < |idx| :: lo < idx[i] < hi
    case OpDeref(_, e) => lo < e < hi
    case OpRef(v) => lo < v < hi
    case Variable(_) => true
    case Call(_, args) => forall i | 0 <= i < |args| :: lo < args[i] < hi
    case IntLiteral(_) => true
  }

  /** Every slot holding `from` now holds `to`. */
  function Replaced(s: seq<NodeId>, from: NodeId, to: NodeId): seq<NodeId>
  {
    seq(|s|, i requires 0 <= i < |s| => if s[i] == from then to else s[i])
  }

  function ReplacedOperands<Op>(ops: seq<Operand<Op>>, from: NodeId, to: NodeId): seq<Operand<Op>>
  {
    seq(|ops|, i requires 0 <= i < |ops| =>
      if ops[i].expression == from then ops[i].(expression := to) else ops[i])
  }

  /** Only the first slot holding `from` now holds `to`. */
  function ReplacedFirst(s: seq<NodeId>, from: NodeId, to: NodeId): seq<NodeId>
  {
    if s == [] then []
    else if s[0] == from then [to] + s[1..]
    else [s[0]] + ReplacedFirst(s[1..], from, to)
  }

  /** What `updateChild(from, to)` leaves in a node of kind `k`. */
  function UpdatedKind(k: Kind, from: NodeId, to: NodeId): Kind
  {
    match k
    case StatementList(ss) => StatementList(Replaced(ss, from, to))
    case StructDefinition => k
    case FunctionDefinition(nm, rt, ps, b) => if b == from then FunctionDefinition(nm, rt, ps, to) else k
    case VariableDefinition(tn, nm, v) => if v == Some(from) then VariableDefinition(tn, nm, Some(to)) else k
    case Return(v) => if v == from then Return(to) else k
    case Assignment(nm, a, v) =>
      if a == from then Assignment(nm, to, v)
      else if v == from then Assignment(nm, a, to)
      else k
    case Conditional(c, t, e) =>
      if c == from then Conditional(to, t, e)
      else if t == from then Conditional(c, to, e)
      else if e == Some(from) then Conditional(c, t, Some(to))
      else k
    case Loop(c, b) =>
      if c == from then Loop(to, b)
      else if b == from then Loop(c, to)
      else k
    case Comp(l, r, op) =>
      if l == from then Comp(to, r, op)
      else if r == from then Comp(l, to, op)
      else k
    case AddSub(ts) => AddSub(ReplacedOperands(ts, from, to))
    case MulDiv(fs) => MulDiv(ReplacedOperands(fs, from, to))
    case FieldAccess(a) => if a == from then FieldAccess(to) else k
    case Indexing(b, idx) =>
      if b == from then Indexing(to, idx) else Indexing(b, Replaced(idx, from, to))
    case OpDeref(c, e) => if e == from then OpDeref(c, to) else k
    case OpRef(v) => if v == from then OpRef(to) else k
    case Variable(_) => k
    case Call(f, args) => Call(f, Replaced(args, from, to))
    case IntLiteral(_) => k
  }

  /** The loop of the list-shaped `updateChild` overrides: resets every matching slot. */
  method ReplaceSlots(s: seq<NodeId>, from: NodeId, to: NodeId) returns (r: seq<NodeId>)
    ensures r == Replaced(s, from, to)
  {
    r := s;
    var i := 0;
    while i < |r|
      invariant 0 <= i <= |r| == |s|
      invariant forall j | 0 <= j < i :: r[j] == if s[j] == from then to else s[j]
      invariant r[i..] == s[i..]
    {
      if r[i] == from {
        r := r[i := to];
      }
      i := i + 1;
    }
  }

  /** The loop of the add/sub and mul/div `updateChild`: resets every matching operand. */
  method ReplaceOperands<Op>(ops: seq<Operand<Op>>, from: NodeId, to: NodeId) returns (r: seq<Operand<Op>>)
    ensures r == ReplacedOperands(ops, from, to)
  {
    r := ops;
    var i := 0;
    while i < |r|
      invariant 0 <= i <= |r| == |ops|
      invariant forall j | 0 <= j < i :: r[j] == if ops[j].expression == from then ops[j].(expression := to) else ops[j]
      invariant r[i..] == ops[i..]
    {
      if r[i].expression == from {
        r := r[i := r[i].(expression := to)];
      }
      i := i + 1;
    }
  }

  /** Node `n` sits in a tree: its children come after it, its enclosing list comes before
      it, and a function definition's body is a statement list. */
  predicate NodeIn(kinds: seq<Kind>, list: seq<Option<NodeId>>, n: NodeId)
    requires n < |kinds| == |list|
  {
    && ChildrenIn(kinds[n], n, |kinds|)
    && (list[n].Some? ==> list[n].value < n)
    && (kinds[n].FunctionDefinition? ==> kinds[n].body < |kinds| && kinds[kinds[n].body].StatementList?)
  }

  /** Every node of the arena sits in a tree. */
  predicate Structured(kinds: seq<Kind>, list: seq<Option<NodeId>>)
  {
    |list| == |kinds| && forall n | 0 <= n < |kinds| :: NodeIn(kinds, list, n)
  }

  /** What a resolver pass reads of the tree: its shape, scope links and symbol records. */
  datatype Snapshot = Snapshot(
    kinds: seq<Kind>,
    list: seq<Option<NodeId>>,
    enclosingFunction: seq<Option<NodeId>>,
    localVariables: seq<map<string, TypeId>>,
    signature: seq<Option<Function>>,
    callee: seq<Option<Function>>)
  {
    predicate WellFormed()
    {
      && |list| == |kinds| && |enclosingFunction| == |kinds| && |localVariables| == |kinds|
      && |signature| == |kinds| && |callee| == |kinds|
      && Structured(kinds, list)
    }
  }

  /**
   * The nodes of one program. Index `n` of each field is the field of node `n`:
   * `parent`, `list` and `enclosingFunction` (the source's `function`) are the back-references,
   * `exprType` the computed type, `localVariables` a statement list's scope,
   * `signature` a function definition's record (the source's `type`) and `callee` a call's.
   */
  class Tree {
    var kinds: seq<Kind>
    var parent: seq<Option<NodeId>>
    var list: seq<Option<NodeId>>
    var enclosingFunction: seq<Option<NodeId>>
    var exprType: seq<TypeId>
    var localVariables: seq<map<string, TypeId>>
    var signature: seq<Option<Function>>
    var callee: seq<Option<Function>>

    function View(): Snapshot
      reads this
    {
      Snapshot(kinds, list, enclosingFunction, localVariables, signature, callee)
    }

    ghost predicate Valid()
      reads this
    {
      && |parent| == |kinds| && |list| == |kinds| && |enclosingFunction| == |kinds|
      && |exprType| == |kinds| && |localVariables| == |kinds| && |signature| == |kinds|
      && |callee| == |kinds| && Structured(kinds, list)
    }

    /** `updateChild(from, to)` on node `n`. */
    method UpdateChild(n: NodeId, from: NodeId, to: NodeId)
      requires n < |kinds|
      modifies this`kinds
      ensures kinds == old(kinds)[n := UpdatedKind(old(kinds[n]), from, to)]
      ensures old(Valid()) && n < to < |kinds| && BodyFits(old(kinds), n, from, to) ==> Valid()
    {
      if Valid() && n < to < |kinds| && BodyFits(kinds, n, from, to) {
        UpdateKeepsStructure(kinds, list, n, from, to);
      }
      var k := kinds[n];
      var updated := k;
      match k {
        case StatementList(ss) =>
          var r := ReplaceSlots(ss, from, to);
          updated := StatementList(r);
        case StructDefinition =>
        case FunctionDefinition(nm, rt, ps, b) =>
          if b == from {
            updated := FunctionDefinition(nm, rt, ps, to);
          }
        case VariableDefinition(tn, nm, v) =>
          if v == Some(from) {
            updated := VariableDefinition(tn, nm, Some(to));
          }
        case Return(v) =>
          if v == from {
            updated := Return(to);
          }
        case Assignment(nm, a, v) =>
          if a == from {
            updated := Assignment(nm, to, v);
          } else if v == from {
            updated := Assignment(nm, a, to);
          }
        case Conditional(c, t, e) =>
          if c == from {
            updated := Conditional(to, t, e);
          } else if t == from {
            updated := Conditional(c, to, e);
          } else if e == Some(from) {
            updated := Conditional(c, t, Some(to));
          }
        case Loop(c, b) =>
          if c == from {
            updated := Loop(to, b);
          } else if b == from {
            updated := Loop(c, to);
          }
        case Comp(l, r, op) =>
          if l == from {
            updated := Comp(to, r, op);
          } else if r == from {
            updated := Comp(l, to, op);
          }
        case AddSub(ts) =>
          var r := ReplaceOperands(ts, from, to);
          updated := AddSub(r);
        case MulDiv(fs) =>
          var r := ReplaceOperands(fs, from, to);
          updated := MulDiv(r);
        case FieldAccess(a) =>
          if a == from {
            updated := FieldAccess(to);
          }
        case Indexing(b, idx) =>
          if b == from {
            updated := Indexing(to, idx);
          } else {
            var r := ReplaceSlots(idx, from, to);
            updated := Indexing(b, r);
          }
        case OpDeref(c, e) =>
          if e == from {
            updated := OpDeref(c, to);
          }
        case OpRef(v) =>
          if v == from {
            updated := OpRef(to);
          }
        case Variable(_) =>
        case Call(f, args) =>
          var r := ReplaceSlots(args, from, to);
          updated := Call(f, r);
        case IntLiteral(_) =>
      }
      kinds := kinds[n := updated];
    }

    /** `AsgStatementList::addLocalVar` on list `l`: an existing binding is kept. */
    method AddListLocalVar(l: NodeId, name: string, t: TypeId)
      requires l < |localVariables|
      modifies this`localVariables
      ensures localVariables == old(localVariables)[l := Insert(old(localVariables[l]), name, t)]
      ensures Valid() <==> old(Valid())
    {
      localVariables := localVariables[l := Insert(localVariables[l], name, t)];
    }

    /** `AsgNode::addLocalVar`: forwards to the enclosing list when there is one. */
    method AddLocalVar(n: NodeId, name: string, t: TypeId)
      requires Valid() && n < |kinds|
      modifies this`localVariables
      ensures list[n].None? ==> localVariables == old(localVariables)
      ensures list[n].Some? ==>
        && list[n].value < n
        && localVariables == old(localVariables)[list[n].value := Insert(old(localVariables[list[n].value]), name, t)]
    {
      assert NodeIn(kinds, list, n);
      if list[n].Some? {
        AddListLocalVar(list[n].value, name, t);
      }
    }
  }

  /** A function definition's body may only be replaced by a statement list. */
  predicate BodyFits(kinds: seq<Kind>, n: NodeId, from: NodeId, to: NodeId)
    requires n < |kinds| && to < |kinds|
  {
    kinds[n].FunctionDefinition? && kinds[n].body == from ==> kinds[to].StatementList?
  }

  /** Every slot holding `from` now holds `to`, which lies in range: all slots stay in range. */
  lemma ReplacedIn(s: seq<NodeId>, from: NodeId, to: NodeId, lo: int, hi: int)
    requires forall i | 0 <= i < |s| :: lo < s[i] < hi
    requires lo < to < hi
    ensures forall i | 0 <= i < |Replaced(s, from, to)| :: lo < Replaced(s, from, to)[i] < hi
  {
  }

  /** The same for the operand slots of a sum or a product. */
  lemma ReplacedOperandsIn<Op>(ops: seq<Operand<Op>>, from: NodeId, to: NodeId, lo: int, hi: int)
    requires forall i | 0 <= i < |ops| :: lo < ops[i].expression < hi
    requires lo < to < hi
    ensures forall i | 0 <= i < |ReplacedOperands(ops, from, to)| :: lo < ReplacedOperands(ops, from, to)[i].expression < hi
  {
  }

  /** Whether a node's slots form a list (statements, operands, indices, arguments). */
  predicate ListShaped(k: Kind)
  {
    k.StatementList? || k.AddSub? || k.MulDiv? || k.Indexing? || k.Call?
  }

  /** Replacing slots by a later node keeps the slots in range and the node's kind. */
  lemma UpdatedChildrenIn(k: Kind, from: NodeId, to: NodeId, lo: int, hi: int)
    requires ChildrenIn(k, lo, hi) && lo < to < hi
    ensures ChildrenIn(UpdatedKind(k, from, to), lo, hi)
    ensures UpdatedKind(k, from, to).StatementList? == k.StatementList?
    ensures UpdatedKind(k, from, to).FunctionDefinition? == k.FunctionDefinition?
  {
    if ListShaped(k) {
      UpdatedListIn(k, from, to, lo, hi);
    } else {
      UpdatedSlotsIn(k, from, to, lo, hi);
    }
  }

  /** The list-shaped kinds: every replaced list stays in range. */
  lemma UpdatedListIn(k: Kind, from: NodeId, to: NodeId, lo: int, hi: int)
    requires ListShaped(k) && ChildrenIn(k, lo, hi) && lo < to < hi
    ensures ChildrenIn(UpdatedKind(k, from, to), lo, hi)
    ensures UpdatedKind(k, from, to).StatementList? == k.StatementList?
  {
    match k
    case StatementList(ss) => ReplacedIn(ss, from, to, lo, hi);
    case AddSub(ts) => ReplacedOperandsIn(ts, from, to, lo, hi);
    case MulDiv(fs) => ReplacedOperandsIn(fs, from, to, lo, hi);
    case Indexing(_, idx) => ReplacedIn(idx, from, to, lo, hi);
    case Call(_, args) => ReplacedIn(args, from, to, lo, hi);
  }

  /** The kinds with fixed slots: `to` lands in a slot that was in range. */
  lemma UpdatedSlotsIn(k: Kind, from: NodeId, to: NodeId, lo: int, hi: int)
    requires !ListShaped(k) && ChildrenIn(k, lo, hi) && lo < to < hi
    ensures ChildrenIn(UpdatedKind(k, from, to), lo, hi)
    ensures UpdatedKind(k, from, to).FunctionDefinition? == k.FunctionDefinition?
    ensures !UpdatedKind(k, from, to).StatementList?
  {
  }

  /** `updateChild` keeps the tree well formed when the new child is a later node and a
      function body is replaced only by a statement list. */
  lemma UpdateKeepsStructure(kinds: seq<Kind>, list: seq<Option<NodeId>>, n: NodeId, from: NodeId, to: NodeId)
    requires Structured(kinds, list) && n < to < |kinds| && BodyFits(kinds, n, from, to)
    ensures Structured(kinds[n := UpdatedKind(kinds[n], from, to)], list)
  {
    var updated := kinds[n := UpdatedKind(kinds[n], from, to)];
    assert NodeIn(kinds, list, n);
    UpdatedChildrenIn(kinds[n], from, to, n, |kinds|);
    forall m | 0 <= m < |updated| ensures NodeIn(updated, list, m) {
      assert NodeIn(kinds, list, m);
      if m != n && kinds[m].FunctionDefinition? && kinds[m].body == n {
        assert updated[n].StatementList?;
      }
    }
  }

  /** The list-shaped overrides reset every matching slot, keep the length and leave every
      other slot as it was; afterwards no slot holds `from` unless `from == to`. */
  lemma ReplacedSlots(s: seq<NodeId>, from: NodeId, to: NodeId)
    ensures |Replaced(s, from, to)| == |s|
    ensures forall i | 0 <= i < |s| :: s[i] == from ==> Replaced(s, from, to)[i] == to
    ensures forall i | 0 <= i < |s| :: s[i] != from ==> Replaced(s, from, to)[i] == s[i]
    ensures from !in s ==> Replaced(s, from, to) == s
    ensures from != to ==> from !in Replaced(s, from, to)
  {
  }

  /** Add/sub and mul/div chains swap the matching expressions and keep every operator and
      the order of the operands. */
  lemma ReplacedOperandsKeepsOperators<Op>(ops: seq<Operand<Op>>, from: NodeId, to: NodeId)
    ensures LeadingOps(ReplacedOperands(ops, from, to)) == LeadingOps(ops)
    ensures Expressions(ReplacedOperands(ops, from, to)) == Replaced(Expressions(ops), from, to)
  {
  }

  /** A node whose slots do not hold `from` is left unchanged. */
  lemma {:induction false} UpdateNotAChild(k: Kind, from: NodeId, to: NodeId)
    requires from !in Children(k)
    ensures UpdatedKind(k, from, to) == k
  {
    match k
    case StatementList(ss) =>
      ReplacedSlots(ss, from, to);
    case AddSub(ts) =>
      assert forall i | 0 <= i < |ts| :: ts[i].expression == Expressions(ts)[i];
      assert ReplacedOperands(ts, from, to) == ts;
    case MulDiv(fs) =>
      assert forall i | 0 <= i < |fs| :: fs[i].expression == Expressions(fs)[i];
      assert ReplacedOperands(fs, from, to) == fs;
    case Indexing(b, idx) =>
      assert forall i | 0 <= i < |idx| :: idx[i] == ([b] + idx)[i + 1];
      ReplacedSlots(idx, from, to);
    case Call(_, args) =>
      ReplacedSlots(args, from, to);
    case _ =>
  }

  /** Assignment, conditional, loop and comparison follow an `else if` chain: only the first
      matching slot, in declaration order, is replaced. */
  lemma UpdateChainReplacesFirst(k: Kind, from: NodeId, to: NodeId)
    requires k.Assignment? || k.Conditional? || k.Loop? || k.Comp?
    ensures Children(UpdatedKind(k, from, to)) == ReplacedFirst(Children(k), from, to)
    ensures k.Assignment? ==> UpdatedKind(k, from, to).name == k.name
    ensures k.Comp? ==> UpdatedKind(k, from, to).op == k.op
    ensures UpdatedKind(k, from, to).Assignment? == k.Assignment?
    ensures UpdatedKind(k, from, to).Conditional? == k.Conditional?
    ensures UpdatedKind(k, from, to).Loop? == k.Loop?
  {
    match k
    case Assignment(_, a, v) => ReplacedFirstOfTwo(a, v, from, to);
    case Conditional(c, t, e) =>
      if e.Some? {
        ReplacedFirstOfThree(c, t, e.value, from, to);
      } else {
        ReplacedFirstOfTwo(c, t, from, to);
      }
    case Loop(c, b) => ReplacedFirstOfTwo(c, b, from, to);
    case Comp(l, r, _) => ReplacedFirstOfTwo(l, r, from, to);
  }

  lemma ReplacedFirstOfTwo(a: NodeId, b: NodeId, from: NodeId, to: NodeId)
    ensures ReplacedFirst([a, b], from, to) ==
      if a == from then [to, b] else if b == from then [a, to] else [a, b]
  {
    assert [a, b][1..] == [b];
    assert [b][1..] == [];
    assert ReplacedFirst([], from, to) == [];
    assert ReplacedFirst([b], from, to) == if b == from then [to] else [b];
  }

  lemma ReplacedFirstOfThree(a: NodeId, b: NodeId, c: NodeId, from: NodeId, to: NodeId)
    ensures ReplacedFirst([a, b, c], from, to) ==
      if a == from then [to, b, c] else if b == from then [a, to, c] else if c == from then [a, b, to] else [a, b, c]
  {
    assert [a, b, c][1..] == [b, c];
    ReplacedFirstOfTwo(b, c, from, to);
  }

  /** Statement lists, chains and calls replace every matching slot. */
  lemma UpdateListReplacesAll(k: Kind, from: NodeId, to: NodeId)
    requires k.StatementList? || k.AddSub? || k.MulDiv? || k.Call?
    ensures Children(UpdatedKind(k, from, to)) == Replaced(Children(k), from, to)
    ensures k.AddSub? ==> UpdatedKind(k, from, to).AddSub? && LeadingOps(UpdatedKind(k, from, to).terms) == LeadingOps(k.terms)
    ensures k.MulDiv? ==> UpdatedKind(k, from, to).MulDiv? && LeadingOps(UpdatedKind(k, from, to).factors) == LeadingOps(k.factors)
    ensures k.Call? ==> UpdatedKind(k, from, to).Call? && UpdatedKind(k, from, to).functionName == k.functionName
  {
    match k
    case AddSub(ts) => ReplacedOperandsKeepsOperators(ts, from, to);
    case MulDiv(fs) => ReplacedOperandsKeepsOperators(fs, from, to);
    case _ =>
  }

  /** Indexing replaces the indexed expression alone when it matches, else every matching index. */
  lemma UpdateIndexing(b: NodeId, idx: seq<NodeId>, from: NodeId, to: NodeId)
    ensures b == from ==> UpdatedKind(Indexing(b, idx), from, to) == Indexing(to, idx)
    ensures b != from ==> UpdatedKind(Indexing(b, idx), from, to) == Indexing(b, Replaced(idx, from, to))
  {
  }

  /** Struct definitions, variables and literals own no slot: `updateChild` does nothing. */
  lemma UpdateLeafIsNoOp(k: Kind, from: NodeId, to: NodeId)
    requires k.StructDefinition? || k.Variable? || k.IntLiteral?
    ensures UpdatedKind(k, from, to) == k
  {
  }
}
