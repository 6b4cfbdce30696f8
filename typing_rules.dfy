/**
 * What the second resolver pass, src/tcc/symbols/TypeResolver.cpp, computes, as functions on
 * values: one typing rule per node kind, visiting children left to right, stamping `exprType`
 * on the expressions it types and clearing the sticky `ok_` flag on a mismatch.
 * `TypeResolution.TypeResolver` is proved to compute `Typing`.
 */
module TypingRules {
  import opened Wrappers
  import opened Types
  import opened TypeLib
  import opened FunctionLib
  import opened Asg

  /** What the pass reads: the resolved tree, the type table and `Type::isSame`, whose body is
      not part of this model. */
  datatype Env = Env(tree: Snapshot, named: map<string, Type>, same: (TypeId, TypeId) -> bool)
  {
    predicate Valid()
    {
      tree.WellFormed()
    }

    function Size(): nat
    {
      |tree.kinds|
    }
  }

  /** What the pass writes: each node's `exprType` and the `ok_` flag. */
  datatype Typed = Typed(exprType: seq<TypeId>, ok: bool)

  /** The state after a visit and the type the visit returns. */
  datatype Outcome = Outcome(state: Typed, t: TypeId)

  /** The state after visiting operands in order, and whether one of them was rejected. */
  datatype Run = Run(state: Typed, stopped: bool)

  /** What each operand of a list must have: `int` (arithmetic, indexes), or the matching
      parameter type under `isSame` (call arguments). */
  datatype Expect = Ints | Params(parameters: seq<TypeId>)

  /** `TypeLibrary::inst().get("int")`. */
  function IntId(named: map<string, Type>): TypeId
  {
    Lookup(named, "int")
  }

  predicate Accepts(env: Env, rule: Expect, i: nat, t: TypeId)
  {
    match rule
    case Ints => t == IntId(env.named)
    case Params(ps) => i < |ps| && env.same(ps[i], t)
  }

  /** A failed check: `ok_` cleared and the invalid type returned. */
  function Fail(st: Typed): Outcome
  {
    Outcome(st.(ok := false), None)
  }

  /** `node->exprType = t`, and `t` returned. */
  function Stamp(st: Typed, n: NodeId, t: TypeId): Outcome
    requires n < |st.exprType|
  {
    Outcome(st.(exprType := st.exprType[n := t]), t)
  }

  /** `k` rounds of the dereference loop: `None` when a round meets an invalid type or a
      non-pointer, else the type left after `k` layers. */
  function StripPtrs(t: TypeId, k: nat): Option<TypeId>
    decreases k
  {
    if k == 0 then Some(t)
    else if t.None? || !t.value.IsPtr() then None
    else StripPtrs(t.value.GetDeref(), k - 1)
  }

  /** `k` rounds of the indexing loop, likewise for array layers. */
  function StripArrays(t: TypeId, k: nat): Option<TypeId>
    decreases k
  {
    if k == 0 then Some(t)
    else if t.None? || !t.value.IsArray() then None
    else StripArrays(t.value.GetIndexed(), k - 1)
  }

  /** The number of pointer layers around a type. */
  function PtrDepth(t: Type): nat
  {
    if t.Ptr? then 1 + PtrDepth(t.underlying) else 0
  }

  /** The number of array layers around a type. */
  function ArrayDepth(t: Type): nat
  {
    if t.Array? then 1 + ArrayDepth(t.underlying) else 0
  }

  /** `node->function->type->returnType`: `None` where a link on the way is null. */
  function ExpectedReturn(tree: Snapshot, n: NodeId): Option<TypeId>
    requires n < |tree.enclosingFunction|
  {
    var f := tree.enclosingFunction[n];
    if f.None? || f.value >= |tree.signature| || tree.signature[f.value].None? then None
    else Some(tree.signature[f.value].value.returnType)
  }

  /** The binding of `name` in the nearest statement list on the `list` chain from `l`. */
  function Nearest(tree: Snapshot, l: Option<NodeId>, name: string): Option<TypeId>
    requires tree.WellFormed()
    decreases if l.Some? then l.value + 1 else 0
  {
    if l.None? || l.value >= |tree.kinds| then None
    else if name in tree.localVariables[l.value] then Some(tree.localVariables[l.value][name])
    else
      assert NodeIn(tree.kinds, tree.list, l.value);
      Nearest(tree, tree.list[l.value], name)
  }

  /** The statement lists on the `list` chain from `l`, innermost first. */
  function Chain(tree: Snapshot, l: Option<NodeId>): (c: seq<NodeId>)
    requires tree.WellFormed()
    ensures forall i | 0 <= i < |c| :: c[i] < |tree.kinds|
    decreases if l.Some? then l.value + 1 else 0
  {
    if l.None? || l.value >= |tree.kinds| then []
    else
      assert NodeIn(tree.kinds, tree.list, l.value);
      [l.value] + Chain(tree, tree.list[l.value])
  }

  /** The outcome of visiting `n` from state `st`. */
  function Typing(env: Env, st: Typed, n: NodeId): (r: Outcome)
    requires env.Valid() && n < env.Size() && |st.exprType| == env.Size()
    ensures |r.state.exprType| == env.Size()
    decreases env.Size() - n, 1, 0
  {
    assert NodeIn(env.tree.kinds, env.tree.list, n);
    match env.tree.kinds[n]
    case StatementList(statements) =>
      Outcome(Visited(env, st, n, statements), None)
    case StructDefinition =>
      Outcome(st, None)
    case FunctionDefinition(_, _, _, body) =>
      Outcome(Typing(env, st, body).state, None)
    case VariableDefinition(typeName, _, value) =>
      if value.None? then Outcome(st, None)
      else
        var v := Typing(env, st, value.value);
        Outcome(if env.same(Lookup(env.named, typeName), v.t) then v.state else v.state.(ok := false), None)
    case Return(value) =>
      var expected := ExpectedReturn(env.tree, n);
      if expected.None? then Fail(st)
      else
        var v := Typing(env, st, value);
        Outcome(if env.same(v.t, expected.value) then v.state else v.state.(ok := false), None)
    case Assignment(_, assignable, value) =>
      var v := Typing(env, st, value);
      var a := Typing(env, v.state, assignable);
      if !env.same(v.t, a.t) then Fail(a.state) else Stamp(a.state, n, v.t)
    case Conditional(condition, thenNode, elseNode) =>
      var c := Typing(env, st, condition).state;
      var th := Typing(env, c, thenNode).state;
      Outcome(if elseNode.Some? then Typing(env, th, elseNode.value).state else th, None)
    case Loop(condition, body) =>
      Outcome(Typing(env, Typing(env, st, condition).state, body).state, None)
    case Comp(lhs, rhs, _) =>
      var l := Typing(env, st, lhs);
      var r := Typing(env, l.state, rhs);
      if !env.same(l.t, r.t) then Fail(r.state) else Stamp(r.state, n, IntId(env.named))
    case AddSub(terms) =>
      Arithmetic(env, st, n, Expressions(terms))
    case MulDiv(factors) =>
      Arithmetic(env, st, n, Expressions(factors))
    case FieldAccess(_) =>
      Outcome(st, None)
    case Indexing(indexed, indexes) =>
      var b := Typing(env, st, indexed);
      if b.t.None? || !b.t.value.IsArray() then Fail(b.state)
      else
        var run := Operands(env, b.state, n, indexes, Ints);
        if run.stopped then Outcome(run.state, None)
        else if StripArrays(b.t, |indexes|).None? then Fail(run.state)
        else Stamp(run.state, n, StripArrays(b.t, |indexes|).value)
    case OpDeref(derefCount, expression) =>
      var e := Typing(env, st, expression);
      if StripPtrs(e.t, derefCount).None? then Fail(e.state)
      else Stamp(e.state, n, StripPtrs(e.t, derefCount).value)
    case OpRef(value) =>
      var v := Typing(env, st, value);
      if v.t.None? then Fail(v.state) else Stamp(v.state, n, Some(v.t.value.GetRef()))
    case Variable(name) =>
      var found := Nearest(env.tree, env.tree.list[n], name);
      if found.None? then Outcome(st, None) else Stamp(st, n, found.value)
    case Call(_, arguments) =>
      var f := env.tree.callee[n];
      if f.None? || |f.value.parameters| != |arguments| then Fail(st)
      else
        var run := Operands(env, st, n, arguments, Params(f.value.parameters));
        if run.stopped then Outcome(run.state, None) else Stamp(run.state, n, f.value.returnType)
    case IntLiteral(_) =>
      Stamp(st, n, IntId(env.named))
  }

  /** An add/sub or mul/div chain: `int` when every operand is `int`, else a failure at the
      first operand that is not. */
  function Arithmetic(env: Env, st: Typed, n: NodeId, cs: seq<NodeId>): (r: Outcome)
    requires env.Valid() && n < env.Size() && |st.exprType| == env.Size()
    requires forall i | 0 <= i < |cs| :: n < cs[i] < env.Size()
    ensures |r.state.exprType| == env.Size()
    decreases env.Size() - n, 0, |cs| + 1
  {
    var run := Operands(env, st, n, cs, Ints);
    if run.stopped then Outcome(run.state, None) else Stamp(run.state, n, IntId(env.named))
  }

  /** Visits the operands `cs` of `n` in order, stopping at the first whose type `rule`
      rejects. */
  function Operands(env: Env, st: Typed, n: NodeId, cs: seq<NodeId>, rule: Expect): (r: Run)
    requires env.Valid() && n < env.Size() && |st.exprType| == env.Size()
    requires forall i | 0 <= i < |cs| :: n < cs[i] < env.Size()
    ensures |r.state.exprType| == env.Size()
    decreases env.Size() - n, 0, |cs|
  {
    if cs == [] then Run(st, false)
    else
      var before := Operands(env, st, n, cs[..|cs| - 1], rule);
      if before.stopped then before
      else
        var v := Typing(env, before.state, cs[|cs| - 1]);
        if Accepts(env, rule, |cs| - 1, v.t) then Run(v.state, false) else Run(v.state.(ok := false), true)
  }

  /** Visits the statements `cs` of `n` in order. */
  function Visited(env: Env, st: Typed, n: NodeId, cs: seq<NodeId>): (r: Typed)
    requires env.Valid() && n < env.Size() && |st.exprType| == env.Size()
    requires forall i | 0 <= i < |cs| :: n < cs[i] < env.Size()
    ensures |r.exprType| == env.Size()
    decreases env.Size() - n, 0, |cs|
  {
    if cs == [] then st
    else Typing(env, Visited(env, st, n, cs[..|cs| - 1]), cs[|cs| - 1]).state
  }

  /** The type the `i`-th operand's visit returns, from the state the earlier operands left. */
  function OperandType(env: Env, st: Typed, n: NodeId, cs: seq<NodeId>, rule: Expect, i: nat): TypeId
    requires env.Valid() && n < env.Size() && |st.exprType| == env.Size()
    requires forall j | 0 <= j < |cs| :: n < cs[j] < env.Size()
    requires i < |cs|
  {
    Typing(env, Operands(env, st, n, cs[..i], rule).state, cs[i]).t
  }

  /** From `a` to `b` the pass only went on: `ok_` was never set again, and nodes before `n`
      keep their types. */
  predicate Later(a: Typed, b: Typed, n: nat)
  {
    && |b.exprType| == |a.exprType|
    && (b.ok ==> a.ok)
    && forall i | 0 <= i < n && i < |a.exprType| :: b.exprType[i] == a.exprType[i]
  }

  lemma LaterTransitive(a: Typed, b: Typed, c: Typed, n: nat)
    requires Later(a, b, n) && Later(b, c, n)
    ensures Later(a, c, n)
  {
  }

  /** A visit of `n` never sets `ok_` again and leaves the types of nodes before `n` alone;
      whatever type it returns other than the invalid one is the type it stamped on `n`. */
  lemma {:induction false} TypingLater(env: Env, st: Typed, n: NodeId)
    requires env.Valid() && n < env.Size() && |st.exprType| == env.Size()
    ensures Later(st, Typing(env, st, n).state, n)
    ensures Typing(env, st, n).t.Some? ==> Typing(env, st, n).state.exprType[n] == Typing(env, st, n).t
    decreases env.Size() - n, 1, 1
  {
    var k := env.tree.kinds[n];
    if k.StatementList? || k.FunctionDefinition? || k.VariableDefinition? || k.Return? {
      StatementLater(env, st, n);
    } else if k.Conditional? || k.Loop? || k.Assignment? || k.Comp? {
      PairLater(env, st, n);
    } else if k.AddSub? || k.MulDiv? || k.Indexing? || k.Call? {
      ListLater(env, st, n);
    } else if k.OpDeref? || k.OpRef? {
      UnaryLater(env, st, n);
    }
  }

  lemma {:induction false} StatementLater(env: Env, st: Typed, n: NodeId)
    requires env.Valid() && n < env.Size() && |st.exprType| == env.Size()
    requires env.tree.kinds[n].StatementList? || env.tree.kinds[n].FunctionDefinition?
             || env.tree.kinds[n].VariableDefinition? || env.tree.kinds[n].Return?
    ensures Later(st, Typing(env, st, n).state, n) && Typing(env, st, n).t.None?
    decreases env.Size() - n, 1, 0
  {
    assert NodeIn(env.tree.kinds, env.tree.list, n);
    match env.tree.kinds[n]
    case StatementList(statements) =>
      VisitedLater(env, st, n, statements);
    case FunctionDefinition(_, _, _, body) =>
      TypingLater(env, st, body);
    case VariableDefinition(_, _, value) =>
      if value.Some? {
        TypingLater(env, st, value.value);
      }
    case Return(value) =>
      if ExpectedReturn(env.tree, n).Some? {
        TypingLater(env, st, value);
      }
  }

  lemma {:induction false} PairLater(env: Env, st: Typed, n: NodeId)
    requires env.Valid() && n < env.Size() && |st.exprType| == env.Size()
    requires env.tree.kinds[n].Conditional? || env.tree.kinds[n].Loop?
             || env.tree.kinds[n].Assignment? || env.tree.kinds[n].Comp?
    ensures Later(st, Typing(env, st, n).state, n)
    ensures Typing(env, st, n).t.Some? ==> Typing(env, st, n).state.exprType[n] == Typing(env, st, n).t
    decreases env.Size() - n, 1, 0
  {
    assert NodeIn(env.tree.kinds, env.tree.list, n);
    match env.tree.kinds[n]
    case Conditional(condition, thenNode, elseNode) =>
      var c := Typing(env, st, condition).state;
      var th := Typing(env, c, thenNode).state;
      TypingLater(env, st, condition);
      TypingLater(env, c, thenNode);
      LaterTransitive(st, c, th, n);
      if elseNode.Some? {
        TypingLater(env, th, elseNode.value);
        LaterTransitive(st, th, Typing(env, th, elseNode.value).state, n);
      }
    case Loop(condition, body) =>
      var c := Typing(env, st, condition).state;
      TypingLater(env, st, condition);
      TypingLater(env, c, body);
      LaterTransitive(st, c, Typing(env, c, body).state, n);
    case Assignment(_, assignable, value) =>
      var v := Typing(env, st, value).state;
      TypingLater(env, st, value);
      TypingLater(env, v, assignable);
      LaterTransitive(st, v, Typing(env, v, assignable).state, n);
    case Comp(lhs, rhs, _) =>
      var l := Typing(env, st, lhs).state;
      TypingLater(env, st, lhs);
      TypingLater(env, l, rhs);
      LaterTransitive(st, l, Typing(env, l, rhs).state, n);
  }

  lemma {:induction false} ListLater(env: Env, st: Typed, n: NodeId)
    requires env.Valid() && n < env.Size() && |st.exprType| == env.Size()
    requires env.tree.kinds[n].AddSub? || env.tree.kinds[n].MulDiv?
             || env.tree.kinds[n].Indexing? || env.tree.kinds[n].Call?
    ensures Later(st, Typing(env, st, n).state, n)
    ensures Typing(env, st, n).t.Some? ==> Typing(env, st, n).state.exprType[n] == Typing(env, st, n).t
    decreases env.Size() - n, 1, 0
  {
    assert NodeIn(env.tree.kinds, env.tree.list, n);
    match env.tree.kinds[n]
    case AddSub(terms) =>
      OperandsLater(env, st, n, Expressions(terms), Ints);
    case MulDiv(factors) =>
      OperandsLater(env, st, n, Expressions(factors), Ints);
    case Indexing(indexed, indexes) =>
      var b := Typing(env, st, indexed).state;
      TypingLater(env, st, indexed);
      OperandsLater(env, b, n, indexes, Ints);
      LaterTransitive(st, b, Operands(env, b, n, indexes, Ints).state, n);
    case Call(_, arguments) =>
      var f := env.tree.callee[n];
      if f.Some? && |f.value.parameters| == |arguments| {
        OperandsLater(env, st, n, arguments, Params(f.value.parameters));
      }
  }

  lemma {:induction false} UnaryLater(env: Env, st: Typed, n: NodeId)
    requires env.Valid() && n < env.Size() && |st.exprType| == env.Size()
    requires env.tree.kinds[n].OpDeref? || env.tree.kinds[n].OpRef?
    ensures Later(st, Typing(env, st, n).state, n)
    ensures Typing(env, st, n).t.Some? ==> Typing(env, st, n).state.exprType[n] == Typing(env, st, n).t
    decreases env.Size() - n, 1, 0
  {
    assert NodeIn(env.tree.kinds, env.tree.list, n);
    match env.tree.kinds[n]
    case OpDeref(_, expression) =>
      TypingLater(env, st, expression);
    case OpRef(value) =>
      TypingLater(env, st, value);
  }

  /** Visiting operands never sets `ok_` again, leaves `n` and every earlier node alone, and
      clears `ok_` when it stops. */
  lemma {:induction false} OperandsLater(env: Env, st: Typed, n: NodeId, cs: seq<NodeId>, rule: Expect)
    requires env.Valid() && n < env.Size() && |st.exprType| == env.Size()
    requires forall i | 0 <= i < |cs| :: n < cs[i] < env.Size()
    ensures Later(st, Operands(env, st, n, cs, rule).state, n + 1)
    ensures Operands(env, st, n, cs, rule).stopped ==> !Operands(env, st, n, cs, rule).state.ok
    decreases env.Size() - n, 0, |cs|
  {
    if cs != [] {
      var before := Operands(env, st, n, cs[..|cs| - 1], rule);
      OperandsLater(env, st, n, cs[..|cs| - 1], rule);
      if !before.stopped {
        TypingLater(env, before.state, cs[|cs| - 1]);
        LaterTransitive(st, before.state, Typing(env, before.state, cs[|cs| - 1]).state, n + 1);
      }
    }
  }

  lemma {:induction false} VisitedLater(env: Env, st: Typed, n: NodeId, cs: seq<NodeId>)
    requires env.Valid() && n < env.Size() && |st.exprType| == env.Size()
    requires forall i | 0 <= i < |cs| :: n < cs[i] < env.Size()
    ensures Later(st, Visited(env, st, n, cs), n + 1)
    decreases env.Size() - n, 0, |cs|
  {
    if cs != [] {
      var before := Visited(env, st, n, cs[..|cs| - 1]);
      VisitedLater(env, st, n, cs[..|cs| - 1]);
      TypingLater(env, before, cs[|cs| - 1]);
      LaterTransitive(st, before, Visited(env, st, n, cs), n + 1);
    }
  }

  /** Operands run to the end exactly when every operand's type is accepted. */
  lemma {:induction false} OperandsStopIff(env: Env, st: Typed, n: NodeId, cs: seq<NodeId>, rule: Expect)
    requires env.Valid() && n < env.Size() && |st.exprType| == env.Size()
    requires forall i | 0 <= i < |cs| :: n < cs[i] < env.Size()
    ensures !Operands(env, st, n, cs, rule).stopped
            <==> forall i | 0 <= i < |cs| :: Accepts(env, rule, i, OperandType(env, st, n, cs, rule, i))
    decreases |cs|
  {
    if cs != [] {
      var init := cs[..|cs| - 1];
      OperandsStopIff(env, st, n, init, rule);
      forall i | 0 <= i < |init|
        ensures OperandType(env, st, n, cs, rule, i) == OperandType(env, st, n, init, rule, i)
      {
        assert cs[..i] == init[..i];
      }
      assert cs[..|init|] == init;
      var before := Operands(env, st, n, init, rule);
      if before.stopped {
        var i :| 0 <= i < |init| && !Accepts(env, rule, i, OperandType(env, st, n, init, rule, i));
        assert !Accepts(env, rule, i, OperandType(env, st, n, cs, rule, i));
      } else {
        assert OperandType(env, st, n, cs, rule, |init|) == Typing(env, before.state, cs[|init|]).t;
      }
    }
  }

  /** Once an operand is rejected, no later operand is visited. */
  lemma {:induction false} OperandsStopEarly(env: Env, st: Typed, n: NodeId, cs: seq<NodeId>, rule: Expect, i: nat, j: nat)
    requires env.Valid() && n < env.Size() && |st.exprType| == env.Size()
    requires forall m | 0 <= m < |cs| :: n < cs[m] < env.Size()
    requires i <= j <= |cs| && Operands(env, st, n, cs[..i], rule).stopped
    ensures Operands(env, st, n, cs[..j], rule) == Operands(env, st, n, cs[..i], rule)
    decreases j
  {
    if j > i {
      OperandsStopEarly(env, st, n, cs, rule, i, j - 1);
      assert cs[..j][..j - 1] == cs[..j - 1];
    }
  }

  /** Dereferencing fails exactly when there are more rounds than pointer layers. */
  lemma {:induction false} StripPtrsDepth(t: Type, k: nat)
    ensures StripPtrs(Some(t), k).None? <==> k > PtrDepth(t)
    ensures k <= PtrDepth(t) ==> StripPtrs(Some(t), k) == Some(DerefTimes(Some(t), k))
    ensures k <= PtrDepth(t) ==> StripPtrs(Some(t), k).value.Some?
    decreases k
  {
    if k > 0 && t.Ptr? {
      StripPtrsDepth(t.underlying, k - 1);
    }
  }

  /** Dereferencing a `k`-level pointer `k` times yields the type it points to. */
  lemma {:induction false} StripPtrsPtrTo(u: Type, k: nat)
    ensures StripPtrs(Some(PtrTo(u, k)), k) == Some(Some(u))
  {
    if k > 0 {
      StripPtrsDepthPtrTo(u, k);
      StripPtrsDepth(PtrTo(u, k), k);
      DerefPtrTo(u, k);
    }
  }

  lemma {:induction false} StripPtrsDepthPtrTo(u: Type, k: nat)
    ensures PtrDepth(PtrTo(u, k)) >= k
  {
    if k > 0 {
      StripPtrsDepthPtrTo(u, k - 1);
    }
  }

  /** Indexing fails exactly when there are more indexes than array layers. */
  lemma {:induction false} StripArraysDepth(t: Type, k: nat)
    ensures StripArrays(Some(t), k).None? <==> k > ArrayDepth(t)
    ensures k <= ArrayDepth(t) ==> StripArrays(Some(t), k).value.Some?
    decreases k
  {
    if k > 0 && t.Array? {
      StripArraysDepth(t.underlying, k - 1);
    }
  }

  /** The binding `Nearest` finds is the one in the first list on the chain that binds the
      name, and it finds one exactly when some list on the chain binds it. */
  lemma {:induction false} NearestIsFirstBinding(tree: Snapshot, l: Option<NodeId>, name: string)
    requires tree.WellFormed()
    ensures var c := Chain(tree, l);
      && (Nearest(tree, l, name).Some? <==> exists i | 0 <= i < |c| :: name in tree.localVariables[c[i]])
      && (Nearest(tree, l, name).None? ==> forall i | 0 <= i < |c| :: name !in tree.localVariables[c[i]])
      && (Nearest(tree, l, name).Some? ==>
            exists i | 0 <= i < |c| ::
              && name in tree.localVariables[c[i]]
              && Nearest(tree, l, name).value == tree.localVariables[c[i]][name]
              && forall j | 0 <= j < i :: name !in tree.localVariables[c[j]])
    decreases if l.Some? then l.value + 1 else 0
  {
    if l.Some? && l.value < |tree.kinds| {
      assert NodeIn(tree.kinds, tree.list, l.value);
      var c := Chain(tree, l);
      var rest := Chain(tree, tree.list[l.value]);
      assert c == [l.value] + rest;
      if name in tree.localVariables[l.value] {
        assert name in tree.localVariables[c[0]];
      } else {
        NearestIsFirstBinding(tree, tree.list[l.value], name);
        assert Nearest(tree, l, name) == Nearest(tree, tree.list[l.value], name);
        assert forall i | 0 <= i < |rest| :: c[i + 1] == rest[i];
        if Nearest(tree, l, name).Some? {
          var i :| 0 <= i < |rest| && name in tree.localVariables[rest[i]]
                   && Nearest(tree, l, name).value == tree.localVariables[rest[i]][name]
                   && forall j | 0 <= j < i :: name !in tree.localVariables[rest[j]];
          assert forall j | 0 <= j < i + 1 :: name !in tree.localVariables[c[j]] by {
            forall j | 0 <= j < i + 1 ensures name !in tree.localVariables[c[j]] {
              if j > 0 {
                assert c[j] == rest[j - 1];
              }
            }
          }
        } else {
          assert Nearest(tree, tree.list[l.value], name).None?;
          forall i | 0 <= i < |c| ensures name !in tree.localVariables[c[i]] {
            if i > 0 {
              assert c[i] == rest[i - 1];
              assert name !in tree.localVariables[rest[i - 1]];
            }
          }
        }
      }
    }
  }

  /** An add/sub or mul/div chain has type `int` exactly when every operand has type `int`;
      otherwise it has the invalid type and `ok_` is cleared. */
  lemma ArithmeticRule(env: Env, st: Typed, n: NodeId)
    requires env.Valid() && n < env.Size() && |st.exprType| == env.Size()
    requires NodeIn(env.tree.kinds, env.tree.list, n)
    requires env.tree.kinds[n].AddSub? || env.tree.kinds[n].MulDiv?
    requires IntId(env.named).Some?
    ensures var k := env.tree.kinds[n];
      var cs := if k.AddSub? then Expressions(k.terms) else Expressions(k.factors);
      var r := Typing(env, st, n);
      && ((r.t == IntId(env.named))
            <==> (forall i | 0 <= i < |cs| :: OperandType(env, st, n, cs, Ints, i) == IntId(env.named)))
      && (r.t != IntId(env.named) ==> r.t.None? && !r.state.ok)
  {
    var k := env.tree.kinds[n];
    var cs := if k.AddSub? then Expressions(k.terms) else Expressions(k.factors);
    OperandsStopIff(env, st, n, cs, Ints);
    OperandsLater(env, st, n, cs, Ints);
  }

  /** Indexing has a type exactly when the indexed expression is an array with at least as
      many layers as there are indexes and every index is `int`; the type is what is left
      after one array layer per index. Otherwise `ok_` is cleared. */
  lemma IndexingRule(env: Env, st: Typed, n: NodeId)
    requires env.Valid() && n < env.Size() && |st.exprType| == env.Size()
    requires NodeIn(env.tree.kinds, env.tree.list, n)
    requires env.tree.kinds[n].Indexing?
    ensures var k := env.tree.kinds[n];
      var b := Typing(env, st, k.indexed);
      var r := Typing(env, st, n);
      && (r.t.Some? <==>
            && b.t.Some? && b.t.value.IsArray() && |k.indexes| <= ArrayDepth(b.t.value)
            && forall i | 0 <= i < |k.indexes| ::
                 OperandType(env, b.state, n, k.indexes, Ints, i) == IntId(env.named))
      && (r.t.Some? ==> StripArrays(b.t, |k.indexes|) == Some(r.t))
      && (r.t.None? ==> !r.state.ok)
  {
    var k := env.tree.kinds[n];
    var b := Typing(env, st, k.indexed);
    if b.t.Some? && b.t.value.IsArray() {
      OperandsStopIff(env, b.state, n, k.indexes, Ints);
      OperandsLater(env, b.state, n, k.indexes, Ints);
      StripArraysDepth(b.t.value, |k.indexes|);
    }
  }

  /** `*...*e` with `k` stars has a type exactly when `e`'s type has at least `k` pointer
      layers, and that type is `getDeref` applied `k` times; in particular a `k`-level
      pointer to `u` dereferenced `k` times has type `u`. Otherwise `ok_` is cleared. */
  lemma DerefRule(env: Env, st: Typed, n: NodeId)
    requires env.Valid() && n < env.Size() && |st.exprType| == env.Size()
    requires NodeIn(env.tree.kinds, env.tree.list, n)
    requires env.tree.kinds[n].OpDeref?
    ensures var k := env.tree.kinds[n];
      var e := Typing(env, st, k.expression);
      var r := Typing(env, st, n);
      && (k.derefCount == 0 ==> r.t == e.t)
      && (k.derefCount > 0 ==>
            (r.t.Some? <==> e.t.Some? && k.derefCount <= PtrDepth(e.t.value)))
      && (r.t.Some? ==> r.t == DerefTimes(e.t, k.derefCount))
      && (forall u: Type | e.t == Some(PtrTo(u, k.derefCount)) :: r.t == Some(u))
      && (r.t.None? && k.derefCount > 0 ==> !r.state.ok)
  {
    var k := env.tree.kinds[n];
    var e := Typing(env, st, k.expression);
    if e.t.Some? {
      StripPtrsDepth(e.t.value, k.derefCount);
    }
    forall u: Type | e.t == Some(PtrTo(u, k.derefCount)) ensures Typing(env, st, n).t == Some(u) {
      StripPtrsPtrTo(u, k.derefCount);
    }
  }

  /** `&v` has type pointer-to the type of `v`, which dereferencing once gives back. */
  lemma AddressOfRule(env: Env, st: Typed, n: NodeId)
    requires env.Valid() && n < env.Size() && |st.exprType| == env.Size()
    requires NodeIn(env.tree.kinds, env.tree.list, n)
    requires env.tree.kinds[n].OpRef?
    ensures var v := Typing(env, st, env.tree.kinds[n].value);
      var r := Typing(env, st, n);
      && (v.t.Some? ==> r.t.Some? && r.t.value.IsPtr() && r.t.value.GetDeref() == v.t)
      && (v.t.None? ==> r.t.None? && !r.state.ok)
  {
  }

  /** A call has the callee's return type exactly when the argument count matches and every
      argument's type is the same as its parameter's; an arity mismatch fails before any
      argument is visited. */
  lemma CallRule(env: Env, st: Typed, n: NodeId)
    requires env.Valid() && n < env.Size() && |st.exprType| == env.Size()
    requires NodeIn(env.tree.kinds, env.tree.list, n)
    requires env.tree.kinds[n].Call?
    ensures env.tree.callee[n].None? ==> Typing(env, st, n) == Fail(st)
    ensures env.tree.callee[n].Some? ==>
      var args := env.tree.kinds[n].arguments;
      var f := env.tree.callee[n].value;
      var r := Typing(env, st, n);
      && (|f.parameters| != |args| ==> r == Fail(st))
      && (|f.parameters| == |args| ==>
            && ((forall i | 0 <= i < |args| ::
                   env.same(f.parameters[i], OperandType(env, st, n, args, Params(f.parameters), i)))
                ==> r.t == f.returnType && r.state.exprType[n] == f.returnType)
            && ((exists i | 0 <= i < |args| ::
                   !env.same(f.parameters[i], OperandType(env, st, n, args, Params(f.parameters), i)))
                ==> r.t.None? && !r.state.ok))
  {
    var args := env.tree.kinds[n].arguments;
    var f := env.tree.callee[n];
    if f.Some? && |f.value.parameters| == |args| {
      OperandsStopIff(env, st, n, args, Params(f.value.parameters));
      OperandsLater(env, st, n, args, Params(f.value.parameters));
    }
  }

  /** A variable takes the type bound to its name in the first statement list on its chain
      that binds it, and an unbound name is left untyped without clearing `ok_`. */
  lemma VariableRule(env: Env, st: Typed, n: NodeId)
    requires env.Valid() && n < env.Size() && |st.exprType| == env.Size()
    requires env.tree.kinds[n].Variable?
    ensures var name := env.tree.kinds[n].name;
      var c := Chain(env.tree, env.tree.list[n]);
      var r := Typing(env, st, n);
      && r.state.ok == st.ok
      && (forall i | 0 <= i < |c| && name in env.tree.localVariables[c[i]]
                     && (forall j | 0 <= j < i :: name !in env.tree.localVariables[c[j]]) ::
            r.t == env.tree.localVariables[c[i]][name] && r.state.exprType[n] == r.t)
      && ((forall i | 0 <= i < |c| :: name !in env.tree.localVariables[c[i]]) ==> r == Outcome(st, None))
  {
    var name := env.tree.kinds[n].name;
    var c := Chain(env.tree, env.tree.list[n]);
    var lv := env.tree.localVariables;
    NearestIsFirstBinding(env.tree, env.tree.list[n], name);
    forall i | 0 <= i < |c| && name in lv[c[i]] && (forall j | 0 <= j < i :: name !in lv[c[j]])
      ensures Nearest(env.tree, env.tree.list[n], name) == Some(lv[c[i]][name])
    {
      var i0 :| 0 <= i0 < |c| && name in lv[c[i0]]
                && Nearest(env.tree, env.tree.list[n], name).value == lv[c[i0]][name]
                && forall j | 0 <= j < i0 :: name !in lv[c[j]];
      assert !(i0 < i) && !(i < i0);
    }
  }
}
