/** The pure evaluator on every environment, cyclic ones included. Fuel bounds how
    deeply lookups may nest, and evaluation has no answer where it runs out. */
module EvalRuns {
  import opened Prelude
  import opened Rho
  import opened PureEval

  type Outcome = Option<Result<Par, EvalError>>

  function RunPar(par: Par, env: Env, fuel: nat): Outcome
    decreases fuel, par, |par.exprs| + 1
  {
    RunFrom(par, 0, par.(exprs := []), env, fuel)
  }

  function RunFrom(par: Par, i: nat, acc: Par, env: Env, fuel: nat): Outcome
    requires i <= |par.exprs|
    decreases fuel, par, |par.exprs| - i
  {
    if i == |par.exprs| then Some(Ok(acc))
    else
      var e := RunExpr(par.exprs[i], env, fuel);
      if e.None? || e.value.Err? then e else RunFrom(par, i + 1, Concat(acc, e.value.value), env, fuel)
  }

  function RunOption(p: Option<Par>, env: Env, fuel: nat): Outcome
    decreases fuel, p, 0
  {
    if p.None? then Some(Err(MissingExprInstance)) else RunPar(p.value, env, fuel)
  }

  /** Fuel is spent at a lookup only. A right operand is not evaluated after a fault
      of the left one. */
  function RunExpr(e: Expr, env: Env, fuel: nat): Outcome
    decreases fuel, e, 0
  {
    match e.instance
    case None => Some(Err(MissingExprInstance))
    case Some(EVar(v)) =>
      (match v
       case Some(BoundVar(k)) =>
         if !Resolves(env, k) then Some(Err(UnboundVariable(k)))
         else if fuel == 0 then None
         else RunPar(env.bindings[Position(env, k)], env, fuel - 1)
       case Some(FreeVar(k)) => Some(Err(UnboundVariable(k)))
       case _ => Some(Err(MissingExprInstance)))
    case Some(EUnary(op, p)) =>
      var r := RunOption(p, env, fuel);
      if r.None? then None else Some(UnaryResult(op, r.value))
    case Some(EBinary(op, p1, p2)) =>
      var lhs := RunOption(p1, env, fuel);
      if lhs.None? then None
      else if OperandFault(op, lhs.value).Some? then Some(Err(OperandFault(op, lhs.value).value))
      else
        var rhs := RunOption(p2, env, fuel);
        if rhs.None? then None else Some(BinaryResult(op, lhs.value, rhs.value))
    case Some(Unsupported(kind, _)) => Some(Err(UnsupportedExpression(kind)))
    case _ => Some(Ok(Single(e)))
  }

  // ---- Without cycles every run ends, with the value ----

  lemma {:induction false} RunFromAgrees(par: Par, i: nat, acc: Par, env: Env, fuel: nat)
    requires Acyclic(env) && i <= |par.exprs| && fuel >= Depth(par, env)
    ensures RunFrom(par, i, acc, env, fuel) == Some(EvalFrom(par, i, acc, env))
    decreases fuel, par, |par.exprs| - i
  {
    if i < |par.exprs| {
      RunExprAgrees(par.exprs[i], env, fuel);
      var e := EvalExpr(par.exprs[i], env);
      if e.Ok? {
        RunFromAgrees(par, i + 1, Concat(acc, e.value), env, fuel);
      }
    }
  }

  lemma {:induction false} RunOptionAgrees(p: Option<Par>, env: Env, fuel: nat)
    requires Acyclic(env) && fuel >= DepthOption(p, env)
    ensures RunOption(p, env, fuel) == Some(EvalOption(p, env))
    decreases fuel, p, 0
  {
    if p.Some? {
      RunAgrees(p.value, env, fuel);
    }
  }

  lemma {:induction false} RunExprAgrees(e: Expr, env: Env, fuel: nat)
    requires Acyclic(env) && fuel >= DepthExpr(e, env)
    ensures RunExpr(e, env, fuel) == Some(EvalExpr(e, env))
    decreases fuel, e, 0
  {
    match e.instance
    case Some(EVar(Some(BoundVar(k)))) =>
      if Resolves(env, k) {
        RunAgrees(env.bindings[Position(env, k)], env, fuel - 1);
      }
    case Some(EUnary(_, p)) => RunOptionAgrees(p, env, fuel);
    case Some(EBinary(_, p1, p2)) =>
      RunOptionAgrees(p1, env, fuel);
      RunOptionAgrees(p2, env, fuel);
    case _ =>
  }

  /** In an acyclic environment the depth of the term is fuel enough, and the answer
      is its value or its error. */
  lemma {:induction false} RunAgrees(par: Par, env: Env, fuel: nat)
    requires Acyclic(env) && fuel >= Depth(par, env)
    ensures RunPar(par, env, fuel) == Some(EvalPar(par, env))
    decreases fuel, par, |par.exprs| + 1
  {
    RunFromAgrees(par, 0, par.(exprs := []), env, fuel);
  }

  // ---- Fuel only decides whether there is an answer ----

  lemma {:induction false} MoreFuelFrom(par: Par, i: nat, acc: Par, env: Env, fuel: nat, more: nat)
    requires i <= |par.exprs| && fuel <= more && RunFrom(par, i, acc, env, fuel).Some?
    ensures RunFrom(par, i, acc, env, more) == RunFrom(par, i, acc, env, fuel)
    decreases fuel, par, |par.exprs| - i
  {
    if i < |par.exprs| {
      MoreFuelExpr(par.exprs[i], env, fuel, more);
      var e := RunExpr(par.exprs[i], env, fuel).value;
      if e.Ok? {
        MoreFuelFrom(par, i + 1, Concat(acc, e.value), env, fuel, more);
      }
    }
  }

  lemma {:induction false} MoreFuelOption(p: Option<Par>, env: Env, fuel: nat, more: nat)
    requires fuel <= more && RunOption(p, env, fuel).Some?
    ensures RunOption(p, env, more) == RunOption(p, env, fuel)
    decreases fuel, p, 0
  {
    if p.Some? {
      MoreFuelChangesNothing(p.value, env, fuel, more);
    }
  }

  lemma {:induction false} MoreFuelExpr(e: Expr, env: Env, fuel: nat, more: nat)
    requires fuel <= more && RunExpr(e, env, fuel).Some?
    ensures RunExpr(e, env, more) == RunExpr(e, env, fuel)
    decreases fuel, e, 0
  {
    match e.instance
    case Some(EVar(Some(BoundVar(k)))) =>
      if Resolves(env, k) {
        MoreFuelChangesNothing(env.bindings[Position(env, k)], env, fuel - 1, more - 1);
      }
    case Some(EUnary(_, p)) => MoreFuelOption(p, env, fuel, more);
    case Some(EBinary(op, p1, p2)) =>
      MoreFuelOption(p1, env, fuel, more);
      if OperandFault(op, RunOption(p1, env, fuel).value).None? {
        MoreFuelOption(p2, env, fuel, more);
      }
    case _ =>
  }

  /** An answer once given is the answer for all larger fuel, so a term has at most
      one. */
  lemma {:induction false} MoreFuelChangesNothing(par: Par, env: Env, fuel: nat, more: nat)
    requires fuel <= more && RunPar(par, env, fuel).Some?
    ensures RunPar(par, env, more) == RunPar(par, env, fuel)
    decreases fuel, par, |par.exprs| + 1
  {
    MoreFuelFrom(par, 0, par.(exprs := []), env, fuel, more);
  }

  // ---- Results are values ----

  /** What evaluation leaves alone. */
  predicate IsValue(e: Expr) {
    match e.instance
    case Some(GBool(_)) | Some(GInt(_)) | Some(GString(_)) | Some(GDouble(_)) | Some(GFloat32(_)) => true
    case Some(GOther(_, _)) | Some(EList(_, _, _, _, _)) | Some(EMap(_, _, _, _)) => true
    case _ => false
  }

  predicate AllValues(exprs: seq<Expr>) {
    forall i :: 0 <= i < |exprs| ==> IsValue(exprs[i])
  }

  lemma {:induction false} RunFromYieldsValues(par: Par, i: nat, acc: Par, env: Env, fuel: nat)
    requires i <= |par.exprs| && AllValues(acc.exprs)
    requires RunFrom(par, i, acc, env, fuel).Some? && RunFrom(par, i, acc, env, fuel).value.Ok?
    ensures AllValues(RunFrom(par, i, acc, env, fuel).value.value.exprs)
    decreases fuel, par, |par.exprs| - i
  {
    if i < |par.exprs| {
      RunExprYieldsValues(par.exprs[i], env, fuel);
      RunFromYieldsValues(par, i + 1, Concat(acc, RunExpr(par.exprs[i], env, fuel).value.value), env, fuel);
    }
  }

  lemma {:induction false} RunExprYieldsValues(e: Expr, env: Env, fuel: nat)
    requires RunExpr(e, env, fuel).Some? && RunExpr(e, env, fuel).value.Ok?
    ensures AllValues(RunExpr(e, env, fuel).value.value.exprs)
    decreases fuel, e, 0
  {
    match e.instance
    case Some(EVar(Some(BoundVar(k)))) =>
      var p := env.bindings[Position(env, k)];
      RunFromYieldsValues(p, 0, p.(exprs := []), env, fuel - 1);
    case _ =>
  }

  lemma {:induction false} ValuesStay(par: Par, i: nat, acc: Par, env: Env, fuel: nat)
    requires i <= |par.exprs| && AllValues(par.exprs)
    ensures RunFrom(par, i, acc, env, fuel) == Some(Ok(acc.(exprs := acc.exprs + par.exprs[i..])))
    decreases |par.exprs| - i
  {
    if i == |par.exprs| {
      assert acc.exprs + par.exprs[i..] == acc.exprs;
    } else {
      var e := par.exprs[i];
      assert RunExpr(e, env, fuel) == Some(Ok(Single(e)));
      TakeBare(acc, Single(e));
      ValuesStay(par, i + 1, Concat(acc, Single(e)), env, fuel);
      assert acc.exprs + [e] + par.exprs[i + 1..] == acc.exprs + par.exprs[i..];
    }
  }

  /** Evaluating a result again, in any environment and with any fuel, gives it
      back. */
  lemma {:induction false} RunIsIdempotent(par: Par, env: Env, fuel: nat, later: Env, other: nat)
    requires RunPar(par, env, fuel).Some? && RunPar(par, env, fuel).value.Ok?
    ensures RunPar(RunPar(par, env, fuel).value.value, later, other) == RunPar(par, env, fuel)
  {
    RunFromYieldsValues(par, 0, par.(exprs := []), env, fuel);
    var v := RunPar(par, env, fuel).value.value;
    ValuesStay(v, 0, v.(exprs := []), later, other);
    assert [] + v.exprs[0..] == v.exprs;
  }

  /** In particular, between acyclic environments. */
  lemma {:induction false} EvalIsIdempotent(par: Par, env: Env, later: Env)
    requires Acyclic(env) && Acyclic(later) && EvalPar(par, env).Ok?
    ensures EvalPar(EvalPar(par, env).value, later) == EvalPar(par, env)
  {
    var v := EvalPar(par, env).value;
    RunAgrees(par, env, Depth(par, env));
    RunAgrees(v, later, Depth(v, later));
    RunIsIdempotent(par, env, Depth(par, env), later, Depth(v, later));
  }

  // ---- Cycles ----

  const SELF: Par := Of(EVar(Some(BoundVar(0))))

  /** A binding that is a reference to itself: no fuel is enough. */
  lemma {:induction false} SelfReferenceNeverEnds(fuel: nat)
    ensures RunPar(SELF, Env([SELF], 0), fuel).None?
    decreases fuel
  {
    if fuel > 0 {
      SelfReferenceNeverEnds(fuel - 1);
    }
    assert RunExpr(SELF.exprs[0], Env([SELF], 0), fuel).None?;
  }

  /** A cycle that evaluation does not reach does no harm: an error in front of it
      ends the evaluation. */
  lemma CutOffCycleExample() returns (env: Env)
    ensures !Acyclic(env)
    ensures RunPar(SELF, env, 1) == Some(Err(UnsupportedExpression(Method)))
  {
    var bad := Expr(Some(Unsupported(Method, 0)));
    var looping := NIL.(exprs := [bad, SELF.exprs[0]]);
    env := Env([looping], 0);
    forall rank | |rank| == 1 ensures !Ranks(env, rank) {
      assert ReachExpr(looping.exprs[1], env, rank) == rank[0] + 1;
      assert ReachFrom(looping, 0, env, rank) >= rank[0] + 1;
    }
    assert RunExpr(bad, env, 0) == Some(Err(UnsupportedExpression(Method)));
    assert looping.exprs[0] == bad;
    assert RunPar(looping, env, 0) == Some(Err(UnsupportedExpression(Method)));
    assert RunExpr(SELF.exprs[0], env, 1) == RunPar(looping, env, 0);
  }

  // ---- De Bruijn indices ----

  function Variable(k: int): Par {
    Of(EVar(Some(BoundVar(k))))
  }

  lemma {:induction false} RunOfSingle(e: Expr, env: Env, fuel: nat)
    ensures RunPar(Single(e), env, fuel) == RunExpr(e, env, fuel)
  {
    var r := RunExpr(e, env, fuel);
    assert RunFrom(Single(e), 0, NIL, env, fuel) ==
           if r.None? || r.value.Err? then r else RunFrom(Single(e), 1, Concat(NIL, r.value.value), env, fuel);
    if r.Some? && r.value.Ok? {
      ConcatUnit(r.value.value);
    }
  }

  /** Indices count from the binding pushed last, beginning at the shift; one outside the
      stack is unbound. */
  lemma IndexCountsFromTop(bindings: seq<Par>, shift: int, k: int, fuel: nat)
    ensures RunPar(Variable(k), Env(bindings, shift), fuel + 1)
         == if shift <= k < shift + |bindings|
            then RunPar(bindings[|bindings| - 1 - (k - shift)], Env(bindings, shift), fuel)
            else Some(Err(UnboundVariable(k)))
  {
    RunOfSingle(Variable(k).exprs[0], Env(bindings, shift), fuel + 1);
  }

  /** A binding just pushed is index 0 and evaluates as it does itself. */
  lemma {:induction false} PushedIsIndexZero(env: Env, a: Par, fuel: nat)
    requires env.shift == 0
    ensures RunPar(Variable(0), Put(env, a), fuel + 1) == RunPar(a, Put(env, a), fuel)
  {
    IndexCountsFromTop(Put(env, a).bindings, 0, 0, fuel);
  }

  /** A push moves every other index up by one, and a shift by j moves all by j. */
  lemma IndicesMove(env: Env, a: Par, j: int, k: int)
    ensures var e := Put(env, a);
            env.shift == 0 && k >= 0 ==>
              && (Resolves(e, k + 1) <==> Resolves(env, k))
              && (Resolves(env, k) ==> e.bindings[Position(e, k + 1)] == env.bindings[Position(env, k)])
    ensures var e := Shifted(env, j);
            && (Resolves(e, k + j) <==> Resolves(env, k))
            && (Resolves(env, k) ==> e.bindings[Position(e, k + j)] == env.bindings[Position(env, k)])
    ensures Resolves(env, k) <==> env.shift <= k < env.shift + |env.bindings|
  {
  }

  // ---- Expressions side by side ----

  lemma {:induction false} RunFromLonger(par: Par, more: Par, i: nat, acc: Par, env: Env, fuel: nat)
    requires i <= |par.exprs| <= |more.exprs| && more.exprs[..|par.exprs|] == par.exprs
    ensures var r := RunFrom(par, i, acc, env, fuel);
            RunFrom(more, i, acc, env, fuel) == if r.None? || r.value.Err? then r
                                                else RunFrom(more, |par.exprs|, r.value.value, env, fuel)
    decreases |par.exprs| - i
  {
    if i < |par.exprs| {
      assert more.exprs[i] == more.exprs[..|par.exprs|][i] == par.exprs[i];
      var e := RunExpr(par.exprs[i], env, fuel);
      if e.Some? && e.value.Ok? {
        RunFromLonger(par, more, i + 1, Concat(acc, e.value.value), env, fuel);
      }
    }
  }

  /** `v` is `u` and `w` in parallel, field by field and in this order. */
  ghost predicate InParallel(u: Par, w: Par, v: Par) {
    && v.exprs == u.exprs + w.exprs
    && v.processes.sends == u.processes.sends + w.processes.sends
    && v.processes.receives == u.processes.receives + w.processes.receives
    && v.processes.news == u.processes.news + w.processes.news
    && v.processes.matches == u.processes.matches + w.processes.matches
    && v.processes.unforgeables == u.processes.unforgeables + w.processes.unforgeables
    && v.processes.bundles == u.processes.bundles + w.processes.bundles
    && v.processes.connectives == u.processes.connectives + w.processes.connectives
    && v.processes.conditionals == u.processes.conditionals + w.processes.conditionals
    && v.connectiveUsed == (u.connectiveUsed || w.connectiveUsed)
    && (forall i: nat :: ByteAt(v.locallyFree, i) == ByteAt(u.locallyFree, i) | ByteAt(w.locallyFree, i))
  }

  /** A term with one more expression evaluates as the term and then the expression: the
      first that has no value decides, and otherwise the results stand in parallel. */
  lemma {:induction false} OneMoreExpression(par: Par, e: Expr, env: Env, fuel: nat)
    ensures var first, last := RunPar(par, env, fuel), RunExpr(e, env, fuel);
            var r := RunPar(par.(exprs := par.exprs + [e]), env, fuel);
            if first.None? || first.value.Err? then r == first
            else if last.None? || last.value.Err? then r == last
            else r.Some? && r.value.Ok? && InParallel(first.value.value, last.value.value, r.value.value)
  {
    var more := par.(exprs := par.exprs + [e]);
    var start := par.(exprs := []);
    RunFromLonger(par, more, 0, start, env, fuel);
    var first, last := RunPar(par, env, fuel), RunExpr(e, env, fuel);
    if first.Some? && first.value.Ok? && last.Some? && last.value.Ok? {
      var u, w := first.value.value, last.value.value;
      assert RunFrom(more, |par.exprs|, u, env, fuel) == RunFrom(more, |more.exprs|, Concat(u, w), env, fuel);
      UnionAt(u.locallyFree, w.locallyFree);
    }
  }

  // ---- The loop ----

  /** `eval`: the accumulator starts with the process fields and takes in the value
      of each expression in turn. */
  method Eval(par: Par, env: Env, fuel: nat) returns (r: Outcome)
    ensures r == RunPar(par, env, fuel)
    ensures Acyclic(env) && fuel >= Depth(par, env) ==> r == Some(EvalPar(par, env))
  {
    if Acyclic(env) && fuel >= Depth(par, env) {
      RunAgrees(par, env, fuel);
    }
    var acc := par.(exprs := []);
    for i := 0 to |par.exprs|
      invariant RunPar(par, env, fuel) == RunFrom(par, i, acc, env, fuel)
    {
      var evaled := RunExpr(par.exprs[i], env, fuel);
      if evaled.None? || evaled.value.Err? {
        return evaled;
      }
      var free := UnionBytes(acc.locallyFree, evaled.value.value.locallyFree);
      acc := Concat(acc, evaled.value.value).(locallyFree := free);
    }
    return Some(Ok(acc));
  }
}
