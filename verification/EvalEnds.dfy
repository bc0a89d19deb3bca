/** When evaluation ends: exactly when it does not come to need a binding out of a
    set in which each needs another. */
module EvalEnds {
  import opened Prelude
  import opened Rho
  import opened PureEval
  import opened EvalRuns

  ghost predicate NeverEnds(par: Par, env: Env) {
    forall fuel :: RunPar(par, env, fuel).None?
  }

  ghost predicate NeverEndsExpr(e: Expr, env: Env) {
    forall fuel :: RunExpr(e, env, fuel).None?
  }

  ghost predicate NeverFails(e: Expr, env: Env) {
    forall fuel :: RunExpr(e, env, fuel).Some? ==> RunExpr(e, env, fuel).value.Ok?
  }

  /** The operand, if it has a value, lets the operation go on to the other one. */
  ghost predicate NeverFaults(op: BinaryOp, p: Option<Par>, env: Env) {
    forall fuel :: RunOption(p, env, fuel).Some? ==> OperandFault(op, RunOption(p, env, fuel).value).None?
  }

  // ---- What evaluation needs ----

  /** Evaluating the term looks up binding `q` outright, in an expression that no
      error comes before. */
  ghost predicate Needs(par: Par, env: Env, q: nat)
    decreases par, 1
  {
    exists i :: 0 <= i < |par.exprs| && NeedsAt(par, i, env, q)
  }

  ghost predicate NeedsAt(par: Par, i: nat, env: Env, q: nat)
    requires i < |par.exprs|
    decreases par, 0
  {
    NeedsExpr(par.exprs[i], env, q) && forall k :: 0 <= k < i ==> NeverFails(par.exprs[k], env)
  }

  ghost predicate NeedsOption(p: Option<Par>, env: Env, q: nat)
    decreases p, 0
  {
    p.Some? && Needs(p.value, env, q)
  }

  ghost predicate NeedsExpr(e: Expr, env: Env, q: nat)
    decreases e, 0
  {
    match e.instance
    case Some(EVar(Some(BoundVar(k)))) => Resolves(env, k) && q == Position(env, k)
    case Some(EUnary(_, p)) => NeedsOption(p, env, q)
    case Some(EBinary(op, p1, p2)) =>
      NeedsOption(p1, env, q) || (NeedsOption(p2, env, q) && NeverFaults(op, p1, env))
    case _ => false
  }

  ghost predicate NeedsWithin(env: Env, p: nat, c: set<nat>) {
    p < |env.bindings| && exists q :: q in c && Needs(env.bindings[p], env, q)
  }

  /** Each binding in the set needs one of the set: as the set is finite, they run in
      a cycle. */
  ghost predicate Circular(env: Env, c: set<nat>) {
    forall p {:trigger NeedsWithin(env, p, c)} :: p in c ==> NeedsWithin(env, p, c)
  }

  // ---- Needing a circular set is endless ----

  lemma {:induction false} StuckFrom(par: Par, i: nat, at: nat, acc: Par, env: Env, c: set<nat>, q: nat, fuel: nat)
    requires Circular(env, c) && q in c && i <= at < |par.exprs| && NeedsAt(par, at, env, q)
    ensures RunFrom(par, i, acc, env, fuel).None?
    decreases fuel, par, |par.exprs| - i
  {
    if i == at {
      StuckExpr(par.exprs[i], env, c, q, fuel);
    } else {
      assert NeverFails(par.exprs[i], env);
      var e := RunExpr(par.exprs[i], env, fuel);
      if e.Some? {
        StuckFrom(par, i + 1, at, Concat(acc, e.value.value), env, c, q, fuel);
      }
    }
  }

  lemma {:induction false} StuckExpr(e: Expr, env: Env, c: set<nat>, q: nat, fuel: nat)
    requires Circular(env, c) && q in c && NeedsExpr(e, env, q)
    ensures RunExpr(e, env, fuel).None?
    decreases fuel, e, 0
  {
    match e.instance
    case Some(EVar(_)) =>
      if fuel > 0 {
        assert NeedsWithin(env, q, c);
        var next :| next in c && Needs(env.bindings[q], env, next);
        NeedingIsEndless(env.bindings[q], env, c, next, fuel - 1);
      }
    case Some(EUnary(_, p)) => NeedingIsEndless(p.value, env, c, q, fuel);
    case Some(EBinary(op, p1, p2)) =>
      if NeedsOption(p1, env, q) {
        NeedingIsEndless(p1.value, env, c, q, fuel);
      } else {
        NeedingIsEndless(p2.value, env, c, q, fuel);
        assert NeverFaults(op, p1, env);
      }
  }

  lemma {:induction false} NeedingIsEndless(par: Par, env: Env, c: set<nat>, q: nat, fuel: nat)
    requires Circular(env, c) && q in c && Needs(par, env, q)
    ensures RunPar(par, env, fuel).None?
    decreases fuel, par, |par.exprs| + 1
  {
    var at :| 0 <= at < |par.exprs| && NeedsAt(par, at, env, q);
    StuckFrom(par, 0, at, par.(exprs := []), env, c, q, fuel);
  }

  // ---- What is endless needs something endless ----

  lemma {:induction false} OneAnswer(e: Expr, env: Env, fuel: nat, other: nat)
    requires RunExpr(e, env, fuel).Some? && RunExpr(e, env, other).Some?
    ensures RunExpr(e, env, fuel) == RunExpr(e, env, other)
  {
    if fuel <= other {
      MoreFuelExpr(e, env, fuel, other);
    } else {
      MoreFuelExpr(e, env, other, fuel);
    }
  }

  lemma {:induction false} OneAnswerOption(p: Option<Par>, env: Env, fuel: nat, other: nat)
    requires RunOption(p, env, fuel).Some? && RunOption(p, env, other).Some?
    ensures RunOption(p, env, fuel) == RunOption(p, env, other)
  {
    if fuel <= other {
      MoreFuelOption(p, env, fuel, other);
    } else {
      MoreFuelOption(p, env, other, fuel);
    }
  }

  ghost predicate EndlessNeed(env: Env, q: nat) {
    q < |env.bindings| && NeverEnds(env.bindings[q], env)
  }

  lemma {:induction false} EndlessFrom(par: Par, i: nat, acc: Par, env: Env, least: nat) returns (q: nat)
    requires i <= |par.exprs| && forall k :: 0 <= k < i ==> NeverFails(par.exprs[k], env)
    requires forall fuel :: fuel >= least ==> RunFrom(par, i, acc, env, fuel).None?
    ensures Needs(par, env, q) && EndlessNeed(env, q)
    decreases par, |par.exprs| - i
  {
    assert RunFrom(par, i, acc, env, least).None?;
    var e := par.exprs[i];
    if NeverEndsExpr(e, env) {
      q := EndlessExpr(e, env);
      assert NeedsAt(par, i, env, q);
    } else {
      var ended: nat :| RunExpr(e, env, ended).Some?;
      var v := RunExpr(e, env, ended).value;
      var enough := Max(least, ended);
      MoreFuelExpr(e, env, ended, enough);
      assert RunFrom(par, i, acc, env, enough).None?;
      forall fuel | RunExpr(e, env, fuel).Some? ensures RunExpr(e, env, fuel).value.Ok? {
        OneAnswer(e, env, ended, fuel);
      }
      var next, grown := i + 1, Concat(acc, v.value);
      forall fuel: nat | fuel >= enough ensures RunFrom(par, next, grown, env, fuel).None? {
        MoreFuelExpr(e, env, ended, fuel);
        assert RunFrom(par, i, acc, env, fuel).None?;
      }
      q := EndlessFrom(par, next, grown, env, enough);
    }
  }

  lemma {:induction false} EndlessOption(p: Option<Par>, env: Env) returns (q: nat)
    requires forall fuel :: RunOption(p, env, fuel).None?
    ensures NeedsOption(p, env, q) && EndlessNeed(env, q)
    decreases p, 0
  {
    assert RunOption(p, env, 0).None?;
    forall fuel ensures RunPar(p.value, env, fuel).None? {
      assert RunOption(p, env, fuel).None?;
    }
    q := EndlessNeeds(p.value, env);
  }

  lemma {:induction false} EndlessOperand(
      e: Expr, env: Env, op: BinaryOp, p1: Option<Par>, p2: Option<Par>, ended: nat, fuel: nat)
    requires e.instance == Some(EBinary(op, p1, p2)) && NeverEndsExpr(e, env)
    requires RunOption(p1, env, ended).Some?
    ensures OperandFault(op, RunOption(p1, env, ended).value).None? && RunOption(p2, env, fuel).None?
  {
    assert RunExpr(e, env, ended).None?;
    if RunOption(p2, env, fuel).Some? {
      var enough := Max(ended, fuel);
      MoreFuelOption(p1, env, ended, enough);
      MoreFuelOption(p2, env, fuel, enough);
      assert RunExpr(e, env, enough).None?;
    }
  }

  lemma {:induction false} EndlessExpr(e: Expr, env: Env) returns (q: nat)
    requires NeverEndsExpr(e, env)
    ensures NeedsExpr(e, env, q) && EndlessNeed(env, q)
    decreases e, 0
  {
    assert RunExpr(e, env, 0).None?;
    match e.instance
    case Some(EVar(Some(BoundVar(k)))) =>
      q := Position(env, k);
      forall fuel: nat ensures RunPar(env.bindings[q], env, fuel).None? {
        assert RunExpr(e, env, fuel + 1).None?;
      }
    case Some(EUnary(_, p)) =>
      forall fuel ensures RunOption(p, env, fuel).None? {
        assert RunExpr(e, env, fuel).None?;
      }
      q := EndlessOption(p, env);
    case Some(EBinary(op, p1, p2)) =>
      if forall fuel :: RunOption(p1, env, fuel).None? {
        q := EndlessOption(p1, env);
      } else {
        var ended: nat :| RunOption(p1, env, ended).Some?;
        forall fuel ensures RunOption(p2, env, fuel).None? {
          EndlessOperand(e, env, op, p1, p2, ended, fuel);
        }
        EndlessOperand(e, env, op, p1, p2, ended, 0);
        forall fuel | RunOption(p1, env, fuel).Some?
          ensures OperandFault(op, RunOption(p1, env, fuel).value).None?
        {
          OneAnswerOption(p1, env, ended, fuel);
        }
        q := EndlessOption(p2, env);
      }
  }

  /** A term without an answer needs a binding without one. */
  lemma {:induction false} EndlessNeeds(par: Par, env: Env) returns (q: nat)
    requires NeverEnds(par, env)
    ensures Needs(par, env, q) && EndlessNeed(env, q)
    decreases par, |par.exprs| + 1
  {
    forall fuel: nat | fuel >= 0 ensures RunFrom(par, 0, par.(exprs := []), env, fuel).None? {
      assert RunPar(par, env, fuel).None?;
    }
    q := EndlessFrom(par, 0, par.(exprs := []), env, 0);
  }

  /** Evaluation has no answer at any depth if and only if it needs a binding of a
      circular set. */
  lemma {:induction false} NeverEndsIff(par: Par, env: Env)
    ensures NeverEnds(par, env) <==> exists c, q :: Circular(env, c) && q in c && Needs(par, env, q)
  {
    if NeverEnds(par, env) {
      var c := set p: nat | p < |env.bindings| && EndlessNeed(env, p);
      forall p | p in c ensures NeedsWithin(env, p, c) {
        var q := EndlessNeeds(env.bindings[p], env);
        assert q in c;
      }
      var q := EndlessNeeds(par, env);
      assert Circular(env, c) && q in c;
    }
    if c, q :| Circular(env, c) && q in c && Needs(par, env, q) {
      forall fuel ensures RunPar(par, env, fuel).None? {
        NeedingIsEndless(par, env, c, q, fuel);
      }
    }
  }
}
