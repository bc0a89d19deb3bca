/** The environment of the pure evaluator is a delayed substitution: inlining the
    bindings first and evaluating with no environment gives the same value or
    the same error. */
module Substitution {

  import opened Prelude
  import opened Rho
  import opened PureEval

  // ---- Inlining ----

  /** The term with every bound variable that resolves replaced by its binding,
      itself inlined. Collections are left as they are, as evaluation leaves
      them. */
  function Inline(par: Par, env: Env): Par
    requires Acyclic(env)
    decreases Depth(par, env), par, |par.exprs| + 1
  {
    InlineFrom(par, 0, par.(exprs := []), env)
  }

  function InlineFrom(par: Par, i: nat, acc: Par, env: Env): Par
    requires Acyclic(env) && i <= |par.exprs|
    decreases Depth(par, env), par, |par.exprs| - i
  {
    if i == |par.exprs| then acc
    else InlineFrom(par, i + 1, Concat(acc, InlineExpr(par.exprs[i], env)), env)
  }

  function InlineOption(p: Option<Par>, env: Env): Option<Par>
    requires Acyclic(env)
    decreases DepthOption(p, env), p, 0
  {
    if p.None? then None else Some(Inline(p.value, env))
  }

  function InlineExpr(e: Expr, env: Env): Par
    requires Acyclic(env)
    decreases DepthExpr(e, env), e, 0
  {
    match e.instance
    case Some(EVar(Some(BoundVar(k)))) =>
      if Resolves(env, k) then Inline(env.bindings[Position(env, k)], env) else Single(e)
    case Some(EUnary(op, p)) => Of(EUnary(op, InlineOption(p, env)))
    case Some(EBinary(op, p1, p2)) => Of(EBinary(op, InlineOption(p1, env), InlineOption(p2, env)))
    case _ => Single(e)
  }

  // ---- Evaluation without an environment ----

  lemma EmptyIsAcyclic()
    ensures Acyclic(EMPTY)
  {
    assert Ranks(EMPTY, []);
  }

  /** With nothing to look up, an expression yields expressions only. */
  lemma {:induction false} UnboundYieldsBare(e: Expr)
    requires Acyclic(EMPTY) && EvalExpr(e, EMPTY).Ok?
    ensures Bare(EvalExpr(e, EMPTY).value)
  {
  }

  function ExprsOf(r: Result<Par, EvalError>): Result<seq<Expr>, EvalError> {
    if r.Err? then Err(r.error) else Ok(r.value.exprs)
  }

  /** One after the other; the first error wins. */
  function Append(x: Result<seq<Expr>, EvalError>, y: Result<seq<Expr>, EvalError>): Result<seq<Expr>, EvalError> {
    if x.Err? then x else if y.Err? then y else Ok(x.value + y.value)
  }

  lemma AppendLaws(x: Result<seq<Expr>, EvalError>, y: Result<seq<Expr>, EvalError>, z: Result<seq<Expr>, EvalError>)
    ensures Append(Append(x, y), z) == Append(x, Append(y, z))
    ensures Append(Ok([]), x) == x == Append(x, Ok([]))
  {
    if x.Ok? {
      assert [] + x.value == x.value == x.value + [];
      if y.Ok? && z.Ok? {
        assert x.value + y.value + z.value == x.value + (y.value + z.value);
      }
    }
  }

  /** The values of a list of expressions in order, or the first error. */
  function Values(exprs: seq<Expr>): Result<seq<Expr>, EvalError>
    requires Acyclic(EMPTY)
  {
    if exprs == [] then Ok([]) else Append(ExprsOf(EvalExpr(exprs[0], EMPTY)), Values(exprs[1..]))
  }

  function WithExprs(par: Par, values: Result<seq<Expr>, EvalError>): Result<Par, EvalError> {
    if values.Err? then Err(values.error) else Ok(par.(exprs := values.value))
  }

  lemma ValuesAt(exprs: seq<Expr>, i: nat)
    requires Acyclic(EMPTY) && i < |exprs|
    ensures Values(exprs[i..]) == Append(ExprsOf(EvalExpr(exprs[i], EMPTY)), Values(exprs[i + 1..]))
  {
    assert exprs[i..][0] == exprs[i] && exprs[i..][1..] == exprs[i + 1..];
  }

  lemma {:induction false} EvalFromIsValues(par: Par, i: nat, acc: Par)
    requires Acyclic(EMPTY) && i <= |par.exprs|
    ensures EvalFrom(par, i, acc, EMPTY) == WithExprs(acc, Append(Ok(acc.exprs), Values(par.exprs[i..])))
    decreases |par.exprs| - i
  {
    if i == |par.exprs| {
      AppendLaws(Ok(acc.exprs), Ok([]), Ok([]));
    } else {
      var e := EvalExpr(par.exprs[i], EMPTY);
      ValuesAt(par.exprs, i);
      AppendLaws(Ok(acc.exprs), ExprsOf(e), Values(par.exprs[i + 1..]));
      if e.Ok? {
        UnboundYieldsBare(par.exprs[i]);
        TakeBare(acc, e.value);
        EvalFromIsValues(par, i + 1, Concat(acc, e.value));
      }
    }
  }

  /** Without an environment, evaluation works on the expressions alone. */
  lemma {:induction false} EvalIsValues(par: Par)
    requires Acyclic(EMPTY)
    ensures EvalPar(par, EMPTY) == WithExprs(par, Values(par.exprs))
  {
    EvalFromIsValues(par, 0, par.(exprs := []));
    assert par.exprs[0..] == par.exprs;
    AppendLaws(Values(par.exprs), Ok([]), Ok([]));
  }

  /** Two results in parallel; the first error wins. */
  function Beside(a: Result<Par, EvalError>, b: Result<Par, EvalError>): Result<Par, EvalError> {
    if a.Err? then a else if b.Err? then b else Ok(Concat(a.value, b.value))
  }

  lemma {:induction false} ValuesSplit(a: seq<Expr>, b: seq<Expr>)
    requires Acyclic(EMPTY)
    ensures Values(a + b) == Append(Values(a), Values(b))
  {
    if a == [] {
      assert a + b == b;
      AppendLaws(Values(b), Ok([]), Ok([]));
    } else {
      assert (a + b)[0] == a[0] && (a + b)[1..] == a[1..] + b;
      ValuesSplit(a[1..], b);
      AppendLaws(ExprsOf(EvalExpr(a[0], EMPTY)), Values(a[1..]), Values(b));
    }
  }

  /** Without an environment, evaluation distributes over parallel composition. */
  lemma {:induction false} EvalOfConcat(a: Par, b: Par)
    requires Acyclic(EMPTY)
    ensures EvalPar(Concat(a, b), EMPTY) == Beside(EvalPar(a, EMPTY), EvalPar(b, EMPTY))
  {
    EvalIsValues(a);
    EvalIsValues(b);
    EvalIsValues(Concat(a, b));
    ValuesSplit(a.exprs, b.exprs);
  }

  // ---- The substitution theorem ----

  /** An error found on the way stays the result. */
  lemma {:induction false} ErrorStays(par: Par, i: nat, acc: Par, env: Env)
    requires Acyclic(env) && Acyclic(EMPTY) && i <= |par.exprs| && EvalPar(acc, EMPTY).Err?
    ensures EvalPar(InlineFrom(par, i, acc, env), EMPTY) == EvalPar(acc, EMPTY)
    decreases |par.exprs| - i
  {
    if i < |par.exprs| {
      var piece := InlineExpr(par.exprs[i], env);
      EvalOfConcat(acc, piece);
      ErrorStays(par, i + 1, Concat(acc, piece), env);
    }
  }

  lemma {:induction false} InlineFromAgrees(par: Par, i: nat, inlined: Par, acc: Par, env: Env)
    requires Acyclic(env) && Acyclic(EMPTY) && i <= |par.exprs|
    requires EvalPar(inlined, EMPTY) == Ok(acc)
    ensures EvalPar(InlineFrom(par, i, inlined, env), EMPTY) == EvalFrom(par, i, acc, env)
    decreases Depth(par, env), par, |par.exprs| - i
  {
    if i < |par.exprs| {
      var piece := InlineExpr(par.exprs[i], env);
      InlineExprAgrees(par.exprs[i], env);
      EvalOfConcat(inlined, piece);
      var e := EvalExpr(par.exprs[i], env);
      if e.Err? {
        ErrorStays(par, i + 1, Concat(inlined, piece), env);
      } else {
        InlineFromAgrees(par, i + 1, Concat(inlined, piece), Concat(acc, e.value), env);
      }
    }
  }

  lemma {:induction false} InlineOptionAgrees(p: Option<Par>, env: Env)
    requires Acyclic(env) && Acyclic(EMPTY)
    ensures EvalOption(InlineOption(p, env), EMPTY) == EvalOption(p, env)
    decreases DepthOption(p, env), p, 0
  {
    if p.Some? {
      InlineAgrees(p.value, env);
    }
  }

  lemma {:induction false} InlineExprAgrees(e: Expr, env: Env)
    requires Acyclic(env) && Acyclic(EMPTY)
    ensures EvalPar(InlineExpr(e, env), EMPTY) == EvalExpr(e, env)
    decreases DepthExpr(e, env), e, 0
  {
    match e.instance
    case Some(EVar(Some(BoundVar(k)))) =>
      if Resolves(env, k) {
        InlineAgrees(env.bindings[Position(env, k)], env);
      } else {
        EvalOfSingle(e, EMPTY);
      }
    case Some(EUnary(op, p)) =>
      InlineOptionAgrees(p, env);
      EvalOfSingle(Expr(Some(EUnary(op, InlineOption(p, env)))), EMPTY);
    case Some(EBinary(op, p1, p2)) =>
      InlineOptionAgrees(p1, env);
      InlineOptionAgrees(p2, env);
      EvalOfSingle(Expr(Some(EBinary(op, InlineOption(p1, env), InlineOption(p2, env)))), EMPTY);
    case _ =>
      EvalOfSingle(e, EMPTY);
  }

  /** Evaluating in an environment is inlining it and evaluating in none: the same
      term, or the same error with the same contents. */
  lemma {:induction false} InlineAgrees(par: Par, env: Env)
    requires Acyclic(env) && Acyclic(EMPTY)
    ensures EvalPar(Inline(par, env), EMPTY) == EvalPar(par, env)
    decreases Depth(par, env), par, |par.exprs| + 1
  {
    var start := par.(exprs := []);
    assert EvalPar(start, EMPTY) == Ok(start);
    InlineFromAgrees(par, 0, start, start, env);
  }

  // ---- Closed bindings ----

  /** Whether a term looks anything up does not depend on how bindings are ranked. */
  lemma {:induction false} NothingUnderAnyRank(par: Par, i: nat, env: Env, rank: seq<nat>, other: seq<nat>)
    requires |rank| == |other| == |env.bindings| && i <= |par.exprs| && ReachFrom(par, i, env, rank) == 0
    ensures ReachFrom(par, i, env, other) == 0
    decreases par, |par.exprs| - i
  {
    if i < |par.exprs| {
      NothingUnderAnyRankExpr(par.exprs[i], env, rank, other);
      NothingUnderAnyRank(par, i + 1, env, rank, other);
    }
  }

  lemma {:induction false} NothingUnderAnyRankExpr(e: Expr, env: Env, rank: seq<nat>, other: seq<nat>)
    requires |rank| == |other| == |env.bindings| && ReachExpr(e, env, rank) == 0
    ensures ReachExpr(e, env, other) == 0
    decreases e
  {
    match e.instance
    case Some(EUnary(_, p)) =>
      if p.Some? {
        NothingUnderAnyRank(p.value, 0, env, rank, other);
      }
    case Some(EBinary(_, p1, p2)) =>
      if p1.Some? {
        NothingUnderAnyRank(p1.value, 0, env, rank, other);
      }
      if p2.Some? {
        NothingUnderAnyRank(p2.value, 0, env, rank, other);
      }
    case _ =>
  }

  lemma ClosedBindingsLookNothingUp(env: Env)
    requires ClosedBindings(env)
    ensures Acyclic(env)
    ensures forall p :: 0 <= p < |env.bindings| ==> Depth(env.bindings[p], env) == 0
  {
    var zeros: seq<nat> := seq(|env.bindings|, _ => 0);
    assert Ranks(env, zeros);
    forall p | 0 <= p < |env.bindings| ensures Depth(env.bindings[p], env) == 0 {
      assert ReachFrom(env.bindings[p], 0, env, zeros) <= zeros[p];
      NothingUnderAnyRank(env.bindings[p], 0, env, zeros, RankOf(env));
    }
  }

  /** The case of closed bindings. An index that does not resolve stays in place and
      reports itself. */
  lemma {:induction false} SubstitutionLemma(par: Par, env: Env)
    requires ClosedBindings(env)
    ensures Acyclic(env) && Acyclic(EMPTY)
    ensures EvalPar(Inline(par, env), EMPTY) == EvalPar(par, env)
  {
    EmptyIsAcyclic();
    ClosedBindingsLookNothingUp(env);
    InlineAgrees(par, env);
  }

  // ---- What inlining leaves ----

  ghost predicate NoneReach(exprs: seq<Expr>, env: Env)
    requires Acyclic(env)
  {
    forall i :: 0 <= i < |exprs| ==> DepthExpr(exprs[i], env) == 0
  }

  lemma {:induction false} ReachIsZero(par: Par, i: nat, env: Env)
    requires Acyclic(env) && i <= |par.exprs| && NoneReach(par.exprs, env)
    ensures ReachFrom(par, i, env, RankOf(env)) == 0
    decreases |par.exprs| - i
  {
    if i < |par.exprs| {
      ReachIsZero(par, i + 1, env);
    }
  }

  /** The inlined term looks nothing up any more. */
  lemma {:induction false} InlineIsClosed(par: Par, env: Env)
    requires Acyclic(env)
    ensures Depth(Inline(par, env), env) == 0
    decreases Depth(par, env), par, |par.exprs| + 1
  {
    InlineFromIsClosed(par, 0, par.(exprs := []), env);
    ReachIsZero(Inline(par, env), 0, env);
  }

  lemma {:induction false} InlineFromIsClosed(par: Par, i: nat, acc: Par, env: Env)
    requires Acyclic(env) && i <= |par.exprs| && NoneReach(acc.exprs, env)
    ensures NoneReach(InlineFrom(par, i, acc, env).exprs, env)
    decreases Depth(par, env), par, |par.exprs| - i
  {
    if i < |par.exprs| {
      InlineExprIsClosed(par.exprs[i], env);
      InlineFromIsClosed(par, i + 1, Concat(acc, InlineExpr(par.exprs[i], env)), env);
    }
  }

  lemma {:induction false} InlineOptionIsClosed(p: Option<Par>, env: Env)
    requires Acyclic(env)
    ensures DepthOption(InlineOption(p, env), env) == 0
    decreases DepthOption(p, env), p, 0
  {
    if p.Some? {
      InlineIsClosed(p.value, env);
    }
  }

  lemma {:induction false} InlineExprIsClosed(e: Expr, env: Env)
    requires Acyclic(env)
    ensures NoneReach(InlineExpr(e, env).exprs, env)
    decreases DepthExpr(e, env), e, 0
  {
    match e.instance
    case Some(EVar(Some(BoundVar(k)))) =>
      if Resolves(env, k) {
        var p := env.bindings[Position(env, k)];
        InlineFromIsClosed(p, 0, p.(exprs := []), env);
      }
    case Some(EUnary(_, p)) => InlineOptionIsClosed(p, env);
    case Some(EBinary(_, p1, p2)) =>
      InlineOptionIsClosed(p1, env);
      InlineOptionIsClosed(p2, env);
    case _ =>
  }

  /** A term that looks nothing up is inlined to itself, so inlining twice is
      inlining once and a closed binding is put in as it stands. */
  lemma {:induction false} ClosedInlinesToItself(par: Par, env: Env)
    requires Acyclic(env) && Depth(par, env) == 0
    ensures Inline(par, env) == par
    decreases par, |par.exprs| + 1
  {
    ClosedFrom(par, 0, par.(exprs := []), env);
    assert [] + par.exprs[0..] == par.exprs;
  }

  lemma {:induction false} ClosedFrom(par: Par, i: nat, acc: Par, env: Env)
    requires Acyclic(env) && i <= |par.exprs| && Depth(par, env) == 0
    ensures InlineFrom(par, i, acc, env) == acc.(exprs := acc.exprs + par.exprs[i..])
    decreases par, |par.exprs| - i
  {
    if i == |par.exprs| {
      assert acc.exprs + par.exprs[i..] == acc.exprs;
    } else {
      var e := par.exprs[i];
      ClosedExpr(e, env);
      TakeBare(acc, Single(e));
      ClosedFrom(par, i + 1, Concat(acc, Single(e)), env);
      assert acc.exprs + [e] + par.exprs[i + 1..] == acc.exprs + par.exprs[i..];
    }
  }

  lemma {:induction false} ClosedExpr(e: Expr, env: Env)
    requires Acyclic(env) && DepthExpr(e, env) == 0
    ensures InlineExpr(e, env) == Single(e)
    decreases e, 0
  {
    match e.instance
    case Some(EUnary(_, p)) => ClosedOption(p, env);
    case Some(EBinary(_, p1, p2)) =>
      ClosedOption(p1, env);
      ClosedOption(p2, env);
    case _ =>
  }

  lemma {:induction false} ClosedOption(p: Option<Par>, env: Env)
    requires Acyclic(env) && DepthOption(p, env) == 0
    ensures InlineOption(p, env) == p
    decreases p, 0
  {
    if p.Some? {
      ClosedInlinesToItself(p.value, env);
    }
  }

  // ---- The process fields of a result ----

  /** Everything but the expressions of a result comes from the inlined term. */
  lemma {:induction false} ResultFields(par: Par, env: Env)
    requires Acyclic(env) && EvalPar(par, env).Ok?
    ensures EvalPar(par, env).value == Inline(par, env).(exprs := EvalPar(par, env).value.exprs)
  {
    EmptyIsAcyclic();
    InlineAgrees(par, env);
    EvalIsValues(Inline(par, env));
  }
}
