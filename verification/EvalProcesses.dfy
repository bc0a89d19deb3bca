/** The process-level fields of an evaluated term: its own, and those of every
    binding it looks up, directly or through other bindings. */
module EvalProcesses {
  import opened Prelude
  import opened Paths
  import opened Rho
  import opened PureEval
  import opened EvalRuns

  function Count(p: Processes): nat {
    |p.sends| + |p.receives| + |p.news| + |p.matches| + |p.unforgeables| + |p.bundles| + |p.connectives|
    + |p.conditionals|
  }

  lemma BothKeeps(a: Processes, b: Processes)
    ensures Count(Both(a, b)) == Count(a) + Count(b)
    ensures Count(b) == 0 <==> b == NO_PROCESSES
    ensures b == NO_PROCESSES ==> Both(a, b) == a
  {
    if b == NO_PROCESSES {
      assert a.sends + [] == a.sends && a.receives + [] == a.receives && a.news + [] == a.news;
      assert a.matches + [] == a.matches && a.unforgeables + [] == a.unforgeables && a.bundles + [] == a.bundles;
      assert a.connectives + [] == a.connectives && a.conditionals + [] == a.conditionals;
    }
  }

  // ---- Which bindings a term looks up ----

  /** A variable of the term itself, not under an operator, that resolves. */
  predicate IsLookup(e: Expr, env: Env) {
    match e.instance
    case Some(EVar(Some(BoundVar(k)))) => Resolves(env, k)
    case _ => false
  }

  function Target(e: Expr, env: Env): nat
    requires IsLookup(e, env)
  {
    Position(env, e.instance.value.v.value.index)
  }

  function Lookups(par: Par, env: Env): set<nat> {
    set i | 0 <= i < |par.exprs| && IsLookup(par.exprs[i], env) :: Target(par.exprs[i], env)
  }

  /** One binding looks up another. */
  function Edge(env: Env): (nat, nat) -> bool {
    (p: nat, q: nat) => p < |env.bindings| && q in Lookups(env.bindings[p], env)
  }

  /** The binding at `p` is looked up on the way. */
  ghost predicate LooksUp(par: Par, env: Env, p: nat) {
    Reached(Edge(env), Lookups(par, env), p)
  }

  ghost predicate Carries(env: Env, p: nat) {
    p < |env.bindings| && env.bindings[p].processes != NO_PROCESSES
  }

  // ---- What one run adds ----

  ghost predicate Ends(par: Par, env: Env, fuel: nat) {
    RunPar(par, env, fuel).Some? && RunPar(par, env, fuel).value.Ok?
  }

  ghost function Result(par: Par, env: Env, fuel: nat): Par
    requires Ends(par, env, fuel)
  {
    RunPar(par, env, fuel).value.value
  }

  ghost predicate Works(e: Expr, env: Env, fuel: nat) {
    RunExpr(e, env, fuel).Some? && RunExpr(e, env, fuel).value.Ok?
  }

  /** The expression evaluates, to a term without processes. */
  ghost predicate Quiet(e: Expr, env: Env, fuel: nat) {
    Works(e, env, fuel) && RunExpr(e, env, fuel).value.value.processes == NO_PROCESSES
  }

  lemma {:induction false} RunFromWorks(par: Par, i: nat, acc: Par, env: Env, fuel: nat)
    requires i <= |par.exprs|
    requires RunFrom(par, i, acc, env, fuel).Some? && RunFrom(par, i, acc, env, fuel).value.Ok?
    ensures forall k :: i <= k < |par.exprs| ==> Works(par.exprs[k], env, fuel)
    decreases |par.exprs| - i
  {
    if i < |par.exprs| {
      assert Works(par.exprs[i], env, fuel);
      RunFromWorks(par, i + 1, Concat(acc, RunExpr(par.exprs[i], env, fuel).value.value), env, fuel);
    }
  }

  ghost predicate AllQuiet(par: Par, i: nat, env: Env, fuel: nat) {
    forall k :: i <= k < |par.exprs| ==> Quiet(par.exprs[k], env, fuel)
  }

  lemma {:induction false} RunFromKeeps(par: Par, i: nat, acc: Par, env: Env, fuel: nat)
    requires i <= |par.exprs|
    requires RunFrom(par, i, acc, env, fuel).Some? && RunFrom(par, i, acc, env, fuel).value.Ok?
    ensures Count(RunFrom(par, i, acc, env, fuel).value.value.processes) >= Count(acc.processes)
    ensures RunFrom(par, i, acc, env, fuel).value.value.processes == acc.processes <==> AllQuiet(par, i, env, fuel)
    decreases |par.exprs| - i
  {
    if i < |par.exprs| {
      assert Works(par.exprs[i], env, fuel);
      var piece := RunExpr(par.exprs[i], env, fuel).value.value;
      BothKeeps(acc.processes, piece.processes);
      RunFromKeeps(par, i + 1, Concat(acc, piece), env, fuel);
      assert AllQuiet(par, i, env, fuel) <==> Quiet(par.exprs[i], env, fuel) && AllQuiet(par, i + 1, env, fuel);
    }
  }

  /** Only lookups bring processes, those of the binding's own result. */
  lemma LookupsBring(e: Expr, env: Env, fuel: nat)
    requires Works(e, env, fuel)
    ensures !IsLookup(e, env) ==> Quiet(e, env, fuel)
    ensures IsLookup(e, env) ==> fuel > 0 && Ends(env.bindings[Target(e, env)], env, fuel - 1)
    ensures IsLookup(e, env) ==>
              (Quiet(e, env, fuel) <==>
               Result(env.bindings[Target(e, env)], env, fuel - 1).processes == NO_PROCESSES)
  {
  }

  /** A result keeps the processes of its term, and adds some exactly when one of the
      expressions is not quiet. */
  lemma RunKeeps(par: Par, env: Env, fuel: nat)
    requires Ends(par, env, fuel)
    ensures forall i :: 0 <= i < |par.exprs| ==> Works(par.exprs[i], env, fuel)
    ensures Count(Result(par, env, fuel).processes) >= Count(par.processes)
    ensures Result(par, env, fuel).processes == par.processes <==> AllQuiet(par, 0, env, fuel)
  {
    RunFromWorks(par, 0, par.(exprs := []), env, fuel);
    RunFromKeeps(par, 0, par.(exprs := []), env, fuel);
  }

  // ---- What all lookups add ----

  lemma LookedUpOnward(par: Par, env: Env, q: nat, p: nat)
    requires q in Lookups(par, env) && LooksUp(env.bindings[q], env, p)
    ensures LooksUp(par, env, p)
  {
    var starts, others := Lookups(par, env), Lookups(env.bindings[q], env);
    StartIsReached(Edge(env), starts, q);
    forall o | o in others ensures Reached(Edge(env), starts, o) {
      StepIsReached(Edge(env), starts, q, o);
    }
    var path :| IsPathTo(Edge(env), others, path, p);
    ReachedOn(Edge(env), starts, others, path, p);
  }

  lemma {:induction false} NothingLookedUpNothingAdded(par: Par, env: Env, fuel: nat)
    requires Ends(par, env, fuel)
    requires forall p :: LooksUp(par, env, p) ==> !Carries(env, p)
    ensures Result(par, env, fuel).processes == par.processes
    decreases fuel
  {
    RunKeeps(par, env, fuel);
    forall i | 0 <= i < |par.exprs| ensures Quiet(par.exprs[i], env, fuel) {
      LookupsBring(par.exprs[i], env, fuel);
      if IsLookup(par.exprs[i], env) {
        var q := Target(par.exprs[i], env);
        assert q in Lookups(par, env);
        StartIsReached(Edge(env), Lookups(par, env), q);
        assert !Carries(env, q);
        forall p | LooksUp(env.bindings[q], env, p) ensures !Carries(env, p) {
          LookedUpOnward(par, env, q, p);
        }
        NothingLookedUpNothingAdded(env.bindings[q], env, fuel - 1);
      }
    }
  }

  /** The binding at `q` evaluates to a term without processes. */
  ghost predicate QuietBinding(env: Env, q: nat) {
    q < |env.bindings|
    && exists fuel :: Ends(env.bindings[q], env, fuel) && Result(env.bindings[q], env, fuel).processes == NO_PROCESSES
  }

  lemma QuietRunsAreQuietInside(par: Par, env: Env, fuel: nat, q: nat)
    requires Ends(par, env, fuel) && Result(par, env, fuel).processes == par.processes
    requires q in Lookups(par, env)
    ensures QuietBinding(env, q)
  {
    RunKeeps(par, env, fuel);
    var i :| 0 <= i < |par.exprs| && IsLookup(par.exprs[i], env) && Target(par.exprs[i], env) == q;
    assert Quiet(par.exprs[i], env, fuel);
    LookupsBring(par.exprs[i], env, fuel);
  }

  lemma QuietBindingCarriesNothing(env: Env, q: nat, r: nat)
    requires QuietBinding(env, q)
    ensures !Carries(env, q)
    ensures Edge(env)(q, r) ==> QuietBinding(env, r)
  {
    var fuel :| Ends(env.bindings[q], env, fuel) && Result(env.bindings[q], env, fuel).processes == NO_PROCESSES;
    RunKeeps(env.bindings[q], env, fuel);
    BothKeeps(NO_PROCESSES, env.bindings[q].processes);
    if Edge(env)(q, r) {
      QuietRunsAreQuietInside(env.bindings[q], env, fuel, r);
    }
  }

  lemma NothingAddedNothingCarried(par: Par, env: Env, fuel: nat, p: nat)
    requires Ends(par, env, fuel) && Result(par, env, fuel).processes == par.processes
    requires LooksUp(par, env, p)
    ensures !Carries(env, p)
  {
    var quiet := set q: nat | q < |env.bindings| && QuietBinding(env, q);
    forall q | q in Lookups(par, env) ensures q in quiet {
      QuietRunsAreQuietInside(par, env, fuel, q);
    }
    forall q | q in quiet ensures StepsWithin(Edge(env), q, quiet) {
      forall r | Edge(env)(q, r) ensures r in quiet {
        QuietBindingCarriesNothing(env, q, r);
      }
    }
    ClosedHoldsReached(Edge(env), Lookups(par, env), quiet, p);
    QuietBindingCarriesNothing(env, p, p);
  }

  /** In every environment, cyclic ones included, in which the term evaluates: the
      process fields pass through unchanged if and only if no binding that the term
      looks up, directly or through other bindings, has processes. */
  lemma ProcessesUnchangedIff(par: Par, env: Env, fuel: nat)
    requires Ends(par, env, fuel)
    ensures Result(par, env, fuel).processes == par.processes <==>
            forall p :: LooksUp(par, env, p) ==> !Carries(env, p)
  {
    if Result(par, env, fuel).processes == par.processes {
      forall p | LooksUp(par, env, p) ensures !Carries(env, p) {
        NothingAddedNothingCarried(par, env, fuel, p);
      }
    }
    if forall p :: LooksUp(par, env, p) ==> !Carries(env, p) {
      NothingLookedUpNothingAdded(par, env, fuel);
    }
  }

  /** The same of the value in an acyclic environment. */
  lemma {:induction false} AcyclicProcessesUnchangedIff(par: Par, env: Env)
    requires Acyclic(env) && EvalPar(par, env).Ok?
    ensures EvalPar(par, env).value.processes == par.processes <==>
            forall p :: LooksUp(par, env, p) ==> !Carries(env, p)
  {
    RunAgrees(par, env, Depth(par, env));
    ProcessesUnchangedIff(par, env, Depth(par, env));
  }

  lemma ClosedBindingsLookUpNothing(env: Env, q: nat)
    requires ClosedBindings(env) && q < |env.bindings|
    ensures Lookups(env.bindings[q], env) == {}
  {
    var zeros: seq<nat> := seq(|env.bindings|, _ => 0);
    var par := env.bindings[q];
    assert ReachFrom(par, 0, env, zeros) <= zeros[q];
    forall i | 0 <= i < |par.exprs| ensures !IsLookup(par.exprs[i], env) {
      assert ReachExpr(par.exprs[i], env, zeros) <= ReachFrom(par, 0, env, zeros);
    }
  }

  /** With closed bindings only the term's own variables count. */
  lemma ClosedLookups(par: Par, env: Env, p: nat)
    requires ClosedBindings(env)
    ensures LooksUp(par, env, p) <==> p in Lookups(par, env)
  {
    if p in Lookups(par, env) {
      StartIsReached(Edge(env), Lookups(par, env), p);
    } else if LooksUp(par, env, p) {
      var q := LastStep(Edge(env), Lookups(par, env), p);
      ClosedBindingsLookUpNothing(env, q);
    }
  }

  // ---- Examples ----

  const SENDER: Par := NIL.(processes := NO_PROCESSES.(sends := [7]))

  /** A lone variable bound to a term that sends: the send is in the result and was
      not in the term. */
  lemma BoundSendExample()
    ensures RunPar(SELF, Env([SENDER], 0), 1) == Some(Ok(SENDER))
  {
    var env := Env([SENDER], 0);
    assert RunPar(SENDER, env, 0) == Some(Ok(SENDER));
    assert RunFrom(SELF, 0, NIL, env, 1) == RunFrom(SELF, 1, Concat(NIL, SENDER), env, 1);
    ConcatUnit(SENDER);
  }

  /** The same through a binding that has no processes of its own: binding 1 is the
      variable that names binding 0. */
  lemma IndirectSendExample()
    ensures RunPar(SELF, Env([SENDER, Of(EVar(Some(BoundVar(1))))], 0), 2) == Some(Ok(SENDER))
  {
    var next := Of(EVar(Some(BoundVar(1))));
    var env := Env([SENDER, next], 0);
    assert RunPar(SENDER, env, 0) == Some(Ok(SENDER));
    assert RunFrom(next, 0, NIL, env, 1) == RunFrom(next, 1, Concat(NIL, SENDER), env, 1);
    ConcatUnit(SENDER);
    assert RunPar(next, env, 1) == Some(Ok(SENDER));
    assert RunFrom(SELF, 0, NIL, env, 2) == RunFrom(SELF, 1, Concat(NIL, SENDER), env, 2);
  }
}
