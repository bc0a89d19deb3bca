/** The pure evaluator: every expression of a Par is replaced by its value. A
    bound variable is looked up and its binding evaluated in the same
    environment, so evaluation is sure to end where no binding refers back to
    itself. Closed bindings are the case in use. */
module PureEval {

  import opened Prelude
  import opened Rho

  datatype EvalError =
    | MissingExprInstance
    | UnboundVariable(index: int)
    | NotASingleValue(actual: Par)
    | OperatorTypeMismatchUnary(unary: UnaryOp, operand: string)
    | OperatorTypeMismatchBinary(op: BinaryOp, left: string, right: string)
    | ArithmeticOverflowUnary(unary: UnaryOp)
    | ArithmeticOverflow(op: BinaryOp)
    | DivisionByZero
    | UnsupportedExpression(kind: UnsupportedKind)

  // ---- How far a term reaches into its environment ----

  /** One more than the highest rank among the bindings the evaluator may look up in
      `e`; 0 when it looks nothing up. Collections are not entered. */
  ghost function ReachExpr(e: Expr, env: Env, rank: seq<nat>): nat
    requires |rank| == |env.bindings|
    decreases e
  {
    match e.instance
    case Some(EVar(Some(BoundVar(k)))) => if Resolves(env, k) then rank[Position(env, k)] + 1 else 0
    case Some(EUnary(_, p)) => ReachOption(p, env, rank)
    case Some(EBinary(_, p1, p2)) => Max(ReachOption(p1, env, rank), ReachOption(p2, env, rank))
    case _ => 0
  }

  ghost function ReachOption(p: Option<Par>, env: Env, rank: seq<nat>): nat
    requires |rank| == |env.bindings|
    decreases p
  {
    if p.Some? then ReachFrom(p.value, 0, env, rank) else 0
  }

  ghost function ReachFrom(par: Par, i: nat, env: Env, rank: seq<nat>): (r: nat)
    requires |rank| == |env.bindings| && i <= |par.exprs|
    ensures forall k :: i <= k < |par.exprs| ==> ReachExpr(par.exprs[k], env, rank) <= r
    decreases par, |par.exprs| - i
  {
    if i == |par.exprs| then 0 else Max(ReachExpr(par.exprs[i], env, rank), ReachFrom(par, i + 1, env, rank))
  }

  /** Every binding refers, if at all, to bindings of lower rank. */
  ghost predicate Ranks(env: Env, rank: seq<nat>) {
    && |rank| == |env.bindings|
    && forall p :: 0 <= p < |rank| ==> ReachFrom(env.bindings[p], 0, env, rank) <= rank[p]
  }

  /** No binding refers to itself, directly or through others. */
  ghost predicate Acyclic(env: Env) {
    exists rank :: Ranks(env, rank)
  }

  ghost function RankOf(env: Env): (rank: seq<nat>)
    requires Acyclic(env)
    ensures Ranks(env, rank)
  {
    var rank :| Ranks(env, rank);
    rank
  }

  /** How deep evaluation may go into the environment: the measure it falls by at
      each variable. */
  ghost function Depth(par: Par, env: Env): nat
    requires Acyclic(env)
  {
    ReachFrom(par, 0, env, RankOf(env))
  }

  ghost function DepthOption(p: Option<Par>, env: Env): nat
    requires Acyclic(env)
  {
    ReachOption(p, env, RankOf(env))
  }

  ghost function DepthExpr(e: Expr, env: Env): nat
    requires Acyclic(env)
  {
    ReachExpr(e, env, RankOf(env))
  }

  /** No binding refers to any. */
  ghost predicate ClosedBindings(env: Env) {
    Ranks(env, seq(|env.bindings|, _ => 0))
  }

  // ---- Operators on values ----

  function TypeName(instance: Instance): string {
    match instance
    case GBool(_) => "Bool"
    case GInt(_) => "Int"
    case GString(_) => "String"
    case GDouble(_) => "Double"
    case GFloat32(_) => "Float32"
    case GOther(kind, _) =>
      (match kind
       case Uri => "Uri"
       case ByteArray => "ByteArray"
       case BigInt => "BigInt"
       case BigRat => "BigRat"
       case FixedPoint => "FixedPoint"
       case UInt64 => "UInt64"
       case Int32 => "Int32"
       case UInt32 => "UInt32"
       case UInt16 => "UInt16"
       case UInt8 => "UInt8")
    case EList(List, _, _, _, _) => "List"
    case EList(Tuple, _, _, _, _) => "Tuple"
    case EList(Set, _, _, _, _) => "Set"
    case EMap(_, _, _, _) => "Map"
    case EVar(_) => "EVar"
    case _ => "Expr"
  }

  /** The one expression of a Par that holds nothing else. */
  function SingleInstance(par: Par): Result<Instance, EvalError> {
    if par.processes != NO_PROCESSES || |par.exprs| != 1 then Err(NotASingleValue(par))
    else if par.exprs[0].instance.None? then Err(MissingExprInstance)
    else Ok(par.exprs[0].instance.value)
  }

  function Abs(b: int): int {
    if b >= 0 then b else -b
  }

  function Signed(a: int, n: int): int {
    if a >= 0 then n else -n
  }

  /** Division toward zero. */
  function Quotient(a: int, b: int): int
    requires b != 0
  {
    Signed(a, Abs(a) / b)
  }

  /** The remainder takes the sign of the dividend. */
  function Remainder(a: int, b: int): int
    requires b != 0
  {
    Signed(a, Abs(a) % b)
  }

  /** Euclidean division of a magnitude, and how large the quotient can be. */
  ghost predicate Divides(n: int, b: int, q: int, r: int) {
    && n == q * b + r && 0 <= r < Abs(b) && r <= n
    && Abs(q) <= n
    && (b == -1 ==> q == -n)
    && ((b < -1 || b > 1) && n > 0 ==> Abs(q) < n)
  }

  lemma Times(q: int, b: int)
    requires q > 0
    ensures b < 0 ==> q * b <= b
    ensures b > 0 ==> q * b >= q
    ensures b > 1 ==> q * b > q
  {
    assert q * b == b + (q - 1) * b;
    assert q * b == q + q * (b - 1);
  }

  lemma ProductIsLarger(q: int, b: int, r: int)
    requires b != 0 && 0 <= r < Abs(b) && q * b + r >= 0
    ensures Abs(q) <= q * b + r && q * b >= 0
    ensures (b < -1 || b > 1) && q != 0 ==> Abs(q) < q * b + r
  {
    if q > 0 {
      Times(q, b);
    } else if q < 0 {
      Times(-q, -b);
      assert (-q) * (-b) == q * b;
    }
  }

  lemma DivideMagnitude(n: int, b: int) returns (q: int, r: int)
    requires n >= 0 && b != 0
    ensures q == n / b && r == n % b && Divides(n, b, q, r)
  {
    q, r := n / b, n % b;
    assert n == q * b + r;
    ProductIsLarger(q, b, r);
  }

  lemma SignedDivision(a: Int64, b: Int64, q: int, r: int)
    requires b != 0 && Divides(Abs(a), b, q, r)
    ensures a == Signed(a, q) * b + Signed(a, r)
    ensures Abs(Signed(a, r)) < Abs(b) && (Signed(a, r) != 0 ==> (Signed(a, r) > 0 <==> a > 0))
    ensures FitsI64(Signed(a, q)) <==> !(a == I64_MIN && b == -1)
    ensures Abs(Signed(a, q) * b) <= Abs(a)
  {
    assert (-q) * b == -(q * b);
  }

  /** Division of 64-bit integers leaves a remainder smaller than the divisor and
      of the dividend's sign, and its quotient fits except for the least integer
      over -1. */
  lemma DivisionIsTruncating(a: Int64, b: Int64)
    requires b != 0
    ensures a == Quotient(a, b) * b + Remainder(a, b)
    ensures Abs(Remainder(a, b)) < Abs(b)
    ensures Remainder(a, b) != 0 ==> (Remainder(a, b) > 0 <==> a > 0)
    ensures FitsI64(Quotient(a, b)) <==> !(a == I64_MIN && b == -1)
    ensures Abs(Quotient(a, b) * b) <= Abs(a)
  {
    var q, r := DivideMagnitude(Abs(a), b);
    SignedDivision(a, b, q, r);
  }

  /** Lexicographic order, as the sign of the comparison. */
  function CompareStrings(a: string, b: string): int {
    if a == [] then (if b == [] then 0 else -1)
    else if b == [] then 1
    else if a[0] < b[0] then -1
    else if a[0] > b[0] then 1
    else CompareStrings(a[1..], b[1..])
  }

  function CompareInts(a: int, b: int): int {
    if a < b then -1 else if a > b then 1 else 0
  }

  function Compare(a: Instance, b: Instance): Option<int> {
    match (a, b)
    case (GInt(x), GInt(y)) => Some(CompareInts(x, y))
    case (GString(x), GString(y)) => Some(CompareStrings(x, y))
    case (GBool(x), GBool(y)) => Some(if x == y then 0 else if y then -1 else 1)
    case _ => None
  }

  function Checked(op: BinaryOp, value: int): Result<Par, EvalError> {
    if FitsI64(value) then Ok(Of(GInt(value))) else Err(ArithmeticOverflow(op))
  }

  function ApplyUnary(op: UnaryOp, v: Instance): Result<Par, EvalError> {
    match (op, v)
    case (Not, GBool(b)) => Ok(Of(GBool(!b)))
    case (Neg, GInt(i)) => if FitsI64(-(i as int)) then Ok(Of(GInt(-(i as int)))) else Err(ArithmeticOverflowUnary(Neg))
    case _ => Err(OperatorTypeMismatchUnary(op, TypeName(v)))
  }

  predicate Interprets(op: BinaryOp, order: int) {
    match op
    case Lt => order == -1
    case Lte => order <= 0
    case Gt => order == 1
    case _ => order >= 0
  }

  function ApplyInts(op: BinaryOp, a: Int64, b: Int64): Result<Par, EvalError> {
    match op
    case Plus => Checked(op, a + b)
    case Minus => Checked(op, a - b)
    case Mult => Checked(op, a * b)
    case _ =>
      if b == 0 then Err(DivisionByZero)
      else if a == I64_MIN && b == -1 then Err(ArithmeticOverflow(op))
      else Checked(op, if op == Div then Quotient(a, b) else Remainder(a, b))
  }

  function Mismatch(op: BinaryOp, a: Instance, b: Instance): Result<Par, EvalError> {
    Err(OperatorTypeMismatchBinary(op, TypeName(a), TypeName(b)))
  }

  /** The operators that need a single value on either side. */
  function ApplyBinary(op: BinaryOp, a: Instance, b: Instance): Result<Par, EvalError>
    requires op != Eq && op != Neq
  {
    match op
    case And => if a.GBool? && b.GBool? then Ok(Of(GBool(a.b && b.b))) else Mismatch(op, a, b)
    case Or => if a.GBool? && b.GBool? then Ok(Of(GBool(a.b || b.b))) else Mismatch(op, a, b)
    case Lt | Lte | Gt | Gte =>
      var order := Compare(a, b);
      if order.Some? then Ok(Of(GBool(Interprets(op, order.value)))) else Mismatch(op, a, b)
    case Plus | Minus | Mult | Div | Mod => if a.GInt? && b.GInt? then ApplyInts(op, a.i, b.i) else Mismatch(op, a, b)
  }

  /** Equality of two evaluated terms; anything holding a NaN equals nothing. */
  predicate EvaluatedEqual(a: Par, b: Par) {
    !HasNan(a) && !HasNan(b) && Same(a, b)
  }

  function SingleOf(r: Result<Par, EvalError>): Result<Instance, EvalError> {
    if r.Err? then Err(r.error) else SingleInstance(r.value)
  }

  function UnaryResult(op: UnaryOp, r: Result<Par, EvalError>): Result<Par, EvalError> {
    var v := SingleOf(r);
    if v.Err? then Err(v.error) else ApplyUnary(op, v.value)
  }

  /** Why an operand ends an operation at once, if it does: it failed, or the operator
      needs a single value and it is none. */
  function OperandFault(op: BinaryOp, r: Result<Par, EvalError>): Option<EvalError> {
    if r.Err? then Some(r.error)
    else if op == Eq || op == Neq || SingleInstance(r.value).Ok? then None
    else Some(SingleInstance(r.value).error)
  }

  /** The left operand's fault comes first. */
  function BinaryResult(op: BinaryOp, lhs: Result<Par, EvalError>, rhs: Result<Par, EvalError>)
    : Result<Par, EvalError>
  {
    if OperandFault(op, lhs).Some? then Err(OperandFault(op, lhs).value)
    else if OperandFault(op, rhs).Some? then Err(OperandFault(op, rhs).value)
    else if op == Eq || op == Neq then Ok(Of(GBool(EvaluatedEqual(lhs.value, rhs.value) == (op == Eq))))
    else ApplyBinary(op, SingleInstance(lhs.value).value, SingleInstance(rhs.value).value)
  }

  // ---- Evaluation ----

  function EvalPar(par: Par, env: Env): Result<Par, EvalError>
    requires Acyclic(env)
    decreases Depth(par, env), par, |par.exprs| + 1
  {
    EvalFrom(par, 0, par.(exprs := []), env)
  }

  /** The expressions from the i-th on, evaluated into `acc`. */
  function EvalFrom(par: Par, i: nat, acc: Par, env: Env): Result<Par, EvalError>
    requires Acyclic(env) && i <= |par.exprs|
    decreases Depth(par, env), par, |par.exprs| - i
  {
    if i == |par.exprs| then Ok(acc)
    else
      var e := EvalExpr(par.exprs[i], env);
      if e.Err? then e else EvalFrom(par, i + 1, Concat(acc, e.value), env)
  }

  function EvalOption(p: Option<Par>, env: Env): Result<Par, EvalError>
    requires Acyclic(env)
    decreases DepthOption(p, env), p, 0
  {
    if p.None? then Err(MissingExprInstance) else EvalPar(p.value, env)
  }

  function EvalExpr(e: Expr, env: Env): Result<Par, EvalError>
    requires Acyclic(env)
    decreases DepthExpr(e, env), e, 0
  {
    match e.instance
    case None => Err(MissingExprInstance)
    case Some(EVar(v)) =>
      (match v
       case Some(BoundVar(k)) =>
         if Resolves(env, k) then EvalPar(env.bindings[Position(env, k)], env) else Err(UnboundVariable(k))
       case Some(FreeVar(k)) => Err(UnboundVariable(k))
       case _ => Err(MissingExprInstance))
    case Some(EUnary(op, p)) => UnaryResult(op, EvalOption(p, env))
    case Some(EBinary(op, p1, p2)) => BinaryResult(op, EvalOption(p1, env), EvalOption(p2, env))
    case Some(Unsupported(kind, _)) => Err(UnsupportedExpression(kind))
    case _ => Ok(Single(e))
  }

  // ---- Terms in parallel ----

  /** A term of expressions only. */
  predicate Bare(par: Par) {
    par.processes == NO_PROCESSES && par.locallyFree == [] && !par.connectiveUsed
  }

  lemma TakeBare(acc: Par, v: Par)
    requires Bare(v)
    ensures Concat(acc, v) == acc.(exprs := acc.exprs + v.exprs)
  {
    ConcatUnit(acc);
    assert Both(acc.processes, NO_PROCESSES) == Concat(acc, NIL).processes;
  }

  /** A term of one expression is worth what the expression is. */
  lemma {:induction false} EvalOfSingle(e: Expr, env: Env)
    requires Acyclic(env)
    ensures EvalPar(Single(e), env) == EvalExpr(e, env)
  {
    var r := EvalExpr(e, env);
    assert EvalFrom(Single(e), 0, NIL, env) ==
           if r.Err? then r else EvalFrom(Single(e), 1, Concat(NIL, r.value), env);
    if r.Ok? {
      ConcatUnit(r.value);
    }
  }

  function Operation(op: BinaryOp, p1: Par, p2: Par): Expr {
    Expr(Some(EBinary(op, Some(p1), Some(p2))))
  }

  // ---- Equality ----

  /** `x != y` is `x == y` negated, NaN or not, and fails exactly when it does. */
  lemma {:induction false} NeqNegatesEq(p1: Option<Par>, p2: Option<Par>, env: Env)
    requires Acyclic(env)
    ensures (var eq := EvalExpr(Expr(Some(EBinary(Eq, p1, p2))), env);
             var neq := EvalExpr(Expr(Some(EBinary(Neq, p1, p2))), env);
             if eq.Err? then neq == eq
             else exists b :: eq == Ok(Of(GBool(b))) && neq == Ok(Of(GBool(!b))))
  {
    var lhs, rhs := EvalOption(p1, env), EvalOption(p2, env);
    if lhs.Ok? && rhs.Ok? {
      var b := EvaluatedEqual(lhs.value, rhs.value);
      assert EvalExpr(Expr(Some(EBinary(Eq, p1, p2))), env) == Ok(Of(GBool(b)));
      assert EvalExpr(Expr(Some(EBinary(Neq, p1, p2))), env) == Ok(Of(GBool(!b)));
    }
  }

  /** `==` holds exactly between values without NaN that differ in nothing but free-level
      bit sets. */
  lemma {:induction false} EqualIffStripped(p1: Par, p2: Par, env: Env)
    requires Acyclic(env) && EvalPar(p1, env).Ok? && EvalPar(p2, env).Ok?
    ensures var a, b := EvalPar(p1, env).value, EvalPar(p2, env).value;
            EvalExpr(Operation(Eq, p1, p2), env)
            == Ok(Of(GBool(!HasNan(a) && !HasNan(b) && Strip(a) == Strip(b))))
  {
    SameIffStripped(EvalPar(p1, env).value, EvalPar(p2, env).value);
    assert EvalOption(Some(p1), env) == EvalPar(p1, env) && EvalOption(Some(p2), env) == EvalPar(p2, env);
  }

  /** A term equals itself if and only if its value holds no NaN. */
  lemma {:induction false} SelfEqualIffNoNan(p: Par, env: Env)
    requires Acyclic(env) && EvalPar(p, env).Ok?
    ensures EvalExpr(Expr(Some(EBinary(Eq, Some(p), Some(p)))), env)
            == Ok(Of(GBool(!HasNan(EvalPar(p, env).value))))
  {
    SameIffStripped(EvalPar(p, env).value, EvalPar(p, env).value);
    assert EvalOption(Some(p), env) == EvalPar(p, env);
  }

  // ---- Single values and the unary operators ----

  /** An operand counts as one value exactly when it is one expression and nothing
      else. */
  lemma SingleIff(par: Par, v: Instance)
    ensures SingleInstance(par) == Ok(v) <==>
            && par.exprs == [Expr(Some(v))]
            && par.processes == Processes([], [], [], [], [], [], [], [])
    ensures SingleInstance(par) == Err(NotASingleValue(par)) <==>
            |par.exprs| != 1 || par.processes != Processes([], [], [], [], [], [], [], [])
  {
  }

  /** `!` and `-` work on a boolean and an integer, the least of which has no negation;
      on anything else they report its type. */
  lemma {:induction false} UnaryOperators(p: Par, x: Instance, env: Env)
    requires Acyclic(env) && SingleOf(EvalPar(p, env)) == Ok(x)
    ensures var r := EvalExpr(Expr(Some(EUnary(Not, Some(p)))), env);
            if x.GBool? then r == Ok(Of(GBool(!x.b))) else r == Err(OperatorTypeMismatchUnary(Not, TypeName(x)))
    ensures var r := EvalExpr(Expr(Some(EUnary(Neg, Some(p)))), env);
            if !x.GInt? then r == Err(OperatorTypeMismatchUnary(Neg, TypeName(x)))
            else if x.i == I64_MIN then r == Err(ArithmeticOverflowUnary(Neg))
            else r.Ok? && exists n: Int64 :: n + x.i == 0 && r == Ok(Of(GInt(n)))
  {
    assert EvalOption(Some(p), env) == EvalPar(p, env);
    if x.GInt? && x.i != I64_MIN {
      var n: Int64 := -(x.i as int);
      assert EvalExpr(Expr(Some(EUnary(Neg, Some(p)))), env) == Ok(Of(GInt(n)));
    }
  }

  // ---- Integer division through the evaluator ----

  lemma {:induction false} IntegersAreApplied(op: BinaryOp, p1: Par, p2: Par, a: Int64, b: Int64, env: Env)
    requires Acyclic(env) && op in {Plus, Minus, Mult, Div, Mod}
    requires SingleOf(EvalPar(p1, env)) == Ok(GInt(a)) && SingleOf(EvalPar(p2, env)) == Ok(GInt(b))
    ensures EvalExpr(Operation(op, p1, p2), env) == ApplyInts(op, a, b)
  {
    assert EvalOption(Some(p1), env) == EvalPar(p1, env) && EvalOption(Some(p2), env) == EvalPar(p2, env);
  }

  ghost function Exact(op: BinaryOp, a: int, b: int): int {
    if op == Plus then a + b else if op == Minus then a - b else a * b
  }

  /** `+`, `-` and `*` give the exact integer, and overflow exactly when it does not
      fit. */
  lemma {:induction false} ArithmeticIsExact(op: BinaryOp, p1: Par, p2: Par, a: Int64, b: Int64, env: Env)
    requires Acyclic(env) && op in {Plus, Minus, Mult}
    requires SingleOf(EvalPar(p1, env)) == Ok(GInt(a)) && SingleOf(EvalPar(p2, env)) == Ok(GInt(b))
    ensures forall n: Int64 :: EvalExpr(Operation(op, p1, p2), env) == Ok(Of(GInt(n))) <==> n == Exact(op, a, b)
    ensures EvalExpr(Operation(op, p1, p2), env) == Err(ArithmeticOverflow(op)) <==> !FitsI64(Exact(op, a, b))
  {
    IntegersAreApplied(op, p1, p2, a, b, env);
  }

  /** `/` and `%` of one pair of integers fail together, on a zero divisor and on
      the least integer by -1, and otherwise recompose the dividend. */
  lemma {:induction false} DivideAndModRecompose(p1: Par, p2: Par, a: Int64, b: Int64, env: Env)
    requires Acyclic(env)
    requires SingleOf(EvalPar(p1, env)) == Ok(GInt(a)) && SingleOf(EvalPar(p2, env)) == Ok(GInt(b))
    ensures b == 0 ==> EvalExpr(Operation(Div, p1, p2), env) == Err(DivisionByZero)
    ensures b == 0 ==> EvalExpr(Operation(Mod, p1, p2), env) == Err(DivisionByZero)
    ensures a == I64_MIN && b == -1 ==> EvalExpr(Operation(Div, p1, p2), env) == Err(ArithmeticOverflow(Div))
    ensures a == I64_MIN && b == -1 ==> EvalExpr(Operation(Mod, p1, p2), env) == Err(ArithmeticOverflow(Mod))
    ensures b != 0 && !(a == I64_MIN && b == -1) ==>
              exists q: Int64, r: Int64 ::
                && EvalExpr(Operation(Div, p1, p2), env) == Ok(Of(GInt(q)))
                && EvalExpr(Operation(Mod, p1, p2), env) == Ok(Of(GInt(r)))
                && a == q * b + r && Abs(r) < Abs(b)
  {
    IntegersAreApplied(Div, p1, p2, a, b, env);
    IntegersAreApplied(Mod, p1, p2, a, b, env);
    if b != 0 && !(a == I64_MIN && b == -1) {
      DivisionIsTruncating(a, b);
      var q: Int64, r: Int64 := Quotient(a, b), Remainder(a, b);
      assert ApplyInts(Div, a, b) == Ok(Of(GInt(q))) && ApplyInts(Mod, a, b) == Ok(Of(GInt(r)));
    }
  }

  lemma {:induction false} Worth(e: Expr, n: Int64, env: Env)
    requires Acyclic(env) && EvalExpr(e, env) == Ok(Of(GInt(n)))
    ensures SingleOf(EvalPar(Single(e), env)) == Ok(GInt(n))
  {
    EvalOfSingle(e, env);
  }

  lemma {:induction false} ProductEvaluates(div: Expr, p2: Par, q: Int64, b: Int64, n: Int64, env: Env)
    requires Acyclic(env) && EvalExpr(div, env) == Ok(Of(GInt(q))) && SingleOf(EvalPar(p2, env)) == Ok(GInt(b))
    requires n == q * b
    ensures SingleOf(EvalPar(Single(Operation(Mult, Single(div), p2)), env)) == Ok(GInt(n))
  {
    Worth(div, q, env);
    ArithmeticIsExact(Mult, Single(div), p2, q, b, env);
    Worth(Operation(Mult, Single(div), p2), n, env);
  }

  lemma {:induction false} SumEvaluates(p1: Par, product: Par, mod: Expr, a: Int64, n: Int64, r: Int64, env: Env)
    requires Acyclic(env) && EvalExpr(mod, env) == Ok(Of(GInt(r))) && a == n + r
    requires SingleOf(EvalPar(p1, env)) == Ok(GInt(a)) && SingleOf(EvalPar(product, env)) == Ok(GInt(n))
    ensures EvalExpr(Operation(Plus, product, Single(mod)), env) == Ok(Of(GInt(a)))
    ensures EvalExpr(Operation(Minus, p1, product), env) == Ok(Of(GInt(r)))
  {
    Worth(mod, r, env);
    ArithmeticIsExact(Plus, product, Single(mod), n, r, env);
    ArithmeticIsExact(Minus, p1, product, a, n, env);
  }

  /** And the recomposition is a term that evaluates: `(x / y) * y + x % y` is `x`,
      and `x - (x / y) * y` is `x % y`, neither ever overflowing. */
  lemma {:induction false} RecompositionEvaluates(p1: Par, p2: Par, a: Int64, b: Int64, env: Env)
    requires Acyclic(env) && b != 0 && !(a == I64_MIN && b == -1)
    requires SingleOf(EvalPar(p1, env)) == Ok(GInt(a)) && SingleOf(EvalPar(p2, env)) == Ok(GInt(b))
    ensures (var div, mod := Operation(Div, p1, p2), Operation(Mod, p1, p2);
             var product := Single(Operation(Mult, Single(div), p2));
             && EvalExpr(Operation(Plus, product, Single(mod)), env) == Ok(Of(GInt(a)))
             && EvalExpr(Operation(Minus, p1, product), env) == EvalExpr(mod, env))
  {
    DivisionIsTruncating(a, b);
    var q: Int64, r: Int64, n: Int64 := Quotient(a, b), Remainder(a, b), Quotient(a, b) * b;
    var div, mod := Operation(Div, p1, p2), Operation(Mod, p1, p2);
    IntegersAreApplied(Div, p1, p2, a, b, env);
    IntegersAreApplied(Mod, p1, p2, a, b, env);
    ProductEvaluates(div, p2, q, b, n, env);
    SumEvaluates(p1, Single(Operation(Mult, Single(div), p2)), mod, a, n, r, env);
  }

  // ---- The other operators through the evaluator ----

  /** The first strings differ at, or the end of the shorter. */
  ghost predicate FirstSmaller(a: string, b: string, n: nat) {
    n <= |a| && n < |b| && a[..n] == b[..n] && (n == |a| || a[n] < b[n])
  }

  lemma SameHead(a: string, b: string, n: nat)
    requires FirstSmaller(a, b, n)
    ensures n > 0 ==> a[0] == b[0]
  {
    if n > 0 {
      assert a[..n][0] == a[0] && b[..n][0] == b[0];
    }
  }

  /** A string is less exactly when it ends first or has the smaller character where the
      two first differ. */
  lemma {:induction false} StringLessIff(a: string, b: string)
    ensures CompareStrings(a, b) == -1 <==> exists n: nat :: FirstSmaller(a, b, n)
  {
    if b == [] {
    } else if a == [] {
      assert FirstSmaller(a, b, 0);
    } else if a[0] != b[0] {
      assert a[0] < b[0] ==> FirstSmaller(a, b, 0);
      forall n: nat | FirstSmaller(a, b, n) ensures n == 0 {
        SameHead(a, b, n);
      }
    } else {
      StringLessIff(a[1..], b[1..]);
      if n: nat :| FirstSmaller(a[1..], b[1..], n) {
        assert a[..n + 1] == [a[0]] + a[1..][..n] && b[..n + 1] == [b[0]] + b[1..][..n];
        assert FirstSmaller(a, b, n + 1);
      }
      if n: nat :| FirstSmaller(a, b, n) {
        assert a[1..][..n - 1] == a[..n][1..] && b[1..][..n - 1] == b[..n][1..];
        assert FirstSmaller(a[1..], b[1..], n - 1);
      }
    }
  }

  /** The lexicographic comparison is a total order. */
  lemma {:induction false} StringsAreOrdered(a: string, b: string)
    ensures -1 <= CompareStrings(a, b) <= 1
    ensures CompareStrings(a, b) == 0 <==> a == b
    ensures CompareStrings(b, a) == -CompareStrings(a, b)
  {
    if a != [] && b != [] && a[0] == b[0] {
      StringsAreOrdered(a[1..], b[1..]);
      assert a == [a[0]] + a[1..] && b == [b[0]] + b[1..];
    }
  }

  lemma {:induction false} StringOrderIsTransitive(a: string, b: string, c: string)
    requires CompareStrings(a, b) <= 0 && CompareStrings(b, c) <= 0
    ensures CompareStrings(a, c) <= 0
  {
    if a != [] && b != [] && c != [] && a[0] == b[0] == c[0] {
      StringOrderIsTransitive(a[1..], b[1..], c[1..]);
    }
  }

  lemma {:induction false} ComparisonIsApplied(op: BinaryOp, p1: Par, p2: Par, x: Instance, y: Instance, env: Env)
    requires Acyclic(env) && op in {Lt, Lte, Gt, Gte}
    requires SingleOf(EvalPar(p1, env)) == Ok(x) && SingleOf(EvalPar(p2, env)) == Ok(y)
    ensures EvalExpr(Operation(op, p1, p2), env) ==
            if Compare(x, y).Some? then Ok(Of(GBool(Interprets(op, Compare(x, y).value)))) else Mismatch(op, x, y)
  {
    assert EvalOption(Some(p1), env) == EvalPar(p1, env) && EvalOption(Some(p2), env) == EvalPar(p2, env);
  }

  /** The connectives are the boolean ones and look at both operands: a second
      operand that is not a boolean fails even where the first decides. */
  lemma {:induction false} ConnectivesAreStrict(p1: Par, p2: Par, b: bool, y: Instance, env: Env)
    requires Acyclic(env)
    requires SingleOf(EvalPar(p1, env)) == Ok(GBool(b)) && SingleOf(EvalPar(p2, env)) == Ok(y)
    ensures y.GBool? ==> EvalExpr(Operation(And, p1, p2), env) == Ok(Of(GBool(if b then y.b else false)))
    ensures y.GBool? ==> EvalExpr(Operation(Or, p1, p2), env) == Ok(Of(GBool(if b then true else y.b)))
    ensures !y.GBool? ==> EvalExpr(Operation(And, p1, p2), env).Err? && EvalExpr(Operation(Or, p1, p2), env).Err?
  {
    assert EvalOption(Some(p1), env) == EvalPar(p1, env) && EvalOption(Some(p2), env) == EvalPar(p2, env);
  }

  /** Two integers, two strings or two booleans are ordered: exactly one of `<`,
      being the same value, and `>` holds, and `<=` and `>=` are as these say. */
  lemma ComparisonsAgree(p1: Par, p2: Par, x: Instance, y: Instance, env: Env) returns (lt: bool, gt: bool)
    requires Acyclic(env) && Compare(x, y).Some?
    requires SingleOf(EvalPar(p1, env)) == Ok(x) && SingleOf(EvalPar(p2, env)) == Ok(y)
    ensures EvalExpr(Operation(Lt, p1, p2), env) == Ok(Of(GBool(lt)))
    ensures EvalExpr(Operation(Gt, p1, p2), env) == Ok(Of(GBool(gt)))
    ensures EvalExpr(Operation(Lte, p1, p2), env) == Ok(Of(GBool(!gt)))
    ensures EvalExpr(Operation(Gte, p1, p2), env) == Ok(Of(GBool(!lt)))
    ensures !(lt && gt) && (x == y <==> !lt && !gt)
    ensures EvalExpr(Operation(Gt, p2, p1), env) == Ok(Of(GBool(lt)))
    ensures x.GInt? ==> lt == (x.i < y.i)
    ensures x.GBool? ==> lt == (!x.b && y.b)
    ensures x.GString? ==> (lt <==> exists n: nat :: FirstSmaller(x.s, y.s, n))
  {
    ComparisonIsApplied(Lt, p1, p2, x, y, env);
    ComparisonIsApplied(Gt, p1, p2, x, y, env);
    ComparisonIsApplied(Lte, p1, p2, x, y, env);
    ComparisonIsApplied(Gte, p1, p2, x, y, env);
    ComparisonIsApplied(Gt, p2, p1, y, x, env);
    if x.GString? {
      StringsAreOrdered(x.s, y.s);
      StringLessIff(x.s, y.s);
    }
    var order := Compare(x, y).value;
    lt, gt := order == -1, order == 1;
  }

  /** So `x <= y && x >= y` says that the values are the same, and `x < y || x > y`
      that they are not. */
  lemma {:induction false} OrderDecidesSameness(p1: Par, p2: Par, x: Instance, y: Instance, env: Env)
    requires Acyclic(env) && Compare(x, y).Some?
    requires SingleOf(EvalPar(p1, env)) == Ok(x) && SingleOf(EvalPar(p2, env)) == Ok(y)
    ensures EvalExpr(Operation(And, Single(Operation(Lte, p1, p2)), Single(Operation(Gte, p1, p2))), env)
         == Ok(Of(GBool(x == y)))
    ensures EvalExpr(Operation(Or, Single(Operation(Lt, p1, p2)), Single(Operation(Gt, p1, p2))), env)
         == Ok(Of(GBool(x != y)))
  {
    var lt, gt := ComparisonsAgree(p1, p2, x, y, env);
    EvalOfSingle(Operation(Lt, p1, p2), env);
    EvalOfSingle(Operation(Gt, p1, p2), env);
    EvalOfSingle(Operation(Lte, p1, p2), env);
    EvalOfSingle(Operation(Gte, p1, p2), env);
    ConnectivesAreStrict(Single(Operation(Lte, p1, p2)), Single(Operation(Gte, p1, p2)), !gt, GBool(!lt), env);
    ConnectivesAreStrict(Single(Operation(Lt, p1, p2)), Single(Operation(Gt, p1, p2)), lt, GBool(gt), env);
  }
}
