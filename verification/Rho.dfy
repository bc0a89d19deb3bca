/** Rholang parallel terms as the pure evaluator sees them, their environments,
    and the equality the node gives them. */
module Rho {

  import opened Prelude

  /** A process under a Par that the evaluator never looks into. Two carry the
      same token exactly if the node compares them equal. */
  type Process = nat

  /** The process-level fields of a Par. */
  datatype Processes = Processes(
    sends: seq<Process>,
    receives: seq<Process>,
    news: seq<Process>,
    matches: seq<Process>,
    unforgeables: seq<Process>,
    bundles: seq<Process>,
    connectives: seq<Process>,
    conditionals: seq<Process>)

  /** A bit set of the free levels of a term. */
  type FreeSet = seq<bv8>

  datatype Par = Par(processes: Processes, exprs: seq<Expr>, locallyFree: FreeSet, connectiveUsed: bool)

  datatype Expr = Expr(instance: Option<Instance>)

  datatype Var = BoundVar(index: int) | FreeVar(index: int) | Wildcard | NoVar

  datatype UnaryOp = Not | Neg

  datatype BinaryOp = And | Or | Eq | Neq | Lt | Lte | Gt | Gte | Plus | Minus | Mult | Div | Mod

  /** The grounds no operator of the evaluator accepts. */
  datatype GroundKind = Uri | ByteArray | BigInt | BigRat | FixedPoint | UInt64 | Int32 | UInt32 | UInt16 | UInt8

  datatype ListKind = List | Tuple | Set

  datatype UnsupportedKind = Method | Matches | PercentPercent | PlusPlus | MinusMinus | PathMap | Zipper

  datatype Entry = Entry(key: Option<Par>, value: Option<Par>)

  datatype Instance =
    | GBool(b: bool)
    | GInt(i: Int64)
    | GString(s: string)
    | GDouble(bits: nat)
    | GFloat32(bits: nat)
    | GOther(kind: GroundKind, token: nat)
    | EList(list: ListKind, ps: seq<Par>, free: FreeSet, connective: bool, remainder: Option<Var>)
    | EMap(kvs: seq<Entry>, free: FreeSet, connective: bool, remainder: Option<Var>)
    | EVar(v: Option<Var>)
    | EUnary(unary: UnaryOp, p: Option<Par>)
    | EBinary(binary: BinaryOp, p1: Option<Par>, p2: Option<Par>)
    | Unsupported(unsupported: UnsupportedKind, token: nat)

  const NO_PROCESSES := Processes([], [], [], [], [], [], [], [])

  const NIL := Par(NO_PROCESSES, [], [], false)

  function Single(e: Expr): Par {
    NIL.(exprs := [e])
  }

  function Of(instance: Instance): Par {
    Single(Expr(Some(instance)))
  }

  // ---- Putting terms in parallel ----

  function ByteAt(a: FreeSet, i: nat): bv8 {
    if i < |a| then a[i] else 0
  }

  /** The union of two bit sets, the shorter padded with zeros. */
  function Union(a: FreeSet, b: FreeSet): FreeSet {
    seq(if |a| < |b| then |b| else |a|, i requires 0 <= i => ByteAt(a, i) | ByteAt(b, i))
  }

  /** `union_bytes`: the buffer of `a` grows to the length of `b` and takes its
      bits in one by one. */
  method UnionBytes(a: FreeSet, b: FreeSet) returns (r: FreeSet)
    ensures r == Union(a, b)
  {
    r := a;
    if |b| > |r| {
      r := r + seq(|b| - |r|, _ => 0);
    }
    var start := r;
    for i := 0 to |b|
      invariant |r| == |start|
      invariant forall k :: 0 <= k < i ==> r[k] == start[k] | b[k]
      invariant forall k :: i <= k < |r| ==> r[k] == start[k]
    {
      r := r[i := r[i] | b[i]];
    }
    forall k | 0 <= k < |r| ensures r[k] == Union(a, b)[k] {
      var x: bv8 := start[k];
      assert x == ByteAt(a, k);
      assert x | 0 == x;
    }
  }

  lemma UnionAt(a: FreeSet, b: FreeSet)
    ensures |Union(a, b)| == if |a| < |b| then |b| else |a|
    ensures forall i: nat :: ByteAt(Union(a, b), i) == ByteAt(a, i) | ByteAt(b, i)
  {
    assert (0 as bv8) | 0 == 0;
  }

  lemma UnionWithNothing(a: FreeSet)
    ensures Union(a, []) == a && Union([], a) == a
  {
    forall k: nat | k < |a| ensures Union(a, [])[k] == a[k] && Union([], a)[k] == a[k] {
      var x: bv8 := a[k];
      assert x | 0 == x && 0 | x == x;
    }
  }

  function Both(a: Processes, b: Processes): Processes {
    Processes(
      a.sends + b.sends, a.receives + b.receives, a.news + b.news, a.matches + b.matches,
      a.unforgeables + b.unforgeables, a.bundles + b.bundles, a.connectives + b.connectives,
      a.conditionals + b.conditionals)
  }

  /** `concatenate`. */
  function Concat(a: Par, b: Par): Par {
    Par(Both(a.processes, b.processes), a.exprs + b.exprs, Union(a.locallyFree, b.locallyFree),
        a.connectiveUsed || b.connectiveUsed)
  }

  lemma BothUnit(a: Processes)
    ensures Both(a, NO_PROCESSES) == a && Both(NO_PROCESSES, a) == a
  {
  }

  /** The empty term is the unit of parallel composition. */
  lemma ConcatUnit(a: Par)
    ensures Concat(a, NIL) == a && Concat(NIL, a) == a
  {
    UnionWithNothing(a.locallyFree);
    BothUnit(a.processes);
    assert a.exprs + [] == a.exprs == [] + a.exprs;
  }

  // ---- Environments ----

  /** A stack of bindings read by de Bruijn index. */
  datatype Env = Env(bindings: seq<Par>, shift: int)

  const EMPTY := Env([], 0)

  function Put(env: Env, a: Par): Env {
    env.(bindings := env.bindings + [a])
  }

  function Shifted(env: Env, j: int): Env {
    env.(shift := env.shift + j)
  }

  /** Where `Env::get` looks for index `k`. */
  function Position(env: Env, k: int): int {
    |env.bindings| + env.shift - k - 1
  }

  predicate Resolves(env: Env, k: int) {
    0 <= Position(env, k) < |env.bindings|
  }

  // ---- Equality ----

  /** The node's equality of terms. It does not look at the free-level bit sets,
      at any depth. */
  predicate Same(a: Par, b: Par)
    decreases a
  {
    && a.processes == b.processes
    && a.connectiveUsed == b.connectiveUsed
    && |a.exprs| == |b.exprs|
    && forall i :: 0 <= i < |a.exprs| ==> SameExpr(a.exprs[i], b.exprs[i])
  }

  predicate SameOption(a: Option<Par>, b: Option<Par>)
    decreases a
  {
    if a.Some? && b.Some? then Same(a.value, b.value) else a.None? && b.None?
  }

  predicate SameExpr(a: Expr, b: Expr)
    decreases a
  {
    if a.instance.Some? && b.instance.Some? then SameInstance(a.instance.value, b.instance.value)
    else a.instance.None? && b.instance.None?
  }

  predicate SameInstance(a: Instance, b: Instance)
    decreases a
  {
    match (a, b)
    case (EList(k, ps, _, c, rem), EList(k', ps', _, c', rem')) =>
      && k == k' && c == c' && rem == rem' && |ps| == |ps'|
      && forall i :: 0 <= i < |ps| ==> Same(ps[i], ps'[i])
    case (EMap(kvs, _, c, rem), EMap(kvs', _, c', rem')) =>
      && c == c' && rem == rem' && |kvs| == |kvs'|
      && forall i :: 0 <= i < |kvs| ==> SameEntry(kvs[i], kvs'[i])
    case (EUnary(op, p), EUnary(op', p')) => op == op' && SameOption(p, p')
    case (EBinary(op, p1, p2), EBinary(op', p1', p2')) => op == op' && SameOption(p1, p1') && SameOption(p2, p2')
    case _ => a == b
  }

  predicate SameEntry(a: Entry, b: Entry)
    decreases a
  {
    SameOption(a.key, b.key) && SameOption(a.value, b.value)
  }

  // ---- What equality ignores ----

  /** The term with its free-level bit sets emptied at every depth. */
  function Strip(p: Par): Par
    decreases p
  {
    Par(p.processes, seq(|p.exprs|, i requires 0 <= i < |p.exprs| => StripExpr(p.exprs[i])), [], p.connectiveUsed)
  }

  function StripOption(p: Option<Par>): Option<Par>
    decreases p
  {
    if p.Some? then Some(Strip(p.value)) else None
  }

  function StripExpr(e: Expr): Expr
    decreases e
  {
    if e.instance.Some? then Expr(Some(StripInstance(e.instance.value))) else e
  }

  function StripInstance(a: Instance): Instance
    decreases a
  {
    match a
    case EList(k, ps, _, c, rem) =>
      EList(k, seq(|ps|, i requires 0 <= i < |ps| => Strip(ps[i])), [], c, rem)
    case EMap(kvs, _, c, rem) =>
      EMap(seq(|kvs|, i requires 0 <= i < |kvs| => StripEntry(kvs[i])), [], c, rem)
    case EUnary(op, p) => EUnary(op, StripOption(p))
    case EBinary(op, p1, p2) => EBinary(op, StripOption(p1), StripOption(p2))
    case _ => a
  }

  function StripEntry(e: Entry): Entry
    decreases e
  {
    Entry(StripOption(e.key), StripOption(e.value))
  }

  /** Two terms are equal to the node exactly when they differ in nothing but free-level
      bit sets. */
  lemma {:induction false} SameIffStripped(a: Par, b: Par)
    ensures Same(a, b) <==> Strip(a) == Strip(b)
    decreases a
  {
    if |a.exprs| == |b.exprs| {
      forall i | 0 <= i < |a.exprs|
        ensures SameExpr(a.exprs[i], b.exprs[i]) <==> Strip(a).exprs[i] == Strip(b).exprs[i]
      {
        SameExprIffStripped(a.exprs[i], b.exprs[i]);
      }
    } else {
      assert |Strip(a).exprs| != |Strip(b).exprs|;
    }
  }

  lemma {:induction false} SameOptionIffStripped(a: Option<Par>, b: Option<Par>)
    ensures SameOption(a, b) <==> StripOption(a) == StripOption(b)
    decreases a
  {
    if a.Some? && b.Some? {
      SameIffStripped(a.value, b.value);
    }
  }

  lemma {:induction false} SameExprIffStripped(a: Expr, b: Expr)
    ensures SameExpr(a, b) <==> StripExpr(a) == StripExpr(b)
    decreases a
  {
    if a.instance.Some? && b.instance.Some? {
      SameInstanceIffStripped(a.instance.value, b.instance.value);
    }
  }

  lemma {:induction false} SameListIffStripped(a: Instance, b: Instance)
    requires a.EList? && b.EList?
    ensures SameInstance(a, b) <==> StripInstance(a) == StripInstance(b)
    decreases a, 0
  {
    if |a.ps| == |b.ps| {
      forall i | 0 <= i < |a.ps|
        ensures Same(a.ps[i], b.ps[i]) <==> StripInstance(a).ps[i] == StripInstance(b).ps[i]
      {
        SameIffStripped(a.ps[i], b.ps[i]);
      }
    } else {
      assert |StripInstance(a).ps| != |StripInstance(b).ps|;
    }
  }

  lemma {:induction false} SameMapIffStripped(a: Instance, b: Instance)
    requires a.EMap? && b.EMap?
    ensures SameInstance(a, b) <==> StripInstance(a) == StripInstance(b)
    decreases a, 0
  {
    if |a.kvs| == |b.kvs| {
      forall i | 0 <= i < |a.kvs|
        ensures SameEntry(a.kvs[i], b.kvs[i]) <==> StripInstance(a).kvs[i] == StripInstance(b).kvs[i]
      {
        SameOptionIffStripped(a.kvs[i].key, b.kvs[i].key);
        SameOptionIffStripped(a.kvs[i].value, b.kvs[i].value);
      }
    } else {
      assert |StripInstance(a).kvs| != |StripInstance(b).kvs|;
    }
  }

  predicate Compound(a: Instance) {
    a.EList? || a.EMap? || a.EUnary? || a.EBinary?
  }

  lemma {:induction false} StripKeepsKind(a: Instance)
    ensures !Compound(a) ==> StripInstance(a) == a
    ensures StripInstance(a).EList? == a.EList? && StripInstance(a).EMap? == a.EMap?
    ensures StripInstance(a).EUnary? == a.EUnary? && StripInstance(a).EBinary? == a.EBinary?
  {
  }

  lemma {:induction false} SameInstanceIffStripped(a: Instance, b: Instance)
    ensures SameInstance(a, b) <==> StripInstance(a) == StripInstance(b)
    decreases a, 1
  {
    StripKeepsKind(a);
    StripKeepsKind(b);
    if a.EList? && b.EList? {
      SameListIffStripped(a, b);
    } else if a.EMap? && b.EMap? {
      SameMapIffStripped(a, b);
    } else if a.EUnary? && b.EUnary? {
      SameOptionIffStripped(a.p, b.p);
    } else if a.EBinary? && b.EBinary? {
      SameOptionIffStripped(a.p1, b.p1);
      SameOptionIffStripped(a.p2, b.p2);
    } else {
      assert SameInstance(a, b) == (a == b);
    }
  }

  // ---- NaN ----

  /** NaN patterns of the two float widths, section 6.2.1 of IEEE 754-2008. */
  predicate IsNan64(bits: nat) {
    bits % 0x8000_0000_0000_0000 > 0x7FF0_0000_0000_0000
  }

  predicate IsNan32(bits: nat) {
    bits % 0x8000_0000 > 0x7F80_0000
  }

  /** `par_contains_nan_double`: a NaN among the expressions, or inside their
      collections. */
  predicate HasNan(a: Par)
    decreases a
  {
    exists i :: 0 <= i < |a.exprs| && HasNanExpr(a.exprs[i])
  }

  predicate HasNanOption(a: Option<Par>)
    decreases a
  {
    a.Some? && HasNan(a.value)
  }

  predicate HasNanExpr(e: Expr)
    decreases e
  {
    match e.instance
    case Some(GDouble(bits)) => IsNan64(bits)
    case Some(GFloat32(bits)) => IsNan32(bits)
    case Some(EList(_, ps, _, _, _)) => exists i :: 0 <= i < |ps| && HasNan(ps[i])
    case Some(EMap(kvs, _, _, _)) =>
      exists i :: 0 <= i < |kvs| && (HasNanOption(kvs[i].key) || HasNanOption(kvs[i].value))
    case _ => false
  }

  /** A NaN has every exponent bit set and a fraction that is not zero. */
  lemma NanBits64(bits: nat)
    ensures IsNan64(bits) <==> (bits / 0x10_0000_0000_0000) % 0x800 == 0x7FF && bits % 0x10_0000_0000_0000 > 0
  {
    var high, fraction := bits / 0x10_0000_0000_0000, bits % 0x10_0000_0000_0000;
    var sign, exponent := high / 0x800, high % 0x800;
    assert bits == sign * 0x8000_0000_0000_0000 + (exponent * 0x10_0000_0000_0000 + fraction);
    assert bits % 0x8000_0000_0000_0000 == exponent * 0x10_0000_0000_0000 + fraction;
  }

  lemma NanBits32(bits: nat)
    ensures IsNan32(bits) <==> (bits / 0x80_0000) % 0x100 == 0xFF && bits % 0x80_0000 > 0
  {
    var high, fraction := bits / 0x80_0000, bits % 0x80_0000;
    var sign, exponent := high / 0x100, high % 0x100;
    assert bits == sign * 0x8000_0000 + (exponent * 0x80_0000 + fraction);
    assert bits % 0x8000_0000 == exponent * 0x80_0000 + fraction;
  }

  lemma {:induction false} NanOfSingle(e: Expr)
    ensures HasNan(Single(e)) <==> HasNanExpr(e)
  {
    assert Single(e).exprs[0] == e;
  }

  /** The NaNs of terms in parallel are those of the terms. */
  lemma {:induction false} NanOfConcat(a: Par, b: Par)
    ensures HasNan(Concat(a, b)) <==> HasNan(a) || HasNan(b)
  {
    var both := Concat(a, b).exprs;
    if HasNan(a) {
      var i :| 0 <= i < |a.exprs| && HasNanExpr(a.exprs[i]);
      assert both[i] == a.exprs[i];
    }
    if HasNan(b) {
      var i :| 0 <= i < |b.exprs| && HasNanExpr(b.exprs[i]);
      assert both[|a.exprs| + i] == b.exprs[i];
    }
  }

  /** Those of a list are those of its members. */
  lemma NanOfList(k: ListKind, ps: seq<Par>, free: FreeSet, c: bool, rem: Option<Var>)
    ensures HasNan(Of(EList(k, ps, free, c, rem))) <==> exists p :: p in ps && HasNan(p)
  {
    NanOfSingle(Expr(Some(EList(k, ps, free, c, rem))));
    if p :| p in ps && HasNan(p) {
      var i :| 0 <= i < |ps| && ps[i] == p;
    }
  }

  /** Those of a map are those of its keys and values. */
  lemma NanOfMap(kvs: seq<Entry>, free: FreeSet, c: bool, rem: Option<Var>)
    ensures HasNan(Of(EMap(kvs, free, c, rem))) <==>
            exists e :: e in kvs && ((e.key.Some? && HasNan(e.key.value)) || (e.value.Some? && HasNan(e.value.value)))
  {
    NanOfSingle(Expr(Some(EMap(kvs, free, c, rem))));
    if e :| e in kvs && ((e.key.Some? && HasNan(e.key.value)) || (e.value.Some? && HasNan(e.value.value))) {
      var i :| 0 <= i < |kvs| && kvs[i] == e;
    }
  }
}
