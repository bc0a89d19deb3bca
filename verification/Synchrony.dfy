/** The recovery state behind the synchrony constraint: a validator whose checks
    keep failing on one unchanged block is let through after a stall window. */
module Synchrony {

  import opened Prelude
  import opened Dag

  const U32_MAX: nat := 0xFFFF_FFFF

  datatype Conf = Conf(stallWindow: nat, cooldown: nat, maxBypasses: nat)

  /** Times are readings of one monotone clock. */
  datatype Recovery = Recovery(
    lastKnownHash: Hash,
    firstFailureAt: Option<nat>,
    consecutiveFailures: nat,
    bypassCount: nat,
    lastBypassAt: Option<nat>)

  type States = map<Validator, Recovery>

  function SaturatingInc(n: nat): nat {
    if n < U32_MAX then n + 1 else U32_MAX
  }

  /** Time from `earlier` to `now`, zero if the clock has not passed it. */
  function Since(earlier: nat, now: nat): nat {
    if now < earlier then 0 else now - earlier
  }

  function FreshFailure(hash: Hash, now: nat): Recovery {
    Recovery(hash, Some(now), 1, 0, None)
  }

  function Cleared(s: Recovery): Recovery {
    s.(consecutiveFailures := 0, firstFailureAt := None, bypassCount := 0, lastBypassAt := None)
  }

  /** One more failure on the hash already known, and whether it is let through. */
  function FailAgain(s: Recovery, now: nat, conf: Conf): (Recovery, bool) {
    var first := if s.firstFailureAt.Some? then s.firstFailureAt.value else now;
    var failed := s.(firstFailureAt := Some(first), consecutiveFailures := SaturatingInc(s.consecutiveFailures));
    var stalled := Since(first, now) >= conf.stallWindow;
    var inCooldown := s.lastBypassAt.Some? && Since(s.lastBypassAt.value, now) < conf.cooldown;
    var recyclable := s.lastBypassAt.Some? && Since(s.lastBypassAt.value, now) >= conf.stallWindow;
    if !stalled || inCooldown || conf.maxBypasses == 0 then (failed, false)
    else if s.bypassCount >= conf.maxBypasses && !recyclable then (failed, false)
    else
      var spent := if s.bypassCount >= conf.maxBypasses then 0 else s.bypassCount;
      (failed.(consecutiveFailures := 0, firstFailureAt := None, bypassCount := SaturatingInc(spent),
               lastBypassAt := Some(now)), true)
  }

  /** At least `span` has passed since `from`; no time at all always has. */
  ghost predicate Passed(from: nat, now: nat, span: nat) {
    now >= from + span || span == 0
  }

  /** What one record decides on its own: a bypass needs the stall window since the first
      failure, the cooldown since the last bypass, and a budget that is not used up or was
      last drawn on a stall window ago. */
  lemma BypassIff(s: Recovery, now: nat, conf: Conf)
    ensures FailAgain(s, now, conf).1 <==>
            && Passed(if s.firstFailureAt.Some? then s.firstFailureAt.value else now, now, conf.stallWindow)
            && (s.lastBypassAt.Some? ==> Passed(s.lastBypassAt.value, now, conf.cooldown))
            && conf.maxBypasses > 0
            && (s.bypassCount < conf.maxBypasses
                || (s.lastBypassAt.Some? && Passed(s.lastBypassAt.value, now, conf.stallWindow)))
  {
  }

  /** And what it remembers: the bypass and its time, or one more failure of a streak
      whose beginning stays. */
  lemma BypassLeaves(s: Recovery, now: nat, conf: Conf)
    ensures var (after, bypass) := FailAgain(s, now, conf);
            && after.lastKnownHash == s.lastKnownHash
            && (bypass ==>
                  && after.firstFailureAt == None && after.consecutiveFailures == 0 && after.lastBypassAt == Some(now)
                  && (s.bypassCount < conf.maxBypasses <= U32_MAX ==> after.bypassCount == s.bypassCount + 1)
                  && (s.bypassCount >= conf.maxBypasses ==> after.bypassCount == 1))
            && (!bypass ==>
                  && after.firstFailureAt == Some(if s.firstFailureAt.Some? then s.firstFailureAt.value else now)
                  && (s.consecutiveFailures < U32_MAX ==> after.consecutiveFailures == s.consecutiveFailures + 1)
                  && (s.consecutiveFailures >= U32_MAX ==> after.consecutiveFailures == U32_MAX)
                  && after.bypassCount == s.bypassCount && after.lastBypassAt == s.lastBypassAt)
  {
  }

  // ---- One check ----

  /** A synchrony check by one validator: the constraint (or its finalized-baseline
      form) was satisfied, or it failed on the validator's last block. */
  datatype Outcome = Satisfied | Failing(hash: Hash)

  datatype Check = Check(validator: Validator, now: nat, outcome: Outcome)

  function OnSuccess(states: States, v: Validator): States {
    if v in states then states[v := Cleared(states[v])] else states
  }

  function OnFailure(states: States, v: Validator, hash: Hash, now: nat, conf: Conf): (States, bool) {
    if v in states && states[v].lastKnownHash == hash then
      var (s, bypass) := FailAgain(states[v], now, conf);
      (states[v := s], bypass)
    else (states[v := FreshFailure(hash, now)], false)
  }

  /** A granted bypass is also recorded as a success. */
  function Step(states: States, c: Check, conf: Conf): (States, bool) {
    match c.outcome
    case Satisfied => (OnSuccess(states, c.validator), false)
    case Failing(hash) =>
      var (next, bypass) := OnFailure(states, c.validator, hash, c.now, conf);
      (if bypass then OnSuccess(next, c.validator) else next, bypass)
  }

  /** The table of recovery states the node keeps. */
  class RecoveryTable {

    var states: States

    constructor ()
      ensures states == map[]
    {
      states := map[];
    }

    /** `update_recovery_state_on_success`. */
    method UpdateOnSuccess(v: Validator)
      modifies this
      ensures states == OnSuccess(old(states), v)
    {
      if v in states {
        var s := states[v];
        s := s.(consecutiveFailures := 0);
        s := s.(firstFailureAt := None);
        s := s.(bypassCount := 0);
        s := s.(lastBypassAt := None);
        states := states[v := s];
      }
    }

    /** `should_bypass` on one record. */
    method ShouldBypass(v: Validator, now: nat, conf: Conf) returns (bypass: bool)
      requires v in states
      modifies this
      ensures states == old(states)[v := FailAgain(old(states[v]), now, conf).0]
      ensures bypass == FailAgain(old(states[v]), now, conf).1
    {
      var s := states[v];
      var first := if s.firstFailureAt.Some? then s.firstFailureAt.value else now;
      s := s.(firstFailureAt := Some(first));
      s := s.(consecutiveFailures := SaturatingInc(s.consecutiveFailures));
      states := states[v := s];
      var stalledLongEnough := Since(first, now) >= conf.stallWindow;
      var inCooldown := s.lastBypassAt.Some? && Since(s.lastBypassAt.value, now) < conf.cooldown;
      if !stalledLongEnough || inCooldown {
        return false;
      }
      if conf.maxBypasses == 0 {
        return false;
      }
      if s.bypassCount >= conf.maxBypasses {
        if s.lastBypassAt.Some? && Since(s.lastBypassAt.value, now) >= conf.stallWindow {
          s := s.(bypassCount := 0);
        } else {
          return false;
        }
      }
      s := s.(consecutiveFailures := 0, firstFailureAt := None);
      s := s.(bypassCount := SaturatingInc(s.bypassCount));
      s := s.(lastBypassAt := Some(now));
      states := states[v := s];
      return true;
    }

    /** `should_bypass_synchrony_constraint`. */
    method ShouldBypassConstraint(v: Validator, hash: Hash, now: nat, conf: Conf) returns (bypass: bool)
      modifies this
      ensures (states, bypass) == OnFailure(old(states), v, hash, now, conf)
    {
      if v in states && states[v].lastKnownHash == hash {
        bypass := ShouldBypass(v, now, conf);
      } else {
        states := states[v := FreshFailure(hash, now)];
        bypass := false;
      }
    }

    /** The part of `check` after the constraint values are known. */
    method Conclude(c: Check, conf: Conf) returns (bypass: bool)
      modifies this
      ensures (states, bypass) == Step(old(states), c, conf)
    {
      bypass := false;
      match c.outcome
      case Satisfied =>
        UpdateOnSuccess(c.validator);
      case Failing(hash) =>
        bypass := ShouldBypassConstraint(c.validator, hash, c.now, conf);
        if bypass {
          UpdateOnSuccess(c.validator);
        }
    }
  }

  // ---- Whole runs ----

  ghost predicate Monotone(checks: seq<Check>) {
    forall i, j :: 0 <= i <= j < |checks| ==> checks[i].now <= checks[j].now
  }

  /** The table after the first n checks of a run that began with an empty one. */
  function StateAt(checks: seq<Check>, n: nat, conf: Conf): States
    requires n <= |checks|
  {
    if n == 0 then map[] else Step(StateAt(checks, n - 1, conf), checks[n - 1], conf).0
  }

  predicate Granted(checks: seq<Check>, i: nat, conf: Conf)
    requires i < |checks|
  {
    Step(StateAt(checks, i, conf), checks[i], conf).1
  }

  /** No record ever remembers a bypass: the success that follows each one wipes it
      out. */
  predicate Unspent(s: Recovery) {
    s.bypassCount == 0 && s.lastBypassAt.None?
  }

  lemma {:induction false} BypassesAreForgotten(checks: seq<Check>, n: nat, conf: Conf)
    requires n <= |checks|
    ensures forall v :: v in StateAt(checks, n, conf) ==> Unspent(StateAt(checks, n, conf)[v])
  {
    if n > 0 {
      BypassesAreForgotten(checks, n - 1, conf);
    }
  }

  function StalledFor(s: Recovery, now: nat): nat {
    if s.firstFailureAt.Some? then Since(s.firstFailureAt.value, now) else 0
  }

  /** So a failing check is let through exactly if bypasses are allowed at all, its
      hash is the known one, and the stall has lasted the window. */
  lemma {:induction false} GrantedMeans(checks: seq<Check>, i: nat, conf: Conf)
    requires i < |checks|
    ensures Granted(checks, i, conf) <==>
              (var c, states := checks[i], StateAt(checks, i, conf);
               && conf.maxBypasses > 0 && c.outcome.Failing?
               && c.validator in states && states[c.validator].lastKnownHash == c.outcome.hash
               && StalledFor(states[c.validator], c.now) >= conf.stallWindow)
  {
    BypassesAreForgotten(checks, i, conf);
  }

  /** The cooldown and the size of the budget never matter: two configurations that
      agree on the window and on whether bypasses are allowed run alike. */
  lemma {:induction false} CooldownAndBudgetAreIdle(checks: seq<Check>, n: nat, conf: Conf, other: Conf)
    requires n <= |checks| && conf.stallWindow == other.stallWindow
    requires conf.maxBypasses == 0 <==> other.maxBypasses == 0
    ensures StateAt(checks, n, conf) == StateAt(checks, n, other)
    ensures forall i :: 0 <= i < n ==> (Granted(checks, i, conf) <==> Granted(checks, i, other))
  {
    if n > 0 {
      CooldownAndBudgetAreIdle(checks, n - 1, conf, other);
      BypassesAreForgotten(checks, n - 1, conf);
    }
  }

  // ---- Failure streaks ----

  ghost predicate FailsAt(checks: seq<Check>, i: nat, v: Validator, hash: Hash) {
    i < |checks| && checks[i].validator == v && checks[i].outcome == Failing(hash)
  }

  /** From check j up to but not including n, the validator's checks all fail on one
      hash, beginning with j itself, and none is let through. */
  ghost predicate Streak(checks: seq<Check>, j: nat, n: nat, v: Validator, hash: Hash, conf: Conf)
    requires n <= |checks|
  {
    && j < n
    && FailsAt(checks, j, v, hash)
    && forall k :: j <= k < n && checks[k].validator == v ==> FailsAt(checks, k, v, hash) && !Granted(checks, k, conf)
  }

  /** The hash of the validator's latest failing check among the first n. */
  function LastFailure(checks: seq<Check>, n: nat, v: Validator): Option<Hash>
    requires n <= |checks|
  {
    if n == 0 then None
    else if checks[n - 1].validator == v && checks[n - 1].outcome.Failing? then Some(checks[n - 1].outcome.hash)
    else LastFailure(checks, n - 1, v)
  }

  /** The table knows the validators that have failed, each with its latest hash. */
  ghost predicate KnowsLast(checks: seq<Check>, n: nat, v: Validator, conf: Conf)
    requires n <= |checks|
  {
    var states, last := StateAt(checks, n, conf), LastFailure(checks, n, v);
    (v in states <==> last.Some?) && (v in states ==> states[v].lastKnownHash == last.value)
  }

  /** A recorded first failure is the start of a streak that is still on. */
  ghost predicate FirstStartsStreak(checks: seq<Check>, n: nat, v: Validator, conf: Conf)
    requires n <= |checks|
  {
    var states := StateAt(checks, n, conf);
    v in states && states[v].firstFailureAt.Some? ==>
      exists j: nat :: Streak(checks, j, n, v, states[v].lastKnownHash, conf)
                       && checks[j].now == states[v].firstFailureAt.value
  }

  ghost predicate StreakRecorded(checks: seq<Check>, j: nat, n: nat, v: Validator, hash: Hash, conf: Conf)
    requires n <= |checks|
  {
    Streak(checks, j, n, v, hash, conf) ==>
      var states := StateAt(checks, n, conf);
      && v in states && states[v].lastKnownHash == hash
      && states[v].firstFailureAt.Some? && states[v].firstFailureAt.value <= checks[j].now
  }

  lemma StreakShrinks(checks: seq<Check>, j: nat, n: nat, v: Validator, hash: Hash, conf: Conf)
    requires n < |checks| && Streak(checks, j, n + 1, v, hash, conf)
    ensures checks[n].validator == v ==> FailsAt(checks, n, v, hash) && !Granted(checks, n, conf)
    ensures j < n ==> Streak(checks, j, n, v, hash, conf)
  {
  }

  lemma StreakGrows(checks: seq<Check>, j: nat, n: nat, v: Validator, hash: Hash, conf: Conf)
    requires n < |checks|
    requires Streak(checks, j, n, v, hash, conf) || (j == n && checks[n].validator == v)
    requires checks[n].validator == v ==> FailsAt(checks, n, v, hash) && !Granted(checks, n, conf)
    ensures Streak(checks, j, n + 1, v, hash, conf)
  {
  }

  lemma {:induction false} KnowsLastHolds(checks: seq<Check>, n: nat, v: Validator, conf: Conf)
    requires n <= |checks|
    ensures KnowsLast(checks, n, v, conf)
  {
    if n > 0 {
      KnowsLastHolds(checks, n - 1, v, conf);
    }
  }

  lemma {:induction false} FirstFailureIsAStart(checks: seq<Check>, n: nat, v: Validator, conf: Conf)
    requires n <= |checks|
    ensures FirstStartsStreak(checks, n, v, conf)
  {
    if n > 0 {
      var before, states, c := StateAt(checks, n - 1, conf), StateAt(checks, n, conf), checks[n - 1];
      FirstFailureIsAStart(checks, n - 1, v, conf);
      if v in states && states[v].firstFailureAt.Some? {
        var hash := states[v].lastKnownHash;
        if v in before && before[v].lastKnownHash == hash && before[v].firstFailureAt.Some? {
          var j: nat :| Streak(checks, j, n - 1, v, hash, conf) && checks[j].now == before[v].firstFailureAt.value;
          StreakGrows(checks, j, n - 1, v, hash, conf);
        } else {
          StreakGrows(checks, n - 1, n - 1, v, hash, conf);
        }
      }
    }
  }

  lemma {:induction false} StreaksAreRecorded(checks: seq<Check>, j: nat, n: nat, v: Validator, hash: Hash, conf: Conf)
    requires n <= |checks| && Monotone(checks)
    ensures StreakRecorded(checks, j, n, v, hash, conf)
  {
    if Streak(checks, j, n, v, hash, conf) {
      StreakShrinks(checks, j, n - 1, v, hash, conf);
      if j < n - 1 {
        StreaksAreRecorded(checks, j, n - 1, v, hash, conf);
      } else {
        FirstFailureIsAStart(checks, n - 1, v, conf);
      }
    }
  }

  /** The failures of the validator's current streak: those on its latest hash since a
      success, a bypass or another hash. */
  ghost function StreakLength(checks: seq<Check>, n: nat, v: Validator, conf: Conf): nat
    requires n <= |checks|
  {
    if n == 0 then 0
    else if checks[n - 1].validator != v then StreakLength(checks, n - 1, v, conf)
    else if checks[n - 1].outcome.Satisfied? || Granted(checks, n - 1, conf) then 0
    else if LastFailure(checks, n - 1, v) == Some(checks[n - 1].outcome.hash)
      then StreakLength(checks, n - 1, v, conf) + 1
    else 1
  }

  /** The failure counter counts the current streak, up to the largest u32. */
  lemma {:induction false} CounterCountsStreak(checks: seq<Check>, n: nat, v: Validator, conf: Conf)
    requires n <= |checks| && v in StateAt(checks, n, conf)
    ensures StateAt(checks, n, conf)[v].consecutiveFailures
         == if StreakLength(checks, n, v, conf) < U32_MAX then StreakLength(checks, n, v, conf) else U32_MAX
  {
    KnowsLastHolds(checks, n - 1, v, conf);
    if v in StateAt(checks, n - 1, conf) {
      CounterCountsStreak(checks, n - 1, v, conf);
    }
  }

  // ---- When a bypass is granted ----

  /** A stall, seen from failing check i: a streak up to it (or check i alone) that
      began at least the window ago. */
  ghost predicate Stalled(checks: seq<Check>, i: nat, v: Validator, hash: Hash, conf: Conf)
    requires i < |checks|
  {
    conf.stallWindow == 0
    || exists j: nat :: Streak(checks, j, i, v, hash, conf) && checks[i].now - checks[j].now >= conf.stallWindow
  }

  lemma {:induction false} RecordedStallIsAStall(checks: seq<Check>, i: nat, v: Validator, conf: Conf)
    requires i < |checks| && Monotone(checks) && v in StateAt(checks, i, conf)
    ensures StalledFor(StateAt(checks, i, conf)[v], checks[i].now) >= conf.stallWindow
            <==> Stalled(checks, i, v, StateAt(checks, i, conf)[v].lastKnownHash, conf)
  {
    var s := StateAt(checks, i, conf)[v];
    FirstFailureIsAStart(checks, i, v, conf);
    if s.firstFailureAt.Some? {
      var first: nat :| Streak(checks, first, i, v, s.lastKnownHash, conf)
                        && checks[first].now == s.firstFailureAt.value;
      assert checks[first].now <= checks[i].now;
    }
    if j: nat :| Streak(checks, j, i, v, s.lastKnownHash, conf) && checks[i].now - checks[j].now >= conf.stallWindow {
      StreaksAreRecorded(checks, j, i, v, s.lastKnownHash, conf);
    }
  }

  /** Over every run of sequential checks: a failing check is let through if and only
      if bypasses are allowed, the validator's previous failure was on the same
      hash, and its failures on it have gone on unanswered for the window. */
  lemma {:induction false} GrantedIffStalled(checks: seq<Check>, i: nat, conf: Conf)
    requires i < |checks| && Monotone(checks)
    ensures Granted(checks, i, conf) <==>
              (var c := checks[i];
               && conf.maxBypasses > 0 && c.outcome.Failing?
               && LastFailure(checks, i, c.validator) == Some(c.outcome.hash)
               && Stalled(checks, i, c.validator, c.outcome.hash, conf))
  {
    GrantedMeans(checks, i, conf);
    KnowsLastHolds(checks, i, checks[i].validator, conf);
    if checks[i].validator in StateAt(checks, i, conf) {
      RecordedStallIsAStall(checks, i, checks[i].validator, conf);
    }
  }

  /** Two bypasses of one validator are at least the stall window apart. */
  lemma BypassesAreSpaced(checks: seq<Check>, i: nat, k: nat, conf: Conf)
    requires i < k < |checks| && Monotone(checks) && checks[i].validator == checks[k].validator
    requires Granted(checks, i, conf) && Granted(checks, k, conf)
    ensures checks[k].now - checks[i].now >= conf.stallWindow
  {
    GrantedIffStalled(checks, k, conf);
    var v, hash := checks[k].validator, checks[k].outcome.hash;
    if conf.stallWindow > 0 {
      var j: nat :| Streak(checks, j, k, v, hash, conf) && checks[k].now - checks[j].now >= conf.stallWindow;
      assert i < j;
    }
  }

  /** Progress: a validator that keeps failing on one hash is let through by the
      first check made a stall window or more after the failures began. */
  lemma StalledValidatorsGetThrough(checks: seq<Check>, j: nat, i: nat, v: Validator, hash: Hash, conf: Conf)
    requires j < i < |checks| && Monotone(checks) && conf.maxBypasses > 0
    requires FailsAt(checks, j, v, hash) && FailsAt(checks, i, v, hash)
    requires forall k :: j <= k < i && checks[k].validator == v ==> FailsAt(checks, k, v, hash)
    requires checks[i].now - checks[j].now >= conf.stallWindow
    ensures exists k: nat :: j <= k <= i && checks[k].validator == v && Granted(checks, k, conf)
  {
    if forall k: nat :: j <= k < i && checks[k].validator == v ==> !Granted(checks, k, conf) {
      assert Streak(checks, j, i, v, hash, conf);
      StreaksAreRecorded(checks, j, i, v, hash, conf);
      KnowsLastHolds(checks, i, v, conf);
      GrantedIffStalled(checks, i, conf);
    }
  }
}
