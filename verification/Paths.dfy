/** Reachability along the edges of a graph. */
module Paths {

  ghost predicate IsPath<T(!new)>(edge: (T, T) -> bool, path: seq<T>) {
    path != [] && forall i {:trigger path[i]} :: 0 < i < |path| ==> edge(path[i - 1], path[i])
  }

  ghost predicate IsPathTo<T(!new)>(edge: (T, T) -> bool, starts: set<T>, path: seq<T>, x: T) {
    IsPath(edge, path) && path[0] in starts && path[|path| - 1] == x
  }

  /** On some path, perhaps of no steps, from one of `starts`. */
  ghost predicate Reached<T(!new)>(edge: (T, T) -> bool, starts: set<T>, x: T) {
    exists path :: IsPathTo(edge, starts, path, x)
  }

  lemma StartIsReached<T(!new)>(edge: (T, T) -> bool, starts: set<T>, x: T)
    requires x in starts
    ensures Reached(edge, starts, x)
  {
    assert IsPathTo(edge, starts, [x], x);
  }

  lemma StepIsReached<T(!new)>(edge: (T, T) -> bool, starts: set<T>, x: T, y: T)
    requires Reached(edge, starts, x) && edge(x, y)
    ensures Reached(edge, starts, y)
  {
    var path :| IsPathTo(edge, starts, path, x);
    var longer := path + [y];
    forall i | 0 < i < |longer| ensures edge(longer[i - 1], longer[i]) {
      assert longer[i - 1] == path[i - 1];
      assert i < |path| ==> longer[i] == path[i];
    }
    assert IsPathTo(edge, starts, longer, y);
  }

  lemma FrontIsPath<T(!new)>(edge: (T, T) -> bool, path: seq<T>)
    requires IsPath(edge, path) && |path| > 1
    ensures IsPath(edge, path[..|path| - 1])
  {
    var front := path[..|path| - 1];
    forall i | 0 < i < |front| ensures edge(front[i - 1], front[i]) {
      assert front[i] == path[i] && front[i - 1] == path[i - 1];
    }
  }

  /** What is reached is a start, or one step from something reached. */
  lemma LastStep<T(!new)>(edge: (T, T) -> bool, starts: set<T>, y: T) returns (x: T)
    requires Reached(edge, starts, y) && y !in starts
    ensures Reached(edge, starts, x) && edge(x, y)
  {
    var path :| IsPathTo(edge, starts, path, y);
    var front := path[..|path| - 1];
    x := path[|path| - 2];
    FrontIsPath(edge, path);
    assert IsPathTo(edge, starts, front, x);
    assert edge(path[|path| - 2], path[|path| - 1]);
  }

  ghost predicate StepsWithin<T(!new)>(edge: (T, T) -> bool, x: T, s: set<T>) {
    forall y :: edge(x, y) ==> y in s
  }

  /** Every step from a member of `from` leads into `s`. */
  ghost predicate Closed<T(!new)>(edge: (T, T) -> bool, from: set<T>, s: set<T>) {
    forall x {:trigger StepsWithin(edge, x, s)} :: x in from ==> StepsWithin(edge, x, s)
  }

  lemma {:induction false} ClosedHoldsPath<T(!new)>(edge: (T, T) -> bool, s: set<T>, path: seq<T>)
    requires Closed(edge, s, s) && IsPath(edge, path) && path[0] in s
    ensures path[|path| - 1] in s
    decreases |path|
  {
    if |path| > 1 {
      FrontIsPath(edge, path);
      ClosedHoldsPath(edge, s, path[..|path| - 1]);
      assert StepsWithin(edge, path[|path| - 2], s);
      assert edge(path[|path| - 2], path[|path| - 1]);
    }
  }

  /** A closed set that holds the starts holds whatever is reached. */
  lemma ClosedHoldsReached<T(!new)>(edge: (T, T) -> bool, starts: set<T>, s: set<T>, x: T)
    requires Closed(edge, s, s) && starts <= s && Reached(edge, starts, x)
    ensures x in s
  {
    var path :| IsPathTo(edge, starts, path, x);
    ClosedHoldsPath(edge, s, path);
  }

  /** What is reached from reached starts is reached. */
  lemma {:induction false} ReachedOn<T(!new)>(
      edge: (T, T) -> bool, starts: set<T>, others: set<T>, path: seq<T>, x: T)
    requires forall o :: o in others ==> Reached(edge, starts, o)
    requires IsPathTo(edge, others, path, x)
    ensures Reached(edge, starts, x)
    decreases |path|
  {
    if |path| > 1 {
      FrontIsPath(edge, path);
      ReachedOn(edge, starts, others, path[..|path| - 1], path[|path| - 2]);
      assert edge(path[|path| - 2], path[|path| - 1]);
      StepIsReached(edge, starts, path[|path| - 2], x);
    }
  }
}
