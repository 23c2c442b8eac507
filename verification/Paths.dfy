/** Chains of steps of a relation. */
module Paths {
  ghost predicate StepAt<T(!new)>(step: (T, T) -> bool, states: seq<T>, k: nat)
    requires k + 1 < |states|
  {
    step(states[k], states[k + 1])
  }

  ghost predicate Path<T(!new)>(step: (T, T) -> bool, states: seq<T>) {
    |states| > 0 && forall k :: 0 <= k < |states| - 1 ==> StepAt(step, states, k)
  }

  ghost predicate PathBetween<T(!new)>(step: (T, T) -> bool, states: seq<T>, a: T, b: T, n: nat) {
    |states| == n + 1 && states[0] == a && states[n] == b && Path(step, states)
  }

  ghost predicate HasPath<T(!new)>(step: (T, T) -> bool, a: T, b: T, n: nat) {
    exists states: seq<T> :: PathBetween(step, states, a, b, n)
  }

  /** The lengths of the paths from `a` to `b`. */
  ghost function Lengths<T(!new)>(step: (T, T) -> bool, a: T, b: T): iset<nat> {
    iset n: nat | HasPath(step, a, b, n)
  }

  /** `n` steps lead from `a` to `b`. */
  ghost predicate Steps<T(!new)>(step: (T, T) -> bool, a: T, b: T, n: nat) {
    n in Lengths(step, a, b)
  }

  /** Some number of steps leads from `a` to `b`. */
  ghost predicate Leads<T(!new)>(step: (T, T) -> bool, a: T, b: T) {
    exists n: nat :: Steps(step, a, b, n)
  }

  lemma NoStep<T(!new)>(step: (T, T) -> bool, a: T)
    ensures Steps(step, a, a, 0)
  {
    assert PathBetween(step, [a], a, a, 0);
  }

  lemma NothingStepped<T(!new)>(step: (T, T) -> bool, a: T, b: T)
    requires Steps(step, a, b, 0)
    ensures a == b
  {
    var states: seq<T> :| PathBetween(step, states, a, b, 0);
  }

  lemma NextStep<T(!new)>(step: (T, T) -> bool, a: T, b: T, c: T, n: nat)
    requires Steps(step, a, b, n) && step(b, c)
    ensures Steps(step, a, c, n + 1)
  {
    var states: seq<T> :| PathBetween(step, states, a, b, n);
    var longer := states + [c];
    forall k | 0 <= k < n + 1 ensures StepAt(step, longer, k) {
      if k < n {
        assert StepAt(step, states, k);
      }
    }
    assert PathBetween(step, longer, a, c, n + 1);
  }

  lemma {:induction false} JoinSteps<T(!new)>(step: (T, T) -> bool, a: T, b: T, c: T, n: nat, m: nat)
    requires Steps(step, a, b, n) && Steps(step, b, c, m)
    ensures Steps(step, a, c, n + m)
    decreases m
  {
    if m > 0 {
      var p := LastStep(step, b, c, m - 1);
      JoinSteps(step, a, b, p, n, m - 1);
      NextStep(step, a, p, c, n + m - 1);
    }
  }

  /** Where the last of `n + 1` steps starts. */
  lemma LastStep<T(!new)>(step: (T, T) -> bool, a: T, b: T, n: nat) returns (p: T)
    requires Steps(step, a, b, n + 1)
    ensures Steps(step, a, p, n) && step(p, b)
  {
    var states: seq<T> :| PathBetween(step, states, a, b, n + 1);
    var front := states[..n + 1];
    p := front[n];
    assert StepAt(step, states, n);
    forall k | 0 <= k < n ensures StepAt(step, front, k) {
      assert StepAt(step, states, k);
    }
    assert PathBetween(step, front, a, p, n);
  }

  /** Steps of a relation are steps of every relation that contains it. */
  lemma {:induction false} WiderSteps<T(!new)>(step: (T, T) -> bool, wider: (T, T) -> bool, a: T, b: T, n: nat)
    requires Steps(step, a, b, n) && forall x: T, y: T :: step(x, y) ==> wider(x, y)
    ensures Steps(wider, a, b, n)
  {
    if n == 0 {
      NoStep(wider, a);
    } else {
      var p := LastStep(step, a, b, n - 1);
      WiderSteps(step, wider, a, p, n - 1);
      NextStep(wider, a, p, b, n - 1);
    }
  }

  lemma LeadsNowhere<T(!new)>(step: (T, T) -> bool, a: T)
    ensures Leads(step, a, a)
  {
    NoStep(step, a);
  }

  lemma StepThenLeads<T(!new)>(step: (T, T) -> bool, a: T, b: T, c: T)
    requires step(a, b) && Leads(step, b, c)
    ensures Leads(step, a, c)
  {
    var n: nat :| Steps(step, b, c, n);
    NoStep(step, a);
    NextStep(step, a, a, b, 0);
    JoinSteps(step, a, b, c, 1, n);
  }
}
