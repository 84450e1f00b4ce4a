/** Finite runs of a machine that is given by its successor function: None where a step is not
    enabled. */
module Runs {
  import opened Wrappers

  /** The steps lead from s to t. */
  ghost predicate Leads<S, T>(next: (S, T) -> Option<S>, s: S, steps: seq<T>, t: S)
    decreases |steps|
  {
    if steps == [] then s == t
    else next(s, steps[0]).Some? && Leads(next, next(s, steps[0]).value, steps[1..], t)
  }

  /** What every step keeps, every run keeps. */
  lemma {:induction false} LeadsKeeps<S, T>(next: (S, T) -> Option<S>, inv: S -> bool, s: S, steps: seq<T>, t: S)
    requires forall a: S, step: T :: inv(a) && next(a, step).Some? ==> inv(next(a, step).value)
    requires inv(s) && Leads(next, s, steps, t)
    ensures inv(t)
    decreases |steps|
  {
    if steps != [] {
      LeadsKeeps(next, inv, next(s, steps[0]).value, steps[1..], t);
    }
  }

  lemma {:induction false} LeadsConcat<S, T>(next: (S, T) -> Option<S>, s: S, a: seq<T>, m: S, b: seq<T>, t: S)
    requires Leads(next, s, a, m) && Leads(next, m, b, t)
    ensures Leads(next, s, a + b, t)
    decreases |a|
  {
    if a == [] {
      assert a + b == b;
    } else {
      LeadsConcat(next, next(s, a[0]).value, a[1..], m, b, t);
      assert (a + b)[1..] == a[1..] + b;
    }
  }

  lemma LeadsFirst<S, T>(next: (S, T) -> Option<S>, s: S, step: T, rest: seq<T>, t: S)
    requires next(s, step).Some? && Leads(next, next(s, step).value, rest, t)
    ensures Leads(next, s, [step] + rest, t)
  {
    assert ([step] + rest)[1..] == rest;
  }

  /** The last step of a run taken off. */
  lemma {:induction false} LeadsLast<S, T>(next: (S, T) -> Option<S>, s: S, steps: seq<T>, t: S) returns (m: S)
    requires steps != [] && Leads(next, s, steps, t)
    ensures Leads(next, s, steps[..|steps| - 1], m) && next(m, steps[|steps| - 1]) == Some(t)
    decreases |steps|
  {
    if |steps| == 1 {
      m := s;
    } else {
      m := LeadsLast(next, next(s, steps[0]).value, steps[1..], t);
      assert steps[1..][..|steps| - 2] == steps[..|steps| - 1][1..];
    }
  }

  /** A run with all its states. */
  ghost predicate Path<S, T>(next: (S, T) -> Option<S>, states: seq<S>, steps: seq<T>) {
    |states| == |steps| + 1 && forall i :: 0 <= i < |steps| ==> next(states[i], steps[i]) == Some(states[i + 1])
  }

  lemma {:induction false} PathKeeps<S, T>(next: (S, T) -> Option<S>, inv: S -> bool, states: seq<S>, steps: seq<T>,
                                           i: nat)
    requires forall a: S, step: T :: inv(a) && next(a, step).Some? ==> inv(next(a, step).value)
    requires Path(next, states, steps) && inv(states[0]) && i < |states|
    ensures inv(states[i])
  {
    if i > 0 {
      PathKeeps(next, inv, states, steps, i - 1);
      assert next(states[i - 1], steps[i - 1]) == Some(states[i]);
    }
  }
}
