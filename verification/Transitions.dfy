/**
 * Runs of a state machine: `next` gives the state after an action, or nothing where the action is not possible.
 */
module Transitions {
  import opened Options

  /** `run` leads from `s` to `t`, every action being possible when it is taken. */
  ghost predicate Leads<S, A>(next: (S, A) -> Option<S>, s: S, run: seq<A>, t: S)
    decreases run
  {
    if run == [] then s == t
    else next(s, run[0]).Some? && Leads(next, next(s, run[0]).value, run[1..], t)
  }

  ghost predicate CanReach<S, A(!new)>(next: (S, A) -> Option<S>, s: S, t: S) {
    exists run :: Leads(next, s, run, t)
  }

  lemma {:induction false} LeadsOn<S, A>(
    next: (S, A) -> Option<S>, s: S, run: seq<A>, t: S, more: seq<A>, u: S)
    requires Leads(next, s, run, t) && Leads(next, t, more, u)
    ensures Leads(next, s, run + more, u)
    decreases run
  {
    if run == [] {
      assert run + more == more;
    } else {
      assert (run + more)[1..] == run[1..] + more;
      LeadsOn(next, next(s, run[0]).value, run[1..], t, more, u);
    }
  }

  lemma ReachSelf<S, A(!new)>(next: (S, A) -> Option<S>, s: S)
    ensures CanReach(next, s, s)
  {
    assert Leads(next, s, [], s);
  }

  lemma ReachStep<S, A(!new)>(next: (S, A) -> Option<S>, s: S, a: A, t: S)
    requires next(s, a) == Some(t)
    ensures CanReach(next, s, t)
  {
    assert [a][1..] == [];
    assert Leads(next, t, [], t);
    assert Leads(next, s, [a], t);
  }

  lemma ReachOn<S, A(!new)>(next: (S, A) -> Option<S>, s: S, t: S, u: S)
    requires CanReach(next, s, t) && CanReach(next, t, u)
    ensures CanReach(next, s, u)
  {
    var run :| Leads(next, s, run, t);
    var more :| Leads(next, t, more, u);
    LeadsOn(next, s, run, t, more, u);
  }

  /** What every step keeps, every run keeps. */
  lemma {:induction false} RunKeeps<S(!new), A(!new)>(
    next: (S, A) -> Option<S>, inv: S -> bool, s: S, run: seq<A>, t: S)
    requires forall x, a :: inv(x) && next(x, a).Some? ==> inv(next(x, a).value)
    requires inv(s) && Leads(next, s, run, t)
    ensures inv(t)
    decreases run
  {
    if run != [] {
      RunKeeps(next, inv, next(s, run[0]).value, run[1..], t);
    }
  }
}
