/** Runs of a state machine, whatever its states and actions are. */
module Runs {
  /** The function runs its actions one step after the other. */
  ghost predicate RunsBySteps<S(!new), A(!new)>(run: (S, seq<A>) -> S, step: (S, A) -> S) {
    && (forall s :: run(s, []) == s)
    && (forall s, actions: seq<A> {:trigger run(s, actions)} | actions != [] ::
          run(s, actions) == run(step(s, actions[0]), actions[1..]))
  }

  /** The run goes through the given states. */
  lemma {:induction false} RunVisits<S(!new), A(!new)>(run: (S, seq<A>) -> S, step: (S, A) -> S,
                                                            actions: seq<A>, states: seq<S>)
    requires RunsBySteps(run, step)
    requires |states| == |actions| + 1
    requires forall i | 0 <= i < |actions| :: states[i + 1] == step(states[i], actions[i])
    ensures run(states[0], actions) == states[|actions|]
    decreases |actions|
  {
    if actions != [] {
      RunVisits(run, step, actions[1..], states[1..]);
    }
  }

  lemma {:induction false} RunConcat<S(!new), A(!new)>(run: (S, seq<A>) -> S, step: (S, A) -> S,
                                                     s: S, first: seq<A>, second: seq<A>)
    requires RunsBySteps(run, step)
    ensures run(s, first + second) == run(run(s, first), second)
    decreases |first|
  {
    if first == [] {
      assert first + second == second;
    } else {
      assert (first + second)[1..] == first[1..] + second;
      RunConcat(run, step, step(s, first[0]), first[1..], second);
    }
  }

  /** The property holds after each part of the run, the empty one included. */
  ghost predicate Throughout<S(!new), A(!new)>(run: (S, seq<A>) -> S, good: S -> bool, s: S, actions: seq<A>) {
    forall i | 0 <= i <= |actions| :: good(run(s, actions[..i]))
  }

  /** No step of the run is one of the bad ones. */
  ghost predicate NeverBad<S(!new), A(!new)>(run: (S, seq<A>) -> S, bad: (S, A) -> bool, s: S, actions: seq<A>) {
    forall i | 0 <= i < |actions| :: !bad(run(s, actions[..i]), actions[i])
  }

  lemma Prefixes<S(!new), A(!new)>(run: (S, seq<A>) -> S, step: (S, A) -> S, s: S, actions: seq<A>)
    requires RunsBySteps(run, step) && actions != []
    ensures run(s, actions[..0]) == s
    ensures forall i | 0 <= i < |actions| :: run(s, actions[..i + 1]) == run(step(s, actions[0]), actions[1..][..i])
  {
    assert actions[..0] == [];
    forall i | 0 <= i < |actions|
      ensures run(s, actions[..i + 1]) == run(step(s, actions[0]), actions[1..][..i])
    {
      assert actions[..i + 1][1..] == actions[1..][..i];
    }
  }

  lemma ThroughoutStep<S(!new), A(!new)>(run: (S, seq<A>) -> S, step: (S, A) -> S, good: S -> bool,
                                         s: S, actions: seq<A>)
    requires RunsBySteps(run, step)
    ensures Throughout(run, good, s, []) <==> good(s)
    ensures actions != [] ==>
              (Throughout(run, good, s, actions)
               <==> good(s) && Throughout(run, good, step(s, actions[0]), actions[1..]))
  {
    var none: seq<A> := [];
    assert none[..0] == none;
    assert good(s) <==> good(run(s, none[..0]));
    if actions != [] {
      var next, rest := step(s, actions[0]), actions[1..];
      Prefixes(run, step, s, actions);
      if Throughout(run, good, s, actions) {
        assert good(run(s, actions[..0]));
        forall i | 0 <= i <= |rest|
          ensures good(run(next, rest[..i]))
        {
          assert good(run(s, actions[..i + 1]));
        }
      }
      if good(s) && Throughout(run, good, next, rest) {
        forall i | 0 <= i <= |actions|
          ensures good(run(s, actions[..i]))
        {
          if i > 0 {
            assert run(s, actions[..(i - 1) + 1]) == run(next, rest[..i - 1]);
          }
        }
      }
    }
  }

  lemma NeverBadStep<S(!new), A(!new)>(run: (S, seq<A>) -> S, step: (S, A) -> S, bad: (S, A) -> bool,
                                       s: S, actions: seq<A>)
    requires RunsBySteps(run, step)
    ensures actions != [] ==>
              (NeverBad(run, bad, s, actions)
               <==> !bad(s, actions[0]) && NeverBad(run, bad, step(s, actions[0]), actions[1..]))
  {
    if actions != [] {
      var next, rest := step(s, actions[0]), actions[1..];
      Prefixes(run, step, s, actions);
      if NeverBad(run, bad, s, actions) {
        assert !bad(run(s, actions[..0]), actions[0]);
        forall i | 0 <= i < |rest|
          ensures !bad(run(next, rest[..i]), rest[i])
        {
          assert !bad(run(s, actions[..i + 1]), actions[i + 1]);
        }
      }
      if !bad(s, actions[0]) && NeverBad(run, bad, next, rest) {
        forall i | 0 <= i < |actions|
          ensures !bad(run(s, actions[..i]), actions[i])
        {
          if i > 0 {
            assert run(s, actions[..(i - 1) + 1]) == run(next, rest[..i - 1]);
            assert rest[i - 1] == actions[i];
          }
        }
      }
    }
  }

  /**
    Where exactly the bad steps lose a property, it holds throughout a run if and only if the run makes
    no bad step. The invariant is what the states have in common.
   */
  lemma {:induction false} ThroughoutIff<S(!new), A(!new)>(run: (S, seq<A>) -> S, step: (S, A) -> S, inv: S -> bool,
                                                         good: S -> bool, bad: (S, A) -> bool, s: S, actions: seq<A>)
    requires RunsBySteps(run, step)
    requires forall t, a | inv(t) :: inv(step(t, a))
    requires forall t, a | inv(t) && good(t) :: good(step(t, a)) <==> !bad(t, a)
    requires inv(s) && good(s)
    ensures Throughout(run, good, s, actions) <==> NeverBad(run, bad, s, actions)
    decreases |actions|
  {
    ThroughoutStep(run, step, good, s, actions);
    NeverBadStep(run, step, bad, s, actions);
    if actions != [] {
      var next, rest := step(s, actions[0]), actions[1..];
      if bad(s, actions[0]) {
        ThroughoutStep(run, step, good, next, rest);
      } else {
        ThroughoutIff(run, step, inv, good, bad, next, rest);
      }
    }
  }
}
