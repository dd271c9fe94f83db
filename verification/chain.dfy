/** A timer that re-arms itself: each firing runs one step on the state
    the previous firing left and starts the next timer only when the step
    answers `go`. The step is a parameter, so the facts here hold of any
    such timer. */
module Chains {

  /** The state after the first `k` firings. */
  function Fired<S, E, R>(step: (S, E) -> (S, R), s: S, envs: seq<E>, k: nat): S
    requires k <= |envs|
    decreases k
  {
    if k == 0 then s else step(Fired(step, s, envs, k - 1), envs[k - 1]).0
  }

  /** Firings one after another until one does not answer `go`: the final
      state and the number of firings that answered `go`. */
  function Chain<S, E, R(==)>(step: (S, E) -> (S, R), go: R, s: S, envs: seq<E>): (r: (S, nat))
    ensures r.1 <= |envs|
    decreases |envs|
  {
    if |envs| == 0 then (s, 0)
    else
      var (s1, res) := step(s, envs[0]);
      if res == go then
        var (s2, n) := Chain(step, go, s1, envs[1..]);
        (s2, n + 1)
      else (s1, 0)
  }

  /** Firing `k` times is firing once, then `k - 1` times on the rest. */
  lemma {:induction false} FiredShift<S, E, R>(step: (S, E) -> (S, R), s: S, envs: seq<E>, k: nat)
    requires 1 <= k <= |envs|
    ensures Fired(step, s, envs, k) == Fired(step, step(s, envs[0]).0, envs[1..], k - 1)
    decreases k
  {
    if k > 1 {
      FiredShift(step, s, envs, k - 1);
      assert envs[1..][k - 2] == envs[k - 1];
    }
  }

  /** Each of the first `n` firings answers `go`. */
  lemma {:induction false} ChainPrefix<S, E, R>(step: (S, E) -> (S, R), go: R, s: S, envs: seq<E>)
    ensures forall k :: 0 <= k < Chain(step, go, s, envs).1 ==>
      step(Fired(step, s, envs, k), envs[k]).1 == go
    decreases |envs|
  {
    if |envs| > 0 {
      var (s1, res) := step(s, envs[0]);
      if res == go {
        var tail := envs[1..];
        ChainPrefix(step, go, s1, tail);
        var n := Chain(step, go, s1, tail).1;
        forall k | 0 <= k < n + 1
          ensures step(Fired(step, s, envs, k), envs[k]).1 == go
        {
          if k > 0 {
            FiredShift(step, s, envs, k);
            assert tail[k - 1] == envs[k];
          }
        }
      }
    }
  }

  /** The firing after the first `n`, if any, does not answer `go`. */
  lemma {:induction false} ChainStop<S, E, R>(step: (S, E) -> (S, R), go: R, s: S, envs: seq<E>)
    ensures Chain(step, go, s, envs).1 < |envs| ==>
      step(Fired(step, s, envs, Chain(step, go, s, envs).1), envs[Chain(step, go, s, envs).1]).1 != go
    decreases |envs|
  {
    if |envs| > 0 {
      var (s1, res) := step(s, envs[0]);
      if res == go {
        var tail := envs[1..];
        ChainStop(step, go, s1, tail);
        var n := Chain(step, go, s1, tail).1;
        if n < |tail| {
          FiredShift(step, s, envs, n + 1);
          assert tail[n] == envs[n + 1];
        }
      }
    }
  }

  /** The chain ends in the state its last firing leaves: the one that did
      not answer `go`, or the last of the list when every firing did. */
  lemma {:induction false} ChainFinal<S, E, R>(step: (S, E) -> (S, R), go: R, s: S, envs: seq<E>)
    ensures Chain(step, go, s, envs).0 ==
      Fired(step, s, envs, if Chain(step, go, s, envs).1 < |envs| then Chain(step, go, s, envs).1 + 1 else |envs|)
    decreases |envs|
  {
    if |envs| > 0 {
      var (s1, res) := step(s, envs[0]);
      if res == go {
        var tail := envs[1..];
        ChainFinal(step, go, s1, tail);
        var n := Chain(step, go, s1, tail).1;
        if n < |tail| {
          FiredShift(step, s, envs, n + 2);
        } else {
          FiredShift(step, s, envs, |envs|);
        }
      } else {
        assert Fired(step, s, envs, 1) == s1;
      }
    }
  }
}
