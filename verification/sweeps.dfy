/** In-place (Gauss-Seidel) sweeps over the states, as run by policy
    evaluation and by value iteration, and the per-sweep change `delta` that
    decides when they stop. */
module Sweeping {
  import opened Mdp

  /** What a sweep writes into V[s]: the return of the policy's action
      (evaluate_policy) or the best return over all actions (value_iteration). */
  datatype Rule = PolicyRule(policy: seq<int>) | OptimalRule

  predicate RuleOk(env: Env, rule: Rule)
  {
    match rule
    case PolicyRule(pol) => |pol| == env.nS && forall s :: 0 <= s < env.nS ==> 0 <= pol[s] < env.nA
    case OptimalRule => true
  }

  function StateUpdate(env: Env, gamma: real, rule: Rule, s: nat, V: seq<real>): real
    requires WellFormed(env) && RuleOk(env, rule) && |V| == env.nS && s < env.nS
  {
    match rule
    case PolicyRule(pol) => ExpectedReturn(env, s, pol[s] as nat, gamma, V)
    case OptimalRule => MaxReturn(env, s, gamma, V)
  }

  /** V after states 0 .. k-1 have been updated, in that order, each reading
      the array as it stands at its turn. */
  function SweepUpTo(env: Env, gamma: real, rule: Rule, V: seq<real>, k: nat): (W: seq<real>)
    requires WellFormed(env) && RuleOk(env, rule) && |V| == env.nS && k <= env.nS
    ensures |W| == env.nS
  {
    if k == 0 then V
    else
      var U := SweepUpTo(env, gamma, rule, V, k - 1);
      U[k - 1 := StateUpdate(env, gamma, rule, k - 1, U)]
  }

  /** One full sweep over every state. */
  function Sweep(env: Env, gamma: real, rule: Rule, V: seq<real>): seq<real>
    requires WellFormed(env) && RuleOk(env, rule) && |V| == env.nS
  {
    SweepUpTo(env, gamma, rule, V, env.nS)
  }

  /** n sweeps, one after another, starting from V. */
  function Sweeps(env: Env, gamma: real, rule: Rule, V: seq<real>, n: nat): (W: seq<real>)
    requires WellFormed(env) && RuleOk(env, rule) && |V| == env.nS
    ensures |W| == env.nS
  {
    if n == 0 then V else Sweep(env, gamma, rule, Sweeps(env, gamma, rule, V, n - 1))
  }

  /** The running `delta = max(delta, |new - old|)` over indices 0 .. k-1, from 0. */
  function MaxAbsDiff(A: seq<real>, B: seq<real>, k: nat): real
    requires k <= |A| && k <= |B|
  {
    if k == 0 then 0.0 else Max(MaxAbsDiff(A, B, k - 1), Abs(A[k - 1] - B[k - 1]))
  }

  /** The `delta` of one sweep started from V. */
  function SweepDelta(env: Env, gamma: real, rule: Rule, V: seq<real>): real
    requires WellFormed(env) && RuleOk(env, rule) && |V| == env.nS
  {
    MaxAbsDiff(Sweep(env, gamma, rule, V), V, env.nS)
  }

  function Zeros(n: nat): (z: seq<real>)
    ensures |z| == n && forall i :: 0 <= i < n ==> z[i] == 0.0
  {
    seq(n, _ => 0.0)
  }

  // ---- what a sweep writes and reads ----

  /** States k and above still hold the values V had when the sweep began. */
  lemma {:induction false} SweepUpToUntouched(env: Env, gamma: real, rule: Rule, V: seq<real>, k: nat, i: nat)
    requires WellFormed(env) && RuleOk(env, rule) && |V| == env.nS && k <= i < env.nS
    ensures SweepUpTo(env, gamma, rule, V, k)[i] == V[i]
  {
    if k > 0 {
      SweepUpToUntouched(env, gamma, rule, V, k - 1, i);
    }
  }

  /** State i < k was given its update computed from the array as it stood
      after states 0 .. i-1 had been updated. */
  lemma {:induction false} SweepUpToWritten(env: Env, gamma: real, rule: Rule, V: seq<real>, k: nat, i: nat)
    requires WellFormed(env) && RuleOk(env, rule) && |V| == env.nS && i < k <= env.nS
    ensures SweepUpTo(env, gamma, rule, V, k)[i]
         == StateUpdate(env, gamma, rule, i, SweepUpTo(env, gamma, rule, V, i))
  {
    if i < k - 1 {
      SweepUpToWritten(env, gamma, rule, V, k - 1, i);
    }
  }

  /** Gauss-Seidel order: in a sweep, state s reads the values written earlier
      in the same sweep for states below s, and the values from before the
      sweep for s and the states above it. */
  lemma SweepReadsEarlierStates(env: Env, gamma: real, rule: Rule, V: seq<real>, s: nat)
    requires WellFormed(env) && RuleOk(env, rule) && |V| == env.nS && s < env.nS
    ensures var W := Sweep(env, gamma, rule, V);
      W[s] == StateUpdate(env, gamma, rule, s, W[..s] + V[s..])
  {
    var W := Sweep(env, gamma, rule, V);
    var U := SweepUpTo(env, gamma, rule, V, s);
    forall i | 0 <= i < env.nS
      ensures U[i] == (W[..s] + V[s..])[i]
    {
      if i < s {
        SweepUpToWritten(env, gamma, rule, V, s, i);
        SweepUpToWritten(env, gamma, rule, V, env.nS, i);
      } else {
        SweepUpToUntouched(env, gamma, rule, V, s, i);
      }
    }
    assert U == W[..s] + V[s..];
    SweepUpToWritten(env, gamma, rule, V, env.nS, s);
  }

  /** One step of a sweep: state s still holds its value from before the
      sweep, is overwritten by its update, and delta grows to cover it. */
  lemma SweepStep(env: Env, gamma: real, rule: Rule, start: seq<real>, s: nat)
    requires WellFormed(env) && RuleOk(env, rule) && |start| == env.nS && s < env.nS
    ensures var U := SweepUpTo(env, gamma, rule, start, s);
      && U[s] == start[s]
      && SweepUpTo(env, gamma, rule, start, s + 1) == U[s := StateUpdate(env, gamma, rule, s, U)]
      && MaxAbsDiff(SweepUpTo(env, gamma, rule, start, s + 1), start, s + 1)
         == Max(MaxAbsDiff(U, start, s), Abs(StateUpdate(env, gamma, rule, s, U) - start[s]))
  {
    SweepUpToUntouched(env, gamma, rule, start, s, s);
    MaxAbsDiffAgree(SweepUpTo(env, gamma, rule, start, s + 1), SweepUpTo(env, gamma, rule, start, s), start, s);
  }

  // ---- delta ----

  /** delta over the first k indices depends only on those indices. */
  lemma {:induction false} MaxAbsDiffAgree(A: seq<real>, A': seq<real>, B: seq<real>, k: nat)
    requires k <= |A| && k <= |A'| && k <= |B|
    requires forall i :: 0 <= i < k ==> A[i] == A'[i]
    ensures MaxAbsDiff(A, B, k) == MaxAbsDiff(A', B, k)
  {
    if k > 0 {
      MaxAbsDiffAgree(A, A', B, k - 1);
    }
  }

  /** The running `delta` is the largest change among indices 0 .. k-1: it
      bounds every change and, past the first index, is one of them. */
  lemma {:induction false} MaxAbsDiffIsMaximum(A: seq<real>, B: seq<real>, k: nat)
    requires k <= |A| && k <= |B|
    ensures forall i :: 0 <= i < k ==> Abs(A[i] - B[i]) <= MaxAbsDiff(A, B, k)
    ensures k > 0 ==> exists i :: 0 <= i < k && MaxAbsDiff(A, B, k) == Abs(A[i] - B[i])
  {
    if k > 0 {
      MaxAbsDiffIsMaximum(A, B, k - 1);
    }
  }

  /** `delta < tol` holds exactly when tol is positive and every index moved
      by less than tol. */
  lemma {:induction false} MaxAbsDiffBelow(A: seq<real>, B: seq<real>, k: nat, tol: real)
    requires k <= |A| && k <= |B|
    ensures MaxAbsDiff(A, B, k) < tol <==> (tol > 0.0 && forall i :: 0 <= i < k ==> Abs(A[i] - B[i]) < tol)
  {
    if k > 0 {
      MaxAbsDiffBelow(A, B, k - 1, tol);
    }
  }

  /** The last sweep's `delta < tol` says that every state moved by less than
      tol in that sweep (and that tol is positive: with tol <= 0 no sweep
      ever satisfies the exit test). */
  lemma SweepDeltaBelow(env: Env, gamma: real, rule: Rule, V: seq<real>, tol: real)
    requires WellFormed(env) && RuleOk(env, rule) && |V| == env.nS
    ensures SweepDelta(env, gamma, rule, V) < tol
        <==> (tol > 0.0 && forall s :: 0 <= s < env.nS ==> Abs(Sweep(env, gamma, rule, V)[s] - V[s]) < tol)
  {
    MaxAbsDiffBelow(Sweep(env, gamma, rule, V), V, env.nS, tol);
  }

  lemma {:induction false} SweepUpToFixed(env: Env, gamma: real, rule: Rule, V: seq<real>, k: nat)
    requires WellFormed(env) && RuleOk(env, rule) && |V| == env.nS && k <= env.nS
    ensures SweepUpTo(env, gamma, rule, V, k) == V
        <==> forall s :: 0 <= s < k ==> StateUpdate(env, gamma, rule, s, V) == V[s]
  {
    if k > 0 {
      SweepUpToFixed(env, gamma, rule, V, k - 1);
      var U := SweepUpTo(env, gamma, rule, V, k - 1);
      if U != V {
        var j :| 0 <= j < env.nS && U[j] != V[j];
        if j >= k - 1 {
          SweepUpToUntouched(env, gamma, rule, V, k - 1, j);
        }
        assert SweepUpTo(env, gamma, rule, V, k)[j] != V[j];
      }
    }
  }

  /** A sweep leaves V unchanged exactly when V is a fixed point of the
      per-state update (the Bellman equation of the rule holds at every
      state), in-place order notwithstanding. */
  lemma SweepFixedPoint(env: Env, gamma: real, rule: Rule, V: seq<real>)
    requires WellFormed(env) && RuleOk(env, rule) && |V| == env.nS
    ensures Sweep(env, gamma, rule, V) == V
        <==> forall s :: 0 <= s < env.nS ==> StateUpdate(env, gamma, rule, s, V) == V[s]
  {
    SweepUpToFixed(env, gamma, rule, V, env.nS);
  }

  /** A sweep whose delta is 0 is one that changed nothing. */
  lemma ZeroDeltaIsFixedPoint(env: Env, gamma: real, rule: Rule, V: seq<real>)
    requires WellFormed(env) && RuleOk(env, rule) && |V| == env.nS
    ensures SweepDelta(env, gamma, rule, V) == 0.0
        <==> forall s :: 0 <= s < env.nS ==> StateUpdate(env, gamma, rule, s, V) == V[s]
  {
    var W := Sweep(env, gamma, rule, V);
    SweepFixedPoint(env, gamma, rule, V);
    MaxAbsDiffZero(W, V, env.nS);
    if W[..env.nS] == V[..env.nS] {
      assert W == W[..env.nS] && V == V[..env.nS];
    }
  }

  lemma {:induction false} MaxAbsDiffZero(A: seq<real>, B: seq<real>, k: nat)
    requires k <= |A| && k <= |B|
    ensures MaxAbsDiff(A, B, k) >= 0.0
    ensures MaxAbsDiff(A, B, k) == 0.0 <==> A[..k] == B[..k]
  {
    if k > 0 {
      MaxAbsDiffZero(A, B, k - 1);
      assert A[..k] == A[..k - 1] + [A[k - 1]] && B[..k] == B[..k - 1] + [B[k - 1]];
      if A[..k] == B[..k] {
        assert A[..k - 1] == A[..k][..k - 1];
        assert B[..k - 1] == B[..k][..k - 1];
        assert A[k - 1] == A[..k][k - 1];
      }
    }
  }
}
