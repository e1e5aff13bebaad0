/** The dynamic-programming solver: policy evaluation, greedy policy
    extraction, policy improvement, policy iteration and value iteration,
    each updating its arrays in place as rl.py's routines do. */
module Solver {
  import opened Mdp
  import opened Sweeping

  datatype Option<T> = None | Some(value: T)

  function Total(xs: seq<nat>): nat
  {
    if xs == [] then 0 else Total(xs[..|xs| - 1]) + xs[|xs| - 1]
  }

  lemma TotalAppend(xs: seq<nat>, x: nat)
    ensures Total(xs + [x]) == Total(xs) + x
  {
    assert (xs + [x])[..|xs|] == xs;
  }

  predicate ValidPolicy(env: Env, policy: seq<int>)
  {
    |policy| == env.nS && forall s :: 0 <= s < env.nS ==> 0 <= policy[s] < env.nA
  }

  /** One sweep of evaluate_policy (the body of its `while` loop): states in
      increasing order, each overwritten at once by the return of the
      policy's action, so later states read the values written before them. */
  method EvaluationSweep(env: Env, gamma: real, policy: array<int>, v: array<real>) returns (delta: real)
    requires WellFormed(env)
    requires ValidPolicy(env, policy[..]) && v.Length == env.nS
    modifies v
    ensures v[..] == Sweep(env, gamma, PolicyRule(policy[..]), old(v[..]))
    ensures delta == SweepDelta(env, gamma, PolicyRule(policy[..]), old(v[..]))
  {
    ghost var rule := PolicyRule(policy[..]);
    ghost var start := v[..];
    delta := 0.0;
    for s := 0 to env.nS
      invariant v[..] == SweepUpTo(env, gamma, rule, start, s)
      invariant delta == MaxAbsDiff(SweepUpTo(env, gamma, rule, start, s), start, s)
    {
      var a := policy[s];
      ghost var current := v[..];
      var expectedValue := ExpectedReturn(env, s, a, gamma, v[..]);
      var oldV := v[s];
      SweepStep(env, gamma, rule, start, s);
      assert expectedValue == StateUpdate(env, gamma, rule, s, current);
      v[s] := expectedValue;
      assert v[..] == current[s := expectedValue];
      delta := Max(delta, Abs(v[s] - oldV));
    }
  }

  /** Evaluating `pol` from `start` exits after exactly n sweeps: the n-th
      sweep is the first whose delta is below tol. */
  predicate EvaluatedIn(env: Env, gamma: real, tol: real, pol: seq<int>, start: seq<real>, n: nat)
    requires WellFormed(env) && ValidPolicy(env, pol) && |start| == env.nS
  {
    && n >= 1
    && SweepDelta(env, gamma, PolicyRule(pol), Sweeps(env, gamma, PolicyRule(pol), start, n - 1)) < tol
    && forall j :: 0 <= j < n - 1 ==> SweepDelta(env, gamma, PolicyRule(pol), Sweeps(env, gamma, PolicyRule(pol), start, j)) >= tol
  }

  /** evaluate_policy: sweeps `v`, which IS the caller's `valueFunc`, in
      place under the fixed policy until a sweep's delta is below tol.
      `maxIterations` is accepted and ignored, as in rl.py; the loop
      is bounded only by `fuel`, which rl.py does not have and whose
      exhaustion is reported by `converged == false`. */
  method EvaluatePolicy(env: Env, gamma: real, policy: array<int>, valueFunc: array<real>,
                        maxIterations: int := 1000, tol: real := 0.001, nameonly fuel: nat)
    returns (v: array<real>, iterations: nat, converged: bool)
    requires WellFormed(env)
    requires ValidPolicy(env, policy[..]) && valueFunc.Length == env.nS
    modifies valueFunc
    ensures v == valueFunc
    ensures unchanged(policy)
    ensures iterations <= fuel && (converged || iterations == fuel)
    ensures v[..] == Sweeps(env, gamma, PolicyRule(policy[..]), old(valueFunc[..]), iterations)
    ensures converged ==> EvaluatedIn(env, gamma, tol, policy[..], old(valueFunc[..]), iterations)
    ensures !converged ==> forall k :: 0 <= k < iterations ==>
      SweepDelta(env, gamma, PolicyRule(policy[..]), Sweeps(env, gamma, PolicyRule(policy[..]), old(valueFunc[..]), k)) >= tol
  {
    ghost var rule := PolicyRule(policy[..]);
    ghost var V0 := valueFunc[..];
    iterations := 0;
    v := valueFunc;
    var evalConverge := false;
    while !evalConverge && iterations < fuel
      invariant v == valueFunc
      invariant iterations <= fuel
      invariant v[..] == Sweeps(env, gamma, rule, V0, iterations)
      invariant evalConverge ==> iterations >= 1 && SweepDelta(env, gamma, rule, Sweeps(env, gamma, rule, V0, iterations - 1)) < tol
      invariant forall k :: 0 <= k < iterations - (if evalConverge then 1 else 0) ==>
        SweepDelta(env, gamma, rule, Sweeps(env, gamma, rule, V0, k)) >= tol
      decreases fuel - iterations
    {
      iterations := iterations + 1;
      var delta := EvaluationSweep(env, gamma, policy, v);
      if delta < tol {
        evalConverge := true;
      }
    }
    converged := evalConverge;
  }

  /** value_function_to_policy: a fresh policy array holding, for every
      state, the first action of maximal expected return. */
  method ValueFunctionToPolicy(env: Env, gamma: real, valueFunction: array<real>) returns (policy: array<int>)
    requires WellFormed(env) && valueFunction.Length == env.nS
    ensures fresh(policy) && policy.Length == env.nS
    ensures forall s :: 0 <= s < env.nS ==> policy[s] == GreedyAction(env, s, gamma, valueFunction[..])
    ensures forall s :: 0 <= s < env.nS ==> IsFirstArgmax(env, s, gamma, valueFunction[..], policy[s])
  {
    ghost var V := valueFunction[..];
    policy := new int[env.nS](_ => 0);
    for s := 0 to env.nS
      invariant forall t :: 0 <= t < s ==> policy[t] == GreedyAction(env, t, gamma, V)
    {
      var maxValue: Option<real> := None;
      for a := 0 to env.nA
        invariant maxValue.None? <==> a == 0
        invariant forall t :: 0 <= t < s ==> policy[t] == GreedyAction(env, t, gamma, V)
        invariant a > 0 ==>
          policy[s] == GreedyUpTo(env, s, gamma, V, a) && maxValue.value == ExpectedReturn(env, s, policy[s], gamma, V)
      {
        var expectedValue := ExpectedReturn(env, s, a, gamma, valueFunction[..]);
        if maxValue.None? || maxValue.value < expectedValue {
          maxValue := Some(expectedValue);
          policy[s] := a;
        }
      }
    }
    forall s | 0 <= s < env.nS
      ensures IsFirstArgmax(env, s, gamma, V, policy[s])
    {
      GreedyActionIsFirstArgmax(env, s, gamma, V, policy[s]);
    }
  }

  /** improve_policy: returns the greedy policy for the value function and a
      STABILITY flag, true exactly when the old policy already agreed with it
      at every state. The old policy is only read. */
  method ImprovePolicy(env: Env, gamma: real, valueFunc: array<real>, policy: array<int>)
    returns (policyStable: bool, newPolicy: array<int>)
    requires WellFormed(env) && valueFunc.Length == env.nS && policy.Length == env.nS
    ensures fresh(newPolicy) && newPolicy.Length == env.nS
    ensures forall s :: 0 <= s < env.nS ==> newPolicy[s] == GreedyAction(env, s, gamma, valueFunc[..])
    ensures policyStable <==> forall s :: 0 <= s < env.nS ==> policy[s] == newPolicy[s]
  {
    var oldPolicy := policy;
    newPolicy := ValueFunctionToPolicy(env, gamma, valueFunc);
    policyStable := true;
    for s := 0 to env.nS
      invariant policyStable <==> forall t :: 0 <= t < s ==> oldPolicy[t] == newPolicy[t]
    {
      if oldPolicy[s] != newPolicy[s] {
        policyStable := false;
      }
    }
  }

  /** pol is the policy value_function_to_policy computes for V. */
  predicate GreedyFor(env: Env, gamma: real, V: seq<real>, pol: seq<int>)
    requires WellFormed(env) && |V| == env.nS
  {
    |pol| == env.nS && forall s :: 0 <= s < env.nS ==> pol[s] == GreedyAction(env, s, gamma, V)
  }

  /** One round of policy iteration: `pol` is evaluated from `start` for n
      sweeps, giving `next`, and `nextPol` is the greedy policy for `next`. */
  predicate Round(env: Env, gamma: real, tol: real, pol: seq<int>, start: seq<real>, n: nat, next: seq<real>, nextPol: seq<int>)
    requires WellFormed(env)
  {
    && ValidPolicy(env, pol) && |start| == env.nS
    && EvaluatedIn(env, gamma, tol, pol, start, n)
    && next == Sweeps(env, gamma, PolicyRule(pol), start, n)
    && GreedyFor(env, gamma, next, nextPol)
  }

  /** Round k as recorded in the trajectory: policy pols[k] is evaluated
      from starts[k] for rounds[k] sweeps, giving starts[k+1], and pols[k+1]
      is the greedy policy for starts[k+1]. */
  predicate RoundRecorded(env: Env, gamma: real, tol: real, pols: seq<seq<int>>, starts: seq<seq<real>>, rounds: seq<nat>, k: nat)
    requires WellFormed(env)
  {
    && k < |rounds| && k + 1 < |pols| && k + 1 < |starts|
    && Round(env, gamma, tol, pols[k], starts[k], rounds[k], starts[k + 1], pols[k + 1])
  }

  /** Round k's improvement changed the policy at some state. */
  predicate PolicyChanged(pols: seq<seq<int>>, k: nat)
    requires k + 1 < |pols|
  {
    pols[k + 1] != pols[k]
  }

  lemma ChangedOneMore(pols: seq<seq<int>>, n: nat)
    requires n + 1 < |pols| && (forall k :: 0 <= k < n ==> PolicyChanged(pols, k)) && PolicyChanged(pols, n)
    ensures forall k :: 0 <= k < n + 1 ==> PolicyChanged(pols, k)
  {
  }

  /** The trajectory of the first |rounds| rounds: it starts from the
      all-zero policy and value function, and every round is recorded. */
  predicate Trajectory(env: Env, gamma: real, tol: real, pols: seq<seq<int>>, starts: seq<seq<real>>, rounds: seq<nat>)
    requires WellFormed(env)
  {
    && |pols| == |starts| == |rounds| + 1
    && pols[0] == seq(env.nS, _ => 0) && starts[0] == Zeros(env.nS)
    && forall k :: 0 <= k < |rounds| ==> RoundRecorded(env, gamma, tol, pols, starts, rounds, k)
  }

  /** Appending a round that evaluates the last policy for n sweeps and then
      takes the greedy policy of the result extends the trajectory, and
      leaves the earlier rounds as they were. */
  lemma ExtendTrajectory(env: Env, gamma: real, tol: real, pols: seq<seq<int>>, starts: seq<seq<real>>, rounds: seq<nat>,
                         pol: seq<int>, V: seq<real>, n: nat)
    requires WellFormed(env) && Trajectory(env, gamma, tol, pols, starts, rounds)
    requires ValidPolicy(env, pols[|rounds|]) && |starts[|rounds|]| == env.nS
    requires EvaluatedIn(env, gamma, tol, pols[|rounds|], starts[|rounds|], n)
    requires V == Sweeps(env, gamma, PolicyRule(pols[|rounds|]), starts[|rounds|], n)
    requires GreedyFor(env, gamma, V, pol)
    ensures Trajectory(env, gamma, tol, pols + [pol], starts + [V], rounds + [n])
    ensures (forall k :: 0 <= k < |rounds| ==> PolicyChanged(pols, k)) ==>
      forall k :: 0 <= k < |rounds| ==> PolicyChanged(pols + [pol], k)
  {
    var pols', starts', rounds' := pols + [pol], starts + [V], rounds + [n];
    forall k | 0 <= k < |rounds|
      ensures RoundRecorded(env, gamma, tol, pols', starts', rounds', k)
      ensures PolicyChanged(pols, k) ==> PolicyChanged(pols', k)
    {
      assert RoundRecorded(env, gamma, tol, pols, starts, rounds, k);
      assert pols'[k] == pols[k] && pols'[k + 1] == pols[k + 1];
      assert starts'[k] == starts[k] && starts'[k + 1] == starts[k + 1] && rounds'[k] == rounds[k];
    }
    assert Round(env, gamma, tol, pols'[|rounds|], starts'[|rounds|], rounds'[|rounds|], V, pol);
  }

  /** A stable round is a fixed point of policy iteration: the value function
      it produced is a converged evaluation sweep of the policy, and the
      policy is greedy for that value function. */
  lemma StableRoundIsFixedPoint(env: Env, gamma: real, tol: real, pols: seq<seq<int>>, starts: seq<seq<real>>, rounds: seq<nat>, k: nat)
    requires WellFormed(env) && RoundRecorded(env, gamma, tol, pols, starts, rounds, k)
    requires !PolicyChanged(pols, k)
    ensures ValidPolicy(env, pols[k + 1])
    ensures var rule := PolicyRule(pols[k + 1]);
      var last := Sweeps(env, gamma, rule, starts[k], rounds[k] - 1);
      && starts[k + 1] == Sweep(env, gamma, rule, last)
      && SweepDelta(env, gamma, rule, last) < tol
      && GreedyFor(env, gamma, starts[k + 1], pols[k + 1])
  {
  }

  /** policy_iteration: from the all-zero policy and value function,
      alternately evaluates (threading one value array through every
      evaluation) and improves, at most maxIterations rounds, leaving right
      after the first round whose policy was stable.
      Ghost outputs: the trajectory of the rounds run, `pols[k]` and
      `starts[k]` being the policy and value function going into round k and
      `rounds[k]` its evaluation's sweep count; `policyStable` is the flag of
      the last round. `outOfFuel` reports an evaluation that ran out of fuel,
      where `policy_iteration` would not return. */
  method PolicyIteration(env: Env, gamma: real, maxIterations: int := 1000, tol: real := 0.001, nameonly fuel: nat)
    returns (policy: array<int>, valueFunc: array<real>, improveIteration: nat, evalueIteration: nat,
             outOfFuel: bool, ghost pols: seq<seq<int>>, ghost starts: seq<seq<real>>, ghost rounds: seq<nat>,
             ghost policyStable: bool)
    requires WellFormed(env)
    ensures fresh(policy) && fresh(valueFunc)
    ensures ValidPolicy(env, policy[..]) && valueFunc.Length == env.nS
    ensures improveIteration <= (if maxIterations < 0 then 0 else maxIterations)
    ensures maxIterations <= 0 ==>
      && !outOfFuel && improveIteration == 0 && evalueIteration == 0
      && policy[..] == seq(env.nS, _ => 0) && valueFunc[..] == Zeros(env.nS)
    ensures !outOfFuel && maxIterations >= 1 ==> improveIteration >= 1
    ensures Trajectory(env, gamma, tol, pols, starts, rounds) && |rounds| == improveIteration
    ensures forall k :: 0 <= k < improveIteration - 1 ==> PolicyChanged(pols, k)
    ensures policyStable <==> improveIteration >= 1 && !PolicyChanged(pols, improveIteration - 1)
    ensures !outOfFuel && improveIteration < maxIterations ==> policyStable
    ensures policyStable ==> !outOfFuel
    ensures policy[..] == pols[improveIteration]
    ensures !outOfFuel ==> valueFunc[..] == starts[improveIteration]
    ensures evalueIteration == Total(rounds)
    ensures outOfFuel ==>
      && improveIteration < maxIterations
      && ValidPolicy(env, pols[improveIteration]) && |starts[improveIteration]| == env.nS
      && (forall j :: 0 <= j < fuel ==>
            SweepDelta(env, gamma, PolicyRule(pols[improveIteration]),
                       Sweeps(env, gamma, PolicyRule(pols[improveIteration]), starts[improveIteration], j)) >= tol)
  {
    policy := new int[env.nS](_ => 0);
    valueFunc := new real[env.nS](_ => 0.0);
    improveIteration, evalueIteration := 0, 0;
    outOfFuel, policyStable := false, false;
    pols, starts, rounds := [policy[..]], [valueFunc[..]], [];
    assert policy[..] == seq(env.nS, _ => 0) && valueFunc[..] == Zeros(env.nS);
    var i := 0;
    while i < maxIterations
      invariant fresh(policy) && fresh(valueFunc)
      invariant ValidPolicy(env, policy[..]) && valueFunc.Length == env.nS
      invariant Trajectory(env, gamma, tol, pols, starts, rounds)
      invariant i == improveIteration == |rounds|
      invariant i <= (if maxIterations < 0 then 0 else maxIterations)
      invariant forall k :: 0 <= k < i ==> PolicyChanged(pols, k)
      invariant policy[..] == pols[i] && valueFunc[..] == starts[i]
      invariant evalueIteration == Total(rounds)
      invariant !outOfFuel && !policyStable
      decreases maxIterations - i
    {
      ghost var evaluated := policy[..];
      var eIter, converged;
      valueFunc, eIter, converged := EvaluatePolicy(env, gamma, policy, valueFunc, maxIterations, tol, fuel := fuel);
      if !converged {
        outOfFuel := true;
        break;
      }
      var stable;
      stable, policy := ImprovePolicy(env, gamma, valueFunc, policy);
      ghost var improved, value := policy[..], valueFunc[..];
      assert stable <==> improved == evaluated;
      improveIteration := improveIteration + 1;
      evalueIteration := evalueIteration + eIter;
      TotalAppend(rounds, eIter);
      ExtendTrajectory(env, gamma, tol, pols, starts, rounds, improved, value, eIter);
      pols, starts, rounds := pols + [improved], starts + [value], rounds + [eIter];
      policyStable := stable;
      if stable {
        break;
      }
      ChangedOneMore(pols, i);
      i := i + 1;
    }
    if improveIteration >= 1 && !policyStable {
      assert PolicyChanged(pols, improveIteration - 1);
    }
  }

  /** One sweep of value_iteration (the body of its `for` loop): states in
      increasing order, each overwritten at once by its best return over all
      actions, so later states read the values written before them. */
  method BellmanSweep(env: Env, gamma: real, V: array<real>) returns (delta: real)
    requires WellFormed(env) && V.Length == env.nS
    modifies V
    ensures V[..] == Sweep(env, gamma, OptimalRule, old(V[..]))
    ensures delta == SweepDelta(env, gamma, OptimalRule, old(V[..]))
  {
    ghost var rule := OptimalRule;
    ghost var start := V[..];
    delta := 0.0;
    for s := 0 to env.nS
      invariant V[..] == SweepUpTo(env, gamma, rule, start, s)
      invariant delta == MaxAbsDiff(SweepUpTo(env, gamma, rule, start, s), start, s)
    {
      var v := V[s];
      ghost var current := V[..];
      var maxValue: Option<real> := None;
      for a := 0 to env.nA
        invariant maxValue.None? <==> a == 0
        invariant a > 0 ==> maxValue.value == MaxReturnUpTo(env, s, gamma, current, a)
      {
        var expectation := ExpectedReturn(env, s, a, gamma, V[..]);
        maxValue := if maxValue.None? then Some(expectation) else Some(Max(maxValue.value, expectation));
      }
      var maxv := maxValue.value;
      assert maxv == StateUpdate(env, gamma, rule, s, current);
      SweepStep(env, gamma, rule, start, s);
      V[s] := maxv;
      assert V[..] == current[s := maxv];
      assert Abs(v - V[s]) == Abs(V[s] - v);
      delta := Max(delta, Abs(v - V[s]));
    }
  }

  /** value_iteration: in-place Bellman-max sweeps from the zero value
      function, at most maxIterations of them, stopping after the first
      sweep whose delta is below tol; then V[nS-1] is forced to 0. */
  method ValueIteration(env: Env, gamma: real, maxIterations: int := 1000, tol: real := 0.001)
    returns (V: array<real>, iterationCnt: nat)
    requires WellFormed(env) && env.nS >= 1
    ensures fresh(V) && V.Length == env.nS
    ensures iterationCnt <= (if maxIterations < 0 then 0 else maxIterations)
    ensures V[..] == Sweeps(env, gamma, OptimalRule, Zeros(env.nS), iterationCnt)[env.nS - 1 := 0.0]
    ensures V[env.nS - 1] == 0.0
    ensures iterationCnt < maxIterations ==>
      iterationCnt >= 1 && SweepDelta(env, gamma, OptimalRule, Sweeps(env, gamma, OptimalRule, Zeros(env.nS), iterationCnt - 1)) < tol
    ensures forall k :: 0 <= k < iterationCnt - 1 ==>
      SweepDelta(env, gamma, OptimalRule, Sweeps(env, gamma, OptimalRule, Zeros(env.nS), k)) >= tol
  {
    ghost var rule := OptimalRule;
    V := new real[env.nS](_ => 0.0);
    ghost var V0 := V[..];
    assert V0 == Zeros(env.nS);
    iterationCnt := 0;
    var i := 0;
    while i < maxIterations
      invariant i == iterationCnt
      invariant i <= (if maxIterations < 0 then 0 else maxIterations)
      invariant V[..] == Sweeps(env, gamma, rule, V0, i)
      invariant forall k :: 0 <= k < i ==> SweepDelta(env, gamma, rule, Sweeps(env, gamma, rule, V0, k)) >= tol
      decreases maxIterations - i
    {
      var delta := BellmanSweep(env, gamma, V);
      iterationCnt := iterationCnt + 1;
      if delta < tol {
        break;
      }
      i := i + 1;
    }
    V[env.nS - 1] := 0.0;
  }
}
