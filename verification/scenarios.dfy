/** Small concrete environments on which the solver's behaviour can be read
    off exactly. */
module Scenarios {
  import opened Mdp
  import opened Sweeping

  /** One state, two actions, both ending the episode with reward 1. */
  function TieEnv(): Env
  {
    Env(1, 2, [[[Outcome(1.0, 0, 1.0, true)], [Outcome(1.0, 0, 1.0, true)]]])
  }

  /** Two equally good actions: the strict `<` keeps the first one. */
  lemma TieBreakKeepsLowerAction(gamma: real, V: seq<real>)
    requires |V| == 1
    ensures WellFormed(TieEnv())
    ensures GreedyAction(TieEnv(), 0, gamma, V) == 0
    ensures ExpectedReturn(TieEnv(), 0, 0, gamma, V) == ExpectedReturn(TieEnv(), 0, 1, gamma, V)
  {
    var env := TieEnv();
    OutcomeSumSingle(env.P[0][0], gamma, V);
    OutcomeSumSingle(env.P[0][1], gamma, V);
  }

  /** One state, two terminal actions with rewards 1 and 2. */
  function LastStateEnv(): Env
  {
    Env(1, 2, [[[Outcome(1.0, 0, 1.0, true)], [Outcome(1.0, 0, 2.0, true)]]])
  }

  /** Value iteration on LastStateEnv: the first sweep from zero sets V[0]
      to 2 (action 1 is greedy), the second changes nothing, so two sweeps
      run; the forced zero of the last state then overwrites that 2 with 0,
      because state 0 is also the last state. */
  lemma ForcedZeroErasesOnlyState(gamma: real, tol: real)
    requires 0.0 < tol <= 2.0
    ensures WellFormed(LastStateEnv())
    ensures GreedyAction(LastStateEnv(), 0, gamma, Zeros(1)) == 1
    ensures Sweeps(LastStateEnv(), gamma, OptimalRule, Zeros(1), 1) == [2.0]
    ensures SweepDelta(LastStateEnv(), gamma, OptimalRule, Sweeps(LastStateEnv(), gamma, OptimalRule, Zeros(1), 0)) >= tol
    ensures SweepDelta(LastStateEnv(), gamma, OptimalRule, Sweeps(LastStateEnv(), gamma, OptimalRule, Zeros(1), 1)) < tol
    ensures Sweeps(LastStateEnv(), gamma, OptimalRule, Zeros(1), 2) == [2.0]
    ensures Sweeps(LastStateEnv(), gamma, OptimalRule, Zeros(1), 2)[0 := 0.0] == [0.0]
  {
    var env := LastStateEnv();
    var z := Zeros(1);
    OutcomeSumSingle(env.P[0][0], gamma, z);
    OutcomeSumSingle(env.P[0][1], gamma, z);
    assert ExpectedReturn(env, 0, 0, gamma, z) == 1.0;
    assert ExpectedReturn(env, 0, 1, gamma, z) == 2.0;
    assert MaxReturnUpTo(env, 0, gamma, z, 1) == 1.0;
    assert MaxReturn(env, 0, gamma, z) == 2.0;
    var W := Sweep(env, gamma, OptimalRule, z);
    assert W == SweepUpTo(env, gamma, OptimalRule, z, 1);
    assert W == [2.0];
    OutcomeSumSingle(env.P[0][0], gamma, W);
    OutcomeSumSingle(env.P[0][1], gamma, W);
    assert ExpectedReturn(env, 0, 0, gamma, W) == 1.0;
    assert ExpectedReturn(env, 0, 1, gamma, W) == 2.0;
    assert MaxReturnUpTo(env, 0, gamma, W, 1) == 1.0;
    assert MaxReturn(env, 0, gamma, W) == 2.0;
    assert Sweep(env, gamma, OptimalRule, W) == SweepUpTo(env, gamma, OptimalRule, W, 1) == [2.0];
    assert Sweeps(env, gamma, OptimalRule, z, 1) == W;
    assert MaxAbsDiff([2.0], W, 1) == Max(MaxAbsDiff([2.0], W, 0), Abs(2.0 - 2.0)) == 0.0;
  }

  /** One state whose single action loops back to it, non-terminal, with
      reward 1. */
  function LoopEnv(): Env
  {
    Env(1, 1, [[[Outcome(1.0, 0, 1.0, false)]]])
  }

  /** With gamma = 1 every evaluation sweep of LoopEnv raises V[0] by exactly
      1, so delta is 1 in every sweep and, for tol <= 1, the exit test of
      evaluate_policy never succeeds: its unused max_iterations does not stop
      it. gamma = 1 lies outside the documented range [0, 1) (rl.py:22); for
      inputs inside that range, NonPositiveToleranceNeverExits shows the same
      non-termination with any tol <= 0. */
  lemma EvaluationNeverConverges(V: seq<real>, n: nat, tol: real)
    requires |V| == 1 && tol <= 1.0
    ensures WellFormed(LoopEnv()) && RuleOk(LoopEnv(), PolicyRule([0]))
    ensures Sweeps(LoopEnv(), 1.0, PolicyRule([0]), V, n) == [V[0] + n as real]
    ensures SweepDelta(LoopEnv(), 1.0, PolicyRule([0]), Sweeps(LoopEnv(), 1.0, PolicyRule([0]), V, n)) >= tol
  {
    var env, rule := LoopEnv(), PolicyRule([0]);
    SweepsOfLoop(V, n);
    var U := Sweeps(env, 1.0, rule, V, n);
    OutcomeSumSingle(env.P[0][0], 1.0, U);
    assert Sweep(env, 1.0, rule, U) == SweepUpTo(env, 1.0, rule, U, 1) == [U[0] + 1.0];
  }

  lemma {:induction false} SweepsOfLoop(V: seq<real>, n: nat)
    requires |V| == 1
    ensures WellFormed(LoopEnv()) && RuleOk(LoopEnv(), PolicyRule([0]))
    ensures Sweeps(LoopEnv(), 1.0, PolicyRule([0]), V, n) == [V[0] + n as real]
  {
    var env, rule := LoopEnv(), PolicyRule([0]);
    if n > 0 {
      SweepsOfLoop(V, n - 1);
      var U := Sweeps(env, 1.0, rule, V, n - 1);
      OutcomeSumSingle(env.P[0][0], 1.0, U);
      assert Sweep(env, 1.0, rule, U) == SweepUpTo(env, 1.0, rule, U, 1) == [U[0] + 1.0];
    }
  }

  /** With tol <= 0 no sweep of any environment passes the exit test,
      because delta is never negative. */
  lemma NonPositiveToleranceNeverExits(env: Env, gamma: real, rule: Rule, V: seq<real>, tol: real)
    requires WellFormed(env) && RuleOk(env, rule) && |V| == env.nS && tol <= 0.0
    ensures SweepDelta(env, gamma, rule, V) >= tol
  {
    MaxAbsDiffZero(Sweep(env, gamma, rule, V), V, env.nS);
  }

  /** A chain: state 0 moves to state 1 with reward 1; state 1 ends the
      episode with reward 0. */
  function ChainEnv(): Env
  {
    Env(2, 1, [[[Outcome(1.0, 1, 1.0, false)]], [[Outcome(1.0, 1, 0.0, true)]]])
  }

  /** Evaluating the only policy of ChainEnv from zero with gamma 0.9: the
      first sweep gives V = [1, 0] and the second changes nothing, so the
      evaluation exits after two sweeps for any positive tol <= 1. */
  lemma ChainEvaluation(tol: real)
    requires 0.0 < tol <= 1.0
    ensures WellFormed(ChainEnv()) && RuleOk(ChainEnv(), PolicyRule([0, 0]))
    ensures Sweeps(ChainEnv(), 0.9, PolicyRule([0, 0]), Zeros(2), 1) == [1.0, 0.0]
    ensures Sweeps(ChainEnv(), 0.9, PolicyRule([0, 0]), Zeros(2), 2) == [1.0, 0.0]
    ensures SweepDelta(ChainEnv(), 0.9, PolicyRule([0, 0]), Zeros(2)) >= tol
    ensures SweepDelta(ChainEnv(), 0.9, PolicyRule([0, 0]), [1.0, 0.0]) < tol
  {
    var env, rule := ChainEnv(), PolicyRule([0, 0]);
    var z := Zeros(2);
    ChainSweep(z);
    ChainSweep([1.0, 0.0]);
    assert Sweeps(env, 0.9, rule, z, 1) == Sweep(env, 0.9, rule, z);
  }

  lemma ChainSweep(V: seq<real>)
    requires |V| == 2
    ensures WellFormed(ChainEnv()) && RuleOk(ChainEnv(), PolicyRule([0, 0]))
    ensures Sweep(ChainEnv(), 0.9, PolicyRule([0, 0]), V) == [1.0 + 0.9 * V[1], 0.0]
  {
    var env, rule := ChainEnv(), PolicyRule([0, 0]);
    var U1 := SweepUpTo(env, 0.9, rule, V, 1);
    OutcomeSumSingle(env.P[0][0], 0.9, V);
    assert ExpectedReturn(env, 0, 0, 0.9, V) == 1.0 + 0.9 * V[1];
    assert StateUpdate(env, 0.9, rule, 0, V) == 1.0 + 0.9 * V[1];
    assert SweepUpTo(env, 0.9, rule, V, 0) == V;
    assert U1 == V[0 := 1.0 + 0.9 * V[1]];
    assert U1 == [1.0 + 0.9 * V[1], V[1]];
    OutcomeSumSingle(env.P[1][0], 0.9, U1);
    assert SweepUpTo(env, 0.9, rule, V, 2) == [1.0 + 0.9 * V[1], 0.0];
  }
}
