/** The environment a solve reads (nS, nA and the transition table P of a
    finite MDP) and the one-step expected return shared by every routine of
    the solver. Numbers are exact reals standing in for floats. */
module Mdp {

  /** One entry of P[s][a]: (probability, next state, reward, is-terminal). */
  datatype Outcome = Outcome(prob: real, next: nat, reward: real, terminal: bool)

  /** nS states, nA actions, and P[s][a], the ordered outcome list of (s, a). */
  datatype Env = Env(nS: nat, nA: nat, P: seq<seq<seq<Outcome>>>)

  /** The table has one row per state, one outcome list per action, at least
      one action, and every next state is a state. */
  predicate WellFormed(env: Env)
  {
    && |env.P| == env.nS
    && env.nA >= 1
    && (forall s :: 0 <= s < env.nS ==> |env.P[s]| == env.nA)
    && (forall s, a, i :: 0 <= s < env.nS && 0 <= a < |env.P[s]| && 0 <= i < |env.P[s][a]| ==>
          env.P[s][a][i].next < env.nS)
  }

  function Max(x: real, y: real): real { if x >= y then x else y }

  function Abs(x: real): real { if x < 0.0 then -x else x }

  /** Every non-terminal outcome names an index of a value function of length n
      (terminal outcomes never index the value function). */
  predicate Readable(outs: seq<Outcome>, n: nat)
  {
    forall i :: 0 <= i < |outs| && !outs[i].terminal ==> outs[i].next < n
  }

  /** What one outcome adds to the expectation: a terminal outcome contributes
      no continuation value, whatever V holds for its next state. */
  function Contribution(o: Outcome, gamma: real, V: seq<real>): real
    requires o.terminal || o.next < |V|
  {
    if o.terminal then o.prob * (o.reward + gamma * 0.0)
    else o.prob * (o.reward + gamma * V[o.next])
  }

  /** The accumulator of the innermost loops, summed in list order. */
  function OutcomeSum(outs: seq<Outcome>, gamma: real, V: seq<real>): real
    requires Readable(outs, |V|)
    decreases |outs|
  {
    if outs == [] then 0.0
    else OutcomeSum(outs[..|outs| - 1], gamma, V) + Contribution(outs[|outs| - 1], gamma, V)
  }

  /** Expected one-step return of taking action a in state s under V. */
  function ExpectedReturn(env: Env, s: nat, a: nat, gamma: real, V: seq<real>): real
    requires WellFormed(env) && |V| == env.nS && s < env.nS && a < env.nA
  {
    OutcomeSum(env.P[s][a], gamma, V)
  }

  /** The sum reads V only at the next states of non-terminal outcomes. */
  lemma {:induction false} OutcomeSumReadsOnlyContinuations(outs: seq<Outcome>, gamma: real, V: seq<real>, W: seq<real>)
    requires Readable(outs, |V|) && Readable(outs, |W|)
    requires forall i :: 0 <= i < |outs| && !outs[i].terminal ==> V[outs[i].next] == W[outs[i].next]
    ensures OutcomeSum(outs, gamma, V) == OutcomeSum(outs, gamma, W)
    decreases |outs|
  {
    if outs != [] {
      var init := outs[..|outs| - 1];
      assert forall i :: 0 <= i < |init| ==> init[i] == outs[i];
      OutcomeSumReadsOnlyContinuations(init, gamma, V, W);
    }
  }

  /** The stored value of a state that (s, a) reaches only through terminal
      outcomes never affects the expected return of (s, a). */
  lemma TerminalTargetIgnored(env: Env, s: nat, a: nat, gamma: real, V: seq<real>, t: nat, x: real)
    requires WellFormed(env) && |V| == env.nS && s < env.nS && a < env.nA && t < env.nS
    requires forall i :: 0 <= i < |env.P[s][a]| && env.P[s][a][i].next == t ==> env.P[s][a][i].terminal
    ensures ExpectedReturn(env, s, a, gamma, V[t := x]) == ExpectedReturn(env, s, a, gamma, V)
  {
    OutcomeSumReadsOnlyContinuations(env.P[s][a], gamma, V[t := x], V);
  }

  /** The summation of the same contributions split at any point. */
  lemma {:induction false} OutcomeSumAppend(xs: seq<Outcome>, ys: seq<Outcome>, gamma: real, V: seq<real>)
    requires Readable(xs, |V|) && Readable(ys, |V|)
    ensures Readable(xs + ys, |V|)
    ensures OutcomeSum(xs + ys, gamma, V) == OutcomeSum(xs, gamma, V) + OutcomeSum(ys, gamma, V)
    decreases |ys|
  {
    var zs := xs + ys;
    assert forall i :: 0 <= i < |zs| ==> zs[i] == if i < |xs| then xs[i] else ys[i - |xs|];
    if ys != [] {
      var yInit := ys[..|ys| - 1];
      assert zs[..|zs| - 1] == xs + yInit;
      OutcomeSumAppend(xs, yInit, gamma, V);
    } else {
      assert zs == xs;
    }
  }

  /** A list of one outcome: prob * (reward + gamma * V[next]), with 0 in
      place of V[next] when the outcome is terminal. */
  lemma OutcomeSumSingle(outs: seq<Outcome>, gamma: real, V: seq<real>)
    requires |outs| == 1 && (outs[0].terminal || outs[0].next < |V|)
    ensures Readable(outs, |V|)
    ensures OutcomeSum(outs, gamma, V)
         == if outs[0].terminal then outs[0].prob * outs[0].reward
            else outs[0].prob * (outs[0].reward + gamma * V[outs[0].next])
  {
    assert outs[..0] == [];
  }

  // ---- maximisation over actions (value_function_to_policy, value_iteration) ----

  /** The action the strict-`<` scan over actions 0 .. k-1 keeps: a later
      action replaces the best so far only when its return is strictly
      greater. */
  function GreedyUpTo(env: Env, s: nat, gamma: real, V: seq<real>, k: nat): (best: nat)
    requires WellFormed(env) && |V| == env.nS && s < env.nS && 1 <= k <= env.nA
    ensures best < k
  {
    if k == 1 then 0
    else
      var b := GreedyUpTo(env, s, gamma, V, k - 1);
      if ExpectedReturn(env, s, b, gamma, V) < ExpectedReturn(env, s, k - 1, gamma, V) then k - 1 else b
  }

  function GreedyAction(env: Env, s: nat, gamma: real, V: seq<real>): nat
    requires WellFormed(env) && |V| == env.nS && s < env.nS
  {
    GreedyUpTo(env, s, gamma, V, env.nA)
  }

  /** The running maximum of the returns of actions 0 .. k-1. */
  function MaxReturnUpTo(env: Env, s: nat, gamma: real, V: seq<real>, k: nat): real
    requires WellFormed(env) && |V| == env.nS && s < env.nS && 1 <= k <= env.nA
  {
    if k == 1 then ExpectedReturn(env, s, 0, gamma, V)
    else Max(MaxReturnUpTo(env, s, gamma, V, k - 1), ExpectedReturn(env, s, k - 1, gamma, V))
  }

  function MaxReturn(env: Env, s: nat, gamma: real, V: seq<real>): real
    requires WellFormed(env) && |V| == env.nS && s < env.nS
  {
    MaxReturnUpTo(env, s, gamma, V, env.nA)
  }

  /** a is a valid action whose return is maximal and no smaller action
      reaches that maximum. */
  predicate IsFirstArgmax(env: Env, s: nat, gamma: real, V: seq<real>, a: int)
    requires WellFormed(env) && |V| == env.nS && s < env.nS
  {
    && 0 <= a < env.nA
    && (forall b :: 0 <= b < env.nA ==> ExpectedReturn(env, s, b, gamma, V) <= ExpectedReturn(env, s, a, gamma, V))
    && (forall b :: 0 <= b < a ==> ExpectedReturn(env, s, b, gamma, V) < ExpectedReturn(env, s, a, gamma, V))
  }

  lemma {:induction false} GreedyUpToIsFirstArgmax(env: Env, s: nat, gamma: real, V: seq<real>, k: nat)
    requires WellFormed(env) && |V| == env.nS && s < env.nS && 1 <= k <= env.nA
    ensures var g := GreedyUpTo(env, s, gamma, V, k);
      && (forall b :: 0 <= b < k ==> ExpectedReturn(env, s, b, gamma, V) <= ExpectedReturn(env, s, g, gamma, V))
      && (forall b :: 0 <= b < g ==> ExpectedReturn(env, s, b, gamma, V) < ExpectedReturn(env, s, g, gamma, V))
  {
    if k > 1 {
      GreedyUpToIsFirstArgmax(env, s, gamma, V, k - 1);
    }
  }

  /** The tie-break: the greedy action is exactly the smallest action of
      maximal return (both directions). */
  lemma GreedyActionIsFirstArgmax(env: Env, s: nat, gamma: real, V: seq<real>, a: int)
    requires WellFormed(env) && |V| == env.nS && s < env.nS
    ensures a == GreedyAction(env, s, gamma, V) <==> IsFirstArgmax(env, s, gamma, V, a)
  {
    GreedyUpToIsFirstArgmax(env, s, gamma, V, env.nA);
  }

  lemma {:induction false} MaxReturnUpToIsGreedyReturn(env: Env, s: nat, gamma: real, V: seq<real>, k: nat)
    requires WellFormed(env) && |V| == env.nS && s < env.nS && 1 <= k <= env.nA
    ensures MaxReturnUpTo(env, s, gamma, V, k) == ExpectedReturn(env, s, GreedyUpTo(env, s, gamma, V, k), gamma, V)
  {
    if k > 1 {
      MaxReturnUpToIsGreedyReturn(env, s, gamma, V, k - 1);
    }
  }

  /** The Bellman-max value of a state is the return of its greedy action,
      and no action does better. */
  lemma MaxReturnIsMaximum(env: Env, s: nat, gamma: real, V: seq<real>)
    requires WellFormed(env) && |V| == env.nS && s < env.nS
    ensures MaxReturn(env, s, gamma, V) == ExpectedReturn(env, s, GreedyAction(env, s, gamma, V), gamma, V)
    ensures forall b :: 0 <= b < env.nA ==> ExpectedReturn(env, s, b, gamma, V) <= MaxReturn(env, s, gamma, V)
  {
    MaxReturnUpToIsGreedyReturn(env, s, gamma, V, env.nA);
    GreedyUpToIsFirstArgmax(env, s, gamma, V, env.nA);
  }
}
