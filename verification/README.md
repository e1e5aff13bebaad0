# Dynamic-programming MDP solver (deeprl_p1/rl.py), modelled in Dafny

This project models the planning core of `deeprl_p1/rl.py`. The core solves a finite Markov
decision process whose transition table is fully known. The environment provides `nS` states,
`nA` actions and a table `P[s][a]`. Each entry of the table is an ordered list of
`(prob, nextstate, reward, is_terminal)` outcomes. The five routines are modelled as Dafny
methods that mutate `array<real>` value functions and `array<int>` policies in place, as the
Python does with numpy arrays:

- `evaluate_policy`: in-place (Gauss-Seidel) sweeps under a fixed policy, until a sweep's `delta` is below `tol`.
- `value_function_to_policy`: the greedy policy. Ties are broken by the strict `<`, so the first maximal action wins.
- `improve_policy`: the greedy policy plus a stability flag.
- `policy_iteration`: evaluation and improvement rounds, with two counters.
- `value_iteration`: in-place Bellman-max sweeps, then the forced `V[nS-1] = 0`.

Numbers are exact `real`s standing in for floats.

Files:

- `mdp.dfy`, module `Mdp`: the environment (`Outcome`, `Env`, `WellFormed`). It also holds the one shared expected-return function that the three identical innermost loops compute, and the argmax/max over actions.
- `sweeps.dfy`, module `Sweeping`: the specification of a sweep. States are updated in increasing order, and each reads the array as it stands at its turn. The module also defines the running `delta` and n sweeps in a row. One `Rule` datatype covers both sweeps: the policy's action (evaluation) or the best action (value iteration).
- `rl.dfy`, module `Solver`: the routines as methods. Each is proved against the functions above.
- `scenarios.dfy`, module `Scenarios`: small concrete environments. They show the tie-break, the forced zero erasing a computed value, an evaluation that never stops, and a two-sweep evaluation.

Where the docstrings and the code disagree, the model follows the code:

- `evaluate_policy` documents `max_iterations` as a cap, but it never reads the parameter. Its `while` loop stops only when `delta < tol` (rl.py:41, 67-68).
- `improve_policy` documents "true if policy changed", but it returns `policy_stable`. That flag is true exactly when no state changed (rl.py:141-145). `policy_iteration` stops when the flag is true (rl.py:193).
- `evaluate_policy` does not work on a copy. `v = value_func` aliases the caller's array, and `policy_iteration` threads that same array through every round. The model returns the very array it was given (`v == valueFunc`).

## Model

| member | source | states |
|---|---|---|
| `Mdp.OutcomeSumReadsOnlyContinuations` | deeprl_p1/rl.py:56-61 | the outcome sum reads the value function only at the next states of non-terminal outcomes: two value functions that agree there give the same sum |
| `Mdp.TerminalTargetIgnored` | deeprl_p1/rl.py:58-61 | the stored value of a state that (s, a) reaches only through terminal outcomes never changes the expected return of (s, a) |
| `Mdp.OutcomeSumAppend` | deeprl_p1/rl.py:56-61 | the accumulated expectation of a concatenated outcome list is the sum of the two parts' expectations |
| `Mdp.GreedyUpTo` | deeprl_p1/rl.py:97-108 | the action kept by the scan over actions 0..k-1 is one of those actions |
| `Mdp.GreedyUpToIsFirstArgmax` | deeprl_p1/rl.py:105-108 | after scanning actions 0..k-1, the kept action has a return at least that of each scanned action and strictly above that of each smaller action |
| `Mdp.GreedyActionIsFirstArgmax` | deeprl_p1/rl.py:106-108 | an action is the greedy one if and only if it is valid, its return is maximal, and no smaller action reaches that maximum (the strict-`<` tie-break) |
| `Mdp.MaxReturnUpToIsGreedyReturn` | deeprl_p1/rl.py:229-237 | the running `max(max_value, expectation)` over actions 0..k-1 equals the return of the action the strict-`<` scan keeps |
| `Mdp.MaxReturnIsMaximum` | deeprl_p1/rl.py:229-238 | the value written by a Bellman-max update is the return of the greedy action and is at least the return of every action |
| `Sweeping.SweepUpToUntouched` | deeprl_p1/rl.py:46-65 | partway through a sweep, the states not yet visited still hold their values from before the sweep |
| `Sweeping.SweepUpToWritten` | deeprl_p1/rl.py:46-65 | each visited state holds the update computed from the array as it stood after the states below it were updated |
| `Sweeping.SweepReadsEarlierStates` | deeprl_p1/rl.py:46-65 | Gauss-Seidel order: state s is updated from the values this sweep wrote for the states below s, together with the pre-sweep values of s and the states above it |
| `Sweeping.SweepStep` | deeprl_p1/rl.py:64-66 | one step of a sweep: `old_v` is the pre-sweep value, exactly one entry is overwritten, and `delta` becomes the max of its old value and this step's change |
| `Sweeping.MaxAbsDiffIsMaximum` | deeprl_p1/rl.py:43-66 | the running `delta` started from 0 is the largest change among the states visited: it bounds each `abs(v[s] - old_v)` and equals one of them |
| `Sweeping.MaxAbsDiffAgree` | deeprl_p1/rl.py:66 | the running `delta` over states 0..k-1 depends only on those states |
| `Sweeping.MaxAbsDiffBelow` | deeprl_p1/rl.py:66-67 | `delta < tol` if and only if tol is positive and every index moved by less than tol |
| `Sweeping.MaxAbsDiffZero` | deeprl_p1/rl.py:43-66 | `delta` is never negative, and it is 0 exactly when nothing moved |
| `Sweeping.SweepDeltaBelow` | deeprl_p1/rl.py:67-68 | a sweep passes the exit test if and only if tol is positive and every state moved by less than tol in that sweep |
| `Sweeping.SweepUpToFixed` | deeprl_p1/rl.py:46-66 | a partial sweep over states 0..k-1 leaves V unchanged if and only if each of those states already equals its update under V |
| `Sweeping.SweepFixedPoint` | deeprl_p1/rl.py:46-66 | a full in-place sweep leaves V unchanged if and only if V satisfies the rule's Bellman equation at every state |
| `Sweeping.ZeroDeltaIsFixedPoint` | deeprl_p1/rl.py:226-239 | a sweep whose delta is 0 is exactly one started from a fixed point of the per-state update |
| `Solver.EvaluationSweep` | deeprl_p1/rl.py:43-66 | one evaluation sweep writes exactly the in-place sweep of the policy's returns into the array and returns that sweep's delta |
| `Solver.EvaluatePolicy` | deeprl_p1/rl.py:38-70 | returns the caller's own array, now holding the result of `iterations` sweeps; leaves the policy untouched; on return the last sweep's delta is below tol and every earlier sweep's was not, and `iterations >= 1`; `maxIterations` plays no part; `maxIterations` and `tol` default to 1000 and 0.001 |
| `Solver.ValueFunctionToPolicy` | deeprl_p1/rl.py:93-110 | a fresh array of nS actions; each entry is the smallest action of maximal expected return; the value function is only read |
| `Solver.ImprovePolicy` | deeprl_p1/rl.py:138-145 | the new policy is the greedy policy of the value function; the flag is true if and only if the old policy equals it at every state; the old policy is only read |
| `Solver.PolicyIteration` | deeprl_p1/rl.py:179-195 | returns the policy and value function of the recorded trajectory (`Solver.Trajectory`): from the all-zero policy and value function, each round evaluates the current policy for exactly the number of sweeps after which the first sweep's delta is below tol, then takes the greedy policy of the result; `maxIterations` and `tol` default to 1000 and 0.001; `improve_iteration` is the number of rounds, at most maxIterations (0 when maxIterations <= 0); `evalue_iteration` is the sum of the rounds' sweep counts; every round but the last changed the policy, and the last round left it unchanged exactly when the loop exited early; after at least one round the policy is greedy for the returned value function; with maxIterations <= 0 it returns the all-zero policy and value function and two zero counts; `outOfFuel` is reported only for a round, below maxIterations, whose policy's first `fuel` evaluation sweeps from that round's start all had delta >= tol |
| `Solver.ExtendTrajectory` | deeprl_p1/rl.py:189-192 | a round that evaluates the current policy to convergence and takes the greedy policy of the result extends the trajectory and leaves the earlier rounds as they were |
| `Solver.StableRoundIsFixedPoint` | deeprl_p1/rl.py:189-194 | after a round whose improvement changed nothing, the value function is a converged evaluation sweep of the policy and the policy is greedy for that value function |
| `Solver.BellmanSweep` | deeprl_p1/rl.py:226-239 | one value-iteration sweep writes exactly the in-place Bellman-max sweep into the array and returns that sweep's delta |
| `Solver.ValueIteration` | deeprl_p1/rl.py:198-245 | with `maxIterations` and `tol` defaulting to 1000 and 0.001, the array holds `iteration_cnt` Bellman-max sweeps from zero, then `V[nS-1] = 0` and no other entry changed; iteration_cnt is at most max(0, maxIterations); every sweep before the last had delta >= tol; if the count is below maxIterations, the last sweep's delta is below tol |
| `Scenarios.TieBreakKeepsLowerAction` | deeprl_p1/rl.py:106-108 | two actions with equal returns: action 0 is chosen |
| `Scenarios.ForcedZeroErasesOnlyState` | deeprl_p1/rl.py:244 | a one-state, two-action environment: action 1 (reward 2) is greedy, value iteration's first and second sweeps both give [2] and it stops after the second, and the forced zero turns the result into [0] |
| `Scenarios.EvaluationNeverConverges` | deeprl_p1/rl.py:41-68 | a self-loop with reward 1 and gamma 1 (outside the documented range [0, 1)): the n-th sweep gives V[0] + n and every sweep's delta is 1, so for tol <= 1 evaluation never exits, whatever max_iterations says |
| `Scenarios.SweepsOfLoop` | deeprl_p1/rl.py:46-65 | in that self-loop environment, n evaluation sweeps add exactly n to V[0] |
| `Scenarios.NonPositiveToleranceNeverExits` | deeprl_p1/rl.py:66-68 | with tol <= 0, no sweep of any environment, for any gamma including those in [0, 1), passes the exit test, so evaluation never exits |
| `Scenarios.ChainEvaluation` | deeprl_p1/rl.py:46-68 | a two-state chain into a terminal state with gamma 0.9: from zero, the first sweep gives [1, 0] and the second gives [1, 0] again with delta 0 |
| `Scenarios.ChainSweep` | deeprl_p1/rl.py:46-65 | one sweep of the chain writes state 0 from the old V[1], then zeroes state 1 through its terminal outcome |

The specification functions the rows above are stated over have no contract of their own; each models these lines:

- `Mdp.Contribution`, `Mdp.OutcomeSum` and `Mdp.ExpectedReturn`: the innermost accumulation over `env.P[s][a]` (rl.py:56-61, 99-104, 232-236).
- `Mdp.GreedyUpTo` and `Mdp.GreedyAction`: the strict-`<` scan over actions in `value_function_to_policy` (rl.py:97-108).
- `Mdp.MaxReturnUpTo` and `Mdp.MaxReturn`: the running `max_value` over actions (rl.py:229-237).
- `Sweeping.SweepUpTo`, `Sweeping.Sweep` and `Sweeping.Sweeps`: a partial sweep, one sweep, and n sweeps of the state loop (rl.py:46-65, 227-239).
- `Sweeping.StateUpdate`: the value written into one state, the policy action's return or the best return (rl.py:47-61, 229-237).
- `Sweeping.MaxAbsDiff` and `Sweeping.SweepDelta`: the running `delta`, reset to 0 at each sweep (rl.py:43/66, 226/239).
- `Sweeping.Zeros`: the zero value function (rl.py:182, 224).
- `Solver.EvaluatedIn`, `Solver.GreedyFor`, `Solver.Round`, `Solver.RoundRecorded`, `Solver.PolicyChanged` and `Solver.Trajectory`: one evaluation's exit after its first sweep with delta below tol, the output of `value_function_to_policy`, the rounds of `policy_iteration`, and a round whose improvement changed some state (rl.py:142-144, 187-194).

## Left out

- `print_policy` (rl.py:248-262) is left out. It is display formatting that depends on numpy string conversion and `np.place`.
- The environment object (`env.nS`, `env.nA`, `env.P`) and how it is built are left out. The environment is an immutable, well-formed input (`WellFormed`: one outcome list per state and action, `nA >= 1`, every next state in range).
- Floating point is left out. Values are exact reals, so rounding, NaN and overflow are not modelled. Nothing is claimed about numeric convergence, Bellman accuracy, monotone improvement or termination bounds.
- The `time` import and any driver, printing or plotting code are left out.
- `Solver.EvaluatePolicy`: the source loop has no bound and may never exit. Dafny needs a terminating loop, so the method takes a `fuel` parameter that is not in the source. It returns `converged == false` when it ran `fuel` sweeps without passing the exit test, where the source would keep sweeping. Its exit guarantees are conditioned on `converged`.
- `Solver.PolicyIteration`: passes `fuel` on to every evaluation. It stops with `outOfFuel == true` only when an evaluation ran `fuel` sweeps without one passing the exit test, where the source would keep sweeping and never return. The rounds before that are recorded in full. The returned value array then holds a partial evaluation, so the guarantees about the returned value function and the early exit are conditioned on `!outOfFuel`.
- `Solver.ValueIteration` requires `nS >= 1`. With no states, the source's `V[env.nS-1] = 0` indexes an empty array and raises.
- The sweep methods `Solver.EvaluationSweep` and `Solver.BellmanSweep` are the bodies of the sweep loops in `evaluate_policy` and `value_iteration`. They are separate methods so that each proof stays small; the statements they run are those of the source, in the same order.
