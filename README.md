# Robot hallway MDP and integer algorithm library, modelled in Dafny

This project models two independent components.

**The robot hallway** (`src/App.js`) is a Markov decision process:
- A robot stands on one of four positions, 0..3, and can move `LEFT` or `RIGHT`.
- A move reaches its intended position with probability 0.8. With probability 0.2 the robot stays where it is.
- The goal absorbs the robot.
- Rewards come from the active scenario's `rewards` and `hazards` maps. Arriving at the goal pays its rewards entry, or 10 when that entry is absent or zero. Any other arrival pays its nonzero rewards entry, otherwise its nonzero hazards entry, otherwise the step cost -1.
- Two solvers compute values, Q values and a greedy policy: value iteration and policy iteration. Both sweep the states in order and overwrite `V` in place (Gauss-Seidel).
- A one-step simulator follows the policy, samples the successor by inverse-CDF sampling, and keeps a trajectory, a step counter and the total reward.

**The algorithm library** (`algo_vault_gui.py`, lines 4-95) contains:
- linear search and binary search;
- two maximum-difference routines;
- the division algorithm with Python's floor semantics;
- trial-division prime factorisation;
- Euclid's gcd and the lcm;
- base-b expansion;
- addition of binary strings.

Layout, one module per file:
- `hallway_model.dfy` (`HallwayModel`): actions, the scenario record and the catalog of six worlds, `Transition`, `Reward` and the Bellman backup.
- `hallway_solver.dfy` (`HallwaySolver`):
  - the greedy argmax, with ties going to `LEFT`;
  - the two solvers as methods over `seq` tables;
  - specification functions that take the same steps: `ValueSweep`/`ValueRun`, and `EvalSweep`/`Evaluate`/`Improve`/`PolicyRun`;
  - lemmas about those functions.
- `hallway_simulator.dfy` (`HallwaySimulator`): inverse-CDF sampling with the random draw `u` as a parameter, the trajectory record and the stuck-count fold, and the `Simulator` class, whose fields are the application's simulation state.
- `algo_search.dfy` (`AlgoSearch`): the searches and the maximum-difference routines.
- `algo_number.dfy` (`AlgoNumber`): division, factorisation, gcd/lcm, base-b expansion and binary addition.

Modelling decisions:
- Probabilities, rewards and values are `real`, so the arithmetic of the solvers is exact.
- Python's `//` and `%` are modelled by `FloorDiv` and `FloorMod`. These round towards minus infinity, so the division algorithm, the gcd and the lcm are modelled for negative operands too, not only for positive divisors.
- Policy entries are the datatype `Left | Right | Terminal`. As in the code, `transition` treats every entry other than `Right` as a move to the left, `Terminal` included.
- The `Math.random()` draw of `simulateStep` is the parameter `u`.

## Model

| member | source | states |
|---|---|---|
| `HallwayModel.Catalog` | src/App.js:28-77 | Each of the six worlds has its goal and every reward and hazard entry inside 0..3, and a goal entry of 10. |
| `HallwayModel.CatalogGoalReward` | src/App.js:94-98 | In every catalog world, arriving at the goal pays exactly 10. |
| `HallwayModel.Intended` | src/App.js:84-89 | `Right` aims one step right and any other entry one step left, clamped at 0 and 3. The target of a position in 0..3 is in 0..3. |
| `HallwayModel.Transition` | src/App.js:81-92 | Every successor list has total probability 1 and only positive probabilities. From a position in range, every successor is in range. |
| `HallwayModel.TransitionAbsorbs` | src/App.js:82 | From the goal the list is exactly `[(goal, 1.0)]`, whatever the action. |
| `HallwayModel.TransitionSlips` | src/App.js:84-91 | Off the goal the list is exactly `[(intended, 0.8), (s, 0.2)]`. The intended position is in range and clamps at both walls. |
| `HallwayModel.Reward` | src/App.js:94-112 | A reward is never 0. It is 10, -1, or one of the scenario's reward or hazard values. |
| `HallwayModel.RewardIgnoresOrigin` | src/App.js:94 | The reward depends only on the arrival position, not on the leaving state or the action. |
| `HallwayModel.GoalReward` | src/App.js:96-98 | Arriving at the goal pays its rewards entry, or 10 when that entry is absent or zero. |
| `HallwayModel.RewardPriority` | src/App.js:100-111 | Off the goal, a nonzero rewards entry wins over a nonzero hazards entry, which wins over the step cost -1. |
| `HallwayModel.BackupClosedForm` | src/App.js:140-144 | The expected one-step return is `r + gamma*V[goal]` at the goal. Elsewhere it is `0.8*(r_t + gamma*V[t]) + 0.2*(r_s + gamma*V[s])`. |
| `HallwaySolver.FirstArgmax` | src/App.js:169-177 | The index holds a maximal value, and every earlier index holds a strictly smaller one. |
| `HallwaySolver.MaxOf` | src/App.js:149 | The result bounds every entry and is one of the entries. |
| `HallwaySolver.GreedyChoice` | src/App.js:169-177 | The greedy action is never `Terminal`. It is `Left` exactly when `Q[Left] >= Q[Right]`, so ties go to `Left`, and `Right` exactly when `Q[Right] > Q[Left]`. |
| `HallwaySolver.GreedyAction` | src/App.js:169-177 | The strict-`>` scan from -Infinity over `[LEFT, RIGHT]` returns the greedy action, which is `Left` exactly when `Q[Left] >= Q[Right]`. |
| `HallwaySolver.ActionValue` | src/App.js:140-144 | The loop over the successor list returns the Bellman backup of (s, a) against the current V. |
| `HallwaySolver.ActionValues` | src/App.js:138-147 | The loop over the actions returns the Q row `[backup Left, backup Right]`. |
| `HallwaySolver.ValueSweepInPlace` | src/App.js:132-152 | One in-place sweep gives the V, Q and delta of the specification sweep `ValueSweep`. |
| `HallwaySolver.SweepUntilConverged` | src/App.js:131-156 | The loop runs 1..1001 sweeps. It stops after the first sweep whose delta is below 0.0001, or when the counter passes 1000. Every earlier sweep had delta >= 0.0001. V and Q are those of the last sweep. |
| `HallwaySolver.ValueIteration` | src/App.js:114-186 | The stop rule and sweep count are as above. V[goal] = 0, the goal's Q row is 0, and pol[goal] is `TERMINAL`. Every other V[s] is the max of Q[s], and the policy is the greedy policy of Q. |
| `HallwaySolver.ExtractPolicy` | src/App.js:162-180 | The policy loop gives `TERMINAL` at the goal. Everywhere else it gives a move whose Q value is maximal. |
| `HallwaySolver.SweepUpToLeavesLater` | src/App.js:135-152 | States the sweep has not reached yet still hold their old V and Q entries. |
| `HallwaySolver.SweepUpToKeepsEarlier` | src/App.js:135-152 | Entries written earlier in a sweep are not written again in the same sweep. |
| `HallwaySolver.SweepEffect` | src/App.js:135-152 | A sweep leaves the goal's V and Q alone. At every other state, V equals the max of the new Q row. |
| `HallwaySolver.GaussSeidelReads` | src/App.js:143-151 | The Q row of s uses the values written earlier in the same sweep for states before s, and the old values for s and later states. |
| `HallwaySolver.ValueRunGoal` | src/App.js:116-136 | After any number of sweeps, V[goal] is still 0 and the goal's Q row is still `[0, 0]`. |
| `HallwaySolver.MaxChangeBelow` | src/App.js:150 | The running maximum of the changes is below 0.0001 exactly when every single change is. |
| `HallwaySolver.SweepUpToDelta` | src/App.js:132-152 | After visiting states 0..k-1, a sweep's delta is exactly the largest change of any of those values against its value before the sweep. |
| `HallwaySolver.ValueRunDelta` | src/App.js:150-154 | The stop test `delta < theta` of sweep n holds exactly when that sweep moved no value by 0.0001 or more. |
| `HallwaySolver.ValueRunMax` | src/App.js:149-151 | After each sweep, every non-goal V[s] is the max of its Q row. |
| `HallwaySolver.EvaluationSweep` | src/App.js:209-221 | One in-place evaluation sweep equals `EvalSweep`: V[s] becomes the backup of pol[s] and the goal is skipped. |
| `HallwaySolver.EvalSweepUpToLeavesLater` | src/App.js:210-221 | States the evaluation sweep has not reached yet still hold their old values. |
| `HallwaySolver.EvalSweepUpToKeepsEarlier` | src/App.js:210-221 | Values the evaluation sweep has written are not written again in the same sweep. |
| `HallwaySolver.EvalGaussSeidelReads` | src/App.js:215-219 | The new V[s] of an evaluation sweep is the backup of pol[s] against the values written earlier in the same sweep for states before s, and the old values for s and later states. |
| `HallwaySolver.EvalSweepUpToDelta` | src/App.js:209-221 | After visiting states 0..k-1, an evaluation sweep's delta is exactly the largest change of any of those values against its value before the sweep. |
| `HallwaySolver.EvalSweepDelta` | src/App.js:220-222 | The stop test `delta < theta` of an evaluation sweep holds exactly when the sweep moved no value by 0.0001 or more. |
| `HallwaySolver.EvaluatePolicy` | src/App.js:208-223 | The evaluation loop equals `Evaluate`. It sweeps until delta < 0.0001, but at most max(1, evalSweeps) times. |
| `HallwaySolver.EvaluateKeepsGoal` | src/App.js:210-211 | Policy evaluation never changes the goal's value. |
| `HallwaySolver.ScoreActions` | src/App.js:229-243 | The improvement loop over the actions stores the Q row of s and returns its greedy action. |
| `HallwaySolver.ImprovePolicy` | src/App.js:225-247 | The improvement pass equals `Improve` over the Q table of the evaluated V. |
| `HallwaySolver.ImproveUpToFrame` | src/App.js:226-227 | The goal's Q row and policy entry are untouched, and so are the states the pass has not reached. |
| `HallwaySolver.ImproveUpToVisited` | src/App.js:232-245 | A visited non-goal state holds its Q row and the greedy action of that row. |
| `HallwaySolver.ImproveUpToStable` | src/App.js:225-246 | `policyStable` holds exactly when every visited non-goal state already had its greedy action. |
| `HallwaySolver.ImproveStableIff` | src/App.js:245-249 | An improvement pass is stable exactly when it returns the policy unchanged. |
| `HallwaySolver.RoundStableIff` | src/App.js:204-249 | Round n is stable exactly when its policy equals that of round n - 1. |
| `HallwaySolver.PolicyRoundKeepsGoal` | src/App.js:210-227 | One evaluation/improvement round leaves the goal's V, Q row and policy entry as they were. |
| `HallwaySolver.PolicyRunGoal` | src/App.js:190-227 | After any number of rounds, V[goal] = 0 and the goal's Q row is 0. The goal's policy entry keeps its initial value from line 191, e.g. `RIGHT` when the goal is 0. |
| `HallwaySolver.PolicyRunGreedy` | src/App.js:232-245 | After a round, every non-goal Q row is the Q row of the evaluated V, and the policy entry is its greedy action. |
| `HallwaySolver.PolicyIteration` | src/App.js:188-259 | For the given evalSweeps cap on each evaluation, it runs 1..100 rounds and stops after the first stable round or at 100. No earlier round was stable. The goal's entries are as above, and the non-goal Q and policy are greedy in V. |
| `HallwaySimulator.Pick` | src/App.js:283-292 | The selected index is the first one whose running cumulative probability reaches u. |
| `HallwaySimulator.SampleNext` | src/App.js:282-292 | The cumulative scan returns the first entry whose running sum reaches u. When no entry qualifies it keeps the current position. |
| `HallwaySimulator.SampledTransition` | src/App.js:280-292 | Off the goal, a draw u <= 0.8 reaches the intended position and any larger draw stays. At the goal every draw stays. |
| `HallwaySimulator.SampledInRange` | src/App.js:280-292 | A sampled successor of a position in 0..3 is in 0..3. |
| `HallwaySimulator.StepStuckIff` | src/App.js:284-302 | Off the goal, a step leaves the robot in place exactly when u > 0.8 or the move was aimed into a wall. |
| `HallwaySimulator.StuckCountIsUnmoved` | src/App.js:332-335 | The `stuckCount` fold equals the number of records whose `wasMoved` is false, and is at most the history length. |
| `HallwaySimulator.StuckCountAppend` | src/App.js:332-335 | Appending a record raises the count by one exactly when that record did not move. |
| `HallwaySimulator.Simulator.constructor` | src/App.js:5-9 | The initial state: position 0, stopped, empty history, zero counters. |
| `HallwaySimulator.Simulator.Step` | src/App.js:273-308 | At the goal, only the running flag is cleared. Elsewhere, it appends `{step, from, action = pol[from], to, reward, wasMoved = to != from}`, moves to the sampled position, adds 1 to stepCount and the reward to totalReward. Both cases keep stepCount = length of history, totalReward = sum of rewards, and a chained trajectory. |
| `HallwaySimulator.Simulator.Reset` | src/App.js:319-325 | Puts the robot at p, stops it, empties the history and zeroes both counters. |
| `HallwaySimulator.Simulator.ToggleRunning` | src/App.js:327-330 | Flips the running flag, except at the goal. Nothing else changes. |
| `AlgoSearch.LinearSearch` | algo_vault_gui.py:4-8 | Returns the first index holding target. It returns -1 exactly when target does not occur. |
| `AlgoSearch.BinarySearch` | algo_vault_gui.py:11-21 | Any index returned holds target. On a sorted list, -1 is returned exactly when target is absent. Every probe is in bounds and the window shrinks. |
| `AlgoSearch.MaxDiffBruteForce` | algo_vault_gui.py:24-30 | Returns max(0, max over i < j of arr[j] - arr[i]). |
| `AlgoSearch.MaxDiffOptimized` | algo_vault_gui.py:33-39 | On a non-empty list, the one-pass routine returns the same quantity, keeping the prefix minimum as its invariant. |
| `AlgoSearch.MaxDiffUnique` | algo_vault_gui.py:24-39 | At most one value meets the maximum-difference specification, so the two routines agree. |
| `AlgoNumber.FloorMod` | algo_vault_gui.py:44 | `a == b*(a//b) + a%b`. The remainder lies in [0, b) for b > 0 and in (b, 0] for b < 0. |
| `AlgoNumber.DivisionAlgorithm` | algo_vault_gui.py:42-45 | `(q, r)` satisfies `a == b*q + r`, with r in [0, b) for b > 0 and in (b, 0] for b < 0. |
| `AlgoNumber.DivisionUnique` | algo_vault_gui.py:42-45 | Any pair with those properties is the pair `division_algorithm` returns. |
| `AlgoNumber.PrimeFactors` | algo_vault_gui.py:48-58 | For n <= 1 the result is `[]`. For n >= 2 it is a non-decreasing list of primes whose product is n. |
| `AlgoNumber.EuclidDivides` | algo_vault_gui.py:61-64 | Euclid's result divides both arguments. |
| `AlgoNumber.EuclidGreatest` | algo_vault_gui.py:61-64 | Every common divisor of the arguments divides Euclid's result. |
| `AlgoNumber.EuclidSign` | algo_vault_gui.py:61-64 | The result is 0 exactly when both arguments are 0. It is non-negative for non-negative arguments. |
| `AlgoNumber.Gcd` | algo_vault_gui.py:61-64 | The loop returns a common divisor that every common divisor divides. `gcd(a, 0) == a`. The result is non-negative for non-negative inputs, and 0 only for `gcd(0, 0)`. |
| `AlgoNumber.Lcm` | algo_vault_gui.py:67-68 | When a and b are not both 0, the result is a common multiple of a and b, and `lcm * gcd == abs(a*b)`. It is non-negative for non-negative inputs. |
| `AlgoNumber.ReverseValue` | algo_vault_gui.py:78 | Reversing a least-significant-first digit list and reading it most-significant-first gives the same value. |
| `AlgoNumber.BaseBExpansion` | algo_vault_gui.py:71-78 | For base >= 2 the result is `[0]` for n = 0 and `[]` for n < 0. For n > 0 the leading digit is nonzero. Every digit is in [0, base) and the digits read back to n. |
| `AlgoNumber.BinaryAdd` | algo_vault_gui.py:81-95 | The result has only `'0'`/`'1'` characters and its value is value(a) + value(b). For binary inputs its length is max(len a, len b) or one more. |

## Left out

- React `useState`/`useEffect` wiring and the `setTimeout` tick loop (src/App.js:261-271, 310-317): event scheduling. One tick is one call of `Simulator.Step`. The scenario switch that calls `reset(0)` is one call of `Simulator.Reset(0)`.
- `performance.now()` timing and `convergenceTime` (src/App.js:115, 158-159, 252-253): wall clock, diagnostic only.
- `Math.random()` (src/App.js:282) is not modelled. The draw is the parameter `u` of `Simulator.Step`.
- JSX rendering and the cell helpers `getCellColor`, `getCellIcon`, `getCellLabel` (src/App.js:337-669), and the scenario `icon` strings: presentation only.
- Floating point: values are exact `real`s, so rounding in the JavaScript sums is not modelled.
- The `gamma` and `speed` settings are not modelled as state. `gamma` is a parameter of both solvers.
- The convergence of either solver within the threshold, the contraction property, and agreement between value and policy iteration: the code never checks these, and nothing here claims them.
- `HallwaySolver.EvaluatePolicy`: the inner evaluation loop of src/App.js:208-223 has no cap. The model stops it after at most max(1, evalSweeps) sweeps. With a large enough evalSweeps it takes exactly the same steps as any terminating run of the source.
- `HallwaySolver.PolicyIteration`: each round evaluates the policy through `EvaluatePolicy`, so it inherits the same evalSweeps cap on the uncapped inner loop of src/App.js:208-223.
- `HallwaySimulator.Trajectory` ties each record to the chain of positions, but not to a scenario's rewards. The per-step reward is stated by `Simulator.Step` itself.
- The tkinter GUI and its `eval`-based input parsing (algo_vault_gui.py:97-212): I/O and dynamic evaluation.
- `AlgoNumber.Lcm`: the result is shown to be a common multiple with `lcm * gcd == abs(a*b)`, but not to be the least one. For (0, 0) Python divides by zero, which is the precondition.
- `AlgoNumber.DivisionAlgorithm`: requires b != 0. `division_algorithm(a, 0)` raises ZeroDivisionError in Python, which the GUI reports as an error message. The exception path is not modelled.
- `AlgoNumber.FloorMod` and `AlgoNumber.FloorDiv`: require b != 0 for the same reason. Python's `a // 0` and `a % 0` raise ZeroDivisionError.
- `AlgoNumber.BaseBExpansion`: requires base >= 2. With base 1 the Python loop never ends, and negative or zero bases are not modelled.
- `AlgoSearch.MaxDiffOptimized`: requires a non-empty list. On an empty list Python raises IndexError at `arr[0]`.
- `AlgoNumber.BinaryAdd`: requires ASCII digit characters '0'..'9'. Python's `int()` also accepts other Unicode decimal digits (such as Arabic-Indic or full-width digits), and those inputs are not modelled. It raises on non-digit characters, which are not modelled either. The value is computed for any ASCII digits, but the length bound is stated only for binary inputs.
- `HallwaySimulator.Simulator.Reset`: requires a position in 0..3, the only arguments the application passes.
