/** The two dynamic-programming solvers of the hallway: value iteration and
    policy iteration.  Both sweep the states in order and overwrite V as they
    go, so a state later in a sweep reads the entries already written earlier
    in the same sweep (Gauss-Seidel, not a synchronous update).  Every loop of
    the solvers is a method proved equal to a specification function that
    takes the same steps; the properties of the solvers are lemmas about those
    functions. */
module HallwaySolver {
  import opened HallwayModel

  /** Convergence threshold of both solvers. */
  const Theta: real := 0.0001
  /** Value iteration stops once its sweep counter exceeds this. */
  const SweepCap: nat := 1000
  /** Policy iteration runs at most this many evaluation/improvement rounds. */
  const RoundCap: nat := 100

  const ZeroValues: seq<real> := [0.0, 0.0, 0.0, 0.0]
  const ZeroRow: seq<real> := [0.0, 0.0]
  const ZeroQ: seq<seq<real>> := [ZeroRow, ZeroRow, ZeroRow, ZeroRow]
  /** The policy table both solvers start from. */
  const InitialPolicy: seq<Action> := [Right, Right, Right, Terminal]

  /** One row per state and one column per action. */
  predicate IsTable(Q: seq<seq<real>>) {
    |Q| == NumStates && forall s :: 0 <= s < NumStates ==> |Q[s]| == |Actions|
  }

  /** V has one entry per state and Q is a table. */
  predicate Shaped(V: seq<real>, Q: seq<seq<real>>) {
    |V| == NumStates && IsTable(Q)
  }

  function RMax(x: real, y: real): real {
    if x >= y then x else y
  }

  function Abs(x: real): real {
    if x < 0.0 then -x else x
  }

  // ----- Greedy choice -----

  /** A running best that starts below every real, as the scan's -Infinity does. */
  datatype Bound = NegInfinity | Finite(v: real)

  predicate Above(x: real, b: Bound) {
    b.NegInfinity? || x > b.v
  }

  /** The index a left-to-right scan with a strict comparison keeps: the first
      index holding the maximum. */
  function FirstArgmax(q: seq<real>): (i: nat)
    requires |q| > 0
    ensures i < |q|
    ensures forall j :: 0 <= j < |q| ==> q[j] <= q[i]
    ensures forall j :: 0 <= j < i ==> q[j] < q[i]
  {
    ArgmaxUpTo(q, |q|)
  }

  function ArgmaxUpTo(q: seq<real>, k: nat): (i: nat)
    requires 0 < k <= |q|
    ensures i < k
    ensures forall j :: 0 <= j < k ==> q[j] <= q[i]
    ensures forall j :: 0 <= j < i ==> q[j] < q[i]
  {
    if k == 1 then 0
    else
      var b := ArgmaxUpTo(q, k - 1);
      if q[k - 1] > q[b] then k - 1 else b
  }

  function MaxOf(q: seq<real>): (m: real)
    requires |q| > 0
    ensures forall j :: 0 <= j < |q| ==> q[j] <= m
    ensures exists j :: 0 <= j < |q| && q[j] == m
  {
    q[FirstArgmax(q)]
  }

  /** The greedy action of a Q row. */
  function Greedy(q: seq<real>): Action
    requires |q| == |Actions|
  {
    Actions[FirstArgmax(q)]
  }

  /** Greedy picks a move with maximal Q; on equal values Left wins. */
  lemma GreedyChoice(q: seq<real>)
    requires |q| == |Actions|
    ensures Greedy(q) != Terminal
    ensures Greedy(q) == Left <==> q[0] >= q[1]
    ensures Greedy(q) == Right <==> q[1] > q[0]
  {
  }

  /** The scan over the actions that keeps the first strictly larger Q value. */
  method GreedyAction(q: seq<real>) returns (best: Action)
    requires |q| == |Actions|
    ensures best == Greedy(q)
    ensures best == Left <==> q[0] >= q[1]
  {
    best := Right;
    var bestValue := NegInfinity;
    for i := 0 to |Actions|
      invariant i == 0 ==> bestValue == NegInfinity
      invariant 0 < i ==> best == Actions[ArgmaxUpTo(q, i)] && bestValue == Finite(q[ArgmaxUpTo(q, i)])
    {
      if Above(q[i], bestValue) {
        best, bestValue := Actions[i], Finite(q[i]);
      }
    }
    GreedyChoice(q);
  }

  // ----- Backups -----

  /** The Q row of state s against the values V. */
  function QRow(sc: Scenario, gamma: real, s: int, V: seq<real>): (row: seq<real>)
    requires IsState(s) && |V| == NumStates
    ensures |row| == |Actions|
  {
    [Backup(sc, gamma, s, Left, V), Backup(sc, gamma, s, Right, V)]
  }

  /** The loop over the successor list of (s, a). */
  method ActionValue(sc: Scenario, gamma: real, s: int, a: Action, V: seq<real>) returns (total: real)
    requires IsState(s) && |V| == NumStates
    ensures total == Backup(sc, gamma, s, a, V)
  {
    var ts := Transition(sc, s, a);
    total := 0.0;
    for i := 0 to |ts|
      invariant total == BackupPrefix(sc, gamma, s, a, ts, V, i)
    {
      var (next, p) := ts[i];
      var r := Reward(sc, s, a, next);
      total := total + p * (r + gamma * V[next]);
    }
  }

  /** The loop over the actions of s, collecting their Q values. */
  method ActionValues(sc: Scenario, gamma: real, s: int, V: seq<real>) returns (row: seq<real>)
    requires IsState(s) && |V| == NumStates
    ensures row == QRow(sc, gamma, s, V)
  {
    row := [];
    for i := 0 to |Actions|
      invariant |row| == i
      invariant forall j :: 0 <= j < i ==> row[j] == Backup(sc, gamma, s, Actions[j], V)
    {
      var total := ActionValue(sc, gamma, s, Actions[i], V);
      row := row + [total];
    }
  }

  // ----- Value iteration -----

  datatype SweepState = SweepState(V: seq<real>, Q: seq<seq<real>>, delta: real)

  /** The update of state s inside a value-iteration sweep; the goal is skipped. */
  function BellmanUpdate(sc: Scenario, gamma: real, s: int, st: SweepState): (st': SweepState)
    requires IsState(s) && Shaped(st.V, st.Q)
    ensures Shaped(st'.V, st'.Q)
  {
    if s == sc.goalState then st
    else
      var row := QRow(sc, gamma, s, st.V);
      var best := MaxOf(row);
      SweepState(st.V[s := best], st.Q[s := row], RMax(st.delta, Abs(st.V[s] - best)))
  }

  /** The sweep after it has visited states 0 .. k - 1 in order. */
  function ValueSweepUpTo(sc: Scenario, gamma: real, V: seq<real>, Q: seq<seq<real>>, k: nat): (st: SweepState)
    requires Shaped(V, Q) && k <= NumStates
    ensures Shaped(st.V, st.Q)
  {
    if k == 0 then SweepState(V, Q, 0.0)
    else BellmanUpdate(sc, gamma, k - 1, ValueSweepUpTo(sc, gamma, V, Q, k - 1))
  }

  function ValueSweep(sc: Scenario, gamma: real, V: seq<real>, Q: seq<seq<real>>): SweepState
    requires Shaped(V, Q)
  {
    ValueSweepUpTo(sc, gamma, V, Q, |V|)
  }

  /** The tables after n sweeps from all zeros; delta is that of the n-th sweep. */
  function ValueRun(sc: Scenario, gamma: real, n: nat): (st: SweepState)
    ensures Shaped(st.V, st.Q)
  {
    if n == 0 then SweepState(ZeroValues, ZeroQ, 0.0)
    else
      var prev := ValueRun(sc, gamma, n - 1);
      ValueSweep(sc, gamma, prev.V, prev.Q)
  }

  /** The k-th sweep still changed some value by Theta or more. */
  predicate Unconverged(sc: Scenario, gamma: real, k: nat) {
    ValueRun(sc, gamma, k).delta >= Theta
  }

  /** Terminal at the goal, the greedy action of its Q row everywhere else. */
  function GreedyPolicy(sc: Scenario, Q: seq<seq<real>>): (pol: seq<Action>)
    requires |Q| == NumStates && forall s :: 0 <= s < NumStates ==> |Q[s]| == |Actions|
    ensures |pol| == NumStates
  {
    seq(NumStates, s requires 0 <= s < NumStates => if s == sc.goalState then Terminal else Greedy(Q[s]))
  }

  /** One sweep: the loop over the states, updating V and Q in place. */
  method ValueSweepInPlace(sc: Scenario, gamma: real, V0: seq<real>, Q0: seq<seq<real>>)
    returns (V: seq<real>, Q: seq<seq<real>>, delta: real)
    requires Shaped(V0, Q0)
    ensures SweepState(V, Q, delta) == ValueSweep(sc, gamma, V0, Q0)
  {
    V, Q, delta := V0, Q0, 0.0;
    for s := 0 to NumStates
      invariant SweepState(V, Q, delta) == ValueSweepUpTo(sc, gamma, V0, Q0, s)
    {
      if s != sc.goalState {
        var actionValues := ActionValues(sc, gamma, s, V);
        Q := Q[s := actionValues];
        var bestValue := MaxOf(actionValues);
        delta := RMax(delta, Abs(V[s] - bestValue));
        V := V[s := bestValue];
      }
    }
  }

  /** Value iteration: sweeps until a sweep changes no value by Theta or more,
      or the counter passes SweepCap; then the greedy policy of Q. */
  method ValueIteration(sc: Scenario, gamma: real)
    returns (V: seq<real>, Q: seq<seq<real>>, pol: seq<Action>, iterations: nat)
    requires IsState(sc.goalState)
    ensures 1 <= iterations <= SweepCap + 1
    ensures V == ValueRun(sc, gamma, iterations).V && Q == ValueRun(sc, gamma, iterations).Q
    ensures ValueRun(sc, gamma, iterations).delta < Theta || iterations == SweepCap + 1
    ensures forall k :: 1 <= k < iterations ==> Unconverged(sc, gamma, k)
    ensures Shaped(V, Q) && pol == GreedyPolicy(sc, Q)
    ensures V[sc.goalState] == 0.0 && Q[sc.goalState] == ZeroRow && pol[sc.goalState] == Terminal
    ensures forall s :: IsState(s) && s != sc.goalState ==> V[s] == MaxOf(Q[s])
  {
    V, Q, iterations := SweepUntilConverged(sc, gamma);
    ValueRunGoal(sc, gamma, iterations);
    ValueRunMax(sc, gamma, iterations);
    pol := ExtractPolicy(sc, Q);
  }

  /** The sweep loop of value iteration: stops after the first sweep whose
      delta is below Theta, or once the counter exceeds SweepCap. */
  method SweepUntilConverged(sc: Scenario, gamma: real) returns (V: seq<real>, Q: seq<seq<real>>, iterations: nat)
    ensures 1 <= iterations <= SweepCap + 1
    ensures V == ValueRun(sc, gamma, iterations).V && Q == ValueRun(sc, gamma, iterations).Q
    ensures ValueRun(sc, gamma, iterations).delta < Theta || iterations == SweepCap + 1
    ensures forall k :: 1 <= k < iterations ==> Unconverged(sc, gamma, k)
  {
    V, Q := ZeroValues, ZeroQ;
    iterations := 0;
    while true
      invariant iterations <= SweepCap
      invariant V == ValueRun(sc, gamma, iterations).V && Q == ValueRun(sc, gamma, iterations).Q
      invariant UnconvergedThrough(sc, gamma, iterations)
      decreases SweepCap - iterations
    {
      var delta;
      ghost var prev := ValueRun(sc, gamma, iterations);
      V, Q, delta := ValueSweepInPlace(sc, gamma, V, Q);
      iterations := iterations + 1;
      ValueRunStep(sc, gamma, iterations, prev, SweepState(V, Q, delta));
      if delta < Theta {
        UnconvergedThroughAll(sc, gamma, iterations - 1);
        break;
      }
      if iterations > SweepCap {
        UnconvergedThroughAll(sc, gamma, iterations);
        break;
      }
    }
  }

  /** Every sweep from the first to the n-th left delta at Theta or above. */
  predicate UnconvergedThrough(sc: Scenario, gamma: real, n: nat) {
    n == 0 || (Unconverged(sc, gamma, n) && UnconvergedThrough(sc, gamma, n - 1))
  }

  lemma {:induction false} UnconvergedThroughAll(sc: Scenario, gamma: real, n: nat)
    requires UnconvergedThrough(sc, gamma, n)
    ensures forall k :: 1 <= k <= n ==> Unconverged(sc, gamma, k)
  {
    if n > 0 {
      UnconvergedThroughAll(sc, gamma, n - 1);
    }
  }

  lemma ValueRunStep(sc: Scenario, gamma: real, n: nat, prev: SweepState, next: SweepState)
    requires n >= 1 && prev == ValueRun(sc, gamma, n - 1)
    requires Shaped(prev.V, prev.Q) && next == ValueSweep(sc, gamma, prev.V, prev.Q)
    ensures ValueRun(sc, gamma, n) == next
  {
  }

  /** The policy loop after value iteration: Terminal at the goal, the greedy action elsewhere. */
  method ExtractPolicy(sc: Scenario, Q: seq<seq<real>>) returns (pol: seq<Action>)
    requires |Q| == NumStates && forall s :: 0 <= s < NumStates ==> |Q[s]| == |Actions|
    ensures pol == GreedyPolicy(sc, Q)
    ensures forall s :: 0 <= s < NumStates && s != sc.goalState ==>
              pol[s] != Terminal && forall i :: 0 <= i < |Actions| ==> Q[s][i] <= Q[s][FirstArgmax(Q[s])]
  {
    pol := InitialPolicy;
    for s := 0 to NumStates
      invariant |pol| == NumStates
      invariant forall t :: 0 <= t < s ==> pol[t] == GreedyPolicy(sc, Q)[t]
    {
      if s == sc.goalState {
        pol := pol[s := Terminal];
      } else {
        var bestAction := GreedyAction(Q[s]);
        pol := pol[s := bestAction];
      }
    }
    forall s | 0 <= s < NumStates && s != sc.goalState
      ensures pol[s] != Terminal
    {
      GreedyChoice(Q[s]);
    }
  }

  // ----- Properties of a value-iteration sweep -----

  /** States the sweep has not reached yet still hold their old entries. */
  lemma {:induction false} SweepUpToLeavesLater(sc: Scenario, gamma: real, V: seq<real>, Q: seq<seq<real>>, k: nat)
    requires Shaped(V, Q) && k <= NumStates
    ensures forall t :: k <= t < NumStates ==>
              ValueSweepUpTo(sc, gamma, V, Q, k).V[t] == V[t] && ValueSweepUpTo(sc, gamma, V, Q, k).Q[t] == Q[t]
  {
    if k > 0 {
      SweepUpToLeavesLater(sc, gamma, V, Q, k - 1);
    }
  }

  /** States the sweep has passed are not written again in the same sweep. */
  lemma {:induction false} SweepUpToKeepsEarlier(sc: Scenario, gamma: real, V: seq<real>, Q: seq<seq<real>>, k: nat, m: nat)
    requires Shaped(V, Q) && k <= m <= NumStates
    ensures forall t :: 0 <= t < k ==>
              && ValueSweepUpTo(sc, gamma, V, Q, m).V[t] == ValueSweepUpTo(sc, gamma, V, Q, k).V[t]
              && ValueSweepUpTo(sc, gamma, V, Q, m).Q[t] == ValueSweepUpTo(sc, gamma, V, Q, k).Q[t]
  {
    if k < m {
      SweepUpToKeepsEarlier(sc, gamma, V, Q, k, m - 1);
    }
  }

  /** A sweep leaves the goal's entries alone and, at every other state, leaves
      V equal to the maximum of that state's new Q row. */
  lemma SweepEffect(sc: Scenario, gamma: real, V: seq<real>, Q: seq<seq<real>>)
    requires Shaped(V, Q) && IsState(sc.goalState)
    ensures ValueSweep(sc, gamma, V, Q).V[sc.goalState] == V[sc.goalState]
    ensures ValueSweep(sc, gamma, V, Q).Q[sc.goalState] == Q[sc.goalState]
    ensures forall s :: IsState(s) && s != sc.goalState ==>
              ValueSweep(sc, gamma, V, Q).V[s] == MaxOf(ValueSweep(sc, gamma, V, Q).Q[s])
  {
    forall s | IsState(s)
      ensures s == sc.goalState ==>
                ValueSweep(sc, gamma, V, Q).V[s] == V[s] && ValueSweep(sc, gamma, V, Q).Q[s] == Q[s]
      ensures s != sc.goalState ==>
                ValueSweep(sc, gamma, V, Q).V[s] == MaxOf(ValueSweep(sc, gamma, V, Q).Q[s])
    {
      SweepUpToKeepsEarlier(sc, gamma, V, Q, s + 1, NumStates);
      SweepUpToLeavesLater(sc, gamma, V, Q, s);
    }
  }

  /** The in-place read: the Q row a sweep computes for s uses the values the
      same sweep already wrote for the states before s, and the old values of
      s and the states after it. */
  lemma GaussSeidelReads(sc: Scenario, gamma: real, V: seq<real>, Q: seq<seq<real>>, s: int)
    requires Shaped(V, Q) && IsState(s) && s != sc.goalState
    ensures ValueSweep(sc, gamma, V, Q).Q[s] ==
              QRow(sc, gamma, s, ValueSweep(sc, gamma, V, Q).V[..s] + V[s..])
  {
    var final := ValueSweep(sc, gamma, V, Q);
    var mid := ValueSweepUpTo(sc, gamma, V, Q, s);
    SweepUpToKeepsEarlier(sc, gamma, V, Q, s, NumStates);
    SweepUpToKeepsEarlier(sc, gamma, V, Q, s + 1, NumStates);
    SweepUpToLeavesLater(sc, gamma, V, Q, s);
    assert mid.V == final.V[..s] + V[s..];
  }

  /** After any number of sweeps the goal's value and Q row are still zero. */
  lemma {:induction false} ValueRunGoal(sc: Scenario, gamma: real, n: nat)
    requires IsState(sc.goalState)
    ensures ValueRun(sc, gamma, n).V[sc.goalState] == 0.0
    ensures ValueRun(sc, gamma, n).Q[sc.goalState] == ZeroRow
  {
    if n > 0 {
      ValueRunGoal(sc, gamma, n - 1);
      var prev := ValueRun(sc, gamma, n - 1);
      SweepEffect(sc, gamma, prev.V, prev.Q);
    }
  }

  /** After each sweep every non-goal value is the maximum of its Q row. */
  lemma ValueRunMax(sc: Scenario, gamma: real, n: nat)
    requires IsState(sc.goalState) && n >= 1
    ensures forall s :: IsState(s) && s != sc.goalState ==>
              ValueRun(sc, gamma, n).V[s] == MaxOf(ValueRun(sc, gamma, n).Q[s])
  {
    var prev := ValueRun(sc, gamma, n - 1);
    SweepEffect(sc, gamma, prev.V, prev.Q);
  }

  /** The largest change |V0[t] - V1[t]| over t < k, as a running maximum from 0. */
  function MaxChange(V0: seq<real>, V1: seq<real>, k: nat): (m: real)
    requires k <= |V0| && k <= |V1|
    ensures m >= 0.0
  {
    if k == 0 then 0.0 else RMax(MaxChange(V0, V1, k - 1), Abs(V0[k - 1] - V1[k - 1]))
  }

  /** The largest change is below Theta exactly when every change is. */
  lemma {:induction false} MaxChangeBelow(V0: seq<real>, V1: seq<real>, k: nat)
    requires k <= |V0| && k <= |V1|
    ensures MaxChange(V0, V1, k) < Theta <==> forall t :: 0 <= t < k ==> Abs(V0[t] - V1[t]) < Theta
  {
    if k > 0 {
      MaxChangeBelow(V0, V1, k - 1);
    }
  }

  lemma {:induction false} MaxChangeFrame(V0: seq<real>, A: seq<real>, B: seq<real>, k: nat)
    requires k <= |V0| && k <= |A| && k <= |B|
    requires forall t :: 0 <= t < k ==> A[t] == B[t]
    ensures MaxChange(V0, A, k) == MaxChange(V0, B, k)
  {
    if k > 0 {
      MaxChangeFrame(V0, A, B, k - 1);
    }
  }

  /** Writing entry k does not change the largest change over the entries before k. */
  lemma MaxChangeUpdate(V0: seq<real>, B: seq<real>, k: nat, x: real)
    requires k < |V0| && k < |B|
    ensures MaxChange(V0, B[k := x], k) == MaxChange(V0, B, k)
  {
    MaxChangeFrame(V0, B[k := x], B, k);
  }

  /** One step of the running maximum: an update that writes only entry s and
      raises delta to that entry's change keeps delta the largest change. */
  lemma DeltaStep(V0: seq<real>, prevV: seq<real>, prevDelta: real, curV: seq<real>, curDelta: real, s: nat, skipped: bool)
    requires s < |V0| && s < |prevV| == |curV| && prevV[s] == V0[s] && curV == prevV[s := curV[s]]
    requires prevDelta == MaxChange(V0, prevV, s)
    requires skipped ==> curV[s] == prevV[s] && curDelta == prevDelta
    requires !skipped ==> curDelta == RMax(prevDelta, Abs(prevV[s] - curV[s]))
    ensures curDelta == MaxChange(V0, curV, s + 1)
  {
    MaxChangeUpdate(V0, prevV, s, curV[s]);
  }

  /** A Bellman update writes only V[s] and raises delta to that entry's change. */
  lemma BellmanUpdateShape(sc: Scenario, gamma: real, s: int, st: SweepState)
    requires IsState(s) && Shaped(st.V, st.Q)
    ensures var st' := BellmanUpdate(sc, gamma, s, st);
      && st'.V == st.V[s := st'.V[s]]
      && (s == sc.goalState ==> st'.V[s] == st.V[s] && st'.delta == st.delta)
      && (s != sc.goalState ==> st'.delta == RMax(st.delta, Abs(st.V[s] - st'.V[s])))
  {
  }

  /** delta measures the sweep: it is the largest change of any value the
      sweep has visited, against that value before the sweep. */
  lemma {:induction false} SweepUpToDelta(sc: Scenario, gamma: real, V: seq<real>, Q: seq<seq<real>>, k: nat)
    requires Shaped(V, Q) && k <= NumStates
    ensures ValueSweepUpTo(sc, gamma, V, Q, k).delta == MaxChange(V, ValueSweepUpTo(sc, gamma, V, Q, k).V, k)
  {
    if k > 0 {
      var prev := ValueSweepUpTo(sc, gamma, V, Q, k - 1);
      var cur := BellmanUpdate(sc, gamma, k - 1, prev);
      SweepUpToDelta(sc, gamma, V, Q, k - 1);
      SweepUpToLeavesLater(sc, gamma, V, Q, k - 1);
      BellmanUpdateShape(sc, gamma, k - 1, prev);
      DeltaStep(V, prev.V, prev.delta, cur.V, cur.delta, k - 1, k - 1 == sc.goalState);
    }
  }

  /** The n-th sweep's delta is below Theta exactly when that sweep moved no
      value by Theta or more, which is the stop test of value iteration. */
  lemma ValueRunDelta(sc: Scenario, gamma: real, n: nat)
    requires n >= 1
    ensures ValueRun(sc, gamma, n).delta < Theta <==>
              forall t :: IsState(t) ==> Abs(ValueRun(sc, gamma, n - 1).V[t] - ValueRun(sc, gamma, n).V[t]) < Theta
  {
    var prev := ValueRun(sc, gamma, n - 1);
    SweepUpToDelta(sc, gamma, prev.V, prev.Q, NumStates);
    MaxChangeBelow(prev.V, ValueRun(sc, gamma, n).V, NumStates);
  }

  // ----- Policy iteration -----

  datatype EvalState = EvalState(V: seq<real>, delta: real)

  /** The update of state s inside a policy-evaluation sweep; the goal is skipped. */
  function EvalUpdate(sc: Scenario, gamma: real, pol: seq<Action>, s: int, st: EvalState): (st': EvalState)
    requires IsState(s) && |st.V| == NumStates && |pol| == NumStates
    ensures |st'.V| == NumStates
  {
    if s == sc.goalState then st
    else
      var v := st.V[s];
      var total := Backup(sc, gamma, s, pol[s], st.V);
      EvalState(st.V[s := total], RMax(st.delta, Abs(v - total)))
  }

  function EvalSweepUpTo(sc: Scenario, gamma: real, pol: seq<Action>, V: seq<real>, k: nat): (st: EvalState)
    requires |V| == NumStates && |pol| == NumStates && k <= NumStates
    ensures |st.V| == NumStates
  {
    if k == 0 then EvalState(V, 0.0)
    else EvalUpdate(sc, gamma, pol, k - 1, EvalSweepUpTo(sc, gamma, pol, V, k - 1))
  }

  function EvalSweep(sc: Scenario, gamma: real, pol: seq<Action>, V: seq<real>): EvalState
    requires |V| == NumStates && |pol| == NumStates
  {
    EvalSweepUpTo(sc, gamma, pol, V, |V|)
  }

  /** Policy evaluation: sweeps until a sweep changes no value by Theta or
      more, but at most max(1, fuel) sweeps. */
  function Evaluate(sc: Scenario, gamma: real, pol: seq<Action>, V: seq<real>, fuel: nat): (V': seq<real>)
    requires |V| == NumStates && |pol| == NumStates
    ensures |V'| == NumStates
    decreases fuel
  {
    var st := EvalSweep(sc, gamma, pol, V);
    if st.delta < Theta || fuel <= 1 then st.V
    else Evaluate(sc, gamma, pol, st.V, fuel - 1)
  }

  /** The Q table of V: the Q row of every state against the same V. */
  function QTable(sc: Scenario, gamma: real, V: seq<real>): (T: seq<seq<real>>)
    requires |V| == NumStates
    ensures IsTable(T)
    ensures forall s :: 0 <= s < NumStates ==> T[s] == QRow(sc, gamma, s, V)
  {
    seq(NumStates, s requires 0 <= s < NumStates => QRow(sc, gamma, s, V))
  }

  datatype Improvement = Improvement(Q: seq<seq<real>>, pol: seq<Action>, stable: bool)

  /** The improvement pass after it has visited states 0 .. k - 1, with T the
      Q table of the evaluated values: every visited non-goal state gets its
      row of T and that row's greedy action. */
  function ImproveUpTo(sc: Scenario, T: seq<seq<real>>, Q: seq<seq<real>>, pol: seq<Action>, k: nat)
    : (im: Improvement)
    requires IsTable(T) && IsTable(Q) && |pol| == NumStates && k <= NumStates
    ensures IsTable(im.Q) && |im.pol| == NumStates
  {
    if k == 0 then Improvement(Q, pol, true)
    else
      var im := ImproveUpTo(sc, T, Q, pol, k - 1);
      var s := k - 1;
      if s == sc.goalState then im
      else
        var best := Greedy(T[s]);
        Improvement(im.Q[s := T[s]], im.pol[s := best], im.stable && im.pol[s] == best)
  }

  function Improve(sc: Scenario, T: seq<seq<real>>, Q: seq<seq<real>>, pol: seq<Action>): Improvement
    requires IsTable(T) && IsTable(Q) && |pol| == NumStates
  {
    ImproveUpTo(sc, T, Q, pol, |pol|)
  }

  datatype Round = Round(V: seq<real>, Q: seq<seq<real>>, pol: seq<Action>, stable: bool)

  /** The tables after n evaluation/improvement rounds from the initial policy. */
  function PolicyRun(sc: Scenario, gamma: real, evalSweeps: nat, n: nat): (r: Round)
    ensures Shaped(r.V, r.Q) && |r.pol| == NumStates
  {
    if n == 0 then Round(ZeroValues, ZeroQ, InitialPolicy, false)
    else PolicyRound(sc, gamma, evalSweeps, PolicyRun(sc, gamma, evalSweeps, n - 1))
  }

  /** One round: evaluate the current policy, then improve it greedily. */
  function PolicyRound(sc: Scenario, gamma: real, evalSweeps: nat, prev: Round): (r: Round)
    requires Shaped(prev.V, prev.Q) && |prev.pol| == NumStates
    ensures Shaped(r.V, r.Q) && |r.pol| == NumStates
  {
    var V := Evaluate(sc, gamma, prev.pol, prev.V, evalSweeps);
    var im := Improve(sc, QTable(sc, gamma, V), prev.Q, prev.pol);
    Round(V, im.Q, im.pol, im.stable)
  }

  /** One evaluation sweep: V[s] := backup of the policy's action, in place. */
  method EvaluationSweep(sc: Scenario, gamma: real, pol: seq<Action>, V0: seq<real>)
    returns (V: seq<real>, delta: real)
    requires |V0| == NumStates && |pol| == NumStates
    ensures EvalState(V, delta) == EvalSweep(sc, gamma, pol, V0)
  {
    V, delta := V0, 0.0;
    for s := 0 to NumStates
      invariant EvalState(V, delta) == EvalSweepUpTo(sc, gamma, pol, V0, s)
    {
      if s != sc.goalState {
        var v := V[s];
        var a := pol[s];
        var total := ActionValue(sc, gamma, s, a, V);
        V := V[s := total];
        delta := RMax(delta, Abs(v - V[s]));
      }
    }
  }

  /** The evaluation loop, repeated until delta < Theta or evalSweeps sweeps are done. */
  method EvaluatePolicy(sc: Scenario, gamma: real, pol: seq<Action>, V0: seq<real>, evalSweeps: nat)
    returns (V: seq<real>)
    requires |V0| == NumStates && |pol| == NumStates
    ensures V == Evaluate(sc, gamma, pol, V0, evalSweeps)
  {
    var budget := if evalSweeps == 0 then 1 else evalSweeps;
    assert Evaluate(sc, gamma, pol, V0, evalSweeps) == Evaluate(sc, gamma, pol, V0, budget);
    V := V0;
    var sweeps := 0;
    while true
      invariant sweeps < budget && |V| == NumStates
      invariant Evaluate(sc, gamma, pol, V0, evalSweeps) == Evaluate(sc, gamma, pol, V, budget - sweeps)
      decreases budget - sweeps
    {
      var delta;
      V, delta := EvaluationSweep(sc, gamma, pol, V);
      sweeps := sweeps + 1;
      if delta < Theta {
        break;
      }
      if sweeps >= budget {
        break;
      }
    }
  }

  /** The loop over the actions of s in an improvement pass: each Q value is
      stored and compared strictly against the best so far. */
  method ScoreActions(sc: Scenario, gamma: real, s: int, V: seq<real>) returns (row: seq<real>, bestAction: Action)
    requires IsState(s) && |V| == NumStates
    ensures row == QRow(sc, gamma, s, V)
    ensures bestAction == Greedy(row)
  {
    row := [];
    bestAction := Right;
    var bestValue := NegInfinity;
    for i := 0 to |Actions|
      invariant |row| == i
      invariant forall j :: 0 <= j < i ==> row[j] == Backup(sc, gamma, s, Actions[j], V)
      invariant i == 0 ==> bestValue == NegInfinity
      invariant 0 < i ==> bestAction == Actions[FirstArgmax(row)] && bestValue == Finite(row[FirstArgmax(row)])
    {
      var total := ActionValue(sc, gamma, s, Actions[i], V);
      assert (row + [total])[..i] == row;
      row := row + [total];
      if Above(total, bestValue) {
        bestValue := Finite(total);
        bestAction := Actions[i];
      }
    }
  }

  /** The improvement pass over the states. */
  method ImprovePolicy(sc: Scenario, gamma: real, V: seq<real>, Q0: seq<seq<real>>, pol0: seq<Action>)
    returns (Q: seq<seq<real>>, pol: seq<Action>, stable: bool)
    requires Shaped(V, Q0) && |pol0| == NumStates
    ensures Improvement(Q, pol, stable) == Improve(sc, QTable(sc, gamma, V), Q0, pol0)
  {
    Q, pol, stable := Q0, pol0, true;
    ghost var T := QTable(sc, gamma, V);
    for s := 0 to NumStates
      invariant Improvement(Q, pol, stable) == ImproveUpTo(sc, T, Q0, pol0, s)
    {
      if s != sc.goalState {
        var oldAction := pol[s];
        var row, bestAction := ScoreActions(sc, gamma, s, V);
        Q := Q[s := row];
        pol := pol[s := bestAction];
        if oldAction != bestAction {
          stable := false;
        }
      }
    }
  }

  /** Policy iteration: evaluate, improve, and stop after the first improvement
      pass that changes no action, or after RoundCap rounds. */
  method PolicyIteration(sc: Scenario, gamma: real, evalSweeps: nat)
    returns (V: seq<real>, Q: seq<seq<real>>, pol: seq<Action>, iterations: nat)
    requires IsState(sc.goalState)
    ensures 1 <= iterations <= RoundCap
    ensures var r := PolicyRun(sc, gamma, evalSweeps, iterations); V == r.V && Q == r.Q && pol == r.pol
    ensures PolicyRun(sc, gamma, evalSweeps, iterations).stable || iterations == RoundCap
    ensures forall k :: 1 <= k < iterations ==> !PolicyRun(sc, gamma, evalSweeps, k).stable
    ensures Shaped(V, Q) && |pol| == NumStates
    ensures pol[sc.goalState] == InitialPolicy[sc.goalState]
    ensures V[sc.goalState] == 0.0 && Q[sc.goalState] == ZeroRow
    ensures forall s :: IsState(s) && s != sc.goalState ==> Q[s] == QRow(sc, gamma, s, V) && pol[s] == Greedy(Q[s])
  {
    V, Q, pol := ZeroValues, ZeroQ, InitialPolicy;
    iterations := 0;
    while iterations < RoundCap
      invariant iterations <= RoundCap
      invariant var r := PolicyRun(sc, gamma, evalSweeps, iterations); V == r.V && Q == r.Q && pol == r.pol
      invariant forall k :: 1 <= k <= iterations ==> !PolicyRun(sc, gamma, evalSweeps, k).stable
    {
      iterations := iterations + 1;
      V := EvaluatePolicy(sc, gamma, pol, V, evalSweeps);
      var policyStable;
      Q, pol, policyStable := ImprovePolicy(sc, gamma, V, Q, pol);
      if policyStable {
        break;
      }
    }
    PolicyRunGoal(sc, gamma, evalSweeps, iterations);
    PolicyRunGreedy(sc, gamma, evalSweeps, iterations);
  }

  // ----- Properties of policy iteration -----

  lemma {:induction false} EvalSweepUpToKeepsGoal(sc: Scenario, gamma: real, pol: seq<Action>, V: seq<real>, k: nat)
    requires |V| == NumStates && |pol| == NumStates && k <= NumStates && IsState(sc.goalState)
    ensures EvalSweepUpTo(sc, gamma, pol, V, k).V[sc.goalState] == V[sc.goalState]
  {
    if k > 0 {
      EvalSweepUpToKeepsGoal(sc, gamma, pol, V, k - 1);
    }
  }

  /** Policy evaluation never changes the goal's value. */
  lemma {:induction false} EvaluateKeepsGoal(sc: Scenario, gamma: real, pol: seq<Action>, V: seq<real>, fuel: nat)
    requires |V| == NumStates && |pol| == NumStates && IsState(sc.goalState)
    ensures Evaluate(sc, gamma, pol, V, fuel)[sc.goalState] == V[sc.goalState]
    decreases fuel
  {
    EvalSweepUpToKeepsGoal(sc, gamma, pol, V, NumStates);
    var st := EvalSweep(sc, gamma, pol, V);
    if !(st.delta < Theta || fuel <= 1) {
      EvaluateKeepsGoal(sc, gamma, pol, st.V, fuel - 1);
    }
  }

  /** States the evaluation sweep has not reached yet still hold their old values. */
  lemma {:induction false} EvalSweepUpToLeavesLater(sc: Scenario, gamma: real, pol: seq<Action>, V: seq<real>, k: nat)
    requires |V| == NumStates && |pol| == NumStates && k <= NumStates
    ensures forall t :: k <= t < NumStates ==> EvalSweepUpTo(sc, gamma, pol, V, k).V[t] == V[t]
  {
    if k > 0 {
      EvalSweepUpToLeavesLater(sc, gamma, pol, V, k - 1);
    }
  }

  /** Values the evaluation sweep has written are not written again in the same sweep. */
  lemma {:induction false} EvalSweepUpToKeepsEarlier(sc: Scenario, gamma: real, pol: seq<Action>, V: seq<real>,
                                                     k: nat, m: nat)
    requires |V| == NumStates && |pol| == NumStates && k <= m <= NumStates
    ensures forall t :: 0 <= t < k ==>
              EvalSweepUpTo(sc, gamma, pol, V, m).V[t] == EvalSweepUpTo(sc, gamma, pol, V, k).V[t]
  {
    if k < m {
      EvalSweepUpToKeepsEarlier(sc, gamma, pol, V, k, m - 1);
    }
  }

  /** The in-place read of policy evaluation: the new value of s is the backup
      of pol[s] against the values already written for the states before s and
      the old values of s and the states after it. */
  lemma EvalGaussSeidelReads(sc: Scenario, gamma: real, pol: seq<Action>, V: seq<real>, s: int)
    requires |V| == NumStates && |pol| == NumStates && IsState(s) && s != sc.goalState
    ensures EvalSweep(sc, gamma, pol, V).V[s] ==
              Backup(sc, gamma, s, pol[s], EvalSweep(sc, gamma, pol, V).V[..s] + V[s..])
  {
    var final := EvalSweep(sc, gamma, pol, V);
    var mid := EvalSweepUpTo(sc, gamma, pol, V, s);
    EvalSweepUpToKeepsEarlier(sc, gamma, pol, V, s, NumStates);
    EvalSweepUpToKeepsEarlier(sc, gamma, pol, V, s + 1, NumStates);
    EvalSweepUpToLeavesLater(sc, gamma, pol, V, s);
    assert mid.V == final.V[..s] + V[s..];
  }

  /** An evaluation update writes only V[s] and raises delta to that entry's change. */
  lemma EvalUpdateShape(sc: Scenario, gamma: real, pol: seq<Action>, s: int, st: EvalState)
    requires IsState(s) && |st.V| == NumStates && |pol| == NumStates
    ensures var st' := EvalUpdate(sc, gamma, pol, s, st);
      && st'.V == st.V[s := st'.V[s]]
      && (s == sc.goalState ==> st'.V[s] == st.V[s] && st'.delta == st.delta)
      && (s != sc.goalState ==> st'.delta == RMax(st.delta, Abs(st.V[s] - st'.V[s])))
  {
  }

  /** The evaluation sweep's delta is the largest change of any value it has
      visited, against that value before the sweep. */
  lemma {:induction false} EvalSweepUpToDelta(sc: Scenario, gamma: real, pol: seq<Action>, V: seq<real>, k: nat)
    requires |V| == NumStates && |pol| == NumStates && k <= NumStates
    ensures EvalSweepUpTo(sc, gamma, pol, V, k).delta == MaxChange(V, EvalSweepUpTo(sc, gamma, pol, V, k).V, k)
  {
    if k > 0 {
      var prev := EvalSweepUpTo(sc, gamma, pol, V, k - 1);
      var cur := EvalUpdate(sc, gamma, pol, k - 1, prev);
      EvalSweepUpToDelta(sc, gamma, pol, V, k - 1);
      EvalSweepUpToLeavesLater(sc, gamma, pol, V, k - 1);
      EvalUpdateShape(sc, gamma, pol, k - 1, prev);
      DeltaStep(V, prev.V, prev.delta, cur.V, cur.delta, k - 1, k - 1 == sc.goalState);
    }
  }

  /** The stop test of policy evaluation: a whole sweep's delta is below Theta
      exactly when the sweep moved no value by Theta or more. */
  lemma EvalSweepDelta(sc: Scenario, gamma: real, pol: seq<Action>, V: seq<real>)
    requires |V| == NumStates && |pol| == NumStates
    ensures EvalSweep(sc, gamma, pol, V).delta < Theta <==>
              forall t :: IsState(t) ==> Abs(V[t] - EvalSweep(sc, gamma, pol, V).V[t]) < Theta
  {
    EvalSweepUpToDelta(sc, gamma, pol, V, NumStates);
    MaxChangeBelow(V, EvalSweep(sc, gamma, pol, V).V, NumStates);
  }

  /** The goal's entries and the states an improvement pass has not reached are untouched. */
  lemma {:induction false} ImproveUpToFrame(sc: Scenario, T: seq<seq<real>>, Q: seq<seq<real>>,
                                            pol: seq<Action>, k: nat, t: int)
    requires IsTable(T) && IsTable(Q) && |pol| == NumStates && k <= NumStates
    requires 0 <= t < NumStates && (t >= k || t == sc.goalState)
    ensures ImproveUpTo(sc, T, Q, pol, k).Q[t] == Q[t]
    ensures ImproveUpTo(sc, T, Q, pol, k).pol[t] == pol[t]
  {
    if k > 0 {
      ImproveUpToFrame(sc, T, Q, pol, k - 1, t);
    }
  }

  /** A visited non-goal state holds its row of T and the greedy action of that row. */
  lemma {:induction false} ImproveUpToVisited(sc: Scenario, T: seq<seq<real>>, Q: seq<seq<real>>,
                                              pol: seq<Action>, k: nat, t: int)
    requires IsTable(T) && IsTable(Q) && |pol| == NumStates && k <= NumStates
    requires 0 <= t < k && t != sc.goalState
    ensures ImproveUpTo(sc, T, Q, pol, k).Q[t] == T[t]
    ensures ImproveUpTo(sc, T, Q, pol, k).pol[t] == Greedy(T[t])
  {
    if t < k - 1 {
      ImproveUpToVisited(sc, T, Q, pol, k - 1, t);
    }
  }

  /** The pass is stable exactly when every visited non-goal state already held its greedy action. */
  lemma {:induction false} ImproveUpToStable(sc: Scenario, T: seq<seq<real>>, Q: seq<seq<real>>,
                                             pol: seq<Action>, k: nat)
    requires IsTable(T) && IsTable(Q) && |pol| == NumStates && k <= NumStates
    ensures ImproveUpTo(sc, T, Q, pol, k).stable <==>
              forall t :: 0 <= t < k && t != sc.goalState ==> pol[t] == Greedy(T[t])
  {
    if k > 0 {
      ImproveUpToStable(sc, T, Q, pol, k - 1);
      if k - 1 != sc.goalState {
        ImproveUpToFrame(sc, T, Q, pol, k - 1, k - 1);
      }
    }
  }

  /** An improvement pass is stable exactly when it leaves the policy as it was. */
  lemma ImproveStableIff(sc: Scenario, T: seq<seq<real>>, Q: seq<seq<real>>, pol: seq<Action>)
    requires IsTable(T) && IsTable(Q) && |pol| == NumStates
    ensures Improve(sc, T, Q, pol).stable <==> Improve(sc, T, Q, pol).pol == pol
  {
    var im := Improve(sc, T, Q, pol);
    forall t | 0 <= t < NumStates
      ensures t == sc.goalState ==> im.pol[t] == pol[t]
      ensures t != sc.goalState ==> im.pol[t] == Greedy(T[t])
    {
      if t == sc.goalState {
        ImproveUpToFrame(sc, T, Q, pol, NumStates, t);
      } else {
        ImproveUpToVisited(sc, T, Q, pol, NumStates, t);
      }
    }
    ImproveUpToStable(sc, T, Q, pol, NumStates);
    if im.pol == pol {
      forall t | 0 <= t < NumStates && t != sc.goalState
        ensures pol[t] == Greedy(T[t])
      {
        assert im.pol[t] == pol[t];
      }
    }
    if im.stable {
      assert forall t :: 0 <= t < NumStates ==> im.pol[t] == pol[t];
    }
  }

  /** A round is stable exactly when its improvement pass left the policy as it was. */
  lemma RoundStableIff(sc: Scenario, gamma: real, evalSweeps: nat, n: nat)
    requires n >= 1
    ensures PolicyRun(sc, gamma, evalSweeps, n).stable <==>
              PolicyRun(sc, gamma, evalSweeps, n).pol == PolicyRun(sc, gamma, evalSweeps, n - 1).pol
  {
    var prev := PolicyRun(sc, gamma, evalSweeps, n - 1);
    var V := Evaluate(sc, gamma, prev.pol, prev.V, evalSweeps);
    ImproveStableIff(sc, QTable(sc, gamma, V), prev.Q, prev.pol);
  }

  /** The goal's value and Q row stay zero and its policy entry is never written. */
  lemma {:induction false} PolicyRunGoal(sc: Scenario, gamma: real, evalSweeps: nat, n: nat)
    requires IsState(sc.goalState)
    ensures PolicyRun(sc, gamma, evalSweeps, n).V[sc.goalState] == 0.0
    ensures PolicyRun(sc, gamma, evalSweeps, n).Q[sc.goalState] == ZeroRow
    ensures PolicyRun(sc, gamma, evalSweeps, n).pol[sc.goalState] == InitialPolicy[sc.goalState]
  {
    if n > 0 {
      PolicyRunGoal(sc, gamma, evalSweeps, n - 1);
      PolicyRoundKeepsGoal(sc, gamma, evalSweeps, PolicyRun(sc, gamma, evalSweeps, n - 1));
    }
  }

  /** A round leaves the goal's value, Q row and policy entry as they were. */
  lemma PolicyRoundKeepsGoal(sc: Scenario, gamma: real, evalSweeps: nat, prev: Round)
    requires IsState(sc.goalState) && Shaped(prev.V, prev.Q) && |prev.pol| == NumStates
    ensures var r := PolicyRound(sc, gamma, evalSweeps, prev);
      r.V[sc.goalState] == prev.V[sc.goalState] && r.Q[sc.goalState] == prev.Q[sc.goalState] &&
      r.pol[sc.goalState] == prev.pol[sc.goalState]
  {
    var V := Evaluate(sc, gamma, prev.pol, prev.V, evalSweeps);
    EvaluateKeepsGoal(sc, gamma, prev.pol, prev.V, evalSweeps);
    ImproveUpToFrame(sc, QTable(sc, gamma, V), prev.Q, prev.pol, NumStates, sc.goalState);
  }

  /** After a round, Q is the Q table of the evaluated V and the policy is greedy in it. */
  lemma PolicyRunGreedy(sc: Scenario, gamma: real, evalSweeps: nat, n: nat)
    requires n >= 1
    ensures var r := PolicyRun(sc, gamma, evalSweeps, n);
      forall s :: IsState(s) && s != sc.goalState ==> r.Q[s] == QRow(sc, gamma, s, r.V) && r.pol[s] == Greedy(r.Q[s])
  {
    var prev := PolicyRun(sc, gamma, evalSweeps, n - 1);
    var V := Evaluate(sc, gamma, prev.pol, prev.V, evalSweeps);
    forall s | IsState(s) && s != sc.goalState
      ensures PolicyRun(sc, gamma, evalSweeps, n).Q[s] == QTable(sc, gamma, V)[s]
      ensures PolicyRun(sc, gamma, evalSweeps, n).pol[s] == Greedy(QTable(sc, gamma, V)[s])
    {
      ImproveUpToVisited(sc, QTable(sc, gamma, V), prev.Q, prev.pol, NumStates, s);
    }
  }
}
