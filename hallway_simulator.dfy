/** The one-step simulator of the hallway: the robot follows the policy, the
    successor is drawn from the transition list by inverse-CDF sampling with
    a draw u supplied by the caller, and every step is appended to the
    trajectory together with its reward. */
module HallwaySimulator {
  import opened HallwayModel

  // ----- Inverse-CDF sampling -----

  /** The first index j >= i whose running mass PrefixMass(ts, j + 1) reaches u
      or |ts| when there is none. */
  function Pick(ts: seq<(int, real)>, u: real, i: nat): (j: nat)
    requires i <= |ts|
    ensures i <= j <= |ts|
    ensures j < |ts| ==> u <= PrefixMass(ts, j + 1)
    ensures forall m :: i < m <= j ==> u > PrefixMass(ts, m)
    decreases |ts| - i
  {
    if i == |ts| then i
    else if u <= PrefixMass(ts, i + 1) then i
    else Pick(ts, u, i + 1)
  }

  /** The successor the scan selects; stay is kept when no entry qualifies. */
  function Sampled(ts: seq<(int, real)>, u: real, stay: int): int {
    var j := Pick(ts, u, 0);
    if j < |ts| then ts[j].0 else stay
  }

  /** The scan: accumulate the probabilities and stop at the first entry
      whose cumulative probability is at least u. */
  method SampleNext(ts: seq<(int, real)>, u: real, stay: int) returns (next: int)
    ensures next == Sampled(ts, u, stay)
  {
    var cumProb := 0.0;
    next := stay;
    var i := 0;
    while i < |ts|
      invariant 0 <= i <= |ts|
      invariant cumProb == PrefixMass(ts, i)
      invariant Pick(ts, u, 0) == Pick(ts, u, i)
      decreases |ts| - i
    {
      var (ns, prob) := ts[i];
      cumProb := cumProb + prob;
      if u <= cumProb {
        next := ns;
        return;
      }
      i := i + 1;
    }
  }

  /** Off the goal a draw up to 0.8 reaches the intended position and any other
      draw leaves the robot in place; at the goal every draw stays. */
  lemma {:induction false} SampledTransition(sc: Scenario, s: int, a: Action, u: real)
    requires IsState(s)
    ensures s != sc.goalState ==>
              Sampled(Transition(sc, s, a), u, s) == (if u <= SuccessProb then Intended(s, a) else s)
    ensures s == sc.goalState ==> Sampled(Transition(sc, s, a), u, s) == s
  {
    var ts := Transition(sc, s, a);
    assert PrefixMass(ts, 0) == 0.0;
    if s != sc.goalState {
      assert PrefixMass(ts, 1) == SuccessProb;
      if u > SuccessProb {
        assert Pick(ts, u, 0) == Pick(ts, u, 1);
      }
    }
  }

  /** The sampled successor of an in-range position is in range. */
  lemma SampledInRange(sc: Scenario, s: int, a: Action, u: real)
    requires IsState(s)
    ensures IsState(Sampled(Transition(sc, s, a), u, s))
  {
    SampledTransition(sc, s, a, u);
  }

  // ----- The trajectory -----

  /** One entry of the history panel. */
  datatype StepRecord = StepRecord(step: int, from: int, action: Action, to: int, reward: real, wasMoved: bool)

  /** Sum of the rewards of a trajectory, accumulated left to right. */
  function RewardSum(h: seq<StepRecord>): real {
    if |h| == 0 then 0.0 else RewardSum(h[..|h| - 1]) + h[|h| - 1].reward
  }

  /** The stats fold: the number of records in which the robot did not move. */
  function StuckCount(h: seq<StepRecord>): nat {
    if |h| == 0 then 0
    else StuckCount(h[..|h| - 1]) + (if !h[|h| - 1].wasMoved then 1 else 0)
  }

  function UnmovedSteps(h: seq<StepRecord>): set<int> {
    set i | 0 <= i < |h| && !h[i].wasMoved
  }

  /** The fold counts exactly the records whose wasMoved flag is false. */
  lemma {:induction false} StuckCountIsUnmoved(h: seq<StepRecord>)
    ensures StuckCount(h) == |UnmovedSteps(h)|
    ensures StuckCount(h) <= |h|
  {
    if |h| > 0 {
      var n := |h| - 1;
      var init := h[..n];
      StuckCountIsUnmoved(init);
      assert UnmovedSteps(init) == set i | 0 <= i < n && !h[i].wasMoved;
      if h[n].wasMoved {
        assert UnmovedSteps(h) == UnmovedSteps(init);
      } else {
        assert UnmovedSteps(h) == UnmovedSteps(init) + {n};
        assert n !in UnmovedSteps(init);
      }
    }
  }

  /** Appending one record raises the count by one exactly when the robot stayed. */
  lemma StuckCountAppend(h: seq<StepRecord>, e: StepRecord)
    ensures StuckCount(h + [e]) == StuckCount(h) + (if e.wasMoved then 0 else 1)
  {
    assert (h + [e])[..|h|] == h;
  }

  /** A trajectory as the simulator builds it: numbered from 0, each record's
      flag says whether it moved, and each step starts where the previous one ended. */
  ghost predicate Trajectory(h: seq<StepRecord>) {
    && (forall i :: 0 <= i < |h| ==> h[i].step == i && IsState(h[i].from) && IsState(h[i].to))
    && (forall i :: 0 <= i < |h| ==> h[i].wasMoved == (h[i].to != h[i].from))
    && (forall i :: 0 < i < |h| ==> h[i].from == h[i - 1].to)
  }

  /** The simulation state of the application: position, running flag,
      history, step counter and accumulated reward. */
  class Simulator {
    var position: int
    var running: bool
    var history: seq<StepRecord>
    var stepCount: int
    var totalReward: real

    ghost predicate Valid()
      reads this
    {
      && IsState(position)
      && Trajectory(history)
      && stepCount == |history|
      && totalReward == RewardSum(history)
      && (|history| > 0 ==> history[|history| - 1].to == position)
    }

    /** The initial state: at position 0, stopped, nothing recorded. */
    constructor ()
      ensures Valid()
      ensures position == 0 && !running && history == [] && stepCount == 0 && totalReward == 0.0
    {
      position := 0;
      running := false;
      history := [];
      stepCount := 0;
      totalReward := 0.0;
    }

    /** One tick: at the goal only the running flag is cleared; elsewhere the
        policy's action is taken, the successor is sampled with u, and one
        record is appended. */
    method Step(sc: Scenario, pol: seq<Action>, u: real)
      requires Valid() && |pol| == NumStates
      modifies this
      ensures Valid()
      ensures old(position) == sc.goalState ==>
                !running && position == old(position) && history == old(history) &&
                stepCount == old(stepCount) && totalReward == old(totalReward)
      ensures old(position) != sc.goalState ==>
                var a := pol[old(position)];
                var to := Sampled(Transition(sc, old(position), a), u, old(position));
                var r := Reward(sc, old(position), a, to);
                && position == to
                && running == old(running)
                && history == old(history) + [StepRecord(old(stepCount), old(position), a, to, r, to != old(position))]
                && stepCount == old(stepCount) + 1
                && totalReward == old(totalReward) + r
    {
      if position == sc.goalState {
        running := false;
        return;
      }
      var action := pol[position];
      var transitions := Transition(sc, position, action);
      var nextState := SampleNext(transitions, u, position);
      SampledInRange(sc, position, action, u);
      var r := Reward(sc, position, action, nextState);
      var entry := StepRecord(stepCount, position, action, nextState, r, nextState != position);
      assert (history + [entry])[..|history|] == history;
      history := history + [entry];
      position := nextState;
      stepCount := stepCount + 1;
      totalReward := totalReward + r;
    }

    /** Put the robot at p, stop, and clear the history and both counters. */
    method Reset(p: int)
      requires IsState(p)
      modifies this
      ensures Valid()
      ensures position == p && !running && history == [] && stepCount == 0 && totalReward == 0.0
    {
      position := p;
      running := false;
      history := [];
      stepCount := 0;
      totalReward := 0.0;
    }

    /** Start or pause the run; at the goal nothing changes. */
    method ToggleRunning(sc: Scenario)
      requires Valid()
      modifies this
      ensures Valid()
      ensures running == (if old(position) == sc.goalState then old(running) else !old(running))
      ensures position == old(position) && history == old(history)
      ensures stepCount == old(stepCount) && totalReward == old(totalReward)
    {
      if position == sc.goalState {
        return;
      }
      running := !running;
    }
  }

  /** Whether a step off the goal leaves the robot stuck: the draw exceeded 0.8,
      or the move was aimed into the wall. */
  lemma StepStuckIff(sc: Scenario, s: int, a: Action, u: real)
    requires IsState(s) && s != sc.goalState
    ensures Sampled(Transition(sc, s, a), u, s) == s <==> u > SuccessProb || Intended(s, a) == s
  {
    SampledTransition(sc, s, a, u);
  }
}
