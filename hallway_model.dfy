/** The robot-hallway Markov decision process: four positions 0..3, two
    moves, an absorbing goal, and a slip model in which a move succeeds with
    probability 0.8 and otherwise leaves the robot where it was.  The active
    world is a Scenario record; the six worlds of the application form the
    catalog below. */
module HallwayModel {

  /** Positions are 0 .. NumStates - 1. */
  const NumStates: int := 4
  const LastState: int := NumStates - 1

  predicate IsState(s: int) {
    0 <= s < NumStates
  }

  /** A policy entry: one of the two moves, or the marker stored for the goal. */
  datatype Action = Left | Right | Terminal

  /** The moves the solvers enumerate, in this order; on a tie the first wins. */
  const Actions: seq<Action> := [Left, Right]

  const SuccessProb: real := 0.8
  const SlipProb: real := 0.2
  const StepCost: real := -1.0
  /** Reward for arriving at the goal when the scenario gives none (or zero). */
  const DefaultGoalReward: real := 10.0

  /** A world: where the goal is, and the bonus and penalty entries by position. */
  datatype Scenario = Scenario(
    name: string,
    description: string,
    goalState: int,
    rewards: map<int, real>,
    hazards: map<int, real>)

  /** Every reward and hazard entry, and the goal, is a position of the hallway. */
  predicate WellFormed(sc: Scenario) {
    && IsState(sc.goalState)
    && (forall k :: k in sc.rewards ==> IsState(k))
    && (forall k :: k in sc.hazards ==> IsState(k))
  }

  datatype ScenarioId = GoalRight | GoalLeft | MiddleTreasure | AvoidHazard | TwoGoals | ExpensivePath

  function Catalog(id: ScenarioId): (sc: Scenario)
    ensures WellFormed(sc)
    ensures sc.goalState in sc.rewards && sc.rewards[sc.goalState] == DefaultGoalReward
  {
    match id
    case GoalRight =>
      Scenario("Goal on Right", "Charging station at position 3", 3, map[3 := 10.0], map[])
    case GoalLeft =>
      Scenario("Goal on Left", "Charging station at position 0", 0, map[0 := 10.0], map[])
    case MiddleTreasure =>
      Scenario("Middle Treasure", "Treasure at position 1, goal at position 3", 3,
               map[1 := 5.0, 3 := 10.0], map[])
    case AvoidHazard =>
      Scenario("Avoid Hazard", "Hazard at position 2, goal at position 3", 3,
               map[3 := 10.0], map[2 := -8.0])
    case TwoGoals =>
      Scenario("Two Goals", "Small reward at 0 (+3), big reward at 3 (+10)", 3,
               map[0 := 3.0, 3 := 10.0], map[])
    case ExpensivePath =>
      Scenario("Expensive Path", "High cost through position 2 (-5)", 3,
               map[3 := 10.0], map[2 := -5.0])
  }

  function Min(x: int, y: int): int {
    if x <= y then x else y
  }

  function Max(x: int, y: int): int {
    if x >= y then x else y
  }

  /** Where a move is aimed: one step right for Right, one step left for any
      other entry (Terminal included), clamped at both ends of the hallway. */
  function Intended(s: int, a: Action): (t: int)
    ensures IsState(s) ==> IsState(t)
    ensures IsState(s) && a == Right ==> t == (if s == LastState then s else s + 1)
    ensures IsState(s) && a != Right ==> t == (if s == 0 then s else s - 1)
  {
    if a == Right then Min(s + 1, LastState) else Max(s - 1, 0)
  }

  /** Sum of the probabilities of the first k entries of a transition list. */
  function PrefixMass(ts: seq<(int, real)>, k: nat): real
    requires k <= |ts|
  {
    if k == 0 then 0.0 else PrefixMass(ts, k - 1) + ts[k - 1].1
  }

  function Mass(ts: seq<(int, real)>): real {
    PrefixMass(ts, |ts|)
  }

  /** The successor distribution of taking a in s: the goal absorbs; elsewhere
      the move reaches its intended position with 0.8 and slips with 0.2. */
  function Transition(sc: Scenario, s: int, a: Action): (ts: seq<(int, real)>)
    ensures Mass(ts) == 1.0
    ensures forall i :: 0 <= i < |ts| ==> 0.0 < ts[i].1
    ensures IsState(s) ==> forall i :: 0 <= i < |ts| ==> IsState(ts[i].0)
  {
    if s == sc.goalState then
      assert PrefixMass([(s, 1.0)], 0) == 0.0;
      [(s, 1.0)]
    else
      var ts := [(Intended(s, a), SuccessProb), (s, SlipProb)];
      assert PrefixMass(ts, 1) == SuccessProb by {
        assert PrefixMass(ts, 0) == 0.0;
      }
      ts
  }

  /** Truthiness of a lookup: an absent entry and a zero entry both count as missing. */
  predicate HasEntry(m: map<int, real>, k: int) {
    k in m && m[k] != 0.0
  }

  /** Reward for arriving at next; the leaving state and the action are ignored. */
  function Reward(sc: Scenario, s: int, a: Action, next: int): (r: real)
    ensures r != 0.0
    ensures r == DefaultGoalReward || r == StepCost || r in sc.rewards.Values || r in sc.hazards.Values
  {
    if next == sc.goalState then
      (if HasEntry(sc.rewards, next) then sc.rewards[next] else DefaultGoalReward)
    else if HasEntry(sc.rewards, next) then sc.rewards[next]
    else if HasEntry(sc.hazards, next) then sc.hazards[next]
    else StepCost
  }

  /** Expected one-step return summed over the first k entries of ts. */
  function BackupPrefix(sc: Scenario, gamma: real, s: int, a: Action,
                        ts: seq<(int, real)>, V: seq<real>, k: nat): real
    requires k <= |ts| && |V| == NumStates
    requires forall i :: 0 <= i < |ts| ==> IsState(ts[i].0)
  {
    if k == 0 then 0.0
    else
      var (next, p) := ts[k - 1];
      BackupPrefix(sc, gamma, s, a, ts, V, k - 1) + p * (Reward(sc, s, a, next) + gamma * V[next])
  }

  /** The Bellman backup: sum of p * (reward + gamma * V[next]) over the transitions of (s, a). */
  function Backup(sc: Scenario, gamma: real, s: int, a: Action, V: seq<real>): real
    requires IsState(s) && |V| == NumStates
  {
    var ts := Transition(sc, s, a);
    BackupPrefix(sc, gamma, s, a, ts, V, |ts|)
  }

  // ----- Properties of the model -----

  lemma TransitionAbsorbs(sc: Scenario, a: Action)
    ensures Transition(sc, sc.goalState, a) == [(sc.goalState, 1.0)]
  {
  }

  /** Off the goal the list is exactly [(intended, 0.8), (s, 0.2)]. */
  lemma TransitionSlips(sc: Scenario, s: int, a: Action)
    requires IsState(s) && s != sc.goalState
    ensures Transition(sc, s, a) == [(Intended(s, a), 0.8), (s, 0.2)]
    ensures IsState(Intended(s, a))
    ensures s == 0 && a != Right ==> Intended(s, a) == 0
    ensures s == LastState && a == Right ==> Intended(s, a) == LastState
  {
  }

  /** The reward is a function of the arrival position alone. */
  lemma RewardIgnoresOrigin(sc: Scenario, s1: int, a1: Action, s2: int, a2: Action, next: int)
    ensures Reward(sc, s1, a1, next) == Reward(sc, s2, a2, next)
  {
  }

  /** Arriving at the goal pays its reward entry, or 10 when that entry is absent or zero. */
  lemma GoalReward(sc: Scenario, s: int, a: Action)
    ensures HasEntry(sc.rewards, sc.goalState) ==> Reward(sc, s, a, sc.goalState) == sc.rewards[sc.goalState]
    ensures !HasEntry(sc.rewards, sc.goalState) ==> Reward(sc, s, a, sc.goalState) == DefaultGoalReward
  {
  }

  /** Off the goal a bonus entry wins over a hazard entry, a hazard over the step cost. */
  lemma RewardPriority(sc: Scenario, s: int, a: Action, next: int)
    requires next != sc.goalState
    ensures HasEntry(sc.rewards, next) ==> Reward(sc, s, a, next) == sc.rewards[next]
    ensures !HasEntry(sc.rewards, next) && HasEntry(sc.hazards, next) ==>
              Reward(sc, s, a, next) == sc.hazards[next]
    ensures !HasEntry(sc.rewards, next) && !HasEntry(sc.hazards, next) ==>
              Reward(sc, s, a, next) == StepCost
  {
  }

  /** The backup written out: the goal pays its arrival reward on itself; elsewhere
      the success branch weighs 0.8 and the slip branch 0.2. */
  lemma {:induction false} BackupClosedForm(sc: Scenario, gamma: real, s: int, a: Action, V: seq<real>)
    requires IsState(s) && |V| == NumStates
    ensures s == sc.goalState ==>
              Backup(sc, gamma, s, a, V) == Reward(sc, s, a, s) + gamma * V[s]
    ensures s != sc.goalState ==>
              var t := Intended(s, a);
              Backup(sc, gamma, s, a, V) ==
                0.8 * (Reward(sc, s, a, t) + gamma * V[t]) + 0.2 * (Reward(sc, s, a, s) + gamma * V[s])
  {
    var ts := Transition(sc, s, a);
    assert BackupPrefix(sc, gamma, s, a, ts, V, 0) == 0.0;
    if s != sc.goalState {
      assert BackupPrefix(sc, gamma, s, a, ts, V, 1) == 0.8 * (Reward(sc, s, a, ts[0].0) + gamma * V[ts[0].0]);
    }
  }

  /** In every catalog world, reaching the goal pays 10. */
  lemma CatalogGoalReward(id: ScenarioId, s: int, a: Action)
    ensures Reward(Catalog(id), s, a, Catalog(id).goalState) == 10.0
  {
  }
}
