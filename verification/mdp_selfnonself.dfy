/** The infection environment `SelfNonselfMDP` (lib/mdps.py): one healthy
    (state, action) pair, one pair per pathogen, and a current state that is
    either healthy or infected by one pathogen. */
module SelfNonselfMdp {
  import opened Utils
  import opened Results

  /** The `State(is_pathogenic, pathogen_idx)` pair of lib/mdps.py; the NaN that
      marks "no pathogen" is `None`. */
  datatype State = State(isPathogenic: bool, pathogenIdx: Option<nat>)

  const Healthy: State := State(false, None)

  datatype Mdp = Mdp(
    nonpathogenicState: Bits,
    pathogenicStates: seq<Bits>,
    nonpathogenicAction: Bits,
    pathogenicActions: seq<Bits>,
    curState: State,
    infectionRate: real,
    dimState: nat,
    dimAction: nat)

  /** A pathogen index is present exactly when the state is infected, and
      then it names one of the `nPathogen` pathogens. */
  ghost predicate WellFormed(s: State, nPathogen: nat) {
    && (s.pathogenIdx.Some? <==> s.isPathogenic)
    && (s.pathogenIdx.Some? ==> s.pathogenIdx.value < nPathogen)
  }

  ghost predicate Valid(m: Mdp) {
    && |m.nonpathogenicState| == m.dimState
    && |m.nonpathogenicAction| == m.dimAction
    && BitTable(m.pathogenicStates, |m.pathogenicStates|, m.dimState)
    && BitTable(m.pathogenicActions, |m.pathogenicStates|, m.dimAction)
    && WellFormed(m.curState, |m.pathogenicStates|)
  }

  /** The tables of an environment are those of another one: only the
      current state may differ. */
  ghost predicate SameTables(m: Mdp, m': Mdp) {
    && m'.nonpathogenicState == m.nonpathogenicState
    && m'.pathogenicStates == m.pathogenicStates
    && m'.nonpathogenicAction == m.nonpathogenicAction
    && m'.pathogenicActions == m.pathogenicActions
    && m'.infectionRate == m.infectionRate
    && m'.dimState == m.dimState
    && m'.dimAction == m.dimAction
  }

  /** The constructor: the random tables are its inputs, and the
      environment starts healthy. */
  function New(nonpathogenicState: Bits, pathogenicStates: seq<Bits>,
               nonpathogenicAction: Bits, pathogenicActions: seq<Bits>,
               infectionRate: real, dimState: nat, dimAction: nat): (m: Mdp)
    requires |nonpathogenicState| == dimState && |nonpathogenicAction| == dimAction
    requires BitTable(pathogenicStates, |pathogenicStates|, dimState)
    requires BitTable(pathogenicActions, |pathogenicStates|, dimAction)
    ensures Valid(m)
    ensures !m.curState.isPathogenic && m.curState.pathogenIdx.None?
    ensures m.pathogenicStates == pathogenicStates && m.pathogenicActions == pathogenicActions
    ensures m.nonpathogenicState == nonpathogenicState && m.nonpathogenicAction == nonpathogenicAction
    ensures m.infectionRate == infectionRate
  {
    Mdp(nonpathogenicState, pathogenicStates, nonpathogenicAction, pathogenicActions,
        Healthy, infectionRate, dimState, dimAction)
  }

  /** `initial_state`: the state vector of the current state, the infecting
      pathogen's row or the healthy row. */
  function InitialState(m: Mdp): (s: Bits)
    requires Valid(m)
    ensures |s| == m.dimState
    ensures m.curState.isPathogenic ==> s == m.pathogenicStates[m.curState.pathogenIdx.value]
    ensures !m.curState.isPathogenic ==> s == m.nonpathogenicState
  {
    if m.curState.isPathogenic then m.pathogenicStates[m.curState.pathogenIdx.value]
    else m.nonpathogenicState
  }

  /** `optimal_action`: the action vector that is currently effective. */
  function OptimalAction(m: Mdp): (a: Bits)
    requires Valid(m)
    ensures |a| == m.dimAction
    ensures m.curState.isPathogenic ==> a == m.pathogenicActions[m.curState.pathogenIdx.value]
    ensures !m.curState.isPathogenic ==> a == m.nonpathogenicAction
  {
    if m.curState.isPathogenic then m.pathogenicActions[m.curState.pathogenIdx.value]
    else m.nonpathogenicAction
  }

  /** Whether the uniform draw `u` eliminates a pathogen matched on `score`
      of `dimAction` bits: `u < score / dim_action`. With no action bits the
      ratio is 0/0, a NaN that no comparison satisfies. */
  function Eliminates(score: nat, dimAction: nat, u: real): bool
  {
    dimAction > 0 && u < score as real / dimAction as real
  }

  /** `next_state`. Infected: the pathogen is eliminated with probability
      (matching score with its action) / dim_action, otherwise it stays.
      Healthy: infection by pathogen `pick` with probability
      `infection_rate`, otherwise healthy again. `u` is the uniform draw of
      `np.random.rand()` and `pick` that of `np.random.choice(n_pathogen)`,
      which must name a pathogen whenever it is used. */
  function NextState(m: Mdp, action: Bits, u: real, pick: nat): (r: (Mdp, Bits))
    requires Valid(m) && |action| == m.dimAction
    requires 0.0 <= u < 1.0
    requires !m.curState.isPathogenic && u < m.infectionRate ==> pick < |m.pathogenicStates|
    ensures Valid(r.0) && SameTables(m, r.0)
    ensures r.1 == InitialState(r.0)
    // infected: elimination or the same pathogen
    ensures m.curState.isPathogenic ==>
      var score := MatchingScore(m.pathogenicActions[m.curState.pathogenIdx.value], action);
      && (r.0.curState.isPathogenic <==> !Eliminates(score, m.dimAction, u))
      && (r.0.curState.isPathogenic ==> r.0.curState == m.curState)
    // healthy: infection by `pick`, or healthy again
    ensures !m.curState.isPathogenic ==>
      && (r.0.curState.isPathogenic <==> u < m.infectionRate)
      && (r.0.curState.isPathogenic ==> r.0.curState.pathogenIdx == Some(pick))
    ensures !r.0.curState.isPathogenic ==> r.0.curState == Healthy
  {
    if m.curState.isPathogenic then
      var score := MatchingScore(m.pathogenicActions[m.curState.pathogenIdx.value], action);
      if Eliminates(score, m.dimAction, u) then
        (m.(curState := Healthy), m.nonpathogenicState)
      else
        (m, m.pathogenicStates[m.curState.pathogenIdx.value])
    else if u < m.infectionRate then
      var m' := m.(curState := State(true, Some(pick)));
      (m', m'.pathogenicStates[pick])
    else
      (m.(curState := Healthy), m.nonpathogenicState)
  }

  /** An action that matches the pathogen's action on every bit always
      eliminates it when there is at least one action bit (with none, the
      ratio is a NaN and nothing is eliminated); one that matches it nowhere
      never does. */
  lemma EliminationExtremes(m: Mdp, action: Bits, u: real, pick: nat)
    requires Valid(m) && |action| == m.dimAction
    requires 0.0 <= u < 1.0
    requires m.curState.isPathogenic
    ensures action == m.pathogenicActions[m.curState.pathogenIdx.value] && m.dimAction > 0 ==>
      NextState(m, action, u, pick).0.curState == Healthy
    ensures action == Not(m.pathogenicActions[m.curState.pathogenIdx.value]) ==>
      NextState(m, action, u, pick).0.curState == m.curState
  {
    var target := m.pathogenicActions[m.curState.pathogenIdx.value];
    if action == target && m.dimAction > 0 {
      MatchingScoreSelf(target);
      assert m.dimAction as real / m.dimAction as real == 1.0;
      assert Eliminates(MatchingScore(target, action), m.dimAction, u);
    }
    if action == Not(target) {
      MatchingScoreComplement(target);
      assert !Eliminates(MatchingScore(target, action), m.dimAction, u);
    }
  }

  /** A zero infection rate never infects; a rate of one always does. */
  lemma InfectionRateExtremes(m: Mdp, action: Bits, u: real, pick: nat)
    requires Valid(m) && |action| == m.dimAction
    requires 0.0 <= u < 1.0
    requires !m.curState.isPathogenic
    requires m.infectionRate >= 1.0 ==> pick < |m.pathogenicStates|
    ensures m.infectionRate <= 0.0 ==> NextState(m, action, u, pick).0.curState == Healthy
    ensures m.infectionRate >= 1.0 ==> NextState(m, action, u, pick).0.curState == State(true, Some(pick))
  {
  }

  /** `optimal_reward`: the action dimension. */
  function OptimalReward(m: Mdp): nat
  {
    m.dimAction
  }

  /** `reward`: the matching score between the action and the effective
      action, the infecting pathogen's action row or the healthy action. */
  function Reward(m: Mdp, action: Bits): (r: nat)
    requires Valid(m) && |action| == m.dimAction
    ensures r <= OptimalReward(m)
  {
    var effective :=
      if m.curState.isPathogenic then m.pathogenicActions[m.curState.pathogenIdx.value]
      else m.nonpathogenicAction;
    MatchingScore(effective, action)
  }

  /** The optimal action earns the optimal reward, and only it does. */
  lemma OptimalActionEarnsOptimalReward(m: Mdp, action: Bits)
    requires Valid(m) && |action| == m.dimAction
    ensures Reward(m, OptimalAction(m)) == OptimalReward(m)
    ensures Reward(m, action) == OptimalReward(m) <==> action == OptimalAction(m)
  {
    if m.curState.isPathogenic {
      var effective := m.pathogenicActions[m.curState.pathogenIdx.value];
      MatchingScoreSelf(effective);
      MatchingScoreExtremes(effective, action);
    } else {
      MatchingScoreSelf(m.nonpathogenicAction);
      MatchingScoreExtremes(m.nonpathogenicAction, action);
    }
  }

  /** A fresh environment observes and asks for the healthy vectors: its
      first observation is the non-pathogenic state, its optimal action is
      the non-pathogenic action, and only that action earns the full
      reward. */
  lemma NewStartsHealthy(nonpathogenicState: Bits, pathogenicStates: seq<Bits>,
                         nonpathogenicAction: Bits, pathogenicActions: seq<Bits>,
                         infectionRate: real, dimState: nat, dimAction: nat, action: Bits)
    requires |nonpathogenicState| == dimState && |nonpathogenicAction| == dimAction
    requires BitTable(pathogenicStates, |pathogenicStates|, dimState)
    requires BitTable(pathogenicActions, |pathogenicStates|, dimAction)
    requires |action| == dimAction
    ensures var m := New(nonpathogenicState, pathogenicStates, nonpathogenicAction, pathogenicActions,
                         infectionRate, dimState, dimAction);
      && InitialState(m) == nonpathogenicState
      && OptimalAction(m) == nonpathogenicAction
      && Reward(m, action) == MatchingScore(nonpathogenicAction, action)
      && (Reward(m, action) == dimAction <==> action == nonpathogenicAction)
  {
    var m := New(nonpathogenicState, pathogenicStates, nonpathogenicAction, pathogenicActions,
                 infectionRate, dimState, dimAction);
    OptimalActionEarnsOptimalReward(m, action);
  }
}
