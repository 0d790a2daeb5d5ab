/** The adversarial environment `BinaryMDP` (lib/mdps.py): a fixed table of
    key (state, action) pairs and the index of the current key. After every
    action the environment moves towards the keys whose optimal action the
    agent's action exposes the most. */
module BinaryMdp {
  import opened Utils

  datatype Mdp = Mdp(
    keyStates: seq<Bits>,
    keyActions: seq<Bits>,
    curStateIdx: nat,
    dimState: nat,
    dimAction: nat)

  /** The table has at least one key, every row has its declared width, and
      the current index points into the table. */
  ghost predicate Valid(m: Mdp) {
    && |m.keyStates| > 0
    && BitTable(m.keyStates, |m.keyStates|, m.dimState)
    && BitTable(m.keyActions, |m.keyStates|, m.dimAction)
    && m.curStateIdx < |m.keyStates|
  }

  /** The constructor: the tables and the starting index are its random
      draws. `randint(0, n_key_states)` raises when there is no key, so at
      least one key is required. */
  function New(keyStates: seq<Bits>, keyActions: seq<Bits>, idx: nat, dimState: nat, dimAction: nat): (m: Mdp)
    requires |keyStates| > 0
    requires BitTable(keyStates, |keyStates|, dimState)
    requires BitTable(keyActions, |keyStates|, dimAction)
    requires idx < |keyStates|
    ensures Valid(m)
    ensures m.keyStates == keyStates && m.keyActions == keyActions
    ensures m.dimState == dimState && m.dimAction == dimAction
    ensures m.curStateIdx == idx
  {
    Mdp(keyStates, keyActions, idx, dimState, dimAction)
  }

  /** `initial_state`: jump to the uniformly drawn key `idx` and return its
      state vector. */
  function InitialState(m: Mdp, idx: nat): (r: (Mdp, Bits))
    requires Valid(m)
    requires idx < |m.keyStates|
    ensures Valid(r.0) && r.0.curStateIdx == idx
    ensures r.0.keyStates == m.keyStates && r.0.keyActions == m.keyActions
    ensures r.0.dimState == m.dimState && r.0.dimAction == m.dimAction
    ensures r.1 == r.0.keyStates[r.0.curStateIdx] && |r.1| == m.dimState
  {
    var m' := m.(curStateIdx := idx);
    (m', m'.keyStates[idx])
  }

  /** One row of `(1 - key_actions) . action`: the number of positions where
      the action has a 1 and the key action a 0. */
  function Exposure(keyAction: Bits, action: Bits): (r: nat)
    requires |keyAction| == |action|
    ensures r <= |action|
    decreases |action|
  {
    if |action| == 0 then 0
    else (if action[0] && !keyAction[0] then 1 else 0) + Exposure(keyAction[1..], action[1..])
  }

  /** A key is unexposed exactly when every 1 of the action is also a 1 of
      the key action. */
  lemma {:induction false} ExposureZeroIff(keyAction: Bits, action: Bits)
    requires |keyAction| == |action|
    ensures Exposure(keyAction, action) == 0 <==> forall j :: 0 <= j < |action| && action[j] ==> keyAction[j]
    decreases |action|
  {
    if |action| > 0 {
      ExposureZeroIff(keyAction[1..], action[1..]);
      assert forall j :: 1 <= j < |action| ==> action[1..][j - 1] == action[j] && keyAction[1..][j - 1] == keyAction[j];
    }
  }

  /** The exposure score of every key, the vector `lin` of lib/mdps.py. */
  function Scores(m: Mdp, action: Bits): (lin: seq<nat>)
    requires Valid(m) && |action| == m.dimAction
    ensures |lin| == |m.keyStates|
    ensures forall i :: 0 <= i < |lin| ==> lin[i] == Exposure(m.keyActions[i], action)
  {
    seq(|m.keyStates|, i requires 0 <= i < |m.keyStates| => Exposure(m.keyActions[i], action))
  }

  /** `np.sum(lin)`: the total exposure over all keys. */
  function TotalExposure(m: Mdp, action: Bits): nat
    requires Valid(m) && |action| == m.dimAction
  {
    Sum(Scores(m, action))
  }

  /** A positive total exposure needs at least one action bit. */
  lemma TotalExposureNeedsAction(m: Mdp, action: Bits)
    requires Valid(m) && |action| == m.dimAction
    requires TotalExposure(m, action) > 0
    ensures m.dimAction > 0
  {
    if m.dimAction == 0 {
      SumOfZeros(Scores(m, action));
    }
  }

  /** `lin / np.sum(lin)`: the scores normalised into per-key probabilities.
      The program divides 0 by 0 when no key is exposed; that case is excluded
      here. */
  function Probabilities(m: Mdp, action: Bits): (p: seq<real>)
    requires Valid(m) && |action| == m.dimAction
    requires TotalExposure(m, action) > 0
    ensures |p| == |m.keyStates|
    ensures forall i :: 0 <= i < |p| ==> 0.0 <= p[i] <= 1.0
    ensures forall i :: 0 <= i < |p| ==> (p[i] == 0.0 <==> Exposure(m.keyActions[i], action) == 0)
  {
    var lin := Scores(m, action);
    var total := TotalExposure(m, action);
    seq(|lin|, i requires 0 <= i < |lin| =>
      EntryAtMostSum(lin, i);
      Ratio(lin[i], total))
  }

  /** The Bernoulli draw of every key, `samp(lin / np.sum(lin))`. */
  function Drawn(m: Mdp, action: Bits, draws: seq<real>): (d: Bits)
    requires Valid(m) && |action| == m.dimAction
    requires TotalExposure(m, action) > 0
    requires |draws| == |m.keyStates|
    requires forall i :: 0 <= i < |draws| ==> 0.0 <= draws[i] < 1.0
    ensures |d| == |m.keyStates|
    ensures forall i :: 0 <= i < |d| && d[i] ==> Exposure(m.keyActions[i], action) > 0
  {
    Samp(Probabilities(m, action), draws)
  }

  /** `np.argmax` of a 0/1 vector: the first 1, or 0 when there is none. */
  function ArgMax(s: Bits): (k: nat)
    ensures |s| > 0 ==> k < |s|
    ensures (exists i :: 0 <= i < |s| && s[i]) ==> s[k] && forall j :: 0 <= j < k ==> !s[j]
    ensures (forall i :: 0 <= i < |s| ==> !s[i]) ==> k == 0
    decreases |s|
  {
    if |s| == 0 || s[0] then 0
    else
      var k := ArgMax(s[1..]);
      if exists i :: 0 <= i < |s| - 1 && s[1..][i] then k + 1 else 0
  }

  /** `next_state`: draw one Bernoulli sample per key with probability
      proportional to its exposure, move to the first drawn key (or key 0
      when none is drawn) and return that key's state vector. */
  function NextState(m: Mdp, action: Bits, draws: seq<real>): (r: (Mdp, Bits))
    requires Valid(m) && |action| == m.dimAction
    requires TotalExposure(m, action) > 0
    requires |draws| == |m.keyStates|
    requires forall i :: 0 <= i < |draws| ==> 0.0 <= draws[i] < 1.0
    ensures Valid(r.0)
    ensures r.0.keyStates == m.keyStates && r.0.keyActions == m.keyActions
    ensures r.0.dimState == m.dimState && r.0.dimAction == m.dimAction
    ensures r.1 == r.0.keyStates[r.0.curStateIdx] && |r.1| == m.dimState
    ensures var d := Drawn(m, action, draws);
      && ((exists i :: 0 <= i < |d| && d[i]) ==>
            d[r.0.curStateIdx] && forall j :: 0 <= j < r.0.curStateIdx ==> !d[j])
      && ((forall i :: 0 <= i < |d| ==> !d[i]) ==> r.0.curStateIdx == 0)
    ensures r.0.curStateIdx == 0 || Exposure(m.keyActions[r.0.curStateIdx], action) > 0
  {
    var idx := ArgMax(Drawn(m, action, draws));
    var m' := m.(curStateIdx := idx);
    (m', m'.keyStates[idx])
  }

  /** When exactly one key is exposed the transition is deterministic: the
      environment always moves to that key, whatever the draws. */
  lemma NextStateSingleExposedKey(m: Mdp, action: Bits, draws: seq<real>, k: nat)
    requires Valid(m) && |action| == m.dimAction
    requires k < |m.keyStates|
    requires Exposure(m.keyActions[k], action) > 0
    requires forall i :: 0 <= i < |m.keyStates| && i != k ==> Exposure(m.keyActions[i], action) == 0
    requires |draws| == |m.keyStates|
    requires forall i :: 0 <= i < |draws| ==> 0.0 <= draws[i] < 1.0
    ensures TotalExposure(m, action) > 0
    ensures NextState(m, action, draws).0.curStateIdx == k
  {
    var lin := Scores(m, action);
    SumOfSingleNonZero(lin, k);
    var p := Probabilities(m, action);
    assert p[k] == 1.0;
    var d := Drawn(m, action, draws);
    assert d[k];
  }

  /** `optimal_action`: the key action of the current key. */
  function OptimalAction(m: Mdp): (a: Bits)
    requires Valid(m)
    ensures |a| == m.dimAction
  {
    m.keyActions[m.curStateIdx]
  }

  /** `optimal_reward`: the action dimension, the largest matching score. */
  function OptimalReward(m: Mdp): nat
  {
    m.dimAction
  }

  /** `reward`: the matching score between the action and the current key's
      action, taken before any transition. */
  function Reward(m: Mdp, action: Bits): (r: nat)
    requires Valid(m) && |action| == m.dimAction
    ensures r <= OptimalReward(m)
  {
    MatchingScore(OptimalAction(m), action)
  }

  /** The optimal action earns the optimal reward, and only it does. */
  lemma OptimalActionEarnsOptimalReward(m: Mdp, action: Bits)
    requires Valid(m) && |action| == m.dimAction
    ensures Reward(m, OptimalAction(m)) == OptimalReward(m)
    ensures Reward(m, action) == OptimalReward(m) <==> action == OptimalAction(m)
  {
    MatchingScoreSelf(OptimalAction(m));
    MatchingScoreExtremes(OptimalAction(m), action);
  }
}
