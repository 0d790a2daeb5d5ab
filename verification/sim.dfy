/** The simulation of `_simulate` (lib/sim.py) as functions: the
    configuration errors, the linear beta schedule, one epoch of
    agent-environment interaction, the trace of a run and the record-slot
    arithmetic. All randomness derived from the seed is an input. */
module Sim {
  import opened Utils
  import opened Results
  import opened Fingerprint
  import BinaryMdp
  import Agents
  import opened Worlds

  /** `np.random.seed` accepts seeds in [0, 2^32). */
  const SeedBound: nat := 0x1_0000_0000

  /** The exceptions a call of `simulate` can raise. */
  datatype SimError =
    | InvalidSeed                     // np.random.seed: seed out of range
    | NoKeyStates                     // BinaryMDP: randint(0, 0)
    | ZeroDimState                    // Agent: 2 / dim_state
    | ZeroHidden                      // Agent: 2 / n_hidden
    | ZeroRecordPer                   // max_epoch // record_per
    | DegenerateTransition(epoch: nat) // next_state: lin / sum(lin) is NaN
    | InvalidMonitor(name: string)    // ValueError for an unknown monitor
    | EmptyRecord                     // agent_ns[-1] on a record with no rows

  /** The errors raised before the first epoch, in the order in which
      `_simulate` meets them. */
  function ConfigError(c: Config): (e: Option<SimError>)
    ensures e.None? <==>
      c.seed < SeedBound && c.nKeyStates > 0 && c.dimState > 0 && c.nHidden > 0 && c.recordPer > 0
  {
    if c.seed >= SeedBound then Some(InvalidSeed)
    else if c.nKeyStates == 0 then Some(NoKeyStates)
    else if c.dimState == 0 then Some(ZeroDimState)
    else if c.nHidden == 0 then Some(ZeroHidden)
    else if c.recordPer == 0 then Some(ZeroRecordPer)
    else None
  }

  ghost predicate Between(x: real, a: real, b: real) {
    (a <= x <= b) || (b <= x <= a)
  }

  /** A fraction `t` of [0, 1) of the way from `a` up to `b >= a` stays in
      [a, b], and below `b` when a < b. */
  lemma InterpolateUp(a: real, b: real, t: real)
    requires a <= b && 0.0 <= t < 1.0
    ensures a <= a + (b - a) * t <= b
    ensures a < b ==> a + (b - a) * t < b
  {
    var d := b - a;
    var s := 1.0 - t;
    MulNonNegative(d, t);
    MulNonNegative(d, s);
    assert d * s == d - d * t;
    if a < b {
      MulPositive(d, s);
    }
  }

  /** The same going down from `a` to `b <= a`. */
  lemma InterpolateDown(a: real, b: real, t: real)
    requires b <= a && 0.0 <= t < 1.0
    ensures b <= a + (b - a) * t <= a
    ensures b < a ==> b < a + (b - a) * t
  {
    var d := a - b;
    var s := 1.0 - t;
    MulNonNegative(d, t);
    MulNonNegative(d, s);
    assert d * s == d - d * t;
    assert (b - a) * t == -(d * t);
    if b < a {
      MulPositive(d, s);
    }
  }

  /** A point `t` of [0, 1) on the segment from `a` to `b` lies between
      them and, on a proper segment, is not `b`. */
  lemma Interpolation(a: real, b: real, t: real)
    requires 0.0 <= t
    ensures t < 1.0 ==> Between(a + (b - a) * t, a, b)
    ensures t < 1.0 && a != b ==> a + (b - a) * t != b
  {
    if t < 1.0 {
      if a <= b {
        InterpolateUp(a, b, t);
      } else {
        InterpolateDown(a, b, t);
      }
    }
  }

  lemma ScaleDiv(d: real, x: real, m: real)
    requires m != 0.0
    ensures d * x / m == d * (x / m)
  {
  }

  /** The inverse temperature of an epoch: linear from `start_beta` at
      epoch 0 towards `last_beta` at epoch `max_epoch`. */
  function Beta(c: Config, epoch: nat): (beta: real)
    requires c.maxEpoch > 0
    ensures epoch == 0 ==> beta == c.startBeta.value
    ensures epoch == c.maxEpoch ==> beta == c.lastBeta.value
    ensures epoch < c.maxEpoch ==>
      && Between(beta, c.startBeta.value, c.lastBeta.value)
      && (c.startBeta.value != c.lastBeta.value ==> beta != c.lastBeta.value)
  {
    var start, last := c.startBeta.value, c.lastBeta.value;
    var t := epoch as real / c.maxEpoch as real;
    Interpolation(start, last, t);
    ScaleDiv(last - start, epoch as real, c.maxEpoch as real);
    start + (last - start) * epoch as real / c.maxEpoch as real
  }


  /** The world before the first epoch: both constructors, then
      `initial_state`. */
  function InitialWorld(c: Config, rng: Randomness): (w: World)
    requires ConfigError(c).None? && Fits(c, rng)
    ensures WorldOk(c, rng, w)
    ensures forall i :: 0 <= i < |w.agent.n| ==> w.agent.n[i] == 1.0
    ensures w.mdp.curStateIdx == rng.initialIdx && w.state == rng.keyStates[rng.initialIdx]
  {
    var mdp := BinaryMdp.New(rng.keyStates, rng.keyActions, rng.constructorIdx, c.dimState, c.dimAction);
    var agent := Agents.New(c.nHidden, c.dimState, c.dimAction, rng.w, rng.u);
    var (mdp', state) := BinaryMdp.InitialState(mdp, rng.initialIdx);
    World(mdp', agent, state)
  }

  /** The world after an epoch and the reward earned in it. */
  datatype EpochOutcome = EpochOutcome(world: World, reward: nat)

  /** The action played at `epoch` from `w` exposes no key: `lin` is all
      zero, `lin / np.sum(lin)` is NaN, and the Bernoulli draw of
      `next_state` raises. */
  ghost predicate Stalls(c: Config, rng: Randomness, w: World, epoch: nat)
    requires Fits(c, rng) && WorldOk(c, rng, w)
    requires epoch < c.maxEpoch
  {
    var played := rng.play(w.agent.n, w.state, Beta(c, epoch), epoch);
    BinaryMdp.TotalExposure(w.mdp, played.action) == 0
  }

  /** One epoch: `play`, `reward` (of the environment before it moves),
      `learn`, `next_state`. The transition raises exactly when no key is
      exposed. */
  function RunEpoch(c: Config, rng: Randomness, w: World, epoch: nat): (r: Result<EpochOutcome, SimError>)
    requires Fits(c, rng) && WorldOk(c, rng, w)
    requires epoch < c.maxEpoch
    ensures r.Failure? <==> Stalls(c, rng, w, epoch)
    ensures r.Failure? ==> r.error == DegenerateTransition(epoch)
    ensures r.Success? ==>
      var played := rng.play(w.agent.n, w.state, Beta(c, epoch), epoch);
      && WorldOk(c, rng, r.value.world)
      && c.dimAction > 0
      && r.value.reward == BinaryMdp.Reward(w.mdp, played.action)
      && r.value.reward <= BinaryMdp.OptimalReward(w.mdp)
      && r.value.world.agent == Agents.Learn(w.agent, played.h, played.action, r.value.reward as real, c.learningRate.value)
      && (r.value.world.mdp, r.value.world.state) == BinaryMdp.NextState(w.mdp, played.action, rng.transition(epoch))
  {
    var played := rng.play(w.agent.n, w.state, Beta(c, epoch), epoch);
    var reward := BinaryMdp.Reward(w.mdp, played.action);
    var agent := Agents.Learn(w.agent, played.h, played.action, reward as real, c.learningRate.value);
    if BinaryMdp.TotalExposure(w.mdp, played.action) == 0 then
      Failure(DegenerateTransition(epoch))
    else
      BinaryMdp.TotalExposureNeedsAction(w.mdp, played.action);
      var (mdp, state) := BinaryMdp.NextState(w.mdp, played.action, rng.transition(epoch));
      Success(EpochOutcome(World(mdp, agent, state), reward))
  }

  /** The world after the epochs recorded in `tr`. */
  function Current(w0: World, tr: seq<EpochOutcome>): World {
    if |tr| == 0 then w0 else tr[|tr| - 1].world
  }

  /** The outcomes of the first `k` epochs, or the first error. */
  function Trace(c: Config, rng: Randomness, w0: World, k: nat): (r: Result<seq<EpochOutcome>, SimError>)
    requires Fits(c, rng) && WorldOk(c, rng, w0)
    requires k <= c.maxEpoch
    ensures r.Success? ==>
      && |r.value| == k
      && (k > 0 ==> c.dimAction > 0)
      && forall i :: 0 <= i < k ==>
           WorldOk(c, rng, r.value[i].world) && r.value[i].reward <= c.dimAction
    ensures r.Failure? ==> r.error.DegenerateTransition? && r.error.epoch < k
    decreases k
  {
    if k == 0 then Success([])
    else
      match Trace(c, rng, w0, k - 1)
      case Failure(e) => Failure(e)
      case Success(tr) =>
        match RunEpoch(c, rng, Current(w0, tr), k - 1)
        case Failure(e) => Failure(e)
        case Success(o) => Success(tr + [o])
  }

  /** An error that every step passes on is still there at any later
      point. */
  lemma {:induction false} Absorbed(f: nat -> Result<seq<EpochOutcome>, SimError>, k: nat, n: nat, e: SimError)
    requires k <= n && f(k) == Failure(e)
    requires forall j :: k <= j < n && f(j) == Failure(e) ==> f(j + 1) == Failure(e)
    ensures f(n) == Failure(e)
    decreases n - k
  {
    if k < n {
      Absorbed(f, k + 1, n, e);
    }
  }

  /** Once an epoch has raised, every longer run raises the same error. */
  lemma TraceFailurePersists(c: Config, rng: Randomness, w0: World, k: nat, e: SimError)
    requires Fits(c, rng) && WorldOk(c, rng, w0)
    requires k <= c.maxEpoch && Trace(c, rng, w0, k) == Failure(e)
    ensures Trace(c, rng, w0, c.maxEpoch) == Failure(e)
  {
    var f := (j: nat) => if j <= c.maxEpoch then Trace(c, rng, w0, j) else Failure(e);
    forall j | k <= j < c.maxEpoch && f(j) == Failure(e)
      ensures f(j + 1) == Failure(e)
    {
      TraceFailureStep(c, rng, w0, j, e);
    }
    Absorbed(f, k, c.maxEpoch, e);
  }

  lemma TraceFailureStep(c: Config, rng: Randomness, w0: World, k: nat, e: SimError)
    requires Fits(c, rng) && WorldOk(c, rng, w0)
    requires k < c.maxEpoch && Trace(c, rng, w0, k) == Failure(e)
    ensures Trace(c, rng, w0, k + 1) == Failure(e)
  {
  }

  /** Slot `i` of the record is written at the end of epoch (i+1)*record_per. */
  lemma SlotFits(i: nat, recordPer: nat, epochs: nat)
    requires recordPer > 0 && i < epochs / recordPer
    ensures 0 < (i + 1) * recordPer <= epochs
  {
    var q := epochs / recordPer;
    MulMonotone(i + 1, q, recordPer);
    assert q * recordPer + epochs % recordPer == epochs;
    MulMonotone(1, i + 1, recordPer);
  }

  /** How the number of completed slots moves from one epoch to the next. */
  lemma SlotCountStep(e: nat, recordPer: nat)
    requires recordPer > 0
    ensures (e + 1) % recordPer == 0 ==>
      (e + 1) / recordPer == e / recordPer + 1 && ((e + 1) / recordPer) * recordPer == e + 1
    ensures (e + 1) % recordPer != 0 ==> (e + 1) / recordPer == e / recordPer
  {
    var q, r := e / recordPer, e % recordPer;
    assert e == q * recordPer + r;
    if r + 1 == recordPer {
      assert e + 1 == (q + 1) * recordPer;
      DivOfMultiple(q + 1, recordPer);
    } else {
      assert e + 1 == q * recordPer + (r + 1) && r + 1 < recordPer;
      DivWithRemainder(q, recordPer, r + 1);
    }
  }

  lemma DivOfMultiple(q: nat, d: nat)
    requires d > 0
    ensures (q * d) / d == q && (q * d) % d == 0
  {
    DivWithRemainder(q, d, 0);
  }

  lemma {:induction false} MulMonotone(x: nat, y: nat, d: nat)
    requires x <= y
    ensures x * d <= y * d
    decreases y - x
  {
    if x < y {
      MulMonotone(x, y - 1, d);
      assert y * d == (y - 1) * d + d;
    }
  }

  /** Quotient and remainder are unique. */
  lemma DivWithRemainder(q: nat, d: nat, r: nat)
    requires r < d
    ensures (q * d + r) / d == q && (q * d + r) % d == r
  {
    var a := q * d + r;
    var q', r' := a / d, a % d;
    assert a == q' * d + r' && 0 <= r' < d;
    if q' < q {
      MulMonotone(q' + 1, q, d);
    } else if q' > q {
      MulMonotone(q + 1, q', d);
    }
  }

  /** The normalised reward stored in slot `i`: the reward of epoch
      (i+1)*record_per - 1 divided by `optimal_reward()`. */
  function RecordedReward(c: Config, tr: seq<EpochOutcome>, i: nat): (r: real)
    requires c.recordPer > 0 && c.dimAction > 0
    requires forall j :: 0 <= j < |tr| ==> tr[j].reward <= c.dimAction
    requires i < |tr| / c.recordPer
    ensures 0.0 <= r <= 1.0
  {
    SlotFits(i, c.recordPer, |tr|);
    Ratio(tr[(i + 1) * c.recordPer - 1].reward, c.dimAction)
  }

  /** The clone sizes stored in slot `i`, those after epoch (i+1)*record_per - 1. */
  function RecordedClones(c: Config, rng: Randomness, tr: seq<EpochOutcome>, i: nat): (n: seq<real>)
    requires c.recordPer > 0
    requires forall j :: 0 <= j < |tr| ==> WorldOk(c, rng, tr[j].world)
    requires i < |tr| / c.recordPer
    ensures |n| == c.nHidden && Agents.NonNegative(n)
  {
    SlotFits(i, c.recordPer, |tr|);
    var j := (i + 1) * c.recordPer - 1;
    assert WorldOk(c, rng, tr[j].world);
    tr[j].world.agent.n
  }

  /** The `epochs` array: slot i holds (i+1)*record_per. */
  function SlotEpochs(recordPer: nat, count: nat): (es: seq<nat>)
    ensures |es| == count
    ensures forall i :: 0 <= i < count ==> es[i] == (i + 1) * recordPer
  {
    seq(count, i requires 0 <= i < count => (i + 1) * recordPer)
  }

  /** The `rewards` array of a trace. */
  function SlotRewards(c: Config, tr: seq<EpochOutcome>): (rs: seq<real>)
    requires c.recordPer > 0 && c.dimAction > 0
    requires forall j :: 0 <= j < |tr| ==> tr[j].reward <= c.dimAction
    ensures |rs| == |tr| / c.recordPer
    ensures forall i :: 0 <= i < |rs| ==> rs[i] == RecordedReward(c, tr, i) && 0.0 <= rs[i] <= 1.0
  {
    seq(|tr| / c.recordPer, i requires 0 <= i < |tr| / c.recordPer => RecordedReward(c, tr, i))
  }

  /** The `agent_ns` array of a trace. */
  function SlotClones(c: Config, rng: Randomness, tr: seq<EpochOutcome>): (ns: seq<seq<real>>)
    requires c.recordPer > 0
    requires forall j :: 0 <= j < |tr| ==> WorldOk(c, rng, tr[j].world)
    ensures |ns| == |tr| / c.recordPer
    ensures forall i :: 0 <= i < |ns| ==>
      ns[i] == RecordedClones(c, rng, tr, i) && |ns[i]| == c.nHidden && Agents.NonNegative(ns[i])
  {
    seq(|tr| / c.recordPer, i requires 0 <= i < |tr| / c.recordPer => RecordedClones(c, rng, tr, i))
  }

  /** A recorded slot does not change when the trace grows. */
  lemma RecordedStable(c: Config, rng: Randomness, tr: seq<EpochOutcome>, tr': seq<EpochOutcome>, i: nat)
    requires c.recordPer > 0
    requires forall j :: 0 <= j < |tr'| ==> WorldOk(c, rng, tr'[j].world) && tr'[j].reward <= c.dimAction
    requires i < |tr| / c.recordPer
    requires |tr| <= |tr'| && tr'[..|tr|] == tr
    ensures i < |tr'| / c.recordPer
    ensures RecordedClones(c, rng, tr', i) == RecordedClones(c, rng, tr, i)
    ensures c.dimAction > 0 ==> RecordedReward(c, tr', i) == RecordedReward(c, tr, i)
  {
    SlotFits(i, c.recordPer, |tr|);
    var j := (i + 1) * c.recordPer - 1;
    assert tr'[j] == tr'[..|tr|][j];
    DivMonotone(|tr|, |tr'|, c.recordPer);
  }

  lemma DivMonotone(a: nat, b: nat, d: nat)
    requires d > 0 && a <= b
    ensures a / d <= b / d
  {
    var qa, qb := a / d, b / d;
    assert qa * d + a % d == a;
    assert qb * d + b % d == b;
    if qb < qa {
      MulMonotone(qb + 1, qa, d);
    }
  }

  /** The observables of a run, the seven arrays of the cache entry. */
  datatype Record = Record(
    epochs: seq<nat>,
    rewards: seq<real>,
    agentNs: seq<seq<real>>,
    agentW: seq<seq<real>>,
    agentU: seq<seq<real>>,
    keyStates: seq<Bits>,
    keyActions: seq<Bits>)

  /** What every successful run records: `max_epoch // record_per` slots,
      slot i at epoch (i+1)*record_per, rewards normalised into [0, 1],
      clone-size rows of width `n_hidden` with no negative entry, and the
      generated projections and key tables. */
  ghost predicate RecordOk(c: Config, rng: Randomness, rec: Record) {
    c.recordPer > 0 &&
    var count := c.maxEpoch / c.recordPer;
    && |rec.epochs| == count && |rec.rewards| == count && |rec.agentNs| == count
    && (forall i :: 0 <= i < count ==> rec.epochs[i] == (i + 1) * c.recordPer)
    && (forall i :: 0 <= i < count ==> 0.0 <= rec.rewards[i] <= 1.0)
    && (forall i :: 0 <= i < count ==> |rec.agentNs[i]| == c.nHidden && Agents.NonNegative(rec.agentNs[i]))
    && rec.agentW == rng.w && rec.agentU == rng.u
    && rec.keyStates == rng.keyStates && rec.keyActions == rng.keyActions
  }

  /** The record of a complete trace. */
  function Recorded(c: Config, rng: Randomness, w0: World, tr: seq<EpochOutcome>): (rec: Record)
    requires WorldOk(c, rng, w0)
    requires c.recordPer > 0 && |tr| == c.maxEpoch
    requires c.maxEpoch > 0 ==> c.dimAction > 0
    requires forall i :: 0 <= i < |tr| ==> WorldOk(c, rng, tr[i].world) && tr[i].reward <= c.dimAction
    ensures RecordOk(c, rng, rec)
  {
    var last := Current(w0, tr);
    var rewards := if c.maxEpoch > 0 then SlotRewards(c, tr) else [];
    Record(SlotEpochs(c.recordPer, c.maxEpoch / c.recordPer), rewards, SlotClones(c, rng, tr),
           last.agent.w, last.agent.u, last.mdp.keyStates, last.mdp.keyActions)
  }

  /** `_simulate` as a function of the configuration and the generator's
      output: the configuration errors, then the epoch loop, then the
      record of the whole run. */
  function SimulationRecord(c: Config, rng: Randomness): (r: Result<Record, SimError>)
    requires Fits(c, rng)
    ensures ConfigError(c).Some? ==> r == Failure(ConfigError(c).value)
    ensures r.Failure? && ConfigError(c).None? ==> r.error.DegenerateTransition? && r.error.epoch < c.maxEpoch
    ensures r.Success? ==> RecordOk(c, rng, r.value)
  {
    match ConfigError(c)
    case Some(e) => Failure(e)
    case None =>
      var w0 := InitialWorld(c, rng);
      match Trace(c, rng, w0, c.maxEpoch)
      case Failure(e) => Failure(e)
      case Success(tr) => Success(Recorded(c, rng, w0, tr))
  }

  /** Trace one epoch further: the next step's error, or its outcome appended. */
  lemma TraceNext(c: Config, rng: Randomness, w0: World, k: nat, tr: seq<EpochOutcome>)
    requires Fits(c, rng) && WorldOk(c, rng, w0)
    requires k < c.maxEpoch && Trace(c, rng, w0, k) == Success(tr)
    ensures WorldOk(c, rng, Current(w0, tr))
    ensures Trace(c, rng, w0, k + 1) ==
      match RunEpoch(c, rng, Current(w0, tr), k)
      case Failure(e) => Failure(e)
      case Success(o) => Success(tr + [o])
  {
  }

  /** A failed trace fails at its first stalling epoch: the epochs before
      it ran, and the action played in it exposes no key. */
  lemma {:induction false} TraceFailureCause(c: Config, rng: Randomness, w0: World, k: nat)
    requires Fits(c, rng) && WorldOk(c, rng, w0)
    requires k <= c.maxEpoch && Trace(c, rng, w0, k).Failure?
    ensures var e := Trace(c, rng, w0, k).error.epoch;
      && Trace(c, rng, w0, e).Success?
      && WorldOk(c, rng, Current(w0, Trace(c, rng, w0, e).value))
      && Stalls(c, rng, Current(w0, Trace(c, rng, w0, e).value), e)
    decreases k
  {
    var prev := Trace(c, rng, w0, k - 1);
    if prev.Failure? {
      TraceFailureCause(c, rng, w0, k - 1);
    } else {
      TraceNext(c, rng, w0, k - 1, prev.value);
    }
  }

  /** Why a run raises after its configuration checks: some epoch `e`
      stalls, after the epochs before it ran without error. */
  lemma SimulationFailureCause(c: Config, rng: Randomness)
    requires Fits(c, rng) && ConfigError(c).None? && SimulationRecord(c, rng).Failure?
    ensures var w0, e := InitialWorld(c, rng), SimulationRecord(c, rng).error.epoch;
      && e < c.maxEpoch
      && Trace(c, rng, w0, e).Success?
      && WorldOk(c, rng, Current(w0, Trace(c, rng, w0, e).value))
      && Stalls(c, rng, Current(w0, Trace(c, rng, w0, e).value), e)
  {
    TraceFailureCause(c, rng, InitialWorld(c, rng), c.maxEpoch);
  }

  /** Conversely, an epoch that stalls after the epochs before it ran
      makes the whole run raise with that epoch's error. */
  lemma SimulationStall(c: Config, rng: Randomness, e: nat)
    requires Fits(c, rng) && ConfigError(c).None?
    requires e < c.maxEpoch && Trace(c, rng, InitialWorld(c, rng), e).Success?
    requires WorldOk(c, rng, Current(InitialWorld(c, rng), Trace(c, rng, InitialWorld(c, rng), e).value))
    requires Stalls(c, rng, Current(InitialWorld(c, rng), Trace(c, rng, InitialWorld(c, rng), e).value), e)
    ensures SimulationRecord(c, rng) == Failure(DegenerateTransition(e))
  {
    var w0 := InitialWorld(c, rng);
    TraceNext(c, rng, w0, e, Trace(c, rng, w0, e).value);
    TraceFailurePersists(c, rng, w0, e + 1, DegenerateTransition(e));
  }

  /** The `epochs` array after `done` epochs of the loop: a slot whose epoch
      (i+1)*record_per has run holds that epoch, the others are untouched
      (zero in the model; `np.empty` leaves them unspecified). */
  function EpochsAfter(c: Config, done: nat): (es: seq<nat>)
    requires c.recordPer > 0
    ensures |es| == c.maxEpoch / c.recordPer
  {
    seq(c.maxEpoch / c.recordPer,
        i requires 0 <= i < c.maxEpoch / c.recordPer =>
          if (i + 1) * c.recordPer <= done then (i + 1) * c.recordPer else 0)
  }

  /** The `rewards` array after the epochs of `tr`: each completed slot holds
      its epoch's reward over `optimal_reward()`. No epoch completes when
      `dim_action` is 0, so the guard on it only keeps the division defined. */
  function RewardsAfter(c: Config, tr: seq<EpochOutcome>): (rs: seq<real>)
    requires c.recordPer > 0
    ensures |rs| == c.maxEpoch / c.recordPer
  {
    seq(c.maxEpoch / c.recordPer,
        i requires 0 <= i < c.maxEpoch / c.recordPer =>
          if 0 < (i + 1) * c.recordPer <= |tr| && c.dimAction > 0
          then tr[(i + 1) * c.recordPer - 1].reward as real / c.dimAction as real
          else 0.0)
  }

  /** The `agent_ns` array after the epochs of `tr`: each completed slot holds
      the clone sizes after its epoch; untouched rows are empty. */
  function ClonesAfter(c: Config, tr: seq<EpochOutcome>): (ns: seq<seq<real>>)
    requires c.recordPer > 0
    ensures |ns| == c.maxEpoch / c.recordPer
  {
    seq(c.maxEpoch / c.recordPer,
        i requires 0 <= i < c.maxEpoch / c.recordPer =>
          if 0 < (i + 1) * c.recordPer <= |tr| then tr[(i + 1) * c.recordPer - 1].world.agent.n else [])
  }

  /** How often each slot has been written after `done` epochs: once if its
      epoch has run, never otherwise. */
  function WrittenAfter(c: Config, done: nat): (ws: seq<nat>)
    requires c.recordPer > 0
    ensures |ws| == c.maxEpoch / c.recordPer
  {
    seq(c.maxEpoch / c.recordPer,
        i requires 0 <= i < c.maxEpoch / c.recordPer =>
          if (i + 1) * c.recordPer <= done then 1 else 0)
  }

  /** Before the first epoch no slot is complete. */
  lemma AfterStart(c: Config)
    requires c.recordPer > 0
    ensures EpochsAfter(c, 0) == seq(c.maxEpoch / c.recordPer, _ => 0)
    ensures RewardsAfter(c, []) == seq(c.maxEpoch / c.recordPer, _ => 0.0)
    ensures ClonesAfter(c, []) == seq(c.maxEpoch / c.recordPer, _ => [])
    ensures WrittenAfter(c, 0) == seq(c.maxEpoch / c.recordPer, _ => 0)
  {
    forall i | 0 <= i < c.maxEpoch / c.recordPer
      ensures EpochsAfter(c, 0)[i] == 0 && RewardsAfter(c, [])[i] == 0.0
      ensures ClonesAfter(c, [])[i] == [] && WrittenAfter(c, 0)[i] == 0
    {
      MulMonotone(1, i + 1, c.recordPer);
    }
  }

  /** An epoch `e` (counted from 1) that is not a multiple of `record_per`
      completes no slot: the arrays after it are those before it. */
  lemma {:induction false} AfterSkip(c: Config, tr: seq<EpochOutcome>, o: EpochOutcome)
    requires c.recordPer > 0
    requires (|tr| + 1) % c.recordPer != 0
    ensures EpochsAfter(c, |tr| + 1) == EpochsAfter(c, |tr|)
    ensures RewardsAfter(c, tr + [o]) == RewardsAfter(c, tr)
    ensures ClonesAfter(c, tr + [o]) == ClonesAfter(c, tr)
    ensures WrittenAfter(c, |tr| + 1) == WrittenAfter(c, |tr|)
  {
    var tr' := tr + [o];
    forall i | 0 <= i < c.maxEpoch / c.recordPer
      ensures EpochsAfter(c, |tr| + 1)[i] == EpochsAfter(c, |tr|)[i]
      ensures RewardsAfter(c, tr')[i] == RewardsAfter(c, tr)[i]
      ensures ClonesAfter(c, tr')[i] == ClonesAfter(c, tr)[i]
      ensures WrittenAfter(c, |tr| + 1)[i] == WrittenAfter(c, |tr|)[i]
    {
      DivOfMultiple(i + 1, c.recordPer);
    }
  }

  /** An epoch `e` (counted from 1) that is a multiple of `record_per`
      completes exactly slot e / record_per - 1, and that slot is written
      from the epoch's own outcome; every other slot is as it was. */
  lemma {:induction false} AfterWrite(c: Config, tr: seq<EpochOutcome>, o: EpochOutcome)
    requires c.recordPer > 0 && c.dimAction > 0
    requires |tr| < c.maxEpoch && (|tr| + 1) % c.recordPer == 0
    ensures var idx := (|tr| + 1) / c.recordPer - 1;
      && 0 <= idx < c.maxEpoch / c.recordPer
      && EpochsAfter(c, |tr| + 1) == EpochsAfter(c, |tr|)[idx := |tr| + 1]
      && RewardsAfter(c, tr + [o]) == RewardsAfter(c, tr)[idx := o.reward as real / c.dimAction as real]
      && ClonesAfter(c, tr + [o]) == ClonesAfter(c, tr)[idx := o.world.agent.n]
      && WrittenAfter(c, |tr| + 1) == WrittenAfter(c, |tr|)[idx := WrittenAfter(c, |tr|)[idx] + 1]
  {
    var tr' := tr + [o];
    var q := (|tr| + 1) / c.recordPer;
    assert q * c.recordPer == |tr| + 1;
    if q == 0 {
      assert false;
    }
    DivMonotone(|tr| + 1, c.maxEpoch, c.recordPer);
    forall i | 0 <= i < c.maxEpoch / c.recordPer && i != q - 1
      ensures EpochsAfter(c, |tr| + 1)[i] == EpochsAfter(c, |tr|)[i]
      ensures RewardsAfter(c, tr')[i] == RewardsAfter(c, tr)[i]
      ensures ClonesAfter(c, tr')[i] == ClonesAfter(c, tr)[i]
      ensures WrittenAfter(c, |tr| + 1)[i] == WrittenAfter(c, |tr|)[i]
    {
      MulMonotone(1, i + 1, c.recordPer);
      DivOfMultiple(i + 1, c.recordPer);
    }
    MulMonotone(1, q, c.recordPer);
    assert (q - 1 + 1) * c.recordPer == |tr'|;
  }

  /** After the last epoch the arrays are the record of the trace, and every
      slot has been written exactly once. */
  lemma AfterComplete(c: Config, rng: Randomness, tr: seq<EpochOutcome>)
    requires c.recordPer > 0 && |tr| == c.maxEpoch
    requires c.maxEpoch > 0 ==> c.dimAction > 0
    requires forall j :: 0 <= j < |tr| ==> WorldOk(c, rng, tr[j].world) && tr[j].reward <= c.dimAction
    ensures EpochsAfter(c, c.maxEpoch) == SlotEpochs(c.recordPer, c.maxEpoch / c.recordPer)
    ensures ClonesAfter(c, tr) == SlotClones(c, rng, tr)
    ensures c.maxEpoch > 0 ==> RewardsAfter(c, tr) == SlotRewards(c, tr)
    ensures forall i :: 0 <= i < c.maxEpoch / c.recordPer ==> WrittenAfter(c, c.maxEpoch)[i] == 1
  {
    forall i | 0 <= i < c.maxEpoch / c.recordPer
      ensures EpochsAfter(c, c.maxEpoch)[i] == SlotEpochs(c.recordPer, c.maxEpoch / c.recordPer)[i]
      ensures ClonesAfter(c, tr)[i] == SlotClones(c, rng, tr)[i]
      ensures c.maxEpoch > 0 ==> RewardsAfter(c, tr)[i] == SlotRewards(c, tr)[i]
      ensures WrittenAfter(c, c.maxEpoch)[i] == 1
    {
      SlotFits(i, c.recordPer, c.maxEpoch);
    }
  }
}
