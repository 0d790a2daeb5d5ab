/** The imperative form of `_simulate` (lib/sim.py): the epoch loop over
    preallocated record arrays, proved to produce the record the functional
    model in `Sim` describes. */
module Driver {

  import opened Results
  import opened Fingerprint
  import opened Worlds
  import opened Sim
  import BinaryMdp

  /** A world this configuration can run from with this generator output. */
  ghost predicate Ready(c: Config, rng: Randomness, w: World) {
    Fits(c, rng) && WorldOk(c, rng, w)
  }

  /** The recording step at the end of an epoch: when the epoch's number
      `epoch + 1` is a multiple of `record_per`, slot (epoch+1)/record_per - 1
      gets the epoch number, the reward over `optimal_reward()` and the clone
      sizes; otherwise nothing is written. `tr` holds the outcomes of the
      epochs before this one and `o` its own. */
  method RecordSlot(c: Config, epoch: nat, ghost tr: seq<EpochOutcome>, o: EpochOutcome,
                    epochs: seq<nat>, rewards: seq<real>, agentNs: seq<seq<real>>, ghost writes: seq<nat>)
    returns (epochs': seq<nat>, rewards': seq<real>, agentNs': seq<seq<real>>, ghost writes': seq<nat>)
    requires c.recordPer > 0 && c.dimAction > 0 && epoch == |tr| < c.maxEpoch
    requires BinaryMdp.OptimalReward(o.world.mdp) == c.dimAction
    requires epochs == EpochsAfter(c, |tr|) && rewards == RewardsAfter(c, tr)
    requires agentNs == ClonesAfter(c, tr) && writes == WrittenAfter(c, |tr|)
    ensures epochs' == EpochsAfter(c, |tr| + 1) && rewards' == RewardsAfter(c, tr + [o])
    ensures agentNs' == ClonesAfter(c, tr + [o]) && writes' == WrittenAfter(c, |tr| + 1)
  {
    if (epoch + 1) % c.recordPer == 0 {
      AfterWrite(c, tr, o);
      var idx := (epoch + 1) / c.recordPer - 1;
      epochs' := epochs[idx := epoch + 1];
      rewards' := rewards[idx := o.reward as real / BinaryMdp.OptimalReward(o.world.mdp) as real];
      agentNs' := agentNs[idx := o.world.agent.n];
      writes' := writes[idx := writes[idx] + 1];
    } else {
      AfterSkip(c, tr, o);
      epochs', rewards', agentNs', writes' := epochs, rewards, agentNs, writes;
    }
  }

  /** The epoch loop of `_simulate` over the preallocated arrays; each pass
      runs one `RunEpoch` (`play`, `reward`, `learn`, `next_state`) and then
      records. After `k` epochs the arrays are those `EpochsAfter`, `RewardsAfter` and
      `ClonesAfter` give for the first `k` outcomes; `writes` counts the
      writes per slot. The first epoch that raises ends the run. */
  method RunEpochs(c: Config, rng: Randomness, w0: World)
    returns (err: Option<SimError>, world: World, epochs: seq<nat>, rewards: seq<real>, agentNs: seq<seq<real>>,
             ghost tr: seq<EpochOutcome>, ghost writes: seq<nat>)
    requires Ready(c, rng, w0) && ConfigError(c).None?
    ensures err.Some? ==> Trace(c, rng, w0, c.maxEpoch) == Failure(err.value)
    ensures err.None? ==> Trace(c, rng, w0, c.maxEpoch) == Success(tr)
    ensures err.None? ==> world == Current(w0, tr)
    ensures err.None? ==> epochs == EpochsAfter(c, c.maxEpoch)
    ensures err.None? ==> rewards == RewardsAfter(c, tr)
    ensures err.None? ==> agentNs == ClonesAfter(c, tr)
    ensures err.None? ==> writes == WrittenAfter(c, c.maxEpoch)
  {
    var count := c.maxEpoch / c.recordPer;
    epochs := seq(count, _ => 0);
    rewards := seq(count, _ => 0.0);
    agentNs := seq(count, _ => []);
    writes := seq(count, _ => 0);
    AfterStart(c);
    world := w0;
    tr := [];
    var epoch := 0;
    while epoch < c.maxEpoch
      invariant epoch <= c.maxEpoch
      invariant Trace(c, rng, w0, epoch) == Success(tr)
      invariant world == Current(w0, tr)
      invariant epochs == EpochsAfter(c, epoch)
      invariant rewards == RewardsAfter(c, tr)
      invariant agentNs == ClonesAfter(c, tr)
      invariant writes == WrittenAfter(c, epoch)
    {
      TraceNext(c, rng, w0, epoch, tr);
      var outcome := RunEpoch(c, rng, world, epoch);
      if outcome.Failure? {
        TraceFailurePersists(c, rng, w0, epoch + 1, outcome.error);
        return Some(outcome.error), world, epochs, rewards, agentNs, tr, writes;
      }
      world := outcome.value.world;
      epochs, rewards, agentNs, writes := RecordSlot(c, epoch, tr, outcome.value, epochs, rewards, agentNs, writes);
      tr := tr + [outcome.value];
      epoch := epoch + 1;
    }
    err := None;
  }

  /** `_simulate`: the configuration checks, the epoch loop, and the record
      of the run, which is the record `SimulationRecord` describes. Every
      slot of the preallocated arrays is written exactly once. */
  method RunSimulation(c: Config, rng: Randomness) returns (r: Result<Record, SimError>, ghost writes: seq<nat>)
    requires Fits(c, rng)
    ensures r == SimulationRecord(c, rng)
    ensures r.Success? ==> |writes| == |r.value.epochs| && forall i :: 0 <= i < |writes| ==> writes[i] == 1
  {
    writes := [];
    var configErr := ConfigError(c);
    if configErr.Some? {
      return Failure(configErr.value), writes;
    }
    var w0 := InitialWorld(c, rng);
    var err, world, epochs, rewards, agentNs;
    ghost var tr;
    err, world, epochs, rewards, agentNs, tr, writes := RunEpochs(c, rng, w0);
    if err.Some? {
      return Failure(err.value), writes;
    }
    AfterComplete(c, rng, tr);
    r := Success(Record(epochs, rewards, agentNs,
                        world.agent.w, world.agent.u, world.mdp.keyStates, world.mdp.keyActions));
  }
}
