# immune-rl simulation core in Dafny

This project models the simulation layer of immune-rl. In that system a population of immune-cell clones is treated as a reinforcement-learning agent. Clone sizes grow or shrink under a reward-modulated plasticity rule while the agent plays against an environment of key antigen states. The model covers:

- the bit-vector helpers (`lib/utils.py`);
- the two environments, `BinaryMDP` and `SelfNonselfMDP` (`lib/mdps.py`);
- the clone-size initialisation and the `learn` rule of `Agent` (`lib/agents.py`);
- the simulator (`lib/sim.py`): the experiment fingerprint, the epoch loop of `_simulate` with its record arrays, the fingerprint-keyed cache of `simulate`, and monitor selection;
- the `multinomial` counting step of the fourth figure (`fig4/main.py`).

Every random draw the program takes from NumPy's generator is an explicit input. This covers the key tables, the starting indices, the Gaussian projections, the policy's action, the per-key Bernoulli draws and the samples of `choice`. For `_simulate` these draws are bundled in `Worlds.Randomness`.

A run is a pure function of the configuration and the draws: `Sim.SimulationRecord`. `Driver.RunSimulation` is the imperative loop over preallocated arrays, and it is proved to compute that same record. Exceptions the program raises become `Sim.SimError` values. These are a seed out of range, `randint(0, 0)`, a division by a zero dimension, `max_epoch // 0`, the NaN transition, an unknown monitor name, and `agent_ns[-1]` on an empty record. The cache directory is a map from fingerprint to the seven saved arrays.

Modules, one per file:

- `Results`: `Option` and `Result`.
- `Utils`: bit vectors, `samp`, `relu`, `step`, `matching_score`.
- `BinaryMdp`, `SelfNonselfMdp`: the environments.
- `Agents`: clone sizes and `learn`.
- `Fingerprint`: the configuration and `_experiment_id`.
- `Worlds`: the state of a run and its random inputs.
- `Sim`: `_simulate` as functions.
- `Driver`: `_simulate` as a loop.
- `Cache`: `simulate`.
- `Multinomial`: `multinomial`.

## Model

| member | source | states |
|---|---|---|
| Utils.Samp | lib/utils.py:4-5 | Given uniform draws, each bit is a Bernoulli sample of its probability. Probability 0 never gives a 1, probability 1 always does, and a set bit implies a positive probability. |
| Utils.Relu | lib/utils.py:7-8 | `relu(x)` is non-negative, at least `x`, and equal either to `x` or to 0. |
| Utils.SampMonotone | lib/utils.py:4-5 | Under the same draws, raising the probabilities never turns a 1 into a 0. |
| Utils.SampThreshold | lib/utils.py:4-5 | Bit i depends only on draw i, and is 1 exactly when that draw is below `p[i]`: the draws giving 1 are the interval [0, p[i]). |
| Utils.ReluAndStep | lib/utils.py:7-11 | `relu` is idempotent and the identity on non-negative inputs. `step(x)` holds exactly when `relu(x) > 0`, and `relu(x)` is `x` gated by `step(x)`. |
| Utils.MatchingScore | lib/utils.py:13-14 | The matching score of two equal-length vectors is at most their length. |
| Utils.MatchingScoreCountsAgreements | lib/utils.py:13-14 | The score equals the size of the set of positions where the two vectors agree, an independent definition of "number of equal bits". |
| Utils.MatchingScorePlusHamming | lib/utils.py:13-14 | Matching score plus Hamming distance is the length. |
| Utils.MatchingScoreSelf | lib/utils.py:13-14 | `matching_score(a, a) == len(a)`. |
| Utils.MatchingScoreComplement | lib/utils.py:13-14 | `matching_score(a, not a) == 0`. |
| Utils.MatchingScoreSymmetric | lib/utils.py:13-14 | The matching score is symmetric. |
| Utils.MatchingScoreExtremes | lib/utils.py:13-14 | The score is the full length exactly when the vectors are equal, and 0 exactly when one is the complement of the other. |
| BinaryMdp.New | lib/mdps.py:29-38 | The constructor keeps the drawn tables and dimensions, and its drawn index lies in `[0, n_key_states)`. |
| BinaryMdp.InitialState | lib/mdps.py:40-42 | `initial_state` moves to the drawn key and returns exactly `key_states[cur_state_idx]`, leaving the tables alone. |
| BinaryMdp.ExposureZeroIff | lib/mdps.py:45 | A key's score `(1 - key_action) . action` is 0 exactly when every 1 of the action is also a 1 of the key action. |
| BinaryMdp.Probabilities | lib/mdps.py:45-46 | `lin / sum(lin)` is a vector of probabilities in [0, 1], one per key, that is 0 exactly for the keys with score 0. |
| BinaryMdp.Drawn | lib/mdps.py:46 | A key with score 0 is never drawn. |
| BinaryMdp.ArgMax | lib/mdps.py:46 | `argmax` of a 0/1 vector is the first 1, or 0 when there is none. |
| BinaryMdp.NextState | lib/mdps.py:44-47 | The new index is the first drawn key, or 0 when none is drawn. It stays in range, is 0 or a key with a positive score, and the returned state is `key_states[cur_state_idx]`. |
| BinaryMdp.NextStateSingleExposedKey | lib/mdps.py:44-47 | When exactly one key has a positive score, the transition moves to that key whatever the draws. |
| BinaryMdp.Reward | lib/mdps.py:52-56 | The reward lies in [0, `optimal_reward()`], and `optimal_reward()` is `dim_action`. |
| BinaryMdp.OptimalActionEarnsOptimalReward | lib/mdps.py:49-56 | Playing `optimal_action()` earns exactly `optimal_reward()`, and no other action does. |
| SelfNonselfMdp.New | lib/mdps.py:74-86 | The environment starts healthy with no pathogen index and keeps the drawn tables and the infection rate. |
| SelfNonselfMdp.NewStartsHealthy | lib/mdps.py:74-92 | A new environment's `initial_state()` is the non-pathogenic state and its `optimal_action()` the non-pathogenic action. An action earns the full `dim_action` reward exactly when it equals that action. |
| SelfNonselfMdp.NextState | lib/mdps.py:94-123 | The invariant holds: a pathogen index exists exactly when the state is infected, and then it lies in `[0, n_pathogen)`. Infected: the pathogen is eliminated when the draw is below `score / dim_action`, else the same index is kept. Healthy: infection by the picked pathogen when the draw is below the rate, else it stays healthy. The returned vector is the row of the new state. |
| SelfNonselfMdp.EliminationExtremes | lib/mdps.py:99-110 | When `dim_action > 0`, a fully matching action always eliminates the pathogen. A fully mismatching one never does. With `dim_action == 0` the ratio is `0 / 0`, a NaN that no draw is below, so nothing is eliminated. |
| SelfNonselfMdp.InfectionRateExtremes | lib/mdps.py:115-123 | An infection rate of 0 never infects, and a rate of 1 always infects with the picked pathogen. |
| SelfNonselfMdp.Reward | lib/mdps.py:131-139 | The reward is at most `optimal_reward()`, which is `dim_action`. |
| SelfNonselfMdp.OptimalActionEarnsOptimalReward | lib/mdps.py:125-139 | `optimal_action()` earns exactly `optimal_reward()`, and no other action does. |
| Agents.New | lib/agents.py:9-21 | A new agent has `n_hidden` clones of size 1, and its projections have the declared shapes. |
| Agents.UpdateClone | lib/agents.py:32-33 | The clamped multiplicative update never gives a negative size and keeps a zero clone at zero. |
| Agents.Learn | lib/agents.py:29-33 | `learn` keeps the length of `n` and leaves `w` and `u` unchanged. Every clone becomes the clamped update of its size under its signal: non-negative, and still zero if it was zero. |
| Agents.UpdateCloneCases | lib/agents.py:32-33 | A zero rate keeps a clone. A non-negative rate with a non-negative signal never shrinks it. A step with `lr * lam <= -1` wipes it out. |
| Agents.LearnWithZeroRate | lib/agents.py:29-33 | With `lr == 0`, `learn` leaves the clone sizes of a valid agent unchanged. |
| Agents.LearnCloneBounds | lib/agents.py:31-33 | Clone by clone, `learn` never shrinks a clone when `lr >= 0` and `lam[i] >= 0`, and kills it when `lr * lam[i] <= -1`. |
| Fingerprint.NatToString | lib/sim.py:104-110 | The decimal text of an integer parameter is a non-empty string of digits. |
| Fingerprint.NatToStringInjective | lib/sim.py:104-110 | Different integers print differently. |
| Fingerprint.Tokens | lib/sim.py:102-113 | There are eleven `KEY=value` tokens in fixed order, and the first is `VER=1.0.0`. |
| Fingerprint.Fingerprint | lib/sim.py:99-114 | The fingerprint is the tokens joined by `-` and begins with `VER=1.0.0-`. |
| Fingerprint.FingerprintDeterminesCounts | lib/sim.py:99-114 | Two configurations with the same fingerprint have the same seven integer parameters. These can be read back from the fingerprint. |
| Fingerprint.SeedChangesFingerprint | lib/sim.py:99-114 | Two configurations that differ only in the seed have different fingerprints. |
| Sim.ConfigError | lib/sim.py:67-80 | The run raises before the first epoch exactly when the seed is outside `[0, 2^32)`, there are no key states, or `dim_state`, `n_hidden` or `record_per` is 0. |
| Sim.Interpolation | lib/sim.py:85 | A linear interpolation at `t` in [0, 1) lies between its two ends and reaches the far end only when the ends are equal. |
| Sim.Beta | lib/sim.py:85 | `beta` is `start_beta` at epoch 0 and `last_beta` at `max_epoch`. For every epoch in `[0, max_epoch)` it lies between the two, and differs from `last_beta` unless the ends coincide. |
| Sim.InitialWorld | lib/sim.py:71-83 | Before the first epoch every clone has size 1, and the state is the key state of the drawn initial index. |
| Sim.RunEpoch | lib/sim.py:84-89 | An epoch fails exactly when the action `play` returns exposes no key (`Sim.Stalls`), and then with that epoch's `DegenerateTransition`. Otherwise the world stays consistent, and the reward is that of the environment before `next_state`, at most `optimal_reward()`. The new clone sizes are `learn`'s update with that reward, and the new environment and state are the result of `next_state`. |
| Sim.Trace | lib/sim.py:83-89 | The first `k` epochs give `k` consistent outcomes with rewards at most `dim_action`, or the error of an earlier epoch. |
| Sim.TraceFailurePersists | lib/sim.py:84-89 | Once an epoch has raised, the whole run raises the same error. |
| Sim.TraceNext | lib/sim.py:84-89 | Running one more epoch appends that epoch's outcome to the trace, or ends it with that epoch's error. |
| Sim.TraceFailureCause | lib/sim.py:84-89 | A failed trace names its first failing epoch: the epochs before it ran, and the action played there exposes no key. |
| Sim.RecordedReward | lib/sim.py:90-93 | A recorded reward is `reward / optimal_reward()` and lies in [0, 1]. |
| Sim.RecordedClones | lib/sim.py:90-94 | A recorded row of `agent_ns` has `n_hidden` non-negative entries. |
| Sim.RecordedStable | lib/sim.py:90-94 | A recorded slot does not change when later epochs run. |
| Sim.Recorded | lib/sim.py:78-97 | A complete run has `max_epoch // record_per` slots in each array, `epochs[i] == (i+1) * record_per`, rewards in [0, 1], rows of width `n_hidden` with no negative entry, and the drawn projections and key tables. |
| Sim.SimulationRecord | lib/sim.py:67-97 | `_simulate` raises its configuration error first. Any other error is a degenerate transition at an epoch in `[0, max_epoch)`. A successful run returns a record with the shape above. |
| Sim.SimulationFailureCause | lib/sim.py:67-97 | When a run with a valid configuration raises, the epochs before the failing epoch ran, and the action played at the failing epoch exposes no key. |
| Sim.SimulationStall | lib/sim.py:84-89 | Conversely, when the epochs before `e` ran and the action played at `e` exposes no key, the run raises `DegenerateTransition(e)`. |
| Sim.AfterWrite | lib/sim.py:90-94 | When `(epoch+1) % record_per == 0`, the write goes to slot `(epoch+1) // record_per - 1`. That slot is in range, and the step writes exactly that slot. |
| Sim.AfterSkip | lib/sim.py:90 | Any other epoch writes nothing. |
| Sim.AfterComplete | lib/sim.py:78-94 | After all `max_epoch` epochs, the loop-built arrays equal the slot definitions and every slot has been written exactly once. |
| Driver.RecordSlot | lib/sim.py:90-94 | The recording step turns the arrays after `k` epochs into the arrays after `k + 1`. |
| Driver.RunEpochs | lib/sim.py:77-94 | The loop over the preallocated arrays either raises the first error of the run or ends with the world and arrays of the full trace. |
| Driver.RunSimulation | lib/sim.py:67-97 | The imperative `_simulate` returns exactly `Sim.SimulationRecord`, and on success every slot of the arrays is written exactly once. |
| Cache.MonitorOf | lib/sim.py:55-63 | Every returned value answers one of the eight accepted monitor names. |
| Cache.Pick | lib/sim.py:55-64 | One monitor fails exactly on an unknown name, which raises `ValueError`, or on `agent_n` of a record with no rows. A known name yields a value tagged with that name, and `agent_n` yields the last row of `agent_ns`. |
| Cache.PickRoundTrip | lib/sim.py:55-63 | Picking the name of any array of a record gives that array back. |
| Cache.SelectMonitors | lib/sim.py:53-65 | The list has the same length and order as `monitors`, with one picked value per name. It fails exactly when some name fails, and then with the error of the first failing name. |
| Cache.Simulate | lib/sim.py:15-65 | With `cache_dir` set and the fingerprint saved, the stored arrays are returned and nothing runs. On a miss the simulation runs, and its record is saved under the fingerprint before the monitors are selected. A failing run saves nothing, and no existing entry is ever changed. |
| Cache.SecondCallHits | lib/sim.py:25-51 | After a call with `cache_dir` set has simulated or found the run, a second call with the same configuration hits the cache. It returns the same result whatever the generator would now draw. |
| Cache.HitIgnoresGenerator | lib/sim.py:25-33 | A cache hit does not depend on the random draws. |
| Cache.MonitorErrorAfterSave | lib/sim.py:36-64 | An unknown monitor name makes the call fail only after the run's record has been saved. |
| Multinomial.Tally | fig4/main.py:26-27 | The counter has one count per distinct sample, each count is that sample's multiplicity and at least 1, and the counts sum to the number of samples. |
| Multinomial.Multinomial | fig4/main.py:23-27 | The call fails exactly when `agent_n` cannot be normalised. Otherwise the counts are, in the order of a list of the distinct samples, the multiplicity of each sample among the draws, so they sum to `total_num` and each is at least 1. There are at most `len(agent_n)` and at most `total_num` of them, and none for `total_num == 0`. |

## Left out

- Random number generation: `np.random.seed`, `randint`, `normal`, `binomial`, `rand` and `choice` are replaced by their draws as inputs. Determinism of a run under a fixed seed holds by construction, because `Sim.SimulationRecord` is a function of the draws.
- `Agent.play` (`expit`, the sigmoid policy and its sampled action) is an input function of `Worlds.Randomness`. The hidden activation `h` it caches is passed to `Agents.Learn`, and the product `n * h` is recomputed there from the unchanged clone sizes.
- The Gaussian initialisation of `w` and `u` is left out. The matrices are inputs of the right shape, and only the non-zero dimensions that its `2 / dim_state` and `2 / n_hidden` need are required.
- Floating point is not modelled. Clone sizes, rewards, probabilities and beta are mathematical reals. The fingerprint's learning-rate and beta tokens use the text Python's `format` prints, which is given with each real parameter (`Fingerprint.Param`). Numbers are natural numbers, so negative integer arguments are outside the model.
- `BinaryMdp.NextState`: does not model the NaN of `lin / np.sum(lin)` when no key is exposed. It requires a positive total score instead, and `Sim.RunEpoch` reports that case as `DegenerateTransition`, the error NumPy's `binomial` raises on NaN.
- `SelfNonselfMdp.NextState`: takes the index drawn by `np.random.choice(n_pathogen)` as an input. The `ValueError` that `choice(0)` raises with no pathogens is excluded by requiring a valid index when infection happens.
- File I/O: `np.save`, `np.load`, `os.makedirs`, `os.path.exists`, `Agent.save` and `BinaryMDP.save`. The cache directory is the map `Cache.Simulator.entries`. The race between the existence check and the directory creation is not modelled.
- With an empty `cache_dir`, the program still saves under a relative directory named by the fingerprint, and a second identical call then fails in `makedirs`. The model treats an empty `cache_dir` as no cache at all: nothing is stored, and every call simulates.
- `tqdm` progress output is left out.
- `np.empty` leaves unwritten slots with unspecified contents. In the model `epochs` and `rewards` start zero-filled and `agent_ns` starts with empty rows; the proof that every slot is written exactly once (`Driver.RunSimulation`) makes the initial contents irrelevant. `epochs` is a float array in the program and a sequence of naturals in the model.
- `simulate` always builds `BinaryMDP`; there is no environment selector. `SelfNonselfMDP` is modelled as a standalone component.
- Multinomial.Tally: does not state that the keys come in order of first appearance, as `Counter` keeps them. It states the multiset of counts: each distinct sample with its multiplicity.
- Multinomial.Multinomial: the samples of `np.random.choice` are an input constrained to categories of positive probability. `choice` also refuses probabilities that do not sum to 1 within a tolerance; with exact reals the normalised vector always sums to 1.
- Default arguments are not modelled: `infection_rate=0.5` of `SelfNonselfMDP`, `lr=0.01` of `learn`, and the defaults of `simulate`. Every parameter is an explicit input.
- Plotting, dataset reading, the other figure scripts, and the import in `fig5/main.py` of a `multinomial` that `lib/utils.py` does not define are outside the simulation core.
