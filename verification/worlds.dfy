/** The state of a run and what the seeded generator supplies to it
    (lib/sim.py, lib/mdps.py, lib/agents.py): the generator's draws, the
    environment-agent pair, and the shape constraints a configuration
    puts on both. */
module Worlds {
  import opened Utils
  import opened Fingerprint
  import BinaryMdp
  import Agents

  /** What `Agent.play` hands back: the hidden activation it caches for
      `learn` and the sampled action. */
  datatype Played = Played(h: seq<real>, action: Bits)

  /** Everything the seeded generator supplies: the key tables and the two
      uniform key indices of BinaryMDP (constructor and `initial_state`),
      the Gaussian projections of the agent, the policy `play` as a function
      of (clone sizes, state, beta, epoch), and the uniform draws of
      `next_state` at each epoch. */
  datatype Randomness = Randomness(
    keyStates: seq<Bits>,
    keyActions: seq<Bits>,
    constructorIdx: nat,
    initialIdx: nat,
    w: seq<seq<real>>,
    u: seq<seq<real>>,
    play: (seq<real>, Bits, real, nat) -> Played,
    transition: nat -> seq<real>)

  /** The generator's output has the shapes the configuration asks for. */
  ghost predicate Fits(c: Config, rng: Randomness) {
    && BitTable(rng.keyStates, c.nKeyStates, c.dimState)
    && BitTable(rng.keyActions, c.nKeyStates, c.dimAction)
    && (c.nKeyStates > 0 ==> rng.constructorIdx < c.nKeyStates && rng.initialIdx < c.nKeyStates)
    && Agents.Matrix(rng.w, c.nHidden, c.dimState)
    && Agents.Matrix(rng.u, c.dimAction, c.nHidden)
    && (forall n, s, b, e :: |rng.play(n, s, b, e).h| == c.nHidden && |rng.play(n, s, b, e).action| == c.dimAction)
    && (forall e :: |rng.transition(e)| == c.nKeyStates)
    && (forall e, i :: 0 <= i < |rng.transition(e)| ==> 0.0 <= rng.transition(e)[i] < 1.0)
  }

  /** The environment, the agent and the last observed state. */
  datatype World = World(mdp: BinaryMdp.Mdp, agent: Agents.Agent, state: Bits)

  /** A world of this configuration: the tables and projections are the
      generated ones, and the agent's clone sizes are non-negative. */
  ghost predicate WorldOk(c: Config, rng: Randomness, w: World) {
    && BinaryMdp.Valid(w.mdp)
    && w.mdp.keyStates == rng.keyStates && w.mdp.keyActions == rng.keyActions
    && w.mdp.dimState == c.dimState && w.mdp.dimAction == c.dimAction
    && Agents.Valid(w.agent)
    && w.agent.w == rng.w && w.agent.u == rng.u
    && w.agent.nHidden == c.nHidden && w.agent.dimState == c.dimState && w.agent.dimAction == c.dimAction
    && |w.state| == c.dimState
  }
}
