/** The agent's clone sizes and plasticity rule (lib/agents.py). The policy
    (`play`) is not modelled: its cached hidden activation and its sampled
    action are inputs of `Learn`. */
module Agents {
  import opened Utils

  /** A real matrix with `rows` rows of `cols` entries. */
  ghost predicate Matrix(m: seq<seq<real>>, rows: nat, cols: nat) {
    && |m| == rows
    && forall i :: 0 <= i < |m| ==> |m[i]| == cols
  }

  datatype Agent = Agent(
    n: seq<real>,
    w: seq<seq<real>>,
    u: seq<seq<real>>,
    nHidden: nat,
    dimState: nat,
    dimAction: nat)

  /** The shapes of the agent's arrays. */
  ghost predicate Shaped(a: Agent) {
    && |a.n| == a.nHidden
    && Matrix(a.w, a.nHidden, a.dimState)
    && Matrix(a.u, a.dimAction, a.nHidden)
  }

  /** Clone sizes are never negative. */
  ghost predicate NonNegative(n: seq<real>) {
    forall i :: 0 <= i < |n| ==> n[i] >= 0.0
  }

  ghost predicate Valid(a: Agent) {
    Shaped(a) && NonNegative(a.n)
  }

  /** `Agent.__init__`: every clone starts with size 1. The Gaussian
      matrices `w` and `u` are its random draws; the scales
      `sqrt(2 / dim_state)` and `sqrt(2 / n_hidden)` divide by the two
      dimensions, which therefore cannot be zero. */
  function New(nHidden: nat, dimState: nat, dimAction: nat, w: seq<seq<real>>, u: seq<seq<real>>): (a: Agent)
    requires nHidden > 0 && dimState > 0
    requires Matrix(w, nHidden, dimState) && Matrix(u, dimAction, nHidden)
    ensures Valid(a)
    ensures |a.n| == nHidden && forall i :: 0 <= i < |a.n| ==> a.n[i] == 1.0
    ensures a.w == w && a.u == u
    ensures a.nHidden == nHidden && a.dimState == dimState && a.dimAction == dimAction
  {
    Agent(seq(nHidden, _ => 1.0), w, u, nHidden, dimState, dimAction)
  }

  function Dot(x: seq<real>, y: seq<real>): real
    requires |x| == |y|
    decreases |x|
  {
    if |x| == 0 then 0.0 else x[0] * y[0] + Dot(x[1..], y[1..])
  }

  /** A binary action as the 0/1 vector numpy multiplies with. */
  function Indicator(a: Bits): (v: seq<real>)
    ensures |v| == |a|
  {
    seq(|a|, i requires 0 <= i < |a| => if a[i] then 1.0 else 0.0)
  }

  /** `np.dot(m, x)`. */
  function MatVec(m: seq<seq<real>>, x: seq<real>): (y: seq<real>)
    requires forall i :: 0 <= i < |m| ==> |m[i]| == |x|
    ensures |y| == |m|
  {
    seq(|m|, i requires 0 <= i < |m| => Dot(m[i], x))
  }

  /** `np.dot(m.T, y)` for a matrix of `cols` columns. */
  function MatTVec(m: seq<seq<real>>, y: seq<real>, cols: nat): (x: seq<real>)
    requires Matrix(m, |y|, cols)
    ensures |x| == cols
  {
    seq(cols, j requires 0 <= j < cols => Dot(seq(|m|, i requires 0 <= i < |m| => m[i][j]), y))
  }

  /** The per-clone learning signal `lam` of `learn`:
      (reward - q) * h * (u^T . action), where `q` is the value estimate
      (u . nh) . action and `nh = n * h` is the clone-weighted activation
      cached by `play` (the clone sizes do not change between `play` and
      `learn`). */
  function Signal(a: Agent, h: seq<real>, action: Bits, reward: real): (lam: seq<real>)
    requires Shaped(a) && |h| == a.nHidden && |action| == a.dimAction
    ensures |lam| == a.nHidden
  {
    var nh := seq(a.nHidden, i requires 0 <= i < a.nHidden => a.n[i] * h[i]);
    var act := Indicator(action);
    var q := Dot(MatVec(a.u, nh), act);
    var back := MatTVec(a.u, act, a.nHidden);
    seq(a.nHidden, i requires 0 <= i < a.nHidden => (reward - q) * h[i] * back[i])
  }

  /** The update of one clone: `n += lr * n * lam`, then `maximum(n, 0)`. */
  function UpdateClone(n: real, lr: real, lam: real): (n': real)
    ensures n' >= 0.0
    ensures n == 0.0 ==> n' == 0.0
  {
    Relu(n + lr * n * lam)
  }

  /** `learn`: the multiplicative, reward-modulated update of every clone
      size, clamped at zero. The projections `w` and `u` are left alone. */
  function Learn(a: Agent, h: seq<real>, action: Bits, reward: real, lr: real): (r: Agent)
    requires Shaped(a) && |h| == a.nHidden && |action| == a.dimAction
    ensures Valid(r)
    ensures |r.n| == |a.n|
    ensures r.w == a.w && r.u == a.u
    ensures r.nHidden == a.nHidden && r.dimState == a.dimState && r.dimAction == a.dimAction
    ensures forall i :: 0 <= i < |a.n| && a.n[i] == 0.0 ==> r.n[i] == 0.0
    ensures var lam := Signal(a, h, action, reward);
      forall i :: 0 <= i < |a.n| ==> r.n[i] == UpdateClone(a.n[i], lr, lam[i])
  {
    var lam := Signal(a, h, action, reward);
    a.(n := seq(|a.n|, i requires 0 <= i < |a.n| => UpdateClone(a.n[i], lr, lam[i])))
  }

  /** How one clone moves: a zero learning rate keeps it, a non-negative
      rate with a non-negative signal never shrinks it, and a step with
      lr * lam <= -1 wipes it out. */
  lemma UpdateCloneCases(n: real, lr: real, lam: real)
    requires n >= 0.0
    ensures lr == 0.0 ==> UpdateClone(n, lr, lam) == n
    ensures lr >= 0.0 && lam >= 0.0 ==> UpdateClone(n, lr, lam) >= n
    ensures lr * lam <= -1.0 ==> UpdateClone(n, lr, lam) == 0.0
  {
    assert n + lr * n * lam == n * (1.0 + lr * lam);
    if lr * lam <= -1.0 {
      MulNonPositive(n, 1.0 + lr * lam);
    }
    if lr >= 0.0 && lam >= 0.0 {
      assert lr * lam >= 0.0;
      assert n * (lr * lam) >= 0.0;
    }
  }

  /** With learning rate 0, `learn` leaves a valid agent's clones alone. */
  lemma LearnWithZeroRate(a: Agent, h: seq<real>, action: Bits, reward: real)
    requires Valid(a) && |h| == a.nHidden && |action| == a.dimAction
    ensures Learn(a, h, action, reward, 0.0).n == a.n
  {
    var r := Learn(a, h, action, reward, 0.0);
    var lam := Signal(a, h, action, reward);
    forall i | 0 <= i < |a.n|
      ensures r.n[i] == a.n[i]
    {
      UpdateCloneCases(a.n[i], 0.0, lam[i]);
    }
  }

  /** Clone-wise consequences of `learn` on a valid agent: growth under a
      non-negative signal and extinction under a signal of -1/lr or below. */
  lemma LearnCloneBounds(a: Agent, h: seq<real>, action: Bits, reward: real, lr: real, i: nat)
    requires Valid(a) && |h| == a.nHidden && |action| == a.dimAction
    requires i < a.nHidden
    ensures var lam := Signal(a, h, action, reward);
      && (lr >= 0.0 && lam[i] >= 0.0 ==> Learn(a, h, action, reward, lr).n[i] >= a.n[i])
      && (lr * lam[i] <= -1.0 ==> Learn(a, h, action, reward, lr).n[i] == 0.0)
  {
    UpdateCloneCases(a.n[i], lr, Signal(a, h, action, reward)[i]);
  }
}
