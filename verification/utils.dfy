/** Numeric primitives of the simulation (lib/utils.py): Bernoulli sampling
    with its uniform draws made explicit, the ReLU and step helpers, and the
    matching score used as the reward signal. */
module Utils {

  /** A binary vector; numpy's 0/1 integer arrays are modelled as booleans. */
  type Bits = seq<bool>

  /** A table of `n` binary rows, each `width` bits long. */
  ghost predicate BitTable(rows: seq<Bits>, n: nat, width: nat) {
    && |rows| == n
    && forall i :: 0 <= i < |rows| ==> |rows[i]| == width
  }

  /** `samp(p)`: one Bernoulli(p[i]) sample per entry. The randomness is the
      vector `u` of uniform draws in [0, 1): entry i comes out 1 exactly when
      u[i] < p[i], which happens with probability p[i]. numpy rejects a
      probability outside [0, 1], so the caller must supply valid ones. */
  function Samp(p: seq<real>, u: seq<real>): (r: Bits)
    requires |u| == |p|
    requires forall i :: 0 <= i < |p| ==> 0.0 <= p[i] <= 1.0
    requires forall i :: 0 <= i < |u| ==> 0.0 <= u[i] < 1.0
    ensures |r| == |p|
    ensures forall i :: 0 <= i < |p| && p[i] == 0.0 ==> !r[i]
    ensures forall i :: 0 <= i < |p| && p[i] == 1.0 ==> r[i]
    ensures forall i :: 0 <= i < |p| && r[i] ==> p[i] > 0.0
  {
    seq(|p|, i requires 0 <= i < |p| => u[i] < p[i])
  }

  /** A larger probability keeps every 1: under the same draws, a bit
      that comes out 1 for `p` also comes out 1 for any `q >= p`. */
  lemma SampMonotone(p: seq<real>, q: seq<real>, u: seq<real>)
    requires |u| == |p| == |q|
    requires forall i :: 0 <= i < |p| ==> 0.0 <= p[i] <= q[i] <= 1.0
    requires forall i :: 0 <= i < |u| ==> 0.0 <= u[i] < 1.0
    ensures forall i :: 0 <= i < |p| && Samp(p, u)[i] ==> Samp(q, u)[i]
  {
  }

  /** Bit i depends on draw i alone: changing `u[i]` to `x` sets bit i
      exactly when `x < p[i]`, so the draws that give 1 are the interval
      [0, p[i]), and every other bit is unchanged. */
  lemma SampThreshold(p: seq<real>, u: seq<real>, i: nat, x: real)
    requires |u| == |p|
    requires forall j :: 0 <= j < |p| ==> 0.0 <= p[j] <= 1.0
    requires forall j :: 0 <= j < |u| ==> 0.0 <= u[j] < 1.0
    requires i < |p| && 0.0 <= x < 1.0
    ensures Samp(p, u[i := x])[i] <==> x < p[i]
    ensures forall j :: 0 <= j < |p| && j != i ==> Samp(p, u[i := x])[j] == Samp(p, u)[j]
  {
  }

  /** `a / total` for counts `a <= total`: a fraction in [0, 1] that is 0
      exactly for a == 0 and 1 exactly for a == total. */
  function Ratio(a: nat, total: nat): (p: real)
    requires 0 < total && a <= total
    ensures 0.0 <= p <= 1.0
    ensures p == 0.0 <==> a == 0
    ensures p == 1.0 <==> a == total
  {
    a as real / total as real
  }

  /** `relu(x)`: numpy's `maximum(0, x)`, the least value that is at least
      both 0 and x. */
  function Relu(x: real): (r: real)
    ensures r >= 0.0 && r >= x
    ensures r == x || r == 0.0
  {
    if x >= 0.0 then x else 0.0
  }

  /** `step(x)`: whether x is strictly positive. */
  function Step(x: real): bool
  {
    x > 0.0
  }

  /** Relu is idempotent, agrees with the identity on non-negative inputs,
      and Step holds exactly where Relu leaves a positive value. */
  lemma ReluAndStep(x: real)
    ensures Relu(Relu(x)) == Relu(x)
    ensures x >= 0.0 ==> Relu(x) == x
    ensures Step(x) <==> Relu(x) > 0.0
    ensures Relu(x) == (if Step(x) then x else 0.0)
  {
  }

  /** `matching_score(a, b)`: the number of positions where the two vectors
      agree (the sum of NOT (a XOR b)). */
  function MatchingScore(a: Bits, b: Bits): (r: nat)
    requires |a| == |b|
    ensures r <= |a|
    decreases |a|
  {
    if |a| == 0 then 0
    else MatchingScore(a[..|a| - 1], b[..|b| - 1]) + (if a[|a| - 1] == b[|b| - 1] then 1 else 0)
  }

  /** The Hamming distance: the number of positions where the vectors differ. */
  function HammingDistance(a: Bits, b: Bits): nat
    requires |a| == |b|
    decreases |a|
  {
    if |a| == 0 then 0
    else (if a[0] != b[0] then 1 else 0) + HammingDistance(a[1..], b[1..])
  }

  /** The set of positions at which the two vectors agree. */
  ghost function Agreements(a: Bits, b: Bits): set<nat>
    requires |a| == |b|
  {
    set i: nat | i < |a| && a[i] == b[i]
  }

  /** Bitwise complement. */
  function Not(a: Bits): (r: Bits)
    ensures |r| == |a|
    ensures forall i :: 0 <= i < |a| ==> r[i] == !a[i]
  {
    seq(|a|, i requires 0 <= i < |a| => !a[i])
  }

  /** The matching score counts exactly the agreeing positions. */
  lemma {:induction false} MatchingScoreCountsAgreements(a: Bits, b: Bits)
    requires |a| == |b|
    ensures MatchingScore(a, b) == |Agreements(a, b)|
    decreases |a|
  {
    if |a| > 0 {
      var n := |a| - 1;
      MatchingScoreCountsAgreements(a[..n], b[..n]);
      var prefix := Agreements(a[..n], b[..n]);
      assert prefix == set i: nat | i < n && a[i] == b[i];
      if a[n] == b[n] {
        assert Agreements(a, b) == prefix + {n};
      } else {
        assert Agreements(a, b) == prefix;
      }
    }
  }

  /** Agreements and disagreements together cover the whole vector. */
  lemma {:induction false} MatchingScorePlusHamming(a: Bits, b: Bits)
    requires |a| == |b|
    ensures MatchingScore(a, b) + HammingDistance(a, b) == |a|
    decreases |a|
  {
    if |a| > 0 {
      var n := |a| - 1;
      MatchingScorePlusHamming(a[1..], b[1..]);
      MatchingScoreOfHead(a, b);
      if n > 0 {
        assert a[1..][..n - 1] == a[..n][1..];
        assert b[1..][..n - 1] == b[..n][1..];
      }
    }
  }

  /** Splitting the matching score at the first position instead of the last. */
  lemma {:induction false} MatchingScoreOfHead(a: Bits, b: Bits)
    requires |a| == |b| > 0
    ensures MatchingScore(a, b) == (if a[0] == b[0] then 1 else 0) + MatchingScore(a[1..], b[1..])
    decreases |a|
  {
    var n := |a| - 1;
    if n > 0 {
      MatchingScoreOfHead(a[..n], b[..n]);
      assert a[..n][1..] == a[1..][..n - 1];
      assert b[..n][1..] == b[1..][..n - 1];
    }
  }

  /** A vector fully matches itself. */
  lemma {:induction false} MatchingScoreSelf(a: Bits)
    ensures MatchingScore(a, a) == |a|
    decreases |a|
  {
    if |a| > 0 {
      MatchingScoreSelf(a[..|a| - 1]);
    }
  }

  /** A vector matches its complement nowhere. */
  lemma {:induction false} MatchingScoreComplement(a: Bits)
    ensures MatchingScore(a, Not(a)) == 0
    decreases |a|
  {
    if |a| > 0 {
      var n := |a| - 1;
      assert Not(a)[..n] == Not(a[..n]);
      MatchingScoreComplement(a[..n]);
    }
  }

  /** The matching score does not depend on the order of its arguments. */
  lemma {:induction false} MatchingScoreSymmetric(a: Bits, b: Bits)
    requires |a| == |b|
    ensures MatchingScore(a, b) == MatchingScore(b, a)
    decreases |a|
  {
    if |a| > 0 {
      MatchingScoreSymmetric(a[..|a| - 1], b[..|b| - 1]);
    }
  }

  /** A full score means the vectors are equal, and a zero score means one
      is the complement of the other. */
  lemma {:induction false} MatchingScoreExtremes(a: Bits, b: Bits)
    requires |a| == |b|
    ensures MatchingScore(a, b) == |a| <==> a == b
    ensures MatchingScore(a, b) == 0 <==> b == Not(a)
    decreases |a|
  {
    if |a| > 0 {
      var n := |a| - 1;
      MatchingScoreExtremes(a[..n], b[..n]);
      assert a == a[..n] + [a[n]];
      assert b == b[..n] + [b[n]];
      assert Not(a)[..n] == Not(a[..n]);
    }
  }

  /** `np.sum` of a vector of naturals. */
  function Sum(xs: seq<nat>): nat
    decreases |xs|
  {
    if |xs| == 0 then 0 else Sum(xs[..|xs| - 1]) + xs[|xs| - 1]
  }

  /** Every entry of a sum of naturals is bounded by the sum. */
  lemma {:induction false} EntryAtMostSum(xs: seq<nat>, i: nat)
    requires i < |xs|
    ensures xs[i] <= Sum(xs)
    decreases |xs|
  {
    if i < |xs| - 1 {
      EntryAtMostSum(xs[..|xs| - 1], i);
    }
  }

  /** A sum of zeros is zero. */
  lemma {:induction false} SumOfZeros(xs: seq<nat>)
    requires forall i :: 0 <= i < |xs| ==> xs[i] == 0
    ensures Sum(xs) == 0
    decreases |xs|
  {
    if |xs| > 0 {
      SumOfZeros(xs[..|xs| - 1]);
    }
  }

  /** A sum whose only non-zero entry is at `k` equals that entry. */
  lemma {:induction false} SumOfSingleNonZero(xs: seq<nat>, k: nat)
    requires k < |xs|
    requires forall i :: 0 <= i < |xs| && i != k ==> xs[i] == 0
    ensures Sum(xs) == xs[k]
    decreases |xs|
  {
    if k == |xs| - 1 {
      SumOfZeros(xs[..|xs| - 1]);
    } else {
      SumOfSingleNonZero(xs[..|xs| - 1], k);
    }
  }

  /** Adding one to an entry adds one to the sum. */
  lemma {:induction false} SumIncrement(xs: seq<nat>, j: nat)
    requires j < |xs|
    ensures Sum(xs[j := xs[j] + 1]) == Sum(xs) + 1
    decreases |xs|
  {
    var ys := xs[j := xs[j] + 1];
    if j < |xs| - 1 {
      assert ys[..|ys| - 1] == xs[..|xs| - 1][j := xs[j] + 1];
      SumIncrement(xs[..|xs| - 1], j);
    } else {
      assert ys[..|ys| - 1] == xs[..|xs| - 1];
    }
  }

  /** A sum of entries that are each at least 1 is at least their number. */
  lemma {:induction false} SumAtLeastLength(xs: seq<nat>)
    requires forall j :: 0 <= j < |xs| ==> xs[j] >= 1
    ensures Sum(xs) >= |xs|
    decreases |xs|
  {
    if |xs| > 0 {
      SumAtLeastLength(xs[..|xs| - 1]);
    }
  }

  lemma MulNonNegative(x: real, y: real)
    requires x >= 0.0 && y >= 0.0
    ensures x * y >= 0.0
  {
  }

  lemma MulPositive(x: real, y: real)
    requires x > 0.0 && y > 0.0
    ensures x * y > 0.0
  {
  }

  lemma MulNonPositive(x: real, y: real)
    requires x >= 0.0 && y <= 0.0
    ensures x * y <= 0.0
  {
  }
}
