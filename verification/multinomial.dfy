/** `multinomial` (fig4/main.py): draw `total_num` clones with probabilities
    proportional to the clone sizes `agent_n`, and return how often each
    drawn clone was drawn. `Counter` keeps the counts in order of first
    appearance; the model leaves their order unspecified. The draws of `np.random.choice` are an input. */
module Multinomial {
  import opened Results
  import Utils

  /** `np.random.choice` refuses the normalised vector: `sum(agent_n)` is 0
      (the division gives NaN) or some normalised entry is negative. */
  datatype ChoiceError = InvalidProbabilities

  /** `np.sum` of the clone sizes. */
  function RealSum(xs: seq<real>): real {
    if |xs| == 0 then 0.0 else RealSum(xs[..|xs| - 1]) + xs[|xs| - 1]
  }

  /** `agent_n / np.sum(agent_n)` is a probability vector `choice` accepts. */
  predicate Normalisable(agentN: seq<real>) {
    RealSum(agentN) != 0.0 && forall i :: 0 <= i < |agentN| ==> agentN[i] / RealSum(agentN) >= 0.0
  }

  /** Draws `choice` can return for this vector: category indices whose
      probability is positive. */
  predicate Draws(agentN: seq<real>, samples: seq<nat>)
    requires Normalisable(agentN)
  {
    forall k :: 0 <= k < |samples| ==> samples[k] < |agentN| && agentN[samples[k]] / RealSum(agentN) > 0.0
  }

  /** No value occurs twice. */
  predicate Distinct(keys: seq<nat>) {
    forall a, b :: 0 <= a < b < |keys| ==> keys[a] != keys[b]
  }

  /** `Counter(samples).values()`: `keys` are the distinct samples, in an
      unspecified order, and `counts[j]` is how often `keys[j]` occurs. */
  method Tally(samples: seq<nat>) returns (keys: seq<nat>, counts: seq<nat>)
    ensures |keys| == |counts| && Distinct(keys)
    ensures forall x :: x in keys <==> x in samples
    ensures forall j :: 0 <= j < |keys| ==> counts[j] == multiset(samples)[keys[j]] && counts[j] >= 1
    ensures Utils.Sum(counts) == |samples|
  {
    keys, counts := [], [];
    var i := 0;
    while i < |samples|
      invariant 0 <= i <= |samples|
      invariant |keys| == |counts| && Distinct(keys)
      invariant forall x :: x in keys <==> x in samples[..i]
      invariant forall j :: 0 <= j < |keys| ==> counts[j] == multiset(samples[..i])[keys[j]] && counts[j] >= 1
      invariant Utils.Sum(counts) == i
    {
      var x := samples[i];
      assert samples[..i + 1] == samples[..i] + [x];
      var j := Find(keys, x);
      if j < |keys| {
        Utils.SumIncrement(counts, j);
        counts := counts[j := counts[j] + 1];
      } else {
        assert Utils.Sum(counts + [1]) == Utils.Sum(counts) + 1 by {
          assert (counts + [1])[..|counts|] == counts;
        }
        keys, counts := keys + [x], counts + [1];
      }
      i := i + 1;
    }
    assert samples[..i] == samples;
  }

  /** The position of `x` in `keys`, or `|keys|` when it is absent. */
  method Find(keys: seq<nat>, x: nat) returns (j: nat)
    ensures j <= |keys|
    ensures j < |keys| ==> keys[j] == x
    ensures j == |keys| ==> x !in keys
  {
    j := 0;
    while j < |keys| && keys[j] != x
      invariant j <= |keys| && x !in keys[..j]
    {
      j := j + 1;
    }
  }

  /** Distinct values below `n` are at most `n` many. */
  lemma {:induction false} DistinctBelow(keys: seq<nat>, n: nat)
    requires Distinct(keys)
    requires forall j :: 0 <= j < |keys| ==> keys[j] < n
    ensures |keys| <= n
    decreases n
  {
    if |keys| > 0 {
      assert keys[0] < n;
      if exists j :: 0 <= j < |keys| && keys[j] == n - 1 {
        // drop the one entry n - 1 and count the rest below n - 1
        var j :| 0 <= j < |keys| && keys[j] == n - 1;
        var others := keys[..j] + keys[j + 1..];
        assert forall k :: 0 <= k < |others| ==> others[k] == (if k < j then keys[k] else keys[k + 1]);
        assert Distinct(others);
        assert forall k :: 0 <= k < |others| ==> others[k] < n - 1;
        DistinctBelow(others, n - 1);
      } else {
        DistinctBelow(keys, n - 1);
      }
    }
  }

  /** `multinomial(agent_n, total_num)` with the `total_num` draws of
      `choice` given as `samples`. `keys` are the clones the counts belong
      to, which the program discards. */
  method Multinomial(agentN: seq<real>, totalNum: nat, samples: seq<nat>)
    returns (r: Result<seq<nat>, ChoiceError>, ghost keys: seq<nat>)
    requires |samples| == totalNum
    requires Normalisable(agentN) ==> Draws(agentN, samples)
    ensures r.Failure? <==> !Normalisable(agentN)
    ensures r.Success? ==>
      && |keys| == |r.value| && Distinct(keys)
      && (forall x :: x in keys <==> x in samples)
      && (forall j :: 0 <= j < |r.value| ==> r.value[j] == multiset(samples)[keys[j]])
    ensures r.Success? ==>
      && Utils.Sum(r.value) == totalNum
      && (forall j :: 0 <= j < |r.value| ==> r.value[j] >= 1)
      && |r.value| <= |agentN| && |r.value| <= totalNum
      && (totalNum == 0 ==> r.value == [])
  {
    if !Normalisable(agentN) {
      return Failure(InvalidProbabilities), [];
    }
    var drawn, counts := Tally(samples);
    keys := drawn;
    forall j | 0 <= j < |keys|
      ensures keys[j] < |agentN|
    {
      assert keys[j] in samples;
    }
    DistinctBelow(keys, |agentN|);
    Utils.SumAtLeastLength(counts);
    r := Success(counts);
  }
}
