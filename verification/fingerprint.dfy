/** The experiment fingerprint `_experiment_id` (lib/sim.py): eleven
    `KEY=value` tokens, starting with the simulator version, joined by `-`.
    It names the cache entry of a configuration. */
module Fingerprint {

  const Version: string := "1.0.0"

  /** A real-valued parameter together with the text `str.format` prints
      for it (Python's float and int formatting is not modelled). */
  datatype Param = Param(value: real, text: string)

  /** The configuration of one simulation run. */
  datatype Config = Config(
    recordPer: nat,
    maxEpoch: nat,
    seed: nat,
    nKeyStates: nat,
    dimState: nat,
    dimAction: nat,
    nHidden: nat,
    learningRate: Param,
    startBeta: Param,
    lastBeta: Param)

  predicate IsDigit(ch: char) {
    '0' <= ch <= '9'
  }

  predicate AllDigits(s: string) {
    forall i :: 0 <= i < |s| ==> IsDigit(s[i])
  }

  function DigitChar(d: nat): (ch: char)
    requires d < 10
    ensures IsDigit(ch)
  {
    "0123456789"[d]
  }

  /** Decimal text of a natural number, as `"{}".format(n)` prints it. */
  function NatToString(n: nat): (s: string)
    ensures |s| > 0 && AllDigits(s)
    ensures n >= 10 ==> |s| >= 2
    decreases n
  {
    if n < 10 then [DigitChar(n)] else NatToString(n / 10) + [DigitChar(n % 10)]
  }

  /** Distinct numbers print differently. */
  lemma {:induction false} NatToStringInjective(a: nat, b: nat)
    requires NatToString(a) == NatToString(b)
    ensures a == b
    decreases a
  {
    var sa, sb := NatToString(a), NatToString(b);
    if a < 10 && b < 10 {
      assert sa[0] == DigitChar(a) && sb[0] == DigitChar(b);
    } else if a >= 10 && b >= 10 {
      assert sa[..|sa| - 1] == NatToString(a / 10);
      assert sb[..|sb| - 1] == NatToString(b / 10);
      NatToStringInjective(a / 10, b / 10);
      assert DigitChar(a % 10) == sa[|sa| - 1] == sb[|sb| - 1] == DigitChar(b % 10);
    }
  }

  /** `'-'.join(tokens)`. */
  function Join(tokens: seq<string>): string
    decreases |tokens|
  {
    if |tokens| == 0 then ""
    else if |tokens| == 1 then tokens[0]
    else tokens[0] + "-" + Join(tokens[1..])
  }

  function Token(key: string, value: string): string {
    key + "=" + value
  }

  /** The tokens of `_experiment_id`, in their fixed order. */
  function Tokens(c: Config): (ts: seq<string>)
    ensures |ts| == 11
    ensures ts[0] == "VER=" + Version
  {
    [ Token("VER", Version),
      Token("RECORD_PER", NatToString(c.recordPer)),
      Token("MAX_EPOCH", NatToString(c.maxEpoch)),
      Token("SEED", NatToString(c.seed)),
      Token("N_KEY_STATES", NatToString(c.nKeyStates)),
      Token("DIM_STATE", NatToString(c.dimState)),
      Token("DIM_ACTION", NatToString(c.dimAction)),
      Token("N_HIDDEN", NatToString(c.nHidden)),
      Token("LEARNING_RATE", c.learningRate.text),
      Token("START_BETA", c.startBeta.text),
      Token("LAST_BETA", c.lastBeta.text) ]
  }

  /** The integer-valued parameters, in token order. */
  function Counts(c: Config): seq<nat> {
    [c.recordPer, c.maxEpoch, c.seed, c.nKeyStates, c.dimState, c.dimAction, c.nHidden]
  }

  /** The fingerprint string; it starts with the version token. */
  function Fingerprint(c: Config): (fp: string)
    ensures |fp| > 10 && fp[..10] == "VER=" + Version + "-"
  {
    JoinCons(Tokens(c)[0], Tokens(c)[1..]);
    assert [Tokens(c)[0]] + Tokens(c)[1..] == Tokens(c);
    Join(Tokens(c))
  }

  lemma JoinCons(t: string, rest: seq<string>)
    requires |rest| > 0
    ensures Join([t] + rest) == t + "-" + Join(rest)
  {
    assert ([t] + rest)[1..] == rest;
  }

  /** Text that is a digit string followed by `-` can be split back into
      the digits and the rest. */
  lemma SplitDigits(d1: string, x1: string, d2: string, x2: string)
    requires AllDigits(d1) && AllDigits(d2)
    requires d1 + "-" + x1 == d2 + "-" + x2
    ensures d1 == d2 && x1 == x2
  {
    var s1, s2 := d1 + "-" + x1, d2 + "-" + x2;
    if |d1| == |d2| {
      assert d1 == s1[..|d1|] == s2[..|d2|] == d2;
      assert x1 == s1[|d1| + 1..] == s2[|d2| + 1..] == x2;
    } else if |d1| < |d2| {
      DashAfterDigits(d1, x1, d2, x2);
    } else {
      DashAfterDigits(d2, x2, d1, x1);
    }
  }

  /** A digit string cannot be a proper prefix of another digit string at a
      point where the first is followed by `-`. */
  lemma DashAfterDigits(d1: string, x1: string, d2: string, x2: string)
    requires AllDigits(d2) && |d1| < |d2|
    ensures d1 + "-" + x1 != d2 + "-" + x2
  {
    assert (d1 + "-" + x1)[|d1|] == '-';
    assert (d2 + "-" + x2)[|d1|] == d2[|d1|];
  }

  /** Stripping one `KEY=<digits>-` token from two equal strings with the
      same key leaves equal digits and equal remainders. */
  lemma PeelToken(key: string, d1: string, x1: string, d2: string, x2: string)
    requires AllDigits(d1) && AllDigits(d2)
    requires Token(key, d1) + "-" + x1 == Token(key, d2) + "-" + x2
    ensures d1 == d2 && x1 == x2
  {
    var p := key + "=";
    var s1, s2 := Token(key, d1) + "-" + x1, Token(key, d2) + "-" + x2;
    assert s1 == p + (d1 + "-" + x1);
    assert s2 == p + (d2 + "-" + x2);
    assert s1[|p|..] == d1 + "-" + x1;
    assert s2[|p|..] == d2 + "-" + x2;
    SplitDigits(d1, x1, d2, x2);
  }

  /** Joining `KEY=<digits>` tokens in front of a non-empty tail is
      injective in the digits, whatever the tails. */
  lemma {:induction false} JoinDigitTokensInjective(keys: seq<string>, ds1: seq<string>, ds2: seq<string>,
                                                    tail1: seq<string>, tail2: seq<string>)
    requires |ds1| == |keys| && |ds2| == |keys|
    requires |tail1| > 0 && |tail2| > 0
    requires forall i :: 0 <= i < |keys| ==> AllDigits(ds1[i]) && AllDigits(ds2[i])
    requires Join(TokensOf(keys, ds1) + tail1) == Join(TokensOf(keys, ds2) + tail2)
    ensures ds1 == ds2
    decreases |keys|
  {
    if |keys| > 0 {
      var r1 := TokensOf(keys[1..], ds1[1..]) + tail1;
      var r2 := TokensOf(keys[1..], ds2[1..]) + tail2;
      assert TokensOf(keys, ds1) + tail1 == [Token(keys[0], ds1[0])] + r1;
      assert TokensOf(keys, ds2) + tail2 == [Token(keys[0], ds2[0])] + r2;
      JoinCons(Token(keys[0], ds1[0]), r1);
      JoinCons(Token(keys[0], ds2[0]), r2);
      PeelToken(keys[0], ds1[0], Join(r1), ds2[0], Join(r2));
      JoinDigitTokensInjective(keys[1..], ds1[1..], ds2[1..], tail1, tail2);
      assert ds1 == [ds1[0]] + ds1[1..];
      assert ds2 == [ds2[0]] + ds2[1..];
    }
  }

  function TokensOf(keys: seq<string>, values: seq<string>): (ts: seq<string>)
    requires |values| == |keys|
    ensures |ts| == |keys|
    decreases |keys|
  {
    if |keys| == 0 then [] else [Token(keys[0], values[0])] + TokensOf(keys[1..], values[1..])
  }

  const CountKeys: seq<string> :=
    ["RECORD_PER", "MAX_EPOCH", "SEED", "N_KEY_STATES", "DIM_STATE", "DIM_ACTION", "N_HIDDEN"]

  function CountTexts(c: Config): (ds: seq<string>)
    ensures |ds| == 7
    ensures forall i :: 0 <= i < 7 ==> ds[i] == NatToString(Counts(c)[i])
  {
    seq(7, i requires 0 <= i < 7 => NatToString(Counts(c)[i]))
  }

  /** The tokens are the version, the seven integer tokens and the three
      real-valued tokens. */
  lemma TokensShape(c: Config)
    ensures Tokens(c) == [Tokens(c)[0]] + TokensOf(CountKeys, CountTexts(c)) + Tokens(c)[8..]
  {
    var ds := CountTexts(c);
    var ts := TokensOf(CountKeys, ds);
    assert ts == [ Token("RECORD_PER", ds[0]), Token("MAX_EPOCH", ds[1]), Token("SEED", ds[2]),
                   Token("N_KEY_STATES", ds[3]), Token("DIM_STATE", ds[4]), Token("DIM_ACTION", ds[5]),
                   Token("N_HIDDEN", ds[6]) ];
  }

  /** Equal fingerprints mean equal integer parameters: the record
      interval, epoch count, seed, key count and every dimension can be read
      back from the fingerprint. */
  lemma FingerprintDeterminesCounts(c1: Config, c2: Config)
    requires Fingerprint(c1) == Fingerprint(c2)
    ensures Counts(c1) == Counts(c2)
  {
    TokensShape(c1);
    TokensShape(c2);
    var v := Tokens(c1)[0];
    var rest1 := TokensOf(CountKeys, CountTexts(c1)) + Tokens(c1)[8..];
    var rest2 := TokensOf(CountKeys, CountTexts(c2)) + Tokens(c2)[8..];
    assert Tokens(c1) == [v] + rest1;
    assert Tokens(c2) == [v] + rest2;
    JoinCons(v, rest1);
    JoinCons(v, rest2);
    var j1, j2 := Join(rest1), Join(rest2);
    assert v + "-" + j1 == v + "-" + j2;
    assert j1 == (v + "-" + j1)[|v| + 1..];
    assert j2 == (v + "-" + j2)[|v| + 1..];
    JoinDigitTokensInjective(CountKeys, CountTexts(c1), CountTexts(c2), Tokens(c1)[8..], Tokens(c2)[8..]);
    forall i | 0 <= i < 7
      ensures Counts(c1)[i] == Counts(c2)[i]
    {
      NatToStringInjective(Counts(c1)[i], Counts(c2)[i]);
    }
  }

  /** Two configurations that differ only in the seed get different
      fingerprints. */
  lemma SeedChangesFingerprint(c: Config, seed: nat)
    requires seed != c.seed
    ensures Fingerprint(c.(seed := seed)) != Fingerprint(c)
  {
    if Fingerprint(c.(seed := seed)) == Fingerprint(c) {
      FingerprintDeterminesCounts(c.(seed := seed), c);
    }
  }
}
