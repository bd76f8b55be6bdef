/** The scoring policy of a completed hypothesis: length penalty, coverage
    penalty, over-attending penalty and the normalised score they combine
    into. */
module Scoring {
  import opened Numerics

  /** The keyword arguments of the search. */
  datatype Config = Config(
    beamSize: nat,
    minLength: int,
    maxLength: int,
    alpha: real,
    beta: real,
    gamma: real,
    lenSmooth: real,
    speedPrune: real,
    prune: bool,
    startSymbol: int,
    stopSymbol: int)

  /** The options with the keyword defaults of `beam_with_coverage`
      (`beam_size=8, min_length=0, alpha=0.01, beta=0.4, gamma=1.0,
      len_smooth=5.0, speed_prune=1.0, prune=True`); the maximum length and
      the start and stop symbols have no default. The defaults switch every
      penalty and the keep rule on, keep the length penalty defined, and
      meet the premises of the survival lemmas of the pruning. */
  function DefaultConfig(maxLength: int, startSymbol: int, stopSymbol: int): (cfg: Config)
    ensures PenaltiesDefined(cfg)
    ensures cfg.alpha > 0.0 && cfg.beta > 0.0 && cfg.gamma > 0.0 && cfg.prune
    ensures cfg.beamSize >= 1 && cfg.speedPrune >= 1.0
    ensures cfg.maxLength == maxLength && cfg.startSymbol == startSymbol && cfg.stopSymbol == stopSymbol
  {
    Config(8, 0, maxLength, 0.01, 0.4, 1.0, 5.0, 1.0, true, startSymbol, stopSymbol)
  }

  /** The length-penalty quotient stays a positive real: with `alpha > 0` the
      smoothing constant must be positive (otherwise float `**` yields zero,
      infinities or complex numbers). */
  predicate PenaltiesDefined(cfg: Config) {
    cfg.alpha > 0.0 ==> cfg.lenSmooth > 0.0
  }

  /** The length penalty for a completed hypothesis whose history (start
      symbol included, stop symbol excluded) has `historyLen` symbols. */
  function LengthPenalty(cfg: Config, m: Math, historyLen: nat): (lp: real)
    requires Sound(m) && PenaltiesDefined(cfg) && historyLen >= 1
    ensures lp > 0.0
  {
    if cfg.alpha > 0.0 then
      m.pow(cfg.lenSmooth + historyLen as real - 1.0, cfg.alpha) / m.pow(cfg.lenSmooth + 1.0, cfg.alpha)
    else 1.0
  }

  /** `coverage += (1. - mask)`: positions beyond the source length (mask 0)
      are lifted by one so that they stop counting as under-attended. */
  function MaskAdjust(coverage: seq<real>, mask: seq<real>): (r: seq<real>)
    requires |coverage| == |mask|
    ensures |r| == |coverage|
  {
    seq(|coverage|, k requires 0 <= k < |coverage| => coverage[k] + (1.0 - mask[k]))
  }

  /** `coverage + attention`, position by position. */
  function Accumulate(coverage: seq<real>, attention: seq<real>): (r: seq<real>)
    requires |coverage| == |attention|
    ensures |r| == |coverage|
  {
    seq(|coverage|, k requires 0 <= k < |coverage| => coverage[k] + attention[k])
  }

  /** The per-position terms `log(min(coverage, 1))`. */
  function CoverageTerms(m: Math, coverage: seq<real>): (r: seq<real>)
    ensures |r| == |coverage|
  {
    seq(|coverage|, k requires 0 <= k < |coverage| => m.log(Min(coverage[k], 1.0)))
  }

  /** The coverage penalty `beta * sum(log(min(coverage, 1)))`, zero when
      `beta <= 0`. */
  function CoveragePenalty(cfg: Config, m: Math, coverage: seq<real>): real {
    if cfg.beta > 0.0 then cfg.beta * Sum(CoverageTerms(m, coverage)) else 0.0
  }

  /** The over-attending penalty `gamma * -max(0, max(coverage) - 1)`, zero
      when `gamma <= 0`. It is never positive, it is zero exactly when no
      position holds more than one unit of attention, and it charges at least
      `gamma` times the excess of every position. */
  function OverattendPenalty(cfg: Config, coverage: seq<real>): (oap: real)
    requires |coverage| > 0
    ensures oap <= 0.0
    ensures cfg.gamma > 0.0 ==> (oap == 0.0 <==> forall k :: 0 <= k < |coverage| ==> coverage[k] <= 1.0)
    ensures cfg.gamma > 0.0 ==> forall k :: 0 <= k < |coverage| ==> oap <= -cfg.gamma * (coverage[k] - 1.0)
  {
    if cfg.gamma > 0.0 then
      var excess := Max(0.0, MaxOf(coverage) - 1.0);
      assert cfg.gamma * excess >= 0.0;
      assert forall k :: 0 <= k < |coverage| ==> cfg.gamma * (coverage[k] - 1.0) <= cfg.gamma * excess by {
        forall k | 0 <= k < |coverage| ensures cfg.gamma * (coverage[k] - 1.0) <= cfg.gamma * excess {
          assert coverage[k] - 1.0 <= excess;
        }
      }
      assert excess > 0.0 ==> cfg.gamma * excess > 0.0;
      cfg.gamma * -excess
    else 0.0
  }

  /** The normalised score of a completed hypothesis:
      `score / lp + cp + oap`. */
  function NormScore(cfg: Config, m: Math, score: real, historyLen: nat, coverage: seq<real>): real
    requires Sound(m) && PenaltiesDefined(cfg) && historyLen >= 1 && |coverage| > 0
  {
    score / LengthPenalty(cfg, m, historyLen) + CoveragePenalty(cfg, m, coverage) + OverattendPenalty(cfg, coverage)
  }

  /** The coverage penalty is never positive on positive coverage, and with
      `beta > 0` it is zero exactly when every position has received at least
      one unit of attention. */
  lemma CoveragePenaltySign(cfg: Config, m: Math, coverage: seq<real>)
    requires Sound(m)
    requires forall k :: 0 <= k < |coverage| ==> coverage[k] > 0.0
    ensures CoveragePenalty(cfg, m, coverage) <= 0.0
    ensures cfg.beta > 0.0 ==>
      (CoveragePenalty(cfg, m, coverage) == 0.0 <==> forall k :: 0 <= k < |coverage| ==> coverage[k] >= 1.0)
  {
    var terms := CoverageTerms(m, coverage);
    forall k | 0 <= k < |coverage| ensures terms[k] <= 0.0 && (terms[k] == 0.0 <==> coverage[k] >= 1.0) {
      var x := Min(coverage[k], 1.0);
      if x < 1.0 {
        assert m.log(x) < m.log(1.0);
      }
    }
    SumOfNonPositive(terms);
    if cfg.beta > 0.0 {
      var total := Sum(terms);
      assert total < 0.0 ==> cfg.beta * total < 0.0;
    }
  }

  /** With `alpha > 0` the length penalty grows with the length. */
  lemma LengthPenaltyMonotone(cfg: Config, m: Math, shorter: nat, longer: nat)
    requires Sound(m) && PenaltiesDefined(cfg) && 1 <= shorter <= longer
    ensures LengthPenalty(cfg, m, shorter) <= LengthPenalty(cfg, m, longer)
  {
    if cfg.alpha > 0.0 {
      var d := m.pow(cfg.lenSmooth + 1.0, cfg.alpha);
      var a := m.pow(cfg.lenSmooth + shorter as real - 1.0, cfg.alpha);
      var b := m.pow(cfg.lenSmooth + longer as real - 1.0, cfg.alpha);
      assert a <= b;
      assert d > 0.0;
      assert a / d <= b / d by {
        assert b / d - a / d == (b - a) / d;
      }
    }
  }

  /** At equal non-positive raw score, dividing by the length penalty ranks a
      longer completion at least as high as a shorter one. */
  lemma LengthNormalisationFavoursLonger(cfg: Config, m: Math, score: real, shorter: nat, longer: nat)
    requires Sound(m) && PenaltiesDefined(cfg) && 1 <= shorter <= longer && score <= 0.0
    ensures score / LengthPenalty(cfg, m, shorter) <= score / LengthPenalty(cfg, m, longer)
  {
    LengthPenaltyMonotone(cfg, m, shorter, longer);
    DivideNonPositive(score, LengthPenalty(cfg, m, shorter), LengthPenalty(cfg, m, longer));
  }

  /** A non-positive number divided by the larger of two positive divisors
      is the larger quotient. */
  lemma DivideNonPositive(x: real, a: real, b: real)
    requires x <= 0.0 && 0.0 < a <= b
    ensures x / a <= x / b
  {
    var qa, qb := x / a, x / b;
    assert qa * a == x && qb * b == x;
    assert qa <= 0.0;
    assert qa * (b - a) <= 0.0;
    assert (qb - qa) * b == qa * (a - b) + (qa * b - qa * b) by {
      assert (qb - qa) * b == qb * b - qa * b;
    }
    assert (qb - qa) * b >= 0.0;
  }

  /** Penalties only ever lower a completed hypothesis's score: on positive
      coverage the normalised score is at most the length-normalised score. */
  lemma NormScoreBelowLengthNormalised(cfg: Config, m: Math, score: real, historyLen: nat, coverage: seq<real>)
    requires Sound(m) && PenaltiesDefined(cfg) && historyLen >= 1 && |coverage| > 0
    requires forall k :: 0 <= k < |coverage| ==> coverage[k] > 0.0
    ensures NormScore(cfg, m, score, historyLen, coverage) <= score / LengthPenalty(cfg, m, historyLen)
  {
    CoveragePenaltySign(cfg, m, coverage);
  }

  /** Padding positions never add to the coverage penalty: two coverages that
      agree on the real source positions (mask 1) are penalised alike once
      adjusted by a 0/1 mask. */
  lemma PaddingIgnoredByCoveragePenalty(cfg: Config, m: Math, cov1: seq<real>, cov2: seq<real>, mask: seq<real>)
    requires |cov1| == |cov2| == |mask|
    requires forall k :: 0 <= k < |mask| ==> mask[k] == 0.0 || mask[k] == 1.0
    requires forall k :: 0 <= k < |mask| ==> cov1[k] >= 0.0 && cov2[k] >= 0.0
    requires forall k :: 0 <= k < |mask| && mask[k] == 1.0 ==> cov1[k] == cov2[k]
    ensures CoveragePenalty(cfg, m, MaskAdjust(cov1, mask)) == CoveragePenalty(cfg, m, MaskAdjust(cov2, mask))
  {
    var t1 := CoverageTerms(m, MaskAdjust(cov1, mask));
    var t2 := CoverageTerms(m, MaskAdjust(cov2, mask));
    forall k | 0 <= k < |mask| ensures t1[k] == t2[k] {
      if mask[k] == 0.0 {
        assert Min(MaskAdjust(cov1, mask)[k], 1.0) == 1.0 == Min(MaskAdjust(cov2, mask)[k], 1.0);
      }
    }
    assert t1 == t2;
  }

  /** Because the over-attending penalty is taken on the mask-adjusted
      coverage, a padding position that received attention mass `c` costs at
      least `gamma * c`. */
  lemma PaddingChargedByOverattendPenalty(cfg: Config, coverage: seq<real>, mask: seq<real>, k: int)
    requires |coverage| == |mask| && 0 <= k < |mask| && mask[k] == 0.0 && cfg.gamma > 0.0
    ensures OverattendPenalty(cfg, MaskAdjust(coverage, mask)) <= -cfg.gamma * coverage[k]
  {
    assert MaskAdjust(coverage, mask)[k] - 1.0 == coverage[k];
  }
}
