/** One expansion step of the beam search: the step oracle's contract, the
    inputs built for it, the log-probabilities with the stop symbol floored
    below the minimum length, the pre-pruning to the `beam_size + 1` best
    symbols, and the children of every active hypothesis. */
module Expansion {
  import opened Numerics
  import opened Sorting
  import opened Hypotheses
  import opened Scoring

  /** One decoding problem: the options, the numeric functions, the batch,
      the initial decoder state of each sentence, the source mask of each
      sentence (one column of `inputs_mask`), the source length and the
      vocabulary size the oracle works with. */
  datatype Problem = Problem(
    cfg: Config,
    math: Math,
    batchSize: nat,
    states0: seq<DecoderState>,
    sourceMask: seq<seq<real>>,
    srcLen: nat,
    nSymbols: nat)

  /** A mask column: one entry in [0, 1] per source position. */
  predicate MaskColumn(mask: seq<real>, srcLen: nat) {
    |mask| == srcLen && forall k :: 0 <= k < srcLen ==> 0.0 <= mask[k] <= 1.0
  }

  /** What the search demands of its caller. */
  ghost predicate Valid(p: Problem) {
    && Sound(p.math)
    && PenaltiesDefined(p.cfg)
    && 0 <= p.cfg.stopSymbol < p.nSymbols
    && p.srcLen >= 1
    && p.batchSize <= |p.states0|
    && p.batchSize <= |p.sourceMask|
    && forall s :: 0 <= s < |p.sourceMask| ==> MaskColumn(p.sourceMask[s], p.srcLen)
  }

  /** What the step oracle returns: per active hypothesis, its new decoder
      state, its symbol distribution and its attention row. */
  datatype StepOutput = StepOutput(states: seq<DecoderState>, dists: seq<seq<real>>, attention: seq<seq<real>>)

  /** `step(i, states, prev_syms, mask, sent_indices)`. */
  type Oracle = (int, seq<DecoderState>, seq<int>, seq<real>, seq<int>) -> StepOutput

  /** One row per hypothesis, distributions over the vocabulary, attention
      rows over the source, attention non-negative. */
  ghost predicate Shaped(out: StepOutput, rows: nat, nSymbols: nat, srcLen: nat) {
    && |out.states| == rows
    && |out.dists| == rows
    && |out.attention| == rows
    && (forall j :: 0 <= j < rows ==> |out.dists[j]| == nSymbols && |out.attention[j]| == srcLen)
    && (forall j, k :: 0 <= j < rows && 0 <= k < srcLen ==> out.attention[j][k] >= 0.0)
  }

  /** The oracle keeps its contract on every batch of inputs. */
  ghost predicate Conforms(oracle: Oracle, nSymbols: nat, srcLen: nat) {
    forall i, states, prevSyms, mask, sentIndices ::
      Shaped(oracle(i, states, prevSyms, mask, sentIndices), |states|, nSymbols, srcLen)
  }

  function StatesOf(hs: seq<Hypothesis>): seq<DecoderState> {
    seq(|hs|, j requires 0 <= j < |hs| => hs[j].states)
  }

  function LastSymbols(hs: seq<Hypothesis>): seq<int> {
    seq(|hs|, j requires 0 <= j < |hs| => hs[j].lastSym)
  }

  function SentencesOf(hs: seq<Hypothesis>): seq<int> {
    seq(|hs|, j requires 0 <= j < |hs| => hs[j].sentence)
  }

  function Ones(n: nat): seq<real> {
    seq(n, _ => 1.0)
  }

  /** Builds the oracle's inputs: the states, the last symbols, an all-ones
      validity mask and the sentence ids of the active hypotheses. */
  method StepInputs(active: seq<Hypothesis>)
    returns (states: seq<DecoderState>, prevSyms: seq<int>, mask: seq<real>, sentIndices: seq<int>)
    ensures states == StatesOf(active)
    ensures prevSyms == LastSymbols(active)
    ensures mask == Ones(|active|)
    ensures sentIndices == SentencesOf(active)
  {
    var syms := new int[|active|](_ => 0);
    var valid := new real[|active|](_ => 1.0);
    var sents := new int[|active|](_ => 0);
    states := [];
    for j := 0 to |active|
      invariant |states| == j
      invariant forall k :: 0 <= k < j ==> states[k] == active[k].states
      invariant forall k :: 0 <= k < j ==> syms[k] == active[k].lastSym && sents[k] == active[k].sentence
      invariant forall k :: 0 <= k < |active| ==> valid[k] == 1.0
    {
      states := states + [active[j].states];
      syms[j] := active[j].lastSym;
      sents[j] := active[j].sentence;
    }
    prevSyms := syms[..];
    mask := valid[..];
    sentIndices := sents[..];
  }

  /** `np.log` of the distributions, after the stop symbol's probability has
      been set to 1e-30 when `i <= min_length`. */
  function LogProbs(p: Problem, i: int, dists: seq<seq<real>>): (r: seq<seq<real>>)
    requires Valid(p)
    requires forall j :: 0 <= j < |dists| ==> |dists[j]| == p.nSymbols
    ensures |r| == |dists|
    ensures forall j :: 0 <= j < |r| ==> |r[j]| == p.nSymbols
  {
    seq(|dists|, j requires 0 <= j < |dists| =>
      var row := if i <= p.cfg.minLength then dists[j][p.cfg.stopSymbol := Floor] else dists[j];
      seq(|row|, k requires 0 <= k < |row| => p.math.log(row[k])))
  }

  /** `syms` are the `k` best entries of `row` (all of them when the row is
      shorter), distinct, ascending by value as `argsort` lists them, and no
      symbol left out is better than one kept. */
  ghost predicate IsTop(row: seq<real>, syms: seq<int>, k: nat) {
    && |syms| == (if k < |row| then k else |row|)
    && (forall p :: 0 <= p < |syms| ==> 0 <= syms[p] < |row|)
    && (forall p, q :: 0 <= p < q < |syms| ==> syms[p] != syms[q])
    && (forall p, q :: 0 <= p < q < |syms| ==> row[syms[p]] <= row[syms[q]])
    && (forall p, b :: 0 <= p < |syms| && 0 <= b < |row| && b !in syms ==> row[b] <= row[syms[p]])
  }

  function ValueAt(row: seq<real>, a: int): real {
    if 0 <= a < |row| then row[a] else 0.0
  }

  /** Symbol `a` has at most the value of symbol `b`. */
  function ByValue(row: seq<real>): (int, int) -> bool {
    (a: int, b: int) => ValueAt(row, a) <= ValueAt(row, b)
  }

  function Indices(n: nat): seq<int> {
    seq(n, k => k)
  }

  lemma {:induction false} IndicesOnce(n: nat, v: int)
    ensures multiset(Indices(n))[v] == if 0 <= v < n then 1 else 0
  {
    if n > 0 {
      assert Indices(n) == Indices(n - 1) + [n - 1];
      IndicesOnce(n - 1, v);
    }
  }

  /** A permutation of 0..n-1 lists each of them exactly once. */
  lemma PermutationOfIndices(order: seq<int>, n: nat)
    requires multiset(order) == multiset(Indices(n))
    ensures forall p :: 0 <= p < |order| ==> 0 <= order[p] < n
    ensures forall p, q :: 0 <= p < q < |order| ==> order[p] != order[q]
    ensures forall v :: 0 <= v < n ==> v in order
  {
    forall p | 0 <= p < |order| ensures 0 <= order[p] < n {
      assert order[p] in multiset(order);
      IndicesOnce(n, order[p]);
    }
    forall p, q | 0 <= p < q < |order| ensures order[p] != order[q] {
      if order[p] == order[q] {
        var v := order[p];
        assert order == order[..q] + order[q..];
        assert v in order[..q] && v in order[q..];
        assert multiset(order)[v] == multiset(order[..q])[v] + multiset(order[q..])[v];
        IndicesOnce(n, v);
        assert false;
      }
    }
    forall v | 0 <= v < n ensures v in order {
      IndicesOnce(n, v);
      assert v in multiset(order);
    }
  }

  /** The last `m` entries of the index permutation sorted by value are the
      `m` best symbols. */
  lemma SuffixIsTop(row: seq<real>, order: seq<int>, k: nat)
    requires Sorted(order, ByValue(row))
    requires multiset(order) == multiset(Indices(|row|))
    ensures |order| == |row|
    ensures IsTop(row, order[|order| - (if k < |order| then k else |order|)..], k)
  {
    PermutationOfIndices(order, |row|);
    assert |order| == |row| by {
      assert |multiset(order)| == |multiset(Indices(|row|))|;
    }
    var start := |order| - (if k < |order| then k else |order|);
    var syms := order[start..];
    SuffixAscending(row, order, start);
    forall p, b | 0 <= p < |syms| && 0 <= b < |row| && b !in syms ensures row[b] <= row[syms[p]] {
      SymbolBeforeSuffix(row, order, start, b, p);
    }
  }

  /** Any suffix of a permutation sorted by value ascends in value. */
  lemma SuffixAscending(row: seq<real>, order: seq<int>, start: nat)
    requires Sorted(order, ByValue(row)) && start <= |order|
    requires forall q :: 0 <= q < |order| ==> 0 <= order[q] < |row|
    ensures forall p, q :: 0 <= p < q < |order| - start ==> row[order[start..][p]] <= row[order[start..][q]]
  {
    var syms := order[start..];
    forall p, q | 0 <= p < q < |syms| ensures row[syms[p]] <= row[syms[q]] {
      var a, b := order[start + p], order[start + q];
      assert ByValue(row)(a, b);
      assert ValueAt(row, a) <= ValueAt(row, b);
      assert syms[p] == a && syms[q] == b;
    }
  }

  lemma SymbolBeforeSuffix(row: seq<real>, order: seq<int>, start: nat, b: int, p: int)
    requires Sorted(order, ByValue(row))
    requires forall v :: 0 <= v < |row| ==> v in order
    requires forall q :: 0 <= q < |order| ==> 0 <= order[q] < |row|
    requires start <= |order| && 0 <= p < |order| - start
    requires 0 <= b < |row| && b !in order[start..]
    ensures row[b] <= row[order[start + p]]
  {
    assert b in order;
    var pb :| 0 <= pb < |order| && order[pb] == b;
    assert forall q :: start <= q < |order| ==> order[start..][q - start] == order[q];
    assert pb < start;
    assert ByValue(row)(order[pb], order[start + p]);
  }

  /** `np.argsort(row)[-k:]`: the `k` best symbols of one row. */
  function TopSymbols(row: seq<real>, k: nat): (syms: seq<int>)
    ensures IsTop(row, syms, k)
  {
    var le := ByValue(row);
    var order := Sort(Indices(|row|), le);
    assert Total(le) && Transitive(le);
    SortSorted(Indices(|row|), le);
    SuffixIsTop(row, order, k);
    order[|order| - (if k < |order| then k else |order|)..]
  }

  /** While `i <= min_length`, the stop symbol survives the pre-pruning only
      if every symbol that was cut has probability at most 1e-30. */
  lemma MinLengthSuppressesStop(p: Problem, i: int, dists: seq<seq<real>>, j: int, b: int)
    requires Valid(p)
    requires forall r :: 0 <= r < |dists| ==> |dists[r]| == p.nSymbols
    requires 0 <= j < |dists| && i <= p.cfg.minLength
    requires p.cfg.stopSymbol in TopSymbols(LogProbs(p, i, dists)[j], p.cfg.beamSize + 1)
    requires 0 <= b < p.nSymbols && b !in TopSymbols(LogProbs(p, i, dists)[j], p.cfg.beamSize + 1)
    requires dists[j][b] > 0.0
    ensures dists[j][b] <= Floor
  {
    var row := LogProbs(p, i, dists)[j];
    var syms := TopSymbols(row, p.cfg.beamSize + 1);
    var q :| 0 <= q < |syms| && syms[q] == p.cfg.stopSymbol;
    assert row[b] <= row[p.cfg.stopSymbol];
    assert row[p.cfg.stopSymbol] == p.math.log(Floor);
    assert row[b] == p.math.log(dists[j][b]);
  }

  /** The normalised score a hypothesis carries: the sentinel before it has
      emitted anything and while it is active, the penalised score of its own
      score, history length and coverage once it has stopped. */
  ghost predicate NormConsistent(p: Problem, h: Hypothesis)
    requires Valid(p) && |h.coverage| > 0
  {
    if h.history == [] then h.normScore == Sentinel
    else if h.lastSym == p.cfg.stopSymbol then
      h.normScore == NormScore(p.cfg, p.math, h.score, |h.history|, h.coverage)
    else h.normScore == Sentinel
  }

  /** The one-unit lift `coverage += 1 - mask` applies to a child that stops
      while the coverage penalty is on. */
  function Lift(p: Problem, sentence: int, symbol: int, k: int): real
    requires Valid(p) && 0 <= sentence < p.batchSize && 0 <= k < p.srcLen
  {
    if symbol == p.cfg.stopSymbol && p.cfg.beta > 0.0 then 1.0 - p.sourceMask[sentence][k] else 0.0
  }

  /** `h` extends `parent` by one symbol: same sentence, the parent's last
      symbol appended to the history, one log-probability added to the score,
      the oracle's state, one attention row added to the coverage (plus the
      mask lift when it stops), and a consistent normalised score. */
  ghost predicate Derives(p: Problem, parent: Hypothesis, h: Hypothesis, state: DecoderState, logRow: seq<real>, attn: seq<real>)
    requires Valid(p) && 0 <= parent.sentence < p.batchSize
    requires |parent.coverage| == p.srcLen && |attn| == p.srcLen
  {
    && h.sentence == parent.sentence
    && h.history == parent.history + [parent.lastSym]
    && 0 <= h.lastSym < |logRow|
    && h.score == parent.score + logRow[h.lastSym]
    && h.states == state
    && |h.coverage| == p.srcLen
    && (forall k :: 0 <= k < p.srcLen ==> h.coverage[k] == parent.coverage[k] + attn[k] + Lift(p, h.sentence, h.lastSym, k))
    && NormConsistent(p, h)
  }

  /** The hypothesis `parent` extended by `symbol`. */
  function Child(p: Problem, parent: Hypothesis, state: DecoderState, logRow: seq<real>, attn: seq<real>, symbol: int): (h: Hypothesis)
    requires Valid(p) && 0 <= parent.sentence < p.batchSize
    requires |parent.coverage| == p.srcLen && |attn| == p.srcLen
    requires 0 <= symbol < |logRow|
    ensures h.lastSym == symbol
    ensures Derives(p, parent, h, state, logRow, attn)
  {
    var history := parent.history + [parent.lastSym];
    var score := parent.score + logRow[symbol];
    var coverage := Accumulate(parent.coverage, attn);
    if symbol == p.cfg.stopSymbol then
      var adjusted := if p.cfg.beta > 0.0 then MaskAdjust(coverage, p.sourceMask[parent.sentence]) else coverage;
      Hypothesis(parent.sentence, score, NormScore(p.cfg, p.math, score, |history|, adjusted), history, symbol, state, adjusted)
    else
      Hypothesis(parent.sentence, score, Sentinel, history, symbol, state, coverage)
  }

  /** The children of one active hypothesis: one per pre-pruned symbol. */
  function Children(p: Problem, parent: Hypothesis, state: DecoderState, logRow: seq<real>, attn: seq<real>): seq<Hypothesis>
    requires Valid(p) && 0 <= parent.sentence < p.batchSize
    requires |parent.coverage| == p.srcLen && |attn| == p.srcLen
  {
    var syms := TopSymbols(logRow, p.cfg.beamSize + 1);
    seq(|syms|, t requires 0 <= t < |syms| => Child(p, parent, state, logRow, attn, syms[t]))
  }

  /** The children's symbols are the `beam_size + 1` best of the row, and
      every child extends the parent by its symbol. */
  lemma ChildrenSpec(p: Problem, parent: Hypothesis, state: DecoderState, logRow: seq<real>, attn: seq<real>)
    requires Valid(p) && 0 <= parent.sentence < p.batchSize
    requires |parent.coverage| == p.srcLen && |attn| == p.srcLen
    ensures var r := Children(p, parent, state, logRow, attn);
      IsTop(logRow, seq(|r|, t requires 0 <= t < |r| => r[t].lastSym), p.cfg.beamSize + 1)
    ensures forall h :: h in Children(p, parent, state, logRow, attn) ==>
      Derives(p, parent, h, state, logRow, attn) && h.lastSym in TopSymbols(logRow, p.cfg.beamSize + 1)
  {
    var r := Children(p, parent, state, logRow, attn);
    var syms := TopSymbols(logRow, p.cfg.beamSize + 1);
    assert seq(|r|, t requires 0 <= t < |r| => r[t].lastSym) == syms;
    forall h | h in r ensures Derives(p, parent, h, state, logRow, attn) && h.lastSym in syms {
      ChildDerives(p, parent, state, logRow, attn, h);
    }
  }

  /** One child extends the parent by one of the row's `beam_size + 1` best
      symbols. */
  lemma ChildDerives(p: Problem, parent: Hypothesis, state: DecoderState, logRow: seq<real>, attn: seq<real>, h: Hypothesis)
    requires Valid(p) && 0 <= parent.sentence < p.batchSize
    requires |parent.coverage| == p.srcLen && |attn| == p.srcLen
    requires h in Children(p, parent, state, logRow, attn)
    ensures Derives(p, parent, h, state, logRow, attn) && h.lastSym in TopSymbols(logRow, p.cfg.beamSize + 1)
  {
    var r := Children(p, parent, state, logRow, attn);
    var syms := TopSymbols(logRow, p.cfg.beamSize + 1);
    var t :| 0 <= t < |r| && r[t] == h;
    assert h == Child(p, parent, state, logRow, attn, syms[t]);
  }

  /** The oracle's output and the log-probabilities line up with the active
      hypotheses. */
  ghost predicate ExpandReady(p: Problem, act: seq<Hypothesis>, out: StepOutput, logd: seq<seq<real>>) {
    && Valid(p)
    && |out.states| == |act| && |out.attention| == |act| && |logd| == |act|
    && forall j :: 0 <= j < |act| ==>
         0 <= act[j].sentence < p.batchSize && |act[j].coverage| == p.srcLen && |out.attention[j]| == p.srcLen
  }

  /** `extended` after the first `n` active hypotheses have been expanded. */
  function Extended(p: Problem, act: seq<Hypothesis>, out: StepOutput, logd: seq<seq<real>>, n: nat): seq<Hypothesis>
    requires ExpandReady(p, act, out, logd) && n <= |act|
  {
    if n == 0 then []
    else Extended(p, act, out, logd, n - 1)
         + Children(p, act[n - 1], out.states[n - 1], logd[n - 1], out.attention[n - 1])
  }

  /** Every expanded hypothesis derives from one of the active hypotheses,
      by one of that hypothesis's pre-pruned symbols. */
  lemma {:induction false} ExtendedDerive(p: Problem, act: seq<Hypothesis>, out: StepOutput, logd: seq<seq<real>>, n: nat, h: Hypothesis)
    requires ExpandReady(p, act, out, logd) && n <= |act|
    requires h in Extended(p, act, out, logd, n)
    ensures exists j :: 0 <= j < n && Derives(p, act[j], h, out.states[j], logd[j], out.attention[j])
                        && h.lastSym in TopSymbols(logd[j], p.cfg.beamSize + 1)
  {
    if h in Extended(p, act, out, logd, n - 1) {
      ExtendedDerive(p, act, out, logd, n - 1, h);
    } else {
      ChildrenSpec(p, act[n - 1], out.states[n - 1], logd[n - 1], out.attention[n - 1]);
    }
  }

  /** The inner loop: extends one active hypothesis by each of its
      pre-pruned symbols, scoring the children that stop. */
  method ExtendOne(p: Problem, hyp: Hypothesis, state: DecoderState, logRow: seq<real>, attn: seq<real>)
    returns (children: seq<Hypothesis>)
    requires Valid(p) && 0 <= hyp.sentence < p.batchSize
    requires |hyp.coverage| == p.srcLen && |attn| == p.srcLen
    ensures children == Children(p, hyp, state, logRow, attn)
  {
    var history := hyp.history + [hyp.lastSym];
    var symbols := TopSymbols(logRow, p.cfg.beamSize + 1);
    children := [];
    for t := 0 to |symbols|
      invariant children == seq(t, u requires 0 <= u < t => Child(p, hyp, state, logRow, attn, symbols[u]))
    {
      var child := ExtendBy(p, hyp, history, state, logRow, attn, symbols[t]);
      children := children + [child];
    }
  }

  /** The body of the inner loop: the new hypothesis for one symbol, scored
      and, for the stop symbol, normalised with the penalties. */
  method ExtendBy(p: Problem, hyp: Hypothesis, history: seq<int>, state: DecoderState, logRow: seq<real>, attn: seq<real>, symbol: int)
    returns (child: Hypothesis)
    requires Valid(p) && 0 <= hyp.sentence < p.batchSize
    requires |hyp.coverage| == p.srcLen && |attn| == p.srcLen
    requires 0 <= symbol < |logRow| && history == hyp.history + [hyp.lastSym]
    ensures child == Child(p, hyp, state, logRow, attn, symbol)
  {
    var score := hyp.score + logRow[symbol];
    var normScore := Sentinel;
    var coverage := Accumulate(hyp.coverage, attn);
    if symbol == p.cfg.stopSymbol {
      var lp := LengthPenalty(p.cfg, p.math, |history|);
      if p.cfg.beta > 0.0 {
        coverage := MaskAdjust(coverage, p.sourceMask[hyp.sentence]);
      }
      var cp := CoveragePenalty(p.cfg, p.math, coverage);
      var oap := OverattendPenalty(p.cfg, coverage);
      normScore := score / lp + cp + oap;
    }
    child := Hypothesis(hyp.sentence, score, normScore, history, symbol, state, coverage);
  }

  /** The outer loop: the children of every active hypothesis, in order. */
  method ExtendActive(p: Problem, act: seq<Hypothesis>, out: StepOutput, logd: seq<seq<real>>)
    returns (extended: seq<Hypothesis>)
    requires ExpandReady(p, act, out, logd)
    ensures extended == Extended(p, act, out, logd, |act|)
  {
    extended := [];
    for j := 0 to |act|
      invariant extended == Extended(p, act, out, logd, j)
    {
      ExtendedNext(p, act, out, logd, j);
      var children := ExtendOne(p, act[j], out.states[j], logd[j], out.attention[j]);
      extended := extended + children;
    }
  }

  /** Expanding one more active hypothesis appends its children. */
  lemma ExtendedNext(p: Problem, act: seq<Hypothesis>, out: StepOutput, logd: seq<seq<real>>, j: nat)
    requires ExpandReady(p, act, out, logd) && j < |act|
    ensures 0 <= act[j].sentence < p.batchSize && |act[j].coverage| == p.srcLen && |out.attention[j]| == p.srcLen
    ensures Extended(p, act, out, logd, j + 1)
      == Extended(p, act, out, logd, j) + Children(p, act[j], out.states[j], logd[j], out.attention[j])
  {
  }
}
