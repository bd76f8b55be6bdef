/** The beam search with coverage: the initial beams, one step of the loop
    (split, query the oracle, expand, prune), the search as a recursive
    specification, and the loop itself proved equal to it. */
module Search {
  import opened Numerics
  import opened Hypotheses
  import opened Scoring
  import opened Expansion
  import opened Pruning

  /** One hypothesis per sentence: raw score 0, the sentinel as normalised
      score, an empty history, the start symbol as last symbol, the
      sentence's initial decoder state and a coverage of 1e-30 everywhere. */
  function Init(p: Problem): (beams: seq<Hypothesis>)
    requires p.batchSize <= |p.states0|
    ensures |beams| == p.batchSize
    ensures forall s :: 0 <= s < p.batchSize ==> beams[s].sentence == s && beams[s].states == p.states0[s]
  {
    seq(p.batchSize, s requires 0 <= s < p.batchSize =>
      Hypothesis(s, 0.0, Sentinel, [], p.cfg.startSymbol, p.states0[s], seq(p.srcLen, _ => Floor)))
  }

  /** Every hypothesis belongs to a sentence of the batch and has one
      coverage entry per source position: what indexing the mask and adding
      attention rows needs. */
  ghost predicate Aligned(p: Problem, beams: seq<Hypothesis>) {
    forall h {:trigger h in beams} :: h in beams ==> 0 <= h.sentence < p.batchSize && |h.coverage| == p.srcLen
  }

  /** What every hypothesis of the beams satisfies before iteration `i`: a
      sentence of the batch, a coverage over the source of at least 1e-30
      everywhere, a consistent normalised score, a history of `i` symbols
      while active and of at most `i` once stopped, and a history that
      starts with the start symbol. */
  ghost predicate Fits(p: Problem, i: int, h: Hypothesis)
    requires Valid(p)
  {
    && 0 <= h.sentence < p.batchSize
    && |h.coverage| == p.srcLen
    && (forall k :: 0 <= k < p.srcLen ==> h.coverage[k] >= Floor)
    && NormConsistent(p, h)
    && |h.history| <= i
    && (h.lastSym != p.cfg.stopSymbol ==> |h.history| == i)
    && (if h.history == [] then h.lastSym == p.cfg.startSymbol else h.history[0] == p.cfg.startSymbol)
  }

  ghost predicate BeamsOk(p: Problem, i: int, beams: seq<Hypothesis>)
    requires Valid(p)
  {
    forall h :: h in beams ==> Fits(p, i, h)
  }

  /** How many hypotheses a sentence may hold before iteration `i`: one
      initially, `beam_size` after any pruning. */
  function Width(p: Problem, i: int): nat {
    if i == 0 then 1 else p.cfg.beamSize
  }

  /** The search can take a step from `beams`. */
  ghost predicate StepReady(p: Problem, oracle: Oracle, beams: seq<Hypothesis>) {
    && Valid(p)
    && Conforms(oracle, p.nSymbols, p.srcLen)
    && Aligned(p, beams)
  }

  /** The initial beams hold exactly one hypothesis of every sentence of the
      batch and none of any other, and they satisfy the beam invariant. */
  lemma InitSpec(p: Problem)
    requires Valid(p)
    ensures BeamsOk(p, 0, Init(p))
    ensures forall s :: CountOf(Init(p), s) == if 0 <= s < p.batchSize then 1 else 0
    ensures forall h :: h in Init(p) ==>
      && h.score == 0.0 && h.normScore == Sentinel && h.history == []
      && h.lastSym == p.cfg.startSymbol && h.coverage == seq(p.srcLen, _ => Floor)
  {
    var beams := Init(p);
    forall s ensures CountOf(beams, s) == if 0 <= s < p.batchSize then 1 else 0 {
      CountConsecutive(beams, 0, s);
    }
  }

  /** Hypotheses whose sentences are `base`, `base + 1`, ... count once for
      each of those sentences. */
  lemma {:induction false} CountConsecutive(hs: seq<Hypothesis>, base: int, s: int)
    requires forall k :: 0 <= k < |hs| ==> hs[k].sentence == base + k
    ensures CountOf(hs, s) == if base <= s < base + |hs| then 1 else 0
  {
    if hs != [] {
      CountConsecutive(hs[1..], base + 1, s);
    }
  }

  /** `step(i, states, prev_syms, mask, sent_indices)` on the active
      hypotheses. */
  function Query(oracle: Oracle, i: int, act: seq<Hypothesis>): StepOutput {
    oracle(i, StatesOf(act), LastSymbols(act), Ones(|act|), SentencesOf(act))
  }

  /** The pool one iteration prunes: the completed hypotheses of the beams
      followed by the expansions of the active ones, after querying the
      oracle on the active hypotheses and taking the log-probabilities. */
  function StepPool(p: Problem, oracle: Oracle, i: int, beams: seq<Hypothesis>): seq<Hypothesis>
    requires StepReady(p, oracle, beams)
  {
    var act := Active(beams, p.cfg.stopSymbol);
    var out := Query(oracle, i, act);
    var logd := LogProbs(p, i, out.dists);
    QueryReady(p, oracle, i, beams);
    Completed(beams, p.cfg.stopSymbol) + Extended(p, act, out, logd, |act|)
  }

  /** One iteration of the loop body once some hypothesis is active: expand
      every active hypothesis and prune the completed hypotheses together
      with the expansions. */
  function Step(p: Problem, oracle: Oracle, i: int, beams: seq<Hypothesis>): seq<Hypothesis>
    requires StepReady(p, oracle, beams)
  {
    Prune(p.cfg, StepPool(p, oracle, i, beams))
  }

  /** The oracle's output lines up with the active hypotheses. */
  lemma QueryReady(p: Problem, oracle: Oracle, i: int, beams: seq<Hypothesis>)
    requires StepReady(p, oracle, beams)
    ensures var act := Active(beams, p.cfg.stopSymbol);
      var out := Query(oracle, i, act);
      && Shaped(out, |act|, p.nSymbols, p.srcLen)
      && ExpandReady(p, act, out, LogProbs(p, i, out.dists))
  {
    var act := Active(beams, p.cfg.stopSymbol);
    var out := Query(oracle, i, act);
    assert Shaped(out, |StatesOf(act)|, p.nSymbols, p.srcLen);
    forall j | 0 <= j < |act| ensures 0 <= act[j].sentence < p.batchSize && |act[j].coverage| == p.srcLen {
      assert act[j] in act;
    }
  }

  /** Every hypothesis after the step is either a completed hypothesis of
      the beams, carried over unchanged, or a one-symbol extension of an
      active hypothesis by one of its pre-pruned symbols, with the oracle's
      state, log-probabilities and attention for it. */
  lemma StepDerivation(p: Problem, oracle: Oracle, i: int, beams: seq<Hypothesis>, h: Hypothesis)
    requires StepReady(p, oracle, beams)
    requires h in Step(p, oracle, i, beams)
    ensures var act := Active(beams, p.cfg.stopSymbol);
      var out := Query(oracle, i, act);
      var logd := LogProbs(p, i, out.dists);
      ExpandReady(p, act, out, logd) &&
      ((h in beams && h.lastSym == p.cfg.stopSymbol)
       || exists j :: 0 <= j < |act| && Derives(p, act[j], h, out.states[j], logd[j], out.attention[j])
                      && h.lastSym in TopSymbols(logd[j], p.cfg.beamSize + 1))
  {
    var act := Active(beams, p.cfg.stopSymbol);
    var out := Query(oracle, i, act);
    var logd := LogProbs(p, i, out.dists);
    QueryReady(p, oracle, i, beams);
    var pool := Completed(beams, p.cfg.stopSymbol) + Extended(p, act, out, logd, |act|);
    PruneSpec(p.cfg, pool);
    if h !in Completed(beams, p.cfg.stopSymbol) {
      ExtendedDerive(p, act, out, logd, |act|, h);
    }
  }

  /** Every hypothesis after the step is in the pruned group of its own
      sentence of the pool (the completed hypotheses and the expansions),
      and it passed the keep rule against that group's best normalised
      score. */
  lemma StepSurvivors(p: Problem, oracle: Oracle, i: int, beams: seq<Hypothesis>, h: Hypothesis)
    requires StepReady(p, oracle, beams)
    requires h in Step(p, oracle, i, beams)
    ensures var groups := BySentence(StepPool(p, oracle, i, beams));
      exists a :: 0 <= a < |groups|
        && h.sentence == groups[a].sentence
        && h in PruneGroup(p.cfg, groups[a].hyps)
        && Keep(p.cfg, h, BestNorm(groups[a].hyps))
  {
    PruneKeeps(p.cfg, StepPool(p, oracle, i, beams), h);
  }

  /** The step keeps every hypothesis aligned with the batch and the
      source. */
  lemma StepAligned(p: Problem, oracle: Oracle, i: int, beams: seq<Hypothesis>)
    requires StepReady(p, oracle, beams)
    ensures Aligned(p, Step(p, oracle, i, beams))
  {
    var act := Active(beams, p.cfg.stopSymbol);
    var out := Query(oracle, i, act);
    var logd := LogProbs(p, i, out.dists);
    forall h | h in Step(p, oracle, i, beams) ensures 0 <= h.sentence < p.batchSize && |h.coverage| == p.srcLen {
      StepDerivation(p, oracle, i, beams, h);
      if !(h in beams && h.lastSym == p.cfg.stopSymbol) {
        var j :| 0 <= j < |act| && Derives(p, act[j], h, out.states[j], logd[j], out.attention[j]);
      }
    }
  }

  /** A child of an active hypothesis of iteration `i` fits iteration
      `i + 1`. */
  lemma ChildFits(p: Problem, i: int, parent: Hypothesis, h: Hypothesis, state: DecoderState, logRow: seq<real>, attn: seq<real>)
    requires Valid(p) && Fits(p, i, parent) && parent.lastSym != p.cfg.stopSymbol
    requires |attn| == p.srcLen && forall k :: 0 <= k < p.srcLen ==> attn[k] >= 0.0
    requires Derives(p, parent, h, state, logRow, attn)
    ensures Fits(p, i + 1, h)
  {
    forall k | 0 <= k < p.srcLen ensures h.coverage[k] >= Floor {
      assert MaskColumn(p.sourceMask[h.sentence], p.srcLen);
      assert Lift(p, h.sentence, h.lastSym, k) >= 0.0;
    }
    if parent.history != [] {
      assert h.history[0] == parent.history[0];
    }
  }

  /** The step keeps the beam invariant for the next iteration and leaves at
      most `beam_size` hypotheses of any sentence. */
  lemma StepPreserves(p: Problem, oracle: Oracle, i: int, beams: seq<Hypothesis>)
    requires StepReady(p, oracle, beams) && BeamsOk(p, i, beams)
    ensures BeamsOk(p, i + 1, Step(p, oracle, i, beams))
    ensures forall s :: CountOf(Step(p, oracle, i, beams), s) <= p.cfg.beamSize
  {
    var act := Active(beams, p.cfg.stopSymbol);
    var out := Query(oracle, i, act);
    var logd := LogProbs(p, i, out.dists);
    QueryReady(p, oracle, i, beams);
    var pool := Completed(beams, p.cfg.stopSymbol) + Extended(p, act, out, logd, |act|);
    PruneSpec(p.cfg, pool);
    forall h | h in Step(p, oracle, i, beams) ensures Fits(p, i + 1, h) {
      StepDerivation(p, oracle, i, beams, h);
      if !(h in beams && h.lastSym == p.cfg.stopSymbol) {
        var j :| 0 <= j < |act| && Derives(p, act[j], h, out.states[j], logd[j], out.attention[j]);
        assert act[j] in act;
        ChildFits(p, i, act[j], h, out.states[j], logd[j], out.attention[j]);
      }
    }
  }

  /** A step function the loop can run: defined on aligned beams, which it
      keeps aligned. */
  ghost predicate Closed(p: Problem, step: (int, seq<Hypothesis>) --> seq<Hypothesis>) {
    forall i, beams :: Aligned(p, beams) ==> step.requires(i, beams) && Aligned(p, step(i, beams))
  }

  /** The loop of `beam_with_coverage` from iteration `i` on, for a given
      loop body `step`: `range(max_length - 2)` runs out, or no hypothesis
      is active any more, or one more step. The result is the final beams
      and the iteration count `beam_with_coverage` reports. */
  function SearchFrom(p: Problem, step: (int, seq<Hypothesis>) --> seq<Hypothesis>, i: int, beams: seq<Hypothesis>): (seq<Hypothesis>, int)
    requires Closed(p, step) && Aligned(p, beams)
    decreases p.cfg.maxLength - i, 1
  {
    if i >= p.cfg.maxLength - 2 then (beams, p.cfg.maxLength - 1)
    else if Active(beams, p.cfg.stopSymbol) == [] then (beams, i)
    else Continue(p, step, i, beams)
  }

  /** One more iteration: the loop body on the beams, then the loop from
      the next iteration. */
  function Continue(p: Problem, step: (int, seq<Hypothesis>) --> seq<Hypothesis>, i: int, beams: seq<Hypothesis>): (seq<Hypothesis>, int)
    requires Closed(p, step) && Aligned(p, beams) && i < p.cfg.maxLength - 2
    decreases p.cfg.maxLength - i, 0
  {
    SearchFrom(p, step, i + 1, step(i, beams))
  }

  /** The beams after `n` iterations of the loop body from `beams`, with no
      early return: iteration `k` maps the beams before it by `step(k, _)`. */
  function Iterate(p: Problem, step: (int, seq<Hypothesis>) --> seq<Hypothesis>, n: nat, beams: seq<Hypothesis>): (r: seq<Hypothesis>)
    requires Closed(p, step) && Aligned(p, beams)
    ensures Aligned(p, r)
  {
    if n == 0 then beams else step(n - 1, Iterate(p, step, n - 1, beams))
  }

  /** The loop body of `beam_with_coverage`: `Step` with this oracle. */
  function StepOf(p: Problem, oracle: Oracle): (int, seq<Hypothesis>) --> seq<Hypothesis> {
    (i, beams) requires StepReady(p, oracle, beams) => Step(p, oracle, i, beams)
  }

  /** `beam_with_coverage`: the loop from the initial beams, and the final
      beams grouped by sentence. */
  function Search(p: Problem, oracle: Oracle): (seq<Group>, int)
    requires Valid(p) && Conforms(oracle, p.nSymbols, p.srcLen)
  {
    InitSpec(p);
    StepKeeps(p, oracle);
    var r := SearchFrom(p, StepOf(p, oracle), 0, Init(p));
    (BySentence(r.0), r.1)
  }

  /** The beams of `beam_with_coverage` after `n` iterations, had none of
      them returned early. */
  function BeamsAfter(p: Problem, oracle: Oracle, n: nat): seq<Hypothesis>
    requires Valid(p) && Conforms(oracle, p.nSymbols, p.srcLen)
  {
    InitSpec(p);
    StepKeeps(p, oracle);
    Iterate(p, StepOf(p, oracle), n, Init(p))
  }

  /** The number of completed loop iterations behind a reported count:
      `max_length - 1` stands for all `max_length - 2` of them (none when
      that range is empty), an early return at `i` for `i`. */
  function Rounds(p: Problem, steps: int): int {
    if steps == p.cfg.maxLength - 1 then (if p.cfg.maxLength > 2 then p.cfg.maxLength - 2 else 0) else steps
  }

  /** The search's invariant before iteration `i`: every hypothesis fits
      the iteration, the iteration lies within `range(max_length - 2)` (or
      is the first), and no sentence holds more hypotheses than the width
      allows. */
  ghost predicate Inv(p: Problem, i: int, beams: seq<Hypothesis>) {
    && Valid(p)
    && Aligned(p, beams)
    && 0 <= i
    && (i == 0 || i <= p.cfg.maxLength - 2)
    && BeamsOk(p, i, beams)
    && forall s :: CountOf(beams, s) <= Width(p, i)
  }

  /** Where the loop ends, from iteration `i` on: it reports
      `max_length - 1`, or an iteration from `i` on before the range runs
      out at which no hypothesis is active; the final beams satisfy the
      invariant of the rounds taken. */
  ghost predicate Ends(p: Problem, i: int, r: (seq<Hypothesis>, int))
    requires Valid(p)
  {
    && (r.1 == p.cfg.maxLength - 1 || (i <= r.1 < p.cfg.maxLength - 2 && Active(r.0, p.cfg.stopSymbol) == []))
    && BeamsOk(p, Rounds(p, r.1), r.0)
    && forall s :: CountOf(r.0, s) <= Width(p, Rounds(p, r.1))
  }

  /** A step function the loop can run that keeps the invariant from one
      iteration to the next. */
  ghost predicate Keeps(p: Problem, step: (int, seq<Hypothesis>) --> seq<Hypothesis>) {
    && Closed(p, step)
    && forall i, beams :: Inv(p, i, beams) && i < p.cfg.maxLength - 2 && Active(beams, p.cfg.stopSymbol) != [] ==>
         Inv(p, i + 1, step(i, beams))
  }

  /** The loop body of `beam_with_coverage` is such a step function. */
  lemma StepKeeps(p: Problem, oracle: Oracle)
    requires Valid(p) && Conforms(oracle, p.nSymbols, p.srcLen)
    ensures Keeps(p, StepOf(p, oracle))
  {
    var step := StepOf(p, oracle);
    forall i, beams | Aligned(p, beams) ensures step.requires(i, beams) && Aligned(p, step(i, beams)) {
      StepAligned(p, oracle, i, beams);
    }
    forall i, beams | Inv(p, i, beams) && i < p.cfg.maxLength - 2 && Active(beams, p.cfg.stopSymbol) != []
      ensures Inv(p, i + 1, step(i, beams))
    {
      StepPreserves(p, oracle, i, beams);
      StepAligned(p, oracle, i, beams);
    }
  }

  /** Whatever step function keeps the invariant, the loop from iteration
      `i` ends as `Ends` says. */
  lemma {:induction false} SearchFromSpec(p: Problem, step: (int, seq<Hypothesis>) --> seq<Hypothesis>, i: int, beams: seq<Hypothesis>)
    requires Keeps(p, step) && Inv(p, i, beams)
    decreases p.cfg.maxLength - i
    ensures Ends(p, i, SearchFrom(p, step, i, beams))
  {
    if i >= p.cfg.maxLength - 2 {
      assert Rounds(p, p.cfg.maxLength - 1) == i;
    } else if Active(beams, p.cfg.stopSymbol) == [] {
      assert Rounds(p, i) == i;
    } else {
      var r := SearchFrom(p, step, i + 1, step(i, beams));
      SearchFromSpec(p, step, i + 1, step(i, beams));
      assert SearchFrom(p, step, i, beams) == Continue(p, step, i, beams) == r;
      assert Ends(p, i + 1, r);
    }
  }

  /** The loop from iteration `i`, started on the beams of `i` iterations,
      ends on the beams of exactly the rounds it reports, and it stops
      early as soon as no hypothesis is active: every iteration before the
      rounds it reports still had an active hypothesis. */
  lemma {:induction false} SearchFromTrace(p: Problem, step: (int, seq<Hypothesis>) --> seq<Hypothesis>, start: seq<Hypothesis>, i: nat, beams: seq<Hypothesis>)
    requires Closed(p, step) && Aligned(p, start)
    requires i == 0 || i <= p.cfg.maxLength - 2
    requires beams == Iterate(p, step, i, start)
    decreases p.cfg.maxLength - i
    ensures var r := SearchFrom(p, step, i, beams);
      && 0 <= Rounds(p, r.1)
      && r.0 == Iterate(p, step, Rounds(p, r.1), start)
      && forall n :: i <= n < Rounds(p, r.1) ==> Active(Iterate(p, step, n, start), p.cfg.stopSymbol) != []
  {
    if i >= p.cfg.maxLength - 2 {
      assert Rounds(p, p.cfg.maxLength - 1) == i;
    } else if Active(beams, p.cfg.stopSymbol) == [] {
      assert Rounds(p, i) == i;
    } else {
      var next := step(i, beams);
      assert next == Iterate(p, step, i + 1, start);
      SearchFromTrace(p, step, start, i + 1, next);
      assert SearchFrom(p, step, i, beams) == Continue(p, step, i, beams);
    }
  }

  /** What the search promises: it reports `max_length - 1`, or an earlier
      iteration at which every hypothesis has stopped; the groups ascend by
      sentence, each ranked, each within the width of its round, and every
      hypothesis satisfies the beam invariant of that round. */
  ghost predicate Outcome(p: Problem, r: (seq<Group>, int))
    requires Valid(p)
  {
    && (r.1 == p.cfg.maxLength - 1
        || (0 <= r.1 < p.cfg.maxLength - 2 && forall g, h {:trigger h in g.hyps, g in r.0} :: g in r.0 && h in g.hyps ==> h.lastSym == p.cfg.stopSymbol))
    && (forall g {:trigger g in r.0} :: g in r.0 ==> |g.hyps| <= Width(p, Rounds(p, r.1)))
    && (forall g, h {:trigger h in g.hyps, g in r.0} :: g in r.0 && h in g.hyps ==> Fits(p, Rounds(p, r.1), h))
    && (forall a, b :: 0 <= a < b < |r.0| ==> r.0[a].sentence < r.0[b].sentence)
    && (forall g {:trigger g in r.0} :: g in r.0 ==> Ranked(g.hyps))
  }

  /** The grouped beams keep the width and the invariant of the beams. */
  lemma GroupsOf(p: Problem, i: int, beams: seq<Hypothesis>)
    requires Valid(p) && BeamsOk(p, i, beams) && forall s :: CountOf(beams, s) <= Width(p, i)
    ensures forall g {:trigger g in BySentence(beams)} :: g in BySentence(beams) ==> |g.hyps| <= Width(p, i)
    ensures forall g, h {:trigger h in g.hyps, g in BySentence(beams)} :: g in BySentence(beams) && h in g.hyps ==> Fits(p, i, h)
    ensures Active(beams, p.cfg.stopSymbol) == [] ==>
      forall g, h {:trigger h in g.hyps, g in BySentence(beams)} :: g in BySentence(beams) && h in g.hyps ==> h.lastSym == p.cfg.stopSymbol
  {
    var groups := BySentence(beams);
    forall g | g in groups ensures |g.hyps| <= Width(p, i) {
      var a :| 0 <= a < |groups| && groups[a] == g;
      GroupSizeIsCount(beams, a);
    }
    forall g, h | g in groups && h in g.hyps ensures Fits(p, i, h) && h in beams {
      var a :| 0 <= a < |groups| && groups[a] == g;
      GroupedFrom(beams, a, h);
    }
    if Active(beams, p.cfg.stopSymbol) == [] {
      forall g, h | g in groups && h in g.hyps ensures h.lastSym == p.cfg.stopSymbol {
        var a :| 0 <= a < |groups| && groups[a] == g;
        GroupedFrom(beams, a, h);
        assert h !in Active(beams, p.cfg.stopSymbol);
      }
    }
  }

  /** `beam_with_coverage` reports `max_length - 1`, or an earlier
      iteration only when every hypothesis has stopped; it returns the
      groups in ascending sentence order, each ranked by normalised then raw
      score, with at most `beam_size` hypotheses (one when no round was
      pruned), each of a sentence of the batch, with a consistent
      normalised score and a history of at most the number of rounds
      taken. */
  lemma SearchSpec(p: Problem, oracle: Oracle)
    requires Valid(p) && Conforms(oracle, p.nSymbols, p.srcLen)
    ensures Outcome(p, Search(p, oracle))
    ensures var r := Search(p, oracle);
      && 0 <= Rounds(p, r.1)
      && r.0 == BySentence(BeamsAfter(p, oracle, Rounds(p, r.1)))
      && (forall n :: 0 <= n < Rounds(p, r.1) ==> Active(BeamsAfter(p, oracle, n), p.cfg.stopSymbol) != [])
      && (r.1 == p.cfg.maxLength - 1 || Active(BeamsAfter(p, oracle, r.1), p.cfg.stopSymbol) == [])
  {
    InitSpec(p);
    StepKeeps(p, oracle);
    var r := SearchFrom(p, StepOf(p, oracle), 0, Init(p));
    SearchFromSpec(p, StepOf(p, oracle), 0, Init(p));
    SearchFromTrace(p, StepOf(p, oracle), Init(p), 0, Init(p));
    BySentenceSpec(r.0);
    GroupsOf(p, Rounds(p, r.1), r.0);
  }

  /** One round of the loop once some hypothesis is active: build the
      oracle's inputs, query it, floor the stop symbol and take logarithms,
      expand the active hypotheses and prune. */
  method Round(p: Problem, oracle: Oracle, i: int, beams: seq<Hypothesis>, active: seq<Hypothesis>, completed: seq<Hypothesis>)
    returns (next: seq<Hypothesis>)
    requires StepReady(p, oracle, beams)
    requires active == Active(beams, p.cfg.stopSymbol) && completed == Completed(beams, p.cfg.stopSymbol)
    ensures next == Step(p, oracle, i, beams)
  {
    var states, prevSyms, mask, sentIndices := StepInputs(active);
    var out := oracle(i, states, prevSyms, mask, sentIndices);
    assert out == Query(oracle, i, active);
    QueryReady(p, oracle, i, beams);
    var logd := LogProbs(p, i, out.dists);
    var extended := ExtendActive(p, active, out, logd);
    next := PruneBeams(p.cfg, completed + extended);
  }

  /** A round from iteration `i` keeps the beams aligned, and the loop goes
      on from the next iteration with the new beams. */
  lemma Advance(p: Problem, oracle: Oracle, i: int, beams: seq<Hypothesis>, next: seq<Hypothesis>)
    requires StepReady(p, oracle, beams) && i < p.cfg.maxLength - 2 && Active(beams, p.cfg.stopSymbol) != []
    requires next == Step(p, oracle, i, beams)
    ensures Closed(p, StepOf(p, oracle)) && Aligned(p, next)
    ensures SearchFrom(p, StepOf(p, oracle), i, beams) == SearchFrom(p, StepOf(p, oracle), i + 1, next)
  {
    StepKeeps(p, oracle);
    assert next == StepOf(p, oracle)(i, beams);
    assert SearchFrom(p, StepOf(p, oracle), i, beams) == Continue(p, StepOf(p, oracle), i, beams);
  }

  /** The loop starts from aligned beams with a step function it can run. */
  lemma Start(p: Problem, oracle: Oracle)
    requires Valid(p) && Conforms(oracle, p.nSymbols, p.srcLen)
    ensures Aligned(p, Init(p)) && Closed(p, StepOf(p, oracle))
  {
    InitSpec(p);
    StepKeeps(p, oracle);
  }

  /** The loop of `beam_with_coverage`. */
  method BeamWithCoverage(p: Problem, oracle: Oracle) returns (groups: seq<Group>, steps: int)
    requires Valid(p) && Conforms(oracle, p.nSymbols, p.srcLen)
    ensures (groups, steps) == Search(p, oracle)
  {
    var beams := Init(p);
    Start(p, oracle);
    var i := 0;
    while i < p.cfg.maxLength - 2
      invariant Aligned(p, beams)
      invariant SearchFrom(p, StepOf(p, oracle), i, beams) == SearchFrom(p, StepOf(p, oracle), 0, Init(p))
      decreases p.cfg.maxLength - i
    {
      var active := Active(beams, p.cfg.stopSymbol);
      var completed := Completed(beams, p.cfg.stopSymbol);
      if |active| == 0 {
        return BySentence(beams), i;
      }
      var next := Round(p, oracle, i, beams, active, completed);
      Advance(p, oracle, i, beams, next);
      beams, i := next, i + 1;
    }
    return BySentence(beams), p.cfg.maxLength - 1;
  }
}
