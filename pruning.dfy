/** The pruning policy: within each sentence group, the keep rule against
    the group's best normalised score, then the cap of `beam_size`
    hypotheses ranked by raw score. */
module Pruning {
  import opened Numerics
  import opened Sorting
  import opened Hypotheses
  import opened Scoring

  function NormScores(group: seq<Hypothesis>): seq<real> {
    seq(|group|, k requires 0 <= k < |group| => group[k].normScore)
  }

  /** `max(hyp.norm_score for hyp in group)`. */
  function BestNorm(group: seq<Hypothesis>): (best: real)
    requires |group| > 0
    ensures forall h :: h in group ==> h.normScore <= best
    ensures exists h :: h in group && h.normScore == best
  {
    var scores := NormScores(group);
    assert forall k :: 0 <= k < |group| ==> scores[k] == group[k].normScore;
    MaxOf(scores)
  }

  /** The `keep` predicate: everything when pruning is off; a completed
      hypothesis within 1e-6 of the best normalised score; an active
      hypothesis whose raw score beats the best normalised score scaled by
      `speed_prune`. */
  predicate Keep(cfg: Config, h: Hypothesis, best: real) {
    if !cfg.prune then true
    else if h.lastSym == cfg.stopSymbol then h.normScore > best - Epsilon
    else h.score > best * cfg.speedPrune
  }

  /** `[hyp for hyp in group if keep(hyp, best)]`. */
  function Survivors(cfg: Config, group: seq<Hypothesis>, best: real): (r: seq<Hypothesis>)
    ensures forall h :: h in r <==> h in group && Keep(cfg, h, best)
    ensures !cfg.prune ==> r == group
  {
    if group == [] then []
    else if Keep(cfg, group[0], best) then [group[0]] + Survivors(cfg, group[1..], best)
    else Survivors(cfg, group[1..], best)
  }

  /** The filter takes each hypothesis at most as often as the group holds
      it. */
  lemma {:induction false} SurvivorsWithin(cfg: Config, group: seq<Hypothesis>, best: real)
    ensures multiset(Survivors(cfg, group, best)) <= multiset(group)
  {
    if group != [] {
      SurvivorsWithin(cfg, group[1..], best);
      assert group == [group[0]] + group[1..];
    }
  }

  /** `a` sorts before or ties with `b` under the key `-score`. */
  function ByScore(a: Hypothesis, b: Hypothesis): bool {
    -a.score <= -b.score
  }

  lemma ByScoreIsPreorder()
    ensures Total(ByScore) && Transitive(ByScore)
  {
  }

  /** `sorted(group, key=lambda hyp: -hyp.score)[:beam_size]` after the keep
      filter. */
  function PruneGroup(cfg: Config, group: seq<Hypothesis>): seq<Hypothesis>
    requires |group| > 0
  {
    var ranked := Sort(Survivors(cfg, group, BestNorm(group)), ByScore);
    ranked[..if cfg.beamSize < |ranked| then cfg.beamSize else |ranked|]
  }

  /** The cap taken from the raw-score ranking: at most `beam_size` of it,
      in order. */
  lemma RankedPrefix(ranked: seq<Hypothesis>, n: nat)
    requires Sorted(ranked, ByScore) && n <= |ranked|
    ensures forall p, q :: 0 <= p < q < n ==> ranked[..n][p].score >= ranked[..n][q].score
    ensures forall h, x :: h in ranked && h !in ranked[..n] && x in ranked[..n] ==> h.score <= x.score
  {
    forall p, q | 0 <= p < q < n ensures ranked[..n][p].score >= ranked[..n][q].score {
      assert ByScore(ranked[p], ranked[q]);
    }
    forall h, x | h in ranked && h !in ranked[..n] && x in ranked[..n] ensures h.score <= x.score {
      var ph :| 0 <= ph < |ranked| && ranked[ph] == h;
      var px :| 0 <= px < n && ranked[..n][px] == x;
      assert forall q :: 0 <= q < n ==> ranked[..n][q] == ranked[q];
      assert ph >= n;
      assert ByScore(ranked[px], ranked[ph]);
    }
  }

  /** A pruned group holds the `beam_size` best-scoring survivors of the keep
      rule (all of them if fewer), each taken at most as often as it
      survives, in descending raw-score order, and no survivor left out
      scores above one kept. */
  lemma PruneGroupSpec(cfg: Config, group: seq<Hypothesis>)
    requires |group| > 0
    ensures var kept := Survivors(cfg, group, BestNorm(group));
      && |PruneGroup(cfg, group)| == (if cfg.beamSize < |kept| then cfg.beamSize else |kept|)
      && (forall h :: h in PruneGroup(cfg, group) ==> h in group && Keep(cfg, h, BestNorm(group)))
      && (forall p, q :: 0 <= p < q < |PruneGroup(cfg, group)| ==>
            PruneGroup(cfg, group)[p].score >= PruneGroup(cfg, group)[q].score)
      && (forall h, x :: h in kept && h !in PruneGroup(cfg, group) && x in PruneGroup(cfg, group) ==>
            h.score <= x.score)
    ensures multiset(PruneGroup(cfg, group)) <= multiset(Survivors(cfg, group, BestNorm(group)))
  {
    CapWithin(cfg, group);
    CapRanked(cfg, group);
  }

  /** The cap takes a prefix of a permutation of the survivors, so it holds
      survivors only, each at most as often as it survives. */
  lemma CapWithin(cfg: Config, group: seq<Hypothesis>)
    requires |group| > 0
    ensures multiset(PruneGroup(cfg, group)) <= multiset(Survivors(cfg, group, BestNorm(group)))
    ensures forall h :: h in PruneGroup(cfg, group) ==> h in group && Keep(cfg, h, BestNorm(group))
  {
    var kept := Survivors(cfg, group, BestNorm(group));
    var ranked := Sort(kept, ByScore);
    var n := if cfg.beamSize < |ranked| then cfg.beamSize else |ranked|;
    assert PruneGroup(cfg, group) == ranked[..n];
    PrefixWithin(ranked, kept, n);
  }

  /** A prefix of a permutation of `t` holds only elements of `t`, each at
      most as often as `t` does. */
  lemma PrefixWithin(s: seq<Hypothesis>, t: seq<Hypothesis>, n: nat)
    requires n <= |s| && multiset(s) == multiset(t)
    ensures multiset(s[..n]) <= multiset(t)
    ensures forall x :: x in s[..n] ==> x in t
  {
    assert s == s[..n] + s[n..];
    forall x | x in s[..n] ensures x in t {
      assert x in multiset(s[..n]);
      assert x in multiset(t);
    }
  }

  /** The cap keeps the size of the ranking's prefix, its descending order,
      and dominates every survivor it leaves out. */
  lemma CapRanked(cfg: Config, group: seq<Hypothesis>)
    requires |group| > 0
    ensures var kept := Survivors(cfg, group, BestNorm(group));
      && |PruneGroup(cfg, group)| == (if cfg.beamSize < |kept| then cfg.beamSize else |kept|)
      && (forall p, q :: 0 <= p < q < |PruneGroup(cfg, group)| ==>
            PruneGroup(cfg, group)[p].score >= PruneGroup(cfg, group)[q].score)
      && (forall h, x :: h in kept && h !in PruneGroup(cfg, group) && x in PruneGroup(cfg, group) ==>
            h.score <= x.score)
  {
    var kept := Survivors(cfg, group, BestNorm(group));
    var ranked := Sort(kept, ByScore);
    var n := if cfg.beamSize < |ranked| then cfg.beamSize else |ranked|;
    assert PruneGroup(cfg, group) == ranked[..n];
    ByScoreIsPreorder();
    SortSorted(kept, ByScore);
    RankedPrefix(ranked, n);
    forall h | h in kept ensures h in ranked {
      assert h in multiset(ranked);
    }
  }

  /** With pruning off, the keep rule admits the whole group, and the cap
      still keeps only the `beam_size` best raw scores. */
  lemma UnprunedKeepsAll(cfg: Config, group: seq<Hypothesis>)
    requires |group| > 0 && !cfg.prune
    ensures Survivors(cfg, group, BestNorm(group)) == group
    ensures |PruneGroup(cfg, group)| == if cfg.beamSize < |group| then cfg.beamSize else |group|
  {
    PruneGroupSpec(cfg, group);
  }

  /** A completed hypothesis with the group's best normalised score always
      passes the keep rule, so its group keeps at least one hypothesis when
      `beam_size >= 1`; with pruning on, a completed hypothesis 1e-6 or more
      below the best is dropped. */
  lemma BestCompletedSurvives(cfg: Config, group: seq<Hypothesis>, h: Hypothesis)
    requires |group| > 0 && h in group && h.lastSym == cfg.stopSymbol && h.normScore == BestNorm(group)
    ensures Keep(cfg, h, BestNorm(group))
    ensures cfg.beamSize >= 1 ==> |PruneGroup(cfg, group)| >= 1
    ensures forall x :: cfg.prune && x in group && x.lastSym == cfg.stopSymbol && x.normScore <= BestNorm(group) - Epsilon ==>
      x !in PruneGroup(cfg, group)
  {
    PruneGroupSpec(cfg, group);
    assert h in Survivors(cfg, group, BestNorm(group));
  }

  /** A group whose normalised scores are all the sentinel (as in a group
      without any completed hypothesis) has the sentinel as its best
      normalised score; then, with `speed_prune >= 1`, every active
      hypothesis scoring above the sentinel is kept. */
  lemma FreshGroupKeepsActive(cfg: Config, group: seq<Hypothesis>, h: Hypothesis)
    requires |group| > 0 && forall g :: g in group ==> g.normScore == Sentinel
    requires cfg.speedPrune >= 1.0
    requires h in group && h.lastSym != cfg.stopSymbol && h.score > Sentinel
    ensures BestNorm(group) == Sentinel
    ensures Keep(cfg, h, BestNorm(group))
  {
  }

  ghost predicate NonEmptyGroups(groups: seq<Group>) {
    forall a :: 0 <= a < |groups| ==> |groups[a].hyps| > 0
  }

  /** The pruned groups, concatenated in group order. */
  function PruneAll(cfg: Config, groups: seq<Group>): seq<Hypothesis>
    requires NonEmptyGroups(groups)
  {
    if groups == [] then []
    else PruneAll(cfg, groups[..|groups| - 1]) + PruneGroup(cfg, groups[|groups| - 1].hyps)
  }

  /** The next beams: every sentence group of the pool pruned. */
  function Prune(cfg: Config, pool: seq<Hypothesis>): seq<Hypothesis> {
    PruneAll(cfg, BySentence(pool))
  }

  lemma {:induction false} PruneAllMembers(cfg: Config, groups: seq<Group>, h: Hypothesis)
    requires NonEmptyGroups(groups)
    requires h in PruneAll(cfg, groups)
    ensures exists a :: 0 <= a < |groups| && h in PruneGroup(cfg, groups[a].hyps)
  {
    var n := |groups|;
    if h in PruneAll(cfg, groups[..n - 1]) {
      PruneAllMembers(cfg, groups[..n - 1], h);
      var a :| 0 <= a < n - 1 && h in PruneGroup(cfg, groups[..n - 1][a].hyps);
      assert groups[..n - 1][a] == groups[a];
    }
  }

  /** The pruned groups together take each hypothesis at most as often as
      the groups hold it. */
  lemma {:induction false} PruneAllWithin(cfg: Config, groups: seq<Group>)
    requires NonEmptyGroups(groups)
    ensures multiset(PruneAll(cfg, groups)) <= multiset(Flatten(groups))
  {
    if groups != [] {
      var n := |groups|;
      var init, last := groups[..n - 1], groups[n - 1].hyps;
      assert NonEmptyGroups(init) by {
        forall a | 0 <= a < n - 1 ensures |init[a].hyps| > 0 {
          assert init[a] == groups[a];
        }
      }
      PruneAllWithin(cfg, init);
      FlattenLast(groups);
      CapWithin(cfg, last);
      SurvivorsWithin(cfg, last, BestNorm(last));
    }
  }

  /** A pruned group of one sentence holds at most `beam_size` hypotheses
      of that sentence and none of any other. */
  lemma PruneGroupCount(cfg: Config, g: Group, s: int)
    requires |g.hyps| > 0
    requires forall h :: h in g.hyps ==> h.sentence == g.sentence
    ensures CountOf(PruneGroup(cfg, g.hyps), s) == if s == g.sentence then |PruneGroup(cfg, g.hyps)| else 0
    ensures |PruneGroup(cfg, g.hyps)| <= cfg.beamSize
  {
    PruneGroupSpec(cfg, g.hyps);
    CountUniform(PruneGroup(cfg, g.hyps), g.sentence, s);
  }

  lemma {:induction false} PruneAllCount(cfg: Config, groups: seq<Group>, s: int)
    requires NonEmptyGroups(groups)
    requires forall a :: 0 <= a < |groups| ==> forall h :: h in groups[a].hyps ==> h.sentence == groups[a].sentence
    requires forall a, b :: 0 <= a < b < |groups| ==> groups[a].sentence < groups[b].sentence
    ensures CountOf(PruneAll(cfg, groups), s) <= cfg.beamSize
    ensures (forall a :: 0 <= a < |groups| ==> groups[a].sentence != s) ==> CountOf(PruneAll(cfg, groups), s) == 0
  {
    if groups != [] {
      var n := |groups|;
      var init := groups[..n - 1];
      var last := groups[n - 1];
      forall a | 0 <= a < n - 1
        ensures init[a] == groups[a] && |init[a].hyps| > 0
        ensures forall h :: h in init[a].hyps ==> h.sentence == init[a].sentence
      {
        assert init[a] == groups[a];
      }
      PruneAllCount(cfg, init, s);
      assert PruneAll(cfg, groups) == PruneAll(cfg, init) + PruneGroup(cfg, last.hyps);
      CountConcat(PruneAll(cfg, init), PruneGroup(cfg, last.hyps), s);
      PruneGroupCount(cfg, last, s);
    }
  }

  /** A hypothesis the pruning keeps is in the pruned group of its own
      sentence, and it passed the keep rule against that group's best
      normalised score. */
  lemma PruneKeeps(cfg: Config, pool: seq<Hypothesis>, h: Hypothesis)
    requires h in Prune(cfg, pool)
    ensures exists a :: 0 <= a < |BySentence(pool)|
                        && h.sentence == BySentence(pool)[a].sentence
                        && h in PruneGroup(cfg, BySentence(pool)[a].hyps)
                        && h in BySentence(pool)[a].hyps
                        && Keep(cfg, h, BestNorm(BySentence(pool)[a].hyps))
  {
    var groups := BySentence(pool);
    PruneAllMembers(cfg, groups, h);
    var a :| 0 <= a < |groups| && h in PruneGroup(cfg, groups[a].hyps);
    PruneGroupSpec(cfg, groups[a].hyps);
    BySentenceSpec(pool);
    assert groups[a] in groups;
  }

  /** Pruning only keeps hypotheses of the pool, each at most as often as
      the pool holds it, and at most `beam_size` of any one sentence. */
  lemma PruneSpec(cfg: Config, pool: seq<Hypothesis>)
    ensures forall h :: h in Prune(cfg, pool) ==> h in pool
    ensures multiset(Prune(cfg, pool)) <= multiset(pool)
    ensures forall s :: CountOf(Prune(cfg, pool), s) <= cfg.beamSize
    ensures forall h :: h in Prune(cfg, pool) ==>
      exists a :: 0 <= a < |BySentence(pool)|
        && h.sentence == BySentence(pool)[a].sentence
        && h in PruneGroup(cfg, BySentence(pool)[a].hyps)
        && Keep(cfg, h, BestNorm(BySentence(pool)[a].hyps))
  {
    var groups := BySentence(pool);
    BySentenceSpec(pool);
    forall h | h in Prune(cfg, pool)
      ensures h in pool
      ensures exists a :: 0 <= a < |groups| && h.sentence == groups[a].sentence
                          && h in PruneGroup(cfg, groups[a].hyps) && Keep(cfg, h, BestNorm(groups[a].hyps))
    {
      PruneKeeps(cfg, pool, h);
      var a :| 0 <= a < |groups| && h in PruneGroup(cfg, groups[a].hyps) && h in groups[a].hyps;
      InFlatten(groups, a, h);
      assert h in multiset(Flatten(groups));
    }
    forall a | 0 <= a < |groups| ensures forall h :: h in groups[a].hyps ==> h.sentence == groups[a].sentence {
      assert groups[a] in groups;
    }
    forall s ensures CountOf(Prune(cfg, pool), s) <= cfg.beamSize {
      PruneAllCount(cfg, groups, s);
    }
    PruneAllWithin(cfg, groups);
  }

  /** The pruning loop over the sentence groups: `beams.extend(...)` with
      each pruned group, in group order. */
  method PruneGroups(cfg: Config, groups: seq<Group>) returns (beams: seq<Hypothesis>)
    requires NonEmptyGroups(groups)
    ensures beams == PruneAll(cfg, groups)
  {
    beams := [];
    for a := 0 to |groups|
      invariant NonEmptyGroups(groups[..a])
      invariant beams == PruneAll(cfg, groups[..a])
    {
      var group := groups[a].hyps;
      var best := BestNorm(group);
      var kept := Survivors(cfg, group, best);
      var ranked := Sort(kept, ByScore);
      var next := groups[..a + 1];
      assert next[..a] == groups[..a] && next[a] == groups[a];
      assert NonEmptyGroups(next);
      assert PruneAll(cfg, next) == PruneAll(cfg, groups[..a]) + PruneGroup(cfg, group);
      beams := beams + ranked[..if cfg.beamSize < |ranked| then cfg.beamSize else |ranked|];
    }
    assert groups[..|groups|] == groups;
  }

  /** Groups the pool by sentence and prunes every group. */
  method PruneBeams(cfg: Config, pool: seq<Hypothesis>) returns (beams: seq<Hypothesis>)
    ensures beams == Prune(cfg, pool)
  {
    var groups := BySentence(pool);
    assert NonEmptyGroups(groups);
    beams := PruneGroups(cfg, groups);
  }
}
