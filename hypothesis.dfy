/** The hypothesis record of the beam search and the `by_sentence` grouping:
    sort by (sentence, -norm_score, -score), then group consecutive
    hypotheses of the same sentence. */
module Hypotheses {
  import opened Sorting

  /** A decoder state snapshot: one vector per recurrent layer. */
  type DecoderState = seq<seq<real>>

  /** One partial or completed output sequence. `history` holds every symbol
      before `lastSym`, the start symbol included; `coverage` is the attention
      mass accumulated per source position. */
  datatype Hypothesis = Hypothesis(
    sentence: int,
    score: real,
    normScore: real,
    history: seq<int>,
    lastSym: int,
    states: DecoderState,
    coverage: seq<real>)

  /** One `(sentence, hypotheses)` pair produced by the grouping. */
  datatype Group = Group(sentence: int, hyps: seq<Hypothesis>)

  /** The list comprehension of hypotheses whose last symbol is not `stop`. */
  function Active(hs: seq<Hypothesis>, stop: int): (r: seq<Hypothesis>)
    ensures forall h {:trigger h in r} {:trigger h in hs} :: h in r <==> h in hs && h.lastSym != stop
    ensures |r| <= |hs|
  {
    if hs == [] then []
    else if hs[0].lastSym != stop then [hs[0]] + Active(hs[1..], stop)
    else Active(hs[1..], stop)
  }

  /** The list comprehension of hypotheses whose last symbol is `stop`. */
  function Completed(hs: seq<Hypothesis>, stop: int): (r: seq<Hypothesis>)
    ensures forall h {:trigger h in r} {:trigger h in hs} :: h in r <==> h in hs && h.lastSym == stop
    ensures |r| <= |hs|
  {
    if hs == [] then []
    else if hs[0].lastSym == stop then [hs[0]] + Completed(hs[1..], stop)
    else Completed(hs[1..], stop)
  }

  /** `a` sorts before or ties with `b` under the key
      (sentence, -norm_score, -score). */
  function KeyOrder(a: Hypothesis, b: Hypothesis): bool {
    || a.sentence < b.sentence
    || (a.sentence == b.sentence
        && (-a.normScore < -b.normScore
            || (-a.normScore == -b.normScore && -a.score <= -b.score)))
  }

  lemma KeyOrderIsPreorder()
    ensures Total(KeyOrder) && Transitive(KeyOrder)
  {
  }

  /** All hypotheses of the groups, in order. */
  function Flatten(groups: seq<Group>): seq<Hypothesis> {
    if groups == [] then [] else groups[0].hyps + Flatten(groups[1..])
  }

  /** `itertools.groupby` on the sentence id: maximal runs of consecutive
      hypotheses of one sentence. */
  function Runs(s: seq<Hypothesis>): (r: seq<Group>)
    ensures Flatten(r) == s
  {
    if s == [] then []
    else
      var rest := Runs(s[1..]);
      if rest != [] && rest[0].sentence == s[0].sentence then
        assert Flatten(rest) == rest[0].hyps + Flatten(rest[1..]);
        assert [s[0]] + rest[0].hyps + Flatten(rest[1..]) == s;
        [Group(s[0].sentence, [s[0]] + rest[0].hyps)] + rest[1..]
      else
        assert [s[0]] + s[1..] == s;
        [Group(s[0].sentence, [s[0]])] + rest
  }

  /** Every run is non-empty and of one sentence, the first run is that of
      the first hypothesis, and adjacent runs differ in sentence. */
  lemma {:induction false} RunsShape(s: seq<Hypothesis>)
    ensures forall g :: g in Runs(s) ==> g.hyps != [] && forall h :: h in g.hyps ==> h.sentence == g.sentence
    ensures s != [] ==> Runs(s) != [] && Runs(s)[0].sentence == s[0].sentence
    ensures forall a :: 0 <= a < |Runs(s)| - 1 ==> Runs(s)[a].sentence != Runs(s)[a + 1].sentence
  {
    if s != [] {
      var rest := Runs(s[1..]);
      var r := Runs(s);
      RunsShape(s[1..]);
      if rest != [] && rest[0].sentence == s[0].sentence {
        assert r == [Group(s[0].sentence, [s[0]] + rest[0].hyps)] + rest[1..];
        forall a | 0 <= a < |r| - 1 ensures r[a].sentence != r[a + 1].sentence {
          assert r[a + 1] == rest[a + 1];
          if a > 0 {
            assert r[a] == rest[a];
          }
        }
        forall a | 0 <= a < |r| ensures r[a].hyps != [] && forall h :: h in r[a].hyps ==> h.sentence == r[a].sentence {
          if a > 0 {
            assert r[a] == rest[a] && rest[a] in rest;
          } else {
            assert rest[0] in rest;
          }
        }
      } else {
        assert r == [Group(s[0].sentence, [s[0]])] + rest;
        forall a | 0 <= a < |r| - 1 ensures r[a].sentence != r[a + 1].sentence {
          assert r[a + 1] == rest[a];
          if a > 0 {
            assert r[a] == rest[a - 1];
          }
        }
        forall a | 0 <= a < |r| ensures r[a].hyps != [] && forall h :: h in r[a].hyps ==> h.sentence == r[a].sentence {
          if a > 0 {
            assert r[a] == rest[a - 1] && rest[a - 1] in rest;
          }
        }
      }
    }
  }

  /** Every hypothesis of a group appears in the flattened groups. */
  lemma {:induction false} InFlatten(groups: seq<Group>, a: int, h: Hypothesis)
    requires 0 <= a < |groups| && h in groups[a].hyps
    ensures h in Flatten(groups)
  {
    if a > 0 {
      InFlatten(groups[1..], a - 1, h);
    }
  }

  /** Flattening peels off the last group as well as the first. */
  lemma {:induction false} FlattenLast(groups: seq<Group>)
    requires |groups| > 0
    ensures Flatten(groups) == Flatten(groups[..|groups| - 1]) + groups[|groups| - 1].hyps
  {
    var n := |groups|;
    if n > 1 {
      FlattenLast(groups[1..]);
      assert groups[1..][..n - 2] == groups[..n - 1][1..];
      assert groups[..n - 1][0] == groups[0];
    }
  }

  ghost predicate SentenceSorted(s: seq<Hypothesis>) {
    forall p, q :: 0 <= p < q < |s| ==> s[p].sentence <= s[q].sentence
  }

  /** Runs of a sentence-sorted sequence have strictly increasing sentences. */
  lemma {:induction false} RunsAscending(s: seq<Hypothesis>)
    requires SentenceSorted(s)
    ensures forall a, b :: 0 <= a < b < |Runs(s)| ==> Runs(s)[a].sentence < Runs(s)[b].sentence
  {
    if s != [] {
      var rest := Runs(s[1..]);
      assert SentenceSorted(s[1..]) by {
        forall p, q | 0 <= p < q < |s[1..]| ensures s[1..][p].sentence <= s[1..][q].sentence {
          assert s[1..][p] == s[p + 1] && s[1..][q] == s[q + 1];
        }
      }
      RunsAscending(s[1..]);
      RunsShape(s[1..]);
      if rest != [] && rest[0].sentence == s[0].sentence {
        AscendingReplaceHead(Group(s[0].sentence, [s[0]] + rest[0].hyps), rest);
      } else {
        if rest != [] {
          assert s[0].sentence <= s[1].sentence;
        }
        AscendingCons(Group(s[0].sentence, [s[0]]), rest);
      }
    }
  }

  /** Replacing the first group by one of the same sentence keeps the
      sentences ascending. */
  lemma AscendingReplaceHead(g: Group, rest: seq<Group>)
    requires rest != [] && g.sentence == rest[0].sentence
    requires forall a, b :: 0 <= a < b < |rest| ==> rest[a].sentence < rest[b].sentence
    ensures var r := [g] + rest[1..]; forall a, b :: 0 <= a < b < |r| ==> r[a].sentence < r[b].sentence
  {
    var r := [g] + rest[1..];
    forall a, b | 0 <= a < b < |r| ensures r[a].sentence < r[b].sentence {
      assert r[b] == rest[b];
      if a > 0 {
        assert r[a] == rest[a];
      }
    }
  }

  /** Putting a group of a smaller sentence in front keeps the sentences
      ascending. */
  lemma AscendingCons(g: Group, rest: seq<Group>)
    requires rest != [] ==> g.sentence < rest[0].sentence
    requires forall a, b :: 0 <= a < b < |rest| ==> rest[a].sentence < rest[b].sentence
    ensures var r := [g] + rest; forall a, b :: 0 <= a < b < |r| ==> r[a].sentence < r[b].sentence
  {
    var r := [g] + rest;
    forall a, b | 0 <= a < b < |r| ensures r[a].sentence < r[b].sentence {
      assert r[b] == rest[b - 1];
      if a > 0 {
        assert r[a] == rest[a - 1];
      }
    }
  }

  /** Runs of a key-sorted sequence are each key-sorted. */
  lemma {:induction false} RunsKeySorted(s: seq<Hypothesis>)
    requires Sorted(s, KeyOrder)
    ensures forall g :: g in Runs(s) ==> Sorted(g.hyps, KeyOrder)
  {
    if s != [] {
      var rest := Runs(s[1..]);
      assert Sorted(s[1..], KeyOrder) by {
        forall p, q | 0 <= p < q < |s[1..]| ensures KeyOrder(s[1..][p], s[1..][q]) {
          assert s[1..][p] == s[p + 1] && s[1..][q] == s[q + 1];
        }
      }
      RunsKeySorted(s[1..]);
      if rest != [] && rest[0].sentence == s[0].sentence {
        HeadBeforeRun(s, rest);
      }
    }
  }

  lemma HeadBeforeRun(s: seq<Hypothesis>, rest: seq<Group>)
    requires s != [] && Sorted(s, KeyOrder) && rest == Runs(s[1..]) && rest != []
    requires Sorted(rest[0].hyps, KeyOrder)
    ensures Sorted([s[0]] + rest[0].hyps, KeyOrder)
  {
    var hs := [s[0]] + rest[0].hyps;
    forall q | 0 <= q < |rest[0].hyps| ensures KeyOrder(s[0], rest[0].hyps[q]) {
      InFlatten(rest, 0, rest[0].hyps[q]);
      var k :| 0 <= k < |s[1..]| && s[1..][k] == rest[0].hyps[q];
      assert s[k + 1] == rest[0].hyps[q];
    }
    forall p, q | 0 <= p < q < |hs| ensures KeyOrder(hs[p], hs[q]) {
      if p > 0 {
        assert hs[p] == rest[0].hyps[p - 1] && hs[q] == rest[0].hyps[q - 1];
      } else {
        assert hs[q] == rest[0].hyps[q - 1];
      }
    }
  }

  /** Hypotheses of one sentence ranked by normalised score, then raw score,
      both descending. */
  ghost predicate Ranked(hs: seq<Hypothesis>) {
    forall p, q :: 0 <= p < q < |hs| ==>
      hs[p].normScore > hs[q].normScore
      || (hs[p].normScore == hs[q].normScore && hs[p].score >= hs[q].score)
  }

  /** `by_sentence`: sort by (sentence, -norm_score, -score), then group the
      runs of one sentence. Every group is non-empty. */
  function BySentence(beams: seq<Hypothesis>): (groups: seq<Group>)
    ensures forall a :: 0 <= a < |groups| ==> |groups[a].hyps| > 0
  {
    RunsShape(Sort(beams, KeyOrder));
    Runs(Sort(beams, KeyOrder))
  }

  /** The groups hold exactly the hypotheses given, each group holds one
      sentence, the groups ascend strictly by sentence, and each group is
      ranked by normalised score, then raw score. */
  lemma BySentenceSpec(beams: seq<Hypothesis>)
    ensures var groups := BySentence(beams);
      && multiset(Flatten(groups)) == multiset(beams)
      && (forall g :: g in groups ==> g.hyps != [] && forall h :: h in g.hyps ==> h.sentence == g.sentence)
      && (forall a, b :: 0 <= a < b < |groups| ==> groups[a].sentence < groups[b].sentence)
      && (forall g :: g in groups ==> Ranked(g.hyps))
  {
    var sorted := Sort(beams, KeyOrder);
    KeyOrderIsPreorder();
    SortSorted(beams, KeyOrder);
    assert SentenceSorted(sorted) by {
      forall p, q | 0 <= p < q < |sorted| ensures sorted[p].sentence <= sorted[q].sentence {
        assert KeyOrder(sorted[p], sorted[q]);
      }
    }
    RunsAscending(sorted);
    RunsKeySorted(sorted);
    RunsShape(sorted);
    var groups := Runs(sorted);
    forall g | g in groups ensures Ranked(g.hyps) {
      forall p, q | 0 <= p < q < |g.hyps|
        ensures g.hyps[p].normScore > g.hyps[q].normScore
                || (g.hyps[p].normScore == g.hyps[q].normScore && g.hyps[p].score >= g.hyps[q].score)
      {
        assert KeyOrder(g.hyps[p], g.hyps[q]);
      }
    }
  }

  /** Every hypothesis of a group comes from the grouped beams. */
  lemma GroupedFrom(beams: seq<Hypothesis>, a: int, h: Hypothesis)
    requires 0 <= a < |BySentence(beams)| && h in BySentence(beams)[a].hyps
    ensures h in beams
  {
    BySentenceSpec(beams);
    InFlatten(BySentence(beams), a, h);
    assert h in multiset(Flatten(BySentence(beams)));
  }

  /** Grouping is idempotent: grouping the flattened groups again gives the
      same groups in the same order. */
  lemma GroupingIdempotent(beams: seq<Hypothesis>)
    ensures BySentence(Flatten(BySentence(beams))) == BySentence(beams)
  {
    var sorted := Sort(beams, KeyOrder);
    KeyOrderIsPreorder();
    SortSorted(beams, KeyOrder);
    SortOfSorted(sorted, KeyOrder);
  }

  /** The number of hypotheses of sentence `s`. */
  function CountOf(hs: seq<Hypothesis>, s: int): nat {
    if hs == [] then 0 else (if hs[0].sentence == s then 1 else 0) + CountOf(hs[1..], s)
  }

  lemma {:induction false} CountConcat(a: seq<Hypothesis>, b: seq<Hypothesis>, s: int)
    ensures CountOf(a + b, s) == CountOf(a, s) + CountOf(b, s)
  {
    if a == [] {
      assert a + b == b;
    } else {
      assert (a + b)[1..] == a[1..] + b;
      CountConcat(a[1..], b, s);
    }
  }

  /** A sequence all of one sentence `t` counts its length for `t` and
      nothing for any other sentence. */
  lemma {:induction false} CountUniform(hs: seq<Hypothesis>, t: int, s: int)
    requires forall h :: h in hs ==> h.sentence == t
    ensures CountOf(hs, s) == if s == t then |hs| else 0
  {
    if hs != [] {
      CountUniform(hs[1..], t, s);
    }
  }

  lemma {:induction false} CountInsert(x: Hypothesis, ys: seq<Hypothesis>, le: (Hypothesis, Hypothesis) -> bool, s: int)
    ensures CountOf(Insert(x, ys, le), s) == CountOf([x] + ys, s)
  {
    if ys != [] && !le(x, ys[0]) {
      CountInsert(x, ys[1..], le, s);
      assert ([x] + ys)[1..] == ys;
      assert ([x] + ys[1..])[1..] == ys[1..];
    }
  }

  /** Sorting does not change how many hypotheses a sentence has. */
  lemma {:induction false} CountSort(xs: seq<Hypothesis>, le: (Hypothesis, Hypothesis) -> bool, s: int)
    ensures CountOf(Sort(xs, le), s) == CountOf(xs, s)
  {
    if xs != [] {
      CountSort(xs[1..], le, s);
      CountInsert(xs[0], Sort(xs[1..], le), le, s);
      CountConcat([xs[0]], Sort(xs[1..], le), s);
      CountConcat([xs[0]], xs[1..], s);
      assert xs == [xs[0]] + xs[1..];
    }
  }

  /** Each group of the grouping holds exactly the hypotheses of its
      sentence. */
  lemma GroupSizeIsCount(beams: seq<Hypothesis>, a: int)
    requires 0 <= a < |BySentence(beams)|
    ensures |BySentence(beams)[a].hyps| == CountOf(beams, BySentence(beams)[a].sentence)
  {
    var groups := BySentence(beams);
    BySentenceSpec(beams);
    KeyOrderIsPreorder();
    CountSort(beams, KeyOrder, groups[a].sentence);
    FlattenCount(groups, a);
  }

  lemma {:induction false} FlattenCount(groups: seq<Group>, a: int)
    requires 0 <= a < |groups|
    requires forall g :: g in groups ==> forall h :: h in g.hyps ==> h.sentence == g.sentence
    requires forall b, c :: 0 <= b < c < |groups| ==> groups[b].sentence < groups[c].sentence
    ensures CountOf(Flatten(groups), groups[a].sentence) == |groups[a].hyps|
  {
    var t := groups[a].sentence;
    CountConcat(groups[0].hyps, Flatten(groups[1..]), t);
    CountUniform(groups[0].hyps, groups[0].sentence, t);
    if a == 0 {
      FlattenCountNone(groups[1..], t);
    } else {
      FlattenCount(groups[1..], a - 1);
    }
  }

  lemma {:induction false} FlattenCountNone(groups: seq<Group>, t: int)
    requires forall g :: g in groups ==> g.sentence != t && forall h :: h in g.hyps ==> h.sentence == g.sentence
    ensures CountOf(Flatten(groups), t) == 0
  {
    if groups != [] {
      CountConcat(groups[0].hyps, Flatten(groups[1..]), t);
      CountUniform(groups[0].hyps, groups[0].sentence, t);
      FlattenCountNone(groups[1..], t);
    }
  }
}
