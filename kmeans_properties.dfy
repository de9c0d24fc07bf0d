/** What bisecting_kmeans promises, proved about the functions of module
    Kmeans: the base case, the partition of the samples over the leaves, the
    choice of the first best attempt, and the degenerate shortcut. */
module KmeansProperties {
  import opened Numbers
  import opened Random
  import opened GuideTree
  import opened Kmeans

  /** Fewer than 1000 samples: a leaf that holds the samples unchanged, and no
      draw from the generator. */
  lemma BaseCase(sp: Space, samples: seq<int>, draws: (nat, nat) -> nat, pos: nat)
    requires Indexes(sp, samples) && InRange(draws) && |samples| < MinSplit
    ensures Split(sp, samples, draws, pos) == Built(Tree(Nil, Nil, samples, -1), pos)
  {
  }

  /** Every built tree is partitioned: an internal node keeps its samples and
      its two children share them out; so the leaves hold exactly the samples
      the call was given, each as often as it was given. */
  lemma {:induction false} SplitPartitions(sp: Space, samples: seq<int>, draws: (nat, nat) -> nat, pos: nat)
    requires Indexes(sp, samples) && InRange(draws)
    requires Split(sp, samples, draws, pos).Built?
    ensures var t := Split(sp, samples, draws, pos).tree;
      t != Nil && t.samples == samples && Partitioned(t) && LeafSamples(t) == multiset(samples)
    decreases |samples|
  {
    if |samples| >= MinSplit {
      var o := Search(sp, samples, draws, pos);
      if o.Chosen? {
        IndexesOfPart(sp, samples, o.best.sl);
        IndexesOfPart(sp, samples, o.best.sr);
        SplitPartitions(sp, o.best.sl, draws, o.next);
        var l := Split(sp, o.best.sl, draws, o.next);
        SplitPartitions(sp, o.best.sr, draws, l.next);
      }
    }
  }

  /** The identity sample array of build_tree_kmeans. */
  function Identity(n: nat): (s: seq<int>)
    ensures |s| == n && forall i :: 0 <= i < n ==> s[i] == i
  {
    seq(n, i => i)
  }

  lemma {:induction false} IdentityCounts(n: nat, x: int)
    ensures multiset(Identity(n))[x] == if 0 <= x < n then 1 else 0
  {
    if n > 0 {
      assert Identity(n) == Identity(n - 1) + [n - 1];
      IdentityCounts(n - 1, x);
    }
  }

  /** Over the whole build, every sequence 0 .. numseq-1 sits in exactly one
      leaf and no other index appears. */
  lemma WholeTreePartition(sp: Space, numseq: nat, draws: (nat, nat) -> nat, pos: nat)
    requires Indexes(sp, Identity(numseq)) && InRange(draws)
    requires Split(sp, Identity(numseq), draws, pos).Built?
    ensures forall x :: LeafSamples(Split(sp, Identity(numseq), draws, pos).tree)[x] ==
                        if 0 <= x < numseq then 1 else 0
  {
    SplitPartitions(sp, Identity(numseq), draws, pos);
    forall x
      ensures LeafSamples(Split(sp, Identity(numseq), draws, pos).tree)[x] == if 0 <= x < numseq then 1 else 0
    {
      IdentityCounts(numseq, x);
    }
  }

  // ---------------------------------------------------------------------------
  // Best selection

  /** The results of a run of completed attempts, in order. */
  function Results(trials: seq<Trial>): (r: seq<KmeansResult>)
    requires AllCompleted(trials)
    ensures |r| == |trials| && forall i :: 0 <= i < |r| ==> r[i] == trials[i].result
  {
    seq(|trials|, i requires 0 <= i < |trials| => trials[i].result)
  }

  /** b is the first entry of `all` whose score no entry undercuts. */
  ghost predicate IsFirstMinimum(all: seq<KmeansResult>, b: KmeansResult)
  {
    exists k :: 0 <= k < |all| && all[k] == b &&
      (forall i :: 0 <= i < |all| ==> !Less(all[i].score, b.score)) &&
      (forall i :: 0 <= i < k ==> Less(b.score, all[i].score))
  }

  predicate NoNaN(all: seq<KmeansResult>)
  {
    forall i :: 0 <= i < |all| ==> !all[i].score.NaN?
  }

  /** One step of the running best: if b is the first minimum of the kept
      result followed by the rest, it is the first minimum of the previous
      best, the new result, and the rest. */
  lemma FirstMinimumStep(best: KmeansResult, res: KmeansResult, rest: seq<KmeansResult>, b: KmeansResult)
    requires NoNaN([best, res] + rest)
    requires IsFirstMinimum([if Less(res.score, best.score) then res else best] + rest, b)
    ensures IsFirstMinimum([best, res] + rest, b)
  {
    var taken := Less(res.score, best.score);
    var kept := if taken then res else best;
    var all' := [kept] + rest;
    var all := [best, res] + rest;
    var k' :| 0 <= k' < |all'| && all'[k'] == b &&
      (forall i :: 0 <= i < |all'| ==> !Less(all'[i].score, b.score)) &&
      (forall i :: 0 <= i < k' ==> Less(b.score, all'[i].score));
    assert all[0] == best && all[1] == res && all'[0] == kept;
    forall i | 1 <= i < |all'|
      ensures all'[i] == all[i + 1]
    {
      assert all'[i] == rest[i - 1] == all[i + 1];
    }
    assert !best.score.NaN? && !res.score.NaN?;
    assert !b.score.NaN? by {
      if k' > 0 { assert b == all[k' + 1]; }
    }
    assert !Less(kept.score, b.score);
    var k;
    if taken {
      // the new result replaced the previous best
      LessOrder(res.score, best.score, b.score);
      k := k' + 1;
      if k' > 0 {
        assert Less(b.score, res.score);
        LessOrder(b.score, res.score, best.score);
      }
    } else {
      // the previous best was kept
      LessOrder(res.score, best.score, b.score);
      k := if k' == 0 then 0 else k' + 1;
      if k' > 0 {
        assert Less(b.score, best.score);
        LessOrder(b.score, res.score, best.score);
      }
    }
    assert all[k] == b;
    forall i | 0 <= i < |all|
      ensures !Less(all[i].score, b.score)
      ensures i < k ==> Less(b.score, all[i].score)
    {
      if i >= 2 { assert all[i] == all'[i - 1]; }
    }
  }

  /** The kept result after a run of completed attempts started from `best`
      is the first minimum of [best] followed by their results. */
  lemma {:induction false} PickIsFirstMinimum(trials: seq<Trial>, pos: nat, stop: nat, best: KmeansResult, samples: seq<int>)
    requires Chained(trials, stop, samples) && stop < MaxPasses
    requires best.score.Num? ==> SplitOf(best.sl, best.sr, samples)
    requires !best.score.NaN?
    requires Pick(trials, pos, stop, best).Chosen?
    ensures AllCompleted(trials) && NoNaN([best] + Results(trials))
    ensures IsFirstMinimum([best] + Results(trials), Pick(trials, pos, stop, best).best)
    decreases |trials|
  {
    var b := Pick(trials, pos, stop, best).best;
    PickOutcome(trials, pos, stop, best, samples);
    if trials == [] {
      assert [best] + Results(trials) == [best];
      assert ([best] + Results(trials))[0] == b;
    } else {
      var res := trials[0].result;
      var kept := if Less(res.score, best.score) then res else best;
      var rest := Results(trials[1..]);
      PickIsFirstMinimum(trials[1..], pos + 1, trials[0].stop, kept, samples);
      assert [best] + Results(trials) == [best, res] + rest;
      assert NoNaN([kept] + rest);
      forall i | 0 <= i < |[best, res] + rest|
        ensures !([best, res] + rest)[i].score.NaN?
      {
        if i >= 2 { assert ([best, res] + rest)[i] == ([kept] + rest)[i - 1]; }
      }
      FirstMinimumStep(best, res, rest, b);
    }
  }

  /** Every score in `results` is finite, and b is the earliest result whose
      score is not above any other score. */
  ghost predicate EarliestLowest(results: seq<KmeansResult>, b: KmeansResult)
  {
    (forall i :: 0 <= i < |results| ==> results[i].score.Num?) &&
    exists k :: 0 <= k < |results| && results[k] == b &&
      (forall i :: 0 <= i < |results| ==> b.score.value <= results[i].score.value) &&
      (forall i :: 0 <= i < k ==> b.score.value < results[i].score.value)
  }

  /** The results of a chained run of completed attempts have finite scores. */
  lemma {:induction false} ChainedScores(trials: seq<Trial>, stop: nat, samples: seq<int>)
    requires Chained(trials, stop, samples) && AllCompleted(trials)
    ensures forall i :: 0 <= i < |trials| ==> trials[i].result.score.Num?
    decreases |trials|
  {
    if trials != [] {
      ChainedScores(trials[1..], trials[0].stop, samples);
      forall i | 1 <= i < |trials|
        ensures trials[i].result.score.Num?
      {
        assert trials[i] == trials[1..][i - 1];
      }
    }
  }

  /** Behind the FLT_MAX start value, the first minimum of finite scores is
      the earliest lowest of them. */
  lemma UnsetFirstMinimum(results: seq<KmeansResult>, b: KmeansResult)
    requires results != [] && forall i :: 0 <= i < |results| ==> results[i].score.Num?
    requires IsFirstMinimum([Unset] + results, b)
    ensures EarliestLowest(results, b)
  {
    var all := [Unset] + results;
    var k :| 0 <= k < |all| && all[k] == b &&
      (forall i :: 0 <= i < |all| ==> !Less(all[i].score, b.score)) &&
      (forall i :: 0 <= i < k ==> Less(b.score, all[i].score));
    assert all[1] == results[0] && !Less(all[1].score, b.score);
    assert k != 0;
    assert results[k - 1] == b;
    forall i | 0 <= i < |results|
      ensures b.score.value <= results[i].score.value
      ensures i < k - 1 ==> b.score.value < results[i].score.value
    {
      assert all[i + 1] == results[i];
    }
  }

  /** From the empty result with score FLT_MAX, a loop that finishes keeps
      the earliest completed attempt whose score no other score undercuts. */
  lemma FirstMinimumFromUnset(trials: seq<Trial>, pos: nat, samples: seq<int>)
    requires Chained(trials, 0, samples)
    requires Pick(trials, pos, 0, Unset).Chosen?
    ensures AllCompleted(trials)
    ensures trials != [] ==> EarliestLowest(Results(trials), Pick(trials, pos, 0, Unset).best)
  {
    PickOutcome(trials, pos, 0, Unset, samples);
    PickIsFirstMinimum(trials, pos, 0, Unset, samples);
    ChainedScores(trials, 0, samples);
    if trials != [] {
      UnsetFirstMinimum(Results(trials), Pick(trials, pos, 0, Unset).best);
    }
  }

  /** A call that finishes its attempts makes exactly 50 of them, one draw
      each, and keeps the earliest attempt whose score no other attempt's
      score undercuts. */
  lemma BestIsFirstMinimum(sp: Space, samples: seq<int>, draws: (nat, nat) -> nat, pos: nat)
    requires Indexes(sp, samples) && |samples| > 0 && InRange(draws)
    requires Search(sp, samples, draws, pos).Chosen?
    ensures var trials := Trials(Attempts(sp, samples, draws), samples, pos, 0, 0);
      AllCompleted(trials) && |trials| == Tries &&
      EarliestLowest(Results(trials), Search(sp, samples, draws, pos).best)
  {
    FirstMinimumFromUnset(Trials(Attempts(sp, samples, draws), samples, pos, 0, 0), pos, samples);
  }

  // ---------------------------------------------------------------------------
  // The degenerate shortcut

  /** The drawn row and its mirror are within the tolerance exactly when the
      drawn row lies within half the tolerance of the mean in every anchor. */
  lemma DegenerateMeansNearMean(w: seq<real>, cl: seq<real>)
    requires |w| == |cl|
    ensures !Separated(cl, Mirror(w, cl)) <==> forall j :: 0 <= j < |cl| ==> Abs(cl[j] - w[j]) <= Tolerance / 2.0
  {
    var cr := Mirror(w, cl);
    forall j | 0 <= j < |cl|
      ensures Abs(cl[j] - cr[j]) == 2.0 * Abs(cl[j] - w[j])
    {
      assert cl[j] - cr[j] == 2.0 * (cl[j] - w[j]);
    }
  }

  /** Rows that all equal v sum to |samples| copies of v. */
  lemma {:induction false} SumOfEqualRows(sp: Space, samples: seq<int>, v: seq<real>)
    requires Indexes(sp, samples) && |v| == sp.anchors
    requires forall i :: 0 <= i < |samples| ==> Row(sp, samples[i]) == v
    ensures forall j :: 0 <= j < sp.anchors ==> Sum(sp, samples)[j] == |samples| as real * v[j]
    decreases |samples|
  {
    if |samples| > 0 {
      SumOfEqualRows(sp, samples[..|samples| - 1], v);
    }
  }

  /** Dividing a sum of n equal terms by n gives the term back. */
  lemma CancelCount(n: real, x: real)
    requires n > 0.0
    ensures (n * x) / n == x
  {
  }

  /** Samples whose rows are all equal end in a single leaf: below 1000
      samples by the base case, otherwise by the shortcut of the first attempt,
      after its one draw. */
  lemma IdenticalRowsGiveLeaf(sp: Space, samples: seq<int>, draws: (nat, nat) -> nat, pos: nat, v: seq<real>)
    requires Indexes(sp, samples) && InRange(draws) && |v| == sp.anchors
    requires forall i :: 0 <= i < |samples| ==> Row(sp, samples[i]) == v
    ensures Split(sp, samples, draws, pos) ==
      Built(Leaf(samples), if |samples| < MinSplit then pos else pos + 1)
  {
    if |samples| >= MinSplit {
      SumOfEqualRows(sp, samples, v);
      var m := Mean(sp, samples);
      forall j | 0 <= j < sp.anchors
        ensures m[j] == v[j]
      {
        var n := |samples| as real;
        assert m[j] == Sum(sp, samples)[j] / n;
        assert Sum(sp, samples)[j] == n * v[j];
        CancelCount(n, v[j]);
      }
      var r := draws(pos, |samples|);
      assert Row(sp, samples[r]) == v;
      assert Mirror(m, v) == v;
      NotSeparatedFromItself(v);
      assert Attempt(sp, samples, draws, pos, 0) == Shortcut;
      assert Trials(Attempts(sp, samples, draws), samples, pos, 0, 0) == [Shortcut];
    }
  }
}
