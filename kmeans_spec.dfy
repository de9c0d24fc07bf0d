/** bisecting_kmeans of src/bisectingKmeans.c as functions: the Lloyd pass,
    the Lloyd loop with its per-call pass counter, the 50 randomized attempts
    and the recursion that turns the best attempt into two subtrees. The
    methods in kmeans.dfy compute exactly these values. */
module Kmeans {
  import opened Numbers
  import opened Random
  import opened GuideTree

  /** Below this many samples a call returns a leaf. */
  const MinSplit: nat := 1000
  /** Randomized 2-means attempts per call. */
  const Tries: nat := 50
  /** The 10000th Lloyd pass of a call fails the call. */
  const MaxPasses: nat := 10000
  /** Coordinates closer than this count as equal in the degenerate test. */
  const Tolerance: real := 0.000001

  /** The anchor embedding (`dm`: one row of anchor distances per sequence),
      the number of anchors in use, and the edist kernel (squared Euclidean
      distance over those anchors), which the model leaves abstract. */
  datatype Space = Space(rows: seq<seq<real>>, anchors: nat, edist: (seq<real>, seq<real>) -> real)

  /** Every sample names a row of the embedding with at least `anchors` entries. */
  predicate Indexes(sp: Space, samples: seq<int>)
  {
    forall i :: 0 <= i < |samples| ==> 0 <= samples[i] < |sp.rows| && sp.anchors <= |sp.rows[samples[i]]|
  }

  lemma IndexesOfPart(sp: Space, samples: seq<int>, part: seq<int>)
    requires Indexes(sp, samples) && multiset(part) <= multiset(samples)
    ensures Indexes(sp, part)
  {
    forall i | 0 <= i < |part|
      ensures 0 <= part[i] < |sp.rows| && sp.anchors <= |sp.rows[part[i]]|
    {
      assert part[i] in multiset(samples);
      var k :| 0 <= k < |samples| && samples[k] == part[i];
    }
  }

  /** num_var: the anchor count rounded up to a multiple of 8 (the padded
      width of the centroid buffers). */
  function PaddedAnchors(anchors: nat): (r: nat)
    ensures r % 8 == 0 && anchors <= r < anchors + 8
  {
    var v := anchors / 8;
    var v' := if anchors % 8 != 0 then v + 1 else v;
    v' * 8
  }

  // ---------------------------------------------------------------------------
  // Vectors over the anchors

  function Row(sp: Space, s: int): (r: seq<real>)
    requires 0 <= s < |sp.rows| && sp.anchors <= |sp.rows[s]|
    ensures |r| == sp.anchors
  {
    sp.rows[s][..sp.anchors]
  }

  function Zeros(k: nat): (r: seq<real>)
    ensures |r| == k && forall j :: 0 <= j < k ==> r[j] == 0.0
  {
    seq(k, j => 0.0)
  }

  function Add(a: seq<real>, b: seq<real>): (r: seq<real>)
    requires |a| == |b|
    ensures |r| == |a| && forall j :: 0 <= j < |a| ==> r[j] == a[j] + b[j]
  {
    seq(|a|, j requires 0 <= j < |a| => a[j] + b[j])
  }

  function Divide(a: seq<real>, n: nat): (r: seq<real>)
    requires n > 0
    ensures |r| == |a| && forall j :: 0 <= j < |a| ==> r[j] == a[j] / n as real
  {
    seq(|a|, j requires 0 <= j < |a| => a[j] / n as real)
  }

  /** The component-wise sum of the samples' rows. */
  function Sum(sp: Space, samples: seq<int>): (r: seq<real>)
    requires Indexes(sp, samples)
    ensures |r| == sp.anchors
    decreases |samples|
  {
    if |samples| == 0 then Zeros(sp.anchors)
    else Add(Sum(sp, samples[..|samples| - 1]), Row(sp, samples[|samples| - 1]))
  }

  /** `w`: the component-wise mean of the samples' rows. */
  function Mean(sp: Space, samples: seq<int>): (r: seq<real>)
    requires Indexes(sp, samples) && |samples| > 0
    ensures |r| == sp.anchors
  {
    Divide(Sum(sp, samples), |samples|)
  }

  /** `cr`: the mirror image of the drawn row `cl` about the mean `w`. */
  function Mirror(w: seq<real>, cl: seq<real>): (cr: seq<real>)
    requires |w| == |cl|
    ensures |cr| == |cl|
    ensures forall j :: 0 <= j < |cl| ==> cr[j] - w[j] == w[j] - cl[j]
  {
    seq(|cl|, j requires 0 <= j < |cl| => w[j] - (cl[j] - w[j]))
  }

  /** Some anchor coordinate of cl and cr differs by more than the tolerance;
      when none does, the call takes the degenerate shortcut. */
  predicate Separated(cl: seq<real>, cr: seq<real>)
    requires |cl| == |cr|
  {
    exists j :: 0 <= j < |cl| && Abs(cl[j] - cr[j]) > Tolerance
  }

  /** A centroid pair that coincides is never separated. */
  lemma NotSeparatedFromItself(v: seq<real>)
    ensures !Separated(v, v)
  {
    if Separated(v, v) {
      var j :| 0 <= j < |v| && Abs(v[j] - v[j]) > Tolerance;
      AbsOfZero(v[j]);
      assert false;
    }
  }

  lemma AbsOfZero(x: real)
    ensures Abs(x - x) <= Tolerance
  {
    assert x - x == 0.0;
  }

  // ---------------------------------------------------------------------------
  // One Lloyd pass

  /** A centroid buffer: finite coordinates, or the all-NaN vector that
      dividing the zero sum of an empty side by a zero count leaves. */
  datatype Centroid = Point(coords: seq<real>) | NaNVector

  /** The new centroid from a side's sum and count. */
  function Centre(sum: seq<real>, count: nat): Centroid
  {
    if count == 0 then NaNVector else Point(Divide(sum, count))
  }

  /** The convergence test compares every coordinate with `!=`: it passes only
      for equal finite coordinates, never for NaN. */
  predicate SameCentroid(a: Centroid, b: Centroid)
  {
    a.Point? && b.Point? && a.coords == b.coords
  }

  /** dl or dr: the edist of the sample's row to a centroid. */
  function Distance(sp: Space, s: int, c: Centroid): Float
    requires 0 <= s < |sp.rows| && sp.anchors <= |sp.rows[s]|
  {
    if c.Point? then Num(sp.edist(Row(sp, s), c.coords)) else NaN
  }

  /** A sample goes right only when `dr < dl` holds; ties and NaN go left. */
  predicate GoesRight(sp: Space, s: int, cl: Centroid, cr: Centroid)
    requires 0 <= s < |sp.rows| && sp.anchors <= |sp.rows[s]|
  {
    Less(Distance(sp, s, cr), Distance(sp, s, cl))
  }

  /** What one pass of the Lloyd loop leaves: `sl` and `sr` filled in sample
      order, the score (sum of MACRO_MIN(dl, dr)), and the per-side sums `wl`
      and `wr` before division. */
  datatype Pass = Pass(sl: seq<int>, sr: seq<int>, score: Float, sumL: seq<real>, sumR: seq<real>)

  /** A pass extended by one more sample s: its share of the score, its side
      and its row added to that side's sum. */
  function PassWith(sp: Space, p: Pass, s: int, cl: Centroid, cr: Centroid): (q: Pass)
    requires 0 <= s < |sp.rows| && sp.anchors <= |sp.rows[s]|
    requires |p.sumL| == sp.anchors && |p.sumR| == sp.anchors
    ensures |q.sumL| == sp.anchors && |q.sumR| == sp.anchors
    ensures |q.sl| + |q.sr| == |p.sl| + |p.sr| + 1
    ensures multiset(q.sl) + multiset(q.sr) == multiset(p.sl) + multiset(p.sr) + multiset{s}
  {
    var score := Plus(p.score, Min(Distance(sp, s, cl), Distance(sp, s, cr)));
    if GoesRight(sp, s, cl, cr) then
      Pass(p.sl, p.sr + [s], score, p.sumL, Add(p.sumR, Row(sp, s)))
    else
      Pass(p.sl + [s], p.sr, score, Add(p.sumL, Row(sp, s)), p.sumR)
  }

  function LloydPass(sp: Space, samples: seq<int>, cl: Centroid, cr: Centroid): (p: Pass)
    requires Indexes(sp, samples)
    ensures |p.sumL| == sp.anchors && |p.sumR| == sp.anchors
    ensures |p.sl| + |p.sr| == |samples|
    ensures multiset(p.sl) + multiset(p.sr) == multiset(samples)
    ensures cl.Point? && cr.Point? ==> p.score.Num?
    decreases |samples|
  {
    if |samples| == 0 then Pass([], [], Num(0.0), Zeros(sp.anchors), Zeros(sp.anchors))
    else
      var prefix := samples[..|samples| - 1];
      var s := samples[|samples| - 1];
      assert samples == prefix + [s];
      PassWith(sp, LloydPass(sp, prefix, cl, cr), s, cl, cr)
  }

  /** The samples, in order, that a pass sends to one side. */
  function Side(sp: Space, samples: seq<int>, cl: Centroid, cr: Centroid, right: bool): (r: seq<int>)
    requires Indexes(sp, samples)
    decreases |samples|
  {
    if |samples| == 0 then []
    else
      var s := samples[|samples| - 1];
      Side(sp, samples[..|samples| - 1], cl, cr, right) + if GoesRight(sp, s, cl, cr) == right then [s] else []
  }

  /** A pass is a stable partition: `sl` holds, in input order, exactly the
      samples that do not go right, and `sr` the samples that do. */
  lemma PassIsStablePartition(sp: Space, samples: seq<int>, cl: Centroid, cr: Centroid)
    requires Indexes(sp, samples)
    ensures LloydPass(sp, samples, cl, cr).sl == Side(sp, samples, cl, cr, false)
    ensures LloydPass(sp, samples, cl, cr).sr == Side(sp, samples, cl, cr, true)
  {
    PassSide(sp, samples, cl, cr, false);
    PassSide(sp, samples, cl, cr, true);
  }

  /** One side of a pass, as Side lists it. */
  lemma {:induction false} PassSide(sp: Space, samples: seq<int>, cl: Centroid, cr: Centroid, right: bool)
    requires Indexes(sp, samples)
    ensures (if right then LloydPass(sp, samples, cl, cr).sr else LloydPass(sp, samples, cl, cr).sl) ==
            Side(sp, samples, cl, cr, right)
    decreases |samples|
  {
    if |samples| > 0 {
      var prefix := samples[..|samples| - 1];
      var s := samples[|samples| - 1];
      IndexesOfPrefix(sp, samples);
      PassSide(sp, prefix, cl, cr, right);
      var p := LloydPass(sp, prefix, cl, cr);
      var tail := if GoesRight(sp, s, cl, cr) == right then [s] else [];
      assert LloydPass(sp, samples, cl, cr) == PassWith(sp, p, s, cl, cr);
      assert Side(sp, samples, cl, cr, right) == Side(sp, prefix, cl, cr, right) + tail;
    }
  }

  lemma IndexesOfPrefix(sp: Space, samples: seq<int>)
    requires Indexes(sp, samples) && |samples| > 0
    ensures Indexes(sp, samples[..|samples| - 1])
    ensures 0 <= samples[|samples| - 1] < |sp.rows| && sp.anchors <= |sp.rows[samples[|samples| - 1]]|
  {
  }

  lemma {:induction false} SideMembers(sp: Space, samples: seq<int>, cl: Centroid, cr: Centroid, right: bool)
    requires Indexes(sp, samples)
    ensures forall i :: 0 <= i < |Side(sp, samples, cl, cr, right)| ==>
      var x := Side(sp, samples, cl, cr, right)[i];
      x in samples && 0 <= x < |sp.rows| && sp.anchors <= |sp.rows[x]| && GoesRight(sp, x, cl, cr) == right
    decreases |samples|
  {
    if |samples| > 0 {
      var prefix := samples[..|samples| - 1];
      var s := samples[|samples| - 1];
      SideMembers(sp, prefix, cl, cr, right);
      var front := Side(sp, prefix, cl, cr, right);
      var tail := if GoesRight(sp, s, cl, cr) == right then [s] else [];
      forall i | 0 <= i < |front + tail|
        ensures (front + tail)[i] in samples
      {
        if i < |front| {
          assert (front + tail)[i] == front[i];
          assert front[i] in prefix;
        } else {
          assert (front + tail)[i] == s == samples[|samples| - 1];
        }
      }
    }
  }

  /** Every sample lands on exactly one side of a pass: `sr` only holds
      samples with `dr < dl`, `sl` only samples without. */
  lemma PassSidesAgreeWithDistances(sp: Space, samples: seq<int>, cl: Centroid, cr: Centroid)
    requires Indexes(sp, samples)
    ensures var p := LloydPass(sp, samples, cl, cr);
      (forall i :: 0 <= i < |p.sr| ==> p.sr[i] in samples && GoesRight(sp, p.sr[i], cl, cr)) &&
      (forall i :: 0 <= i < |p.sl| ==> p.sl[i] in samples && !GoesRight(sp, p.sl[i], cl, cr))
  {
    PassIsStablePartition(sp, samples, cl, cr);
    SideMembers(sp, samples, cl, cr, true);
    SideMembers(sp, samples, cl, cr, false);
  }

  // ---------------------------------------------------------------------------
  // The Lloyd loop of one attempt

  /** How an attempt's Lloyd loop ends: converged with its sides and score and
      the call's pass counter, or at the pass cap, which fails the call. */
  datatype Run = Done(sl: seq<int>, sr: seq<int>, score: real, stop: nat) | CapReached

  /** Both sides hold samples and together hold exactly the given samples. */
  predicate SplitOf(sl: seq<int>, sr: seq<int>, samples: seq<int>)
  {
    0 < |sl| && 0 < |sr| && multiset(sl) + multiset(sr) == multiset(samples)
  }

  /** The `while(1)` loop: `stop` counts the call's passes over all attempts. */
  function Lloyd(sp: Space, samples: seq<int>, cl: Centroid, cr: Centroid, stop: nat): (r: Run)
    requires Indexes(sp, samples) && stop < MaxPasses
    ensures r.Done? ==> SplitOf(r.sl, r.sr, samples) && stop < r.stop < MaxPasses
    decreases MaxPasses - stop
  {
    if stop + 1 == MaxPasses then CapReached
    else
      var p := LloydPass(sp, samples, cl, cr);
      var wl := Centre(p.sumL, |p.sl|);
      var wr := Centre(p.sumR, |p.sr|);
      if SameCentroid(wl, cl) && SameCentroid(wr, cr) then Done(p.sl, p.sr, p.score.value, stop + 1)
      else Lloyd(sp, samples, wl, wr, stop + 1)
  }

  // ---------------------------------------------------------------------------
  // The attempts of one call

  /** struct kmeans_result: the two sides and the score of an attempt. */
  datatype KmeansResult = KmeansResult(sl: seq<int>, sr: seq<int>, score: Float)

  /** The result alloc_kmeans_result starts from, and that `best` starts
      from: no samples on either side, score FLT_MAX. */
  const Unset := KmeansResult([], [], FltMax)

  /** How the attempt loop of a call ends: with the kept attempt, the draws
      used and the pass counter; with the degenerate shortcut; or failed at the
      pass cap. */
  datatype Outcome = Chosen(best: KmeansResult, next: nat, stop: nat) | Degenerate(next: nat) | Failed

  /** The outcome of attempt t (one draw, then the Lloyd loop), without the
      best-so-far bookkeeping. */
  datatype Trial = Completed(result: KmeansResult, stop: nat) | Shortcut | Capped

  function Attempt(sp: Space, samples: seq<int>, draws: (nat, nat) -> nat, pos: nat, stop: nat): (a: Trial)
    requires Indexes(sp, samples) && |samples| > 0 && InRange(draws) && stop < MaxPasses
    ensures a.Completed? ==> SplitOf(a.result.sl, a.result.sr, samples) && a.result.score.Num? &&
                             stop < a.stop < MaxPasses
  {
    var r := draws(pos, |samples|);
    var cl := Row(sp, samples[r]);
    var cr := Mirror(Mean(sp, samples), cl);
    if !Separated(cl, cr) then Shortcut
    else match Lloyd(sp, samples, Point(cl), Point(cr), stop)
      case CapReached => Capped
      case Done(sl, sr, score, stop') => Completed(KmeansResult(sl, sr, Num(score)), stop')
  }

  /** The attempts of a call as a table indexed by the draw position and the
      pass counter an attempt starts from; a counter already at the cap,
      which no attempt starts from, reads as capped. */
  function Attempts(sp: Space, samples: seq<int>, draws: (nat, nat) -> nat): (att: (nat, nat) -> Trial)
    requires Indexes(sp, samples) && |samples| > 0 && InRange(draws)
    ensures Sound(att, samples)
  {
    (p: nat, s: nat) => if s < MaxPasses then Attempt(sp, samples, draws, p, s) else Capped
  }

  /** Every attempt the table can hold that completes splits the samples,
      has a finite score and moves the pass counter forward without reaching
      the cap. */
  ghost predicate Sound(att: (nat, nat) -> Trial, samples: seq<int>)
  {
    forall p: nat, s: nat ::
      att(p, s).Completed? ==>
        SplitOf(att(p, s).result.sl, att(p, s).result.sr, samples) && att(p, s).result.score.Num? &&
        s < att(p, s).stop < MaxPasses
  }

  /** Every completed attempt in `trials` splits the samples, has a finite
      score and moves the pass counter forward, starting from `stop`, without
      reaching the cap. */
  predicate Chained(trials: seq<Trial>, stop: nat, samples: seq<int>)
    decreases |trials|
  {
    trials == [] ||
    (trials[0].Completed? ==>
       SplitOf(trials[0].result.sl, trials[0].result.sr, samples) && trials[0].result.score.Num? &&
       stop < trials[0].stop < MaxPasses && Chained(trials[1..], trials[0].stop, samples))
  }

  predicate AllCompleted(trials: seq<Trial>)
  {
    forall i :: 0 <= i < |trials| ==> trials[i].Completed?
  }

  /** Attempts t .. Tries-1 of a call in order, as far as they get: an attempt
      that takes the shortcut or reaches the cap is the last one made. */
  function Trials(att: (nat, nat) -> Trial, samples: seq<int>, pos: nat, t: nat, stop: nat): (r: seq<Trial>)
    requires Sound(att, samples) && t <= Tries && stop < MaxPasses
    ensures Chained(r, stop, samples)
    ensures |r| <= Tries - t
    ensures AllCompleted(r) ==> |r| == Tries - t
    decreases Tries - t
  {
    if t == Tries then []
    else
      var a := att(pos, stop);
      if a.Completed? then
        var rest := Trials(att, samples, pos + 1, t + 1, a.stop);
        assert ([a] + rest)[1..] == rest;
        assert AllCompleted([a] + rest) ==> AllCompleted(rest) by {
          if AllCompleted([a] + rest) {
            forall i | 0 <= i < |rest| ensures rest[i].Completed? {
              assert rest[i] == ([a] + rest)[i + 1];
            }
          }
        }
        [a] + rest
      else [a]
  }

  /** The bookkeeping of the attempt loop over the attempts made, in order:
      the kept result is replaced only by one whose score is strictly lower;
      the shortcut ends the loop; reaching the cap fails the call. */
  function Pick(trials: seq<Trial>, pos: nat, stop: nat, best: KmeansResult): Outcome
    decreases |trials|
  {
    if trials == [] then Chosen(best, pos, stop)
    else match trials[0]
      case Shortcut => Degenerate(pos + 1)
      case Capped => Failed
      case Completed(res, stop') =>
        var kept := if Less(res.score, best.score) then res else best;
        Pick(trials[1..], pos + 1, stop', kept)
  }

  /** Over a chained run, a chosen result splits the samples and has a finite
      score (once any attempt completed), follows every attempt and counts one
      draw per attempt; a degenerate outcome counts the draws up to the
      shortcut. */
  lemma {:induction false} PickOutcome(trials: seq<Trial>, pos: nat, stop: nat, best: KmeansResult, samples: seq<int>)
    requires Chained(trials, stop, samples) && stop < MaxPasses
    requires best.score.Num? ==> SplitOf(best.sl, best.sr, samples)
    requires !best.score.NaN?
    ensures var r := Pick(trials, pos, stop, best);
      (r.Chosen? ==> AllCompleted(trials) && r.next == pos + |trials| && stop + |trials| <= r.stop < MaxPasses) &&
      (r.Chosen? && r.best.score.Num? ==> SplitOf(r.best.sl, r.best.sr, samples)) &&
      (r.Chosen? && trials != [] ==> r.best.score.Num?) &&
      (r.Degenerate? ==> pos < r.next <= pos + |trials|)
    decreases |trials|
  {
    if trials != [] && trials[0].Completed? {
      var res := trials[0].result;
      var kept := if Less(res.score, best.score) then res else best;
      PickOutcome(trials[1..], pos + 1, trials[0].stop, kept, samples);
      var r := Pick(trials, pos, stop, best);
      if r.Chosen? {
        forall i | 0 <= i < |trials| ensures trials[i].Completed? {
          if i > 0 { assert trials[i] == trials[1..][i - 1]; }
        }
      }
    }
  }

  /** The attempt loop of one call: 50 attempts from the empty result with
      score FLT_MAX and a pass counter at zero. */
  function Search(sp: Space, samples: seq<int>, draws: (nat, nat) -> nat, pos: nat): (r: Outcome)
    requires Indexes(sp, samples) && |samples| > 0 && InRange(draws)
    ensures r.Chosen? ==> SplitOf(r.best.sl, r.best.sr, samples) && r.next == pos + Tries
    ensures r.Chosen? ==> Tries <= r.stop < MaxPasses
    ensures r.Degenerate? ==> pos < r.next <= pos + Tries
  {
    var trials := Trials(Attempts(sp, samples, draws), samples, pos, 0, 0);
    PickOutcome(trials, pos, 0, Unset, samples);
    Pick(trials, pos, 0, Unset)
  }

  // ---------------------------------------------------------------------------
  // The recursion

  /** What a call returns: a tree and the draws used so far, or NULL. */
  datatype Build = Built(tree: Tree, next: nat) | BuildFailed

  function Split(sp: Space, samples: seq<int>, draws: (nat, nat) -> nat, pos: nat): (r: Build)
    requires Indexes(sp, samples) && InRange(draws)
    decreases |samples|
  {
    if |samples| < MinSplit then Built(Leaf(samples), pos)
    else match Search(sp, samples, draws, pos)
      case Failed => BuildFailed
      case Degenerate(next) => Built(Leaf(samples), next)
      case Chosen(best, next, _) =>
        IndexesOfPart(sp, samples, best.sl);
        IndexesOfPart(sp, samples, best.sr);
        match Split(sp, best.sl, draws, next)
        case BuildFailed => BuildFailed
        case Built(l, p1) =>
          match Split(sp, best.sr, draws, p1)
          case BuildFailed => BuildFailed
          case Built(r, p2) => Built(Tree(l, r, samples, -1), p2)
  }
}
