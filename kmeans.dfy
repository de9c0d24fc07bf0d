/** bisecting_kmeans of src/bisectingKmeans.c as the C code runs it: index
    buffers filled through counters, side sums accumulated in arrays, the
    `while(1)` Lloyd loop on the call's pass counter, the 50 attempts with the
    exchange of the best and res_tmp buffers, and the recursion that allocates the nodes.
    Each method is proved to compute the function of module Kmeans that
    specifies it. */
module Bisecting {
  import opened Numbers
  import opened Random
  import opened GuideTree
  import opened Kmeans

  /** struct kmeans_result: one index buffer per side, their fill counts and
      the score. */
  class KmeansResultBuffer {
    const sl: array<int>
    const sr: array<int>
    var nl: nat
    var nr: nat
    var score: Float

    ghost predicate Valid()
      reads this
    {
      sl != sr && nl <= sl.Length && nr <= sr.Length
    }

    /** The attempt the buffers hold. */
    function Value(): KmeansResult
      reads this, sl, sr
      requires Valid()
    {
      KmeansResult(sl[..nl], sr[..nr], score)
    }

    constructor (numSamples: nat)
      ensures Valid() && fresh(sl) && fresh(sr)
      ensures sl.Length == numSamples && sr.Length == numSamples
      ensures Value() == Unset
    {
      sl := new int[numSamples];
      sr := new int[numSamples];
      nl, nr := 0, 0;
      score := FltMax;
    }
  }

  /** alloc_kmeans_result: NULL for a zero sample count; otherwise two empty
      buffers of num_samples entries and score FLT_MAX. */
  method AllocKmeansResult(numSamples: nat) returns (k: KmeansResultBuffer?)
    ensures k == null <==> numSamples == 0
    ensures k != null ==> k.Valid() && fresh(k) && fresh(k.sl) && fresh(k.sr) &&
                          k.sl.Length == numSamples && k.sr.Length == numSamples && k.Value() == Unset
  {
    if numSamples == 0 {
      return null;
    }
    k := new KmeansResultBuffer(numSamples);
  }

  /** The identity sample array of build_tree_kmeans (lines 107-110). */
  method IdentitySamples(numseq: nat) returns (samples: array<int>)
    ensures fresh(samples) && samples.Length == numseq
    ensures forall i :: 0 <= i < numseq ==> samples[i] == i
  {
    samples := new int[numseq];
    for i := 0 to numseq
      invariant forall k :: 0 <= k < i ==> samples[k] == k
    {
      samples[i] := i;
    }
  }

  // ---------------------------------------------------------------------------
  // Loops over the anchors

  /** Sets every entry of a side sum to 0.0. */
  method Clear(w: array<real>)
    modifies w
    ensures w[..] == Zeros(w.Length)
  {
    for j := 0 to w.Length
      invariant forall k :: 0 <= k < j ==> w[k] == 0.0
    {
      w[j] := 0.0;
    }
  }

  /** `w[j] += dm[s][j]` over the anchors. */
  method AddRowInto(w: array<real>, row: seq<real>)
    requires w.Length == |row|
    modifies w
    ensures w[..] == Add(old(w[..]), row)
  {
    for j := 0 to w.Length
      invariant forall k :: 0 <= k < j ==> w[k] == old(w[k]) + row[k]
      invariant forall k :: j <= k < w.Length ==> w[k] == old(w[k])
    {
      w[j] := w[j] + row[j];
    }
  }

  /** The mean `w` of lines 298-315: the samples' rows summed, then every
      anchor divided by the sample count. */
  method MeanOf(sp: Space, samples: seq<int>) returns (w: array<real>)
    requires Indexes(sp, samples) && |samples| > 0
    ensures fresh(w) && w[..] == Mean(sp, samples)
  {
    w := new real[sp.anchors];
    Clear(w);
    for i := 0 to |samples|
      invariant Indexes(sp, samples[..i])
      invariant w[..] == Sum(sp, samples[..i])
    {
      assert samples[..i + 1][..i] == samples[..i];
      AddRowInto(w, Row(sp, samples[i]));
    }
    assert samples[..|samples|] == samples;
    ghost var sum := w[..];
    for j := 0 to w.Length
      invariant forall k :: 0 <= k < j ==> w[k] == sum[k] / |samples| as real
      invariant forall k :: j <= k < w.Length ==> w[k] == sum[k]
    {
      w[j] := w[j] / |samples| as real;
    }
  }

  /** The degenerate test of lines 333-340: is some anchor of cl and cr more
      than 1e-6 apart? */
  method Differs(cl: seq<real>, cr: seq<real>) returns (s: bool)
    requires |cl| == |cr|
    ensures s == Separated(cl, cr)
  {
    s := false;
    var j := 0;
    while j < |cl|
      invariant 0 <= j <= |cl|
      invariant forall k :: 0 <= k < j ==> Abs(cl[k] - cr[k]) <= Tolerance
    {
      if Abs(cl[j] - cr[j]) > Tolerance {
        return true;
      }
      j := j + 1;
    }
  }

  /** The convergence test of lines 396-408: `wl[j] != cl[j]` or
      `wr[j] != cr[j]` for some anchor. A NaN coordinate always differs. */
  method Moved(wl: Centroid, cl: Centroid, wr: Centroid, cr: Centroid) returns (s: bool)
    ensures s == !(SameCentroid(wl, cl) && SameCentroid(wr, cr))
  {
    if !wl.Point? || !cl.Point? || !wr.Point? || !cr.Point? {
      return true;
    }
    if |wl.coords| != |cl.coords| || |wr.coords| != |cr.coords| {
      return true;
    }
    var j := 0;
    while j < |wl.coords|
      invariant 0 <= j <= |wl.coords|
      invariant wl.coords[..j] == cl.coords[..j]
    {
      if wl.coords[j] != cl.coords[j] {
        return true;
      }
      j := j + 1;
    }
    assert wl.coords == wl.coords[..j];
    j := 0;
    while j < |wr.coords|
      invariant 0 <= j <= |wr.coords|
      invariant wr.coords[..j] == cr.coords[..j]
    {
      if wr.coords[j] != cr.coords[j] {
        return true;
      }
      j := j + 1;
    }
    assert wr.coords == wr.coords[..j];
    return false;
  }

  // ---------------------------------------------------------------------------
  // The Lloyd loop

  /** One more sample extends a pass by that sample alone. */
  lemma PassStep(sp: Space, samples: seq<int>, i: nat, cl: Centroid, cr: Centroid)
    requires Indexes(sp, samples) && i < |samples|
    ensures Indexes(sp, samples[..i]) && Indexes(sp, samples[..i + 1])
    ensures 0 <= samples[i] < |sp.rows| && sp.anchors <= |sp.rows[samples[i]]|
    ensures LloydPass(sp, samples[..i + 1], cl, cr) ==
            PassWith(sp, LloydPass(sp, samples[..i], cl, cr), samples[i], cl, cr)
  {
    assert samples[..i + 1][..i] == samples[..i];
    assert samples[..i + 1][i] == samples[i];
  }

  /** The buffers and counters of a pass hold the pass p. */
  ghost predicate Holds(p: Pass, sl: array<int>, numL: nat, sr: array<int>, numR: nat, score: Float,
                        wl: array<real>, wr: array<real>)
    reads sl, sr, wl, wr
  {
    numL == |p.sl| && numR == |p.sr| && numL <= sl.Length && numR <= sr.Length &&
    sl[..numL] == p.sl && sr[..numR] == p.sr && score == p.score && wl[..] == p.sumL && wr[..] == p.sumR
  }

  /** `sr[num_r] = s; num_r++` (or the same on the left), then the row of
      s added to that side's sum. */
  method Place(side: array<int>, num: nat, s: int, w: array<real>, row: seq<real>) returns (num': nat)
    requires num < side.Length && w.Length == |row|
    modifies side, w
    ensures num' == num + 1 && side[..num'] == old(side[..num]) + [s]
    ensures w[..] == Add(old(w[..]), row)
  {
    side[num] := s;
    num' := num + 1;
    assert side[..num'] == side[..num] + [s];
    AddRowInto(w, row);
  }

  /** The loop body of lines 365-388 for sample s. */
  method PlaceSample(sp: Space, s: int, cl: Centroid, cr: Centroid,
                     sl: array<int>, sr: array<int>, wl: array<real>, wr: array<real>,
                     numL0: nat, numR0: nat, score0: Float, ghost p: Pass)
    returns (numL: nat, numR: nat, score: Float)
    requires 0 <= s < |sp.rows| && sp.anchors <= |sp.rows[s]|
    requires sl != sr && wl != wr && wl.Length == sp.anchors && wr.Length == sp.anchors
    requires numL0 < sl.Length && numR0 < sr.Length
    requires Holds(p, sl, numL0, sr, numR0, score0, wl, wr)
    modifies sl, sr, wl, wr
    ensures Holds(PassWith(sp, p, s, cl, cr), sl, numL, sr, numR, score, wl, wr)
  {
    numL, numR := numL0, numR0;
    var dl := Distance(sp, s, cl);
    var dr := Distance(sp, s, cr);
    score := Plus(score0, Min(dl, dr));
    if Less(dr, dl) {
      numR := Place(sr, numR, s, wr, Row(sp, s));
    } else {
      numL := Place(sl, numL, s, wl, Row(sp, s));
    }
  }

  /** One pass of the `while(1)` loop (lines 355-389): clears the side sums,
      then, sample by sample, adds MACRO_MIN(dl, dr) to the score, appends
      the sample to `sr` when dr < dl and to `sl` otherwise, and adds its row
      to that side's sum. */
  method RunPass(sp: Space, samples: seq<int>, cl: Centroid, cr: Centroid,
                 sl: array<int>, sr: array<int>, wl: array<real>, wr: array<real>)
    returns (numL: nat, numR: nat, score: Float)
    requires Indexes(sp, samples)
    requires sl.Length == |samples| && sr.Length == |samples| && sl != sr
    requires wl.Length == sp.anchors && wr.Length == sp.anchors && wl != wr
    modifies sl, sr, wl, wr
    ensures Holds(LloydPass(sp, samples, cl, cr), sl, numL, sr, numR, score, wl, wr)
  {
    Clear(wl);
    Clear(wr);
    numL, numR, score := 0, 0, Num(0.0);
    ghost var p := LloydPass(sp, samples[..0], cl, cr);
    for i := 0 to |samples|
      invariant Indexes(sp, samples[..i]) && p == LloydPass(sp, samples[..i], cl, cr)
      invariant Holds(p, sl, numL, sr, numR, score, wl, wr)
    {
      PassStep(sp, samples, i, cl, cr);
      numL, numR, score := PlaceSample(sp, samples[i], cl, cr, sl, sr, wl, wr, numL, numR, score, p);
      p := PassWith(sp, p, samples[i], cl, cr);
    }
    assert samples[..|samples|] == samples;
  }

  /** One pass and the convergence test that follows it (lines 355-408):
      the pass, the new centroids the side sums give, and whether either
      centroid moved. */
  method PassAndTest(sp: Space, samples: seq<int>, cl: Centroid, cr: Centroid,
                     sl: array<int>, sr: array<int>, wl: array<real>, wr: array<real>)
    returns (moved: bool, numL: nat, numR: nat, score: Float, nl: Centroid, nr: Centroid)
    requires Indexes(sp, samples)
    requires sl.Length == |samples| && sr.Length == |samples| && sl != sr
    requires wl.Length == sp.anchors && wr.Length == sp.anchors && wl != wr
    modifies sl, sr, wl, wr
    ensures var p := LloydPass(sp, samples, cl, cr);
      Holds(p, sl, numL, sr, numR, score, wl, wr) &&
      nl == Centre(p.sumL, |p.sl|) && nr == Centre(p.sumR, |p.sr|) &&
      moved == !(SameCentroid(nl, cl) && SameCentroid(nr, cr))
  {
    numL, numR, score := RunPass(sp, samples, cl, cr, sl, sr, wl, wr);
    nl := Centre(wl[..], numL);
    nr := Centre(wr[..], numR);
    moved := Moved(nl, cl, nr, cr);
  }

  /** The `while(1)` loop of an attempt (lines 350-421), from the drawn
      centroids and the call's pass counter: false when the counter reaches
      10000, otherwise the converged sides, score and counter. */
  method RunLloyd(sp: Space, samples: seq<int>, cl0: Centroid, cr0: Centroid, stop0: nat,
                  sl: array<int>, sr: array<int>, wl: array<real>, wr: array<real>)
    returns (converged: bool, numL: nat, numR: nat, score: real, stop: nat)
    requires Indexes(sp, samples) && stop0 < MaxPasses
    requires sl.Length == |samples| && sr.Length == |samples| && sl != sr
    requires wl.Length == sp.anchors && wr.Length == sp.anchors && wl != wr
    modifies sl, sr, wl, wr
    ensures !converged ==> Lloyd(sp, samples, cl0, cr0, stop0) == CapReached
    ensures converged ==> numL <= sl.Length && numR <= sr.Length
    ensures converged ==> Lloyd(sp, samples, cl0, cr0, stop0) == Done(sl[..numL], sr[..numR], score, stop)
  {
    var cl, cr := cl0, cr0;
    stop := stop0;
    while true
      invariant stop < MaxPasses
      invariant Lloyd(sp, samples, cl, cr, stop) == Lloyd(sp, samples, cl0, cr0, stop0)
      decreases MaxPasses - stop
    {
      stop := stop + 1;
      if stop == MaxPasses {
        return false, 0, 0, 0.0, stop;
      }
      var moved, sc, nl, nr;
      moved, numL, numR, sc, nl, nr := PassAndTest(sp, samples, cl, cr, sl, sr, wl, wr);
      ghost var p := LloydPass(sp, samples, cl, cr);
      assert Holds(p, sl, numL, sr, numR, sc, wl, wr);
      if !moved {
        assert Lloyd(sp, samples, cl, cr, stop - 1) == Done(p.sl, p.sr, p.score.value, stop);
        return true, numL, numR, sc.value, stop;
      }
      cl, cr := nl, nr;
    }
  }

  // ---------------------------------------------------------------------------
  // The attempts and the recursion

  /** The two result buffers of a call: each valid, with buffers of
      num_samples entries, and no buffer shared. */
  ghost predicate Buffers(best: KmeansResultBuffer, resTmp: KmeansResultBuffer, n: nat)
    reads best, resTmp
  {
    best.Valid() && resTmp.Valid() && best != resTmp &&
    best.sl.Length == n && best.sr.Length == n && resTmp.sl.Length == n && resTmp.sr.Length == n &&
    best.sl != resTmp.sl && best.sl != resTmp.sr && best.sr != resTmp.sl && best.sr != resTmp.sr
  }

  /** `r` lists the attempts from draw `pos` and attempt `t` on, as `Trials`
      does, but over the entries of `r` itself: the first starts from
      `stop`, each later one from the counter the one before it completed
      with, and one that ends the loop is the last. */
  ghost predicate Enumerates(r: seq<Trial>, att: (nat, nat) -> Trial, pos: nat, t: nat, stop: nat)
    decreases |r|
  {
    |r| <= Tries - t &&
    if r == [] then t == Tries
    else if r[0] != att(pos, stop) then false
    else if r[0].Completed? then Enumerates(r[1..], att, pos + 1, t + 1, r[0].stop)
    else |r| == 1
  }

  /** One step of the attempt loop, on the list: the next attempt is the
      one `att` gives, and once it completes, the choice over the list is
      the choice over its tail from the kept result on. */
  lemma {:induction false} EnumeratesStep(r: seq<Trial>, att: (nat, nat) -> Trial, pos: nat, t: nat, stop: nat,
                                          best: KmeansResult)
    requires Enumerates(r, att, pos, t, stop) && t < Tries
    ensures r != [] && r[0] == att(pos, stop)
    ensures r[0].Completed? ==>
      Enumerates(r[1..], att, pos + 1, t + 1, r[0].stop) &&
      Pick(r, pos, stop, best) ==
        Pick(r[1..], pos + 1, r[0].stop, if Less(r[0].result.score, best.score) then r[0].result else best)
    ensures !r[0].Completed? ==> Pick(r, pos, stop, best) == if r[0].Shortcut? then Degenerate(pos + 1) else Failed
  {
  }

  /** The attempt loop ran all its attempts: the list is used up. */
  lemma {:induction false} EnumeratesEnd(r: seq<Trial>, att: (nat, nat) -> Trial, pos: nat, stop: nat, best: KmeansResult)
    requires Enumerates(r, att, pos, Tries, stop)
    ensures Pick(r, pos, stop, best) == Chosen(best, pos, stop)
  {
  }

  lemma {:induction false} TrialsEnumerate(att: (nat, nat) -> Trial, samples: seq<int>, pos: nat, t: nat, stop: nat)
    requires Sound(att, samples) && t <= Tries && stop < MaxPasses
    ensures Enumerates(Trials(att, samples, pos, t, stop), att, pos, t, stop)
    decreases Tries - t
  {
    if t < Tries {
      var a := att(pos, stop);
      if a.Completed? {
        var rest := Trials(att, samples, pos + 1, t + 1, a.stop);
        TrialsEnumerate(att, samples, pos + 1, t + 1, a.stop);
        assert ([a] + rest)[1..] == rest;
      }
    }
  }

  /** `att` agrees with Attempt wherever an attempt can start. The link is
      only drawn on for an Attempt term at hand. */
  ghost predicate Follows(att: (nat, nat) -> Trial, sp: Space, samples: seq<int>, draws: (nat, nat) -> nat)
    requires Indexes(sp, samples) && |samples| > 0 && InRange(draws)
  {
    forall p: nat, s: nat {:trigger Attempt(sp, samples, draws, p, s)} ::
      s < MaxPasses ==> att(p, s) == Attempt(sp, samples, draws, p, s)
  }

  /** One attempt (lines 294-425): the mean, one draw, the mirror, the
      degenerate test and the Lloyd loop into the buffers of `res`. */
  method RunAttempt(sp: Space, samples: seq<int>, rng: Rng, stop: nat, res: KmeansResultBuffer,
                    wl: array<real>, wr: array<real>, ghost att: (nat, nat) -> Trial)
    returns (a: Trial)
    requires Indexes(sp, samples) && |samples| > 0 && InRange(rng.draws) && stop < MaxPasses
    requires Follows(att, sp, samples, rng.draws)
    requires res.Valid() && res.sl.Length == |samples| && res.sr.Length == |samples|
    requires wl.Length == sp.anchors && wr.Length == sp.anchors && wl != wr
    modifies rng, res, res.sl, res.sr, wl, wr
    ensures a == att(old(rng.used), stop) && (a.Completed? ==> stop < a.stop < MaxPasses)
    ensures rng.used == old(rng.used) + 1
    ensures res.Valid() && (a.Completed? ==> res.Value() == a.result)
  {
    ghost var spec := Attempt(sp, samples, rng.draws, rng.used, stop);
    res.score := FltMax;
    var w := MeanOf(sp, samples);
    var r := rng.RandomInt(|samples|);
    var cl := Row(sp, samples[r]);
    var cr := Mirror(w[..], cl);
    var s := Differs(cl, cr);
    if !s {
      return Shortcut;
    }
    var converged, numL, numR, score, stop';
    converged, numL, numR, score, stop' := RunLloyd(sp, samples, Point(cl), Point(cr), stop, res.sl, res.sr, wl, wr);
    if !converged {
      return Capped;
    }
    res.nl, res.nr, res.score := numL, numR, Num(score);
    a := Completed(res.Value(), stop');
  }

  /** The attempt loop of one call (lines 282-432): 50 attempts on one pass
      counter; `best` and `res_tmp` swap when an attempt scores strictly
      lower; the shortcut or the pass cap ends the loop at once. */
  method SearchBest(sp: Space, samples: seq<int>, rng: Rng) returns (o: Outcome)
    requires Indexes(sp, samples) && |samples| > 0 && InRange(rng.draws)
    modifies rng
    ensures o == Search(sp, samples, rng.draws, old(rng.used))
    ensures !o.Failed? ==> rng.used == o.next
  {
    ghost var att := Attempts(sp, samples, rng.draws);
    ghost var trials := Trials(att, samples, rng.used, 0, 0);
    TrialsEnumerate(att, samples, rng.used, 0, 0);
    o := TryAttempts(sp, samples, rng, att, trials);
  }

  /** One pass of the attempt loop's body: the attempt into `resTmp`, then
      the swap that makes `resTmp` the new `best` when it scores strictly
      lower than the old one. On the ghost side, the attempt is the head of
      the list `rest` of attempts still to come, and the choice over `rest`
      from the best result so far is the choice over its tail from the new
      one. */
  method TryOne(sp: Space, samples: seq<int>, rng: Rng, stop: nat, best: KmeansResultBuffer, resTmp: KmeansResultBuffer,
                wl: array<real>, wr: array<real>, ghost att: (nat, nat) -> Trial,
                ghost rest: seq<Trial>, ghost pos: nat, ghost t: nat, ghost bv: KmeansResult)
    returns (a: Trial, best': KmeansResultBuffer, resTmp': KmeansResultBuffer)
    requires Indexes(sp, samples) && |samples| > 0 && InRange(rng.draws) && stop < MaxPasses
    requires Follows(att, sp, samples, rng.draws)
    requires Buffers(best, resTmp, |samples|)
    requires wl.Length == sp.anchors && wr.Length == sp.anchors && wl != wr
    requires rng.used == pos && t < Tries && Enumerates(rest, att, pos, t, stop) && best.Value() == bv
    modifies rng, resTmp, resTmp.sl, resTmp.sr, wl, wr
    ensures rest != [] && a == rest[0] && rng.used == pos + 1
    ensures (best' == best && resTmp' == resTmp) || (best' == resTmp && resTmp' == best)
    ensures Buffers(best', resTmp', |samples|)
    ensures a.Completed? ==>
      stop < a.stop < MaxPasses && Enumerates(rest[1..], att, pos + 1, t + 1, a.stop) &&
      best'.Value() == (if Less(a.result.score, bv.score) then a.result else bv) &&
      Pick(rest, pos, stop, bv) == Pick(rest[1..], pos + 1, a.stop, best'.Value())
    ensures !a.Completed? ==>
      Pick(rest, pos, stop, bv) == if a.Shortcut? then Degenerate(pos + 1) else Failed
  {
    EnumeratesStep(rest, att, pos, t, stop, bv);
    a := RunAttempt(sp, samples, rng, stop, resTmp, wl, wr, att);
    assert best.Value() == old(best.Value());
    best', resTmp' := best, resTmp;
    if a.Completed? && Less(resTmp.score, best.score) {
      best', resTmp' := resTmp, best;
    }
  }

  /** The buffers of the attempt loop (lines 280-289), then the loop. */
  method TryAttempts(sp: Space, samples: seq<int>, rng: Rng, ghost att: (nat, nat) -> Trial, ghost trials: seq<Trial>)
    returns (o: Outcome)
    requires Indexes(sp, samples) && |samples| > 0 && InRange(rng.draws)
    requires Follows(att, sp, samples, rng.draws)
    requires Enumerates(trials, att, rng.used, 0, 0)
    modifies rng
    ensures o == Pick(trials, old(rng.used), 0, Unset)
    ensures !o.Failed? ==> rng.used == o.next
  {
    var wr := new real[sp.anchors];
    var wl := new real[sp.anchors];
    var best: KmeansResultBuffer := AllocKmeansResult(|samples|);
    var resTmp: KmeansResultBuffer := AllocKmeansResult(|samples|);
    best.score := FltMax;
    o := AttemptLoop(sp, samples, rng, att, trials, best, resTmp, wl, wr);
  }

  /** The loop itself, over the attempts `trials` lists, each of which is
      the attempt `att` gives for its draw position and pass counter. */
  method AttemptLoop(sp: Space, samples: seq<int>, rng: Rng, ghost att: (nat, nat) -> Trial, ghost trials: seq<Trial>,
                     best0: KmeansResultBuffer, resTmp0: KmeansResultBuffer, wl: array<real>, wr: array<real>)
    returns (o: Outcome)
    requires Indexes(sp, samples) && |samples| > 0 && InRange(rng.draws)
    requires Follows(att, sp, samples, rng.draws)
    requires Enumerates(trials, att, rng.used, 0, 0)
    requires Buffers(best0, resTmp0, |samples|) && best0.Value() == Unset
    requires wl.Length == sp.anchors && wr.Length == sp.anchors && wl != wr
    modifies rng, best0, resTmp0, best0.sl, best0.sr, resTmp0.sl, resTmp0.sr, wl, wr
    ensures o == Pick(trials, old(rng.used), 0, Unset)
    ensures !o.Failed? ==> rng.used == o.next
  {
    ghost var rest := trials;
    ghost var pos := rng.used;
    ghost var bv := Unset;
    ghost var goal := Pick(rest, pos, 0, bv);
    var best, resTmp := best0, resTmp0;
    var stop: nat := 0;
    var t := 0;
    while t < Tries
      invariant t <= Tries && stop < MaxPasses && rng.used == pos
      invariant Buffers(best, resTmp, |samples|)
      invariant (best == best0 && resTmp == resTmp0) || (best == resTmp0 && resTmp == best0)
      invariant Enumerates(rest, att, pos, t, stop)
      invariant best.Value() == bv && goal == Pick(rest, pos, stop, bv)
    {
      var a;
      a, best, resTmp := TryOne(sp, samples, rng, stop, best, resTmp, wl, wr, att, rest, pos, t, bv);
      if !a.Completed? {
        return if a.Shortcut? then Degenerate(rng.used) else Failed;
      }
      rest, pos, bv := rest[1..], pos + 1, best.Value();
      stop := a.stop;
      t := t + 1;
    }
    EnumeratesEnd(rest, att, pos, stop, bv);
    return Chosen(best.Value(), rng.used, stop);
  }

  /** `split` is Split on this space and generator, linked to it only where
      a Split term is at hand. */
  ghost predicate SplitsAs(split: (seq<int>, nat) -> Build, sp: Space, draws: (nat, nat) -> nat)
    requires InRange(draws)
  {
    forall samples: seq<int>, pos: nat {:trigger Split(sp, samples, draws, pos)} ::
      Indexes(sp, samples) ==> split(samples, pos) == Split(sp, samples, draws, pos)
  }

  /** Below 1000 samples, a call is a leaf and draws nothing. */
  lemma SplitSmall(sp: Space, samples: seq<int>, draws: (nat, nat) -> nat, pos: nat, split: (seq<int>, nat) -> Build)
    requires Indexes(sp, samples) && InRange(draws) && |samples| < MinSplit && SplitsAs(split, sp, draws)
    ensures split(samples, pos) == Built(Leaf(samples), pos)
  {
    assert split(samples, pos) == Split(sp, samples, draws, pos);
  }

  /** One level of Split, for a call of at least 1000 samples whose attempt
      loop ended with `o`: the kept attempt's sides are smaller index lists
      of the same space. */
  lemma SplitLevel(sp: Space, samples: seq<int>, draws: (nat, nat) -> nat, pos: nat,
                   split: (seq<int>, nat) -> Build, o: Outcome)
    requires Indexes(sp, samples) && InRange(draws) && |samples| >= MinSplit && SplitsAs(split, sp, draws)
    requires o == Search(sp, samples, draws, pos)
    ensures o.Chosen? ==>
      Indexes(sp, o.best.sl) && Indexes(sp, o.best.sr) && |o.best.sl| < |samples| && |o.best.sr| < |samples|
    ensures o.Failed? ==> split(samples, pos) == BuildFailed
    ensures o.Degenerate? ==> split(samples, pos) == Built(Leaf(samples), o.next)
    ensures o.Chosen? ==>
      var l := split(o.best.sl, o.next);
      split(samples, pos) ==
        if l.BuildFailed? then BuildFailed
        else
          var r := split(o.best.sr, l.next);
          if r.BuildFailed? then BuildFailed else Built(Tree(l.tree, r.tree, samples, -1), r.next)
  {
    assert split(samples, pos) == Split(sp, samples, draws, pos);
    if o.Chosen? {
      IndexesOfPart(sp, samples, o.best.sl);
      IndexesOfPart(sp, samples, o.best.sr);
      assert |multiset(o.best.sl)| + |multiset(o.best.sr)| == |multiset(samples)|;
      var l := Split(sp, o.best.sl, draws, o.next);
      assert split(o.best.sl, o.next) == l;
      if l.Built? {
        var r := Split(sp, o.best.sr, draws, l.next);
        assert split(o.best.sr, l.next) == r;
      }
    }
  }

  /** The attempt loop of a call of at least 1000 samples, with what its
      outcome makes of the call. */
  method SearchLevel(sp: Space, samples: seq<int>, rng: Rng, ghost split: (seq<int>, nat) -> Build) returns (o: Outcome)
    requires Indexes(sp, samples) && InRange(rng.draws) && |samples| >= MinSplit && SplitsAs(split, sp, rng.draws)
    modifies rng
    ensures !o.Failed? ==> rng.used == o.next
    ensures o.Chosen? ==>
      Indexes(sp, o.best.sl) && Indexes(sp, o.best.sr) && |o.best.sl| < |samples| && |o.best.sr| < |samples|
    ensures o.Failed? ==> split(samples, old(rng.used)) == BuildFailed
    ensures o.Degenerate? ==> split(samples, old(rng.used)) == Built(Leaf(samples), o.next)
    ensures o.Chosen? ==>
      var l := split(o.best.sl, o.next);
      split(samples, old(rng.used)) ==
        if l.BuildFailed? then BuildFailed
        else
          var r := split(o.best.sr, l.next);
          if r.BuildFailed? then BuildFailed else Built(Tree(l.tree, r.tree, samples, -1), r.next)
  {
    ghost var pos := rng.used;
    o := SearchBest(sp, samples, rng);
    SplitLevel(sp, samples, rng.draws, pos, split, o);
  }

  /** A node of samples `samples` and no children. */
  method NewLeaf(samples: seq<int>) returns (n: Node)
    ensures n.Valid() && fresh(n.Repr) && n.Repr == {n} && n.Model() == Leaf(samples)
  {
    n := new Node();
    n.samples := samples;
  }

  /** bisecting_kmeans: a leaf below 1000 samples or on the shortcut, NULL
      when the pass cap is reached here or in a subtree, otherwise a node
      that keeps the samples, with the kept attempt's two sides built into
      its children, left first, on the same generator. */
  method BisectingKmeans(sp: Space, samples: seq<int>, rng: Rng) returns (n: Node?)
    requires Indexes(sp, samples) && InRange(rng.draws)
    modifies rng
    ensures var b := Split(sp, samples, rng.draws, old(rng.used));
      (n == null <==> b.BuildFailed?) &&
      (n != null ==> n.Valid() && fresh(n.Repr) && n.Model() == b.tree && rng.used == b.next)
  {
    ghost var draws := rng.draws;
    n := BuildTree(sp, samples, rng, (s: seq<int>, p: nat) => if Indexes(sp, s) then Split(sp, s, draws, p) else BuildFailed);
  }

  /** The recursion of bisecting_kmeans, against `split`. */
  method BuildTree(sp: Space, samples: seq<int>, rng: Rng, ghost split: (seq<int>, nat) -> Build) returns (n: Node?)
    requires Indexes(sp, samples) && InRange(rng.draws) && SplitsAs(split, sp, rng.draws)
    modifies rng
    ensures var b := split(samples, old(rng.used));
      (n == null <==> b.BuildFailed?) &&
      (n != null ==> n.Valid() && fresh(n.Repr) && n.Model() == b.tree && rng.used == b.next)
    decreases |samples|, 1
  {
    if |samples| < MinSplit {
      SplitSmall(sp, samples, rng.draws, rng.used, split);
      n := NewLeaf(samples);
      return;
    }
    ghost var pos := rng.used;
    var o := SearchLevel(sp, samples, rng, split);
    if o.Failed? {
      return null;
    }
    n := NewLeaf(samples);
    if o.Degenerate? {
      return;
    }
    var l, r := BuildSides(sp, samples, o.best.sl, o.best.sr, rng, split);
    if l == null || r == null {
      return null;
    }
    Attach(n, l, r, samples);
  }

  /** The two recursive calls of lines 453-455, left side first, on the
      same generator; the right side is not built when the left one fails. */
  method BuildSides(sp: Space, ghost samples: seq<int>, sl: seq<int>, sr: seq<int>, rng: Rng,
                    ghost split: (seq<int>, nat) -> Build)
    returns (l: Node?, r: Node?)
    requires Indexes(sp, sl) && Indexes(sp, sr) && |sl| < |samples| && |sr| < |samples|
    requires InRange(rng.draws) && SplitsAs(split, sp, rng.draws)
    modifies rng
    ensures var lb := split(sl, old(rng.used));
      (l == null <==> lb.BuildFailed?) &&
      (l != null ==>
        var rb := split(sr, lb.next);
        (r == null <==> rb.BuildFailed?) &&
        (r != null ==>
          l.Valid() && r.Valid() && fresh(l.Repr) && fresh(r.Repr) && l.Repr !! r.Repr &&
          l.Model() == lb.tree && r.Model() == rb.tree && rng.used == rb.next))
    decreases |samples|, 0
  {
    l := BuildTree(sp, sl, rng, split);
    if l == null {
      return null, null;
    }
    ghost var left := l.Model();
    r := BuildTree(sp, sr, rng, split);
    if r != null {
      assert l.Valid() && l.Model() == left;
    }
  }
}
