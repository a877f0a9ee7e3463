/** The regression analyzer: `compare_results` in server/src/rpc/eval.rs.
    Scores of a previous run and of the current run are grouped by test-case
    hash, paired, turned into relative changes, and reduced to one outcome in
    three tiers (individually significant changes, then the mean change, then
    the share of changes in one direction). Scores are `f32` in the source and
    exact reals here, so the thresholds are exact rationals. */
module Compare {

  /** One score of one test case in one run (`SingleEvalScore`). */
  datatype SingleEvalScore = SingleEvalScore(evalHash: string, score: real)

  datatype EvalOutcome = Improvement | Regression | NoChange | Unknown

  /** A paired test case whose change passed the individual threshold. */
  datatype MeaningfulEvalScore =
    MeaningfulEvalScore(evalHash: string, previousScore: real, currentScore: real, outcome: EvalOutcome)

  const IndividualThreshold: real := 0.10
  const MeanThreshold: real := 0.01
  const ConsistencyThreshold: real := 0.7

  // ---------------------------------------------------------------------
  // Grouping by hash
  // ---------------------------------------------------------------------

  /** One grouped entry: a score and whether it came from the current run. */
  datatype Entry = Entry(score: real, isCurrent: bool)

  /** The entries `scores` contributes to the group of hash `h`, in list
      order: each one carries the side it came from and a score that `scores`
      holds under `h`. */
  function EntriesFor(scores: seq<SingleEvalScore>, h: string, isCurrent: bool): (r: seq<Entry>)
    ensures |r| <= |scores|
    ensures forall k :: 0 <= k < |r| ==> r[k].isCurrent == isCurrent && SingleEvalScore(h, r[k].score) in scores
  {
    if scores == [] then []
    else
      var last := scores[|scores| - 1];
      var init := scores[..|scores| - 1];
      assert forall x :: x in init ==> x in scores;
      EntriesFor(init, h, isCurrent)
        + (if last.evalHash == h then [Entry(last.score, isCurrent)] else [])
  }

  /** The group of hash `h`: its previous entries first, then its current
      ones, each score taken from the run it is marked with. */
  function Group(previous: seq<SingleEvalScore>, current: seq<SingleEvalScore>, h: string): (g: seq<Entry>)
    ensures forall k :: 0 <= k < |g| ==> (g[k].isCurrent <==> |EntriesFor(previous, h, false)| <= k)
    ensures forall k :: 0 <= k < |g| ==>
      SingleEvalScore(h, g[k].score) in (if g[k].isCurrent then current else previous)
  {
    var a, b := EntriesFor(previous, h, false), EntriesFor(current, h, true);
    assert forall k :: |a| <= k < |a| + |b| ==> (a + b)[k] == b[k - |a|];
    a + b
  }

  /** Hash `h` occurs in `scores`. */
  predicate Occurs(scores: seq<SingleEvalScore>, h: string) {
    exists i :: 0 <= i < |scores| && scores[i].evalHash == h
  }

  lemma {:induction false} EntriesForEmpty(scores: seq<SingleEvalScore>, h: string, isCurrent: bool)
    ensures EntriesFor(scores, h, isCurrent) == [] <==> !Occurs(scores, h)
  {
    if scores != [] {
      var init := scores[..|scores| - 1];
      EntriesForEmpty(init, h, isCurrent);
      if Occurs(init, h) {
        var i :| 0 <= i < |init| && init[i].evalHash == h;
        assert scores[i].evalHash == h;
      }
      if Occurs(scores, h) && scores[|scores| - 1].evalHash != h {
        var i :| 0 <= i < |scores| && scores[i].evalHash == h;
        assert init[i].evalHash == h;
      }
    }
  }

  /** A hash that occurs at exactly one position of a run gets exactly the
      entry of that position from the run. */
  lemma {:induction false} EntriesForSingle(scores: seq<SingleEvalScore>, h: string, isCurrent: bool, i: nat)
    requires i < |scores| && scores[i].evalHash == h
    requires forall k :: 0 <= k < |scores| && k != i ==> scores[k].evalHash != h
    ensures EntriesFor(scores, h, isCurrent) == [Entry(scores[i].score, isCurrent)]
  {
    var init := scores[..|scores| - 1];
    assert forall k :: 0 <= k < |init| ==> init[k] == scores[k];
    if i == |scores| - 1 {
      EntriesForEmpty(init, h, isCurrent);
    } else {
      EntriesForSingle(init, h, isCurrent, i);
    }
  }

  /** A hash that occurs exactly once in each run forms the pair (previous
      score, current score). */
  lemma PairedScoresFromEachRun(previous: seq<SingleEvalScore>, current: seq<SingleEvalScore>, h: string, i: nat, j: nat)
    requires i < |previous| && previous[i].evalHash == h
    requires forall k :: 0 <= k < |previous| && k != i ==> previous[k].evalHash != h
    requires j < |current| && current[j].evalHash == h
    requires forall k :: 0 <= k < |current| && k != j ==> current[k].evalHash != h
    ensures Group(previous, current, h) == [Entry(previous[i].score, false), Entry(current[j].score, true)]
  {
    EntriesForSingle(previous, h, false, i);
    EntriesForSingle(current, h, true, j);
  }

  // ---------------------------------------------------------------------
  // Per-pair change and its classification
  // ---------------------------------------------------------------------

  function Abs(x: real): (r: real)
    ensures r >= 0.0 && (r == x || r == -x)
  {
    if x < 0.0 then -x else x
  }

  /** Relative change of one paired test case. A zero baseline counts as a
      full-scale increase whenever the new score is not zero. */
  function PercentChange(previousScore: real, currentScore: real): (c: real)
    ensures previousScore != 0.0 ==> (c > 0.0 <==> currentScore > previousScore)
    ensures previousScore != 0.0 ==> (c < 0.0 <==> currentScore < previousScore)
    ensures previousScore != 0.0 ==> c * Abs(previousScore) == currentScore - previousScore
    ensures previousScore == 0.0 ==> (c == 0.0 <==> currentScore == 0.0) && c >= 0.0
  {
    if previousScore != 0.0 then (currentScore - previousScore) / Abs(previousScore)
    else if currentScore != 0.0 then 1.0
    else 0.0
  }

  predicate SignificantlyUp(c: real) { c > IndividualThreshold }
  predicate SignificantlyDown(c: real) { c < -IndividualThreshold }
  predicate Up(c: real) { c > 0.0 }
  predicate Down(c: real) { c < 0.0 }

  /** The individual outcome of one pair: never Unknown, NoChange exactly
      within the individual threshold, and otherwise the direction of the
      change. */
  function Classify(c: real): (r: EvalOutcome)
    ensures r != Unknown
    ensures r == NoChange <==> Abs(c) <= IndividualThreshold
    ensures r == Improvement ==> Up(c)
    ensures r == Regression ==> Down(c)
  {
    if SignificantlyUp(c) then Improvement
    else if SignificantlyDown(c) then Regression
    else NoChange
  }

  /** A drop from a zero baseline to a negative score still reads as an
      improvement: the zero-baseline rule ignores the sign of the new score. */
  lemma ZeroBaselineIsImprovement(currentScore: real)
    requires currentScore != 0.0
    ensures Classify(PercentChange(0.0, currentScore)) == Improvement
  {
  }

  /** The change is relative: scaling both scores by the same positive factor
      leaves it unchanged. */
  lemma PercentChangeScaleInvariant(previousScore: real, currentScore: real, k: real)
    requires k > 0.0
    ensures PercentChange(k * previousScore, k * currentScore) == PercentChange(previousScore, currentScore)
  {
    if previousScore != 0.0 {
      var c := PercentChange(previousScore, currentScore);
      var d := PercentChange(k * previousScore, k * currentScore);
      assert Abs(k * previousScore) == k * Abs(previousScore);
      assert d * (k * Abs(previousScore)) == k * currentScore - k * previousScore;
      assert k * (d * Abs(previousScore)) == k * (c * Abs(previousScore));
      assert d * Abs(previousScore) == c * Abs(previousScore);
    } else {
      assert k * currentScore == 0.0 <==> currentScore == 0.0;
    }
  }

  // ---------------------------------------------------------------------
  // Tallies over the list of changes
  // ---------------------------------------------------------------------

  function Sum(cs: seq<real>): real {
    if cs == [] then 0.0 else Sum(cs[..|cs| - 1]) + cs[|cs| - 1]
  }

  function Count(cs: seq<real>, p: real -> bool): (n: nat)
    ensures n <= |cs|
  {
    if cs == [] then 0
    else Count(cs[..|cs| - 1], p) + (if p(cs[|cs| - 1]) then 1 else 0)
  }

  lemma {:induction false} SumConcat(a: seq<real>, b: seq<real>)
    ensures Sum(a + b) == Sum(a) + Sum(b)
    decreases |b|
  {
    if b == [] {
      assert a + b == a;
    } else {
      assert (a + b)[..|a + b| - 1] == a + b[..|b| - 1];
      SumConcat(a, b[..|b| - 1]);
    }
  }

  lemma {:induction false} CountConcat(a: seq<real>, b: seq<real>, p: real -> bool)
    ensures Count(a + b, p) == Count(a, p) + Count(b, p)
    decreases |b|
  {
    if b == [] {
      assert a + b == a;
    } else {
      assert (a + b)[..|a + b| - 1] == a + b[..|b| - 1];
      CountConcat(a, b[..|b| - 1], p);
    }
  }

  /** Locates `x` in a permutation `b` of `a + [x]`; removing it there leaves
      a permutation of `a`. */
  lemma SplitAt<T>(a: seq<T>, x: T, b: seq<T>) returns (k: nat)
    requires multiset(a + [x]) == multiset(b)
    ensures k < |b| && b[k] == x
    ensures multiset(a) == multiset(b[..k] + b[k + 1..])
    ensures b == b[..k] + [x] + b[k + 1..]
  {
    assert multiset(a + [x]) == multiset(a) + multiset{x};
    assert x in multiset(b);
    k :| 0 <= k < |b| && b[k] == x;
    assert b == b[..k] + [x] + b[k + 1..];
    assert multiset(b) == multiset(b[..k]) + multiset{x} + multiset(b[k + 1..]);
    assert multiset(b[..k] + b[k + 1..]) == multiset(b[..k]) + multiset(b[k + 1..]);
    assert multiset(b[..k] + b[k + 1..]) == multiset(b) - multiset{x};
    assert multiset(a) == multiset(a + [x]) - multiset{x};
  }

  /** The sum does not depend on the order of the changes. */
  lemma {:induction false} SumPermutation(a: seq<real>, b: seq<real>)
    requires multiset(a) == multiset(b)
    ensures Sum(a) == Sum(b)
    decreases |a|
  {
    if a == [] {
      assert |multiset(b)| == 0;
    } else {
      var init, x := a[..|a| - 1], a[|a| - 1];
      assert a == init + [x];
      var k := SplitAt(init, x, b);
      SumPermutation(init, b[..k] + b[k + 1..]);
      SumConcat(b[..k], [x]);
      SumConcat(b[..k] + [x], b[k + 1..]);
      SumConcat(b[..k], b[k + 1..]);
    }
  }

  /** Neither does any count. */
  lemma {:induction false} CountPermutation(a: seq<real>, b: seq<real>, p: real -> bool)
    requires multiset(a) == multiset(b)
    ensures Count(a, p) == Count(b, p)
    decreases |a|
  {
    if a == [] {
      assert |multiset(b)| == 0;
    } else {
      var init, x := a[..|a| - 1], a[|a| - 1];
      assert a == init + [x];
      var k := SplitAt(init, x, b);
      CountPermutation(init, b[..k] + b[k + 1..], p);
      CountConcat(b[..k], [x], p);
      CountConcat(b[..k] + [x], b[k + 1..], p);
      CountConcat(b[..k], b[k + 1..], p);
    }
  }

  /** A count under a predicate is at most the count under a weaker one. */
  lemma {:induction false} CountMonotone(cs: seq<real>, p: real -> bool, q: real -> bool)
    requires forall c :: p(c) ==> q(c)
    ensures Count(cs, p) <= Count(cs, q)
  {
    if cs != [] {
      CountMonotone(cs[..|cs| - 1], p, q);
    }
  }

  /** Two predicates that never hold together count at most the whole list. */
  lemma {:induction false} CountDisjoint(cs: seq<real>, p: real -> bool, q: real -> bool)
    requires forall c :: !(p(c) && q(c))
    ensures Count(cs, p) + Count(cs, q) <= |cs|
  {
    if cs != [] {
      CountDisjoint(cs[..|cs| - 1], p, q);
    }
  }

  /** Counting a predicate that holds of every element gives the length. */
  lemma {:induction false} CountAll(cs: seq<real>, p: real -> bool)
    requires forall i :: 0 <= i < |cs| ==> p(cs[i])
    ensures Count(cs, p) == |cs|
  {
    if cs != [] {
      CountAll(cs[..|cs| - 1], p);
    }
  }

  /** Counting a predicate that holds of no element gives zero. */
  lemma {:induction false} CountNone(cs: seq<real>, p: real -> bool)
    requires forall i :: 0 <= i < |cs| ==> !p(cs[i])
    ensures Count(cs, p) == 0
  {
    if cs != [] {
      CountNone(cs[..|cs| - 1], p);
    }
  }

  /** Bounds on every element bound the sum. */
  lemma {:induction false} SumBounds(cs: seq<real>, lo: real, hi: real)
    requires forall i :: 0 <= i < |cs| ==> lo <= cs[i] <= hi
    ensures lo * |cs| as real <= Sum(cs) <= hi * |cs| as real
  {
    if cs != [] {
      SumBounds(cs[..|cs| - 1], lo, hi);
    }
  }

  /** A strict lower bound on every element of a non-empty list is a strict
      lower bound on its mean. */
  lemma {:induction false} SumStrictLowerBound(cs: seq<real>, lo: real)
    requires |cs| > 0
    requires forall i :: 0 <= i < |cs| ==> lo < cs[i]
    ensures lo * |cs| as real < Sum(cs)
  {
    if |cs| > 1 {
      SumStrictLowerBound(cs[..|cs| - 1], lo);
    }
  }

  // ---------------------------------------------------------------------
  // The overall outcome
  // ---------------------------------------------------------------------

  /** What the outcome selection looks at: the number of pairs, how many
      changes pass each individual threshold, their sum, and how many are
      strictly positive or strictly negative. */
  datatype Tally = Tally(
    pairs: nat,
    significantPositives: nat,
    significantNegatives: nat,
    sum: real,
    positives: nat,
    negatives: nat)

  function TallyOf(cs: seq<real>): Tally {
    Tally(|cs|, Count(cs, SignificantlyUp), Count(cs, SignificantlyDown), Sum(cs), Count(cs, Up), Count(cs, Down))
  }

  /** The three tiers: no pairs gives Unknown; otherwise the majority of
      individually significant changes decides (a tie is Unknown); otherwise a
      mean change within 0.01 is NoChange; otherwise a share of more than 0.7
      of the changes in one direction decides, and anything else is Unknown. */
  function Decide(t: Tally): (r: EvalOutcome)
    ensures t.pairs == 0 ==> r == Unknown
    ensures r == NoChange ==> t.significantPositives == 0 && t.significantNegatives == 0
    ensures r == Improvement ==> t.significantPositives >= t.significantNegatives
    ensures r == Regression ==> t.significantNegatives >= t.significantPositives
    ensures (r == Improvement || r == Regression) && t.significantPositives == t.significantNegatives ==>
      t.significantPositives == 0
  {
    if t.pairs == 0 then Unknown
    else if t.significantPositives > 0 || t.significantNegatives > 0 then
      if t.significantPositives > t.significantNegatives then Improvement
      else if t.significantPositives < t.significantNegatives then Regression
      else Unknown
    else
      var total := t.pairs as real;
      var mean := t.sum / total;
      if Abs(mean) > MeanThreshold then
        if t.positives as real / total > ConsistencyThreshold then Improvement
        else if t.negatives as real / total > ConsistencyThreshold then Regression
        else Unknown
      else NoChange
  }

  /** The overall outcome of a list of per-pair changes. */
  function Verdict(cs: seq<real>): (r: EvalOutcome)
    ensures |cs| == 0 ==> r == Unknown
    ensures r == NoChange ==> Count(cs, SignificantlyUp) == 0 && Count(cs, SignificantlyDown) == 0
    ensures r == Improvement ==> Count(cs, SignificantlyUp) >= Count(cs, SignificantlyDown)
    ensures r == Regression ==> Count(cs, SignificantlyDown) >= Count(cs, SignificantlyUp)
    ensures (r == Improvement || r == Regression) && Count(cs, SignificantlyUp) == Count(cs, SignificantlyDown) ==>
      Count(cs, SignificantlyUp) == 0
  {
    Decide(TallyOf(cs))
  }

  /** No significant count means no element is significant. */
  lemma {:induction false} NoneSignificant(cs: seq<real>)
    requires Count(cs, SignificantlyUp) == 0 && Count(cs, SignificantlyDown) == 0
    ensures forall i :: 0 <= i < |cs| ==> Classify(cs[i]) == NoChange
  {
    if cs != [] {
      NoneSignificant(cs[..|cs| - 1]);
      assert forall i :: 0 <= i < |cs| - 1 ==> cs[i] == cs[..|cs| - 1][i];
    }
  }

  /** Comparing a mean with a threshold is comparing the sum with the
      threshold times the count. */
  lemma MeanCompare(sum: real, n: real, t: real)
    requires n > 0.0
    ensures sum / n > t <==> sum > t * n
    ensures Abs(sum / n) <= t <==> Abs(sum) <= t * n
  {
    var mean := sum / n;
    assert sum == mean * n;
    if mean > t { assert mean * n > t * n; }
    if mean <= t { assert mean * n <= t * n; }
    if mean >= -t { assert mean * n >= -t * n; }
    if mean < -t { assert mean * n < -t * n; }
  }

  /** What each tier guarantees about the tally it decided on. */
  lemma DecideSound(t: Tally)
    requires t.significantPositives <= t.positives && t.significantNegatives <= t.negatives
    ensures t.pairs == 0 ==> Decide(t) == Unknown
    ensures Decide(t) == Improvement ==> t.positives > 0
    ensures Decide(t) == Regression ==> t.negatives > 0
    ensures Decide(t) == NoChange ==>
      t.pairs > 0 && t.significantPositives == 0 && t.significantNegatives == 0
      && Abs(t.sum) <= MeanThreshold * t.pairs as real
  {
    if t.pairs > 0 {
      MeanCompare(t.sum, t.pairs as real, MeanThreshold);
    }
  }

  /** What each outcome guarantees about the changes: an improvement has at
      least one change up, a regression at least one change down, and NoChange
      means some pairs, none individually significant, and a mean within the
      mean threshold. No pairs at all is always Unknown. */
  lemma VerdictSound(cs: seq<real>)
    ensures |cs| == 0 ==> Verdict(cs) == Unknown
    ensures Verdict(cs) == Improvement ==> Count(cs, Up) > 0
    ensures Verdict(cs) == Regression ==> Count(cs, Down) > 0
    ensures Verdict(cs) == NoChange ==> |cs| > 0 && forall i :: 0 <= i < |cs| ==> Classify(cs[i]) == NoChange
    ensures Verdict(cs) == NoChange ==> Abs(Sum(cs)) <= MeanThreshold * |cs| as real
  {
    CountMonotone(cs, SignificantlyUp, Up);
    CountMonotone(cs, SignificantlyDown, Down);
    DecideSound(TallyOf(cs));
    if Verdict(cs) == NoChange {
      NoneSignificant(cs);
    }
  }

  /** The outcome depends only on the multiset of changes, never on the order
      in which the pairs were visited. */
  lemma VerdictPermutation(a: seq<real>, b: seq<real>)
    requires multiset(a) == multiset(b)
    ensures Verdict(a) == Verdict(b)
  {
    assert |a| == |multiset(a)| == |multiset(b)| == |b|;
    SumPermutation(a, b);
    CountPermutation(a, b, SignificantlyUp);
    CountPermutation(a, b, SignificantlyDown);
    CountPermutation(a, b, Up);
    CountPermutation(a, b, Down);
  }

  function Negated(cs: seq<real>): (r: seq<real>)
    ensures |r| == |cs| && forall i :: 0 <= i < |cs| ==> r[i] == -cs[i]
  {
    seq(|cs|, i requires 0 <= i < |cs| => -cs[i])
  }

  function Mirror(o: EvalOutcome): EvalOutcome {
    match o
    case Improvement => Regression
    case Regression => Improvement
    case other => other
  }

  lemma {:induction false} NegatedTallies(cs: seq<real>)
    ensures Sum(Negated(cs)) == -Sum(cs)
    ensures Count(Negated(cs), SignificantlyUp) == Count(cs, SignificantlyDown)
    ensures Count(Negated(cs), SignificantlyDown) == Count(cs, SignificantlyUp)
    ensures Count(Negated(cs), Up) == Count(cs, Down)
    ensures Count(Negated(cs), Down) == Count(cs, Up)
  {
    if cs != [] {
      var init := cs[..|cs| - 1];
      NegatedTallies(init);
      assert Negated(cs)[..|cs| - 1] == Negated(init);
    }
  }

  /** The decision is symmetric in the two directions, provided the
      positive and negative shares cannot both pass 0.7. */
  lemma DecideMirror(t: Tally)
    requires t.positives + t.negatives <= t.pairs
    ensures Decide(t.(significantPositives := t.significantNegatives, significantNegatives := t.significantPositives,
                      sum := -t.sum, positives := t.negatives, negatives := t.positives))
            == Mirror(Decide(t))
  {
    var m := t.(significantPositives := t.significantNegatives, significantNegatives := t.significantPositives,
                sum := -t.sum, positives := t.negatives, negatives := t.positives);
    if t.pairs > 0 && t.significantPositives == 0 && t.significantNegatives == 0 {
      DecideWithoutSignificant(t);
      DecideWithoutSignificant(m);
      assert Abs(m.sum) == Abs(t.sum);
      assert t.positives as real + t.negatives as real <= t.pairs as real;
    }
  }

  /** The analyzer is symmetric: negating every change swaps Improvement and
      Regression and leaves NoChange and Unknown alone. */
  lemma VerdictMirror(cs: seq<real>)
    ensures Verdict(Negated(cs)) == Mirror(Verdict(cs))
  {
    NegatedTallies(cs);
    CountDisjoint(cs, Up, Down);
    DecideMirror(TallyOf(cs));
  }

  /** When every pair moved up by more than the individual threshold the run
      is an improvement. */
  lemma AllSignificantlyUp(cs: seq<real>)
    requires |cs| > 0
    requires forall i :: 0 <= i < |cs| ==> cs[i] > IndividualThreshold
    ensures Verdict(cs) == Improvement
  {
    CountAll(cs, SignificantlyUp);
    CountNone(cs, SignificantlyDown);
  }

  /** Many small moves in the same direction are caught by the mean and
      consistency tiers: every change in (0.01, 0.10] gives Improvement. */
  lemma ConsistentSmallDrift(cs: seq<real>)
    requires |cs| > 0
    requires forall i :: 0 <= i < |cs| ==> MeanThreshold < cs[i] <= IndividualThreshold
    ensures Verdict(cs) == Improvement
  {
    CountNone(cs, SignificantlyUp);
    CountNone(cs, SignificantlyDown);
    CountAll(cs, Up);
    SumStrictLowerBound(cs, MeanThreshold);
    MeanAndConsistencyDecide(cs);
  }

  /** The first tier: with any individually significant change, the
      majority of significant changes decides and a tie is Unknown. */
  lemma SignificantMajorityDecides(cs: seq<real>)
    requires Count(cs, SignificantlyUp) + Count(cs, SignificantlyDown) > 0
    ensures Verdict(cs) == Improvement <==> Count(cs, SignificantlyUp) > Count(cs, SignificantlyDown)
    ensures Verdict(cs) == Regression <==> Count(cs, SignificantlyUp) < Count(cs, SignificantlyDown)
    ensures Verdict(cs) == Unknown <==> Count(cs, SignificantlyUp) == Count(cs, SignificantlyDown)
  {
  }

  /** The later tiers on a tally without significant changes, in terms of
      totals rather than ratios. */
  lemma DecideWithoutSignificant(t: Tally)
    requires t.pairs > 0 && t.significantPositives == 0 && t.significantNegatives == 0
    ensures var n := t.pairs as real;
            && (Decide(t) == NoChange <==> Abs(t.sum) <= MeanThreshold * n)
            && (Decide(t) == Improvement <==>
                  Abs(t.sum) > MeanThreshold * n && t.positives as real > ConsistencyThreshold * n)
            && (Decide(t) == Regression <==>
                  && Abs(t.sum) > MeanThreshold * n
                  && t.positives as real <= ConsistencyThreshold * n
                  && t.negatives as real > ConsistencyThreshold * n)
  {
    var n := t.pairs as real;
    MeanCompare(t.sum, n, MeanThreshold);
    MeanCompare(t.positives as real, n, ConsistencyThreshold);
    MeanCompare(t.negatives as real, n, ConsistencyThreshold);
  }

  /** The second and third tiers: without a significant change, NoChange
      exactly when the sum stays within 0.01 per pair; otherwise a direction
      holding more than 70% of the pairs decides, and anything else is
      Unknown. */
  lemma MeanAndConsistencyDecide(cs: seq<real>)
    requires |cs| > 0
    requires Count(cs, SignificantlyUp) == 0 && Count(cs, SignificantlyDown) == 0
    ensures var n := |cs| as real;
            && (Verdict(cs) == NoChange <==> Abs(Sum(cs)) <= MeanThreshold * n)
            && (Verdict(cs) == Improvement <==>
                  Abs(Sum(cs)) > MeanThreshold * n && Count(cs, Up) as real > ConsistencyThreshold * n)
            && (Verdict(cs) == Regression <==>
                  && Abs(Sum(cs)) > MeanThreshold * n
                  && Count(cs, Up) as real <= ConsistencyThreshold * n
                  && Count(cs, Down) as real > ConsistencyThreshold * n)
  {
    DecideWithoutSignificant(TallyOf(cs));
  }

  /** Changes that all stay within the mean threshold give NoChange. */
  lemma BelowBothThresholds(cs: seq<real>)
    requires |cs| > 0
    requires forall i :: 0 <= i < |cs| ==> -MeanThreshold <= cs[i] <= MeanThreshold
    ensures Verdict(cs) == NoChange
  {
    CountNone(cs, SignificantlyUp);
    CountNone(cs, SignificantlyDown);
    SumBounds(cs, -MeanThreshold, MeanThreshold);
    MeanCompare(Sum(cs), |cs| as real, MeanThreshold);
  }

  // ---------------------------------------------------------------------
  // Pairs and the specification of compare_results
  // ---------------------------------------------------------------------

  /** The changes of the paired hashes among `hs`, in the order of `hs`: at
      most one per hash. */
  function ChangesAlong(previous: seq<SingleEvalScore>, current: seq<SingleEvalScore>, hs: seq<string>): (cs: seq<real>)
    ensures |cs| <= |hs|
  {
    if hs == [] then []
    else
      var g := Group(previous, current, hs[|hs| - 1]);
      ChangesAlong(previous, current, hs[..|hs| - 1])
        + (if |g| == 2 then [PercentChange(g[0].score, g[1].score)] else [])
  }

  /** A change is recorded only for a hash whose group is a pair. */
  lemma {:induction false} ChangesAlongNeedsPair(previous: seq<SingleEvalScore>, current: seq<SingleEvalScore>, hs: seq<string>)
    ensures ChangesAlong(previous, current, hs) != [] ==>
      exists i :: 0 <= i < |hs| && |Group(previous, current, hs[i])| == 2
  {
    if hs != [] && |Group(previous, current, hs[|hs| - 1])| != 2 {
      var init := hs[..|hs| - 1];
      ChangesAlongNeedsPair(previous, current, init);
      if ChangesAlong(previous, current, init) != [] {
        var i :| 0 <= i < |init| && |Group(previous, current, init[i])| == 2;
        assert init[i] == hs[i];
      }
    }
  }

  lemma {:induction false} ChangesAlongConcat(previous: seq<SingleEvalScore>, current: seq<SingleEvalScore>, a: seq<string>, b: seq<string>)
    ensures ChangesAlong(previous, current, a + b) == ChangesAlong(previous, current, a) + ChangesAlong(previous, current, b)
    decreases |b|
  {
    if b == [] {
      assert a + b == a;
    } else {
      var init := b[..|b| - 1];
      assert (a + b)[..|a + b| - 1] == a + init;
      assert (a + b)[|a + b| - 1] == b[|b| - 1];
      ChangesAlongConcat(previous, current, a, init);
    }
  }

  /** Visiting the hashes in another order permutes the changes. */
  lemma {:induction false} ChangesAlongPermutation(previous: seq<SingleEvalScore>, current: seq<SingleEvalScore>, a: seq<string>, b: seq<string>)
    requires multiset(a) == multiset(b)
    ensures multiset(ChangesAlong(previous, current, a)) == multiset(ChangesAlong(previous, current, b))
    decreases |a|
  {
    if a == [] {
      assert |multiset(b)| == 0;
    } else {
      var init, x := a[..|a| - 1], a[|a| - 1];
      assert a == init + [x];
      var k := SplitAt(init, x, b);
      ChangesAlongPermutation(previous, current, init, b[..k] + b[k + 1..]);
      ChangesAlongConcat(previous, current, b[..k], [x]);
      ChangesAlongConcat(previous, current, b[..k] + [x], b[k + 1..]);
      ChangesAlongConcat(previous, current, b[..k], b[k + 1..]);
    }
  }

  predicate Distinct<T(==)>(s: seq<T>) {
    forall i, j :: 0 <= i < j < |s| ==> s[i] != s[j]
  }

  lemma {:induction false} DistinctMultiplicity<T>(s: seq<T>, x: T)
    requires Distinct(s)
    ensures multiset(s)[x] == if x in s then 1 else 0
  {
    if s != [] {
      var init := s[..|s| - 1];
      assert s == init + [s[|s| - 1]];
      DistinctMultiplicity(init, x);
    }
  }

  /** Two duplicate-free lists of the same elements are permutations. */
  lemma DistinctSameElements<T>(a: seq<T>, b: seq<T>)
    requires Distinct(a) && Distinct(b)
    requires forall x :: x in a <==> x in b
    ensures multiset(a) == multiset(b)
  {
    forall x ensures multiset(a)[x] == multiset(b)[x] {
      DistinctMultiplicity(a, x);
      DistinctMultiplicity(b, x);
    }
  }

  /** The hashes of `scores` in order of first occurrence, each once. */
  function HashOrder(scores: seq<SingleEvalScore>): (hs: seq<string>)
    ensures Distinct(hs)
    ensures forall h :: h in hs <==> Occurs(scores, h)
  {
    if scores == [] then []
    else
      var init := scores[..|scores| - 1];
      var h := scores[|scores| - 1].evalHash;
      var rest := HashOrder(init);
      assert forall x :: Occurs(init, x) ==> Occurs(scores, x) by {
        forall x | Occurs(init, x) ensures Occurs(scores, x) {
          var i :| 0 <= i < |init| && init[i].evalHash == x;
          assert scores[i].evalHash == x;
        }
      }
      assert forall x :: Occurs(scores, x) && x != h ==> Occurs(init, x) by {
        forall x | Occurs(scores, x) && x != h ensures Occurs(init, x) {
          var i :| 0 <= i < |scores| && scores[i].evalHash == x;
          assert init[i].evalHash == x;
        }
      }
      if h in rest then rest else rest + [h]
  }

  /** A reference order for the pairs: first occurrence in `previous ++ current`. */
  function CanonicalOrder(previous: seq<SingleEvalScore>, current: seq<SingleEvalScore>): seq<string> {
    HashOrder(previous + current)
  }

  /** The overall outcome `compare_results` reports: anything but Unknown
      needs at least one hash whose group is a pair. */
  function CompareOutcome(previous: seq<SingleEvalScore>, current: seq<SingleEvalScore>): (r: EvalOutcome)
    ensures r != Unknown ==> exists h :: |Group(previous, current, h)| == 2
  {
    ChangesAlongNeedsPair(previous, current, CanonicalOrder(previous, current));
    Verdict(ChangesAlong(previous, current, CanonicalOrder(previous, current)))
  }

  /** `m` is one of the entries `compare_results` reports as meaningful: its
      hash has a group of exactly two entries, the scores are those two in
      order, and the individual outcome is not NoChange. */
  predicate IsMeaningful(previous: seq<SingleEvalScore>, current: seq<SingleEvalScore>, m: MeaningfulEvalScore) {
    var g := Group(previous, current, m.evalHash);
    && |g| == 2
    && m.previousScore == g[0].score
    && m.currentScore == g[1].score
    && m.outcome == Classify(PercentChange(g[0].score, g[1].score))
    && m.outcome != NoChange
  }

  /** Each hash is reported at most once. */
  predicate DistinctHashes(ms: seq<MeaningfulEvalScore>) {
    forall i, j :: 0 <= i < j < |ms| ==> ms[i].evalHash != ms[j].evalHash
  }

  // ---------------------------------------------------------------------
  // compare_results
  // ---------------------------------------------------------------------

  lemma EntriesForSnoc(scores: seq<SingleEvalScore>, i: nat, h: string, isCurrent: bool)
    requires i < |scores|
    ensures EntriesFor(scores[..i + 1], h, isCurrent)
         == EntriesFor(scores[..i], h, isCurrent)
            + (if scores[i].evalHash == h then [Entry(scores[i].score, isCurrent)] else [])
  {
    assert scores[..i + 1][..i] == scores[..i];
  }

  /** `grouped` holds the groups of `start` extended by the first `i` scores. */
  ghost predicate PushedUpTo(start: map<string, seq<Entry>>, grouped: map<string, seq<Entry>>,
                             scores: seq<SingleEvalScore>, i: nat, isCurrent: bool)
    requires i <= |scores|
  {
    && (forall h :: h in grouped <==> h in start || EntriesFor(scores[..i], h, isCurrent) != [])
    && (forall h :: h in grouped ==>
          grouped[h] == (if h in start then start[h] else []) + EntriesFor(scores[..i], h, isCurrent))
  }

  /** One push, seen from a single key `h`. */
  lemma PushStepAt(start: map<string, seq<Entry>>, grouped: map<string, seq<Entry>>,
                   scores: seq<SingleEvalScore>, i: nat, isCurrent: bool, h: string)
    requires i < |scores|
    requires h in grouped <==> h in start || EntriesFor(scores[..i], h, isCurrent) != []
    requires h in grouped ==> grouped[h] == (if h in start then start[h] else []) + EntriesFor(scores[..i], h, isCurrent)
    ensures var s := scores[i];
            var prior := if s.evalHash in grouped then grouped[s.evalHash] else [];
            var next := grouped[s.evalHash := prior + [Entry(s.score, isCurrent)]];
            && (h in next <==> h in start || EntriesFor(scores[..i + 1], h, isCurrent) != [])
            && (h in next ==>
                  next[h] == (if h in start then start[h] else []) + EntriesFor(scores[..i + 1], h, isCurrent))
  {
    EntriesForSnoc(scores, i, h, isCurrent);
    if scores[i].evalHash != h {
      assert EntriesFor(scores[..i + 1], h, isCurrent) == EntriesFor(scores[..i], h, isCurrent) + [];
    }
  }

  lemma PushStep(start: map<string, seq<Entry>>, grouped: map<string, seq<Entry>>,
                 scores: seq<SingleEvalScore>, i: nat, isCurrent: bool)
    requires i < |scores| && PushedUpTo(start, grouped, scores, i, isCurrent)
    ensures var s := scores[i];
            var prior := if s.evalHash in grouped then grouped[s.evalHash] else [];
            PushedUpTo(start, grouped[s.evalHash := prior + [Entry(s.score, isCurrent)]], scores, i + 1, isCurrent)
  {
    forall h {
      PushStepAt(start, grouped, scores, i, isCurrent, h);
    }
  }

  /** One `for_each` pass: appends every score of `scores` to the group of
      its hash, creating the group on first sight. */
  method PushAll(start: map<string, seq<Entry>>, scores: seq<SingleEvalScore>, isCurrent: bool)
    returns (grouped: map<string, seq<Entry>>)
    ensures forall h :: h in grouped <==> h in start || Occurs(scores, h)
    ensures forall h :: h in grouped ==>
      grouped[h] == (if h in start then start[h] else []) + EntriesFor(scores, h, isCurrent)
  {
    grouped := start;
    var i := 0;
    while i < |scores|
      invariant 0 <= i <= |scores|
      invariant PushedUpTo(start, grouped, scores, i, isCurrent)
    {
      var s := scores[i];
      var prior := if s.evalHash in grouped then grouped[s.evalHash] else [];
      PushStep(start, grouped, scores, i, isCurrent);
      grouped := grouped[s.evalHash := prior + [Entry(s.score, isCurrent)]];
      i := i + 1;
    }
    assert scores[..i] == scores;
    forall h {
      EntriesForEmpty(scores, h, isCurrent);
    }
  }

  /** The two passes that build the hash map of groups: previous scores
      first, then current ones. */
  method GroupScores(previous: seq<SingleEvalScore>, current: seq<SingleEvalScore>)
    returns (grouped: map<string, seq<Entry>>)
    ensures forall h :: h in grouped <==> Occurs(previous, h) || Occurs(current, h)
    ensures forall h :: h in grouped ==> grouped[h] == Group(previous, current, h)
  {
    var fromPrevious := PushAll(map[], previous, false);
    grouped := PushAll(fromPrevious, current, true);
    forall h | h in grouped ensures grouped[h] == Group(previous, current, h) {
      GroupAt(previous, current, fromPrevious, grouped, h);
    }
  }

  /** The two passes, seen from a single key `h`. */
  lemma GroupAt(previous: seq<SingleEvalScore>, current: seq<SingleEvalScore>,
                fromPrevious: map<string, seq<Entry>>, grouped: map<string, seq<Entry>>, h: string)
    requires h in fromPrevious <==> Occurs(previous, h)
    requires h in fromPrevious ==> fromPrevious[h] == [] + EntriesFor(previous, h, false)
    requires h in grouped
    requires grouped[h] == (if h in fromPrevious then fromPrevious[h] else []) + EntriesFor(current, h, true)
    ensures grouped[h] == Group(previous, current, h)
  {
    EntriesForEmpty(previous, h, false);
    if h in fromPrevious {
      assert fromPrevious[h] == EntriesFor(previous, h, false);
    }
  }

  lemma OccursInConcat(previous: seq<SingleEvalScore>, current: seq<SingleEvalScore>, h: string)
    ensures Occurs(previous + current, h) <==> Occurs(previous, h) || Occurs(current, h)
  {
    if Occurs(previous + current, h) {
      var k :| 0 <= k < |previous + current| && (previous + current)[k].evalHash == h;
      if k >= |previous| {
        assert current[k - |previous|].evalHash == h;
      }
    }
    if Occurs(previous, h) {
      var k :| 0 <= k < |previous| && previous[k].evalHash == h;
      assert (previous + current)[k].evalHash == h;
    }
    if Occurs(current, h) {
      var k :| 0 <= k < |current| && current[k].evalHash == h;
      assert (previous + current)[|previous| + k].evalHash == h;
    }
  }

  /** Whatever order the groups are visited in, the changes collected are a
      permutation of those in the reference order. */
  lemma VisitOrderIrrelevant(previous: seq<SingleEvalScore>, current: seq<SingleEvalScore>, visited: seq<string>)
    requires Distinct(visited)
    requires forall h :: h in visited <==> Occurs(previous, h) || Occurs(current, h)
    ensures Verdict(ChangesAlong(previous, current, visited)) == CompareOutcome(previous, current)
  {
    var canonical := CanonicalOrder(previous, current);
    forall h ensures h in visited <==> h in canonical {
      OccursInConcat(previous, current, h);
    }
    DistinctSameElements(visited, canonical);
    ChangesAlongPermutation(previous, current, visited, canonical);
    VerdictPermutation(ChangesAlong(previous, current, visited), ChangesAlong(previous, current, canonical));
  }

  /** A meaningful entry names a hash that occurs in one of the runs. */
  lemma MeaningfulHashOccurs(previous: seq<SingleEvalScore>, current: seq<SingleEvalScore>, m: MeaningfulEvalScore)
    requires IsMeaningful(previous, current, m)
    ensures Occurs(previous, m.evalHash) || Occurs(current, m.evalHash)
  {
    EntriesForEmpty(previous, m.evalHash, false);
    EntriesForEmpty(current, m.evalHash, true);
  }

  /** The entry a group contributes to the meaningful list, if any. */
  function MeaningfulOf(previous: seq<SingleEvalScore>, current: seq<SingleEvalScore>, h: string): seq<MeaningfulEvalScore> {
    var g := Group(previous, current, h);
    if |g| == 2 && Classify(PercentChange(g[0].score, g[1].score)) != NoChange
    then [MeaningfulEvalScore(h, g[0].score, g[1].score, Classify(PercentChange(g[0].score, g[1].score)))]
    else []
  }

  /** Visiting one more group keeps the meaningful list exact and free of
      repeated hashes. */
  lemma MeaningfulStep(previous: seq<SingleEvalScore>, current: seq<SingleEvalScore>, visited: seq<string>, h: string,
                       ms: seq<MeaningfulEvalScore>, ms': seq<MeaningfulEvalScore>)
    requires h !in visited
    requires forall m :: m in ms <==> m.evalHash in visited && IsMeaningful(previous, current, m)
    requires DistinctHashes(ms)
    requires ms' == ms + MeaningfulOf(previous, current, h)
    ensures forall m :: m in ms' <==> m.evalHash in visited + [h] && IsMeaningful(previous, current, m)
    ensures DistinctHashes(ms')
  {
    forall i | 0 <= i < |ms| ensures ms[i].evalHash != h {
      assert ms[i] in ms;
    }
  }

  /** The change a group contributes, if it is a pair. */
  function ChangeOf(previous: seq<SingleEvalScore>, current: seq<SingleEvalScore>, h: string): seq<real> {
    var g := Group(previous, current, h);
    if |g| == 2 then [PercentChange(g[0].score, g[1].score)] else []
  }

  /** The state of the pairing loop: the groups in `keys` are split into
      those still to visit and those visited (in order, once each), and the
      changes and meaningful entries collected are exactly those of the
      visited groups. */
  ghost predicate Scanned(previous: seq<SingleEvalScore>, current: seq<SingleEvalScore>, keys: set<string>,
                          todo: set<string>, visited: seq<string>, changes: seq<real>, ms: seq<MeaningfulEvalScore>)
  {
    && (forall h :: h in keys <==> h in todo || h in visited)
    && (forall h :: h in todo ==> h !in visited)
    && Distinct(visited)
    && changes == ChangesAlong(previous, current, visited)
    && (forall m :: m in ms <==> m.evalHash in visited && IsMeaningful(previous, current, m))
    && DistinctHashes(ms)
  }

  /** Visiting one more group keeps the loop state exact. */
  lemma ScanStep(previous: seq<SingleEvalScore>, current: seq<SingleEvalScore>, keys: set<string>,
                 todo: set<string>, visited: seq<string>, changes: seq<real>, ms: seq<MeaningfulEvalScore>, h: string)
    requires Scanned(previous, current, keys, todo, visited, changes, ms) && h in todo
    ensures Scanned(previous, current, keys, todo - {h}, visited + [h],
                    changes + ChangeOf(previous, current, h), ms + MeaningfulOf(previous, current, h))
  {
    MeaningfulStep(previous, current, visited, h, ms, ms + MeaningfulOf(previous, current, h));
    assert (visited + [h])[..|visited|] == visited;
  }

  /** Groups both runs by hash, pairs groups of exactly two entries, and
      classifies. The groups are visited in an unspecified order (a hash
      map's), here an arbitrary choice at each step. */
  method CompareResults(previous: seq<SingleEvalScore>, current: seq<SingleEvalScore>)
    returns (outcome: EvalOutcome, meaningful: seq<MeaningfulEvalScore>)
    ensures outcome == CompareOutcome(previous, current)
    ensures forall m :: m in meaningful <==> IsMeaningful(previous, current, m)
    ensures DistinctHashes(meaningful)
  {
    var grouped := GroupScores(previous, current);
    var percentChanges: seq<real> := [];
    meaningful := [];
    var todo := grouped.Keys;
    ghost var visited: seq<string> := [];
    while todo != {}
      invariant todo <= grouped.Keys
      invariant Scanned(previous, current, grouped.Keys, todo, visited, percentChanges, meaningful)
      decreases |todo|
    {
      var h :| h in todo;
      var scores := grouped[h];
      assert scores == Group(previous, current, h);
      ghost var changesBefore, meaningfulBefore := percentChanges, meaningful;
      if |scores| == 2 {
        var previousScore := scores[0].score;
        var currentScore := scores[1].score;
        var percentChange := PercentChange(previousScore, currentScore);
        percentChanges := percentChanges + [percentChange];
        var individualOutcome := Classify(percentChange);
        if individualOutcome != NoChange {
          meaningful := meaningful + [MeaningfulEvalScore(h, previousScore, currentScore, individualOutcome)];
        }
      }
      assert percentChanges == changesBefore + ChangeOf(previous, current, h);
      assert meaningful == meaningfulBefore + MeaningfulOf(previous, current, h);
      ScanStep(previous, current, grouped.Keys, todo, visited, changesBefore, meaningfulBefore, h);
      todo := todo - {h};
      visited := visited + [h];
    }
    assert forall h :: h in visited <==> Occurs(previous, h) || Occurs(current, h);
    VisitOrderIrrelevant(previous, current, visited);
    outcome := Verdict(percentChanges);
    forall m | IsMeaningful(previous, current, m) ensures m.evalHash in visited {
      MeaningfulHashOccurs(previous, current, m);
    }
  }

  // ---------------------------------------------------------------------
  // Consequences for callers
  // ---------------------------------------------------------------------

  /** Hashes seen on one side only form no pair: with disjoint hash sets the
      outcome is Unknown and nothing is meaningful. */
  lemma OneSidedHashesAreIgnored(previous: seq<SingleEvalScore>, current: seq<SingleEvalScore>)
    requires forall i, j :: 0 <= i < |previous| && 0 <= j < |current| ==> previous[i].evalHash != current[j].evalHash
    requires forall i, j :: 0 <= i < j < |previous| ==> previous[i].evalHash != previous[j].evalHash
    requires forall i, j :: 0 <= i < j < |current| ==> current[i].evalHash != current[j].evalHash
    ensures CompareOutcome(previous, current) == Unknown
    ensures forall m :: !IsMeaningful(previous, current, m)
  {
    forall h ensures |Group(previous, current, h)| <= 1 {
      EntriesAtMostOnce(previous, h, false);
      EntriesAtMostOnce(current, h, true);
      EntriesForEmpty(previous, h, false);
      EntriesForEmpty(current, h, true);
    }
    NoPairs(previous, current, CanonicalOrder(previous, current));
  }

  lemma {:induction false} EntriesAtMostOnce(scores: seq<SingleEvalScore>, h: string, isCurrent: bool)
    requires forall i, j :: 0 <= i < j < |scores| ==> scores[i].evalHash != scores[j].evalHash
    ensures |EntriesFor(scores, h, isCurrent)| <= 1
  {
    if scores != [] {
      var init := scores[..|scores| - 1];
      EntriesAtMostOnce(init, h, isCurrent);
      if scores[|scores| - 1].evalHash == h {
        EntriesForEmpty(init, h, isCurrent);
      }
    }
  }

  lemma {:induction false} NoPairs(previous: seq<SingleEvalScore>, current: seq<SingleEvalScore>, hs: seq<string>)
    requires forall h :: |Group(previous, current, h)| <= 1
    ensures ChangesAlong(previous, current, hs) == []
  {
    if hs != [] {
      NoPairs(previous, current, hs[..|hs| - 1]);
    }
  }

  /** As written, two previous scores under one hash form a pair even when the
      current run lacks that hash: [a:1, a:2] against [] compares 1 with 2
      and reports an improvement. */
  lemma SameSideDuplicatesArePaired()
    ensures var previous := [SingleEvalScore("a", 1.0), SingleEvalScore("a", 2.0)];
            CompareOutcome(previous, []) == Improvement
            && IsMeaningful(previous, [], MeaningfulEvalScore("a", 1.0, 2.0, Improvement))
  {
    var previous := [SingleEvalScore("a", 1.0), SingleEvalScore("a", 2.0)];
    DuplicateGroup();
    assert Occurs(previous, "a") by {
      assert previous[0].evalHash == "a";
    }
    forall h ensures h in ["a"] <==> Occurs(previous, h) || Occurs([], h) {
    }
    VisitOrderIrrelevant(previous, [], ["a"]);
    assert ["a"][..0] == [];
    assert ChangesAlong(previous, [], ["a"]) == [1.0];
    AllSignificantlyUp([1.0]);
  }

  /** The group of `a` in [a:1, a:2] against [] holds both previous scores. */
  lemma DuplicateGroup()
    ensures Group([SingleEvalScore("a", 1.0), SingleEvalScore("a", 2.0)], [], "a")
            == [Entry(1.0, false), Entry(2.0, false)]
  {
    var previous := [SingleEvalScore("a", 1.0), SingleEvalScore("a", 2.0)];
    assert previous[..1] == [SingleEvalScore("a", 1.0)];
    assert previous[..1][..0] == [];
    assert EntriesFor(previous[..1], "a", false) == [Entry(1.0, false)];
  }
}
