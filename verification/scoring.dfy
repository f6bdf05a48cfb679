/**
 * Questionnaire scoring (`QuestionnaireService.CalculateScores`): Likert answers 1..5 are
 * reverse-keyed where the question says so, summed per trait and normalised to [0, 1].
 *
 * The service receives a dictionary keyed by question objects; its enumeration order is
 * not specified, so the answers are a sequence here and `ScoresPermutationInvariant` shows
 * that the order does not matter.
 */
module Scoring {

  /** `PersonalityQuestion`: the displayed text, the trait it measures, its keying. */
  datatype Question = Question(text: string, traitId: string, isReverseKeyed: bool)

  /** One answered question, as an entry of the dictionary handed to the service. */
  type Answer = (Question, int)

  /** Only answers on the five-point scale are scored; anything else is skipped. */
  predicate OnScale(a: int) {
    1 <= a <= 5
  }

  /** The contribution of an on-scale answer: reverse-keyed questions count 6 - answer. */
  function ItemScore(q: Question, a: int): (s: int)
    requires OnScale(a)
    ensures OnScale(s)
    ensures q.isReverseKeyed ==> s + a == 6
  {
    if q.isReverseKeyed then 6 - a else a
  }

  /** Does answer `x` count towards trait `t`? */
  predicate Hits(x: Answer, t: string) {
    x.0.traitId == t && OnScale(x.1)
  }

  /** Number of scored answers for trait `t`. */
  function Count(xs: seq<Answer>, t: string): nat {
    if xs == [] then 0 else Count(xs[..|xs| - 1], t) + (if Hits(xs[|xs| - 1], t) then 1 else 0)
  }

  /** Sum of the item scores of trait `t`. */
  function Sum(xs: seq<Answer>, t: string): int {
    if xs == [] then 0
    else
      var x := xs[|xs| - 1];
      Sum(xs[..|xs| - 1], t) + (if Hits(x, t) then ItemScore(x.0, x.1) else 0)
  }

  /** The traits that received at least one on-scale answer. */
  function Answered(xs: seq<Answer>): set<string> {
    if xs == [] then {}
    else
      var x := xs[|xs| - 1];
      Answered(xs[..|xs| - 1]) + (if OnScale(x.1) then {x.0.traitId} else {})
  }

  /** The intended score of a trait: where the sum lies between its minimum `count` and
      its maximum `5 * count`. */
  function Normalized(sum: int, count: int): real
    requires count > 0
  {
    (sum - count) as real / (4 * count) as real
  }

  /** Reference definition of the scores: one entry per answered trait, holding the
      normalised sum, with no clamping and no default. */
  function Scores(xs: seq<Answer>): (r: map<string, real>)
    ensures r.Keys == Answered(xs)
    ensures forall t :: t in r ==> 0.0 <= r[t] <= 1.0
  {
    AnsweredIffCounted(xs);
    SumBounds(xs);
    map t | t in Answered(xs) :: Normalized(Sum(xs, t), Count(xs, t))
  }

  /** A trait is answered exactly when it has a positive count. */
  lemma {:induction false} AnsweredIffCounted(xs: seq<Answer>)
    ensures forall t :: t in Answered(xs) <==> Count(xs, t) >= 1
  {
    if xs != [] {
      AnsweredIffCounted(xs[..|xs| - 1]);
    }
  }

  /** A trait is answered exactly when one of its questions has an on-scale answer. */
  lemma {:induction false} AnsweredMembership(xs: seq<Answer>, t: string)
    ensures t in Answered(xs) <==> exists i :: 0 <= i < |xs| && xs[i].0.traitId == t && OnScale(xs[i].1)
  {
    if xs != [] {
      AnsweredMembership(xs[..|xs| - 1], t);
      assert forall i :: 0 <= i < |xs| - 1 ==> xs[..|xs| - 1][i] == xs[i];
    }
  }

  /** Every item contributes between 1 and 5, so the sum lies between count and 5 * count,
      and the normalised value between 0 and 1. */
  lemma {:induction false} SumBounds(xs: seq<Answer>)
    ensures forall t :: Count(xs, t) <= Sum(xs, t) <= 5 * Count(xs, t)
    ensures forall t :: Count(xs, t) > 0 ==> 0.0 <= Normalized(Sum(xs, t), Count(xs, t)) <= 1.0
  {
    if xs != [] {
      SumBounds(xs[..|xs| - 1]);
    }
    assert forall t :: Count(xs, t) <= Sum(xs, t) <= 5 * Count(xs, t);
    forall t | Count(xs, t) > 0
      ensures 0.0 <= Normalized(Sum(xs, t), Count(xs, t)) <= 1.0
    {
      UnitFraction(Sum(xs, t) - Count(xs, t), 4 * Count(xs, t));
    }
  }

  lemma SameQuotient(a: real, a': real, b: real, b': real)
    requires a == a' && b == b' && b != 0.0
    ensures a / b == a' / b'
  {
  }

  lemma SelfQuotient(d: real)
    requires d > 0.0
    ensures d / d == 1.0
  {
  }

  lemma UnitFraction(a: int, b: int)
    requires 0 <= a <= b && b > 0
    ensures 0.0 <= a as real / b as real <= 1.0
  {
    assert a as real <= b as real;
  }

  /**
   * The service's first loop: per-trait sums and counts of the on-scale answers, a trait
   * entering both dictionaries when its first on-scale answer is seen.
   */
  method TallyAnswers(answers: seq<Answer>) returns (sums: map<string, int>, counts: map<string, int>)
    ensures sums.Keys == Answered(answers) && counts.Keys == sums.Keys
    ensures forall t :: t in sums ==> sums[t] == Sum(answers, t) && counts[t] == Count(answers, t)
  {
    sums := map[];
    counts := map[];
    var i := 0;
    while i < |answers|
      invariant 0 <= i <= |answers|
      invariant sums.Keys == Answered(answers[..i]) && counts.Keys == sums.Keys
      invariant forall t :: t in sums ==> sums[t] == Sum(answers[..i], t) && counts[t] == Count(answers[..i], t)
    {
      TallyStep(answers, i);
      var q := answers[i].0;
      var a := answers[i].1;
      if 1 <= a <= 5 {
        var score := if q.isReverseKeyed then 6 - a else a;
        if q.traitId !in sums {
          sums := sums[q.traitId := 0];
          counts := counts[q.traitId := 0];
        }
        sums := sums[q.traitId := sums[q.traitId] + score];
        counts := counts[q.traitId := counts[q.traitId] + 1];
      }
      i := i + 1;
    }
    assert answers[..i] == answers;
  }

  /** What one more answer does to the tallies of the prefix before it. */
  lemma TallyStep(xs: seq<Answer>, i: int)
    requires 0 <= i < |xs|
    ensures forall t :: Count(xs[..i + 1], t) == Count(xs[..i], t) + (if Hits(xs[i], t) then 1 else 0)
    ensures forall t :: Sum(xs[..i + 1], t) == Sum(xs[..i], t) + (if Hits(xs[i], t) then ItemScore(xs[i].0, xs[i].1) else 0)
    ensures Answered(xs[..i + 1]) == Answered(xs[..i]) + (if OnScale(xs[i].1) then {xs[i].0.traitId} else {})
    ensures forall t :: t !in Answered(xs[..i]) ==> Count(xs[..i], t) == 0 && Sum(xs[..i], t) == 0
  {
    assert xs[..i + 1][..i] == xs[..i];
    assert xs[..i + 1][i] == xs[i];
    AnsweredIffCounted(xs[..i]);
    SumBounds(xs[..i]);
  }

  /**
   * `QuestionnaireService.CalculateScores`: the tallies, then one normalised and clamped score
   * per trait seen. The result is the reference `Scores`, so the zero-count default and the
   * clamp never take effect.
   */
  method CalculateScores(answers: seq<Answer>) returns (scores: map<string, real>)
    ensures scores == Scores(answers)
  {
    var sums, counts := TallyAnswers(answers);
    scores := NormalizeTallies(sums, counts);
    TalliesGiveScores(answers, sums, counts);
  }

  /** The service's second loop: one normalised score per tallied trait. */
  method NormalizeTallies(sums: map<string, int>, counts: map<string, int>) returns (scores: map<string, real>)
    requires counts.Keys == sums.Keys
    ensures scores.Keys == sums.Keys
    ensures forall t :: t in scores ==> scores[t] == NormalizeScore(sums[t], counts[t])
  {
    scores := map[];
    var pending := sums.Keys;
    while pending != {}
      invariant pending <= sums.Keys
      invariant scores.Keys == sums.Keys - pending
      invariant forall t :: t in scores ==> scores[t] == NormalizeScore(sums[t], counts[t])
      decreases |pending|
    {
      var t :| t in pending;
      scores := scores[t := NormalizeScore(sums[t], counts[t])];
      pending := pending - {t};
    }
  }

  /** Normalising the tallies trait by trait yields the reference scores. */
  lemma TalliesGiveScores(answers: seq<Answer>, sums: map<string, int>, counts: map<string, int>)
    requires sums.Keys == Answered(answers) && counts.Keys == sums.Keys
    requires forall t :: t in sums ==> sums[t] == Sum(answers, t) && counts[t] == Count(answers, t)
    ensures Scores(answers).Keys == sums.Keys
    ensures forall t :: t in sums ==> Scores(answers)[t] == NormalizeScore(sums[t], counts[t])
  {
    AnsweredIffCounted(answers);
    SumBounds(answers);
  }

  /** The body of the service's second loop for one trait: 0.5 when nothing was counted,
      otherwise the normalised sum clamped to [0, 1]. Within the possible sums the clamp is
      the identity. */
  function NormalizeScore(sum: int, count: int): (r: real)
    ensures 0.0 <= r <= 1.0
    ensures count > 0 && count <= sum <= 5 * count ==> r == Normalized(sum, count)
  {
    if count == 0 then 0.5
    else
      var min := count as real;
      var max := 5.0 * count as real;
      NormalizedEquals(sum, count);
      var normalized := (sum as real - min) / (max - min);
      if normalized < 0.0 then 0.0 else if normalized > 1.0 then 1.0 else normalized
  }

  lemma NormalizedEquals(sum: int, count: int)
    requires count != 0
    ensures (sum as real - count as real) / (5.0 * count as real - count as real)
         == (sum - count) as real / (4 * count) as real
  {
    SameQuotient(sum as real - count as real, (sum - count) as real, 5.0 * count as real - count as real, (4 * count) as real);
  }

  /** Splitting the answers splits every count and sum. */
  lemma {:induction false} CountSumAppend(a: seq<Answer>, b: seq<Answer>, t: string)
    ensures Count(a + b, t) == Count(a, t) + Count(b, t)
    ensures Sum(a + b, t) == Sum(a, t) + Sum(b, t)
  {
    if b == [] {
      assert a + b == a;
    } else {
      assert (a + b)[..|a + b| - 1] == a + b[..|b| - 1];
      CountSumAppend(a, b[..|b| - 1], t);
    }
  }

  /** Counts and sums depend only on the multiset of answers. */
  lemma {:induction false} CountSumPermutation(xs: seq<Answer>, ys: seq<Answer>, t: string)
    requires multiset(xs) == multiset(ys)
    ensures Count(xs, t) == Count(ys, t) && Sum(xs, t) == Sum(ys, t)
    decreases |xs|
  {
    if xs == [] {
      assert |ys| == |multiset(ys)| == 0;
    } else {
      var x := xs[|xs| - 1];
      assert x in multiset(ys);
      var i :| 0 <= i < |ys| && ys[i] == x;
      var rest := ys[..i] + ys[i + 1..];
      assert ys == ys[..i] + [x] + ys[i + 1..];
      assert xs == xs[..|xs| - 1] + [x];
      assert multiset(xs) == multiset(xs[..|xs| - 1]) + multiset{x};
      assert multiset(ys) == multiset(ys[..i]) + multiset{x} + multiset(ys[i + 1..]);
      assert multiset(rest) == multiset(ys[..i]) + multiset(ys[i + 1..]);
      assert multiset(xs[..|xs| - 1]) == multiset(xs) - multiset{x};
      assert multiset(rest) == multiset(ys) - multiset{x};
      CountSumPermutation(xs[..|xs| - 1], rest, t);
      CountSumAppend(ys[..i], ys[i + 1..], t);
      CountSumAppend(ys[..i] + [x], ys[i + 1..], t);
      CountSumAppend(ys[..i], [x], t);
      assert [x][..0] == [];
    }
  }

  /** The scores do not depend on the order in which the answers are enumerated. */
  lemma ScoresPermutationInvariant(xs: seq<Answer>, ys: seq<Answer>)
    requires multiset(xs) == multiset(ys)
    ensures Scores(xs) == Scores(ys)
  {
    forall t ensures Count(xs, t) == Count(ys, t) && Sum(xs, t) == Sum(ys, t) {
      CountSumPermutation(xs, ys, t);
    }
    AnsweredIffCounted(xs);
    AnsweredIffCounted(ys);
    assert Answered(xs) == Answered(ys);
  }

  /** The same answers given to the mirrored question: keying flipped, answer 6 - a. */
  function Mirror(xs: seq<Answer>): (ys: seq<Answer>)
    ensures |ys| == |xs|
    ensures forall i :: 0 <= i < |xs| ==>
      ys[i].0 == xs[i].0.(isReverseKeyed := !xs[i].0.isReverseKeyed) && ys[i].1 == 6 - xs[i].1
  {
    if xs == [] then []
    else Mirror(xs[..|xs| - 1]) + [(xs[|xs| - 1].0.(isReverseKeyed := !xs[|xs| - 1].0.isReverseKeyed), 6 - xs[|xs| - 1].1)]
  }

  /** Reverse keying is exactly a mirror of the scale: answering k to a reverse-keyed question
      scores like answering 6 - k to the same question keyed forward. */
  lemma {:induction false} MirrorPreservesScores(xs: seq<Answer>)
    ensures Scores(Mirror(xs)) == Scores(xs)
  {
    forall t ensures Count(Mirror(xs), t) == Count(xs, t) && Sum(Mirror(xs), t) == Sum(xs, t) {
      MirrorCountSum(xs, t);
    }
    AnsweredIffCounted(xs);
    AnsweredIffCounted(Mirror(xs));
    assert Answered(Mirror(xs)) == Answered(xs);
  }

  lemma {:induction false} MirrorCountSum(xs: seq<Answer>, t: string)
    ensures Count(Mirror(xs), t) == Count(xs, t) && Sum(Mirror(xs), t) == Sum(xs, t)
  {
    if xs != [] {
      assert Mirror(xs)[..|xs| - 1] == Mirror(xs[..|xs| - 1]);
      MirrorCountSum(xs[..|xs| - 1], t);
    }
  }

  /** Answering every question of a trait at the low end of its keying scores 0. */
  lemma LowestAnswersScoreZero(xs: seq<Answer>, t: string)
    requires t in Answered(xs)
    requires forall i :: 0 <= i < |xs| && Hits(xs[i], t) ==> ItemScore(xs[i].0, xs[i].1) == 1
    ensures Scores(xs)[t] == 0.0
  {
    SumAllEqual(xs, t, 1);
  }

  /** Answering every question of a trait at the high end of its keying scores 1. */
  lemma HighestAnswersScoreOne(xs: seq<Answer>, t: string)
    requires t in Answered(xs)
    requires forall i :: 0 <= i < |xs| && Hits(xs[i], t) ==> ItemScore(xs[i].0, xs[i].1) == 5
    ensures Scores(xs)[t] == 1.0
  {
    AnsweredIffCounted(xs);
    SumAllEqual(xs, t, 5);
    var c := Count(xs, t);
    assert Sum(xs, t) - c == 4 * c;
    SelfQuotient((4 * c) as real);
  }

  /** Answering every question of a trait in the middle of the scale scores one half. */
  lemma MiddleAnswersScoreHalf(xs: seq<Answer>, t: string)
    requires t in Answered(xs)
    requires forall i :: 0 <= i < |xs| && Hits(xs[i], t) ==> xs[i].1 == 3
    ensures Scores(xs)[t] == 0.5
  {
    AnsweredIffCounted(xs);
    SumAllEqual(xs, t, 3);
    var c := Count(xs, t);
    assert Sum(xs, t) - c == 2 * c;
    HalfQuotient((2 * c) as real);
  }

  lemma HalfQuotient(d: real)
    requires d > 0.0
    ensures d / (2.0 * d) == 0.5
  {
  }

  lemma {:induction false} SumAllEqual(xs: seq<Answer>, t: string, v: int)
    requires forall i :: 0 <= i < |xs| && Hits(xs[i], t) ==> ItemScore(xs[i].0, xs[i].1) == v
    ensures Sum(xs, t) == v * Count(xs, t)
  {
    if xs != [] {
      SumAllEqual(xs[..|xs| - 1], t, v);
    }
  }
}
