/**
 * The questionnaire view model: questions grouped by trait, saved answers and exclusions
 * restored, page-by-page navigation, and the submission that scores the included groups.
 */
module Questionnaire {
  import opened Wrappers
  import opened Scoring

  /** `QuestionViewModel`: a question and its answer, 0 meaning not answered. */
  datatype Item = Item(question: Question, answer: int)

  /** `QuestionGroupViewModel`: one page of questions, all measuring the same trait. */
  datatype Group = Group(title: string, items: seq<Item>, included: bool)

  // ---------------------------------------------------------------------------------------
  // Loading: grouping, titles, restored answers and exclusions
  // ---------------------------------------------------------------------------------------

  /** The distinct trait ids of the questions, in order of first appearance (the keys of
      `GroupBy(q => q.TraitId)`). */
  function TraitKeys(qs: seq<Question>): (ks: seq<string>)
    ensures forall i, j :: 0 <= i < j < |ks| ==> ks[i] != ks[j]
    ensures forall i :: 0 <= i < |qs| ==> qs[i].traitId in ks
    ensures forall k :: k in ks ==> exists i :: 0 <= i < |qs| && qs[i].traitId == k
  {
    if qs == [] then []
    else
      var ks := TraitKeys(qs[..|qs| - 1]);
      var q := qs[|qs| - 1];
      assert forall i :: 0 <= i < |qs| - 1 ==> qs[i] == qs[..|qs| - 1][i];
      if q.traitId in ks then ks else ks + [q.traitId]
  }

  /** The questions of trait `k`, in their original order (one `GroupBy` group). */
  function OfTrait(qs: seq<Question>, k: string): (r: seq<Question>)
    ensures forall j :: 0 <= j < |r| ==> r[j].traitId == k
    ensures |r| <= |qs|
  {
    if qs == [] then []
    else
      var r := OfTrait(qs[..|qs| - 1], k);
      if qs[|qs| - 1].traitId == k then r + [qs[|qs| - 1]] else r
  }

  /** A trait with a question has a non-empty group; a trait without one has none. */
  lemma {:induction false} OfTraitEmptyIff(qs: seq<Question>, k: string)
    ensures OfTrait(qs, k) == [] <==> forall i :: 0 <= i < |qs| ==> qs[i].traitId != k
  {
    if qs != [] {
      OfTraitEmptyIff(qs[..|qs| - 1], k);
      assert forall i :: 0 <= i < |qs| - 1 ==> qs[i] == qs[..|qs| - 1][i];
    }
  }

  /** The page title: the localized trait name when the resources have one, else the id. */
  function TitleFor(names: map<string, string>, k: string): (t: string)
    ensures k !in names ==> t == k
  {
    if k in names then names[k] else k
  }

  /** The answer a question starts with: the saved answer for its text, else 0. */
  function Restore(saved: map<string, int>, text: string): (a: int)
    ensures text !in saved ==> a == 0
  {
    if text in saved then saved[text] else 0
  }

  function MakeGroup(qs: seq<Question>, names: map<string, string>, saved: map<string, int>,
                     savedExclusions: seq<string>, k: string): Group
  {
    var members := OfTrait(qs, k);
    Group(TitleFor(names, k),
          seq(|members|, j requires 0 <= j < |members| => Item(members[j], Restore(saved, members[j].text))),
          k !in savedExclusions)
  }

  /**
   * `LoadQuestionsAsync` after the questions are read: one group per trait in order of first
   * appearance, titled by the trait's localized name, answers restored by question text, and
   * excluded exactly when the saved exclusions name the trait id.
   */
  function LoadGroups(qs: seq<Question>, names: map<string, string>, saved: map<string, int>,
                      savedExclusions: seq<string>): (gs: seq<Group>)
    ensures |gs| == |TraitKeys(qs)|
    ensures forall i :: 0 <= i < |gs| ==>
      gs[i].title == TitleFor(names, TraitKeys(qs)[i])
      && (gs[i].included <==> TraitKeys(qs)[i] !in savedExclusions)
      && |gs[i].items| > 0
    ensures forall i, j :: 0 <= i < |gs| && 0 <= j < |gs[i].items| ==>
      gs[i].items[j].question.traitId == TraitKeys(qs)[i]
      && gs[i].items[j].answer == Restore(saved, gs[i].items[j].question.text)
  {
    var ks := TraitKeys(qs);
    forall i | 0 <= i < |ks| ensures |OfTrait(qs, ks[i])| > 0 {
      assert ks[i] in ks;
      OfTraitEmptyIff(qs, ks[i]);
    }
    seq(|ks|, i requires 0 <= i < |ks| => MakeGroup(qs, names, saved, savedExclusions, ks[i]))
  }

  /** The questions of a run of items. */
  function QuestionsOf(items: seq<Item>): (r: seq<Question>)
    ensures |r| == |items| && forall j :: 0 <= j < |r| ==> r[j] == items[j].question
  {
    seq(|items|, j requires 0 <= j < |items| => items[j].question)
  }

  /** All items, page after page. */
  function Flatten(gs: seq<Group>): seq<Item> {
    if gs == [] then [] else Flatten(gs[..|gs| - 1]) + gs[|gs| - 1].items
  }

  /** The per-trait groups of `ks`, concatenated. */
  function Regroup(ks: seq<string>, qs: seq<Question>): seq<Question> {
    if ks == [] then [] else Regroup(ks[..|ks| - 1], qs) + OfTrait(qs, ks[|ks| - 1])
  }

  lemma {:induction false} RegroupOtherKeys(ks: seq<string>, qs: seq<Question>, q: Question)
    requires q.traitId !in ks
    ensures Regroup(ks, qs + [q]) == Regroup(ks, qs)
  {
    assert (qs + [q])[..|qs|] == qs;
    if ks != [] {
      RegroupOtherKeys(ks[..|ks| - 1], qs, q);
    }
  }

  lemma {:induction false} RegroupOwnKey(ks: seq<string>, qs: seq<Question>, q: Question)
    requires q.traitId in ks
    requires forall i, j :: 0 <= i < j < |ks| ==> ks[i] != ks[j]
    ensures multiset(Regroup(ks, qs + [q])) == multiset(Regroup(ks, qs)) + multiset{q}
  {
    assert (qs + [q])[..|qs|] == qs;
    var init := ks[..|ks| - 1];
    if ks[|ks| - 1] == q.traitId {
      assert q.traitId !in init;
      RegroupOtherKeys(init, qs, q);
    } else {
      assert q.traitId in init;
      RegroupOwnKey(init, qs, q);
    }
  }

  /** Grouping neither drops nor duplicates a question. */
  lemma {:induction false} RegroupIsPermutation(qs: seq<Question>)
    ensures multiset(Regroup(TraitKeys(qs), qs)) == multiset(qs)
  {
    if qs != [] {
      var init := qs[..|qs| - 1];
      var q := qs[|qs| - 1];
      assert qs == init + [q];
      var ks := TraitKeys(init);
      RegroupIsPermutation(init);
      if q.traitId in ks {
        RegroupOwnKey(ks, init, q);
      } else {
        RegroupOtherKeys(ks, init, q);
        OfTraitEmptyIff(init, q.traitId);
        assert OfTrait(init, q.traitId) == [];
        var ks' := ks + [q.traitId];
        assert ks'[..|ks'| - 1] == ks;
      }
    }
  }

  lemma {:induction false} FlattenQuestions(gs: seq<Group>, ks: seq<string>, qs: seq<Question>)
    requires |gs| == |ks|
    requires forall i :: 0 <= i < |gs| ==> QuestionsOf(gs[i].items) == OfTrait(qs, ks[i])
    ensures QuestionsOf(Flatten(gs)) == Regroup(ks, qs)
  {
    if gs != [] {
      FlattenQuestions(gs[..|gs| - 1], ks[..|ks| - 1], qs);
      var a := Flatten(gs[..|gs| - 1]);
      var b := gs[|gs| - 1].items;
      assert QuestionsOf(a + b) == QuestionsOf(a) + QuestionsOf(b);
    }
  }

  /** Every loaded question is shown exactly once, on the page of its trait. */
  lemma LoadShowsEveryQuestionOnce(qs: seq<Question>, names: map<string, string>,
                                   saved: map<string, int>, savedExclusions: seq<string>)
    ensures multiset(QuestionsOf(Flatten(LoadGroups(qs, names, saved, savedExclusions)))) == multiset(qs)
  {
    var gs := LoadGroups(qs, names, saved, savedExclusions);
    var ks := TraitKeys(qs);
    forall i | 0 <= i < |gs| ensures QuestionsOf(gs[i].items) == OfTrait(qs, ks[i]) {
      assert gs[i] == MakeGroup(qs, names, saved, savedExclusions, ks[i]);
    }
    FlattenQuestions(gs, ks, qs);
    RegroupIsPermutation(qs);
  }

  // ---------------------------------------------------------------------------------------
  // Paging
  // ---------------------------------------------------------------------------------------

  /** The navigation state: the groups, the current page and the derived indicators. */
  datatype Pager = Pager(groups: seq<Group>, index: int, progress: real, isFirstPage: bool, isLastPage: bool)

  /** What the window receives when it closes: all three parts null on cancel. */
  datatype Closing = Closing(scores: Option<map<string, real>>, answers: Option<map<string, int>>,
                             exclusions: Option<seq<string>>)

  /** After a command the questionnaire either shows a page or has asked to close. */
  datatype Outcome = Showing(pager: Pager) | Closed(result: Closing)

  /** The progress percentage shown on page `index` of `total`. */
  function Percent(index: int, total: int): real
    requires total > 0
  {
    (index + 1) as real / total as real * 100.0
  }

  /** Every page has a question (as loading guarantees). */
  predicate NonEmptyPages(gs: seq<Group>) {
    forall i :: 0 <= i < |gs| ==> |gs[i].items| > 0
  }

  /** The indicators agree with the current page; with no groups the initial values stay.
      Every page has a question. */
  predicate Consistent(p: Pager) {
    NonEmptyPages(p.groups) &&
    if |p.groups| == 0 then
      p.index == 0 && p.isFirstPage && !p.isLastPage && p.progress == 0.0
    else
      0 <= p.index < |p.groups|
      && p.isFirstPage == (p.index == 0)
      && p.isLastPage == (p.index == |p.groups| - 1)
      && p.progress == Percent(p.index, |p.groups|)
  }

  /** `UpdateProgress`, which every caller invokes with at least one group. */
  function UpdateProgress(p: Pager): (r: Pager)
    requires 0 <= p.index < |p.groups| && NonEmptyPages(p.groups)
    ensures Consistent(r)
    ensures r.groups == p.groups && r.index == p.index
  {
    p.(progress := Percent(p.index, |p.groups|), isFirstPage := p.index == 0,
       isLastPage := p.index == |p.groups| - 1)
  }

  /** The state after loading: the first page when there is one, the initial values otherwise. */
  function Loaded(groups: seq<Group>): (p: Pager)
    requires NonEmptyPages(groups)
    ensures Consistent(p) && p.groups == groups && p.index == 0
  {
    var initial := Pager(groups, 0, 0.0, true, false);
    if |groups| > 0 then UpdateProgress(initial) else initial
  }

  /** `Next` (and `SkipGroup`): the following page, or submission from the last page. */
  function Next(p: Pager): (r: Outcome)
    requires Consistent(p)
    ensures p.index < |p.groups| - 1 ==>
      r.Showing? && Consistent(r.pager) && r.pager.index == p.index + 1 && r.pager.groups == p.groups
    ensures p.index >= |p.groups| - 1 ==> r == Closed(Submit(p.groups))
  {
    if p.index < |p.groups| - 1 then Showing(UpdateProgress(p.(index := p.index + 1)))
    else Closed(Submit(p.groups))
  }

  /** `Next` with the corrected submission: paging is the same, and closing saves the
      excluded pages by trait id. */
  function NextById(p: Pager): (r: Outcome)
    requires Consistent(p)
    ensures p.index < |p.groups| - 1 ==> r == Next(p)
    ensures p.index >= |p.groups| - 1 ==>
      r.Closed? && r.result == SubmitById(p.groups) && Next(p).Closed?
      && r.result.(exclusions := Next(p).result.exclusions) == Next(p).result
  {
    if p.index < |p.groups| - 1 then Next(p) else Closed(SubmitById(p.groups))
  }

  /** `Previous`: the preceding page; nothing happens on the first page. */
  function Previous(p: Pager): (r: Pager)
    requires Consistent(p)
    ensures Consistent(r) && r.groups == p.groups
    ensures p.index > 0 ==> r.index == p.index - 1
    ensures p.index <= 0 ==> r == p
  {
    if p.index > 0 then UpdateProgress(p.(index := p.index - 1)) else p
  }

  /** `SkipGroup` is `Next`. */
  function SkipGroup(p: Pager): (r: Outcome)
    requires Consistent(p)
    ensures r == Next(p)
  {
    Next(p)
  }

  /** `SkipRest`: submit whatever has been answered so far. */
  function SkipRest(p: Pager): (r: Outcome)
    requires Consistent(p)
    ensures r == Closed(Submit(p.groups))
  {
    Closed(Submit(p.groups))
  }

  /** `SkipRest` with the corrected submission: the same result except that the excluded
      pages are saved by trait id. */
  function SkipRestById(p: Pager): (r: Outcome)
    requires Consistent(p)
    ensures r.Closed? && r.result == SubmitById(p.groups)
    ensures r.result.(exclusions := SkipRest(p).result.exclusions) == SkipRest(p).result
  {
    Closed(SubmitById(p.groups))
  }

  /** `Cancel`: close with nothing to apply. */
  function Cancel(p: Pager): (r: Outcome)
    ensures r.Closed? && r.result.scores == None && r.result.answers == None && r.result.exclusions == None
  {
    Closed(Closing(None, None, None))
  }

  /** Choosing an answer on the current page (the radio-button binding). */
  function SetAnswer(p: Pager, j: int, value: int): (r: Pager)
    requires Consistent(p) && |p.groups| > 0
    requires 0 <= j < |p.groups[p.index].items|
    ensures Consistent(r) && r.index == p.index && |r.groups| == |p.groups|
    ensures r.groups[p.index] == p.groups[p.index].(items := r.groups[p.index].items)
    ensures |r.groups[p.index].items| == |p.groups[p.index].items|
    ensures r.groups[p.index].items[j].answer == value
    ensures forall i :: 0 <= i < |p.groups| && i != p.index ==> r.groups[i] == p.groups[i]
  {
    var g := p.groups[p.index];
    var g' := g.(items := g.items[j := g.items[j].(answer := value)]);
    p.(groups := p.groups[p.index := g'])
  }

  /** Ticking or clearing "include in calculation" for the current page. */
  function SetInclude(p: Pager, included: bool): (r: Pager)
    requires Consistent(p) && |p.groups| > 0
    ensures Consistent(r) && r.index == p.index && |r.groups| == |p.groups|
    ensures r.groups[p.index] == p.groups[p.index].(included := included)
    ensures forall i :: 0 <= i < |p.groups| && i != p.index ==> r.groups[i] == p.groups[i]
  {
    p.(groups := p.groups[p.index := p.groups[p.index].(included := included)])
  }

  // ---------------------------------------------------------------------------------------
  // Submission
  // ---------------------------------------------------------------------------------------

  /** A group is scored when it is included and at least one of its questions is answered. */
  predicate Scored(g: Group) {
    g.included && exists j :: 0 <= j < |g.items| && g.items[j].answer > 0
  }

  /** In a scored group an unanswered question counts as the neutral answer 3. */
  function Effective(answer: int): (a: int)
    ensures answer > 0 ==> a == answer
    ensures answer <= 0 ==> a == 3
  {
    if answer > 0 then answer else 3
  }

  function EffectiveAnswers(items: seq<Item>): (r: seq<Answer>)
    ensures |r| == |items|
    ensures forall j :: 0 <= j < |items| ==> r[j] == (items[j].question, Effective(items[j].answer))
  {
    seq(|items|, j requires 0 <= j < |items| => (items[j].question, Effective(items[j].answer)))
  }

  /** The dictionary handed to the scoring service: every question of every scored group. */
  function ToScore(gs: seq<Group>): seq<Answer> {
    if gs == [] then []
    else ToScore(gs[..|gs| - 1]) + (if Scored(gs[|gs| - 1]) then EffectiveAnswers(gs[|gs| - 1].items) else [])
  }

  /** The raw answers kept for persistence: every positive answer by question text, a later
      question with the same text overwriting an earlier one. */
  function RawAnswers(items: seq<Item>): map<string, int> {
    if items == [] then map[]
    else
      var m := RawAnswers(items[..|items| - 1]);
      var it := items[|items| - 1];
      if it.answer > 0 then m[it.question.text := it.answer] else m
  }

  /** The titles of the groups left out of the calculation, in page order. */
  function Exclusions(gs: seq<Group>): seq<string> {
    if gs == [] then []
    else Exclusions(gs[..|gs| - 1]) + (if !gs[|gs| - 1].included then [gs[|gs| - 1].title] else [])
  }

  /** `Submit`: scores of the scored groups, raw answers of all groups, titles of the
      excluded groups. */
  function Submit(gs: seq<Group>): (c: Closing)
    ensures c.scores.Some? && c.answers.Some? && c.exclusions.Some?
    ensures c.scores.value.Keys == Answered(ToScore(gs))
    ensures forall t :: t in c.scores.value ==> 0.0 <= c.scores.value[t] <= 1.0
  {
    Closing(Some(Scores(ToScore(gs))), Some(RawAnswers(Flatten(gs))), Some(Exclusions(gs)))
  }

  /** Exactly the questions of the scored groups are scored, with their effective answers. */
  lemma {:induction false} ToScoreMembership(gs: seq<Group>, x: Answer)
    ensures x in ToScore(gs) <==>
      exists i, j :: 0 <= i < |gs| && 0 <= j < |gs[i].items| && Scored(gs[i])
                     && x == (gs[i].items[j].question, Effective(gs[i].items[j].answer))
  {
    if gs != [] {
      var init := gs[..|gs| - 1];
      var last := gs[|gs| - 1];
      ToScoreMembership(init, x);
      assert forall i :: 0 <= i < |init| ==> init[i] == gs[i];
      if x in ToScore(gs) && x !in ToScore(init) {
        assert Scored(last) && x in EffectiveAnswers(last.items);
        var j :| 0 <= j < |last.items| && EffectiveAnswers(last.items)[j] == x;
        assert gs[|gs| - 1].items[j] == last.items[j];
      }
      if exists i, j :: 0 <= i < |gs| && 0 <= j < |gs[i].items| && Scored(gs[i])
                        && x == (gs[i].items[j].question, Effective(gs[i].items[j].answer)) {
        var i, j :| 0 <= i < |gs| && 0 <= j < |gs[i].items| && Scored(gs[i])
                    && x == (gs[i].items[j].question, Effective(gs[i].items[j].answer));
        if i == |gs| - 1 {
          assert EffectiveAnswers(last.items)[j] == x;
        }
      }
    }
  }

  /** A trait is scored exactly when some scored group has a question of that trait whose
      effective answer is on the scale. */
  lemma SubmitScoresTraits(gs: seq<Group>, t: string)
    ensures t in Submit(gs).scores.value <==>
      exists i, j :: 0 <= i < |gs| && 0 <= j < |gs[i].items| && Scored(gs[i])
                     && gs[i].items[j].question.traitId == t && OnScale(Effective(gs[i].items[j].answer))
  {
    var xs := ToScore(gs);
    AnsweredMembership(xs, t);
    if t in Answered(xs) {
      var k :| 0 <= k < |xs| && xs[k].0.traitId == t && OnScale(xs[k].1);
      ToScoreMembership(gs, xs[k]);
    }
    if exists i, j :: 0 <= i < |gs| && 0 <= j < |gs[i].items| && Scored(gs[i])
                      && gs[i].items[j].question.traitId == t && OnScale(Effective(gs[i].items[j].answer)) {
      var i, j :| 0 <= i < |gs| && 0 <= j < |gs[i].items| && Scored(gs[i])
                  && gs[i].items[j].question.traitId == t && OnScale(Effective(gs[i].items[j].answer));
      var x := (gs[i].items[j].question, Effective(gs[i].items[j].answer));
      ToScoreMembership(gs, x);
      var k :| 0 <= k < |xs| && xs[k] == x;
    }
  }

  /** A text is saved exactly when some question with that text has a positive answer, and
      it is saved with the answer of the last such question. */
  lemma {:induction false} RawAnswersSpec(items: seq<Item>, k: string)
    ensures k in RawAnswers(items) <==>
      exists n :: 0 <= n < |items| && items[n].question.text == k && items[n].answer > 0
    ensures k in RawAnswers(items) ==>
      exists n :: 0 <= n < |items| && items[n].question.text == k && items[n].answer == RawAnswers(items)[k]
                  && items[n].answer > 0
                  && forall m :: n < m < |items| ==> !(items[m].question.text == k && items[m].answer > 0)
  {
    if items != [] {
      var init := items[..|items| - 1];
      RawAnswersSpec(init, k);
      assert forall n :: 0 <= n < |init| ==> init[n] == items[n];
    }
  }

  /** Saving and reloading answers: when no two questions share a text, a question's reloaded
      answer is the one it was given (unanswered ones come back unanswered). */
  lemma AnswersRoundTrip(items: seq<Item>, n: int)
    requires 0 <= n < |items| && items[n].answer >= 0
    requires forall a, b :: 0 <= a < b < |items| ==> items[a].question.text != items[b].question.text
    ensures Restore(RawAnswers(items), items[n].question.text) == items[n].answer
  {
    RawAnswersSpec(items, items[n].question.text);
  }

  /** The saved exclusions are the titles of exactly the excluded groups, one per group. */
  lemma {:induction false} ExclusionsSpec(gs: seq<Group>, t: string)
    ensures t in Exclusions(gs) <==> exists i :: 0 <= i < |gs| && !gs[i].included && gs[i].title == t
    ensures |Exclusions(gs)| == |set i | 0 <= i < |gs| && !gs[i].included|
  {
    if gs != [] {
      var init := gs[..|gs| - 1];
      ExclusionsSpec(init, t);
      assert forall i :: 0 <= i < |init| ==> init[i] == gs[i];
      var a := set i | 0 <= i < |init| && !init[i].included;
      var b := set i | 0 <= i < |gs| && !gs[i].included;
      if gs[|gs| - 1].included {
        assert a == b;
      } else {
        assert b == a + {|gs| - 1};
      }
    }
  }

  // ---------------------------------------------------------------------------------------
  // Exclusions are saved by title but restored by trait id
  // ---------------------------------------------------------------------------------------

  /** As written, a trait whose localized name differs from its id loses its exclusion on the
      next opening: the saved title never matches the id the loader looks for. */
  lemma ExclusionLostOnReload()
    ensures
      var q := Question("I stay calm under pressure.", "EmotionalStability", false);
      var names := map["EmotionalStability" := "Emotional Stability"];
      var first := SetInclude(Loaded(LoadGroups([q], names, map[], [])), false);
      var saved := Submit(first.groups).exclusions.value;
      !first.groups[0].included && LoadGroups([q], names, map[], saved)[0].included
  {
    var q := Question("I stay calm under pressure.", "EmotionalStability", false);
    var names := map["EmotionalStability" := "Emotional Stability"];
    assert [q][..0] == [];
    assert TraitKeys([q]) == ["EmotionalStability"];
    var gs := LoadGroups([q], names, map[], []);
    var first := SetInclude(Loaded(gs), false);
    assert first.groups[0].title == "Emotional Stability";
    assert first.groups[..0] == [];
    assert Exclusions(first.groups) == ["Emotional Stability"];
  }

  /** The trait ids of the excluded groups (each group's questions share one trait id). */
  function ExclusionIds(gs: seq<Group>): (r: seq<string>)
    requires NonEmptyPages(gs)
  {
    if gs == [] then []
    else
      var g := gs[|gs| - 1];
      ExclusionIds(gs[..|gs| - 1]) + (if !g.included then [g.items[0].question.traitId] else [])
  }

  lemma {:induction false} ExclusionIdsMembership(gs: seq<Group>, k: string)
    requires NonEmptyPages(gs)
    ensures k in ExclusionIds(gs) <==> exists i :: 0 <= i < |gs| && !gs[i].included && gs[i].items[0].question.traitId == k
  {
    if gs != [] {
      ExclusionIdsMembership(gs[..|gs| - 1], k);
      assert forall i :: 0 <= i < |gs| - 1 ==> gs[..|gs| - 1][i] == gs[i];
    }
  }

  /**
   * `Submit` with the exclusions saved under the trait ids the loader compares them with: the
   * same scores and answers, and exactly the excluded pages' trait ids.
   */
  function SubmitById(gs: seq<Group>): (c: Closing)
    requires NonEmptyPages(gs)
    ensures c.scores == Submit(gs).scores && c.answers == Submit(gs).answers
    ensures c.exclusions.Some?
    ensures forall k :: k in c.exclusions.value <==>
      exists i :: 0 <= i < |gs| && !gs[i].included && gs[i].items[0].question.traitId == k
  {
    var ids := ExclusionIds(gs);
    assert forall k :: k in ids <==>
      exists i :: 0 <= i < |gs| && !gs[i].included && gs[i].items[0].question.traitId == k by {
      forall k ensures k in ids <==>
        exists i :: 0 <= i < |gs| && !gs[i].included && gs[i].items[0].question.traitId == k {
        ExclusionIdsMembership(gs, k);
      }
    }
    Closing(Some(Scores(ToScore(gs))), Some(RawAnswers(Flatten(gs))), Some(ids))
  }

  /** Saving exclusions by trait id makes them survive a reopening: whatever pages were
      excluded before closing start excluded again, and only those, whatever answers were saved
      meanwhile. */
  lemma ExclusionIdsRoundTrip(qs: seq<Question>, names: map<string, string>, saved: map<string, int>,
                              savedExclusions: seq<string>, edited: seq<Group>, reloaded: map<string, int>)
    requires |edited| == |LoadGroups(qs, names, saved, savedExclusions)|
    requires forall i :: 0 <= i < |edited| ==>
      QuestionsOf(edited[i].items) == QuestionsOf(LoadGroups(qs, names, saved, savedExclusions)[i].items)
    ensures NonEmptyPages(edited)
    ensures forall i :: 0 <= i < |edited| ==>
      LoadGroups(qs, names, reloaded, SubmitById(edited).exclusions.value)[i].included == edited[i].included
  {
    var gs := LoadGroups(qs, names, saved, savedExclusions);
    var ks := TraitKeys(qs);
    forall i | 0 <= i < |edited|
      ensures |edited[i].items| > 0 && edited[i].items[0].question.traitId == ks[i]
    {
      assert |QuestionsOf(edited[i].items)| == |QuestionsOf(gs[i].items)|;
      assert QuestionsOf(edited[i].items)[0] == QuestionsOf(gs[i].items)[0];
    }
    forall i | 0 <= i < |edited|
      ensures LoadGroups(qs, names, reloaded, SubmitById(edited).exclusions.value)[i].included == edited[i].included
    {
      assert ks[i] in SubmitById(edited).exclusions.value <==> !edited[i].included by {
        if ks[i] in SubmitById(edited).exclusions.value {
          var j :| 0 <= j < |edited| && !edited[j].included && edited[j].items[0].question.traitId == ks[i];
          assert j == i;
        }
      }
    }
  }
}
