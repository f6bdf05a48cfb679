/**
 * The Avalonia character dialog around the editor view model: which size radio button is
 * checked, the colour picker's colour, the questionnaire hand-off, and what OK and Cancel
 * return. The dialog edits the character it was given; OK returns it, Cancel returns nothing.
 */
module EditDialog {
  import opened Wrappers
  import opened Traits
  import opened Models
  import opened Colors
  import opened EditCharacter
  import Scoring
  import Questionnaire
  import MainViewModel

  datatype Dialog = Dialog(vm: EditVm, radio: Option<SizeFlag>, picker: Color)

  /** The radio button of a size. */
  function RadioFor(s: BubbleSize): (f: SizeFlag)
    ensures FlagSize(f) == s
  {
    match s
    case Large => MainCharacter
    case Medium => SupportingCharacter
    case Small => BackgroundCharacter
  }

  /** The dialog for a new character: a fresh character, "Main" checked, the picker black. */
  function OpenNew(): (d: Dialog)
    ensures d.vm.character == NewCharacter() && d.radio == Some(MainCharacter) && d.picker == Black
  {
    Dialog(Open(NewCharacter()), Some(MainCharacter), Black)
  }

  /**
   * The dialog for an existing character: the radio button of its size is checked, and the
   * picker shows the colour of the character the editor holds when that parses, as a
   * hexadecimal form or a known name (black otherwise). The editor has already replaced an empty colour with the default red, so a
   * character without a colour opens with the picker red.
   */
  function OpenExisting(c: Character, kc: KnownColors): (d: Dialog)
    ensures d.vm == Open(c)
    ensures d.radio == Some(RadioFor(c.size)) && FlagSize(d.radio.value) == c.size
    ensures d.picker == TryParseNamed(kc, d.vm.character.colorHex).GetOr(Black)
    ensures c.colorHex != "" ==> d.picker == TryParseNamed(kc, c.colorHex).GetOr(Black)
    ensures c.colorHex == "" ==> d.picker == TryParse("#BF4C4C").GetOr(Black)
  {
    var shown := Open(c).character;
    var parsed := TryParseNamed(kc, shown.colorHex);
    var picker := if shown.colorHex != "" && parsed.Some? then parsed.value else Black;
    Dialog(Open(c), Some(RadioFor(c.size)), picker)
  }

  /** The user checks a size radio button. */
  function CheckRadio(d: Dialog, f: SizeFlag): (r: Dialog)
    ensures r == d.(radio := Some(f))
  {
    d.(radio := Some(f))
  }

  /** `PresetColor_Click`: a preset whose hex parses is shown in the picker. */
  function PresetClicked(d: Dialog, kc: KnownColors, item: ColorItem): (r: Dialog)
    ensures TryParseNamed(kc, item.hex).Some? ==> r == d.(picker := TryParseNamed(kc, item.hex).value)
    ensures TryParseNamed(kc, item.hex).None? ==> r == d
  {
    match TryParseNamed(kc, item.hex)
    case Some(c) => d.(picker := c)
    case None => d
  }

  /**
   * `Questionnaire_Click`. A character that already has positions is warned first, and only
   * Yes (`proceed`) goes on. Then the questionnaire's result is applied: every returned score
   * overwrites the position under its own key, and returned answers and exclusions replace the
   * stored ones. A cancelled questionnaire returns nothing and changes nothing.
   */
  function RunQuestionnaire(d: Dialog, proceed: bool, result: Questionnaire.Closing): (r: Dialog)
    ensures |d.vm.character.traitPositions| > 0 && !proceed ==> r == d
    ensures result == Questionnaire.Closing(None, None, None) ==> r == d
    ensures r.radio == d.radio && r.picker == d.picker && r.vm.selectedColor == d.vm.selectedColor
    ensures var c := d.vm.character; var c' := r.vm.character;
      c' == c.(traitPositions := c'.traitPositions, questionnaireAnswers := c'.questionnaireAnswers,
               questionnaireExclusions := c'.questionnaireExclusions)
    ensures (|d.vm.character.traitPositions| == 0 || proceed) ==>
      var c := d.vm.character; var c' := r.vm.character;
      (result.scores.Some? ==>
        c'.traitPositions.Keys == c.traitPositions.Keys + result.scores.value.Keys
        && (forall k :: k in result.scores.value ==> c'.traitPositions[k] == result.scores.value[k])
        && (forall k :: k in c.traitPositions && k !in result.scores.value ==>
              c'.traitPositions[k] == c.traitPositions[k]))
      && (result.scores.None? ==> c'.traitPositions == c.traitPositions)
      && c'.questionnaireAnswers == result.answers.GetOr(c.questionnaireAnswers)
      && c'.questionnaireExclusions == result.exclusions.GetOr(c.questionnaireExclusions)
      && (result.answers.Some? ==> r.vm.questionnaireButtonText == ButtonText(c'))
      && (result.answers.None? ==> r.vm.questionnaireButtonText == d.vm.questionnaireButtonText)
  {
    if |d.vm.character.traitPositions| > 0 && !proceed then d
    else
      var c := d.vm.character;
      var c1 := match result.scores
        case Some(s) => c.(traitPositions := c.traitPositions + s)
        case None => c;
      var vm1 := d.vm.(character := c1);
      var vm2 := match result.answers
        case Some(a) => UpdateQuestionnaireStatus(vm1.(character := c1.(questionnaireAnswers := a)))
        case None => vm1;
      var vm3 := match result.exclusions
        case Some(e) => vm2.(character := vm2.character.(questionnaireExclusions := e))
        case None => vm2;
      d.(vm := vm3)
  }

  /** A score merge keeps positions in [0, 1] when the scores are in [0, 1]. */
  lemma MergeKeepsRange(d: Dialog, proceed: bool, result: Questionnaire.Closing)
    requires PositionsInRange(d.vm.character.traitPositions)
    requires result.scores.Some? ==> PositionsInRange(result.scores.value)
    ensures PositionsInRange(RunQuestionnaire(d, proceed, result).vm.character.traitPositions)
  {
  }

  /** A submitted questionnaire's scores are positions in [0, 1]. */
  lemma SubmittedScoresInRange(gs: seq<Questionnaire.Group>)
    ensures PositionsInRange(Questionnaire.Submit(gs).scores.value)
  {
  }

  /**
   * With the questionnaire's exclusions saved by trait id, reopening it for the edited
   * character starts with exactly the pages excluded last time left out.
   */
  lemma ReopenKeepsExclusions(d: Dialog, qs: seq<Scoring.Question>, names: map<string, string>,
                              edited: seq<Questionnaire.Group>)
    requires var c := d.vm.character;
      |edited| == |Questionnaire.LoadGroups(qs, names, c.questionnaireAnswers, c.questionnaireExclusions)|
      && forall i :: 0 <= i < |edited| ==>
        Questionnaire.QuestionsOf(edited[i].items)
        == Questionnaire.QuestionsOf(Questionnaire.LoadGroups(qs, names, c.questionnaireAnswers, c.questionnaireExclusions)[i].items)
    ensures Questionnaire.NonEmptyPages(edited)
    ensures var c' := RunQuestionnaire(d, true, Questionnaire.SubmitById(edited)).vm.character;
      forall i :: 0 <= i < |edited| ==>
        Questionnaire.LoadGroups(qs, names, c'.questionnaireAnswers, c'.questionnaireExclusions)[i].included
        == edited[i].included
  {
    var c := d.vm.character;
    var c' := RunQuestionnaire(d, true, Questionnaire.SubmitById(edited)).vm.character;
    Questionnaire.ExclusionIdsRoundTrip(qs, names, c.questionnaireAnswers, c.questionnaireExclusions, edited,
                                        c'.questionnaireAnswers);
  }

  /**
   * `Ok_Click`: the character with the picker's colour (as Avalonia prints it, by name when the
   * colour has one) and the size of
   * the checked radio button; with no radio button checked the size is kept.
   */
  function Ok(d: Dialog, kc: KnownColors): (c: Character)
    ensures c == d.vm.character.(colorHex := ColorText(kc, d.picker), size := c.size)
    ensures d.picker !in kc.nameOf ==> c.colorHex == AvaloniaText(d.picker)
    ensures d.radio.Some? ==> c.size == FlagSize(d.radio.value)
    ensures d.radio.None? ==> c.size == d.vm.character.size
  {
    var c := d.vm.character.(colorHex := ColorText(kc, d.picker));
    match d.radio
    case Some(f) => c.(size := FlagSize(f))
    case None => c
  }

  /** What the dialog closes with: the character on OK, nothing on Cancel. */
  function Close(d: Dialog, kc: KnownColors, ok: bool): (r: Option<Character>)
    ensures r.Some? <==> ok
    ensures ok ==> r.value == Ok(d, kc)
  {
    if ok then Some(Ok(d, kc)) else None
  }

  /** Opening a character whose colour is in Avalonia's own form (named or hexadecimal) and
      pressing OK at once returns the character unchanged. */
  lemma OkUntouchedIsIdentity(c: Character, kc: KnownColors, col: Color)
    requires Coherent(kc)
    requires c.colorHex == ColorText(kc, col)
    ensures Ok(OpenExisting(c, kc), kc) == c
  {
    ColorTextRoundTrip(kc, col);
    assert c.colorHex != "";
  }

  /** A new character confirmed at once is the default character, but black: the picker of
      a new dialog starts black and OK writes the picker's colour ("Black" where the toolkit
      names it). */
  lemma OkNewIsBlackDefault(kc: KnownColors)
    requires Coherent(kc)
    ensures Ok(OpenNew(), kc) == NewCharacter().(colorHex := ColorText(kc, Black))
    ensures TryParseNamed(kc, Ok(OpenNew(), kc).colorHex) == Some(Black)
  {
    assert OpenNew().vm.character == NewCharacter();
    ColorTextRoundTrip(kc, Black);
  }

  /** The edit flow: the main window edits the selected character with this dialog, and OK
      puts the dialog's result in the character's place and marks the project dirty. */
  lemma EditStoresDialogResult(vm: MainViewModel.Vm, d: Dialog, kc: KnownColors)
    requires MainViewModel.SelectionValid(vm) && vm.selected.Listed?
    ensures var r := MainViewModel.EditCharacter(vm, Close(d, kc, true).value, true);
      r.project.characters == vm.project.characters[vm.selected.index := Ok(d, kc)]
      && r.isDirty && r.selected == vm.selected
  {
  }

  /** Editing the selected character and pressing OK at once changes nothing in the project
      when its colour is in Avalonia's printed form; only the dirty flag is set. */
  lemma EditUntouchedKeepsProject(vm: MainViewModel.Vm, kc: KnownColors, col: Color)
    requires MainViewModel.SelectionValid(vm) && vm.selected.Listed?
    requires Coherent(kc)
    requires vm.project.characters[vm.selected.index].colorHex == ColorText(kc, col)
    ensures var c := vm.project.characters[vm.selected.index];
      var r := MainViewModel.EditCharacter(vm, Close(OpenExisting(c, kc), kc, true).value, true);
      r.project == vm.project && r.isDirty
  {
    var c := vm.project.characters[vm.selected.index];
    OkUntouchedIsIdentity(c, kc, col);
    MainViewModel.EditWithSameKeepsProject(vm);
  }
}
