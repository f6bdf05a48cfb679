/**
 * The cross-platform character editor's view model: the character being edited, the selected
 * colour preset (or a "Custom" item for a colour that is no preset), the three size flags
 * and the questionnaire button's caption.
 */
module EditCharacter {
  import opened Wrappers
  import opened Traits
  import opened Models

  datatype ColorItem = ColorItem(hex: string, name: string)

  /** The colour presets, in the order the editor lists them. */
  const Presets: seq<ColorItem> := [
    ColorItem("#BF4C4C", "Red"), ColorItem("#9ACD32", "YellowGreen"),
    ColorItem("#00BFFF", "DeepSkyBlue"), ColorItem("#6A5ACD", "SlateBlue"),
    ColorItem("#FF6347", "Tomato"), ColorItem("#FFA500", "Orange"),
    ColorItem("#FFD700", "Gold"), ColorItem("#32CD32", "LimeGreen"),
    ColorItem("#20B2AA", "LightSeaGreen"), ColorItem("#008080", "Teal"),
    ColorItem("#4682B4", "SteelBlue"), ColorItem("#4169E1", "RoyalBlue"),
    ColorItem("#9370DB", "MediumPurple"), ColorItem("#DA70D6", "Orchid"),
    ColorItem("#C71585", "MediumVioletRed"), ColorItem("#FFB6C1", "LightPink"),
    ColorItem("#D2691E", "Chocolate"), ColorItem("#F08080", "LightCoral"),
    ColorItem("#808080", "Gray"), ColorItem("#FFF5EE", "Seashell")]

  datatype EditVm = EditVm(character: Character, selectedColor: ColorItem, questionnaireButtonText: string)

  /** `FirstOrDefault(c => c.Hex == hex)` over `items`. */
  function FirstWithHex(items: seq<ColorItem>, hex: string): (r: Option<ColorItem>)
    ensures r.Some? ==> (r.value.hex == hex
      && exists i :: 0 <= i < |items| && items[i] == r.value && forall j :: 0 <= j < i ==> items[j].hex != hex)
    ensures r.None? <==> forall i :: 0 <= i < |items| ==> items[i].hex != hex
  {
    if items == [] then None
    else if items[0].hex == hex then Some(items[0])
    else
      var r := FirstWithHex(items[1..], hex);
      assert r.Some? ==> (exists i :: (0 <= i < |items| && items[i] == r.value
        && forall j :: 0 <= j < i ==> items[j].hex != hex)) by {
        if r.Some? {
          var i :| 0 <= i < |items[1..]| && items[1..][i] == r.value
            && forall j :: 0 <= j < i ==> items[1..][j].hex != hex;
          assert items[i + 1] == r.value;
          forall j | 0 <= j < i + 1 ensures items[j].hex != hex {
            if j > 0 { assert items[j] == items[1..][j - 1]; }
          }
        }
      }
      r
  }

  /** `UpdateQuestionnaireStatus`: the button offers editing once answers were saved. */
  function ButtonText(c: Character): (t: string)
    ensures t == "Edit Questionnaire" || t == "Take Questionnaire"
    ensures t == "Edit Questionnaire" <==> |c.questionnaireAnswers| > 0
  {
    if |c.questionnaireAnswers| > 0 then "Edit Questionnaire" else "Take Questionnaire"
  }

  /**
   * The constructor. A character with a colour keeps it, and the first preset of that colour
   * is selected (a "Custom" item when no preset has it). A character without a colour gets the
   * first preset's.
   */
  function Open(c: Character): (vm: EditVm)
    ensures vm.questionnaireButtonText == ButtonText(c)
    ensures vm.selectedColor.hex == vm.character.colorHex
    ensures c.colorHex != "" ==> vm.character == c
    ensures c.colorHex != "" && (exists i :: 0 <= i < |Presets| && Presets[i].hex == c.colorHex) ==>
      exists i :: 0 <= i < |Presets| && Presets[i] == vm.selectedColor
        && forall j :: 0 <= j < i ==> Presets[j].hex != c.colorHex
    ensures c.colorHex != "" && (forall i :: 0 <= i < |Presets| ==> Presets[i].hex != c.colorHex) ==>
      vm.selectedColor == ColorItem(c.colorHex, "Custom")
    ensures c.colorHex == "" ==> vm.character == c.(colorHex := "#BF4C4C") && vm.selectedColor == Presets[0]
  {
    if c.colorHex != "" then
      var item := match FirstWithHex(Presets, c.colorHex)
        case Some(p) => p
        case None => ColorItem(c.colorHex, "Custom");
      EditVm(c, item, ButtonText(c))
    else
      EditVm(c.(colorHex := Presets[0].hex), Presets[0], ButtonText(c))
  }

  /** `UpdateQuestionnaireStatus`, after the questionnaire changed the saved answers. */
  function UpdateQuestionnaireStatus(vm: EditVm): (r: EditVm)
    ensures r == vm.(questionnaireButtonText := ButtonText(vm.character))
  {
    vm.(questionnaireButtonText := ButtonText(vm.character))
  }

  /** The `Name` setter; the flag says whether a change notification was raised. */
  function SetName(vm: EditVm, name: string): (r: (EditVm, bool))
    ensures r.0.character == vm.character.(name := name)
    ensures r.1 <==> vm.character.name != name
    ensures !r.1 ==> r.0 == vm
  {
    if vm.character.name != name then (vm.(character := vm.character.(name := name)), true)
    else (vm, false)
  }

  /** `SelectColor`: a preset (or any item) is selected and its colour written to the character. */
  function SelectColor(vm: EditVm, item: Option<ColorItem>): (r: EditVm)
    ensures item.None? ==> r == vm
    ensures item.Some? ==> r.selectedColor == item.value
    ensures item.Some? ==> r.character == vm.character.(colorHex := item.value.hex)
    ensures r.questionnaireButtonText == vm.questionnaireButtonText
  {
    match item
    case None => vm
    case Some(it) => vm.(selectedColor := it, character := vm.character.(colorHex := it.hex))
  }

  /** The three radio-bound flags of the editor. */
  datatype SizeFlag = MainCharacter | SupportingCharacter | BackgroundCharacter

  /** The size each flag stands for. */
  function FlagSize(f: SizeFlag): BubbleSize {
    match f
    case MainCharacter => Large
    case SupportingCharacter => Medium
    case BackgroundCharacter => Small
  }

  /** The getter of a size flag. */
  predicate IsChecked(vm: EditVm, f: SizeFlag) {
    vm.character.size == FlagSize(f)
  }

  /** The setter of a size flag: true selects that size, false does nothing. */
  function SetFlag(vm: EditVm, f: SizeFlag, value: bool): (r: EditVm)
    ensures !value ==> r == vm
    ensures value ==> IsChecked(r, f) && r.character == vm.character.(size := FlagSize(f))
    ensures value ==> forall g :: g != f ==> !IsChecked(r, g)
    ensures r.selectedColor == vm.selectedColor && r.questionnaireButtonText == vm.questionnaireButtonText
  {
    if value then vm.(character := vm.character.(size := FlagSize(f))) else vm
  }

  /** Exactly one of the three flags reads true, whatever the character. */
  lemma ExactlyOneFlag(vm: EditVm)
    ensures exists f :: IsChecked(vm, f) && forall g :: IsChecked(vm, g) ==> g == f
  {
    var f := match vm.character.size
      case Large => MainCharacter
      case Medium => SupportingCharacter
      case Small => BackgroundCharacter;
    assert IsChecked(vm, f);
  }
}
