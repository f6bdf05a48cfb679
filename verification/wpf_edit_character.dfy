/**
 * The WPF character editor's view model: the character being edited, the selected colour
 * (a brush in the application), the three size flags and the name. Its writes go through the
 * WPF character's change-guarded setters.
 */
module WpfEditCharacter {
  import opened Wrappers
  import opened Traits
  import opened Colors
  import opened WpfModel
  import EditCharacter

  /** The colour presets, as the colours their "#RRGGBB" strings stand for. */
  const Presets: seq<Color> := [
    FromRgb(0xBF, 0x4C, 0x4C), FromRgb(0x9A, 0xCD, 0x32), FromRgb(0x00, 0xBF, 0xFF),
    FromRgb(0x6A, 0x5A, 0xCD), FromRgb(0xFF, 0x63, 0x47), FromRgb(0xFF, 0xA5, 0x00),
    FromRgb(0xFF, 0xD7, 0x00), FromRgb(0x32, 0xCD, 0x32), FromRgb(0x20, 0xB2, 0xAA),
    FromRgb(0x00, 0x80, 0x80), FromRgb(0x46, 0x82, 0xB4), FromRgb(0x41, 0x69, 0xE1),
    FromRgb(0x93, 0x70, 0xDB), FromRgb(0xDA, 0x70, 0xD6), FromRgb(0xC7, 0x15, 0x85),
    FromRgb(0xFF, 0xB6, 0xC1), FromRgb(0xD2, 0x69, 0x1E), FromRgb(0xF0, 0x80, 0x80),
    FromRgb(0x80, 0x80, 0x80), FromRgb(0xFF, 0xF5, 0xEE)]

  datatype EditVm = EditVm(character: Character, selected: Color)

  /**
   * The constructor. A character with a colour keeps it and shows it as selected; the colour
   * is read by `ColorConverter`, which takes the hexadecimal forms and the names of WPF's
   * known colours (`kc`). A colour that does not parse makes the constructor fail (`None`).
   * A character without a colour gets the first preset, written as WPF prints colours.
   */
  function Open(c: Character, kc: KnownColors): (r: Option<EditVm>)
    ensures c.colorHex != "" ==>
      (r.Some? <==> TryParseNamed(kc, c.colorHex).Some?)
      && (r.Some? ==> r.value.character == c && r.value.selected == TryParseNamed(kc, c.colorHex).value)
    ensures c.colorHex == "" ==> r == Some(EditVm(c.(colorHex := WpfText(Presets[0])), Presets[0]))
    ensures r.Some? ==> TryParseNamed(kc, r.value.character.colorHex) == Some(r.value.selected)
  {
    if c.colorHex != "" then
      match TryParseNamed(kc, c.colorHex)
      case Some(col) => Some(EditVm(c, col))
      case None => None
    else
      WpfTextRoundTrip(Presets[0]);
      Some(EditVm(c.(colorHex := WpfText(Presets[0])), Presets[0]))
  }

  /** A colour name stored by the other edition, such as "Gray", opens with that colour
      selected when WPF knows the name. */
  lemma OpenReadsNames(c: Character, kc: KnownColors)
    requires c.colorHex != "" && c.colorHex[0] != '#' && c.colorHex in kc.colorOf
    ensures Open(c, kc) == Some(EditVm(c, kc.colorOf[c.colorHex]))
  {
  }

  /** The editor's `Name` setter; the flag says whether the name changed. */
  function SetName(vm: EditVm, name: string): (r: (EditVm, bool))
    ensures r.0.character.name == name && r.0.selected == vm.selected
    ensures r.1 <==> vm.character.name != name
    ensures r.0.character == vm.character.(name := name)
  {
    if vm.character.name != name then
      (vm.(character := Assign(vm.character, Assignment.SetName(name)).0), true)
    else (vm, false)
  }

  /** `SelectColor`: the colour becomes the selection and is written as WPF prints it. */
  function SelectColor(vm: EditVm, brush: Option<Color>): (r: EditVm)
    ensures brush.None? ==> r == vm
    ensures brush.Some? ==> r.selected == brush.value
    ensures brush.Some? ==> r.character == vm.character.(colorHex := WpfText(brush.value))
    ensures TryParse(vm.character.colorHex) == Some(vm.selected) ==>
      TryParse(r.character.colorHex) == Some(r.selected)
  {
    match brush
    case None => vm
    case Some(col) =>
      WpfTextRoundTrip(col);
      vm.(selected := col, character := Assign(vm.character, SetColorHex(WpfText(col))).0)
  }

  predicate IsChecked(vm: EditVm, f: EditCharacter.SizeFlag) {
    vm.character.size == EditCharacter.FlagSize(f)
  }

  /** A size flag's setter: true selects that size; false does nothing. */
  function SetFlag(vm: EditVm, f: EditCharacter.SizeFlag, value: bool): (r: EditVm)
    ensures !value ==> r == vm
    ensures value ==> r.character == vm.character.(size := EditCharacter.FlagSize(f))
    ensures value ==> IsChecked(r, f) && forall g :: g != f ==> !IsChecked(r, g)
    ensures r.selected == vm.selected
  {
    if value then vm.(character := Assign(vm.character, SetSize(EditCharacter.FlagSize(f))).0) else vm
  }

  /** Exactly one size flag reads true. */
  lemma ExactlyOneFlag(vm: EditVm)
    ensures exists f :: IsChecked(vm, f) && forall g :: IsChecked(vm, g) ==> g == f
  {
    var f := match vm.character.size
      case Large => EditCharacter.MainCharacter
      case Medium => EditCharacter.SupportingCharacter
      case Small => EditCharacter.BackgroundCharacter;
    assert IsChecked(vm, f);
  }
}
