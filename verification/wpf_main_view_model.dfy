/**
 * The WPF main window view model: the same project commands as the cross-platform edition, on
 * the WPF records, without the notes and characters flags, and with a save that reports
 * whether it happened.
 */
module WpfMainViewModel {
  import opened Wrappers
  import opened Text
  import opened WpfModel
  import Naming

  /** The answer to the unsaved-changes message box. */
  datatype Reply = Yes | No | Cancel

  /** `SelectedCharacter`: nothing, a character of the project (by position), or a character
      that a delete or a new project has taken out of the project while it stayed selected. */
  datatype Selection = NoSelection | Listed(index: nat) | Detached(character: Character)

  datatype Vm = Vm(
    project: Project,
    filePath: Option<string>,
    isDirty: bool,
    selected: Selection,
    windowTitle: string,
    language: Option<string>)

  /** The window title agrees with the file and the dirty flag. */
  predicate Current(vm: Vm) {
    vm.windowTitle == Naming.Title(vm.filePath, vm.isDirty)
  }

  /** A listed selection names a character of the project. */
  predicate SelectionValid(vm: Vm) {
    vm.selected.Listed? ==> vm.selected.index < |vm.project.characters|
  }

  /** The selection once its character has left the project. */
  function Unlisted(vm: Vm): (sel: Selection)
    requires SelectionValid(vm)
    ensures !sel.Listed?
    ensures vm.selected.Listed? ==> sel == Detached(vm.project.characters[vm.selected.index])
    ensures !vm.selected.Listed? ==> sel == vm.selected
  {
    match vm.selected
    case Listed(i) => Detached(vm.project.characters[i])
    case _ => vm.selected
  }

  /** The constructor: a new project, no file, English selected. */
  function Initial(): (vm: Vm)
    ensures Current(vm) && SelectionValid(vm) && !vm.isDirty && vm.filePath.None?
    ensures vm.project == NewProject() && vm.language == Some("en")
  {
    Vm(NewProject(), None, false, NoSelection, Naming.Title(None, false), Some("en"))
  }

  /** `SetDirty`: sets the flag and refreshes the title. */
  function SetDirty(vm: Vm, dirty: bool): (r: Vm)
    ensures r.isDirty == dirty && Current(r)
    ensures r.(windowTitle := vm.windowTitle, isDirty := vm.isDirty) == vm
  {
    vm.(isDirty := dirty, windowTitle := Naming.Title(vm.filePath, dirty))
  }

  /** The `ProjectName` setter: always marks the project dirty. */
  function SetProjectName(vm: Vm, name: string): (r: Vm)
    ensures r.project == vm.project.(name := name) && r.isDirty && Current(r)
    ensures r.filePath == vm.filePath && r.selected == vm.selected
  {
    SetDirty(vm.(project := vm.project.(name := name)), true)
  }

  /** The names of the characters, in list order. */
  function Names(cs: seq<Character>): (ns: seq<string>)
    ensures |ns| == |cs| && forall j :: 0 <= j < |cs| ==> ns[j] == cs[j].name
  {
    seq(|cs|, j requires 0 <= j < |cs| => cs[j].name)
  }

  /**
   * `AddCharacter`: `created` is the dialog's character when it closed with OK. A blank name
   * becomes the first "Character n" (counting from 1) that no character has, ignoring case; the display order is the number of characters
   * before it, and the character is appended.
   */
  method AddCharacter(vm: Vm, created: Option<Character>, fold: char -> char) returns (r: Vm)
    ensures created.None? ==> r == vm
    ensures created.Some? ==>
      var cs := vm.project.characters;
      |r.project.characters| == |cs| + 1 && r.project.characters[..|cs|] == cs
      && r.isDirty && Current(r)
      && r.project == vm.project.(characters := r.project.characters)
      && var added := r.project.characters[|cs|];
        added == created.value.(name := added.name, displayOrder := |cs|)
        && (!IsBlank(created.value.name) ==> added.name == created.value.name)
        && (IsBlank(created.value.name) ==>
              (forall j :: 0 <= j < |cs| ==> !Naming.SameIgnoringCase(fold, cs[j].name, added.name))
              && exists n: nat :: n >= 1 && added.name == Naming.Candidate(n)
                   && !Naming.Taken(fold, Names(cs), n)
                   && forall m :: 1 <= m < n ==> Naming.Taken(fold, Names(cs), m))
    ensures SelectionValid(vm) ==> SelectionValid(r)
  {
    if created.None? {
      return vm;
    }
    var c := created.value;
    var cs := vm.project.characters;
    if IsBlank(c.name) {
      var name := Naming.DefaultName(fold, Names(cs));
      c := c.(name := name);
    }
    c := c.(displayOrder := |cs|);
    r := SetDirty(vm.(project := vm.project.(characters := cs + [c])), true);
  }

  /** `EditCharacter`: the dialog edits the selected character; an OK marks the project dirty.
      A detached selection is edited too, outside the project. */
  function EditCharacter(vm: Vm, edited: Character, confirmed: bool): (r: Vm)
    requires SelectionValid(vm)
    ensures vm.selected.NoSelection? ==> r == vm
    ensures vm.selected.Listed? ==>
      r.project.characters == vm.project.characters[vm.selected.index := edited]
      && r.project == vm.project.(characters := r.project.characters)
      && r.isDirty == (confirmed || vm.isDirty) && r.selected == vm.selected
    ensures vm.selected.Detached? ==>
      r.project == vm.project && r.isDirty == (confirmed || vm.isDirty) && r.selected == Detached(edited)
    ensures Current(vm) ==> Current(r)
    ensures SelectionValid(r)
  {
    match vm.selected
    case NoSelection => vm
    case Listed(i) =>
      var vm' := vm.(project := vm.project.(characters := vm.project.characters[i := edited]));
      if confirmed then SetDirty(vm', true) else vm'
    case Detached(_) =>
      var vm' := vm.(selected := Detached(edited));
      if confirmed then SetDirty(vm', true) else vm'
  }

  /**
   * `DeleteCharacter`: after a Yes, removes the selected character and nothing else and marks
   * the project dirty. The removed character stays selected, detached; deleting it again
   * removes nothing but marks the project dirty.
   */
  function DeleteCharacter(vm: Vm, confirmed: bool): (r: Vm)
    requires SelectionValid(vm)
    ensures vm.selected.NoSelection? || !confirmed ==> r == vm
    ensures vm.selected.Listed? && confirmed ==>
      var i := vm.selected.index;
      var cs := vm.project.characters;
      r.project.characters == cs[..i] + cs[i + 1..] && r.isDirty && Current(r)
      && r.project == vm.project.(characters := r.project.characters)
      && multiset(r.project.characters) + multiset{cs[i]} == multiset(cs)
      && r.selected == Detached(cs[i])
    ensures vm.selected.Detached? && confirmed ==>
      r.project == vm.project && r.isDirty && Current(r) && r.selected == vm.selected
    ensures SelectionValid(r)
  {
    match vm.selected
    case NoSelection => vm
    case Listed(i) =>
      if !confirmed then vm
      else
        var cs := vm.project.characters;
        assert cs == cs[..i] + [cs[i]] + cs[i + 1..];
        SetDirty(vm.(project := vm.project.(characters := cs[..i] + cs[i + 1..]), selected := Unlisted(vm)), true)
    case Detached(_) =>
      if !confirmed then vm else SetDirty(vm, true)
  }

  /** Which flag a toggle command flips. */
  datatype Toggle = Lock | Visibility

  /** `ToggleLock` / `ToggleVisibility`. */
  function ToggleFlag(vm: Vm, which: Toggle, target: Option<nat>): (r: Vm)
    requires target.Some? ==> target.value < |vm.project.characters|
    ensures target.None? ==> r == vm
    ensures |r.project.characters| == |vm.project.characters|
    ensures target.Some? ==>
      var i := target.value;
      var c := vm.project.characters[i];
      var c' := r.project.characters[i];
      r.isDirty && Current(r)
      && (forall j :: 0 <= j < |vm.project.characters| && j != i ==>
            r.project.characters[j] == vm.project.characters[j])
      && (which == Lock ==> c' == c.(isLocked := !c.isLocked))
      && (which == Visibility ==> c' == c.(isVisible := !c.isVisible))
  {
    match target
    case None => vm
    case Some(i) =>
      var c := vm.project.characters[i];
      var c' := if which == Lock then c.(isLocked := !c.isLocked) else c.(isVisible := !c.isVisible);
      SetDirty(vm.(project := vm.project.(characters := vm.project.characters[i := c'])), true)
  }

  /**
   * `SaveProject` (and `SaveAsProject` when there is no file yet, `chosen` being the save
   * dialog's file). The flag says whether the project was written.
   */
  function SaveProject(vm: Vm, chosen: Option<string>, written: bool): (r: (Vm, bool))
    ensures r.1 <==> (vm.filePath.Some? || chosen.Some?) && written
    ensures r.1 ==> !r.0.isDirty && Current(r.0)
    ensures !r.1 ==> r.0.isDirty == vm.isDirty
    ensures vm.filePath.None? && chosen.None? ==> r.0 == vm
    ensures vm.filePath.Some? || chosen.Some? ==>
      r.0.filePath == (if vm.filePath.Some? then vm.filePath else chosen)
      && r.0.project == vm.project.(selectedLanguage := vm.language.GetOr(vm.project.selectedLanguage))
    ensures r.0.project.characters == vm.project.characters && r.0.selected == vm.selected
  {
    if vm.filePath.None? && chosen.None? then (vm, false)
    else
      var vm1 := if vm.filePath.None? then vm.(filePath := chosen) else vm;
      var vm2 := vm1.(project := vm1.project.(selectedLanguage := vm1.language.GetOr(vm1.project.selectedLanguage)));
      if written then (SetDirty(vm2, false), true) else (vm2, false)
  }

  /** `ConfirmUnsavedChanges`: after Yes, go on exactly when the save happened. */
  function Confirm(vm: Vm, reply: Reply, chosen: Option<string>, written: bool): (r: (bool, Vm))
    ensures r.0 ==> !r.1.isDirty || reply == No
    ensures r.0 <==> (!vm.isDirty || reply == No
      || (reply == Yes && (vm.filePath.Some? || chosen.Some?) && written))
    ensures reply != Yes || !vm.isDirty ==> r.1 == vm
    ensures r.1.project.characters == vm.project.characters && r.1.selected == vm.selected
  {
    if !vm.isDirty then (true, vm)
    else if reply == Yes then
      var s := SaveProject(vm, chosen, written);
      (s.1, s.0)
    else (reply == No, vm)
  }

  /** `NewProject`: once confirmed, a new project without a file and without unsaved changes.
      A selected character stays selected, detached from the new project. */
  function NewProjectCommand(vm: Vm, reply: Reply, chosen: Option<string>, written: bool): (r: Vm)
    requires SelectionValid(vm)
    ensures var c := Confirm(vm, reply, chosen, written);
      (c.0 ==> r.project == NewProject() && r.filePath.None? && !r.isDirty && Current(r)
               && r.selected == Unlisted(vm))
      && (!c.0 ==> r == c.1)
  {
    var c := Confirm(vm, reply, chosen, written);
    if c.0 then SetDirty(c.1.(project := NewProject(), filePath := None, selected := Unlisted(c.1)), false)
    else c.1
  }

  /** `ClosingWindow`: the close is cancelled exactly when the confirmation says not to go on. */
  function Closing(vm: Vm, reply: Reply, chosen: Option<string>, written: bool): (r: (Vm, bool))
    ensures r.1 <==> (vm.isDirty && (reply == Cancel
      || (reply == Yes && !((vm.filePath.Some? || chosen.Some?) && written))))
    ensures !r.1 ==> !r.0.isDirty || reply == No
  {
    var c := Confirm(vm, reply, chosen, written);
    (c.1, !c.0)
  }
}
