/**
 * The cross-platform main window view model: the project being edited, its file, the dirty
 * flag and the derived window title and flags, and the commands that change them. Dialog
 * answers, chosen files and whether writing the file succeeded are inputs. The selected
 * character is named by its position in the project's character list while it is listed.
 */
module MainViewModel {
  import opened Wrappers
  import opened Text
  import opened Models
  import Naming

  /** `DialogResult` of the unsaved-changes question. */
  datatype Reply = Yes | No | Cancel

  /**
   * `SelectedCharacter`: nothing, a character of the project (by position), or a character
   * that is no longer in the project. Deleting a character or starting a new project does not
   * clear the selection, so the selected object can outlive its place in the list.
   */
  datatype Selection = NoSelection | Listed(index: nat) | Detached(character: Character)

  datatype Vm = Vm(
    project: Project,
    filePath: Option<string>,
    isDirty: bool,
    selected: Selection,
    windowTitle: string,
    hasNotes: bool,
    hasCharacters: bool,
    isExiting: bool,
    language: Option<string>)

  /** `UpdateHasNotes`: some note is not blank. */
  function HasNotes(p: Project): (b: bool)
    ensures b <==> p.traitNotes.Some? && exists k :: k in p.traitNotes.value && !IsBlank(p.traitNotes.value[k])
  {
    match p.traitNotes
    case None => false
    case Some(notes) => exists k :: k in notes && !IsBlank(notes[k])
  }

  /** The derived state agrees with the project, the file and the dirty flag. */
  predicate Current(vm: Vm) {
    vm.windowTitle == Naming.Title(vm.filePath, vm.isDirty)
    && vm.hasNotes == HasNotes(vm.project)
    && vm.hasCharacters == (|vm.project.characters| > 0)
  }

  /** A listed selection names a character of the project. */
  predicate SelectionValid(vm: Vm) {
    vm.selected.Listed? ==> vm.selected.index < |vm.project.characters|
  }

  /** The selection once its character has left the project: a listed character is kept as a
      detached one, anything else stays as it is. */
  function Unlisted(vm: Vm): (sel: Selection)
    requires SelectionValid(vm)
    ensures !sel.Listed?
    ensures vm.selected.Listed? ==> sel == Detached(vm.project.characters[vm.selected.index])
    ensures !vm.selected.Listed? ==> sel == vm.selected
  {
    match vm.selected
    case Listed(i) => Detached(vm.project.characters[i])
    case _ => vm.selected
  }

  /** The view model as constructed: a new project, no file, nothing to save. */
  function Initial(language: Option<string>): (vm: Vm)
    ensures Current(vm) && SelectionValid(vm) && !vm.isDirty && vm.filePath.None?
    ensures vm.project == NewProject() && vm.windowTitle == "16Core Character Mapper - New Project"
  {
    Vm(NewProject(), None, false, NoSelection, Naming.Title(None, false), false, false, false, language)
  }

  /** `SetDirty`: sets the flag and refreshes the title and the notes flag. */
  function SetDirty(vm: Vm, dirty: bool): (r: Vm)
    ensures r.isDirty == dirty
    ensures r.windowTitle == Naming.Title(r.filePath, dirty) && r.hasNotes == HasNotes(r.project)
    ensures r.(windowTitle := vm.windowTitle, hasNotes := vm.hasNotes, isDirty := vm.isDirty) == vm
    ensures vm.hasCharacters == (|vm.project.characters| > 0) ==> Current(r)
  {
    vm.(isDirty := dirty, windowTitle := Naming.Title(vm.filePath, dirty), hasNotes := HasNotes(vm.project))
  }

  /** The `ProjectName` setter marks the project dirty even when the name does not change. */
  function SetProjectName(vm: Vm, name: string): (r: Vm)
    ensures r.project == vm.project.(name := name) && r.isDirty
    ensures Current(vm) ==> Current(r)
    ensures SelectionValid(vm) ==> SelectionValid(r)
  {
    SetDirty(vm.(project := vm.project.(name := name)), true)
  }

  /**
   * `AddCharacter`: `created` is what the character dialog returned (`None` when it was
   * cancelled). A blank name is replaced by the first "Character n" (counting from 1) that no
   * character has, ignoring case; the new character
   * gets the number of characters before it as its display order and is appended.
   */
  method AddCharacter(vm: Vm, created: Option<Character>, fold: char -> char) returns (r: Vm)
    ensures created.None? ==> r == vm
    ensures created.Some? ==>
      var cs := vm.project.characters;
      |r.project.characters| == |cs| + 1 && r.project.characters[..|cs|] == cs
      && r.isDirty && r.hasCharacters
      && r.project == vm.project.(characters := r.project.characters)
      && var added := r.project.characters[|cs|];
        added == created.value.(name := added.name, displayOrder := |cs|)
        && (!IsBlank(created.value.name) ==> added.name == created.value.name)
        && (IsBlank(created.value.name) ==>
              (forall j :: 0 <= j < |cs| ==> !Naming.SameIgnoringCase(fold, cs[j].name, added.name))
              && FirstFreeDefault(fold, Names(cs), added.name))
    ensures Current(vm) ==> Current(r)
    ensures SelectionValid(vm) ==> SelectionValid(r)
  {
    if created.None? {
      return vm;
    }
    var c := created.value;
    var cs := vm.project.characters;
    var name := AddedName(cs, c.name, fold);
    var added := c.(name := name, displayOrder := |cs|);
    assert (cs + [added])[..|cs|] == cs;
    r := vm.(project := vm.project.(characters := cs + [added]));
    r := SetDirty(r, true);
    r := r.(hasCharacters := true);
  }

  /** The names of the characters, in list order. */
  function Names(cs: seq<Character>): (ns: seq<string>)
    ensures |ns| == |cs| && forall j :: 0 <= j < |cs| ==> ns[j] == cs[j].name
  {
    seq(|cs|, j requires 0 <= j < |cs| => cs[j].name)
  }

  /** `name` is "Character n" for the least n >= 1 whose default name nobody in `names` has. */
  ghost predicate FirstFreeDefault(fold: char -> char, names: seq<string>, name: string)
  {
    exists n: nat :: n >= 1 && name == Naming.Candidate(n) && !Naming.Taken(fold, names, n)
      && forall m :: 1 <= m < n ==> Naming.Taken(fold, names, m)
  }

  /** The name a newly added character gets: its own, or when blank the first default name
      that no character in `cs` has, ignoring case. */
  method AddedName(cs: seq<Character>, name: string, fold: char -> char) returns (r: string)
    ensures !IsBlank(name) ==> r == name
    ensures IsBlank(name) ==>
      (forall j :: 0 <= j < |cs| ==> !Naming.SameIgnoringCase(fold, cs[j].name, r))
      && FirstFreeDefault(fold, Names(cs), r)
  {
    if !IsBlank(name) {
      return name;
    }
    r := Naming.DefaultName(fold, Names(cs));
  }

  /**
   * `EditCharacter`: the dialog edits the selected character in place; `edited` is the
   * character as the dialog left it and `confirmed` whether it closed with OK. Only a confirmed
   * edit marks the project dirty. Without a selection nothing happens. A detached selection
   * is edited and marks the project dirty, but the project's list does not hold it.
   */
  function EditCharacter(vm: Vm, edited: Character, confirmed: bool): (r: Vm)
    requires SelectionValid(vm)
    ensures vm.selected.NoSelection? ==> r == vm
    ensures vm.selected.Listed? ==>
      r.project.characters == vm.project.characters[vm.selected.index := edited]
      && r.project == vm.project.(characters := r.project.characters)
      && r.isDirty == (confirmed || vm.isDirty) && r.selected == vm.selected
    ensures vm.selected.Detached? ==>
      r.project == vm.project && r.isDirty == (confirmed || vm.isDirty) && r.selected == Detached(edited)
    ensures Current(vm) ==> Current(r)
    ensures SelectionValid(r)
  {
    match vm.selected
    case NoSelection => vm
    case Listed(i) =>
      var vm' := vm.(project := vm.project.(characters := vm.project.characters[i := edited]));
      if confirmed then SetDirty(vm', true) else vm'
    case Detached(_) =>
      var vm' := vm.(selected := Detached(edited));
      if confirmed then SetDirty(vm', true) else vm'
  }

  /** Confirming the edit with the selected character as it was keeps the project; only the
      dirty flag is set. */
  lemma EditWithSameKeepsProject(vm: Vm)
    requires SelectionValid(vm) && vm.selected.Listed?
    ensures var r := EditCharacter(vm, vm.project.characters[vm.selected.index], true);
      r.project == vm.project && r.isDirty
  {
    var cs := vm.project.characters;
    assert cs[vm.selected.index := cs[vm.selected.index]] == cs;
  }

  /**
   * `DeleteCharacter`: after confirmation, removes the selected character and nothing else and
   * marks the project dirty. The removed character stays selected, detached; deleting a
   * detached character finds nothing to remove but still marks the project dirty.
   */
  function DeleteCharacter(vm: Vm, confirmed: bool): (r: Vm)
    requires SelectionValid(vm)
    ensures vm.selected.NoSelection? || !confirmed ==> r == vm
    ensures vm.selected.Listed? && confirmed ==>
      var i := vm.selected.index;
      var cs := vm.project.characters;
      r.project.characters == cs[..i] + cs[i + 1..] && r.isDirty
      && r.project == vm.project.(characters := r.project.characters)
      && multiset(r.project.characters) + multiset{cs[i]} == multiset(cs)
      && r.selected == Detached(cs[i])
    ensures vm.selected.Detached? && confirmed ==>
      r.project == vm.project && r.isDirty && r.selected == vm.selected
    ensures Current(vm) ==> Current(r)
    ensures SelectionValid(r)
  {
    match vm.selected
    case NoSelection => vm
    case Listed(i) =>
      if !confirmed then vm
      else
        var cs := vm.project.characters;
        assert cs == cs[..i] + [cs[i]] + cs[i + 1..];
        var vm' := vm.(project := vm.project.(characters := cs[..i] + cs[i + 1..]), selected := Unlisted(vm));
        SetDirty(vm', true).(hasCharacters := |cs| > 1)
    case Detached(_) =>
      if !confirmed then vm else SetDirty(vm, true)
  }

  /** A second confirmed delete asks again but removes nothing; only the dirty flag is set. */
  lemma SecondDeleteRemovesNothing(vm: Vm)
    requires SelectionValid(vm) && vm.selected.Listed?
    ensures var once := DeleteCharacter(vm, true);
      var twice := DeleteCharacter(once, true);
      twice.project == once.project && twice.selected == once.selected && twice.isDirty
  {
  }

  /** Which flag a toggle command flips. */
  datatype Toggle = Lock | Visibility

  /** `ToggleLock` / `ToggleVisibility`: flips one flag of one character and marks dirty; a
      missing character (`None`) changes nothing. */
  function ToggleFlag(vm: Vm, which: Toggle, target: Option<nat>): (r: Vm)
    requires target.Some? ==> target.value < |vm.project.characters|
    ensures target.None? ==> r == vm
    ensures |r.project.characters| == |vm.project.characters|
    ensures target.Some? ==>
      var i := target.value;
      var c := vm.project.characters[i];
      var c' := r.project.characters[i];
      r.isDirty
      && (forall j :: 0 <= j < |vm.project.characters| && j != i ==>
            r.project.characters[j] == vm.project.characters[j])
      && (which == Lock ==> c' == c.(isLocked := !c.isLocked))
      && (which == Visibility ==> c' == c.(isVisible := !c.isVisible))
    ensures Current(vm) ==> Current(r)
  {
    match target
    case None => vm
    case Some(i) =>
      var c := vm.project.characters[i];
      var c' := if which == Lock then c.(isLocked := !c.isLocked) else c.(isVisible := !c.isVisible);
      SetDirty(vm.(project := vm.project.(characters := vm.project.characters[i := c'])), true)
  }

  /** Toggling twice restores the character; only the dirty flag remains. */
  lemma ToggleTwice(vm: Vm, which: Toggle, i: nat)
    requires i < |vm.project.characters|
    ensures ToggleFlag(ToggleFlag(vm, which, Some(i)), which, Some(i)).project == vm.project
  {
    var cs := vm.project.characters;
    var r := ToggleFlag(ToggleFlag(vm, which, Some(i)), which, Some(i));
    assert r.project.characters == cs;
  }

  /**
   * `SaveProject`. Without a file it is Save As: `chosen` is the file the save dialog returned
   * (`None` when cancelled), which becomes the current file before saving. Saving stores the
   * selected language in the project and, when writing succeeds (`written`), clears the dirty
   * flag. A failed write leaves the flag set.
   */
  function SaveProject(vm: Vm, chosen: Option<string>, written: bool): (r: Vm)
    ensures vm.filePath.None? && chosen.None? ==> r == vm
    ensures vm.filePath.Some? || chosen.Some? ==>
      r.filePath == (if vm.filePath.Some? then vm.filePath else chosen)
      && r.project == vm.project.(selectedLanguage := vm.language.GetOr(vm.project.selectedLanguage))
      && r.isDirty == (vm.isDirty && !written)
    ensures (vm.filePath.Some? || chosen.Some?) && written && Current(vm) ==> Current(r)
    ensures r.project.characters == vm.project.characters && r.selected == vm.selected
  {
    if vm.filePath.None? && chosen.None? then vm
    else
      var vm1 := if vm.filePath.None? then vm.(filePath := chosen) else vm;
      var vm2 := vm1.(project := vm1.project.(selectedLanguage := vm1.language.GetOr(vm1.project.selectedLanguage)));
      if written then SetDirty(vm2, false) else vm2
  }

  /**
   * `ConfirmUnsavedChangesAsync` as written: with changes, Yes saves and then answers true
   * whatever became of the save; No answers true; Cancel answers false.
   */
  function ConfirmAsWritten(vm: Vm, reply: Reply, chosen: Option<string>, written: bool): (r: (bool, Vm))
    ensures !vm.isDirty ==> r == (true, vm)
    ensures vm.isDirty && reply == Yes ==> r == (true, SaveProject(vm, chosen, written))
    ensures vm.isDirty && reply != Yes ==> r == (reply == No, vm)
  {
    if !vm.isDirty then (true, vm)
    else if reply == Yes then (true, SaveProject(vm, chosen, written))
    else (reply == No, vm)
  }

  /** With Yes and a cancelled Save As, the as-written confirmation still lets the caller go on
      and discard the unsaved project. */
  lemma ConfirmAsWrittenIgnoresFailedSave(vm: Vm)
    requires vm.isDirty && vm.filePath.None?
    ensures var r := ConfirmAsWritten(vm, Yes, None, true); r.0 && r.1.isDirty
  {
  }

  /** The confirmation as intended (and as the WPF edition does it): after Yes, go on only if
      the save cleared the dirty flag. */
  function Confirm(vm: Vm, reply: Reply, chosen: Option<string>, written: bool): (r: (bool, Vm))
    ensures r.0 ==> !r.1.isDirty || reply == No
    ensures r.0 <==> (!vm.isDirty || reply == No
      || (reply == Yes && (vm.filePath.Some? || chosen.Some?) && written))
    ensures r.1.project.characters == vm.project.characters && r.1.selected == vm.selected
  {
    if !vm.isDirty then (true, vm)
    else if reply == Yes then
      var saved := SaveProject(vm, chosen, written);
      (!saved.isDirty, saved)
    else (reply == No, vm)
  }

  /** The two agree except when the save after Yes does not happen or fails. */
  lemma ConfirmAgreesWhenSaveSucceeds(vm: Vm, reply: Reply, chosen: Option<string>, written: bool)
    requires reply != Yes || ((vm.filePath.Some? || chosen.Some?) && written)
    ensures Confirm(vm, reply, chosen, written) == ConfirmAsWritten(vm, reply, chosen, written)
  {
  }

  /** A fresh project without a file and without unsaved changes, replacing the one in `vm`. */
  function StartNew(vm: Vm): (r: Vm)
    requires SelectionValid(vm)
    ensures r.project == NewProject() && r.filePath.None? && !r.isDirty && Current(r)
    ensures !r.hasNotes && !r.hasCharacters && !r.selected.Listed?
    ensures vm.selected.Listed? ==> r.selected == Detached(vm.project.characters[vm.selected.index])
    ensures !vm.selected.Listed? ==> r.selected == vm.selected
  {
    var r := SetDirty(vm.(project := NewProject(), filePath := None, selected := Unlisted(vm)), false);
    r.(hasCharacters := false)
  }

  /**
   * `NewProject`: once `ConfirmUnsavedChangesAsync` (as written) agrees, a new project without a
   * file and without unsaved changes.
   */
  function NewProjectCommand(vm: Vm, reply: Reply, chosen: Option<string>, written: bool): (r: Vm)
    requires SelectionValid(vm)
    ensures var c := ConfirmAsWritten(vm, reply, chosen, written);
      (c.0 ==> r.project == NewProject() && r.filePath.None? && !r.isDirty && Current(r)
               && !r.hasNotes && !r.hasCharacters)
      && (!c.0 ==> r == c.1)
    ensures !vm.isDirty || reply != Cancel ==> r.project == NewProject() && !r.isDirty
    ensures vm.isDirty && reply == Cancel ==> r == vm
  {
    var c := ConfirmAsWritten(vm, reply, chosen, written);
    if c.0 then StartNew(c.1) else c.1
  }

  /** With Yes and a cancelled Save As, the new-project command still discards the unsaved
      project. */
  lemma NewProjectDiscardsAfterFailedSave(vm: Vm)
    requires SelectionValid(vm) && vm.isDirty && vm.filePath.None? && vm.project != NewProject()
    ensures NewProjectCommand(vm, Yes, None, true).project != vm.project
  {
  }

  /** `NewProject` with the intended confirmation: a failed save keeps the project open. */
  function NewProjectCommandIntended(vm: Vm, reply: Reply, chosen: Option<string>, written: bool): (r: Vm)
    requires SelectionValid(vm)
    ensures var c := Confirm(vm, reply, chosen, written);
      (c.0 ==> r.project == NewProject() && r.filePath.None? && !r.isDirty && Current(r)
               && !r.hasNotes && !r.hasCharacters)
      && (!c.0 ==> r == c.1)
    ensures vm.isDirty && reply == Yes && !((vm.filePath.Some? || chosen.Some?) && written)
      ==> r.project.characters == vm.project.characters && r.isDirty
    ensures reply != Yes || ((vm.filePath.Some? || chosen.Some?) && written)
      ==> r == NewProjectCommand(vm, reply, chosen, written)
  {
    var c := Confirm(vm, reply, chosen, written);
    if c.0 then StartNew(c.1) else c.1
  }

  /** `ClosingWindow`: whether the close is cancelled (to ask about unsaved changes first). */
  function Closing(vm: Vm): (cancel: bool)
    ensures cancel <==> !vm.isExiting && vm.isDirty
  {
    if vm.isExiting then false else vm.isDirty
  }

  /** `HandleUnsavedChangesOnExitAsync`: once `ConfirmUnsavedChangesAsync` (as written) agrees,
      the window is closed for good. The second component says whether closing was requested. */
  function HandleExit(vm: Vm, reply: Reply, chosen: Option<string>, written: bool): (r: (Vm, bool))
    ensures r.1 <==> ConfirmAsWritten(vm, reply, chosen, written).0
    ensures r.1 <==> !vm.isDirty || reply != Cancel
    ensures r.1 ==> r.0.isExiting && !Closing(r.0)
    ensures !r.1 ==> r.0 == vm
  {
    var c := ConfirmAsWritten(vm, reply, chosen, written);
    if c.0 then (c.1.(isExiting := true), true) else (c.1, false)
  }

  /** With Yes and a cancelled Save As, the window still closes and the changes are lost. */
  lemma ExitAfterFailedSaveCloses(vm: Vm)
    requires vm.isDirty && vm.filePath.None?
    ensures var r := HandleExit(vm, Yes, None, true); r.1 && r.0.isDirty
  {
  }

  /** The exit handling with the intended confirmation: a failed save keeps the window open. */
  function HandleExitIntended(vm: Vm, reply: Reply, chosen: Option<string>, written: bool): (r: (Vm, bool))
    ensures r.1 <==> Confirm(vm, reply, chosen, written).0
    ensures r.1 ==> r.0.isExiting && !Closing(r.0) && (!r.0.isDirty || reply == No)
    ensures !r.1 ==> r.0 == Confirm(vm, reply, chosen, written).1
    ensures reply != Yes || ((vm.filePath.Some? || chosen.Some?) && written)
      ==> r == HandleExit(vm, reply, chosen, written)
  {
    var c := Confirm(vm, reply, chosen, written);
    if c.0 then (c.1.(isExiting := true), true) else (c.1, false)
  }
}
