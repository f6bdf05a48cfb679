/**
 * The Avalonia main window's character lists: reordering by drag and drop, the three size
 * lists, the trait-notes text export and note editing. Characters are the Core records of
 * module `Models`, named by their position in `Project.Characters`.
 */
module CharacterList {
  import opened Wrappers
  import opened Traits
  import opened Models
  import opened Text
  import Ordering
  import MainViewModel

  /** What ordering sees of each character. */
  function Slots(cs: seq<Character>): (s: seq<Ordering.Slot>)
    ensures |s| == |cs|
    ensures forall i :: 0 <= i < |cs| ==> s[i] == Ordering.Slot(cs[i].size, cs[i].displayOrder)
  {
    seq(|cs|, i requires 0 <= i < |cs| => Ordering.Slot(cs[i].size, cs[i].displayOrder))
  }

  /** Writes new display orders into the characters; nothing else about them changes. */
  function WriteBack(cs: seq<Character>, s: seq<Ordering.Slot>): (r: seq<Character>)
    requires |s| == |cs|
    ensures |r| == |cs|
    ensures forall i :: 0 <= i < |cs| ==> r[i] == cs[i].(displayOrder := s[i].order)
  {
    seq(|cs|, i requires 0 <= i < |cs| => cs[i].(displayOrder := s[i].order))
  }

  /** Only display orders differ between `cs` and `r`. */
  predicate OnlyOrdersChange(cs: seq<Character>, r: seq<Character>) {
    |r| == |cs| && forall i :: 0 <= i < |cs| ==> r[i] == cs[i].(displayOrder := r[i].displayOrder)
  }

  /** Character `g[k]` has display order `k`, for every position `k` of `g`. */
  predicate NumberedAs(cs: seq<Character>, g: seq<nat>) {
    forall k :: 0 <= k < |g| ==> g[k] < |cs| && cs[g[k]].displayOrder == k
  }

  /** Writing back orders that number `g` numbers `g` in the characters, changes orders
      only, and leaves characters whose slot is unchanged as they were. */
  lemma WriteBackNumbers(cs: seq<Character>, o: seq<Ordering.Slot>, g: seq<nat>)
    requires |o| == |cs|
    requires forall k :: 0 <= k < |g| ==> g[k] < |o| && o[g[k]].order == k
    ensures OnlyOrdersChange(cs, WriteBack(cs, o))
    ensures NumberedAs(WriteBack(cs, o), g)
    ensures forall i :: 0 <= i < |cs| && o[i] == Slots(cs)[i] ==> WriteBack(cs, o)[i] == cs[i]
  {
    var r := WriteBack(cs, o);
    forall k | 0 <= k < |g| ensures r[g[k]].displayOrder == k {
      assert r[g[k]] == cs[g[k]].(displayOrder := o[g[k]].order);
    }
  }

  /**
   * `PerformReorder`: the result's second component says whether the project was marked dirty.
   * Across sizes nothing happens; otherwise the dropped character is put next to the target
   * and its size group is renumbered 0, 1, 2, ... in the new order.
   */
  function PerformReorder(cs: seq<Character>, dropped: nat, target: nat, insertAfter: bool)
    : (r: (seq<Character>, bool))
    requires dropped < |cs| && target < |cs|
    ensures OnlyOrdersChange(cs, r.0)
    ensures cs[dropped].size != cs[target].size ==> r == (cs, false)
    ensures cs[dropped].size == cs[target].size ==>
      r.1 && NumberedAs(r.0, Ordering.Reordered(Slots(cs), dropped, target, insertAfter))
    ensures forall i :: 0 <= i < |cs| && cs[i].size != cs[dropped].size ==> r.0[i] == cs[i]
  {
    if cs[dropped].size != cs[target].size then (cs, false)
    else
      var s := Slots(cs);
      var o := Ordering.PerformReorder(s, dropped, target, insertAfter);
      WriteBackNumbers(cs, o, Ordering.Reordered(s, dropped, target, insertAfter));
      (WriteBack(cs, o), true)
  }

  /** The drop fallback: the dropped character goes to the end of its group, which is
      renumbered 0, 1, 2, ...; the project is marked dirty. */
  function MoveToEnd(cs: seq<Character>, dropped: nat): (r: (seq<Character>, bool))
    requires dropped < |cs|
    ensures OnlyOrdersChange(cs, r.0) && r.1
    ensures NumberedAs(r.0, Ordering.Rest(Slots(cs), dropped) + [dropped])
  {
    var s := Slots(cs);
    Ordering.ReorderOntoAbsentAppends(s, dropped, dropped, false);
    Ordering.MoveToEndIsReorderOntoItself(s, dropped, false);
    WriteBackNumbers(cs, Ordering.MoveToEnd(s, dropped), Ordering.Rest(s, dropped) + [dropped]);
    (WriteBack(cs, Ordering.MoveToEnd(s, dropped)), true)
  }

  /** Where a drag ended on a list: on an item (and in which half of it), or elsewhere. */
  datatype DropSpot = OnItem(target: nat, insertAfter: bool) | Elsewhere

  /**
   * `CharactersList_Drop`. `listSize` is the size the list stands for (`None` for a list that
   * is not one of the three). A drop on a list of another size does nothing; a drop on another
   * character reorders; a drop anywhere else, or on the dragged character itself, moves the
   * dragged character to the end of its group.
   */
  function Drop(cs: seq<Character>, dropped: nat, listSize: Option<BubbleSize>, spot: DropSpot)
    : (r: (seq<Character>, bool))
    requires dropped < |cs| && (spot.OnItem? ==> spot.target < |cs|)
    ensures OnlyOrdersChange(cs, r.0)
    ensures listSize != Some(cs[dropped].size) ==> r == (cs, false)
    ensures listSize == Some(cs[dropped].size) && spot.OnItem? && spot.target != dropped ==>
      r == PerformReorder(cs, dropped, spot.target, spot.insertAfter)
    ensures listSize == Some(cs[dropped].size) && !(spot.OnItem? && spot.target != dropped) ==>
      r.1 && NumberedAs(r.0, Ordering.Rest(Slots(cs), dropped) + [dropped])
  {
    if listSize != Some(cs[dropped].size) then (cs, false)
    else if spot.OnItem? && spot.target != dropped then
      PerformReorder(cs, dropped, spot.target, spot.insertAfter)
    else MoveToEnd(cs, dropped)
  }

  /** The group of one size as its list shows it. */
  function Listed(cs: seq<Character>, size: BubbleSize): seq<nat> {
    Ordering.Group(Slots(cs), size)
  }

  /** `xs` holds no character twice and lists them by non-decreasing display order. */
  predicate ListedInOrder(cs: seq<Character>, xs: seq<nat>) {
    (forall k :: 0 <= k < |xs| ==> xs[k] < |cs|)
    && (forall a, b :: 0 <= a < b < |xs| ==> xs[a] != xs[b])
    && (forall a, b :: 0 <= a < b < |xs| && xs[b] < |cs| ==>
          xs[a] < |cs| && cs[xs[a]].displayOrder <= cs[xs[b]].displayOrder)
  }

  /** A size list holds exactly the characters of its size, by display order. */
  lemma ListedFacts(cs: seq<Character>, size: BubbleSize)
    ensures ListedInOrder(cs, Listed(cs, size))
    ensures forall i :: 0 <= i < |cs| ==> (i in Listed(cs, size) <==> cs[i].size == size)
  {
    var s := Slots(cs);
    var g := Listed(cs, size);
    Ordering.GroupFacts(s, size);
    forall a, b | 0 <= a < b < |g| ensures cs[g[a]].displayOrder <= cs[g[b]].displayOrder {
      assert Ordering.Before(s, g[a], g[b]);
    }
  }

  /** `UpdateGroups`: the Main, Supporting and Background lists. */
  function UpdateGroups(cs: seq<Character>): (r: (seq<nat>, seq<nat>, seq<nat>))
    ensures ListedInOrder(cs, r.0) && ListedInOrder(cs, r.1) && ListedInOrder(cs, r.2)
    ensures forall i :: 0 <= i < |cs| ==>
      (i in r.0 <==> cs[i].size == Large)
      && (i in r.1 <==> cs[i].size == Medium)
      && (i in r.2 <==> cs[i].size == Small)
  {
    ListedFacts(cs, Large);
    ListedFacts(cs, Medium);
    ListedFacts(cs, Small);
    Ordering.Lists(Slots(cs))
  }

  /** After a reorder, the dropped character's list shows the group in its new order. */
  lemma ReorderShowsNewOrder(cs: seq<Character>, dropped: nat, target: nat, insertAfter: bool)
    requires dropped < |cs| && target < |cs| && cs[dropped].size == cs[target].size
    ensures var r := PerformReorder(cs, dropped, target, insertAfter).0;
      Listed(r, cs[dropped].size) == Ordering.Reordered(Slots(cs), dropped, target, insertAfter)
  {
    var s := Slots(cs);
    var r := PerformReorder(cs, dropped, target, insertAfter).0;
    var o := Ordering.PerformReorder(s, dropped, target, insertAfter);
    Ordering.ReorderShowsNewOrder(s, dropped, target, insertAfter);
    assert r == WriteBack(cs, o);
    forall i | 0 <= i < |cs| ensures Slots(r)[i] == o[i] {
      assert r[i] == cs[i].(displayOrder := o[i].order) && o[i].size == s[i].size;
    }
    assert Slots(r) == o;
  }

  // ---------------------------------------------------------------------------------------
  // Trait notes
  // ---------------------------------------------------------------------------------------

  /** One exported note: the trait's name in brackets, the note, a blank line, 20 dashes and
      another blank line. */
  function NoteBlock(name: string, note: string, nl: string): string {
    "[" + name + "]" + nl + note + nl + nl + Repeat('-', 20) + nl + nl
  }

  /** The note stored for a trait, when there is one that is not blank. */
  predicate Noted(notes: map<string, string>, id: string) {
    id in notes && !IsBlank(notes[id])
  }

  /** The blocks of the traits with a non-blank note, in catalog order. */
  function NoteBlocks(traits: seq<Trait>, notes: map<string, string>, nl: string): string {
    if traits == [] then ""
    else
      var t := traits[|traits| - 1];
      NoteBlocks(traits[..|traits| - 1], notes, nl)
        + (if Noted(notes, t.id) then NoteBlock(t.name, notes[t.id], nl) else "")
  }

  /** The first three lines: the project name, 30 dashes, a blank line. */
  function NotesHeader(projectName: string, nl: string): string {
    "Notes for Project: " + projectName + nl + Repeat('-', 30) + nl + nl
  }

  /** The text `ExportNotes_Click` writes; `None` when the project has no notes map, in which
      case nothing is written. */
  function ExportNotes(p: Project, traits: seq<Trait>, nl: string): (r: Option<string>)
    ensures r.None? <==> p.traitNotes.None?
    ensures r.Some? ==> var h := NotesHeader(p.name, nl);
      |h| <= |r.value| && r.value[..|h|] == h
  {
    match p.traitNotes
    case None => None
    case Some(notes) => Some(NotesHeader(p.name, nl) + NoteBlocks(traits, notes, nl))
  }

  /** The export of a catalog split in two is the export of each part, one after the other. */
  lemma {:induction false} NoteBlocksAppend(a: seq<Trait>, b: seq<Trait>, notes: map<string, string>, nl: string)
    ensures NoteBlocks(a + b, notes, nl) == NoteBlocks(a, notes, nl) + NoteBlocks(b, notes, nl)
    decreases |b|
  {
    if b != [] {
      var b' := b[..|b| - 1];
      assert (a + b)[..|a + b| - 1] == a + b';
      assert (a + b)[|a + b| - 1] == b[|b| - 1];
      NoteBlocksAppend(a, b', notes, nl);
    } else {
      assert a + b == a;
    }
  }

  /** Blank notes leave no trace: a trait whose note is blank exports as if it had none. */
  lemma {:induction false} BlankNoteInvisible(traits: seq<Trait>, notes: map<string, string>, id: string, blank: string, nl: string)
    requires IsBlank(blank)
    ensures NoteBlocks(traits, notes[id := blank], nl) == NoteBlocks(traits, notes - {id}, nl)
  {
    if traits != [] {
      BlankNoteInvisible(traits[..|traits| - 1], notes, id, blank, nl);
    }
  }

  /** Without a non-blank note the export is the header alone. */
  lemma {:induction false} NoNotesHeaderOnly(traits: seq<Trait>, notes: map<string, string>, nl: string)
    requires forall k :: 0 <= k < |traits| ==> !Noted(notes, traits[k].id)
    ensures NoteBlocks(traits, notes, nl) == ""
  {
    if traits != [] {
      NoNotesHeaderOnly(traits[..|traits| - 1], notes, nl);
    }
  }

  /** A single trait with a non-blank note exports exactly its block. */
  lemma OneNoteOneBlock(t: Trait, notes: map<string, string>, nl: string)
    requires Noted(notes, t.id)
    ensures NoteBlocks([t], notes, nl) == NoteBlock(t.name, notes[t.id], nl)
  {
    assert [t][..0] == [];
  }

  /**
   * The note part of `NoteTextBox_TextChanged`: stores the text box's text (empty for none)
   * under the trait's id, creating the notes map if the project has none.
   */
  function EditNote(p: Project, traitId: string, text: Option<string>): (r: Project)
    ensures r.traitNotes.Some?
    ensures traitId in r.traitNotes.value && r.traitNotes.value[traitId] == text.GetOr("")
    ensures forall k :: k != traitId ==>
      (k in r.traitNotes.value <==> p.traitNotes.Some? && k in p.traitNotes.value)
    ensures forall k :: k != traitId && k in r.traitNotes.value ==>
      r.traitNotes.value[k] == p.traitNotes.value[k]
    ensures r.(traitNotes := p.traitNotes) == p
  {
    var notes := p.traitNotes.GetOr(map[]);
    p.(traitNotes := Some(notes[traitId := text.GetOr("")]))
  }

  /** Writing a note is idempotent, and a later note for the same trait replaces an earlier
      one. */
  lemma EditNoteOverwrites(p: Project, traitId: string, first: Option<string>, second: Option<string>)
    ensures EditNote(EditNote(p, traitId, first), traitId, second) == EditNote(p, traitId, second)
  {
    var notes := p.traitNotes.GetOr(map[]);
    assert notes[traitId := first.GetOr("")][traitId := second.GetOr("")] == notes[traitId := second.GetOr("")];
  }

  /**
   * `NoteTextBox_TextChanged` on the main window's view model: the note is stored and the
   * project is marked dirty, which also refreshes whether the project has notes.
   */
  function NoteTextChanged(vm: MainViewModel.Vm, traitId: string, text: Option<string>): (r: MainViewModel.Vm)
    ensures r.project == EditNote(vm.project, traitId, text)
    ensures r.isDirty && r.hasNotes == MainViewModel.HasNotes(r.project)
    ensures !IsBlank(text.GetOr("")) ==> r.hasNotes
    ensures r.filePath == vm.filePath && r.selected == vm.selected && r.hasCharacters == vm.hasCharacters
    ensures MainViewModel.Current(vm) ==> MainViewModel.Current(r)
  {
    var r := MainViewModel.SetDirty(vm.(project := EditNote(vm.project, traitId, text)), true);
    assert traitId in r.project.traitNotes.value;
    r
  }
}
