/**
 * The cross-platform main window's guided tutorial: a stage machine over eleven stages, run
 * while the tutorial is active. Every stage waits for one event of the window (a project name
 * typed, a character added, a bubble dragged, ...) and then proceeds to the next stage; a few
 * stages act on entry. Highlights, pop-ups and texts are left out: only the stage, the
 * active flag and the four click flags of the lock and show/hide stages are state here.
 */
module Tutorial {
  import opened Text
  import Wrappers

  /** The stages, in the order the tutorial walks them. */
  datatype Stage = None | ProjectName | AddCharacter | DragBubble | TraitNotes | ExportNotes
                 | LockCharacter | ShowHideCharacter | ToggleTheme | ExportImage | Final

  /** The stage's value in the enumeration. */
  function Ord(s: Stage): nat {
    match s
    case None => 0
    case ProjectName => 1
    case AddCharacter => 2
    case DragBubble => 3
    case TraitNotes => 4
    case ExportNotes => 5
    case LockCharacter => 6
    case ShowHideCharacter => 7
    case ToggleTheme => 8
    case ExportImage => 9
    case Final => 10
  }

  /** The stage after `s`; past `Final` the enumeration has no named value. */
  function Next(s: Stage): (r: Wrappers.Option<Stage>)
    ensures r.Some? <==> s != Final
    ensures r.Some? ==> Ord(r.value) == Ord(s) + 1
  {
    match s
    case None => Wrappers.Some(ProjectName)
    case ProjectName => Wrappers.Some(AddCharacter)
    case AddCharacter => Wrappers.Some(DragBubble)
    case DragBubble => Wrappers.Some(TraitNotes)
    case TraitNotes => Wrappers.Some(ExportNotes)
    case ExportNotes => Wrappers.Some(LockCharacter)
    case LockCharacter => Wrappers.Some(ShowHideCharacter)
    case ShowHideCharacter => Wrappers.Some(ToggleTheme)
    case ToggleTheme => Wrappers.Some(ExportImage)
    case ExportImage => Wrappers.Some(Final)
    case Final => Wrappers.None
  }

  /** The ordinals number the stages without gaps or repeats. */
  lemma OrdIsInjective(s: Stage, u: Stage)
    ensures Ord(s) == Ord(u) <==> s == u
    ensures Ord(s) <= Ord(Final)
  {
  }

  datatype Tut = Tut(active: bool, stage: Stage,
                     lockToggled: bool, unlockToggled: bool, hideToggled: bool, showToggled: bool)

  /** The window's initial tutorial state. */
  const Initial := Tut(false, None, false, false, false, false)

  /** An inactive tutorial sits at `None`, an active one never does. */
  predicate Valid(t: Tut) {
    t.active <==> t.stage != None
  }

  /** `StopTutorial`: inactive and back at `None`, from any stage; the click flags stay. */
  function Stop(t: Tut): (r: Tut)
    ensures !r.active && r.stage == None && Valid(r)
    ensures r.(active := t.active, stage := t.stage) == t
  {
    t.(active := false, stage := None)
  }

  /**
   * `ShowTutorialStage` for the stage just reached. Entering `DragBubble` without characters
   * stops the tutorial; entering the lock or show/hide stage clears that stage's two click
   * flags; a value past `Final` stops the tutorial.
   */
  function Enter(t: Tut, next: Wrappers.Option<Stage>, hasCharacters: bool): Tut
  {
    if next.None? then Stop(t)
    else
      var s := next.value;
      if s == DragBubble && !hasCharacters then Stop(t)
      else if s == LockCharacter then t.(stage := s, lockToggled := false, unlockToggled := false)
      else if s == ShowHideCharacter then t.(stage := s, hideToggled := false, showToggled := false)
      else t.(stage := s)
  }

  /**
   * `ProceedToNextTutorialStage`: nothing while inactive; otherwise one stage on, with the
   * entry rules of the stage reached. `hasCharacters` is whether the project has characters.
   */
  function Proceed(t: Tut, hasCharacters: bool): (r: Tut)
    ensures !t.active ==> r == t
    ensures t.active && t.stage == Final ==> r == Stop(t)
    ensures t.active && t.stage != Final && !(Next(t.stage) == Wrappers.Some(DragBubble) && !hasCharacters) ==>
      r.active && Ord(r.stage) == Ord(t.stage) + 1
    ensures t.active && Next(t.stage) == Wrappers.Some(DragBubble) && !hasCharacters ==> r == Stop(t)
    ensures t.active && r.stage == LockCharacter ==> !r.lockToggled && !r.unlockToggled
    ensures t.active && r.stage == ShowHideCharacter ==> !r.hideToggled && !r.showToggled
    ensures Valid(t) ==> Valid(r)
  {
    if !t.active then t else Enter(t, Next(t.stage), hasCharacters)
  }

  /** `StartTutorial`: active, at `None`, then proceeding lands on `ProjectName`. */
  function Start(t: Tut, hasCharacters: bool): (r: Tut)
    ensures r.active && r.stage == ProjectName
    ensures r.(active := t.active, stage := t.stage) == t
  {
    Proceed(t.(active := true, stage := None), hasCharacters)
  }

  /** The two icons of a character's list entry the tutorial watches. */
  datatype Icon = LockIcon | VisibilityIcon

  /** The stage that asks for clicks on `i`. */
  function IconStage(i: Icon): Stage {
    if i == LockIcon then LockCharacter else ShowHideCharacter
  }

  /**
   * Whether a click on `i` for a character whose flag (`IsLocked` or `IsVisible`) reads
   * `state` when the handler runs is the first kind of click the stage asks for (locking,
   * hiding) rather than the second (unlocking, showing). The handler runs before the click's
   * command, so it reads the flag as it was before the toggle.
   */
  predicate FirstKind(i: Icon, state: bool) {
    if i == LockIcon then !state else state
  }

  /** The two click flags of the stage of `i`: first kind seen, second kind seen. */
  function Seen(t: Tut, i: Icon): (bool, bool) {
    if i == LockIcon then (t.lockToggled, t.unlockToggled) else (t.hideToggled, t.showToggled)
  }

  /** Records one click of the given kind on `i`. */
  function Mark(t: Tut, i: Icon, first: bool): (r: Tut)
    ensures Seen(r, i) == if first then (true, Seen(t, i).1) else (Seen(t, i).0, true)
    ensures r.active == t.active && r.stage == t.stage
    ensures forall j :: j != i ==> Seen(r, j) == Seen(t, j)
  {
    match i
    case LockIcon => if first then t.(lockToggled := true) else t.(unlockToggled := true)
    case VisibilityIcon => if first then t.(hideToggled := true) else t.(showToggled := true)
  }

  /** The window events the tutorial listens to. */
  datatype Event =
    | TutorialClicked                         // the tutorial menu item
    | CharacterAdded                          // the view model added a character
    | ProjectNameChanged(text: string)        // the project name box changed
    | BubbleReleased                          // a dragged bubble was released
    | NoteChanged(text: string)               // the open trait note changed
    | ThemeToggled                            // the theme button was clicked
    | IconClicked(icon: Icon, state: bool)    // a lock or visibility icon was clicked
    | TutorialButtonClicked                   // the pop-up's own button
    | PopupPlaced(posted: Stage, found: bool) // the deferred pop-up placement of a stage ran

  /**
   * One event. `hasCharacters` is whether the project has characters when the event is
   * handled; a character-added event always comes after the character was added.
   */
  function Step(t: Tut, e: Event, hasCharacters: bool): (r: Tut)
    ensures e.CharacterAdded? && !(t.active && t.stage == AddCharacter) ==> r == t
    ensures e.ProjectNameChanged? && !(t.active && t.stage == ProjectName && !IsBlank(e.text)) ==> r == t
    ensures e.BubbleReleased? && !(t.active && t.stage == DragBubble) ==> r == t
    ensures e.NoteChanged? && !(t.active && t.stage == TraitNotes && !IsBlank(e.text)) ==> r == t
    ensures e.ThemeToggled? && !(t.active && t.stage == ToggleTheme) ==> r == t
    ensures e.IconClicked? && !(t.active && t.stage == IconStage(e.icon)) ==> r == t
    ensures e.TutorialButtonClicked? && t.stage !in {ExportNotes, ExportImage, Final} ==> r == t
    ensures e.PopupPlaced? ==> r == t || r == Stop(t)
  {
    match e
    case TutorialClicked => if t.active then Stop(t) else Start(t, hasCharacters)
    case CharacterAdded =>
      if t.active && t.stage == AddCharacter then Proceed(t, true) else t
    case ProjectNameChanged(text) =>
      if t.active && t.stage == ProjectName && !IsBlank(text) then Proceed(t, hasCharacters) else t
    case BubbleReleased =>
      if t.active && t.stage == DragBubble then Proceed(t, hasCharacters) else t
    case NoteChanged(text) =>
      if t.active && t.stage == TraitNotes && !IsBlank(text) then Proceed(t, hasCharacters) else t
    case ThemeToggled =>
      if t.active && t.stage == ToggleTheme then Proceed(t, hasCharacters) else t
    case IconClicked(i, state) =>
      if t.active && t.stage == IconStage(i) then
        var u := Mark(t, i, FirstKind(i, state));
        if Seen(u, i).0 && Seen(u, i).1 then Proceed(u, hasCharacters) else u
      else t
    case TutorialButtonClicked =>
      if t.stage == ExportImage || t.stage == ExportNotes then Proceed(t, hasCharacters)
      else if t.stage == Final then Stop(t)
      else t
    case PopupPlaced(posted, found) =>
      if !t.active || t.stage != posted then t
      else if !found && (posted == LockCharacter || posted == ShowHideCharacter) then Stop(t)
      else t
  }

  /** A sequence of events, in order. */
  function Run(t: Tut, es: seq<Event>, hasCharacters: bool): Tut
    decreases |es|
  {
    if es == [] then t else Run(Step(t, es[0], hasCharacters), es[1..], hasCharacters)
  }

  /** Every event keeps an inactive tutorial at `None` and an active one off it. */
  lemma StepKeepsValid(t: Tut, e: Event, hasCharacters: bool)
    requires Valid(t)
    ensures Valid(Step(t, e, hasCharacters))
  {
  }

  /** The initial state is valid and every run of events keeps it so. */
  lemma {:induction false} RunKeepsValid(t: Tut, es: seq<Event>, hasCharacters: bool)
    requires Valid(t)
    ensures Valid(Run(t, es, hasCharacters))
    decreases |es|
  {
    if es != [] {
      StepKeepsValid(t, es[0], hasCharacters);
      RunKeepsValid(Step(t, es[0], hasCharacters), es[1..], hasCharacters);
    }
  }

  /**
   * Entering `DragBubble` without characters cannot happen through an event: the stage is
   * only reached from `AddCharacter`, by the event that reports an added character. The
   * character count therefore never changes what an event does.
   */
  lemma StepIgnoresCharacterCount(t: Tut, e: Event)
    requires Valid(t)
    ensures Step(t, e, true) == Step(t, e, false)
  {
  }

  /** The tutorial menu item starts an inactive tutorial and stops an active one. */
  lemma TutorialClickToggles(t: Tut, hasCharacters: bool)
    requires Valid(t)
    ensures var r := Step(t, TutorialClicked, hasCharacters);
      (t.active ==> !r.active && r.stage == None) && (!t.active ==> r.active && r.stage == ProjectName)
  {
  }

  /** The pop-up button goes on from the two export stages and finishes at `Final`. */
  lemma TutorialButtonActions(t: Tut, hasCharacters: bool)
    requires Valid(t)
    ensures t.stage == ExportNotes ==> Step(t, TutorialButtonClicked, hasCharacters).stage == LockCharacter
    ensures t.stage == ExportImage ==> Step(t, TutorialButtonClicked, hasCharacters).stage == Final
    ensures t.stage == Final ==> Step(t, TutorialButtonClicked, hasCharacters) == Stop(t)
  {
  }

  /** Clicks on `i` for characters whose flag reads as in `states`, in order. */
  function Clicks(i: Icon, states: seq<bool>): (es: seq<Event>)
    ensures |es| == |states|
    ensures forall k :: 0 <= k < |states| ==> es[k] == IconClicked(i, states[k])
  {
    seq(|states|, k requires 0 <= k < |states| => IconClicked(i, states[k]))
  }

  /** Some click in `states` is of the given kind. */
  predicate HasKind(i: Icon, states: seq<bool>, first: bool) {
    exists k :: 0 <= k < |states| && FirstKind(i, states[k]) == first
  }

  /** Clicks on an icon whose stage is not the current one change nothing. */
  lemma {:induction false} ClicksElsewhereIgnored(t: Tut, i: Icon, states: seq<bool>, hasCharacters: bool)
    requires t.stage != IconStage(i)
    ensures Run(t, Clicks(i, states), hasCharacters) == t
    decreases |states|
  {
    if states != [] {
      var es := Clicks(i, states);
      assert es[1..] == Clicks(i, states[1..]);
      ClicksElsewhereIgnored(t, i, states[1..], hasCharacters);
    }
  }

  /** A click sequence has a kind when its head has it or its tail does. */
  lemma HasKindCons(i: Icon, states: seq<bool>, first: bool)
    requires states != []
    ensures HasKind(i, states, first) <==> FirstKind(i, states[0]) == first || HasKind(i, states[1..], first)
  {
    if HasKind(i, states[1..], first) {
      var k :| 0 <= k < |states[1..]| && FirstKind(i, states[1..][k]) == first;
      assert states[k + 1] == states[1..][k];
    }
    if HasKind(i, states, first) && FirstKind(i, states[0]) != first {
      var k :| 0 <= k < |states| && FirstKind(i, states[k]) == first;
      assert states[1..][k - 1] == states[k];
    }
  }

  /** One click in the stage of its icon: marked, and on at once when both kinds are seen. */
  lemma OneClick(t: Tut, i: Icon, state: bool, hasCharacters: bool)
    requires t.active && t.stage == IconStage(i)
    ensures var m := Mark(t, i, FirstKind(i, state));
      var u := Step(t, IconClicked(i, state), hasCharacters);
      (Seen(m, i).0 && Seen(m, i).1 ==> u.active && Wrappers.Some(u.stage) == Next(IconStage(i)))
      && (!(Seen(m, i).0 && Seen(m, i).1) ==> u == m)
  {
  }

  /**
   * In the lock (show/hide) stage the tutorial goes on exactly when both a lock and an unlock
   * (a hide and a show) click have been seen, counting the clicks seen earlier in the stage;
   * it then sits at the next stage and further clicks are ignored.
   */
  lemma {:induction false} IconStageNeedsBoth(t: Tut, i: Icon, states: seq<bool>, hasCharacters: bool)
    requires t.active && t.stage == IconStage(i)
    requires !(Seen(t, i).0 && Seen(t, i).1)
    ensures var r := Run(t, Clicks(i, states), hasCharacters);
      r.active
      && (r.stage == IconStage(i) || Wrappers.Some(r.stage) == Next(IconStage(i)))
      && (r.stage != IconStage(i) <==>
            (Seen(t, i).0 || HasKind(i, states, true)) && (Seen(t, i).1 || HasKind(i, states, false)))
    decreases |states|
  {
    if states != [] {
      var es := Clicks(i, states);
      assert es[1..] == Clicks(i, states[1..]);
      assert es[0] == IconClicked(i, states[0]);
      HasKindCons(i, states, true);
      HasKindCons(i, states, false);
      var m := Mark(t, i, FirstKind(i, states[0]));
      var u := Step(t, es[0], hasCharacters);
      OneClick(t, i, states[0], hasCharacters);
      assert Run(t, es, hasCharacters) == Run(u, Clicks(i, states[1..]), hasCharacters);
      if Seen(m, i).0 && Seen(m, i).1 {
        assert u.stage != IconStage(i) by {
          OrdIsInjective(u.stage, IconStage(i));
        }
        ClicksElsewhereIgnored(u, i, states[1..], hasCharacters);
      } else {
        IconStageNeedsBoth(u, i, states[1..], hasCharacters);
      }
    } else {
      assert !HasKind(i, states, true) && !HasKind(i, states, false);
    }
  }

  /**
   * Arriving at the lock stage from the notes export stage clears its flags, so from there the
   * tutorial goes on exactly when the clicks include both a lock and an unlock.
   */
  lemma LockStageAfterEntry(t: Tut, states: seq<bool>, hasCharacters: bool)
    requires t.active && t.stage == ExportNotes
    ensures var u := Step(t, TutorialButtonClicked, hasCharacters);
      var r := Run(u, Clicks(LockIcon, states), hasCharacters);
      r.stage == ShowHideCharacter <==> HasKind(LockIcon, states, true) && HasKind(LockIcon, states, false)
  {
    var u := Step(t, TutorialButtonClicked, hasCharacters);
    assert u.stage == LockCharacter && !u.lockToggled && !u.unlockToggled;
    IconStageNeedsBoth(u, LockIcon, states, hasCharacters);
  }
}
