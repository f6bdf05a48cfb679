/**
 * The WPF main window's guided tutorial: the same kind of stage machine as the cross-platform
 * one, over nine stages (no trait-notes or notes-export stages). The lock and show/hide
 * stages clear their click flags in a deferred callback rather than on entry, and the icon
 * handlers read a character's flag after its toggle command ran.
 */
module WpfTutorial {
  import opened Text
  import Wrappers
  import Tutorial

  /** The stages, in the order the tutorial walks them. */
  datatype Stage = None | ProjectName | AddCharacter | DragBubble | LockCharacter
                 | ShowHideCharacter | ToggleTheme | ExportImage | Final

  /** The stage's value in the enumeration. */
  function Ord(s: Stage): nat {
    match s
    case None => 0
    case ProjectName => 1
    case AddCharacter => 2
    case DragBubble => 3
    case LockCharacter => 4
    case ShowHideCharacter => 5
    case ToggleTheme => 6
    case ExportImage => 7
    case Final => 8
  }

  /** The stage after `s`; past `Final` the enumeration has no named value. */
  function Next(s: Stage): (r: Wrappers.Option<Stage>)
    ensures r.Some? <==> s != Final
    ensures r.Some? ==> Ord(r.value) == Ord(s) + 1
  {
    match s
    case None => Wrappers.Some(ProjectName)
    case ProjectName => Wrappers.Some(AddCharacter)
    case AddCharacter => Wrappers.Some(DragBubble)
    case DragBubble => Wrappers.Some(LockCharacter)
    case LockCharacter => Wrappers.Some(ShowHideCharacter)
    case ShowHideCharacter => Wrappers.Some(ToggleTheme)
    case ToggleTheme => Wrappers.Some(ExportImage)
    case ExportImage => Wrappers.Some(Final)
    case Final => Wrappers.None
  }

  /** The ordinals number the stages without gaps or repeats. */
  lemma OrdIsInjective(s: Stage, u: Stage)
    ensures Ord(s) == Ord(u) <==> s == u
    ensures Ord(s) <= Ord(Final)
  {
  }

  /** The placeholder the project name box shows while empty. */
  const PlaceholderText := "Enter Project Title..."

  datatype Tut = Tut(active: bool, stage: Stage,
                     lockToggled: bool, unlockToggled: bool, hideToggled: bool, showToggled: bool)

  /** The window's initial tutorial state. */
  const Initial := Tut(false, None, false, false, false, false)

  /** An inactive tutorial sits at `None`, an active one never does. */
  predicate Valid(t: Tut) {
    t.active <==> t.stage != None
  }

  /** `StopTutorial`: inactive and back at `None`, from any stage; the click flags stay. */
  function Stop(t: Tut): (r: Tut)
    ensures !r.active && r.stage == None && Valid(r)
    ensures r.(active := t.active, stage := t.stage) == t
  {
    t.(active := false, stage := None)
  }

  /**
   * `ShowTutorialStage` for the stage just reached: entering `DragBubble` without characters
   * stops the tutorial, and so does a value past `Final`. Nothing else happens on entry; the
   * lock and show/hide stages act in a deferred callback (`EntryLoaded` below).
   */
  function Enter(t: Tut, next: Wrappers.Option<Stage>, hasCharacters: bool): Tut
  {
    if next.None? then Stop(t)
    else if next.value == DragBubble && !hasCharacters then Stop(t)
    else t.(stage := next.value)
  }

  /** `ProceedToNextTutorialStage`: nothing while inactive; otherwise one stage on. */
  function Proceed(t: Tut, hasCharacters: bool): (r: Tut)
    ensures !t.active ==> r == t
    ensures t.active && t.stage == Final ==> r == Stop(t)
    ensures t.active && t.stage != Final && !(Next(t.stage) == Wrappers.Some(DragBubble) && !hasCharacters) ==>
      r == t.(stage := r.stage) && r.active && Ord(r.stage) == Ord(t.stage) + 1
    ensures t.active && Next(t.stage) == Wrappers.Some(DragBubble) && !hasCharacters ==> r == Stop(t)
    ensures Valid(t) ==> Valid(r)
  {
    if !t.active then t else Enter(t, Next(t.stage), hasCharacters)
  }

  /** `StartTutorial`: active, at `None`, then proceeding lands on `ProjectName`. */
  function Start(t: Tut, hasCharacters: bool): (r: Tut)
    ensures r == t.(active := true, stage := ProjectName)
  {
    Proceed(t.(active := true, stage := None), hasCharacters)
  }

  /** The stage that asks for clicks on `i`. */
  function IconStage(i: Tutorial.Icon): Stage {
    if i == Tutorial.LockIcon then LockCharacter else ShowHideCharacter
  }

  /**
   * Whether a click on `i`, for a character whose flag (`IsLocked` or `IsVisible`) reads
   * `state` after its toggle command ran, is the first kind of click the stage asks for
   * (locking, hiding).
   */
  predicate FirstKind(i: Tutorial.Icon, state: bool) {
    if i == Tutorial.LockIcon then state else !state
  }

  /**
   * Reading the flag after the toggle, as this window does, classifies a click exactly as
   * reading it before the toggle does in the cross-platform window.
   */
  lemma SameClickKind(i: Tutorial.Icon, before: bool)
    ensures FirstKind(i, !before) == Tutorial.FirstKind(i, before)
  {
  }

  /** The two click flags of the stage of `i`: first kind seen, second kind seen. */
  function Seen(t: Tut, i: Tutorial.Icon): (bool, bool) {
    if i == Tutorial.LockIcon then (t.lockToggled, t.unlockToggled) else (t.hideToggled, t.showToggled)
  }

  /** Records one click of the given kind on `i`. */
  function Mark(t: Tut, i: Tutorial.Icon, first: bool): (r: Tut)
    ensures Seen(r, i) == if first then (true, Seen(t, i).1) else (Seen(t, i).0, true)
    ensures r.active == t.active && r.stage == t.stage
    ensures forall j :: j != i ==> Seen(r, j) == Seen(t, j)
  {
    match i
    case LockIcon => if first then t.(lockToggled := true) else t.(unlockToggled := true)
    case VisibilityIcon => if first then t.(hideToggled := true) else t.(showToggled := true)
  }

  /** Clears both click flags of `i`. */
  function Clear(t: Tut, i: Tutorial.Icon): (r: Tut)
    ensures Seen(r, i) == (false, false)
    ensures r.active == t.active && r.stage == t.stage
    ensures forall j :: j != i ==> Seen(r, j) == Seen(t, j)
  {
    match i
    case LockIcon => t.(lockToggled := false, unlockToggled := false)
    case VisibilityIcon => t.(hideToggled := false, showToggled := false)
  }

  /** The window events the tutorial listens to. */
  datatype Event =
    | TutorialClicked                               // the tutorial menu item
    | CharacterAdded                                // the view model added a character
    | ProjectNameEdited(text: string)               // the name box changed or got the focus
    | BubbleReleased                                // a dragged bubble was released
    | ThemeToggled                                  // the theme button was clicked
    | IconClicked(icon: Tutorial.Icon, state: bool) // a lock or visibility icon was clicked
    | TutorialButtonClicked                         // the pop-up's own button
    | EntryLoaded(entered: Tutorial.Icon, found: bool) // the deferred set-up of an icon stage ran

  /** Whether the project name box holds a real title: not blank and not the placeholder. */
  predicate IsTitle(text: string) {
    !IsBlank(text) && text != PlaceholderText
  }

  /**
   * One event. `hasCharacters` is whether the project has characters when the event is
   * handled; a character-added event always comes after the character was added. The
   * deferred set-up of an icon stage clears that stage's flags and stops the tutorial when
   * the first list entry's button cannot be found, whatever the stage is by then.
   */
  function Step(t: Tut, e: Event, hasCharacters: bool): (r: Tut)
    ensures e.CharacterAdded? && !(t.active && t.stage == AddCharacter) ==> r == t
    ensures e.ProjectNameEdited? && !(t.active && t.stage == ProjectName && IsTitle(e.text)) ==> r == t
    ensures e.BubbleReleased? && !(t.active && t.stage == DragBubble) ==> r == t
    ensures e.ThemeToggled? && !(t.active && t.stage == ToggleTheme) ==> r == t
    ensures e.IconClicked? && !(t.active && t.stage == IconStage(e.icon)) ==> r == t
    ensures e.TutorialButtonClicked? && t.stage != ExportImage && t.stage != Final ==> r == t
    ensures e.EntryLoaded? ==> Seen(r, e.entered) == (false, false)
    ensures e.EntryLoaded? ==> (r.active <==> t.active && e.found) && (e.found ==> r.stage == t.stage)
  {
    match e
    case TutorialClicked => if t.active then Stop(t) else Start(t, hasCharacters)
    case CharacterAdded =>
      if t.active && t.stage == AddCharacter then Proceed(t, true) else t
    case ProjectNameEdited(text) =>
      if t.active && t.stage == ProjectName && IsTitle(text) then Proceed(t, hasCharacters) else t
    case BubbleReleased =>
      if t.active && t.stage == DragBubble then Proceed(t, hasCharacters) else t
    case ThemeToggled =>
      if t.active && t.stage == ToggleTheme then Proceed(t, hasCharacters) else t
    case IconClicked(i, state) =>
      if t.active && t.stage == IconStage(i) then
        var u := Mark(t, i, FirstKind(i, state));
        if Seen(u, i).0 && Seen(u, i).1 then Proceed(u, hasCharacters) else u
      else t
    case TutorialButtonClicked =>
      if t.stage == ExportImage then Proceed(t, hasCharacters)
      else if t.stage == Final then Stop(t)
      else t
    case EntryLoaded(i, found) =>
      var u := Clear(t, i);
      if found then u else Stop(u)
  }

  /** A sequence of events, in order. */
  function Run(t: Tut, es: seq<Event>, hasCharacters: bool): Tut
    decreases |es|
  {
    if es == [] then t else Run(Step(t, es[0], hasCharacters), es[1..], hasCharacters)
  }

  /** Every event keeps an inactive tutorial at `None` and an active one off it. */
  lemma StepKeepsValid(t: Tut, e: Event, hasCharacters: bool)
    requires Valid(t)
    ensures Valid(Step(t, e, hasCharacters))
  {
  }

  /** Every run of events from a valid state keeps it valid. */
  lemma {:induction false} RunKeepsValid(t: Tut, es: seq<Event>, hasCharacters: bool)
    requires Valid(t)
    ensures Valid(Run(t, es, hasCharacters))
    decreases |es|
  {
    if es != [] {
      StepKeepsValid(t, es[0], hasCharacters);
      RunKeepsValid(Step(t, es[0], hasCharacters), es[1..], hasCharacters);
    }
  }

  /**
   * As in the cross-platform window, `DragBubble` is only reached by the event reporting an
   * added character, so the no-characters stop is never taken and the character count never
   * changes what an event does.
   */
  lemma StepIgnoresCharacterCount(t: Tut, e: Event)
    requires Valid(t)
    ensures Step(t, e, true) == Step(t, e, false)
  {
  }

  /** The tutorial menu item starts an inactive tutorial and stops an active one. */
  lemma TutorialClickToggles(t: Tut, hasCharacters: bool)
    requires Valid(t)
    ensures var r := Step(t, TutorialClicked, hasCharacters);
      (t.active ==> !r.active && r.stage == None) && (!t.active ==> r.active && r.stage == ProjectName)
  {
  }

  /** The pop-up button goes on only from `ExportImage` and finishes at `Final`. */
  lemma TutorialButtonActions(t: Tut, hasCharacters: bool)
    requires Valid(t)
    ensures t.stage == ExportImage ==> Step(t, TutorialButtonClicked, hasCharacters).stage == Final
    ensures t.stage == Final ==> Step(t, TutorialButtonClicked, hasCharacters) == Stop(t)
  {
  }

  /** The placeholder text never counts as a project title. */
  lemma PlaceholderDoesNotProceed(t: Tut, hasCharacters: bool)
    ensures Step(t, ProjectNameEdited(PlaceholderText), hasCharacters) == t
  {
    assert !IsWhiteSpace(PlaceholderText[0]);
  }

  /** Clicks on `i` for characters whose flag reads as in `states`, in order. */
  function Clicks(i: Tutorial.Icon, states: seq<bool>): (es: seq<Event>)
    ensures |es| == |states|
    ensures forall k :: 0 <= k < |states| ==> es[k] == IconClicked(i, states[k])
  {
    seq(|states|, k requires 0 <= k < |states| => IconClicked(i, states[k]))
  }

  /** Some click in `states` is of the given kind. */
  predicate HasKind(i: Tutorial.Icon, states: seq<bool>, first: bool) {
    exists k :: 0 <= k < |states| && FirstKind(i, states[k]) == first
  }

  /** A click sequence has a kind when its head has it or its tail does. */
  lemma HasKindCons(i: Tutorial.Icon, states: seq<bool>, first: bool)
    requires states != []
    ensures HasKind(i, states, first) <==> FirstKind(i, states[0]) == first || HasKind(i, states[1..], first)
  {
    if HasKind(i, states[1..], first) {
      var k :| 0 <= k < |states[1..]| && FirstKind(i, states[1..][k]) == first;
      assert states[k + 1] == states[1..][k];
    }
    if HasKind(i, states, first) && FirstKind(i, states[0]) != first {
      var k :| 0 <= k < |states| && FirstKind(i, states[k]) == first;
      assert states[1..][k - 1] == states[k];
    }
  }

  /** Clicks on an icon whose stage is not the current one change nothing. */
  lemma {:induction false} ClicksElsewhereIgnored(t: Tut, i: Tutorial.Icon, states: seq<bool>, hasCharacters: bool)
    requires t.stage != IconStage(i)
    ensures Run(t, Clicks(i, states), hasCharacters) == t
    decreases |states|
  {
    if states != [] {
      var es := Clicks(i, states);
      assert es[1..] == Clicks(i, states[1..]);
      ClicksElsewhereIgnored(t, i, states[1..], hasCharacters);
    }
  }

  /** One click in the stage of its icon: marked, and on at once when both kinds are seen. */
  lemma OneClick(t: Tut, i: Tutorial.Icon, state: bool, hasCharacters: bool)
    requires t.active && t.stage == IconStage(i)
    ensures var m := Mark(t, i, FirstKind(i, state));
      var u := Step(t, IconClicked(i, state), hasCharacters);
      (Seen(m, i).0 && Seen(m, i).1 ==> u.active && Wrappers.Some(u.stage) == Next(IconStage(i)))
      && (!(Seen(m, i).0 && Seen(m, i).1) ==> u == m)
  {
  }

  /**
   * In the lock (show/hide) stage the tutorial goes on exactly when both a lock and an unlock
   * (a hide and a show) click have been seen since the flags were last cleared; it then sits
   * at the next stage and further clicks are ignored.
   */
  lemma {:induction false} IconStageNeedsBoth(t: Tut, i: Tutorial.Icon, states: seq<bool>, hasCharacters: bool)
    requires t.active && t.stage == IconStage(i)
    requires !(Seen(t, i).0 && Seen(t, i).1)
    ensures var r := Run(t, Clicks(i, states), hasCharacters);
      r.active
      && (r.stage == IconStage(i) || Wrappers.Some(r.stage) == Next(IconStage(i)))
      && (r.stage != IconStage(i) <==>
            (Seen(t, i).0 || HasKind(i, states, true)) && (Seen(t, i).1 || HasKind(i, states, false)))
    decreases |states|
  {
    if states != [] {
      var es := Clicks(i, states);
      assert es[1..] == Clicks(i, states[1..]);
      assert es[0] == IconClicked(i, states[0]);
      HasKindCons(i, states, true);
      HasKindCons(i, states, false);
      var m := Mark(t, i, FirstKind(i, states[0]));
      var u := Step(t, es[0], hasCharacters);
      OneClick(t, i, states[0], hasCharacters);
      assert Run(t, es, hasCharacters) == Run(u, Clicks(i, states[1..]), hasCharacters);
      if Seen(m, i).0 && Seen(m, i).1 {
        assert u.stage != IconStage(i) by {
          OrdIsInjective(u.stage, IconStage(i));
        }
        ClicksElsewhereIgnored(u, i, states[1..], hasCharacters);
      } else {
        IconStageNeedsBoth(u, i, states[1..], hasCharacters);
      }
    } else {
      assert !HasKind(i, states, true) && !HasKind(i, states, false);
    }
  }

  /**
   * Once the deferred set-up of the lock stage has found its button and cleared the flags,
   * the tutorial goes on exactly when the clicks include both a lock and an unlock.
   */
  lemma LockStageAfterEntry(t: Tut, states: seq<bool>, hasCharacters: bool)
    requires t.active && t.stage == LockCharacter
    ensures var u := Step(t, EntryLoaded(Tutorial.LockIcon, true), hasCharacters);
      var r := Run(u, Clicks(Tutorial.LockIcon, states), hasCharacters);
      r.stage == ShowHideCharacter <==> HasKind(Tutorial.LockIcon, states, true) && HasKind(Tutorial.LockIcon, states, false)
  {
    var u := Step(t, EntryLoaded(Tutorial.LockIcon, true), hasCharacters);
    assert u.stage == LockCharacter && u.active && Seen(u, Tutorial.LockIcon) == (false, false);
    IconStageNeedsBoth(u, Tutorial.LockIcon, states, hasCharacters);
  }
}
