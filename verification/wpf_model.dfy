/**
 * The data model of the Windows (WPF) edition: its own character record, whose positions are
 * keyed by the trait's display name, and its project. Property setters raise a change
 * notification only when the value differs; here a setter returns the new character together
 * with whether a notification was raised.
 */
module WpfModel {
  import opened Traits

  /** A WPF character. `traitPositions` maps a trait name to a position in [0, 1]. */
  datatype Character = Character(
    name: string,
    colorHex: string,
    size: BubbleSize,
    isLocked: bool,
    isVisible: bool,
    displayOrder: int,
    traitPositions: map<string, real>)

  datatype Project = Project(name: string, characters: seq<Character>, selectedLanguage: string)

  /** `new Character()`. */
  function NewCharacter(): (c: Character)
    ensures c.name == "" && c.colorHex == "#FF0000" && c.size == Large
    ensures !c.isLocked && c.isVisible && c.displayOrder == 0 && c.traitPositions == map[]
  {
    Character("", "#FF0000", Large, false, true, 0, map[])
  }

  /** `new Project()`. */
  function NewProject(): (p: Project)
    ensures p.name == "" && p.characters == [] && p.selectedLanguage == "en"
  {
    Project("", [], "en")
  }

  /** An assignment to one of the notifying properties. */
  datatype Assignment =
    | SetName(name: string)
    | SetColorHex(hex: string)
    | SetSize(size: BubbleSize)
    | SetLocked(locked: bool)
    | SetVisible(visible: bool)
    | SetDisplayOrder(order: int)

  /** The property an assignment writes already holds the assigned value. */
  predicate Holds(c: Character, a: Assignment) {
    match a
    case SetName(v) => c.name == v
    case SetColorHex(v) => c.colorHex == v
    case SetSize(v) => c.size == v
    case SetLocked(v) => c.isLocked == v
    case SetVisible(v) => c.isVisible == v
    case SetDisplayOrder(v) => c.displayOrder == v
  }

  /** Two assignments write the same property. */
  predicate SameProperty(a: Assignment, b: Assignment) {
    (a.SetName? && b.SetName?) || (a.SetColorHex? && b.SetColorHex?) || (a.SetSize? && b.SetSize?)
    || (a.SetLocked? && b.SetLocked?) || (a.SetVisible? && b.SetVisible?)
    || (a.SetDisplayOrder? && b.SetDisplayOrder?)
  }

  /**
   * A property setter: afterwards the property holds the value; a notification is raised
   * exactly when it did not hold before; every other property, and the positions, keep their
   * values.
   */
  function Assign(c: Character, a: Assignment): (r: (Character, bool))
    ensures Holds(r.0, a)
    ensures r.1 <==> !Holds(c, a)
    ensures !r.1 ==> r.0 == c
    ensures forall b :: !SameProperty(a, b) ==> (Holds(r.0, b) <==> Holds(c, b))
    ensures r.0.traitPositions == c.traitPositions
  {
    if Holds(c, a) then (c, false)
    else
      var c' := match a
        case SetName(v) => c.(name := v)
        case SetColorHex(v) => c.(colorHex := v)
        case SetSize(v) => c.(size := v)
        case SetLocked(v) => c.(isLocked := v)
        case SetVisible(v) => c.(isVisible := v)
        case SetDisplayOrder(v) => c.(displayOrder := v);
      (c', true)
  }

  /** Assigning the same value again changes nothing and raises no notification. */
  lemma AssignTwice(c: Character, a: Assignment)
    ensures Assign(Assign(c, a).0, a) == (Assign(c, a).0, false)
  {
  }

  /** Assignments to different properties commute. */
  lemma AssignCommutes(c: Character, a: Assignment, b: Assignment)
    requires !SameProperty(a, b)
    ensures Assign(Assign(c, a).0, b).0 == Assign(Assign(c, b).0, a).0
  {
  }
}
