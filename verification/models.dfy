/**
 * The data model of the cross-platform core: characters and projects.
 *
 * Two fields the front end relies on are not declared in the core's Character and Project
 * files but are read and written by the Avalonia windows: a character's questionnaire
 * answers and exclusions, and a project's trait notes. They are added here with the types
 * those windows use.
 */
module Models {
  import opened Wrappers
  import opened Traits

  /** A character of the project. `traitPositions` maps a trait key to a position in [0, 1]. */
  datatype Character = Character(
    name: string,
    colorHex: string,
    size: BubbleSize,
    isLocked: bool,
    isVisible: bool,
    displayOrder: int,
    traitPositions: map<string, real>,
    questionnaireAnswers: map<string, int>,
    questionnaireExclusions: seq<string>)

  /** A project. `traitNotes` is `None` where the application holds a null dictionary. */
  datatype Project = Project(
    name: string,
    characters: seq<Character>,
    selectedLanguage: string,
    traitNotes: Option<map<string, string>>)

  /** `new Character()`: an unnamed, red, large, unlocked, visible character without positions. */
  function NewCharacter(): (c: Character)
    ensures c.name == "" && c.colorHex == "#FF0000" && c.size == Large
    ensures !c.isLocked && c.isVisible && c.displayOrder == 0
    ensures c.traitPositions == map[] && c.questionnaireAnswers == map[] && c.questionnaireExclusions == []
  {
    Character("", "#FF0000", Large, false, true, 0, map[], map[], [])
  }

  /** `new Project()`: unnamed, no characters, English. */
  function NewProject(): (p: Project)
    ensures p.name == "" && p.characters == [] && p.selectedLanguage == "en"
  {
    Project("", [], "en", None)
  }

  /** All positions lie in the unit interval. */
  predicate PositionsInRange(m: map<string, real>) {
    forall k :: k in m ==> 0.0 <= m[k] <= 1.0
  }

  /**
   * `Character.GetTraitPosition`: the position of trait `tr`, looked up by id; a position still
   * stored under the trait's localized name is migrated to the id key; otherwise 0.5 is stored
   * under the id. Returns the position and the updated character.
   */
  function GetTraitPosition(c: Character, tr: Trait): (r: (real, Character))
    ensures r.1 == c.(traitPositions := r.1.traitPositions)
    ensures tr.id in r.1.traitPositions && r.1.traitPositions[tr.id] == r.0
    ensures tr.id in c.traitPositions ==> r.0 == c.traitPositions[tr.id] && r.1 == c
    ensures tr.id !in c.traitPositions && tr.name != "" && tr.name in c.traitPositions ==>
      r.0 == c.traitPositions[tr.name] && tr.name !in r.1.traitPositions
    ensures tr.id !in c.traitPositions && (tr.name == "" || tr.name !in c.traitPositions) ==>
      r.0 == 0.5 && r.1.traitPositions.Keys == c.traitPositions.Keys + {tr.id}
    ensures forall k :: k != tr.id && k != tr.name ==>
      (k in r.1.traitPositions <==> k in c.traitPositions)
    ensures forall k :: k in c.traitPositions && k != tr.id && k != tr.name ==>
      r.1.traitPositions[k] == c.traitPositions[k]
  {
    var m := c.traitPositions;
    if tr.id in m then
      (m[tr.id], c)
    else if tr.name != "" && tr.name in m then
      var v := m[tr.name];
      (v, c.(traitPositions := (m - {tr.name})[tr.id := v]))
    else
      (0.5, c.(traitPositions := m[tr.id := 0.5]))
  }

  /** Asking twice gives the same position, and the second call changes nothing. */
  lemma GetTraitPositionIdempotent(c: Character, tr: Trait)
    ensures GetTraitPosition(GetTraitPosition(c, tr).1, tr) == GetTraitPosition(c, tr)
  {
  }

  /** Lookup, migration and the default all keep every position within [0, 1]. */
  lemma GetTraitPositionKeepsRange(c: Character, tr: Trait)
    requires PositionsInRange(c.traitPositions)
    ensures 0.0 <= GetTraitPosition(c, tr).0 <= 1.0
    ensures PositionsInRange(GetTraitPosition(c, tr).1.traitPositions)
  {
  }
}
