/**
 * The sixteen-trait catalog and the bubble sizes shared by both front ends.
 */
module Traits {

  /** `BubbleSize`: declared identically (Small = 0, Medium = 1, Large = 2) by both front ends. */
  datatype BubbleSize = Small | Medium | Large

  /** The integer value the enum member carries (it is what the JSON file stores). */
  function SizeValue(s: BubbleSize): (v: int)
    ensures 0 <= v <= 2
    ensures s == Large ==> v == 2
  {
    match s
    case Small => 0
    case Medium => 1
    case Large => 2
  }

  /** Distinct sizes carry distinct values, so the stored value identifies the size. */
  lemma SizeValueInjective(a: BubbleSize, b: BubbleSize)
    ensures SizeValue(a) == SizeValue(b) ==> a == b
  {
  }

  /** A trait of the catalog: a culture-independent id and the localized texts. */
  datatype Trait = Trait(id: string, name: string, description: string, lowLabel: string, highLabel: string)

  /** The four texts the resource file supplies for a trait id in the current culture. */
  datatype TraitText = TraitText(name: string, description: string, lowLabel: string, highLabel: string)

  /** The stable ids, in catalog order. */
  const TraitIds: seq<string> := [
    "Warmth", "Intellect", "EmotionalStability", "Assertiveness",
    "Gregariousness", "Dutifulness", "SocialConfidence", "Sensitivity",
    "Distrust", "Imagination", "Reserve", "Anxiety",
    "Complexity", "Introversion", "Orderliness", "Emotionality"
  ]

  /** `TraitDefinitions.All`: the catalog built from the resource texts of the current
      culture (`localized` maps an id to its texts). */
  function All(localized: string -> TraitText): (r: seq<Trait>)
    ensures |r| == 16
    ensures r[0].id == "Warmth" && r[15].id == "Emotionality"
    ensures forall i, j :: 0 <= i < j < |r| ==> r[i].id != r[j].id
    ensures forall i :: 0 <= i < |r| ==>
      r[i].name == localized(r[i].id).name && r[i].lowLabel == localized(r[i].id).lowLabel
      && r[i].highLabel == localized(r[i].id).highLabel
  {
    seq(16, i requires 0 <= i < 16 =>
      var t := localized(TraitIds[i]);
      Trait(TraitIds[i], t.name, t.description, t.lowLabel, t.highLabel))
  }

  /** Switching culture changes the texts but never the ids or their order, which is why
      positions keyed by id survive a change of language. */
  lemma IdsIndependentOfCulture(a: string -> TraitText, b: string -> TraitText)
    ensures |All(a)| == |All(b)|
    ensures forall i :: 0 <= i < |All(a)| ==> All(a)[i].id == All(b)[i].id
  {
  }
}
