/**
 * The WPF main window's character list and trait lines: reordering by drag and drop, the
 * default positions drawn for visible characters, and dragging a bubble along a trait line.
 * Positions are keyed by the trait's display name.
 */
module WpfList {
  import opened Traits
  import opened WpfModel
  import Ordering

  function Slots(cs: seq<Character>): (s: seq<Ordering.Slot>)
    ensures |s| == |cs|
    ensures forall i :: 0 <= i < |cs| ==> s[i] == Ordering.Slot(cs[i].size, cs[i].displayOrder)
  {
    seq(|cs|, i requires 0 <= i < |cs| => Ordering.Slot(cs[i].size, cs[i].displayOrder))
  }

  function WriteBack(cs: seq<Character>, s: seq<Ordering.Slot>): (r: seq<Character>)
    requires |s| == |cs|
    ensures |r| == |cs|
    ensures forall i :: 0 <= i < |cs| ==> r[i] == cs[i].(displayOrder := s[i].order)
  {
    seq(|cs|, i requires 0 <= i < |cs| => cs[i].(displayOrder := s[i].order))
  }

  predicate OnlyOrdersChange(cs: seq<Character>, r: seq<Character>) {
    |r| == |cs| && forall i :: 0 <= i < |cs| ==> r[i] == cs[i].(displayOrder := r[i].displayOrder)
  }

  /** Character `g[k]` has display order `k`, for every position `k` of `g`. */
  predicate NumberedAs(cs: seq<Character>, g: seq<nat>) {
    forall k :: 0 <= k < |g| ==> g[k] < |cs| && cs[g[k]].displayOrder == k
  }

  /** Writing back orders that number `g` numbers `g` in the characters, changes orders
      only, and leaves characters whose slot is unchanged as they were. */
  lemma WriteBackNumbers(cs: seq<Character>, o: seq<Ordering.Slot>, g: seq<nat>)
    requires |o| == |cs|
    requires forall k :: 0 <= k < |g| ==> g[k] < |o| && o[g[k]].order == k
    ensures OnlyOrdersChange(cs, WriteBack(cs, o))
    ensures NumberedAs(WriteBack(cs, o), g)
    ensures forall i :: 0 <= i < |cs| && o[i] == Slots(cs)[i] ==> WriteBack(cs, o)[i] == cs[i]
  {
    var r := WriteBack(cs, o);
    forall k | 0 <= k < |g| ensures r[g[k]].displayOrder == k {
      assert r[g[k]] == cs[g[k]].(displayOrder := o[g[k]].order);
    }
  }

  /** `PerformReorder` (the second component: whether the project was marked dirty). */
  function PerformReorder(cs: seq<Character>, dropped: nat, target: nat, insertAfter: bool)
    : (r: (seq<Character>, bool))
    requires dropped < |cs| && target < |cs|
    ensures OnlyOrdersChange(cs, r.0)
    ensures cs[dropped].size != cs[target].size ==> r == (cs, false)
    ensures cs[dropped].size == cs[target].size ==>
      r.1 && NumberedAs(r.0, Ordering.Reordered(Slots(cs), dropped, target, insertAfter))
    ensures forall i :: 0 <= i < |cs| && cs[i].size != cs[dropped].size ==> r.0[i] == cs[i]
  {
    if cs[dropped].size != cs[target].size then (cs, false)
    else
      var s := Slots(cs);
      var o := Ordering.PerformReorder(s, dropped, target, insertAfter);
      WriteBackNumbers(cs, o, Ordering.Reordered(s, dropped, target, insertAfter));
      (WriteBack(cs, o), true)
  }

  /** Where a drag ended: on a list item (and in which half), or away from every item. */
  datatype DropSpot = OnItem(target: nat, insertAfter: bool) | Elsewhere

  /**
   * `CharactersList_Drop`: a drop on another character reorders; a drop away from every item,
   * or on the dragged character itself, moves the dragged character to the end of its size
   * group and renumbers that group. There is no check of the list's size here: the WPF window
   * has a single list.
   */
  function Drop(cs: seq<Character>, dropped: nat, spot: DropSpot): (r: (seq<Character>, bool))
    requires dropped < |cs| && (spot.OnItem? ==> spot.target < |cs|)
    ensures OnlyOrdersChange(cs, r.0)
    ensures spot.OnItem? && spot.target != dropped ==>
      r == PerformReorder(cs, dropped, spot.target, spot.insertAfter)
    ensures !(spot.OnItem? && spot.target != dropped) ==>
      r.1 && NumberedAs(r.0, Ordering.Rest(Slots(cs), dropped) + [dropped])
  {
    if spot.OnItem? && spot.target != dropped then
      PerformReorder(cs, dropped, spot.target, spot.insertAfter)
    else MoveToEnd(cs, dropped)
  }

  /** The drop fallback: to the end of the group, which is renumbered; marks dirty. */
  function MoveToEnd(cs: seq<Character>, dropped: nat): (r: (seq<Character>, bool))
    requires dropped < |cs|
    ensures OnlyOrdersChange(cs, r.0) && r.1
    ensures NumberedAs(r.0, Ordering.Rest(Slots(cs), dropped) + [dropped])
  {
    var s := Slots(cs);
    Ordering.ReorderOntoAbsentAppends(s, dropped, dropped, false);
    Ordering.MoveToEndIsReorderOntoItself(s, dropped, false);
    WriteBackNumbers(cs, Ordering.MoveToEnd(s, dropped), Ordering.Rest(s, dropped) + [dropped]);
    (WriteBack(cs, Ordering.MoveToEnd(s, dropped)), true)
  }

  /** The fallback drop is the same as a reorder onto the dragged character itself. */
  lemma DropElsewhereIsReorderOntoItself(cs: seq<Character>, dropped: nat, insertAfter: bool)
    requires dropped < |cs|
    ensures Drop(cs, dropped, Elsewhere) == PerformReorder(cs, dropped, dropped, insertAfter)
  {
    Ordering.MoveToEndIsReorderOntoItself(Slots(cs), dropped, insertAfter);
  }

  // ---------------------------------------------------------------------------------------
  // Trait lines
  // ---------------------------------------------------------------------------------------

  /** Adds 0.5 under every name in `names` that has no position yet. */
  function FillDefaults(m: map<string, real>, names: seq<string>): (r: map<string, real>)
    ensures r.Keys == m.Keys + set k | 0 <= k < |names| :: names[k]
    ensures forall k :: 0 <= k < |names| ==> names[k] in r
    ensures forall n :: n in m ==> r[n] == m[n]
    ensures forall n :: n in r && n !in m ==> r[n] == 0.5
  {
    if names == [] then m
    else
      var n := names[|names| - 1];
      var init := FillDefaults(m, names[..|names| - 1]);
      assert forall k :: 0 <= k < |names| - 1 ==> names[..|names| - 1][k] == names[k];
      if n in init then init else init[n := 0.5]
  }

  /**
   * The default positions `RedrawAllTraits` stores while drawing: every visible character gets
   * 0.5 under each trait name it has no position for; hidden characters are skipped.
   */
  function RedrawDefaults(cs: seq<Character>, traits: seq<Trait>): (r: seq<Character>)
    ensures |r| == |cs|
    ensures forall i :: 0 <= i < |cs| && !cs[i].isVisible ==> r[i] == cs[i]
    ensures forall i :: 0 <= i < |cs| ==> r[i] == cs[i].(traitPositions := r[i].traitPositions)
    ensures forall i, k :: 0 <= i < |cs| && 0 <= k < |traits| && cs[i].isVisible ==>
      traits[k].name in r[i].traitPositions
    ensures forall i, n :: 0 <= i < |cs| && n in cs[i].traitPositions ==>
      n in r[i].traitPositions && r[i].traitPositions[n] == cs[i].traitPositions[n]
  {
    var names := seq(|traits|, k requires 0 <= k < |traits| => traits[k].name);
    var r := seq(|cs|, i requires 0 <= i < |cs| =>
      if cs[i].isVisible then cs[i].(traitPositions := FillDefaults(cs[i].traitPositions, names))
      else cs[i]);
    assert forall i, k :: 0 <= i < |cs| && 0 <= k < |traits| && cs[i].isVisible ==>
      traits[k].name in r[i].traitPositions by {
      forall i, k | 0 <= i < |cs| && 0 <= k < |traits| && cs[i].isVisible
        ensures traits[k].name in r[i].traitPositions {
        assert names[k] == traits[k].name;
      }
    }
    r
  }

  /** Redrawing again adds nothing. */
  lemma RedrawDefaultsIdempotent(cs: seq<Character>, traits: seq<Trait>)
    ensures RedrawDefaults(RedrawDefaults(cs, traits), traits) == RedrawDefaults(cs, traits)
  {
    var r := RedrawDefaults(cs, traits);
    var rr := RedrawDefaults(r, traits);
    forall i | 0 <= i < |cs| ensures rr[i] == r[i] {
      if cs[i].isVisible {
        assert rr[i].traitPositions.Keys == r[i].traitPositions.Keys;
        assert rr[i].traitPositions == r[i].traitPositions;
      }
    }
  }

  /** `Math.Max(lo, Math.Min(hi, x))`. */
  function Clamp(x: real, lo: real, hi: real): real {
    if x > hi then (if hi < lo then lo else hi) else if x < lo then lo else x
  }

  /**
   * `Canvas_MouseMove`: the position a drag writes. `mouseX` is the mouse's x on the line,
   * `grab` where inside the bubble it was grabbed, `width` the line's width and `bubble` the
   * bubble's diameter. The bubble's left edge is kept inside the line; the ratio of the left
   * edge to the free length is clamped to [0, 1], and is 0.5 when the free length is zero (a
   * 0/0 division, whose result is not finite).
   */
  function DragPosition(mouseX: real, grab: real, width: real, bubble: real): (p: real)
    ensures 0.0 <= p <= 1.0
    ensures var free := (if width < 1.0 then 1.0 else width) - bubble;
      (free == 0.0 ==> p == 0.5)
      && (free < 0.0 ==> p == 0.0)
      && (free > 0.0 && 0.0 <= mouseX - grab <= free ==> p * free == mouseX - grab)
      && (free > 0.0 && mouseX - grab < 0.0 ==> p == 0.0)
      && (free > 0.0 && mouseX - grab > free ==> p == 1.0)
  {
    var usable := if width < 1.0 then 1.0 else width;
    var free := usable - bubble;
    var left := Clamp(mouseX - grab, 0.0, free);
    if free == 0.0 then 0.5
    else
      var ratio := left / free;
      assert free > 0.0 ==> 0.0 <= ratio <= 1.0 && ratio * free == left by {
        if free > 0.0 { RatioFacts(left, free); }
      }
      Clamp(ratio, 0.0, 1.0)
  }

  lemma RatioFacts(left: real, free: real)
    requires 0.0 < free && 0.0 <= left <= free
    ensures 0.0 <= left / free <= 1.0 && (left / free) * free == left
  {
  }

  /** Only an unlocked bubble can be picked up: the topmost bubble under the mouse that is
      not locked. `hit[i]` says whether the i-th drawn bubble is under the mouse; later
      bubbles are drawn on top. */
  function PickBubble(hit: seq<bool>, locked: seq<bool>): (r: Option)
    requires |hit| == |locked|
    ensures r.Some? ==> r.index < |hit| && hit[r.index] && !locked[r.index]
    ensures r.Some? ==> forall j :: r.index < j < |hit| ==> !(hit[j] && !locked[j])
    ensures r.None? <==> forall j :: 0 <= j < |hit| ==> !(hit[j] && !locked[j])
  {
    if hit == [] then None
    else
      var last := |hit| - 1;
      if hit[last] && !locked[last] then Some(last)
      else PickBubble(hit[..last], locked[..last])
  }

  datatype Option = None | Some(index: nat)

  /** A drag writes the new position under the trait's name and nothing else. */
  function Drag(c: Character, traitName: string, mouseX: real, grab: real, width: real, bubble: real)
    : (r: Character)
    ensures r == c.(traitPositions := r.traitPositions)
    ensures traitName in r.traitPositions && 0.0 <= r.traitPositions[traitName] <= 1.0
    ensures forall n :: n != traitName ==>
      (n in r.traitPositions <==> n in c.traitPositions)
      && (n in c.traitPositions ==> r.traitPositions[n] == c.traitPositions[n])
  {
    c.(traitPositions := c.traitPositions[traitName := DragPosition(mouseX, grab, width, bubble)])
  }
}
