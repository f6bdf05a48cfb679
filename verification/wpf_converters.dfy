/**
 * The WPF window's value converters. The tooltips cast the bound value to bool, so a value of
 * another kind is a caller error there; the other converters accept any value. The reverse
 * direction of the tooltip, header and visibility converters answers "unset", whatever it
 * is given.
 */
module WpfConverters {
  import opened Traits
  import opened Colors
  import Converters

  /** The lock button's tooltip; the bound value must be a bool. */
  function LockTooltip(v: Converters.Value): (t: string)
    requires v.BoolValue?
    ensures t == "Unlock Character" <==> v.b
    ensures t == "Lock Character" <==> !v.b
  {
    if v.b then "Unlock Character" else "Lock Character"
  }

  /** The visibility button's tooltip; the bound value must be a bool. */
  function VisibilityTooltip(v: Converters.Value): (t: string)
    requires v.BoolValue?
    ensures t == "Hide Character" <==> v.b
    ensures t == "Show Character" <==> !v.b
  {
    if v.b then "Hide Character" else "Show Character"
  }

  /** On a bool, both windows show the same tooltips. */
  lemma TooltipsAgree(b: bool)
    ensures LockTooltip(Converters.BoolValue(b)) == Converters.LockTooltip(Converters.BoolValue(b))
    ensures VisibilityTooltip(Converters.BoolValue(b)) == Converters.VisibilityTooltip(Converters.BoolValue(b))
  {
  }

  /** The list group header of a size; any other value, or an unnamed size, is "Other". */
  function GroupHeader(v: Converters.Value): (h: string)
    ensures !v.SizeBox? ==> h == "Other"
    ensures v.SizeBox? && v.v !in {0, 1, 2} ==> h == "Other"
  {
    match v
    case SizeBox(n) =>
      if n == SizeValue(Large) then "Main"
      else if n == SizeValue(Medium) then "Supporting"
      else if n == SizeValue(Small) then "Background"
      else "Other"
    case _ => "Other"
  }

  /** Both windows head their groups alike, for every bound value. */
  lemma HeadersAgree(v: Converters.Value)
    ensures GroupHeader(v) == Converters.GroupHeader(v)
  {
  }

  datatype Visibility = Visible | Hidden | Collapsed

  /** `BooleanToHiddenConverter`: visible for true, hidden (still taking space) otherwise. */
  function ToHidden(v: Converters.Value): (r: Visibility)
    ensures r == Visible <==> Converters.IsTrue(v)
    ensures r != Collapsed
  {
    if Converters.IsTrue(v) then Visible else Hidden
  }

  /**
   * `ColorToBooleanConverter`: at least two values, the first two colours, and equal. Extra
   * values are ignored.
   */
  function ColorMatch(values: seq<Converters.Value>): (m: bool)
    ensures m <==> |values| >= 2 && values[0].ColorValue? && values[1].ColorValue? && values[0].c == values[1].c
  {
    if |values| < 2 || !values[0].ColorValue? || !values[1].ColorValue? then false
    else values[0].c == values[1].c
  }

  /** A colour matches itself, and matching is symmetric. */
  lemma ColorMatchIsEquality(c1: Color, c2: Color, extra: seq<Converters.Value>)
    ensures ColorMatch([Converters.ColorValue(c1), Converters.ColorValue(c1)] + extra)
    ensures ColorMatch([Converters.ColorValue(c1), Converters.ColorValue(c2)] + extra)
        <==> ColorMatch([Converters.ColorValue(c2), Converters.ColorValue(c1)])
  {
  }

  /** What a `ConvertBack` can answer: `DependencyProperty.UnsetValue` or a source value. */
  datatype Back = Unset | Converted(value: Converters.Value)

  /** `ConvertBack` of the tooltip, header and visibility converters: never a source value. */
  function ConvertBack(v: Converters.Value): (r: Back)
    ensures !r.Converted?
  {
    Unset
  }

  /** The converters are one-way: converting a tooltip back never recovers the bool. */
  lemma ConvertBackForgets(b: bool)
    ensures ConvertBack(Converters.StringValue(LockTooltip(Converters.BoolValue(b)))) != Converted(Converters.BoolValue(b))
  {
  }
}
