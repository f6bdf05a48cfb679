/**
 * The cross-platform window's value converters: small functions from a bound value (of any
 * type, possibly null) to a text, an opacity, a font weight, a brush, a match flag or an icon.
 * Bound values are modelled as a tagged union of the kinds the bindings supply.
 */
module Converters {
  import opened Wrappers
  import opened Traits
  import opened Colors
  import EditCharacter

  /** A bound value: a boxed bool, a boxed `BubbleSize` (by its integer), a string, a colour,
      a colour preset, null, or anything else. */
  datatype Value =
    | BoolValue(b: bool)
    | SizeBox(v: int)
    | StringValue(s: string)
    | ColorValue(c: Color)
    | ColorItemValue(item: EditCharacter.ColorItem)
    | Null
    | OtherValue

  /** A boxed `BubbleSize`. */
  function Box(s: BubbleSize): Value {
    SizeBox(SizeValue(s))
  }

  /** `value is bool b && b`: only a boxed true reads as true. */
  predicate IsTrue(v: Value) {
    v == BoolValue(true)
  }

  /** The lock button's tooltip. */
  function LockTooltip(v: Value): (t: string)
    ensures t == "Unlock Character" <==> IsTrue(v)
    ensures t == "Lock Character" <==> !IsTrue(v)
  {
    if IsTrue(v) then "Unlock Character" else "Lock Character"
  }

  /** The visibility button's tooltip. */
  function VisibilityTooltip(v: Value): (t: string)
    ensures t == "Hide Character" <==> IsTrue(v)
    ensures t == "Show Character" <==> !IsTrue(v)
  {
    if IsTrue(v) then "Hide Character" else "Show Character"
  }

  /** The list group header of a size; a value that is no size, or no named size, is "Other". */
  function GroupHeader(v: Value): (h: string)
    ensures !v.SizeBox? ==> h == "Other"
    ensures v.SizeBox? && v.v !in {0, 1, 2} ==> h == "Other"
  {
    match v
    case SizeBox(n) =>
      if n == SizeValue(Large) then "Main"
      else if n == SizeValue(Medium) then "Supporting"
      else if n == SizeValue(Small) then "Background"
      else "Other"
    case _ => "Other"
  }

  /** The three sizes get three different headers, none of them "Other". */
  lemma HeadersOfSizes()
    ensures GroupHeader(Box(Large)) == "Main"
    ensures GroupHeader(Box(Medium)) == "Supporting"
    ensures GroupHeader(Box(Small)) == "Background"
  {
  }

  /** Opacity of a shown-or-hidden element: 1 for true, 0 otherwise. */
  function Opacity(v: Value): (o: real)
    ensures o == 1.0 <==> IsTrue(v)
    ensures o == 0.0 <==> !IsTrue(v)
  {
    if IsTrue(v) then 1.0 else 0.0
  }

  /** Opacity of a dimmed element: 1 for true, one half otherwise. */
  function DimOpacity(v: Value): (o: real)
    ensures o == 1.0 <==> IsTrue(v)
    ensures o == 0.5 <==> !IsTrue(v)
  {
    if IsTrue(v) then 1.0 else 0.5
  }

  /** A dimmed element is never invisible, and never more visible than a plain one reads as. */
  lemma DimNeverHides(v: Value)
    ensures Opacity(v) <= DimOpacity(v) && DimOpacity(v) > 0.0
  {
  }

  datatype FontWeight = BoldWeight | MediumWeight

  /** Bold for true, medium otherwise. */
  function Weight(v: Value): (w: FontWeight)
    ensures w == BoldWeight <==> IsTrue(v)
  {
    if IsTrue(v) then BoldWeight else MediumWeight
  }

  datatype Brush = Solid(color: Color) | Transparent

  /**
   * `HexToBrushConverter`: a non-empty string that `Brush.Parse` reads (a hexadecimal form or
   * a known colour name) gives that colour's brush; anything else (no string, an empty one, a
   * parse failure) gives the transparent brush.
   */
  function HexToBrush(kc: KnownColors, v: Value): (b: Brush)
    ensures b.Solid? <==> v.StringValue? && v.s != "" && TryParseNamed(kc, v.s).Some?
    ensures b.Solid? ==> b.color == TryParseNamed(kc, v.s).value
  {
    match v
    case StringValue(s) =>
      if s != "" then
        match TryParseNamed(kc, s)
        case Some(c) => Solid(c)
        case None => Transparent
      else Transparent
    case _ => Transparent
  }

  /** A colour printed the Avalonia way, by name or in hexadecimal, is painted as itself. */
  lemma HexToBrushOfPrinted(kc: KnownColors, c: Color)
    requires Coherent(kc)
    ensures HexToBrush(kc, StringValue(ColorText(kc, c))) == Solid(c)
  {
    ColorTextRoundTrip(kc, c);
  }

  /**
   * `ColorToBooleanConverter`: exactly two values, a preset and a colour, whose hex parses to
   * that colour.
   */
  function ColorMatch(values: seq<Value>): (m: bool)
    ensures m <==> |values| == 2 && values[0].ColorItemValue? && values[1].ColorValue?
                   && TryParse(values[0].item.hex) == Some(values[1].c)
  {
    if |values| == 2 && values[0].ColorItemValue? && values[1].ColorValue? then
      match TryParse(values[0].item.hex)
      case Some(c) => c == values[1].c
      case None => false
    else false
  }

  /** At most one colour matches a preset. */
  lemma ColorMatchIsUnique(item: EditCharacter.ColorItem, c1: Color, c2: Color)
    requires ColorMatch([ColorItemValue(item), ColorValue(c1)])
    requires ColorMatch([ColorItemValue(item), ColorValue(c2)])
    ensures c1 == c2
  {
  }

  /** The two icon kinds the status icon converter knows, by their parameter text. */
  function IconKind(parameter: Value): (k: Option<bool>)
    ensures k.Some? <==> parameter == StringValue("Lock") || parameter == StringValue("Visibility")
    ensures k == Some(true) <==> parameter == StringValue("Lock")
  {
    if parameter == StringValue("Lock") then Some(true)
    else if parameter == StringValue("Visibility") then Some(false)
    else None
  }

  /** The icon file's base name: lock/unlock for the lock icon, eye_open/eye_closed otherwise. */
  function IconName(isLock: bool, status: bool): string {
    if isLock then (if status then "lock" else "unlock")
    else (if status then "eye_open" else "eye_closed")
  }

  /** The icon's asset address. */
  function IconPath(isLock: bool, status: bool, isDarkMode: bool): string {
    "avares://SixteenCoreCharacterMapper.Avalonia/Assets/" + IconName(isLock, status) + "_"
      + (if isDarkMode then "dark" else "light") + ".png"
  }

  /** A loaded icon image, known by the address it was loaded from. */
  datatype Bitmap = Bitmap(path: string)

  /**
   * `StatusIconConverter`: `values` are the status and the dark-mode flag, `parameter` the
   * icon kind. Fewer than two values, a parameter that is no string or names no known kind
   * give nothing. Otherwise the icon's address is looked up in the cache; on a miss the image
   * is loaded (`loads` says whether loading succeeds) and cached, and a failed load gives
   * nothing and caches nothing. Returns the image and the cache afterwards.
   */
  function StatusIcon(values: seq<Value>, parameter: Value, cache: map<string, Bitmap>, loads: bool)
    : (r: (Option<Bitmap>, map<string, Bitmap>))
    ensures |values| < 2 || IconKind(parameter).None? ==> r == (None, cache)
    ensures r.0.Some? ==> |values| >= 2 && IconKind(parameter).Some?
    ensures r.0.Some? ==> var path := IconPath(IconKind(parameter).value, IsTrue(values[0]), IsTrue(values[1]));
      path in r.1 && r.1[path] == r.0.value
      && (path in cache ==> r.0.value == cache[path] && r.1 == cache)
      && (path !in cache ==> r.0.value == Bitmap(path) && r.1 == cache[path := Bitmap(path)])
    ensures r.0.None? ==> r.1 == cache
    ensures |values| >= 2 && IconKind(parameter).Some? && r.0.None? ==>
      !loads && IconPath(IconKind(parameter).value, IsTrue(values[0]), IsTrue(values[1])) !in cache
  {
    if |values| < 2 then (None, cache)
    else
      match IconKind(parameter)
      case None => (None, cache)
      case Some(isLock) =>
        var path := IconPath(isLock, IsTrue(values[0]), IsTrue(values[1]));
        if path in cache then (Some(cache[path]), cache)
        else if loads then (Some(Bitmap(path)), cache[path := Bitmap(path)])
        else (None, cache)
  }

  /** Once an icon was served, asking again serves the same image from the cache, whether or
      not loading would succeed, and leaves the cache as it is. */
  lemma StatusIconCached(values: seq<Value>, parameter: Value, cache: map<string, Bitmap>, loads: bool, again: bool)
    requires StatusIcon(values, parameter, cache, loads).0.Some?
    ensures var first := StatusIcon(values, parameter, cache, loads);
      StatusIcon(values, parameter, first.1, again) == first
  {
  }

  /** The vector shapes of `StatusToGeometryConverter`. */
  datatype Geometry = Locked | Unlocked | EyeOpen | EyeClosed

  /** `StatusToGeometryConverter`: the shape for a boolean status and a known icon kind. */
  function StatusGeometry(value: Value, parameter: Value): (g: Option<Geometry>)
    ensures g.Some? <==> value.BoolValue? && IconKind(parameter).Some?
  {
    if value.BoolValue? then
      match IconKind(parameter)
      case Some(true) => Some(if value.b then Locked else Unlocked)
      case Some(false) => Some(if value.b then EyeOpen else EyeClosed)
      case None => None
    else None
  }

  /** The icon file a shape corresponds to. */
  function GeometryName(g: Geometry): string {
    match g
    case Locked => "lock"
    case Unlocked => "unlock"
    case EyeOpen => "eye_open"
    case EyeClosed => "eye_closed"
  }

  /** The shape and the icon image agree for every boolean status. */
  lemma GeometryAgreesWithIcon(b: bool, parameter: Value)
    requires IconKind(parameter).Some?
    ensures GeometryName(StatusGeometry(BoolValue(b), parameter).value) == IconName(IconKind(parameter).value, b)
  {
  }

  /** `BooleanToIconBrushConverter`: light grey in dark mode, mid grey otherwise. */
  function IconBrush(v: Value): (b: Brush)
    ensures b.Solid? && b.color.a == 255
    ensures IsTrue(v) <==> b == Solid(FromRgb(0xD3, 0xD3, 0xD3))
    ensures !IsTrue(v) <==> b == Solid(FromRgb(0x80, 0x80, 0x80))
  {
    if IsTrue(v) then Solid(FromRgb(0xD3, 0xD3, 0xD3)) else Solid(FromRgb(0x80, 0x80, 0x80))
  }
}
