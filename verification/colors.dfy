/**
 * Colours as the UI toolkits read and print them: ARGB with one byte per channel, parsed from
 * "#" followed by 3, 4, 6 or 8 hexadecimal digits (the short forms repeat each digit), and
 * printed either as the colour picker's six upper-case digits "RRGGBB", as the Avalonia
 * "#aarrggbb" (lower case) or as the WPF "#AARRGGBB" (upper case).
 */
module Colors {
  import opened Wrappers
  import opened Text

  newtype byte = x: int | 0 <= x < 256

  datatype Color = Color(a: byte, r: byte, g: byte, b: byte)

  /** `Color.FromRgb`: an opaque colour. */
  function FromRgb(r: byte, g: byte, b: byte): (c: Color)
    ensures c.a == 255 && c.r == r && c.g == g && c.b == b
  {
    Color(255, r, g, b)
  }

  const Black: Color := Color(255, 0, 0, 0)

  predicate IsHexDigit(c: char) {
    HexValue(c) >= 0
  }

  /** One lower-case hexadecimal digit, as produced by the `x8` format. */
  function LowerHexDigit(n: nat): (c: char)
    requires n < 16
    ensures HexValue(c) == n
  {
    if n < 10 then DigitChar(n) else ('a' as int + (n - 10)) as char
  }

  /** Two digits, upper or lower case, most significant first. */
  function Pair(v: byte, upper: bool): (s: string)
    ensures |s| == 2 && IsHexDigit(s[0]) && IsHexDigit(s[1])
  {
    var hi := (v as int) / 16;
    var lo := (v as int) % 16;
    HexDigitRoundTrip(hi);
    HexDigitRoundTrip(lo);
    if upper then [HexDigit(hi), HexDigit(lo)] else [LowerHexDigit(hi), LowerHexDigit(lo)]
  }

  /** The byte written by two hexadecimal digits. */
  function PairValue(hi: char, lo: char): (v: byte)
    requires IsHexDigit(hi) && IsHexDigit(lo)
  {
    (HexValue(hi) * 16 + HexValue(lo)) as byte
  }

  lemma PairRoundTrip(v: byte, upper: bool)
    ensures var s := Pair(v, upper); PairValue(s[0], s[1]) == v
  {
    HexDigitRoundTrip((v as int) / 16);
    HexDigitRoundTrip((v as int) % 16);
  }

  /** The text box of the colour picker: `{R:X2}{G:X2}{B:X2}`. */
  function HexText(c: Color): (s: string)
    ensures |s| == 6 && forall i :: 0 <= i < 6 ==> IsHexDigit(s[i])
  {
    Pair(c.r, true) + Pair(c.g, true) + Pair(c.b, true)
  }

  /** Avalonia's `Color.ToString()` for a colour without a known name: "#" and the ARGB value
      in eight lower-case digits. */
  function AvaloniaText(c: Color): (s: string)
    ensures |s| == 9 && s[0] == '#' && forall i :: 1 <= i < 9 ==> IsHexDigit(s[i])
  {
    "#" + Pair(c.a, false) + Pair(c.r, false) + Pair(c.g, false) + Pair(c.b, false)
  }

  /** WPF's `Color.ToString()`: "#" and the ARGB value in eight upper-case digits. */
  function WpfText(c: Color): (s: string)
    ensures |s| == 9 && s[0] == '#' && forall i :: 1 <= i < 9 ==> IsHexDigit(s[i])
  {
    "#" + Pair(c.a, true) + Pair(c.r, true) + Pair(c.g, true) + Pair(c.b, true)
  }

  /** Each digit of a short form written twice. */
  function Doubled(d: string): (e: string)
    ensures |e| == 2 * |d|
    ensures forall i :: 0 <= i < |d| ==> e[2 * i] == d[i] && e[2 * i + 1] == d[i]
  {
    if d == [] then [] else [d[0], d[0]] + Doubled(d[1..])
  }

  /** Six digits (opaque) or eight digits (alpha first). */
  function ParseDigits(d: string): (r: Option<Color>)
    ensures r.Some? <==> (|d| == 6 || |d| == 8) && forall i :: 0 <= i < |d| ==> IsHexDigit(d[i])
    ensures r.Some? && |d| == 6 ==> r.value.a == 255
  {
    if !(|d| == 6 || |d| == 8) || exists i :: 0 <= i < |d| && !IsHexDigit(d[i]) then None
    else if |d| == 6 then Some(Color(255, PairValue(d[0], d[1]), PairValue(d[2], d[3]), PairValue(d[4], d[5])))
    else Some(Color(PairValue(d[0], d[1]), PairValue(d[2], d[3]), PairValue(d[4], d[5]), PairValue(d[6], d[7])))
  }

  /**
   * `Color.TryParse` on "#" followed by hexadecimal digits: "#RGB" and "#ARGB" stand for
   * "#RRGGBB" and "#AARRGGBB"; any other length, a missing "#" or a non-digit fails.
   */
  function TryParse(s: string): (r: Option<Color>)
    ensures r.Some? ==> |s| in {4, 5, 7, 9} && s[0] == '#'
    ensures r.Some? && |s| in {4, 7} ==> r.value.a == 255
  {
    if |s| == 0 || s[0] != '#' then None
    else
      var d := s[1..];
      if |d| == 3 || |d| == 4 then ParseDigits(Doubled(d)) else ParseDigits(d)
  }

  /** The picker's text, with a "#" in front, reads back as the opaque colour. */
  lemma HexTextRoundTrip(c: Color)
    ensures TryParse("#" + HexText(c)) == Some(c.(a := 255))
  {
    var s := "#" + HexText(c);
    assert s[1..] == HexText(c);
    PairRoundTrip(c.r, true);
    PairRoundTrip(c.g, true);
    PairRoundTrip(c.b, true);
  }

  /** What Avalonia prints, it reads back. */
  lemma AvaloniaTextRoundTrip(c: Color)
    ensures TryParse(AvaloniaText(c)) == Some(c)
  {
    var s := AvaloniaText(c);
    assert s[1..] == Pair(c.a, false) + Pair(c.r, false) + Pair(c.g, false) + Pair(c.b, false);
    PairRoundTrip(c.a, false);
    PairRoundTrip(c.r, false);
    PairRoundTrip(c.g, false);
    PairRoundTrip(c.b, false);
  }

  /** What WPF prints, it reads back. */
  lemma WpfTextRoundTrip(c: Color)
    ensures TryParse(WpfText(c)) == Some(c)
  {
    var s := WpfText(c);
    assert s[1..] == Pair(c.a, true) + Pair(c.r, true) + Pair(c.g, true) + Pair(c.b, true);
    PairRoundTrip(c.a, true);
    PairRoundTrip(c.r, true);
    PairRoundTrip(c.g, true);
    PairRoundTrip(c.b, true);
  }

  /**
   * The toolkit's table of named colours ("Black", "SeaShell", ...): the name Avalonia's
   * `Color.ToString()` prints for a colour that has one, and the colour `Color.TryParse` reads
   * for a name. The table itself belongs to the toolkit and is a parameter here.
   */
  datatype KnownColors = KnownColors(nameOf: map<Color, string>, colorOf: map<string, Color>)

  /** What the toolkit's table guarantees: a printed name reads back as its colour, and no
      name is empty or starts with "#". */
  predicate Coherent(kc: KnownColors)
  {
    && (forall c :: c in kc.nameOf ==> kc.nameOf[c] in kc.colorOf && kc.colorOf[kc.nameOf[c]] == c)
    && (forall n :: n in kc.colorOf ==> |n| > 0 && n[0] != '#')
  }

  /** Avalonia's `Color.ToString()`: the colour's known name when it has one, otherwise the
      hexadecimal form. */
  function ColorText(kc: KnownColors, c: Color): (s: string)
    ensures c in kc.nameOf ==> s == kc.nameOf[c]
    ensures c !in kc.nameOf ==> s == AvaloniaText(c)
  {
    if c in kc.nameOf then kc.nameOf[c] else AvaloniaText(c)
  }

  /** Avalonia's `Color.TryParse`: the hexadecimal forms first, then a known name. */
  function TryParseNamed(kc: KnownColors, s: string): (r: Option<Color>)
    ensures TryParse(s).Some? ==> r == TryParse(s)
    ensures TryParse(s).None? && s in kc.colorOf ==> r == Some(kc.colorOf[s])
    ensures r.None? <==> TryParse(s).None? && s !in kc.colorOf
  {
    if TryParse(s).Some? then TryParse(s)
    else if s in kc.colorOf then Some(kc.colorOf[s])
    else None
  }

  /** On text starting with "#" the named lookup adds nothing. */
  lemma TryParseNamedOnHex(kc: KnownColors, s: string)
    requires Coherent(kc)
    requires |s| > 0 && s[0] == '#'
    ensures TryParseNamed(kc, s) == TryParse(s)
  {
  }

  /** What Avalonia prints, named or not, it reads back. */
  lemma ColorTextRoundTrip(kc: KnownColors, c: Color)
    requires Coherent(kc)
    ensures TryParseNamed(kc, ColorText(kc, c)) == Some(c)
  {
    if c in kc.nameOf {
      var n := kc.nameOf[c];
      assert n in kc.colorOf;
      assert TryParse(n).None?;
    } else {
      AvaloniaTextRoundTrip(c);
    }
  }

  /** The short form "#RGB" is the long form with every digit doubled. */
  lemma ShortFormExpands(d: string)
    requires |d| == 3
    ensures TryParse("#" + d) == TryParse("#" + Doubled(d))
  {
    assert ("#" + d)[1..] == d;
    assert ("#" + Doubled(d))[1..] == Doubled(d);
  }
}
