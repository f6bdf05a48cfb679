/**
 * The Avalonia colour picker: a selected colour shown on three sliders (red, green, blue)
 * and in a six-digit text box. Setting the colour from code refreshes sliders and text box
 * without feeding back into the colour; the user changes the colour by moving a slider or by
 * typing hexadecimal digits.
 */
module ColorPicker {
  import opened Wrappers
  import opened Text
  import opened Colors

  datatype Picker = Picker(color: Color, red: real, green: real, blue: real, text: string)

  /** Sliders and text box show the selected colour. */
  predicate Shows(p: Picker) {
    p.red == p.color.r as real && p.green == p.color.g as real && p.blue == p.color.b as real
    && p.text == HexText(p.color)
  }

  /**
   * Assigning `SelectedColor`: a change notification is raised only when the colour differs,
   * and its handler writes the sliders and the text box.
   */
  function SetColor(p: Picker, c: Color): (r: Picker)
    ensures r.color == c
    ensures c == p.color ==> r == p
    ensures c != p.color ==> Shows(r)
  {
    if c == p.color then p
    else Picker(c, c.r as real, c.g as real, c.b as real, HexText(c))
  }

  /** A new picker: black, shown. */
  function Initial(): (p: Picker)
    ensures p.color == Black && Shows(p)
  {
    Picker(Black, 0.0, 0.0, 0.0, "000000")
  }

  /** A colour shown stays shown when it is assigned again or replaced. */
  lemma SetColorShows(p: Picker, c: Color)
    requires Shows(p)
    ensures Shows(SetColor(p, c))
  {
  }

  /** The text the hexadecimal input is read from: trimmed, and given a "#" when it has none. */
  function HexInput(text: string): (raw: string)
    ensures |raw| >= 1 && raw[0] == '#'
    ensures var t := Trim(text);
      (|t| > 0 && t[0] == '#' ==> raw == t) && (!(|t| > 0 && t[0] == '#') ==> raw == "#" + t)
  {
    var t := Trim(text);
    if |t| > 0 && t[0] == '#' then t else "#" + t
  }

  /**
   * `UpdateColorFromHex` (on Enter, on leaving the box, or when six characters have been
   * typed): a blank box does nothing; otherwise the trimmed text with a leading "#" is parsed
   * when it is four or seven characters long, and a successful parse selects the colour.
   */
  function UpdateFromHex(p: Picker): (r: Picker)
    ensures IsBlank(p.text) ==> r == p
    ensures !IsBlank(p.text) && |HexInput(p.text)| in {4, 7} && TryParse(HexInput(p.text)).Some? ==>
      r == SetColor(p, TryParse(HexInput(p.text)).value)
    ensures r != p ==> r.color.a == 255
    ensures r == p || r.color != p.color
  {
    if IsBlank(p.text) then p
    else
      var raw := HexInput(p.text);
      if |raw| == 4 || |raw| == 7 then
        match TryParse(raw)
        case Some(c) => SetColor(p, c)
        case None => p
      else p
  }

  /** The user types: the box takes the text, and six characters are read at once. */
  function Typed(p: Picker, text: string): (r: Picker)
    ensures r.text == text || r.color != p.color
    ensures |text| != 6 ==> r == p.(text := text)
    ensures |text| == 6 ==> r == UpdateFromHex(p.(text := text))
  {
    var q := p.(text := text);
    if |text| == 6 then UpdateFromHex(q) else q
  }

  /** Typing six hexadecimal digits selects that opaque colour. */
  lemma TypingSixDigitsSelects(p: Picker, c: Color)
    ensures Typed(p, HexText(c)).color == c.(a := 255)
  {
    var t := HexText(c);
    HexTextNoSpace(c);
    TrimOfNoSpace(t);
    assert HexInput(t) == "#" + t;
    HexTextRoundTrip(c);
    var q := p.(text := t);
    assert |t| == 6 && |HexInput(q.text)| == 7;
    assert UpdateFromHex(q) == SetColor(q, c.(a := 255));
  }

  /** The picker's hex text is six characters, none of them white space or "#". */
  lemma HexTextNoSpace(c: Color)
    ensures |HexText(c)| == 6 && !IsBlank(HexText(c)) && HexText(c)[0] != '#'
    ensures forall i :: 0 <= i < |HexText(c)| ==> !IsWhiteSpace(HexText(c)[i])
  {
    var t := HexText(c);
    forall i | 0 <= i < |t| ensures !IsWhiteSpace(t[i]) {
      assert IsHexDigit(t[i]);
    }
    assert !IsWhiteSpace(t[0]);
  }

  /** A text without white space is its own trimmed form. */
  lemma TrimOfNoSpace(t: string)
    requires forall i :: 0 <= i < |t| ==> !IsWhiteSpace(t[i])
    ensures Trim(t) == t
  {
    if t != [] {
      assert !IsWhiteSpace(t[0]) && !IsWhiteSpace(t[|t| - 1]);
    }
    assert TrimStart(t) == t;
    assert TrimEnd(t) == t;
  }

  /** Re-reading the text box of a shown opaque colour changes nothing. */
  lemma ShownTextIsStable(p: Picker)
    requires Shows(p) && p.color.a == 255
    ensures UpdateFromHex(p) == p
  {
    TypingSixDigitsSelects(p, p.color);
  }

  /** `(byte)slider.Value`: the cast truncates toward zero; the sliders run from 0 to 255. */
  function Truncate(v: real): (b: byte)
    requires 0.0 <= v < 256.0
    ensures b as real <= v < b as real + 1.0
  {
    v.Floor as byte
  }

  /** A slider moved by the user: the three sliders give the new opaque colour. */
  function SliderMoved(p: Picker, red: real, green: real, blue: real): (r: Picker)
    requires 0.0 <= red < 256.0 && 0.0 <= green < 256.0 && 0.0 <= blue < 256.0
    ensures r.color == FromRgb(Truncate(red), Truncate(green), Truncate(blue))
    ensures r.color != p.color ==> Shows(r)
  {
    SetColor(p.(red := red, green := green, blue := blue), FromRgb(Truncate(red), Truncate(green), Truncate(blue)))
  }

  /** Sliders on whole values give exactly the colour they show. */
  lemma WholeSlidersKeepColor(p: Picker)
    requires Shows(p) && p.color.a == 255
    ensures SliderMoved(p, p.red, p.green, p.blue) == p
  {
  }
}
