/**
 * Names shown by the main window: the window title, and the default name given to a new
 * character whose name was left blank. Both editions (Core/Avalonia and WPF) use the same rules.
 */
module Naming {
  import opened Wrappers
  import opened Text

  const AppTitle: string := "16Core Character Mapper"

  predicate IsSeparator(c: char) {
    c == '/' || c == '\\'
  }

  /** `Path.GetFileName`: what follows the last directory separator. */
  function FileName(path: string): (r: string)
    ensures |r| <= |path| && r == path[|path| - |r|..]
    ensures forall i :: 0 <= i < |r| ==> !IsSeparator(r[i])
    ensures |r| < |path| ==> IsSeparator(path[|path| - |r| - 1])
  {
    if path == [] then ""
    else if IsSeparator(path[|path| - 1]) then ""
    else FileName(path[..|path| - 1]) + [path[|path| - 1]]
  }

  /** `UpdateWindowTitle`: the application name, the file name (or "New Project") and a star
      when there are unsaved changes. */
  function Title(filePath: Option<string>, dirty: bool): (t: string)
    ensures |AppTitle + " - "| <= |t| && t[..|AppTitle + " - "|] == AppTitle + " - "
    ensures dirty ==> t == Title(filePath, false) + "*"
  {
    var shown := match filePath case None => "New Project" case Some(p) => FileName(p);
    AppTitle + " - " + shown + (if dirty then "*" else "")
  }

  /** The two titles of one file differ, so the title always tells whether there are unsaved
      changes. */
  lemma TitleShowsDirty(filePath: Option<string>)
    ensures Title(filePath, true) != Title(filePath, false)
  {
    assert |Title(filePath, true)| == |Title(filePath, false)| + 1;
  }

  // ---------------------------------------------------------------------------------------
  // Default character names
  // ---------------------------------------------------------------------------------------

  /**
   * Equality under `StringComparer.OrdinalIgnoreCase`, for a case fold `fold` applied
   * character by character.
   */
  predicate SameIgnoringCase(fold: char -> char, a: string, b: string) {
    |a| == |b| && forall i :: 0 <= i < |a| ==> fold(a[i]) == fold(b[i])
  }

  /** The n-th default name, "Character n". */
  function Candidate(n: nat): string {
    "Character " + Decimal(n)
  }

  /** The n-th default name is already used by a character (ignoring case). */
  predicate Taken(fold: char -> char, names: seq<string>, n: nat) {
    exists j :: 0 <= j < |names| && SameIgnoringCase(fold, names[j], Candidate(n))
  }

  function Pow10(k: nat): (p: nat)
    ensures p >= 1
  {
    if k == 0 then 1 else 10 * Pow10(k - 1)
  }

  /** A number of at least 10^k takes more than k digits. */
  lemma {:induction false} DecimalLength(n: nat, k: nat)
    requires n >= Pow10(k)
    ensures |Decimal(n)| > k
  {
    if k > 0 {
      DecimalLength(n / 10, k - 1);
    }
  }

  function MaxLength(names: seq<string>): (m: nat)
    ensures forall j :: 0 <= j < |names| ==> |names[j]| <= m
  {
    if names == [] then 0
    else
      var m := MaxLength(names[..|names| - 1]);
      var last := |names[|names| - 1]|;
      if last > m then last else m
  }

  /** Numbers with too many digits for any existing name are free. */
  lemma LongCandidatesFree(fold: char -> char, names: seq<string>, n: nat)
    requires n >= Pow10(MaxLength(names))
    ensures !Taken(fold, names, n)
  {
    DecimalLength(n, MaxLength(names));
  }

  /**
   * `AddCharacter`'s loop: the smallest n >= 1 whose "Character n" is not taken. It always ends,
   * since there are only finitely many names.
   */
  method DefaultNumber(fold: char -> char, names: seq<string>) returns (n: nat)
    ensures n >= 1 && !Taken(fold, names, n)
    ensures forall m :: 1 <= m < n ==> Taken(fold, names, m)
  {
    var bound := Pow10(MaxLength(names));
    n := 1;
    while Taken(fold, names, n)
      invariant 1 <= n <= bound
      invariant forall m :: 1 <= m < n ==> Taken(fold, names, m)
      decreases bound - n
    {
      if n >= bound {
        LongCandidatesFree(fold, names, n);
        assert false;
      }
      n := n + 1;
    }
  }

  /** The default name for a new character among `names`. */
  method DefaultName(fold: char -> char, names: seq<string>) returns (name: string)
    ensures exists n: nat :: (n >= 1 && name == Candidate(n) && !Taken(fold, names, n)
      && forall m :: 1 <= m < n ==> Taken(fold, names, m))
    ensures forall j :: 0 <= j < |names| ==> !SameIgnoringCase(fold, names[j], name)
  {
    var n := DefaultNumber(fold, names);
    name := Candidate(n);
  }
}
