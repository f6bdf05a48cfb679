/**
 * The export selection window: it lists the project's characters, each with a check box, and
 * returns the characters to export — all of them, those of one size category, or the checked
 * ones — or nothing when cancelled. Every answer keeps the project's order.
 */
module ExportSelection {
  import opened Wrappers
  import opened Traits
  import opened Models

  datatype Item = Item(character: Character, isSelected: bool)

  /** The three radio buttons; `Category` carries the size combo box's selected index. */
  datatype Mode = AllCharacters | Category(index: int) | SelectCharacters

  /** The window's list: every character, every check box ticked. */
  function Open(cs: seq<Character>): (items: seq<Item>)
    ensures |items| == |cs|
    ensures forall i :: 0 <= i < |cs| ==> items[i] == Item(cs[i], true)
  {
    seq(|cs|, i requires 0 <= i < |cs| => Item(cs[i], true))
  }

  /** The user ticks or clears the check box of item `i`. */
  function SetSelected(items: seq<Item>, i: nat, selected: bool): (r: seq<Item>)
    requires i < |items|
    ensures |r| == |items| && r[i] == items[i].(isSelected := selected)
    ensures forall j :: 0 <= j < |items| && j != i ==> r[j] == items[j]
  {
    items[i := items[i].(isSelected := selected)]
  }

  /** The size a combo box index stands for: 0 Main, 1 Supporting, 2 Background, else Main. */
  function CategorySize(index: int): (s: BubbleSize)
    ensures s == Medium <==> index == 1
    ensures s == Small <==> index == 2
  {
    match index
    case 0 => Large
    case 1 => Medium
    case 2 => Small
    case _ => Large
  }

  /** Whether the export keeps an item in the given mode. */
  predicate Kept(mode: Mode, it: Item) {
    match mode
    case AllCharacters => true
    case Category(index) => it.character.size == CategorySize(index)
    case SelectCharacters => it.isSelected
  }

  /**
   * `Export_Click`: the characters the window closes with, `items.Where(kept).Select(i =>
   * i.Character)` for the mode's filter.
   */
  function Export(items: seq<Item>, mode: Mode): (r: seq<Character>)
    ensures |r| <= |items|
    ensures forall c :: c in r ==> exists i :: 0 <= i < |items| && Kept(mode, items[i]) && items[i].character == c
  {
    if items == [] then []
    else
      var rest := Export(items[1..], mode);
      assert forall c :: c in rest ==> exists i :: 0 <= i < |items| && Kept(mode, items[i]) && items[i].character == c by {
        forall c | c in rest ensures exists i :: 0 <= i < |items| && Kept(mode, items[i]) && items[i].character == c {
          var j :| 0 <= j < |items[1..]| && Kept(mode, items[1..][j]) && items[1..][j].character == c;
          assert items[j + 1] == items[1..][j];
        }
      }
      (if Kept(mode, items[0]) then [items[0].character] else []) + rest
  }

  /** What the window closes with: the export on the export button, nothing on cancel. */
  function Close(items: seq<Item>, mode: Mode, exported: bool): (r: Option<seq<Character>>)
    ensures r.Some? <==> exported
    ensures exported ==> r.value == Export(items, mode)
  {
    if exported then Some(Export(items, mode)) else None
  }

  /** The indices are strictly increasing. */
  predicate Increasing(idx: seq<nat>) {
    forall a, b :: 0 <= a < b < |idx| ==> idx[a] < idx[b]
  }

  /** The indices of the kept items, in increasing order. */
  function KeptIndices(items: seq<Item>, mode: Mode): seq<nat>
  {
    if items == [] then []
    else
      var rest := KeptIndices(items[1..], mode);
      (if Kept(mode, items[0]) then [0] else []) + seq(|rest|, k requires 0 <= k < |rest| => rest[k] + 1)
  }

  /** `r` is `items`' characters at the indices `idx`, in that order. */
  predicate PickedAt(r: seq<Character>, items: seq<Item>, idx: seq<nat>) {
    |r| == |idx| && forall k :: 0 <= k < |idx| ==> idx[k] < |items| && r[k] == items[idx[k]].character
  }

  /** The kept indices are in range and strictly increasing. */
  lemma {:induction false} KeptIndicesIncreasing(items: seq<Item>, mode: Mode)
    ensures var idx := KeptIndices(items, mode);
      Increasing(idx) && forall k :: 0 <= k < |idx| ==> idx[k] < |items|
    decreases |items|
  {
    if items != [] {
      var tail := items[1..];
      KeptIndicesIncreasing(tail, mode);
      var rest := KeptIndices(tail, mode);
      var head: seq<nat> := if Kept(mode, items[0]) then [0] else [];
      var shifted := seq(|rest|, k requires 0 <= k < |rest| => rest[k] + 1);
      var idx := head + shifted;
      assert idx == KeptIndices(items, mode);
      forall k | 0 <= k < |idx|
        ensures idx[k] < |items| && (k >= |head| ==> idx[k] == rest[k - |head|] + 1)
      {
        if k >= |head| {
          assert idx[k] == shifted[k - |head|];
        }
      }
      forall a, b | 0 <= a < b < |idx|
        ensures idx[a] < idx[b]
      {
        if a >= |head| {
          assert rest[a - |head|] < rest[b - |head|];
        }
      }
    }
  }

  /** An index is kept exactly when its item passes the mode's filter. */
  lemma {:induction false} KeptIndexAt(items: seq<Item>, mode: Mode, i: nat)
    requires i < |items|
    ensures Kept(mode, items[i]) <==> i in KeptIndices(items, mode)
    decreases i
  {
    var tail := items[1..];
    var rest := KeptIndices(tail, mode);
    var head: seq<nat> := if Kept(mode, items[0]) then [0] else [];
    var shifted := seq(|rest|, k requires 0 <= k < |rest| => rest[k] + 1);
    var idx := KeptIndices(items, mode);
    assert idx == head + shifted;
    assert i in idx <==> i in head || i in shifted;
    if i == 0 {
      assert 0 !in shifted;
    } else {
      KeptIndexAt(tail, mode, i - 1);
      assert items[i] == tail[i - 1];
      assert i !in head;
      if i - 1 in rest {
        var j :| 0 <= j < |rest| && rest[j] == i - 1;
        assert shifted[j] == i;
      }
      if i in shifted {
        var k :| 0 <= k < |shifted| && shifted[k] == i;
        assert rest[k] == i - 1;
      }
    }
  }

  /** Every index is kept exactly when its item passes the mode's filter. */
  lemma KeptIndicesExact(items: seq<Item>, mode: Mode)
    ensures forall i :: 0 <= i < |items| ==> (Kept(mode, items[i]) <==> i in KeptIndices(items, mode))
  {
    forall i | 0 <= i < |items| ensures Kept(mode, items[i]) <==> i in KeptIndices(items, mode) {
      KeptIndexAt(items, mode, i);
    }
  }

  /** The export is the items' characters at the kept indices, in that order. */
  lemma {:induction false} ExportPicksKept(items: seq<Item>, mode: Mode)
    ensures PickedAt(Export(items, mode), items, KeptIndices(items, mode))
    decreases |items|
  {
    if items != [] {
      var tail := items[1..];
      ExportPicksKept(tail, mode);
      var rest := KeptIndices(tail, mode);
      var head: seq<nat> := if Kept(mode, items[0]) then [0] else [];
      var shifted := seq(|rest|, k requires 0 <= k < |rest| => rest[k] + 1);
      var idx := KeptIndices(items, mode);
      assert idx == head + shifted;
      var r := Export(items, mode);
      var later := Export(tail, mode);
      var headChars := if Kept(mode, items[0]) then [items[0].character] else [];
      assert r == headChars + later;
      assert |later| == |rest| && |headChars| == |head|;
      forall k | 0 <= k < |idx| ensures idx[k] < |items| && r[k] == items[idx[k]].character {
        if k < |head| {
          assert idx[k] == 0 && r[k] == items[0].character;
        } else {
          var j := k - |head|;
          assert idx[k] == shifted[j] == rest[j] + 1;
          assert r[k] == later[j] == tail[rest[j]].character;
          assert tail[rest[j]] == items[rest[j] + 1];
        }
      }
    }
  }

  /**
   * The filter returns exactly the kept items' characters, in the items' order: the characters
   * at a strictly increasing sequence of indices holding every kept item and no other.
   */
  lemma ExportKeepsOrder(items: seq<Item>, mode: Mode)
    ensures var idx := KeptIndices(items, mode);
      Increasing(idx) && PickedAt(Export(items, mode), items, idx)
      && forall i :: 0 <= i < |items| ==> (Kept(mode, items[i]) <==> i in idx)
  {
    KeptIndicesIncreasing(items, mode);
    KeptIndicesExact(items, mode);
    ExportPicksKept(items, mode);
  }

  /** Every answer of the window is a subsequence of the listed characters. */
  lemma ExportIsSubsequence(items: seq<Item>, mode: Mode)
    ensures exists idx :: Increasing(idx) && PickedAt(Export(items, mode), items, idx)
  {
    ExportKeepsOrder(items, mode);
  }

  /** A fresh window exports every character, in order, both as "all" and as "selected". */
  lemma FreshWindowExportsAll(cs: seq<Character>)
    ensures Export(Open(cs), AllCharacters) == cs
    ensures Export(Open(cs), SelectCharacters) == cs
  {
    AllKeptIsEverything(Open(cs), AllCharacters);
    AllKeptIsEverything(Open(cs), SelectCharacters);
  }

  /** A filter that keeps every item returns every character. */
  lemma {:induction false} AllKeptIsEverything(items: seq<Item>, mode: Mode)
    requires forall i :: 0 <= i < |items| ==> Kept(mode, items[i])
    ensures Export(items, mode) == seq(|items|, i requires 0 <= i < |items| => items[i].character)
    decreases |items|
  {
    if items != [] {
      AllKeptIsEverything(items[1..], mode);
    }
  }

  /** An index outside the combo box's three entries exports the main characters. */
  lemma {:induction false} UnknownCategoryIsMain(items: seq<Item>, index: int)
    requires index !in {0, 1, 2}
    ensures Export(items, Category(index)) == Export(items, Category(0))
    decreases |items|
  {
    if items != [] {
      UnknownCategoryIsMain(items[1..], index);
    }
  }

  /** The three categories split the characters: each is exported by exactly one of them. */
  lemma {:induction false} CategoriesPartition(items: seq<Item>)
    ensures |Export(items, Category(0))| + |Export(items, Category(1))| + |Export(items, Category(2))| == |items|
    decreases |items|
  {
    if items != [] {
      CategoriesPartition(items[1..]);
    }
  }
}
