/**
 * Ordering of the character lists. Both front ends keep each size group ("Main",
 * "Supporting", "Background") in `DisplayOrder` order and reorder a group by drag and drop.
 *
 * The model works on a projection of the character collection: for every character its size
 * and display order (a `Slot`), characters being named by their position in the collection.
 * `OrderBy(c => c.DisplayOrder)` is a stable sort; applied to characters listed in collection
 * order it sorts by the pair (display order, collection position), which is the strict total
 * order `Before` used here.
 */
module Ordering {
  import opened Traits

  /** What ordering needs to know about one character. */
  datatype Slot = Slot(size: BubbleSize, order: int)

  predicate InRange(s: seq<Slot>, xs: seq<nat>) {
    forall k :: 0 <= k < |xs| ==> xs[k] < |s|
  }

  predicate Distinct(xs: seq<nat>) {
    forall a, b :: 0 <= a < b < |xs| ==> xs[a] != xs[b]
  }

  /** Character `i` comes before character `j` in a stable sort by display order. */
  predicate Before(s: seq<Slot>, i: nat, j: nat)
    requires i < |s| && j < |s|
  {
    s[i].order < s[j].order || (s[i].order == s[j].order && i < j)
  }

  /** `xs` lists characters strictly by `Before` (so without repetition). */
  predicate Sorted(s: seq<Slot>, xs: seq<nat>)
    requires InRange(s, xs)
  {
    forall a, b :: 0 <= a < b < |xs| ==> Before(s, xs[a], xs[b])
  }

  lemma BeforeTotal(s: seq<Slot>, i: nat, j: nat)
    requires i < |s| && j < |s| && i != j
    ensures Before(s, i, j) != Before(s, j, i)
  {
  }

  lemma SortedDistinct(s: seq<Slot>, xs: seq<nat>)
    requires InRange(s, xs) && Sorted(s, xs)
    ensures Distinct(xs)
  {
  }

  /** `List.IndexOf`: the first position of `x`, or -1. */
  function IndexOf(xs: seq<nat>, x: nat): (k: int)
    ensures -1 <= k < |xs|
    ensures k == -1 <==> x !in xs
    ensures k >= 0 ==> xs[k] == x && forall j :: 0 <= j < k ==> xs[j] != x
  {
    if xs == [] then -1
    else if xs[0] == x then 0
    else
      var k := IndexOf(xs[1..], x);
      if k == -1 then -1 else k + 1
  }

  /** Where the elements of a list with one position cut out come from. */
  lemma CutAt(xs: seq<nat>, k: int)
    requires 0 <= k < |xs|
    ensures var r := xs[..k] + xs[k + 1..];
      |r| == |xs| - 1 && forall a :: 0 <= a < |r| ==> r[a] == xs[if a < k then a else a + 1]
  {
  }

  /** Where the elements of a list with one element put in come from. */
  lemma PutAt(rest: seq<nat>, at: int, x: nat)
    requires 0 <= at <= |rest|
    ensures var g := rest[..at] + [x] + rest[at..];
      |g| == |rest| + 1 && g[at] == x
      && forall a :: 0 <= a < |g| && a != at ==> g[a] == rest[if a < at then a else a - 1]
  {
  }

  /** Removing an element of a list without repetitions. */
  lemma RemoveFirstFacts(s: seq<Slot>, xs: seq<nat>, x: nat)
    requires InRange(s, xs) && Distinct(xs) && x in xs
    ensures var r := RemoveFirst(xs, x);
      InRange(s, r) && Distinct(r) && x !in r && multiset(xs) == multiset(r) + multiset{x}
  {
    var k := IndexOf(xs, x);
    var r := RemoveFirst(xs, x);
    assert InRange(s, r) by { CutAt(xs, k); }
    assert Distinct(r) && x !in r by {
      CutAt(xs, k);
      forall a, b | 0 <= a < b < |r| ensures r[a] != r[b] {
        var a' := if a < k then a else a + 1;
        var b' := if b < k then b else b + 1;
        assert r[a] == xs[a'] && r[b] == xs[b'];
      }
      forall a | 0 <= a < |r| ensures r[a] != x {
        var a' := if a < k then a else a + 1;
        assert r[a] == xs[a'] && xs[k] == x;
      }
    }
    assert multiset(xs) == multiset(r) + multiset{x} by {
      assert xs == xs[..k] + [x] + xs[k + 1..];
    }
  }

  /** Inserting a new element into a list without repetitions. */
  lemma InsertAtFacts(s: seq<Slot>, rest: seq<nat>, at: int, x: nat)
    requires InRange(s, rest) && x < |s| && Distinct(rest) && x !in rest && 0 <= at <= |rest|
    ensures var g := rest[..at] + [x] + rest[at..];
      InRange(s, g) && Distinct(g) && multiset(g) == multiset(rest) + multiset{x} && g[at] == x
  {
    var g := rest[..at] + [x] + rest[at..];
    PutAt(rest, at, x);
    assert Distinct(g) by {
      forall a, b | 0 <= a < b < |g| ensures g[a] != g[b] {
        if a != at && b != at {
          var a' := if a < at then a else a - 1;
          var b' := if b < at then b else b - 1;
          assert g[a] == rest[a'] && g[b] == rest[b'];
        } else if a == at {
          var b' := b - 1;
          assert g[b] == rest[b'];
        } else {
          var a' := if a < at then a else a - 1;
          assert g[a] == rest[a'];
        }
      }
    }
    assert multiset(g) == multiset(rest) + multiset{x} by {
      assert rest == rest[..at] + rest[at..];
    }
  }

  /** `List.Remove`: drops the first occurrence of `x`, if any. */
  function RemoveFirst(xs: seq<nat>, x: nat): (r: seq<nat>)
    ensures x !in xs ==> r == xs
    ensures x in xs ==> r == xs[..IndexOf(xs, x)] + xs[IndexOf(xs, x) + 1..]
  {
    var k := IndexOf(xs, x);
    if k == -1 then xs else xs[..k] + xs[k + 1..]
  }

  /** The characters of one size, in collection order (`Where(c => c.Size == size)`). */
  function OfSize(s: seq<Slot>, size: BubbleSize): (r: seq<nat>)
    ensures InRange(s, r) && Distinct(r)
  {
    if s == [] then []
    else
      var init := s[..|s| - 1];
      var r := OfSize(init, size);
      if s[|s| - 1].size == size then r + [|s| - 1] else r
  }

  /** `OfSize` lists exactly the characters of the size. */
  lemma {:induction false} OfSizeMembers(s: seq<Slot>, size: BubbleSize)
    ensures forall i: int :: i in OfSize(s, size) <==> 0 <= i < |s| && s[i].size == size
  {
    if s != [] {
      var init := s[..|s| - 1];
      OfSizeMembers(init, size);
      assert forall i :: 0 <= i < |init| ==> init[i] == s[i];
      var r := OfSize(init, size);
      if s[|s| - 1].size == size {
        assert OfSize(s, size) == r + [|s| - 1];
      } else {
        assert OfSize(s, size) == r;
      }
    }
  }

  /** Every character, in collection order. */
  function AllIndices(n: nat): (r: seq<nat>)
    ensures |r| == n && forall k :: 0 <= k < n ==> r[k] == k
  {
    seq(n, k requires 0 <= k < n => k)
  }

  /** Places `x` in front of the first element it comes before. */
  function Insert(s: seq<Slot>, x: nat, xs: seq<nat>): (r: seq<nat>)
    requires x < |s| && InRange(s, xs)
    ensures InRange(s, r)
    ensures multiset(r) == multiset(xs) + multiset{x}
  {
    if xs == [] then [x]
    else if Before(s, x, xs[0]) then [x] + xs
    else
      assert xs == [xs[0]] + xs[1..];
      [xs[0]] + Insert(s, x, xs[1..])
  }

  lemma {:induction false} InsertSorted(s: seq<Slot>, x: nat, xs: seq<nat>)
    requires x < |s| && InRange(s, xs) && Sorted(s, xs) && x !in xs
    ensures Sorted(s, Insert(s, x, xs))
  {
    if xs != [] && !Before(s, x, xs[0]) {
      var tail := xs[1..];
      InsertSorted(s, x, tail);
      var r := Insert(s, x, tail);
      BeforeTotal(s, x, xs[0]);
      forall k | 0 <= k < |r| ensures Before(s, xs[0], r[k]) {
        assert r[k] in multiset(r);
        if r[k] != x {
          assert r[k] in multiset(tail);
          var m :| 0 <= m < |tail| && tail[m] == r[k];
          assert xs[m + 1] == r[k];
        }
      }
    }
  }

  /** `OrderBy(c => c.DisplayOrder)` over characters listed in collection order. */
  function SortByOrder(s: seq<Slot>, xs: seq<nat>): (r: seq<nat>)
    requires InRange(s, xs)
    ensures InRange(s, r)
    ensures multiset(r) == multiset(xs)
  {
    if xs == [] then []
    else
      assert xs == xs[..|xs| - 1] + [xs[|xs| - 1]];
      Insert(s, xs[|xs| - 1], SortByOrder(s, xs[..|xs| - 1]))
  }

  lemma {:induction false} SortByOrderSorted(s: seq<Slot>, xs: seq<nat>)
    requires InRange(s, xs) && Distinct(xs)
    ensures Sorted(s, SortByOrder(s, xs))
  {
    if xs != [] {
      var init := xs[..|xs| - 1];
      var x := xs[|xs| - 1];
      SortByOrderSorted(s, init);
      assert x !in init;
      assert x !in multiset(SortByOrder(s, init));
      InsertSorted(s, x, SortByOrder(s, init));
    }
  }

  /** The head of a sorted listing comes before every other member. */
  lemma SortedHeadFirst(s: seq<Slot>, a: seq<nat>, x: nat)
    requires InRange(s, a) && Sorted(s, a) && x in a && x != a[0]
    ensures x < |s| && Before(s, a[0], x)
  {
    var m :| 0 <= m < |a| && a[m] == x;
  }

  /** Two strictly sorted listings of the same characters are the same listing. */
  lemma {:induction false} SortedUnique(s: seq<Slot>, a: seq<nat>, b: seq<nat>)
    requires InRange(s, a) && InRange(s, b) && Sorted(s, a) && Sorted(s, b)
    requires multiset(a) == multiset(b)
    ensures a == b
  {
    if a != [] {
      assert |b| == |multiset(b)| == |multiset(a)| == |a|;
      assert a[0] in multiset(b) && b[0] in multiset(a);
      if a[0] != b[0] {
        SortedHeadFirst(s, a, b[0]);
        SortedHeadFirst(s, b, a[0]);
        BeforeTotal(s, a[0], b[0]);
        assert false;
      }
      SortedTail(s, a);
      SortedTail(s, b);
      assert a == [a[0]] + a[1..] && b == [b[0]] + b[1..];
      assert multiset(a[1..]) == multiset(a) - multiset{a[0]};
      assert multiset(b[1..]) == multiset(b) - multiset{b[0]};
      SortedUnique(s, a[1..], b[1..]);
    }
  }

  /** Dropping the head of a sorted list leaves it sorted. */
  lemma SortedTail(s: seq<Slot>, a: seq<nat>)
    requires InRange(s, a) && Sorted(s, a) && a != []
    ensures InRange(s, a[1..]) && Sorted(s, a[1..])
  {
    var t := a[1..];
    assert forall k :: 0 <= k < |t| ==> t[k] == a[k + 1];
    forall x, y | 0 <= x < y < |t| ensures Before(s, t[x], t[y]) {
      assert Before(s, a[x + 1], a[y + 1]);
    }
  }

  /** A size group as the list shows it: its characters sorted by display order. */
  function Group(s: seq<Slot>, size: BubbleSize): (g: seq<nat>)
    ensures InRange(s, g) && Distinct(g)
  {
    var members := OfSize(s, size);
    SortByOrderSorted(s, members);
    var g := SortByOrder(s, members);
    SortedDistinct(s, g);
    g
  }

  /** A group lists exactly the characters of its size, sorted. */
  lemma GroupFacts(s: seq<Slot>, size: BubbleSize)
    ensures Sorted(s, Group(s, size))
    ensures forall i :: 0 <= i < |s| ==> (i in Group(s, size) <==> s[i].size == size)
    ensures forall i :: i in Group(s, size) ==> i < |s| && s[i].size == size
  {
    var members := OfSize(s, size);
    SortByOrderSorted(s, members);
    OfSizeMembers(s, size);
    var g := Group(s, size);
    assert forall i :: i in g <==> i in multiset(members);
  }

  /** Writes display orders 0, 1, 2, ... along `g`; every other character keeps its slot. */
  function Renumber(s: seq<Slot>, g: seq<nat>): (r: seq<Slot>)
    requires InRange(s, g) && Distinct(g)
    ensures |r| == |s|
    ensures forall i :: 0 <= i < |s| ==> r[i].size == s[i].size
    ensures forall i :: 0 <= i < |s| && i !in g ==> r[i] == s[i]
    ensures forall k :: 0 <= k < |g| ==> r[g[k]].order == k
  {
    forall k | 0 <= k < |g| ensures IndexOf(g, g[k]) == k {
    }
    seq(|s|, i requires 0 <= i < |s| => if i in g then s[i].(order := IndexOf(g, i)) else s[i])
  }

  /** The dropped character's group with the dropped character taken out (`group.Remove`). */
  function Rest(s: seq<Slot>, dropped: nat): (rest: seq<nat>)
    requires dropped < |s|
    ensures InRange(s, rest) && Distinct(rest) && dropped !in rest
    ensures multiset(rest) + multiset{dropped} == multiset(Group(s, s[dropped].size))
  {
    var group := Group(s, s[dropped].size);
    GroupFacts(s, s[dropped].size);
    RemoveFirstFacts(s, group, dropped);
    RemoveFirst(group, dropped)
  }

  /** Where the dropped character is put back: next to the target, or at the end. */
  function Spot(rest: seq<nat>, target: nat, insertAfter: bool): (at: nat)
    ensures at <= |rest|
    ensures target !in rest ==> at == |rest|
  {
    var k := IndexOf(rest, target);
    if k == -1 then |rest| else if insertAfter then k + 1 else k
  }

  /**
   * The new order of the dropped character's group: the group without the dropped character,
   * with the dropped character put in front of or behind the target, or at the end when the
   * target is not in what remains of the group.
   */
  function Reordered(s: seq<Slot>, dropped: nat, target: nat, insertAfter: bool): (g: seq<nat>)
    requires dropped < |s|
    ensures InRange(s, g) && Distinct(g)
    ensures multiset(g) == multiset(Group(s, s[dropped].size))
  {
    var rest := Rest(s, dropped);
    var at := Spot(rest, target, insertAfter);
    InsertAtFacts(s, rest, at, dropped);
    rest[..at] + [dropped] + rest[at..]
  }

  /** `PerformReorder`: nothing happens across sizes; otherwise the group is reordered and
      renumbered from 0. */
  function PerformReorder(s: seq<Slot>, dropped: nat, target: nat, insertAfter: bool): (r: seq<Slot>)
    requires dropped < |s| && target < |s|
    ensures |r| == |s| && forall i :: 0 <= i < |s| ==> r[i].size == s[i].size
    ensures s[dropped].size != s[target].size ==> r == s
    ensures s[dropped].size == s[target].size ==>
      forall k :: 0 <= k < |Reordered(s, dropped, target, insertAfter)| ==>
        r[Reordered(s, dropped, target, insertAfter)[k]].order == k
    ensures forall i :: 0 <= i < |s| && s[i].size != s[dropped].size ==> r[i] == s[i]
  {
    if s[dropped].size != s[target].size then s
    else
      var g := Reordered(s, dropped, target, insertAfter);
      var r := Renumber(s, g);
      GroupFacts(s, s[dropped].size);
      forall i | 0 <= i < |s| && s[i].size != s[dropped].size ensures i !in g {
        assert i !in multiset(Group(s, s[dropped].size));
      }
      r
  }

  /** The drop fallback: the dropped character goes to the end of its group, which is
      renumbered from 0. */
  function MoveToEnd(s: seq<Slot>, dropped: nat): (r: seq<Slot>)
    requires dropped < |s|
    ensures |r| == |s| && forall i :: 0 <= i < |s| ==> r[i].size == s[i].size
  {
    var rest := Rest(s, dropped);
    var g := rest + [dropped];
    assert InRange(s, g) && Distinct(g) by {
      InsertAtFacts(s, rest, |rest|, dropped);
      assert rest[..|rest|] + [dropped] + rest[|rest|..] == g;
    }
    Renumber(s, g)
  }

  // ---------------------------------------------------------------------------------------
  // What a reorder achieves
  // ---------------------------------------------------------------------------------------

  /** The dropped character lands right in front of the target, or right behind it. */
  lemma ReorderPlacesNextToTarget(s: seq<Slot>, dropped: nat, target: nat, insertAfter: bool)
    requires dropped < |s| && target < |s| && dropped != target
    requires s[dropped].size == s[target].size
    ensures var g := Reordered(s, dropped, target, insertAfter);
      var p := IndexOf(g, dropped);
      0 <= p && (insertAfter ==> p > 0 && g[p - 1] == target)
      && (!insertAfter ==> p + 1 < |g| && g[p + 1] == target)
  {
    var rest := Rest(s, dropped);
    assert target in rest by {
      GroupFacts(s, s[dropped].size);
      assert target in multiset(Group(s, s[dropped].size));
    }
    var k := IndexOf(rest, target);
    var at := Spot(rest, target, insertAfter);
    var g := Reordered(s, dropped, target, insertAfter);
    assert g == rest[..at] + [dropped] + rest[at..];
    PlacedNextTo(rest, k, at, dropped, insertAfter);
    IndexOfInserted(rest, at, dropped);
  }

  lemma PlacedNextTo(rest: seq<nat>, k: int, at: int, x: nat, insertAfter: bool)
    requires 0 <= k < |rest| && at == (if insertAfter then k + 1 else k)
    ensures var g := rest[..at] + [x] + rest[at..];
      g[at] == x && (insertAfter ==> at > 0 && g[at - 1] == rest[k])
      && (!insertAfter ==> at + 1 < |g| && g[at + 1] == rest[k])
  {
  }

  /** Dropping a character on itself, or on one of another group, moves it to the end of
      its group. */
  lemma ReorderOntoAbsentAppends(s: seq<Slot>, dropped: nat, target: nat, insertAfter: bool)
    requires dropped < |s| && target !in Rest(s, dropped)
    ensures Reordered(s, dropped, target, insertAfter) == Rest(s, dropped) + [dropped]
  {
    var rest := Rest(s, dropped);
    var at := Spot(rest, target, insertAfter);
    assert at == |rest|;
    assert Reordered(s, dropped, target, insertAfter) == rest[..at] + [dropped] + rest[at..];
    assert rest[..at] == rest && rest[at..] == [];
  }

  /** The rest of the group keeps its relative order. */
  lemma ReorderKeepsOthersInOrder(s: seq<Slot>, dropped: nat, target: nat, insertAfter: bool)
    requires dropped < |s|
    ensures RemoveFirst(Reordered(s, dropped, target, insertAfter), dropped) == Rest(s, dropped)
  {
    var rest := Rest(s, dropped);
    var g := Reordered(s, dropped, target, insertAfter);
    var at := Spot(rest, target, insertAfter);
    assert g == rest[..at] + [dropped] + rest[at..];
    RemoveInserted(rest, at, dropped);
  }

  /** Taking out an element just put into a list that lacked it gives the list back. */
  lemma RemoveInserted(rest: seq<nat>, at: int, x: nat)
    requires 0 <= at <= |rest| && x !in rest
    ensures RemoveFirst(rest[..at] + [x] + rest[at..], x) == rest
  {
    var g := rest[..at] + [x] + rest[at..];
    IndexOfInserted(rest, at, x);
    assert g[..at] + g[at + 1..] == rest;
  }

  /** An element just put into a list that lacked it is found where it was put. */
  lemma IndexOfInserted(rest: seq<nat>, at: int, x: nat)
    requires 0 <= at <= |rest| && x !in rest
    ensures IndexOf(rest[..at] + [x] + rest[at..], x) == at
  {
    var g := rest[..at] + [x] + rest[at..];
    PutAt(rest, at, x);
    forall j | 0 <= j < at ensures g[j] != x {
      assert g[j] == rest[j];
    }
  }

  /** After a reorder the list shows the group in the new order. */
  lemma ReorderShowsNewOrder(s: seq<Slot>, dropped: nat, target: nat, insertAfter: bool)
    requires dropped < |s| && target < |s|
    requires s[dropped].size == s[target].size
    ensures var r := PerformReorder(s, dropped, target, insertAfter);
      Group(r, s[dropped].size) == Reordered(s, dropped, target, insertAfter)
  {
    var r := PerformReorder(s, dropped, target, insertAfter);
    var size := s[dropped].size;
    var g := Reordered(s, dropped, target, insertAfter);
    var shown := Group(r, size);
    assert InRange(r, g);
    assert Sorted(r, g);
    SameMembers(s, r, size);
    assert multiset(shown) == multiset(g);
    SortedUnique(r, shown, g) by { GroupFacts(r, size); }
  }

  /** The group listing of a size has the same members in any collection with the same
      sizes. */
  lemma SameMembers(s: seq<Slot>, r: seq<Slot>, size: BubbleSize)
    requires |r| == |s| && forall i :: 0 <= i < |s| ==> r[i].size == s[i].size
    ensures multiset(Group(r, size)) == multiset(Group(s, size))
  {
    var a := Group(r, size);
    var b := Group(s, size);
    GroupFacts(r, size);
    GroupFacts(s, size);
    forall x | 0 <= x ensures multiset(a)[x] == multiset(b)[x] {
      DistinctCount(a, x);
      DistinctCount(b, x);
      assert x in a <==> x in b;
    }
    assert multiset(a) == multiset(b);
  }

  lemma {:induction false} DistinctCount(xs: seq<nat>, x: nat)
    requires Distinct(xs)
    ensures multiset(xs)[x] == if x in xs then 1 else 0
  {
    if xs != [] {
      var t := xs[1..];
      assert forall k :: 0 <= k < |t| ==> t[k] == xs[k + 1];
      assert Distinct(t) by {
        forall a, b | 0 <= a < b < |t| ensures t[a] != t[b] {
          assert xs[a + 1] != xs[b + 1];
        }
      }
      assert xs[0] !in t by {
        forall k | 0 <= k < |t| ensures t[k] != xs[0] {
          assert xs[0] != xs[k + 1];
        }
      }
      DistinctCount(t, x);
      assert xs == [xs[0]] + t;
      assert multiset(xs) == multiset{xs[0]} + multiset(t);
    }
  }

  /** The drop fallback is a reorder onto the dropped character itself. */
  lemma MoveToEndIsReorderOntoItself(s: seq<Slot>, dropped: nat, insertAfter: bool)
    requires dropped < |s|
    ensures MoveToEnd(s, dropped) == PerformReorder(s, dropped, dropped, insertAfter)
  {
    ReorderOntoAbsentAppends(s, dropped, dropped, insertAfter);
  }

  // ---------------------------------------------------------------------------------------
  // The three lists
  // ---------------------------------------------------------------------------------------

  /** The characters of `xs` that have the given size, in the order of `xs`. */
  function Keep(s: seq<Slot>, xs: seq<nat>, size: BubbleSize): (r: seq<nat>)
    requires InRange(s, xs)
    ensures InRange(s, r)
    ensures forall x: nat :: multiset(r)[x] == if x < |s| && s[x].size == size then multiset(xs)[x] else 0
    ensures Sorted(s, xs) ==> Sorted(s, r)
  {
    if xs == [] then []
    else
      var init := xs[..|xs| - 1];
      var x := xs[|xs| - 1];
      SortedInit(s, xs);
      var r := Keep(s, init, size);
      if s[x].size == size then
        KeptBeforeLast(s, xs, r);
        r + [x]
      else r
  }

  /** Appending the last element of a sorted `xs` to a sorted list drawn from the rest of
      `xs` keeps it sorted. */
  lemma KeptBeforeLast(s: seq<Slot>, xs: seq<nat>, r: seq<nat>)
    requires InRange(s, xs) && xs != [] && InRange(s, r)
    requires forall y: nat :: multiset(r)[y] <= multiset(xs[..|xs| - 1])[y]
    requires Sorted(s, xs) ==> Sorted(s, r)
    ensures Sorted(s, xs) ==> InRange(s, r + [xs[|xs| - 1]]) && Sorted(s, r + [xs[|xs| - 1]])
  {
    if Sorted(s, xs) {
      var init := xs[..|xs| - 1];
      var x := xs[|xs| - 1];
      SortedInit(s, xs);
      forall k | 0 <= k < |r| ensures Before(s, r[k], x) {
        assert r[k] in multiset(r);
        assert r[k] in multiset(init);
        var m :| 0 <= m < |init| && init[m] == r[k];
      }
      SortedSnoc(s, r, x);
    }
  }

  /** Dropping the last element of a list keeps it in range and sorted; in a sorted list
      every earlier element comes before the last. */
  lemma SortedInit(s: seq<Slot>, xs: seq<nat>)
    requires InRange(s, xs) && xs != []
    ensures xs == xs[..|xs| - 1] + [xs[|xs| - 1]]
    ensures InRange(s, xs[..|xs| - 1])
    ensures Sorted(s, xs) ==> Sorted(s, xs[..|xs| - 1])
    ensures Sorted(s, xs) ==> forall k :: 0 <= k < |xs| - 1 ==> Before(s, xs[k], xs[|xs| - 1])
  {
    var init := xs[..|xs| - 1];
    assert forall k :: 0 <= k < |init| ==> init[k] == xs[k];
  }

  /** Appending an element that comes after every element keeps a list sorted. */
  lemma SortedSnoc(s: seq<Slot>, r: seq<nat>, x: nat)
    requires InRange(s, r) && x < |s| && Sorted(s, r)
    requires forall k :: 0 <= k < |r| ==> Before(s, r[k], x)
    ensures InRange(s, r + [x]) && Sorted(s, r + [x])
  {
    var g := r + [x];
    assert forall k :: 0 <= k < |r| ==> g[k] == r[k];
    forall a, b | 0 <= a < b < |g| ensures Before(s, g[a], g[b]) {
      if b == |r| {
        assert Before(s, r[a], x);
      }
    }
  }

  /** `UpdateGroups`: all characters sorted by display order, then dealt into the Main
      (large), Supporting (medium) and Background (small) lists. */
  function Lists(s: seq<Slot>): (r: (seq<nat>, seq<nat>, seq<nat>))
    ensures r.0 == Group(s, Large) && r.1 == Group(s, Medium) && r.2 == Group(s, Small)
  {
    var all := AllIndices(|s|);
    SortByOrderSorted(s, all);
    var sorted := SortByOrder(s, all);
    KeepIsGroup(s, sorted, Large);
    KeepIsGroup(s, sorted, Medium);
    KeepIsGroup(s, sorted, Small);
    (Keep(s, sorted, Large), Keep(s, sorted, Medium), Keep(s, sorted, Small))
  }

  lemma KeepIsGroup(s: seq<Slot>, sorted: seq<nat>, size: BubbleSize)
    requires InRange(s, sorted) && Sorted(s, sorted)
    requires multiset(sorted) == multiset(AllIndices(|s|))
    ensures Keep(s, sorted, size) == Group(s, size)
  {
    var a := Keep(s, sorted, size);
    var b := Group(s, size);
    var all := AllIndices(|s|);
    var ma: multiset<nat>, mb: multiset<nat> := multiset(a), multiset(b);
    assert Distinct(all);
    forall x: nat ensures ma[x] == mb[x] {
      DistinctCount(all, x);
      if x < |s| {
        assert all[x] == x;
      }
      DistinctCount(b, x);
      GroupFacts(s, size);
    }
    assert ma == mb;
    assert Sorted(s, b) by { GroupFacts(s, size); }
    SortedUnique(s, a, b);
  }
}
