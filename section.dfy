/**
  The space-partition tree of the packer (Sources/Alpacka/Section.swift).
  A section is either free space of some size, or a placed item with the
  section to its right (as tall as the item) and the section below it (as
  wide as the space the item was placed in). Placement builds a new tree;
  no tree is ever updated in place.
 */
module SectionTree {
  import opened Options
  import opened Geometry

  /** An item to pack: an identity and its packing size (the `Sized`
      conformance). Two items are the same item exactly when they are equal. */
  datatype Item = Item(id: int, size: Size)

  /** `Section`: `item(_, right:, down:)` is `Filled`, `space(_)` is `Space`. */
  datatype Section =
    | Filled(current: Item, right: Section, down: Section)
    | Space(size: Size)

  /** `allChildren`: the placed items, each node before its right subtree,
      the right subtree before the down subtree. Every placement turns one
      free space into two, so there is one more free space than placed items. */
  function AllChildren(s: Section): (r: seq<Item>)
    ensures |FreeSpaces(s)| == |r| + 1
  {
    match s
    case Filled(c, right, down) => [c] + AllChildren(right) + AllChildren(down)
    case Space(_) => []
  }

  /** The sum of width times height over `items`. */
  function SumAreas(items: seq<Item>): int {
    if items == [] then 0 else items[0].size.Area() + SumAreas(items[1..])
  }

  /** `areaUsed`: the area of every placed item, added up. */
  function AreaUsed(s: Section): int {
    SumAreas(AllChildren(s))
  }

  /** The free spaces of the tree, in the order the search visits them:
      right subtree before down subtree. */
  function FreeSpaces(s: Section): seq<Size> {
    match s
    case Filled(_, right, down) => FreeSpaces(right) + FreeSpaces(down)
    case Space(size) => [size]
  }

  /** The sum of the areas of `sizes`. */
  function SumSizes(sizes: seq<Size>): int {
    if sizes == [] then 0 else sizes[0].Area() + SumSizes(sizes[1..])
  }

  /** The area not yet taken by an item. */
  function FreeArea(s: Section): int {
    SumSizes(FreeSpaces(s))
  }

  /** `place`: puts `x` at the corner of a free space, leaving the strip to
      its right (as tall as `x`) and the full-width strip below it. */
  function Place(s: Section, x: Item): (r: Section)
    requires s.Space?
    ensures AllChildren(r) == [x]
    ensures AreaUsed(r) + FreeArea(r) == s.size.Area()
    ensures s.size.Fits(x.size) && x.size.NonNegative() ==>
              forall f :: f in FreeSpaces(r) ==> f.NonNegative() && s.size.Fits(f)
  {
    var w, h := x.size.width, x.size.height;
    var r := Filled(x, Space(Size(s.size.width - w, h)), Space(Size(s.size.width, s.size.height - h)));
    assert AllChildren(r) == [x];
    assert AreaUsed(r) == w * h by {
      assert SumAreas([x]) == x.size.Area() + SumAreas([]);
    }
    var spaces := [Size(s.size.width - w, h), Size(s.size.width, s.size.height - h)];
    assert FreeSpaces(r) == spaces;
    assert FreeArea(r) == (s.size.width - w) * h + s.size.width * (s.size.height - h) by {
      assert SumSizes(spaces) == spaces[0].Area() + SumSizes([spaces[1]]);
      assert SumSizes([spaces[1]]) == spaces[1].Area() + SumSizes([]);
    }
    assert (s.size.width - w) * h + s.size.width * (s.size.height - h) + w * h
           == s.size.width * s.size.height;
    r
  }

  /** `traverseAndPlace`: a depth-first search, right before down, for a free
      space that fits `x`; `None` when there is none. */
  function TraverseAndPlace(s: Section, x: Item): (r: Option<Section>)
    ensures r.Some? ==> |AllChildren(r.value)| == |AllChildren(s)| + 1
  {
    match s
    case Filled(c, right, down) =>
      var placedRight := TraverseAndPlace(right, x);
      if placedRight.Some? then Some(Filled(c, placedRight.value, down))
      else
        var placedDown := TraverseAndPlace(down, x);
        if placedDown.Some? then Some(Filled(c, right, placedDown.value))
        else None
    case Space(size) =>
      if size.Fits(x.size) then Some(Place(s, x)) else None
  }

  /** The shape of one search step: free space is taken exactly when the item
      fits, and then split by `Place`; on a placed item the item itself stays,
      only one of the two subtrees changes, and the down subtree is tried only
      when no free space on the right fits. */
  lemma SearchOrder(s: Section, x: Item)
    ensures var r := TraverseAndPlace(s, x);
            && (s.Space? ==> (r.Some? <==> s.size.Fits(x.size)) && (r.Some? ==> r.value == Place(s, x)))
            && (s.Filled? && r.Some? ==>
                  && r.value.Filled? && r.value.current == s.current
                  && (r.value.right == s.right || r.value.down == s.down)
                  && (r.value.down != s.down ==> forall f :: f in FreeSpaces(s.right) ==> !f.Fits(x.size)))
  {
    if s.Filled? {
      PlacedIffRoom(s.right, x);
    }
  }

  /** `traverseAndPlace` succeeds exactly when some free space of the tree
      fits the item: the search misses no free space. */
  lemma {:induction false} PlacedIffRoom(s: Section, x: Item)
    ensures TraverseAndPlace(s, x).Some? <==> exists f :: f in FreeSpaces(s) && f.Fits(x.size)
  {
    match s
    case Space(size) =>
      assert FreeSpaces(s) == [size];
    case Filled(c, right, down) =>
      PlacedIffRoom(right, x);
      PlacedIffRoom(down, x);
      assert forall f :: f in FreeSpaces(s) <==> f in FreeSpaces(right) || f in FreeSpaces(down);
  }

  /** A successful placement adds exactly one item, `x`, and keeps every other. */
  lemma {:induction false} PlacementAddsOneItem(s: Section, x: Item)
    requires TraverseAndPlace(s, x).Some?
    ensures multiset(AllChildren(TraverseAndPlace(s, x).value)) == multiset(AllChildren(s)) + multiset{x}
  {
    match s
    case Space(_) =>
      assert AllChildren(TraverseAndPlace(s, x).value) == [x];
    case Filled(c, right, down) =>
      var placedRight := TraverseAndPlace(right, x);
      if placedRight.Some? {
        PlacementAddsOneItem(right, x);
        assert AllChildren(TraverseAndPlace(s, x).value)
               == [c] + AllChildren(placedRight.value) + AllChildren(down);
      } else {
        var placedDown := TraverseAndPlace(down, x).value;
        PlacementAddsOneItem(down, x);
        assert AllChildren(TraverseAndPlace(s, x).value)
               == [c] + AllChildren(right) + AllChildren(placedDown);
      }
  }

  /** After a successful placement, the items in the tree are the old ones and `x`. */
  lemma PlacementMembership(s: Section, x: Item, y: Item)
    requires TraverseAndPlace(s, x).Some?
    ensures y in AllChildren(TraverseAndPlace(s, x).value) <==> y in AllChildren(s) || y == x
  {
    PlacementAddsOneItem(s, x);
    assert y in AllChildren(TraverseAndPlace(s, x).value) <==> y in multiset(AllChildren(TraverseAndPlace(s, x).value));
    assert y in AllChildren(s) <==> y in multiset(AllChildren(s));
  }

  /** `origin`: the offset of the first occurrence of `x`, found in the same
      order as `AllChildren`, accumulating the widths of the items passed when
      going right and their heights when going down. */
  function Origin(s: Section, x: Item, rightDistance: int, downDistance: int): (r: Option<Point>)
    ensures s.Filled? && s.current == x ==> r == Some(Point(rightDistance, downDistance))
  {
    match s
    case Filled(c, right, down) =>
      if c == x then Some(Point(rightDistance, downDistance))
      else
        var fromRight := Origin(right, x, rightDistance + c.size.width, downDistance);
        if fromRight.Some? then fromRight
        else Origin(down, x, rightDistance, downDistance + c.size.height)
    case Space(_) => None
  }

  /** `origin` finds an offset exactly for the items in the tree, whatever
      distances it starts from; on free space it finds none. */
  lemma {:induction false} OriginFound(s: Section, x: Item, rightDistance: int, downDistance: int)
    ensures Origin(s, x, rightDistance, downDistance).Some? <==> x in AllChildren(s)
  {
    match s
    case Space(_) =>
    case Filled(c, right, down) =>
      OriginFound(right, x, rightDistance + c.size.width, downDistance);
      OriginFound(down, x, rightDistance, downDistance + c.size.height);
  }
}
