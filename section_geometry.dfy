/**
  What the placement rules of the section tree guarantee: the tree is a
  guillotine partition of its container, so every placed item lies inside the
  container and no two placed items overlap; the used and the free area add up
  to the container's area; placement never moves an item already placed and
  never makes room for an item that did not fit before.
 */
module SectionGeometry {
  import opened Options
  import opened Geometry
  import opened SectionTree

  /** `s` splits a `region`-sized area the way `Place` splits free space: a free
      space is the whole region; an item sits at the region's corner, fits in
      it, and leaves the strip to its right (as tall as the item) and the strip
      below it (as wide as the region). */
  ghost predicate Guillotine(s: Section, region: Size) {
    match s
    case Space(size) => size == region
    case Filled(c, right, down) =>
      && c.size.NonNegative()
      && region.Fits(c.size)
      && Guillotine(right, RightOf(region, c))
      && Guillotine(down, Below(region, c))
  }

  /** The region to the right of an item placed at the corner of `region`. */
  function RightOf(region: Size, c: Item): Size {
    Size(region.width - c.size.width, c.size.height)
  }

  /** The region below an item placed at the corner of `region`. */
  function Below(region: Size, c: Item): Size {
    Size(region.width, region.height - c.size.height)
  }

  /** The index of the first of `spaces` that fits `size`, or `|spaces|`. */
  function FirstFit(spaces: seq<Size>, size: Size): (k: nat)
    ensures k <= |spaces|
    ensures forall i :: 0 <= i < k ==> !spaces[i].Fits(size)
    ensures k < |spaces| ==> spaces[k].Fits(size)
  {
    if spaces == [] then 0
    else if spaces[0].Fits(size) then 0
    else 1 + FirstFit(spaces[1..], size)
  }

  lemma {:induction false} FirstFitConcat(a: seq<Size>, b: seq<Size>, size: Size)
    ensures FirstFit(a + b, size) == if FirstFit(a, size) < |a| then FirstFit(a, size) else |a| + FirstFit(b, size)
  {
    if a != [] {
      assert (a + b)[0] == a[0];
      assert (a + b)[1..] == a[1..] + b;
      FirstFitConcat(a[1..], b, size);
    } else {
      assert a + b == b;
    }
  }

  /** The free spaces after `x` has been placed in the `k`-th one. */
  function SplitAt(spaces: seq<Size>, k: nat, x: Item): seq<Size>
    requires k < |spaces|
  {
    spaces[..k] + [Size(spaces[k].width - x.size.width, x.size.height),
                   Size(spaces[k].width, spaces[k].height - x.size.height)] + spaces[k + 1..]
  }

  /** `FirstFit` finds a space exactly when some space fits. */
  lemma FirstFitFinds(spaces: seq<Size>, size: Size)
    ensures FirstFit(spaces, size) < |spaces| <==> exists f :: f in spaces && f.Fits(size)
  {
    var k := FirstFit(spaces, size);
    if k < |spaces| {
      assert spaces[k] in spaces;
    }
  }

  lemma SplitAtInLeft(a: seq<Size>, b: seq<Size>, k: nat, x: Item)
    requires k < |a|
    ensures SplitAt(a + b, k, x) == SplitAt(a, k, x) + b
  {
    assert (a + b)[..k] == a[..k];
    assert (a + b)[k + 1..] == a[k + 1..] + b;
  }

  lemma SplitAtInRight(a: seq<Size>, b: seq<Size>, k: nat, x: Item)
    requires k < |b|
    ensures SplitAt(a + b, |a| + k, x) == a + SplitAt(b, k, x)
  {
    assert (a + b)[..|a| + k] == a + b[..k];
    assert (a + b)[|a| + k + 1..] == b[k + 1..];
  }

  /** The search is first-fit: `x` goes into the first free space, right before
      down, that fits it, and that space is replaced by its right and its down
      remainders; every other free space is left as it was. */
  lemma PlacesInFirstFit(s: Section, x: Item)
    ensures TraverseAndPlace(s, x).Some? <==> FirstFit(FreeSpaces(s), x.size) < |FreeSpaces(s)|
    ensures TraverseAndPlace(s, x).Some? ==>
              FreeSpaces(TraverseAndPlace(s, x).value) == SplitAt(FreeSpaces(s), FirstFit(FreeSpaces(s), x.size), x)
  {
    FirstFitFinds(FreeSpaces(s), x.size);
    PlacedIffRoom(s, x);
    if TraverseAndPlace(s, x).Some? {
      SplitsFirstFit(s, x);
    }
  }

  /** A successful placement splits the first fitting free space. */
  lemma {:induction false} SplitsFirstFit(s: Section, x: Item)
    requires TraverseAndPlace(s, x).Some?
    ensures FirstFit(FreeSpaces(s), x.size) < |FreeSpaces(s)|
    ensures FreeSpaces(TraverseAndPlace(s, x).value) == SplitAt(FreeSpaces(s), FirstFit(FreeSpaces(s), x.size), x)
  {
    match s
    case Space(size) =>
      assert FirstFit([size], x.size) == 0;
    case Filled(c, right, down) =>
      if TraverseAndPlace(right, x).Some? {
        SplitsFirstFit(right, x);
        SplitsFirstFitRight(c, right, down, x);
      } else {
        SplitsFirstFit(down, x);
        SplitsFirstFitDown(c, right, down, x);
      }
  }

  /** One step of SplitsFirstFit: the placement goes into the right subtree,
      whose free spaces come first. */
  lemma SplitsFirstFitRight(c: Item, right: Section, down: Section, x: Item)
    requires TraverseAndPlace(right, x).Some?
    requires FirstFit(FreeSpaces(right), x.size) < |FreeSpaces(right)|
    requires FreeSpaces(TraverseAndPlace(right, x).value)
             == SplitAt(FreeSpaces(right), FirstFit(FreeSpaces(right), x.size), x)
    ensures var s := Filled(c, right, down);
            && FirstFit(FreeSpaces(s), x.size) < |FreeSpaces(s)|
            && FreeSpaces(TraverseAndPlace(s, x).value) == SplitAt(FreeSpaces(s), FirstFit(FreeSpaces(s), x.size), x)
  {
    var fr, fd := FreeSpaces(right), FreeSpaces(down);
    FirstFitConcat(fr, fd, x.size);
    SplitAtInLeft(fr, fd, FirstFit(fr, x.size), x);
  }

  /** One step of SplitsFirstFit: nothing on the right fits, so the placement
      goes into the down subtree. */
  lemma SplitsFirstFitDown(c: Item, right: Section, down: Section, x: Item)
    requires TraverseAndPlace(right, x).None? && TraverseAndPlace(down, x).Some?
    requires FirstFit(FreeSpaces(down), x.size) < |FreeSpaces(down)|
    requires FreeSpaces(TraverseAndPlace(down, x).value)
             == SplitAt(FreeSpaces(down), FirstFit(FreeSpaces(down), x.size), x)
    ensures var s := Filled(c, right, down);
            && FirstFit(FreeSpaces(s), x.size) < |FreeSpaces(s)|
            && FreeSpaces(TraverseAndPlace(s, x).value) == SplitAt(FreeSpaces(s), FirstFit(FreeSpaces(s), x.size), x)
  {
    var fr, fd := FreeSpaces(right), FreeSpaces(down);
    var s := Filled(c, right, down);
    var k := FirstFit(fd, x.size);
    assert FreeSpaces(TraverseAndPlace(s, x).value) == fr + SplitAt(fd, k, x);
    NoRoomFirstFit(right, x);
    FirstFitConcat(fr, fd, x.size);
    assert FirstFit(FreeSpaces(s), x.size) == |fr| + k;
    SplitAtInRight(fr, fd, k, x);
  }

  /** When nothing in `s` fits `x`, the first fit is past every free space. */
  lemma NoRoomFirstFit(s: Section, x: Item)
    requires TraverseAndPlace(s, x).None?
    ensures FirstFit(FreeSpaces(s), x.size) == |FreeSpaces(s)|
  {
    PlacedIffRoom(s, x);
    FirstFitFinds(FreeSpaces(s), x.size);
  }

  /** Placing an item keeps the tree a guillotine partition of its region. */
  lemma {:induction false} PlacementKeepsGuillotine(s: Section, region: Size, x: Item)
    requires Guillotine(s, region)
    requires x.size.NonNegative()
    requires TraverseAndPlace(s, x).Some?
    ensures Guillotine(TraverseAndPlace(s, x).value, region)
  {
    match s
    case Space(_) =>
    case Filled(c, right, down) =>
      if TraverseAndPlace(right, x).Some? {
        PlacementKeepsGuillotine(right, RightOf(region, c), x);
      } else {
        PlacementKeepsGuillotine(down, Below(region, c), x);
      }
  }

  /** The rectangle `origin` reports for a placed item lies inside the region
      whose corner is the starting offset. */
  lemma {:induction false} OriginWithin(s: Section, region: Size, x: Item, rightDistance: int, downDistance: int)
    requires Guillotine(s, region)
    requires Origin(s, x, rightDistance, downDistance).Some?
    ensures Within(Rect(Origin(s, x, rightDistance, downDistance).value, x.size),
                   Rect(Point(rightDistance, downDistance), region))
  {
    match s
    case Filled(c, right, down) =>
      if c != x {
        OriginOfFilled(c, right, down, x, rightDistance, downDistance);
        if x in AllChildren(right) {
          OriginWithin(right, RightOf(region, c), x, rightDistance + c.size.width, downDistance);
        } else {
          OriginWithin(down, Below(region, c), x, rightDistance, downDistance + c.size.height);
        }
      }
  }

  /** Two different placed items occupy rectangles that do not overlap. */
  lemma {:induction false} OriginsDisjoint(s: Section, region: Size, x: Item, y: Item, rightDistance: int, downDistance: int)
    requires Guillotine(s, region)
    requires x != y
    requires Origin(s, x, rightDistance, downDistance).Some?
    requires Origin(s, y, rightDistance, downDistance).Some?
    ensures !Overlap(Rect(Origin(s, x, rightDistance, downDistance).value, x.size),
                     Rect(Origin(s, y, rightDistance, downDistance).value, y.size))
  {
    match s
    case Filled(c, right, down) =>
      var rd, dd := rightDistance, downDistance;
      var rr, dr := RightOf(region, c), Below(region, c);
      var a := Rect(Origin(s, x, rd, dd).value, x.size);
      var b := Rect(Origin(s, y, rd, dd).value, y.size);
      var whereX := PartOf(s, region, x, rd, dd);
      var whereY := PartOf(s, region, y, rd, dd);
      if whereX == RightPart && whereY == RightPart {
        OriginsDisjoint(right, rr, x, y, rd + c.size.width, dd);
      } else if whereX == DownPart && whereY == DownPart {
        OriginsDisjoint(down, dr, x, y, rd, dd + c.size.height);
      } else {
        PartsApart(s, region, rd, dd, a, whereX, b, whereY);
      }
  }

  /** The three parts of a `Filled` node: its own item, the right subtree and
      the down subtree. */
  datatype Part = Own | RightPart | DownPart

  /** Where `origin` finds a placed `x` below a `Filled` node; the item's
      rectangle lies in that part. */
  lemma PartOf(s: Section, region: Size, x: Item, rightDistance: int, downDistance: int) returns (part: Part)
    requires s.Filled? && Guillotine(s, region)
    requires Origin(s, x, rightDistance, downDistance).Some?
    ensures InPart(s, region, rightDistance, downDistance, Rect(Origin(s, x, rightDistance, downDistance).value, x.size), part)
    ensures part == RightPart ==> (s.current != x && Origin(s, x, rightDistance, downDistance)
                           == Origin(s.right, x, rightDistance + s.current.size.width, downDistance))
    ensures part == DownPart ==> (s.current != x && Origin(s, x, rightDistance, downDistance)
                           == Origin(s.down, x, rightDistance, downDistance + s.current.size.height))
    ensures part == Own ==> s.current == x
  {
    var c := s.current;
    if c == x {
      part := Own;
    } else {
      OriginOfFilled(c, s.right, s.down, x, rightDistance, downDistance);
      if x in AllChildren(s.right) {
        part := RightPart;
        OriginWithin(s.right, RightOf(region, c), x, rightDistance + c.size.width, downDistance);
      } else {
        part := DownPart;
        OriginWithin(s.down, Below(region, c), x, rightDistance, downDistance + c.size.height);
      }
    }
  }

  /** The rectangle `r` is the node's own item, or lies in the right or the
      down part of a `Filled` node whose region has its corner at the given
      offsets. */
  ghost predicate InPart(s: Section, region: Size, rightDistance: int, downDistance: int, r: Rect, part: Part)
    requires s.Filled?
  {
    var c := s.current;
    match part
    case Own => r == Rect(Point(rightDistance, downDistance), c.size)
    case RightPart => Within(r, Rect(Point(rightDistance + c.size.width, downDistance), RightOf(region, c)))
    case DownPart => Within(r, Rect(Point(rightDistance, downDistance + c.size.height), Below(region, c)))
  }

  /** Rectangles in two different parts of a `Filled` node do not overlap. */
  lemma PartsApart(s: Section, region: Size, rightDistance: int, downDistance: int, a: Rect, partA: Part, b: Rect, partB: Part)
    requires s.Filled? && Guillotine(s, region)
    requires partA != partB
    requires InPart(s, region, rightDistance, downDistance, a, partA)
    requires InPart(s, region, rightDistance, downDistance, b, partB)
    ensures !Overlap(a, b)
  {
  }

  /** Placement never moves an item already in the tree. */
  lemma {:induction false} PlacementKeepsOrigins(s: Section, x: Item, y: Item, rightDistance: int, downDistance: int)
    requires TraverseAndPlace(s, x).Some?
    requires y in AllChildren(s) && y != x
    ensures Origin(TraverseAndPlace(s, x).value, y, rightDistance, downDistance)
            == Origin(s, y, rightDistance, downDistance)
  {
    match s
    case Filled(c, right, down) =>
      if c != y {
        if TraverseAndPlace(right, x).Some? {
          if y in AllChildren(right) {
            PlacementKeepsOrigins(right, x, y, rightDistance + c.size.width, downDistance);
          } else {
            PlacementMembership(right, x, y);
          }
          KeepsOriginsRight(c, right, down, x, y, rightDistance, downDistance);
        } else {
          if y !in AllChildren(right) {
            PlacementKeepsOrigins(down, x, y, rightDistance, downDistance + c.size.height);
          }
          KeepsOriginsDown(c, right, down, x, y, rightDistance, downDistance);
        }
      }
  }

  /** The step of PlacementKeepsOrigins where the item goes into the right subtree. */
  lemma KeepsOriginsRight(c: Item, right: Section, down: Section, x: Item, y: Item, rightDistance: int, downDistance: int)
    requires c != y && TraverseAndPlace(right, x).Some?
    requires y in AllChildren(right) ==>
               Origin(TraverseAndPlace(right, x).value, y, rightDistance + c.size.width, downDistance)
               == Origin(right, y, rightDistance + c.size.width, downDistance)
    requires y !in AllChildren(right) ==> y !in AllChildren(TraverseAndPlace(right, x).value)
    ensures Origin(Filled(c, TraverseAndPlace(right, x).value, down), y, rightDistance, downDistance)
            == Origin(Filled(c, right, down), y, rightDistance, downDistance)
  {
    OriginOfFilled(c, right, down, y, rightDistance, downDistance);
    OriginOfFilled(c, TraverseAndPlace(right, x).value, down, y, rightDistance, downDistance);
  }

  /** The step of PlacementKeepsOrigins where the item goes into the down subtree. */
  lemma KeepsOriginsDown(c: Item, right: Section, down: Section, x: Item, y: Item, rightDistance: int, downDistance: int)
    requires c != y && TraverseAndPlace(down, x).Some?
    requires y !in AllChildren(right) ==>
               Origin(TraverseAndPlace(down, x).value, y, rightDistance, downDistance + c.size.height)
               == Origin(down, y, rightDistance, downDistance + c.size.height)
    ensures Origin(Filled(c, right, TraverseAndPlace(down, x).value), y, rightDistance, downDistance)
            == Origin(Filled(c, right, down), y, rightDistance, downDistance)
  {
    OriginOfFilled(c, right, down, y, rightDistance, downDistance);
    OriginOfFilled(c, right, TraverseAndPlace(down, x).value, y, rightDistance, downDistance);
  }

  /** `origin` below a node that does not hold `y`: the right subtree when `y` is there, else the down subtree. */
  lemma OriginOfFilled(c: Item, right: Section, down: Section, y: Item, rightDistance: int, downDistance: int)
    requires c != y
    ensures Origin(Filled(c, right, down), y, rightDistance, downDistance)
            == if y in AllChildren(right) then Origin(right, y, rightDistance + c.size.width, downDistance)
               else Origin(down, y, rightDistance, downDistance + c.size.height)
  {
    OriginFound(right, y, rightDistance + c.size.width, downDistance);
  }

  /** An item that finds no room in a tree finds none after another
      (non-negative) item has been placed in it. */
  lemma {:induction false} PlacementKeepsFailures(s: Section, x: Item, y: Item)
    requires x.size.NonNegative()
    requires TraverseAndPlace(s, x).Some?
    requires TraverseAndPlace(s, y).None?
    ensures TraverseAndPlace(TraverseAndPlace(s, x).value, y).None?
  {
    match s
    case Space(size) =>
      var t := TraverseAndPlace(s, x).value;
      assert !size.Fits(y.size);
      assert t.right == Space(Size(size.width - x.size.width, x.size.height));
      assert t.down == Space(Size(size.width, size.height - x.size.height));
    case Filled(c, right, down) =>
      if TraverseAndPlace(right, x).Some? {
        PlacementKeepsFailures(right, x, y);
      } else {
        PlacementKeepsFailures(down, x, y);
      }
  }

  lemma {:induction false} SumAreasConcat(a: seq<Item>, b: seq<Item>)
    ensures SumAreas(a + b) == SumAreas(a) + SumAreas(b)
  {
    if a == [] {
      assert a + b == b;
    } else {
      assert (a + b)[1..] == a[1..] + b;
      SumAreasConcat(a[1..], b);
    }
  }

  lemma {:induction false} SumSizesConcat(a: seq<Size>, b: seq<Size>)
    ensures SumSizes(a + b) == SumSizes(a) + SumSizes(b)
  {
    if a == [] {
      assert a + b == b;
    } else {
      assert (a + b)[1..] == a[1..] + b;
      SumSizesConcat(a[1..], b);
    }
  }

  /** The area used by a `Filled` node is its own item's area plus that of both subtrees. */
  lemma AreaUsedFilled(c: Item, right: Section, down: Section)
    ensures AreaUsed(Filled(c, right, down)) == c.size.Area() + AreaUsed(right) + AreaUsed(down)
  {
    SumAreasConcat([c] + AllChildren(right), AllChildren(down));
    SumAreasConcat([c], AllChildren(right));
    assert SumAreas([c]) == c.size.Area() + SumAreas([]);
  }

  /** A successful placement adds exactly the placed item's area to `areaUsed`. */
  lemma {:induction false} PlacementAddsArea(s: Section, x: Item)
    requires TraverseAndPlace(s, x).Some?
    ensures AreaUsed(TraverseAndPlace(s, x).value) == AreaUsed(s) + x.size.Area()
  {
    match s
    case Space(_) =>
      assert SumAreas([x]) == x.size.Area() + SumAreas([]);
    case Filled(c, right, down) =>
      AreaUsedFilled(c, right, down);
      match TraverseAndPlace(right, x)
      case Some(placedRight) =>
        PlacementAddsArea(right, x);
        AreaUsedFilled(c, placedRight, down);
      case None =>
        PlacementAddsArea(down, x);
        AreaUsedFilled(c, right, TraverseAndPlace(down, x).value);
  }

  /** Used and free area together are exactly the region's area. */
  lemma {:induction false} AreaConservation(s: Section, region: Size)
    requires Guillotine(s, region)
    ensures AreaUsed(s) + FreeArea(s) == region.Area()
  {
    match s
    case Space(_) =>
      assert SumSizes([region]) == region.Area() + SumSizes([]);
    case Filled(c, right, down) =>
      AreaUsedFilled(c, right, down);
      SumSizesConcat(FreeSpaces(right), FreeSpaces(down));
      AreaConservation(right, RightOf(region, c));
      AreaConservation(down, Below(region, c));
      SplitKeepsArea(region.width, region.height, c.size.width, c.size.height);
  }

  /** The item and its two remainders cover the split area exactly. */
  lemma SplitKeepsArea(width: int, height: int, w: int, h: int)
    ensures w * h + (width - w) * h + width * (height - h) == width * height
  {
    assert (width - w) * h == width * h - w * h;
    assert width * (height - h) == width * height - width * h;
  }

  /** In a partition of a non-negative region every free space is non-negative
      and fits in the region. */
  lemma {:induction false} FreeSpacesNonNegative(s: Section, region: Size)
    requires Guillotine(s, region)
    requires region.NonNegative()
    ensures forall f :: f in FreeSpaces(s) ==> f.NonNegative() && region.Fits(f)
  {
    match s
    case Space(_) =>
    case Filled(c, right, down) =>
      FreeSpacesNonNegative(right, RightOf(region, c));
      FreeSpacesNonNegative(down, Below(region, c));
  }

  /** A sum of non-negative areas is non-negative and bounds each of its terms. */
  lemma {:induction false} SumSizesBounds(sizes: seq<Size>)
    requires forall f :: f in sizes ==> f.NonNegative()
    ensures 0 <= SumSizes(sizes)
    ensures forall f :: f in sizes ==> f.Area() <= SumSizes(sizes)
  {
    if sizes != [] {
      var f := sizes[0];
      assert f in sizes;
      assert 0 <= f.width * f.height by {
        assert f.NonNegative();
      }
      assert forall g :: g in sizes[1..] ==> g in sizes;
      SumSizesBounds(sizes[1..]);
    }
  }

  /** `areaUsed` never exceeds the area of a non-negative container. */
  lemma AreaUsedBounded(s: Section, region: Size)
    requires Guillotine(s, region)
    requires region.NonNegative()
    ensures 0 <= FreeArea(s)
    ensures AreaUsed(s) <= region.Area()
  {
    FreeSpacesNonNegative(s, region);
    SumSizesBounds(FreeSpaces(s));
    AreaConservation(s, region);
  }

  /** Once `areaUsed` reaches the container's area, no item of positive area
      can be placed any more. */
  lemma SaturatedRejects(s: Section, region: Size, x: Item)
    requires Guillotine(s, region)
    requires region.NonNegative()
    requires AreaUsed(s) >= region.Area()
    requires 0 < x.size.width && 0 < x.size.height
    ensures TraverseAndPlace(s, x).None?
  {
    FreeSpacesNonNegative(s, region);
    SumSizesBounds(FreeSpaces(s));
    AreaConservation(s, region);
    forall f | f in FreeSpaces(s)
      ensures !f.Fits(x.size)
    {
      if f.Fits(x.size) {
        PositiveArea(f);
      }
    }
    PlacedIffRoom(s, x);
  }

  lemma PositiveArea(f: Size)
    requires 0 < f.width && 0 < f.height
    ensures 0 < f.Area()
  {
  }
}
