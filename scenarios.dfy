/**
  Concrete runs of the packer: the behaviour the library's tests assert and
  the edge cases of empty, zero-sized, oversized and saturating inputs.
 */
module Scenarios {
  import opened Options
  import opened Geometry
  import opened SectionTree
  import opened Packer

  /** Empty input: nothing packed, nothing overflowed. */
  lemma EmptyInput(size: Size)
    ensures PackSpec([], size) == Packing(map[], [])
  {
  }

  /** `areaUsed` is 0 on free space and 1 after placing a 1×1 item into a 10×10 space. */
  lemma AreaUsedOfPlace()
    ensures AreaUsed(Space(Size(10, 10))) == 0
    ensures AreaUsed(Place(Space(Size(10, 10)), Item(0, Size(1, 1)))) == 1
  {
  }

  /** Two 10×10 items in a 10×10 container: the first is packed at the corner,
      the second overflows. */
  lemma TwoFullSizeItems()
    ensures var a, b := Item(0, Size(10, 10)), Item(1, Size(10, 10));
            PackSpec([a, b], Size(10, 10)) == Packing(map[a := Point(0, 0)], [b])
  {
    var a, b := Item(0, Size(10, 10)), Item(1, Size(10, 10));
    TwoFullSizeDrive(a, b);
    CornerOrigin(a);
  }

  /** The run behind TwoFullSizeItems: the sort keeps the input order, the
      first item is placed and the second overflows. */
  lemma TwoFullSizeDrive(a: Item, b: Item)
    requires a.size == Size(10, 10) && b.size == Size(10, 10)
    ensures SortByHeight([a, b]) == [a, b]
    ensures Drive(Space(Size(10, 10)), [a, b], Size(10, 10)) == Outcome(Place(Space(Size(10, 10)), a), [a], [b])
  {
    var tree := Place(Space(Size(10, 10)), a);
    assert [a, b][1..] == [b];
    assert SortByHeight([b]) == [b];
    FullTreeRejects(a, b);
    assert Drive(tree, [b], Size(10, 10)) == Outcome(tree, [], [b]);
    assert TraverseAndPlace(Space(Size(10, 10)), a) == Some(tree);
  }

  /** The only item of a tree built by one placement has its origin at the corner. */
  lemma CornerOrigin(a: Item)
    ensures CollectOrigins(Place(Space(Size(10, 10)), a), [a], map[]) == map[a := Point(0, 0)]
  {
    var tree := Place(Space(Size(10, 10)), a);
    assert Origin(tree, a, 0, 0) == Some(Point(0, 0));
    assert [a][1..] == [];
  }

  /** A 0×0 item is packed at the corner of a 100×10000 container. */
  lemma ZeroSizeItemAtCorner()
    ensures var z := Item(0, Size(0, 0));
            PackSpec([z], Size(100, 10000)) == Packing(map[z := Point(0, 0)], [])
  {
    var z := Item(0, Size(0, 0));
    var tree := Place(Space(Size(100, 10000)), z);
    assert Drive(Space(Size(100, 10000)), [z], Size(100, 10000)) == Outcome(tree, [z], []);
  }

  /** An item larger than the container overflows and nothing is packed. */
  lemma OversizeItemOverflows()
    ensures var big := Item(0, Size(20, 20));
            PackSpec([big], Size(10, 10)) == Packing(map[], [big])
  {
    var big := Item(0, Size(20, 20));
    assert !Size(10, 10).Fits(big.size);
    assert TraverseAndPlace(Space(Size(10, 10)), big).None?;
  }

  /** The saturation break is sound only for items of positive area: once a
      10×10 container is full, a 0×5 item is sent to the overflow in bulk
      although it would fit in the zero-width strip right of the first item. */
  lemma SaturationSkipsZeroAreaItem()
    ensures var a, b, z := Item(0, Size(10, 10)), Item(1, Size(10, 10)), Item(2, Size(0, 5));
            && PackSpec([a, b, z], Size(10, 10)).overFlow == [b, z]
            && TraverseAndPlace(Place(Space(Size(10, 10)), a), z).Some?
  {
    var a, b, z := Item(0, Size(10, 10)), Item(1, Size(10, 10)), Item(2, Size(0, 5));
    SaturationDrive(a, b, z);
    assert PackSpec([a, b, z], Size(10, 10)).overFlow == Drive(Space(Size(10, 10)), [a, b, z], Size(10, 10)).overFlow;
    ZeroWidthStripFits(a, z);
  }

  /** The strip right of a full-size item is 0 wide, and a 0-wide item fits it. */
  lemma ZeroWidthStripFits(a: Item, z: Item)
    requires a.size == Size(10, 10) && z.size == Size(0, 5)
    ensures TraverseAndPlace(Place(Space(Size(10, 10)), a), z).Some?
  {
    var tree := Place(Space(Size(10, 10)), a);
    assert tree.right == Space(Size(0, 10));
    assert TraverseAndPlace(tree.right, z).Some?;
  }

  /** The run behind SaturationSkipsZeroAreaItem: the sort keeps the input
      order and the loop stops after the first item. */
  lemma SaturationDrive(a: Item, b: Item, z: Item)
    requires a == Item(0, Size(10, 10)) && b == Item(1, Size(10, 10)) && z == Item(2, Size(0, 5))
    ensures SortByHeight([a, b, z]) == [a, b, z]
    ensures Drive(Space(Size(10, 10)), [a, b, z], Size(10, 10)).overFlow == [b, z]
  {
    SaturationSort(a, b, z);
    var tree := Place(Space(Size(10, 10)), a);
    FullTreeRejects(a, b);
    assert [a, b, z][1..] == [b, z];
    assert TraverseAndPlace(Space(Size(10, 10)), a) == Some(tree);
    assert Drive(tree, [b, z], Size(10, 10)) == Outcome(tree, [], [b, z]);
  }

  /** Sorting a 10×10, a 10×10 and a 0×5 item keeps their order. */
  lemma SaturationSort(a: Item, b: Item, z: Item)
    requires a.size.height == 10 && b.size.height == 10 && z.size.height == 5
    ensures SortByHeight([a, b, z]) == [a, b, z]
  {
    assert [a, b, z][1..] == [b, z];
    assert [b, z][1..] == [z];
    assert SortByHeight([z]) == [z];
    assert SortByHeight([b, z]) == [b, z];
  }

  /** A 10×10 container holding a 10×10 item has no room for another item of positive area,
      and its used area is the container's. */
  lemma FullTreeRejects(a: Item, b: Item)
    requires a.size == Size(10, 10) && 0 < b.size.width && 0 < b.size.height
    ensures TraverseAndPlace(Place(Space(Size(10, 10)), a), b).None?
    ensures AreaUsed(Place(Space(Size(10, 10)), a)) == 100
  {
    var tree := Place(Space(Size(10, 10)), a);
    assert FreeSpaces(tree) == [Size(0, 10), Size(10, 0)];
    assert AllChildren(tree) == [a];
    assert SumAreas([a]) == a.size.Area() + SumAreas([]);
  }

  /** The split into packed and overflowed items depends on the processing
      order: of a 10×5 and a 10×10 item in a 10×10 container, whichever comes
      first is placed and the other overflows. The model's order puts the
      10×10 item first. */
  lemma OrderDecidesOverflow()
    ensures var t, f := Item(0, Size(10, 5)), Item(1, Size(10, 10));
            && Drive(Space(Size(10, 10)), [t, f], Size(10, 10)).overFlow == [f]
            && Drive(Space(Size(10, 10)), [f, t], Size(10, 10)).overFlow == [t]
            && SortByHeight([t, f]) == [f, t]
  {
    var t, f := Item(0, Size(10, 5)), Item(1, Size(10, 10));
    ShortFirstRun(t, f);
    TallFirstRun(f, t);
    assert [t, f][1..] == [f];
    assert SortByHeight([f]) == [f];
  }

  /** A 10×5 item placed first leaves no room for a 10×10 one. */
  lemma ShortFirstRun(t: Item, f: Item)
    requires t.size == Size(10, 5) && f.size == Size(10, 10)
    ensures Drive(Space(Size(10, 10)), [t, f], Size(10, 10)).overFlow == [f]
  {
    var tree := Place(Space(Size(10, 10)), t);
    assert FreeSpaces(tree) == [Size(0, 5), Size(10, 5)];
    assert TraverseAndPlace(tree, f).None? by {
      PlacedIffRoom(tree, f);
    }
    assert AllChildren(tree) == [t];
    assert SumAreas([t]) == t.size.Area() + SumAreas([]);
    assert Drive(tree, [f], Size(10, 10)).overFlow == [f] by {
      assert [f][1..] == [];
    }
    assert [t, f][1..] == [f];
    assert TraverseAndPlace(Space(Size(10, 10)), t) == Some(tree);
  }

  /** A 10×10 item placed first fills the container and the 10×5 one overflows. */
  lemma TallFirstRun(f: Item, t: Item)
    requires f.size == Size(10, 10) && t.size == Size(10, 5)
    ensures Drive(Space(Size(10, 10)), [f, t], Size(10, 10)).overFlow == [t]
  {
    var tree := Place(Space(Size(10, 10)), f);
    FullTreeRejects(f, t);
    assert [f, t][1..] == [t];
    assert TraverseAndPlace(Space(Size(10, 10)), f) == Some(tree);
    assert Drive(tree, [t], Size(10, 10)) == Outcome(tree, [], [t]);
  }
}
