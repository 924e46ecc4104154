/**
  The internal `pack(_:in:)` of Sources/Alpacka/Alpacka.swift: sort the items,
  feed them one at a time into a section tree that starts as the whole
  container, send the ones that do not fit to the overflow (all remaining ones
  once the used area reaches the container's area), and finally map every
  placed item to its origin.
 */
module Packer {
  import opened Options
  import opened Geometry
  import opened SectionTree
  import opened SectionGeometry

  /** No two positions of `items` hold the same item. */
  predicate Distinct(items: seq<Item>) {
    forall i, j :: 0 <= i < j < |items| ==> items[i] != items[j]
  }

  /** Every item has a non-negative width and height. */
  predicate AllNonNegative(items: seq<Item>) {
    forall x :: x in items ==> x.size.NonNegative()
  }

  /** Heights never increase along `items`. */
  predicate TallestFirst(items: seq<Item>) {
    forall i, j :: 0 <= i < j < |items| ==> items[i].size.height >= items[j].size.height
  }

  /** Inserts `x` before the first item no taller than it. */
  function Insert(x: Item, sorted: seq<Item>): (r: seq<Item>)
    requires TallestFirst(sorted)
    ensures multiset(r) == multiset(sorted) + multiset{x}
    ensures TallestFirst(r)
  {
    if sorted == [] || x.size.height >= sorted[0].size.height then
      PrependTallest(x, sorted);
      [x] + sorted
    else
      var rest := Insert(x, sorted[1..]);
      InsertBelowHead(x, sorted, rest);
      [sorted[0]] + rest
  }

  /** An item at least as tall as the head of a tallest-first sequence can go in front. */
  lemma PrependTallest(x: Item, sorted: seq<Item>)
    requires TallestFirst(sorted)
    requires sorted == [] || x.size.height >= sorted[0].size.height
    ensures TallestFirst([x] + sorted)
  {
    var r := [x] + sorted;
    forall i, j | 0 <= i < j < |r|
      ensures r[i].size.height >= r[j].size.height
    {
      if i == 0 {
        assert r[j] == sorted[j - 1];
      } else {
        assert r[i] == sorted[i - 1] && r[j] == sorted[j - 1];
      }
    }
  }

  /** The recursive step of Insert: `x` went into the tail, below the head. */
  lemma InsertBelowHead(x: Item, sorted: seq<Item>, rest: seq<Item>)
    requires sorted != [] && TallestFirst(sorted) && x.size.height < sorted[0].size.height
    requires TallestFirst(rest) && multiset(rest) == multiset(sorted[1..]) + multiset{x}
    ensures multiset([sorted[0]] + rest) == multiset(sorted) + multiset{x}
    ensures TallestFirst([sorted[0]] + rest)
  {
    assert sorted == [sorted[0]] + sorted[1..];
    forall j | 0 <= j < |rest|
      ensures rest[j].size.height <= sorted[0].size.height
    {
      var e := rest[j];
      assert e in multiset(rest);
      if e != x {
        assert e in multiset(sorted[1..]);
        assert e in sorted[1..];
      }
    }
    var r := [sorted[0]] + rest;
    forall i, j | 0 <= i < j < |r|
      ensures r[i].size.height >= r[j].size.height
    {
      assert r[j] == rest[j - 1];
      if i > 0 {
        assert r[i] == rest[i - 1];
      }
    }
  }

  /** The order the model processes items in: tallest first, and items of
      equal height in their input order. The library's comparator also looks
      at hash values, so its order is some permutation of the input that this
      fixed order stands in for. */
  function SortByHeight(items: seq<Item>): (r: seq<Item>)
    ensures multiset(r) == multiset(items)
    ensures TallestFirst(r)
  {
    if items == [] then []
    else
      assert items == [items[0]] + items[1..];
      Insert(items[0], SortByHeight(items[1..]))
  }

  /** `whole` is `left` and `right` interleaved: every element of `whole` goes to
      exactly one of them, and both keep the order of `whole`. */
  predicate Merges(whole: seq<Item>, left: seq<Item>, right: seq<Item>)
    decreases |whole|
  {
    if whole == [] then left == [] && right == []
    else
      || (left != [] && left[0] == whole[0] && Merges(whole[1..], left[1..], right))
      || (right != [] && right[0] == whole[0] && Merges(whole[1..], left, right[1..]))
  }

  lemma {:induction false} MergesAllRight(whole: seq<Item>)
    ensures Merges(whole, [], whole)
    decreases |whole|
  {
    if whole != [] {
      MergesAllRight(whole[1..]);
    }
  }

  lemma {:induction false} MergesMultiset(whole: seq<Item>, left: seq<Item>, right: seq<Item>)
    requires Merges(whole, left, right)
    ensures multiset(whole) == multiset(left) + multiset(right)
    decreases |whole|
  {
    if whole != [] {
      assert whole == [whole[0]] + whole[1..];
      if left != [] && left[0] == whole[0] && Merges(whole[1..], left[1..], right) {
        MergesMultiset(whole[1..], left[1..], right);
        assert left == [left[0]] + left[1..];
      } else {
        MergesMultiset(whole[1..], left, right[1..]);
        assert right == [right[0]] + right[1..];
      }
    }
  }

  /** The state of the placement loop: the tree, the items placed (`added`)
      and the items sent to the overflow, in order. */
  datatype Outcome = Outcome(tree: Section, added: seq<Item>, overFlow: seq<Item>)

  /** The placement loop of `pack`, run on the items still to process. */
  function Drive(tree: Section, rest: seq<Item>, container: Size): (o: Outcome)
    ensures Merges(rest, o.added, o.overFlow)
    decreases |rest|
  {
    if rest == [] then Outcome(tree, [], [])
    else
      var item := rest[0];
      var attempt := TraverseAndPlace(tree, item);
      if attempt.Some? then
        var o := Drive(attempt.value, rest[1..], container);
        assert ([item] + o.added)[1..] == o.added;
        Outcome(o.tree, [item] + o.added, o.overFlow)
      else if AreaUsed(tree) >= container.Area() then
        MergesAllRight(rest);
        Outcome(tree, [], rest)
      else
        var o := Drive(tree, rest[1..], container);
        assert ([item] + o.overFlow)[1..] == o.overFlow;
        Outcome(o.tree, o.added, [item] + o.overFlow)
  }

  /** The reduction that builds `packedDict`: each item of `added` is mapped to
      its origin in `tree`; an item without one (the `assert(false)` branch) is
      skipped. */
  function CollectOrigins(tree: Section, added: seq<Item>, acc: map<Item, Point>): (m: map<Item, Point>)
    ensures forall x :: x in m <==> x in acc || (x in added && Origin(tree, x, 0, 0).Some?)
    ensures forall x :: x in added && Origin(tree, x, 0, 0).Some? ==> x in m && Origin(tree, x, 0, 0) == Some(m[x])
    ensures forall x :: x in m && (x !in added || Origin(tree, x, 0, 0).None?) ==> m[x] == acc[x]
    decreases |added|
  {
    if added == [] then acc
    else
      var next := added[0];
      var origin := Origin(tree, next, 0, 0);
      assert forall x :: x in added[1..] ==> x in added;
      assert forall x :: x in added ==> x == next || x in added[1..];
      if origin.None? then CollectOrigins(tree, added[1..], acc)
      else CollectOrigins(tree, added[1..], acc[next := origin.value])
  }

  /** What `pack(_:in:)` returns. */
  datatype Packing = Packing(packed: map<Item, Point>, overFlow: seq<Item>)

  /** `pack(_:in:)` once its items are in the order `sorted`: the placement
      loop, then the map from each placed item to its origin. */
  function PackWith(sorted: seq<Item>, size: Size): Packing {
    var o := Drive(Space(size), sorted, size);
    Packing(CollectOrigins(o.tree, o.added, map[]), o.overFlow)
  }

  /** `pack(_:in:)` as a function of its inputs, in the model's order. */
  function PackSpec(items: seq<Item>, size: Size): Packing {
    PackWith(SortByHeight(items), size)
  }

  /** Every input item is either packed or in the overflow, nothing else is,
      and for distinct inputs no item is in both. */
  predicate Partitions(items: seq<Item>, p: Packing) {
    && (forall x :: x in p.packed ==> x in items)
    && (forall x :: x in p.overFlow ==> x in items)
    && (forall x :: x in items ==> x in p.packed || x in p.overFlow)
    && (Distinct(items) ==> forall x :: x in p.packed ==> x !in p.overFlow)
  }

  /** Every packed item, at its origin, lies inside the container. */
  predicate PlacedInside(p: Packing, size: Size) {
    forall x :: x in p.packed ==> Within(Rect(p.packed[x], x.size), Rect(Point(0, 0), size))
  }

  /** No two packed items overlap. */
  predicate NoOverlaps(p: Packing) {
    forall x, y :: x in p.packed && y in p.packed && x != y ==>
      !Overlap(Rect(p.packed[x], x.size), Rect(p.packed[y], y.size))
  }

  /** `pack(_:in:)`. Its result is `PackWith` at the model's order, which is
      `PackSpec(items, size)` by definition. */
  method Pack(items: seq<Item>, size: Size) returns (packed: map<Item, Point>, overFlow: seq<Item>)
    ensures Packing(packed, overFlow) == PackWith(SortByHeight(items), size)
    ensures Partitions(items, Packing(packed, overFlow))
    ensures AllNonNegative(items) ==> PlacedInside(Packing(packed, overFlow), size)
    ensures AllNonNegative(items) ==> NoOverlaps(Packing(packed, overFlow))
  {
    var tree := Space(size);
    overFlow := [];
    var added: seq<Item> := [];
    var sorted := SortByHeight(items);
    ghost var whole := Drive(Space(size), sorted, size);
    ResumeStart(whole, sorted, size);
    var index := 0;
    while index < |sorted|
      invariant index <= |sorted|
      invariant Resumes(whole, tree, sorted[index..], size, added, overFlow)
    {
      var item := sorted[index];
      var attempt := TraverseAndPlace(tree, item);
      if attempt.None? {
        if AreaUsed(tree) >= size.Area() {
          ResumeSaturated(whole, tree, sorted, index, size, added, overFlow);
          overFlow := overFlow + [item] + sorted[index + 1..];
          break;
        }
        ResumeRejected(whole, tree, sorted, index, size, added, overFlow);
        overFlow := overFlow + [item];
      } else {
        ResumePlaced(whole, tree, sorted, index, size, added, overFlow);
        tree := attempt.value;
        added := added + [item];
      }
      index := index + 1;
    }
    if index == |sorted| {
      ResumeDone(whole, tree, sorted, size, added, overFlow);
    }
    packed := CollectOrigins(tree, added, map[]);
    PackFinished(items, size, tree, added, overFlow);
  }

  /** After the loop: the origin map of the final state is `PackSpec`, and
      PackSpecSound applies to it. */
  lemma PackFinished(items: seq<Item>, size: Size, tree: Section, added: seq<Item>, overFlow: seq<Item>)
    requires Drive(Space(size), SortByHeight(items), size) == Outcome(tree, added, overFlow)
    ensures var p := Packing(CollectOrigins(tree, added, map[]), overFlow);
            && p == PackWith(SortByHeight(items), size)
            && Partitions(items, p)
            && (AllNonNegative(items) ==> PlacedInside(p, size))
            && (AllNonNegative(items) ==> NoOverlaps(p))
  {
    PackSpecSound(items, size);
  }

  /** The loop invariant of `Pack`: the accumulators, followed by what `Drive`
      does with the items not yet processed, make up the whole run. */
  ghost predicate Resumes(whole: Outcome, tree: Section, rest: seq<Item>, container: Size,
                          added: seq<Item>, overFlow: seq<Item>) {
    var o := Drive(tree, rest, container);
    whole == Outcome(o.tree, added + o.added, overFlow + o.overFlow)
  }

  /** Before the loop: nothing is accumulated and every item is still to come. */
  lemma ResumeStart(whole: Outcome, sorted: seq<Item>, container: Size)
    requires whole == Drive(Space(container), sorted, container)
    ensures Resumes(whole, Space(container), sorted[0..], container, [], [])
  {
    assert sorted[0..] == sorted;
  }

  /** After the last item: the accumulators are the whole run. */
  lemma ResumeDone(whole: Outcome, tree: Section, sorted: seq<Item>, container: Size,
                   added: seq<Item>, overFlow: seq<Item>)
    requires Resumes(whole, tree, sorted[|sorted|..], container, added, overFlow)
    ensures whole == Outcome(tree, added, overFlow)
  {
    assert sorted[|sorted|..] == [];
    assert added + [] == added && overFlow + [] == overFlow;
  }

  /** The loop step that places the next item. */
  lemma ResumePlaced(whole: Outcome, tree: Section, sorted: seq<Item>, index: nat, container: Size,
                     added: seq<Item>, overFlow: seq<Item>)
    requires index < |sorted| && TraverseAndPlace(tree, sorted[index]).Some?
    requires Resumes(whole, tree, sorted[index..], container, added, overFlow)
    ensures Resumes(whole, TraverseAndPlace(tree, sorted[index]).value, sorted[index + 1..], container,
                    added + [sorted[index]], overFlow)
  {
    var rest := sorted[index..];
    assert rest[0] == sorted[index] && rest[1..] == sorted[index + 1..];
    var o := Drive(TraverseAndPlace(tree, rest[0]).value, rest[1..], container);
    assert added + ([rest[0]] + o.added) == added + [rest[0]] + o.added;
  }

  /** The loop step that sends the next item to the overflow and goes on. */
  lemma ResumeRejected(whole: Outcome, tree: Section, sorted: seq<Item>, index: nat, container: Size,
                       added: seq<Item>, overFlow: seq<Item>)
    requires index < |sorted| && TraverseAndPlace(tree, sorted[index]).None?
    requires AreaUsed(tree) < container.Area()
    requires Resumes(whole, tree, sorted[index..], container, added, overFlow)
    ensures Resumes(whole, tree, sorted[index + 1..], container, added, overFlow + [sorted[index]])
  {
    var rest := sorted[index..];
    assert rest[0] == sorted[index] && rest[1..] == sorted[index + 1..];
    var o := Drive(tree, rest[1..], container);
    assert overFlow + ([rest[0]] + o.overFlow) == overFlow + [rest[0]] + o.overFlow;
  }

  /** The loop step that breaks: the next item and every later one overflow. */
  lemma ResumeSaturated(whole: Outcome, tree: Section, sorted: seq<Item>, index: nat, container: Size,
                        added: seq<Item>, overFlow: seq<Item>)
    requires index < |sorted| && TraverseAndPlace(tree, sorted[index]).None?
    requires AreaUsed(tree) >= container.Area()
    requires Resumes(whole, tree, sorted[index..], container, added, overFlow)
    ensures whole == Outcome(tree, added, overFlow + [sorted[index]] + sorted[index + 1..])
  {
    var rest := sorted[index..];
    assert [sorted[index]] + sorted[index + 1..] == rest;
    assert overFlow + [sorted[index]] + sorted[index + 1..] == overFlow + rest;
  }

  /** The loop hits the `break`: some item finds no room once the used area
      has reached the container's. */
  predicate Breaks(tree: Section, rest: seq<Item>, container: Size)
    decreases |rest|
  {
    rest != [] &&
    var attempt := TraverseAndPlace(tree, rest[0]);
    if attempt.Some? then Breaks(attempt.value, rest[1..], container)
    else AreaUsed(tree) >= container.Area() || Breaks(tree, rest[1..], container)
  }

  /** When the loop breaks off within `a`, running it over `a + b` just
      appends `b` to the overflow. */
  lemma {:induction false} DriveSplitBroken(tree: Section, a: seq<Item>, b: seq<Item>, container: Size)
    requires Breaks(tree, a, container)
    ensures var p := Drive(tree, a, container);
            Drive(tree, a + b, container) == Outcome(p.tree, p.added, p.overFlow + b)
    decreases |a|
  {
    assert (a + b)[0] == a[0] && (a + b)[1..] == a[1..] + b;
    var attempt := TraverseAndPlace(tree, a[0]);
    if attempt.Some? {
      DriveSplitBroken(attempt.value, a[1..], b, container);
    } else if AreaUsed(tree) >= container.Area() {
      assert a + b == [] + a + b;
    } else {
      DriveSplitBroken(tree, a[1..], b, container);
      var p := Drive(tree, a[1..], container);
      assert [a[0]] + (p.overFlow + b) == ([a[0]] + p.overFlow) + b;
    }
  }

  /** When the loop does not break off within `a`, running it over `a + b` is
      running it over `a` and then over `b` from the tree `a` left. */
  lemma {:induction false} DriveSplitThrough(tree: Section, a: seq<Item>, b: seq<Item>, container: Size)
    requires !Breaks(tree, a, container)
    ensures var p := Drive(tree, a, container);
            var q := Drive(p.tree, b, container);
            Drive(tree, a + b, container) == Outcome(q.tree, p.added + q.added, p.overFlow + q.overFlow)
    decreases |a|
  {
    if a == [] {
      assert a + b == b;
    } else {
      assert (a + b)[0] == a[0] && (a + b)[1..] == a[1..] + b;
      var attempt := TraverseAndPlace(tree, a[0]);
      if attempt.Some? {
        DriveSplitThrough(attempt.value, a[1..], b, container);
        var p := Drive(attempt.value, a[1..], container);
        var q := Drive(p.tree, b, container);
        assert [a[0]] + (p.added + q.added) == ([a[0]] + p.added) + q.added;
      } else {
        DriveSplitThrough(tree, a[1..], b, container);
        var p := Drive(tree, a[1..], container);
        var q := Drive(p.tree, b, container);
        assert [a[0]] + (p.overFlow + q.overFlow) == ([a[0]] + p.overFlow) + q.overFlow;
      }
    }
  }

  /** The saturation `break`: when the loop first breaks off at sorted position
      `k`, the overflow is what overflowed before `k` followed by all of
      `sorted[k..]` in order, the packed items are exactly those placed before
      `k`, and for distinct inputs no item from `k` on is packed. */
  lemma PackSaturationBreak(items: seq<Item>, size: Size, k: nat)
    requires k < |SortByHeight(items)|
    requires var sorted := SortByHeight(items);
             var p := Drive(Space(size), sorted[..k], size);
             && !Breaks(Space(size), sorted[..k], size)
             && TraverseAndPlace(p.tree, sorted[k]).None?
             && AreaUsed(p.tree) >= size.Area()
    ensures var sorted := SortByHeight(items);
            var p := Drive(Space(size), sorted[..k], size);
            && PackSpec(items, size).overFlow == p.overFlow + sorted[k..]
            && (forall x :: x in PackSpec(items, size).packed <==> x in p.added)
            && (Distinct(items) ==> forall x :: x in sorted[k..] ==> x !in PackSpec(items, size).packed)
  {
    var sorted := SortByHeight(items);
    var p := Drive(Space(size), sorted[..k], size);
    BreakRun(sorted, size, k);
    PackedKeys(items, sorted, size);
    if Distinct(items) {
      forall x | x in sorted[k..] ensures x !in p.added {
        PlacedBeforeBreak(items, sorted, p.added, p.overFlow, k, x);
      }
    }
  }

  /** The whole run when the loop first breaks off at position `k`. */
  lemma BreakRun(sorted: seq<Item>, size: Size, k: nat)
    requires k < |sorted|
    requires var p := Drive(Space(size), sorted[..k], size);
             && !Breaks(Space(size), sorted[..k], size)
             && TraverseAndPlace(p.tree, sorted[k]).None?
             && AreaUsed(p.tree) >= size.Area()
    ensures var p := Drive(Space(size), sorted[..k], size);
            Drive(Space(size), sorted, size) == Outcome(p.tree, p.added, p.overFlow + sorted[k..])
  {
    var p := Drive(Space(size), sorted[..k], size);
    DriveSplitThrough(Space(size), sorted[..k], sorted[k..], size);
    assert sorted[..k] + sorted[k..] == sorted;
    assert sorted[k..][0] == sorted[k];
    assert Drive(p.tree, sorted[k..], size) == Outcome(p.tree, [], sorted[k..]);
    assert p.added + [] == p.added;
  }

  /** For distinct inputs, an item at or after position `k` is not among the
      items placed from `sorted[..k]`. */
  lemma PlacedBeforeBreak(items: seq<Item>, sorted: seq<Item>, added: seq<Item>, overFlow: seq<Item>, k: nat, x: Item)
    requires Distinct(items) && multiset(sorted) == multiset(items)
    requires k <= |sorted| && Merges(sorted[..k], added, overFlow)
    requires x in sorted[k..]
    ensures x !in added
  {
    if x in added {
      MergesMultiset(sorted[..k], added, overFlow);
      assert sorted == sorted[..k] + sorted[k..];
      assert x in multiset(sorted[..k]) && x in multiset(sorted[k..]);
      DistinctOnce(items, x);
      assert false;
    }
  }

  /** The items `Drive` places are exactly the ones added to the tree. */
  lemma {:induction false} DriveAddsItems(tree: Section, rest: seq<Item>, container: Size)
    ensures multiset(AllChildren(Drive(tree, rest, container).tree))
            == multiset(AllChildren(tree)) + multiset(Drive(tree, rest, container).added)
    decreases |rest|
  {
    if rest != [] {
      var attempt := TraverseAndPlace(tree, rest[0]);
      if attempt.Some? {
        PlacementAddsOneItem(tree, rest[0]);
        DriveAddsItems(attempt.value, rest[1..], container);
      } else if AreaUsed(tree) < container.Area() {
        DriveAddsItems(tree, rest[1..], container);
      }
    }
  }

  /** The tree `Drive` ends with is still a guillotine partition of the container. */
  lemma {:induction false} DriveKeepsGuillotine(tree: Section, rest: seq<Item>, container: Size)
    requires Guillotine(tree, container)
    requires AllNonNegative(rest)
    ensures Guillotine(Drive(tree, rest, container).tree, container)
    decreases |rest|
  {
    if rest != [] {
      assert rest[0] in rest;
      assert forall x :: x in rest[1..] ==> x in rest;
      var attempt := TraverseAndPlace(tree, rest[0]);
      if attempt.Some? {
        PlacementKeepsGuillotine(tree, container, rest[0]);
        DriveKeepsGuillotine(attempt.value, rest[1..], container);
      } else if AreaUsed(tree) < container.Area() {
        DriveKeepsGuillotine(tree, rest[1..], container);
      }
    }
  }

  /** A distinct sequence holds each item at most once. */
  lemma {:induction false} DistinctOnce(items: seq<Item>, x: Item)
    requires Distinct(items)
    ensures multiset(items)[x] <= 1
  {
    if items != [] {
      assert items == [items[0]] + items[1..];
      assert Distinct(items[1..]);
      DistinctOnce(items[1..], x);
      if items[0] == x {
        assert x !in items[1..];
      }
    }
  }

  /** The placement loop over all sorted items: it partitions the input into
      placed and overflowed items, the placed ones are exactly the items in the
      final tree, so each of them has an origin (the `assert(false)` of the
      origin reduction is unreachable), and with non-negative sizes the final
      tree is a guillotine partition of the container. */
  lemma PackOutcome(items: seq<Item>, sorted: seq<Item>, size: Size)
    requires multiset(sorted) == multiset(items)
    ensures var o := Drive(Space(size), sorted, size);
            && multiset(o.added) + multiset(o.overFlow) == multiset(items)
            && (forall x :: x in o.added <==> x in AllChildren(o.tree))
            && (forall x :: x in o.added ==> Origin(o.tree, x, 0, 0).Some?)
            && (AllNonNegative(items) ==> Guillotine(o.tree, size))
  {
    var o := Drive(Space(size), sorted, size);
    MergesMultiset(sorted, o.added, o.overFlow);
    DriveAddsItems(Space(size), sorted, size);
    forall x ensures x in o.added <==> x in AllChildren(o.tree) {
      assert x in o.added <==> x in multiset(o.added);
      assert x in AllChildren(o.tree) <==> x in multiset(AllChildren(o.tree));
    }
    forall x | x in o.added ensures Origin(o.tree, x, 0, 0).Some? {
      OriginFound(o.tree, x, 0, 0);
    }
    if AllNonNegative(items) {
      forall x | x in sorted ensures x.size.NonNegative() {
        assert x in multiset(sorted);
        assert x in multiset(items);
      }
      DriveKeepsGuillotine(Space(size), sorted, size);
    }
  }

  /** `pack(_:in:)` keeps its promises: a partition of the input, every placed
      item inside the container, no two placed items overlapping. */
  lemma PackSpecSound(items: seq<Item>, size: Size)
    ensures Partitions(items, PackSpec(items, size))
    ensures AllNonNegative(items) ==> PlacedInside(PackSpec(items, size), size)
    ensures AllNonNegative(items) ==> NoOverlaps(PackSpec(items, size))
  {
    PackAnyOrderSound(items, SortByHeight(items), size);
  }

  /** The same promises hold whatever permutation of the input the sort
      produces, so they cover every order the library's comparator can give. */
  lemma PackAnyOrderSound(items: seq<Item>, sorted: seq<Item>, size: Size)
    requires multiset(sorted) == multiset(items)
    ensures Partitions(items, PackWith(sorted, size))
    ensures AllNonNegative(items) ==> PlacedInside(PackWith(sorted, size), size)
    ensures AllNonNegative(items) ==> NoOverlaps(PackWith(sorted, size))
  {
    PackPartitions(items, sorted, size);
    if AllNonNegative(items) {
      PackGeometry(items, sorted, size);
    }
  }

  /** The partition half of PackAnyOrderSound. */
  lemma PackPartitions(items: seq<Item>, sorted: seq<Item>, size: Size)
    requires multiset(sorted) == multiset(items)
    ensures Partitions(items, PackWith(sorted, size))
  {
    var o := Drive(Space(size), sorted, size);
    MergesMultiset(sorted, o.added, o.overFlow);
    PackedKeys(items, sorted, size);
    var p := PackWith(sorted, size);
    forall x | x in p.packed ensures x in items {
      assert x in multiset(o.added);
      assert x in multiset(items);
    }
    forall x | x in p.overFlow ensures x in items {
      assert x in multiset(o.overFlow);
      assert x in multiset(items);
    }
    forall x | x in items ensures x in p.packed || x in p.overFlow {
      assert x in multiset(items);
    }
    if Distinct(items) {
      forall x | x in p.packed ensures x !in p.overFlow {
        DistinctOnce(items, x);
        assert x in multiset(o.added);
      }
    }
  }

  /** The keys of the origin map are exactly the placed items. */
  lemma PackedKeys(items: seq<Item>, sorted: seq<Item>, size: Size)
    requires multiset(sorted) == multiset(items)
    ensures var o := Drive(Space(size), sorted, size);
            forall x :: x in PackWith(sorted, size).packed <==> x in o.added
  {
    PackOutcome(items, sorted, size);
  }

  /** The geometric half of PackAnyOrderSound. */
  lemma PackGeometry(items: seq<Item>, sorted: seq<Item>, size: Size)
    requires multiset(sorted) == multiset(items)
    requires AllNonNegative(items)
    ensures PlacedInside(PackWith(sorted, size), size)
    ensures NoOverlaps(PackWith(sorted, size))
  {
    var o := Drive(Space(size), sorted, size);
    PackOutcome(items, sorted, size);
    var p := PackWith(sorted, size);
    assert forall x :: x in p.packed ==> x in o.added && Some(p.packed[x]) == Origin(o.tree, x, 0, 0);
    forall x | x in p.packed
      ensures Within(Rect(p.packed[x], x.size), Rect(Point(0, 0), size))
    {
      OriginWithin(o.tree, size, x, 0, 0);
    }
    forall x, y | x in p.packed && y in p.packed && x != y
      ensures !Overlap(Rect(p.packed[x], x.size), Rect(p.packed[y], y.size))
    {
      OriginsDisjoint(o.tree, size, x, y, 0, 0);
    }
  }

  /** An item that fits nowhere in a tree fits nowhere in the tree the rest of
      the loop ends with. */
  lemma {:induction false} DriveKeepsFailures(tree: Section, rest: seq<Item>, container: Size, y: Item)
    requires TraverseAndPlace(tree, y).None?
    requires AllNonNegative(rest)
    ensures TraverseAndPlace(Drive(tree, rest, container).tree, y).None?
    decreases |rest|
  {
    if rest != [] {
      assert rest[0] in rest;
      assert forall x :: x in rest[1..] ==> x in rest;
      var attempt := TraverseAndPlace(tree, rest[0]);
      if attempt.Some? {
        PlacementKeepsFailures(tree, rest[0], y);
        DriveKeepsFailures(attempt.value, rest[1..], container, y);
      } else if AreaUsed(tree) < container.Area() {
        DriveKeepsFailures(tree, rest[1..], container, y);
      }
    }
  }

  /** Every overflowed item of positive area fits nowhere in the final tree:
      the ones rejected one by one because placement never makes room, and the
      ones sent to the overflow in bulk because the container was full by area. */
  lemma {:induction false} DriveOverflowRejected(tree: Section, rest: seq<Item>, container: Size)
    requires Guillotine(tree, container)
    requires container.NonNegative()
    requires AllNonNegative(rest)
    ensures forall x :: x in Drive(tree, rest, container).overFlow && 0 < x.size.width && 0 < x.size.height ==>
              TraverseAndPlace(Drive(tree, rest, container).tree, x).None?
    decreases |rest|
  {
    if rest != [] {
      var item := rest[0];
      assert item in rest;
      assert forall x :: x in rest[1..] ==> x in rest;
      var attempt := TraverseAndPlace(tree, item);
      if attempt.Some? {
        PlacementKeepsGuillotine(tree, container, item);
        DriveOverflowRejected(attempt.value, rest[1..], container);
      } else if AreaUsed(tree) >= container.Area() {
        forall x | x in rest && 0 < x.size.width && 0 < x.size.height
          ensures TraverseAndPlace(tree, x).None?
        {
          SaturatedRejects(tree, container, x);
        }
      } else {
        DriveOverflowRejected(tree, rest[1..], container);
        DriveKeepsFailures(tree, rest[1..], container, item);
      }
    }
  }

  /** The loop adds the area of every placed item to `areaUsed`. */
  lemma {:induction false} DriveAreaUsed(tree: Section, rest: seq<Item>, container: Size)
    ensures AreaUsed(Drive(tree, rest, container).tree) == AreaUsed(tree) + SumAreas(Drive(tree, rest, container).added)
    decreases |rest|
  {
    if rest != [] {
      var attempt := TraverseAndPlace(tree, rest[0]);
      if attempt.Some? {
        PlacementAddsArea(tree, rest[0]);
        DriveAreaUsed(attempt.value, rest[1..], container);
        var added := Drive(attempt.value, rest[1..], container).added;
        assert ([rest[0]] + added)[1..] == added;
      } else if AreaUsed(tree) < container.Area() {
        DriveAreaUsed(tree, rest[1..], container);
      }
    }
  }

  /** The placed items' areas add up to at most the container's area. */
  lemma PackedAreaBound(items: seq<Item>, size: Size)
    requires AllNonNegative(items)
    requires size.NonNegative()
    ensures var o := Drive(Space(size), SortByHeight(items), size);
            && (forall x :: x in PackSpec(items, size).packed <==> x in o.added)
            && SumAreas(o.added) <= size.Area()
  {
    var o := Drive(Space(size), SortByHeight(items), size);
    PackOutcome(items, SortByHeight(items), size);
    DriveAreaUsed(Space(size), SortByHeight(items), size);
    AreaUsedBounded(o.tree, size);
  }

  /** Every overflowed item of positive area fits nowhere in the final tree. */
  lemma PackOverflowRejected(items: seq<Item>, size: Size)
    requires AllNonNegative(items)
    requires size.NonNegative()
    ensures var o := Drive(Space(size), SortByHeight(items), size);
            forall x :: x in PackSpec(items, size).overFlow && 0 < x.size.width && 0 < x.size.height ==>
              TraverseAndPlace(o.tree, x).None?
  {
    var sorted := SortByHeight(items);
    forall x | x in sorted ensures x.size.NonNegative() {
      assert x in multiset(sorted);
      assert x in multiset(items);
    }
    DriveOverflowRejected(Space(size), sorted, size);
  }
}
