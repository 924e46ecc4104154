# Alpacka packing engine in Dafny

Alpacka is a 2D rectangle bin-packer. It arranges sized items in a
container with a guillotine, right-then-down strategy. This project models
its packing engine:

- **`Size`** (module `Geometry`): width and height, `area` and `fits`. It
  also holds the `Point` and `Rect` values used to state containment and
  non-overlap.
- **The `Section` tree** (module `SectionTree`). A node is either free
  `Space(size)` or a `Filled(item, right, down)` node. It has four
  operations:
  - `traverseAndPlace` searches the free spaces right before down.
  - `place` splits a free space into a right remainder and a down remainder.
  - `origin` recovers an item's offset by adding widths on right descents
    and heights on down descents.
  - `areaUsed` and `allChildren` account for what has been placed.
- **The geometry of the tree** (module `SectionGeometry`). The *guillotine
  invariant* says every placed item fits the region it was placed in. The
  right and down subtrees cover the two remainders. From this the model
  proves:
  - every item's rectangle lies inside the container;
  - no two items overlap;
  - used area plus free area equals the container area;
  - a placement never moves an item already in the tree;
  - the search takes the first free space, in right-before-down order, that
    fits.
- **The driver `pack(_:in:)`** (module `Packer`). It sorts the items and
  feeds them one at a time into the tree. The library's comparator is not a
  strict weak ordering, so the order it produces is an unspecified
  permutation of the input. The model fixes one order: tallest first, with
  items of equal height in their input order. Which items are packed and
  which overflow depends on that order (see `Scenarios.OrderDecidesOverflow`). An item
  that fails goes to the overflow. When the tree's used area has reached
  the container's area, it sends all remaining items to the overflow.
  Finally it maps each placed item to its origin. The loop is the method
  `Pack`. It is proved against the recursive function `Drive`, and
  `PackSpec` is the whole operation as a function.
- **Scenarios** (module `Scenarios`): the runs the library's tests check,
  plus a few edge cases.

Dimensions are mathematical integers, not `Double`. An item is
`Item(id, size)`, and items are compared by `==` as the source compares
them through `Hashable`. `init(w:h:)` is the datatype constructor
`Size(width, height)`, which stores exactly its two arguments.

## Model

| member | source | states |
|---|---|---|
| Geometry.Size.Area | Sources/Alpacka/Wrappers/Size.swift:18-20 | the area of a non-negative size is non-negative, and it is 0 when either side is 0 |
| Geometry.Size.Fits | Sources/Alpacka/Wrappers/Size.swift:32-34 | a size fits another when it is at least as wide and at least as tall; its properties are the four lemmas below |
| Geometry.FitsReflexive | Sources/Alpacka/Wrappers/Size.swift:32-34 | every size fits itself |
| Geometry.FitsTransitive | Sources/Alpacka/Wrappers/Size.swift:32-34 | if a fits b and b fits c, then a fits c |
| Geometry.FitsMeansWithin | Sources/Alpacka/Wrappers/Size.swift:32-34 | `a.fits(b)` holds iff a rectangle of size b at a corner lies within a rectangle of size a at the same corner |
| Geometry.FitsBoundsArea | Sources/Alpacka/Wrappers/Size.swift:18-34 | with non-negative dimensions, if a fits b then b's area is at most a's area |
| SectionTree.AllChildren | Sources/Alpacka/Section.swift:60-67 | a tree has exactly one more free space than placed items |
| SectionTree.AreaUsed | Sources/Alpacka/Section.swift:54-58 | the areas of the placed items, added up; its properties are `SectionGeometry.AreaUsedFilled`, `PlacementAddsArea`, `AreaConservation` and `AreaUsedBounded` |
| SectionTree.Place | Sources/Alpacka/Section.swift:29-34 | the new node holds exactly the placed item; its area plus the two remainders' areas equals the split space's area; when the item fits and is non-negative, both remainders are non-negative and fit in the split space |
| SectionTree.TraverseAndPlace | Sources/Alpacka/Section.swift:12-27 | a successful placement adds exactly one item to the tree |
| SectionTree.PlacedIffRoom | Sources/Alpacka/Section.swift:12-27 | placement succeeds iff some free space of the tree fits the item |
| SectionTree.SearchOrder | Sources/Alpacka/Section.swift:12-27 | on free space it succeeds iff the space fits, and the result is `place`; on a placed item that item stays, only one subtree changes, and the down subtree changes only when no free space on the right fits |
| SectionTree.PlacementAddsOneItem | Sources/Alpacka/Section.swift:12-27 | after a successful placement, the multiset of placed items is the old one plus the new item |
| SectionTree.PlacementMembership | Sources/Alpacka/Section.swift:12-27 | after a placement, an item is in the tree iff it was there before or is the placed item |
| SectionTree.Origin | Sources/Alpacka/Section.swift:36-52 | the offset lookup: widths added on right descents, heights on down descents; its properties are `SectionTree.OriginFound`, `SectionGeometry.OriginWithin`, `OriginsDisjoint` and `PlacementKeepsOrigins` |
| SectionTree.OriginFound | Sources/Alpacka/Section.swift:36-52 | an origin is found iff the item is in the tree |
| SectionGeometry.FirstFit | Sources/Alpacka/Section.swift:12-27 | the index of the first free space that fits a size, or the count of spaces if none fits |
| SectionGeometry.PlacesInFirstFit | Sources/Alpacka/Section.swift:12-27 | placement succeeds iff some free space fits; the new free spaces are the old ones with the first fitting space replaced by its two remainders |
| SectionGeometry.SplitsFirstFit | Sources/Alpacka/Section.swift:12-34 | after a successful placement there is a first fitting free space, and it is the one split into the two remainders |
| SectionGeometry.PlacementKeepsGuillotine | Sources/Alpacka/Section.swift:12-34 | placing a non-negative item keeps the guillotine invariant of the tree over its region |
| SectionGeometry.PlacementKeepsOrigins | Sources/Alpacka/Section.swift:36-52 | placement leaves the origin of every other item unchanged |
| SectionGeometry.KeepsOriginsRight | Sources/Alpacka/Section.swift:12-52 | one step of `PlacementKeepsOrigins`: for y other than the node's own item, if placing into the right subtree keeps y's origin there and does not bring y in when it was absent, then placing at the node keeps y's origin |
| SectionGeometry.KeepsOriginsDown | Sources/Alpacka/Section.swift:12-52 | one step of `PlacementKeepsOrigins`: for y other than the node's own item, if placing into the down subtree keeps y's origin there whenever y is not in the right subtree, then placing at the node keeps y's origin |
| SectionGeometry.PlacementKeepsFailures | Sources/Alpacka/Section.swift:12-27 | an item that fits nowhere still fits nowhere after a non-negative item is placed |
| SectionGeometry.OriginWithin | Sources/Alpacka/Section.swift:36-52 | in a guillotine tree, every item's rectangle at its origin lies within the region |
| SectionGeometry.OriginsDisjoint | Sources/Alpacka/Section.swift:36-52 | in a guillotine tree, the rectangles of two different items do not overlap |
| SectionGeometry.AreaUsedFilled | Sources/Alpacka/Section.swift:54-67 | the used area of a placed node is its item's area plus the used areas of both subtrees |
| SectionGeometry.PlacementAddsArea | Sources/Alpacka/Section.swift:54-58 | a successful placement increases the used area by exactly the item's area |
| SectionGeometry.AreaConservation | Sources/Alpacka/Section.swift:29-34 | in a guillotine tree, used area plus free area equals the region's area |
| SectionGeometry.FreeSpacesNonNegative | Sources/Alpacka/Section.swift:29-34 | in a guillotine tree over a non-negative region, every free space is non-negative and fits in the region |
| SectionGeometry.AreaUsedBounded | Sources/Alpacka/Section.swift:54-58 | in a guillotine tree over a non-negative region, free area is non-negative and used area is at most the region's area |
| SectionGeometry.SaturatedRejects | Sources/Alpacka/Alpacka.swift:84-89 | once used area reaches the region's area, no item of positive width and height can be placed, which is what the saturation break relies on |
| Packer.Insert | Sources/Alpacka/Alpacka.swift:80-82 | inserting into a tallest-first sequence adds the item and keeps it tallest-first |
| Packer.SortByHeight | Sources/Alpacka/Alpacka.swift:80-82 | the result is a permutation of the input ordered by non-increasing height |
| Packer.Drive | Sources/Alpacka/Alpacka.swift:83-94 | the remaining items are split into placed and overflowed items, each sequence keeping the processing order |
| Packer.DriveSplitThrough | Sources/Alpacka/Alpacka.swift:83-94 | if the loop does not break within a prefix, running it over the prefix and then the rest from the tree the prefix left gives the same result as running it over the whole |
| Packer.DriveSplitBroken | Sources/Alpacka/Alpacka.swift:84-89 | once the loop breaks within a prefix, every later item goes to the overflow in order and nothing else changes |
| Packer.PackSaturationBreak | Sources/Alpacka/Alpacka.swift:83-101 | if the loop first breaks at sorted position k, the overflow is what overflowed before k followed by every item from k on, in order; the packed items are exactly those placed before k; for distinct inputs no item from k on is packed |
| Packer.DriveAddsItems | Sources/Alpacka/Alpacka.swift:83-94 | the final tree's items are the starting tree's items plus exactly the placed items, as multisets |
| Packer.DriveKeepsGuillotine | Sources/Alpacka/Alpacka.swift:83-94 | with non-negative item sizes the loop keeps the guillotine invariant |
| Packer.DriveKeepsFailures | Sources/Alpacka/Alpacka.swift:83-94 | an item that fits nowhere in the starting tree fits nowhere in the final tree |
| Packer.DriveOverflowRejected | Sources/Alpacka/Alpacka.swift:84-90 | every overflowed item of positive area fits nowhere in the final tree |
| Packer.DriveAreaUsed | Sources/Alpacka/Alpacka.swift:83-94 | the final used area is the starting used area plus the areas of the placed items |
| Packer.CollectOrigins | Sources/Alpacka/Alpacka.swift:95-100 | the map's keys are the accumulator's keys plus the placed items that have an origin; each such item maps to its origin; other keys keep their accumulated point |
| Packer.PackWith | Sources/Alpacka/Alpacka.swift:83-101 | `pack` once its items are in a given order; its properties are `Packer.PackAnyOrderSound`, `PackPartitions`, `PackedKeys` and `PackGeometry` |
| Packer.PackSpec | Sources/Alpacka/Alpacka.swift:76-102 | `pack` as a function of its inputs, in the model's order; its properties are `Packer.PackSpecSound`, `PackSaturationBreak`, `PackedAreaBound` and `PackOverflowRejected` |
| Packer.Pack | Sources/Alpacka/Alpacka.swift:76-102 | the loop computes `PackSpec`; the result partitions the input into packed and overflowed items, disjoint for distinct inputs; with non-negative sizes every packed item lies inside the container and no two overlap |
| Packer.PackOutcome | Sources/Alpacka/Alpacka.swift:83-100 | for any permutation of the input as the processing order: placed and overflowed items together are the input as a multiset; the placed items are exactly the final tree's items; each has an origin, so the `assert(false)` branch is unreachable; with non-negative sizes the final tree is guillotine |
| Packer.PackPartitions | Sources/Alpacka/Alpacka.swift:76-102 | for any permutation of the input as the processing order, every packed and every overflowed item comes from the input, every input item is packed or overflowed, and for distinct inputs none is both |
| Packer.PackedKeys | Sources/Alpacka/Alpacka.swift:83-100 | for any processing order, the packed items are exactly the items the loop placed |
| Packer.PackGeometry | Sources/Alpacka/Alpacka.swift:76-102 | for any permutation of the input as the processing order and non-negative sizes, every packed item lies inside the container and no two packed items overlap |
| Packer.PackSpecSound | Sources/Alpacka/Alpacka.swift:76-102 | the packing is a partition of the input, with no item in both parts for distinct inputs; with non-negative sizes every packed item is inside the container and no two overlap |
| Packer.PackAnyOrderSound | Sources/Alpacka/Alpacka.swift:80-102 | the same partition, containment and non-overlap promises hold for every permutation of the input as the processing order, so they cover whatever order the library's comparator produces |
| Packer.PackedAreaBound | Sources/Alpacka/Alpacka.swift:76-102 | the packed items are the placed ones, and their areas add up to at most the container's area |
| Packer.PackOverflowRejected | Sources/Alpacka/Alpacka.swift:76-102 | every overflowed item of positive area fits nowhere in the final tree |
| Scenarios.EmptyInput | Sources/Alpacka/Alpacka.swift:76-101 | empty input gives an empty map and an empty overflow |
| Scenarios.AreaUsedOfPlace | Tests/AlpackaTests/AlpackaTests.swift:26-31 | used area is 0 on a 10×10 space and 1 after placing a 1×1 item in it |
| Scenarios.TwoFullSizeItems | Tests/AlpackaTests/AlpackaTests.swift:17-24 | two 10×10 items in a 10×10 container: the first is packed at (0,0), the second overflows |
| Scenarios.TwoFullSizeDrive | Sources/Alpacka/Alpacka.swift:80-94 | for two 10×10 items, the sort keeps the input order, the first is placed and the second overflows |
| Scenarios.CornerOrigin | Sources/Alpacka/Alpacka.swift:95-100 | the only item of a tree built by one placement maps to (0,0) |
| Scenarios.ZeroSizeItemAtCorner | Sources/Alpacka/Alpacka.swift:76-101 | a 0×0 item is packed at (0,0) |
| Scenarios.OversizeItemOverflows | Sources/Alpacka/Alpacka.swift:76-101 | an item larger than the container overflows and nothing is packed |
| Scenarios.SaturationDrive | Sources/Alpacka/Alpacka.swift:80-89 | for a 10×10, a 10×10 and a 0×5 item, the sort keeps the input order and the saturation break sends the last two to the overflow |
| Scenarios.SaturationSort | Sources/Alpacka/Alpacka.swift:80-82 | items of heights 10, 10 and 5 keep their input order |
| Scenarios.FullTreeRejects | Sources/Alpacka/Section.swift:12-58 | a 10×10 space holding a 10×10 item has used area 100 and no room for an item of positive width and height |
| Scenarios.ZeroWidthStripFits | Sources/Alpacka/Section.swift:12-34 | a 0×5 item fits the zero-width strip right of a 10×10 item |
| Scenarios.SaturationSkipsZeroAreaItem | Sources/Alpacka/Alpacka.swift:84-89 | after a full 10×10 item, a 0×5 item goes to the overflow although the tree has a free space that fits it |
| Scenarios.OrderDecidesOverflow | Sources/Alpacka/Alpacka.swift:80-94 | for a 10×5 and a 10×10 item in a 10×10 container, whichever is processed first is placed and the other overflows; the model's order puts the 10×10 item first |
| Scenarios.ShortFirstRun | Sources/Alpacka/Alpacka.swift:83-94 | a 10×5 item processed first leaves no room for a 10×10 one, which overflows |
| Scenarios.TallFirstRun | Sources/Alpacka/Alpacka.swift:83-94 | a 10×10 item processed first fills the container and the 10×5 one overflows |

## Left out

- Dimensions are `int` instead of `Double`: floating point rounding is not modelled.
- Packer.SortByHeight: the source orders one item before another only when it is both taller and has a larger `hashValue`. That comparator is not a strict weak ordering, and `hashValue` is seeded at random on each run, so the source's order is some permutation of the input that cannot be predicted. The model uses its own deterministic order instead: tallest first, ties in input order. `Packer.PackAnyOrderSound` proves the partition, containment and non-overlap promises for every permutation of the input, so they hold for whatever order the source produces. The exact packed/overflow split in `Packer.PackSpec` does depend on the order, as `Scenarios.OrderDecidesOverflow` shows.
- Packer.CollectOrigins: Swift's `assert(false)` traps only in debug builds; the model takes the release behaviour and skips the item. `Packer.PackOutcome` proves that branch is never reached.
- Packer.PackSpecSound: the cardinality form of the partition (number of keys plus overflow length equals input length) is not stated for the map. The multiset form over the placed sequence is stated in `Packer.PackOutcome`.
- The public `pack` overloads and their Combine scheduling (Sources/Alpacka/Alpacka.swift:24-66) are asynchronous plumbing and are not modelled.
- The key-path write-back of origins and the `Set` subtraction (Sources/Alpacka/Alpacka.swift:48-61) are adapter code and are not modelled. The test at Tests/AlpackaTests/AlpackaTests.swift:17-24 goes through that adapter and through a `Packer` type that is not part of this model. `Scenarios.TwoFullSizeItems` states the result of the internal `pack` instead.
- `updateEach` (Sources/Alpacka/MutableCollection.swift) is a generic in-place helper without packing logic and is not modelled.
- The CGSize/CGPoint conversions (`cgSize`, `init(_:)`, and the CGExtensions files) are platform wrappers and are not modelled.
- `Sized` and the item's generic type are modelled as `Item(id, size)`. The older duplicate Sources/Alpacka/Size.swift has the same `fits` and is not modelled separately.
- `Point` (Sources/Alpacka/Wrappers/Point.swift) is declared as a plain datatype in `Geometry`.
- Determinism of `traverseAndPlace`: every operation here is a Dafny function, so equal inputs give equal results by construction, and there is no separate lemma.
- `place` on a filled node stops the program with `fatalError()`. The model rules this out with the precondition `s.Space?`, and its only caller never passes a filled node.
