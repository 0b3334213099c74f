/** Where a dragged card goes (src/utils/account/pointer-reorder.ts:1-107). Coordinates are reals. */
module PointerReorder {
  import opened Prelude
  import opened Sorting

  datatype CardRect = CardRect(id: string, top: real, bottom: real, left: Option<real>, right: Option<real>)

  /** The arguments of reorderIdsAtPointer. */
  datatype Drag = Drag(
    ids: seq<string>, source: string, rects: seq<CardRect>,
    y: real, grabY: Option<real>, x: Option<real>, grabX: Option<real>)

  function AtLeastOne(length: real): real { if length > 1.0 then length else 1.0 }

  function Other(source: string): string -> bool {
    id => id != source
  }

  function Without(ids: seq<string>, source: string): seq<string> {
    Filter(ids, Other(source))
  }

  /** rects.find */
  function FirstRect(rects: seq<CardRect>, id: string): Option<CardRect> {
    if rects == [] then None
    else if rects[0].id == id then Some(rects[0])
    else FirstRect(rects[1..], id)
  }

  /** The entry of a map filled in order: the last rectangle of the id. */
  function LastRect(rects: seq<CardRect>, id: string): Option<CardRect> {
    if rects == [] then None
    else if rects[|rects| - 1].id == id then Some(rects[|rects| - 1])
    else LastRect(rects[..|rects| - 1], id)
  }

  /** The rectangles of the ids that have one, in the order of the ids. */
  function OrderedRects(ids: seq<string>, rects: seq<CardRect>): seq<CardRect> {
    if ids == [] then []
    else
      var last := LastRect(rects, ids[|ids| - 1]);
      OrderedRects(ids[..|ids| - 1], rects) + if last.Some? then [last.value] else []
  }

  predicate HasSides(rect: CardRect) { rect.left.Some? && rect.right.Some? }

  function Width(rect: CardRect): (w: real)
    requires HasSides(rect)
  {
    AtLeastOne(rect.right.value - rect.left.value)
  }

  function Height(rect: CardRect): real { AtLeastOne(rect.bottom - rect.top) }

  function CenterX(rect: CardRect): real
    requires HasSides(rect)
  {
    (rect.left.value + rect.right.value) / 2.0
  }

  function CenterY(rect: CardRect): real { (rect.top + rect.bottom) / 2.0 }

  function Times(a: real, b: real): real { a * b }

  function Norm(dx: real, dy: real): real { Times(dx, dx) + Times(dy, dy) }

  /** The squared distance of a point to the centre, in card widths and heights. */
  function Distance(rect: CardRect, cx: real, cy: real): real
    requires HasSides(rect)
  {
    Norm((cx - CenterX(rect)) / Width(rect), (cy - CenterY(rect)) / Height(rect))
  }

  /** The vertical centre of the dragged card. */
  function DraggedY(d: Drag): real {
    var rect := FirstRect(d.rects, d.source);
    if d.grabY.Some? && rect.Some? then d.y - d.grabY.value + Height(rect.value) / 2.0 else d.y
  }

  function DraggedX(d: Drag): real
    requires Flows(d)
  {
    if d.grabX.Some? then d.x.value - d.grabX.value + Width(FirstRect(d.rects, d.source).value) / 2.0 else d.x.value
  }

  /** The cards flow in two dimensions: every card on screen has known sides. */
  predicate Flows(d: Drag) {
    var ordered := OrderedRects(d.ids, d.rects);
    var rect := FirstRect(d.rects, d.source);
    && d.x.Some? && rect.Some? && HasSides(rect.value) && |ordered| >= 2
    && forall i :: 0 <= i < |ordered| ==> HasSides(ordered[i])
  }

  // The three ways to find the slot, stated without loops.

  /** The first of the nearest cards. */
  ghost predicate Nearest(ordered: seq<CardRect>, cx: real, cy: real, slot: nat) {
    && slot < |ordered| && (forall i :: 0 <= i < |ordered| ==> HasSides(ordered[i]))
    && (forall i :: 0 <= i < |ordered| ==> Distance(ordered[slot], cx, cy) <= Distance(ordered[i], cx, cy))
    && (forall i :: 0 <= i < slot ==> Distance(ordered[slot], cx, cy) < Distance(ordered[i], cx, cy))
  }

  /** Halfway between the centres of card i and the next. */
  function Boundary(ordered: seq<CardRect>, i: nat): real
    requires i + 1 < |ordered|
  {
    (CenterY(ordered[i]) + CenterY(ordered[i + 1])) / 2.0
  }

  /** The first card above whose lower boundary the point lies, else the last card. */
  ghost predicate AboveBoundary(ordered: seq<CardRect>, cy: real, slot: nat) {
    && slot < |ordered|
    && (forall i :: 0 <= i < slot ==> Boundary(ordered, i) <= cy)
    && (slot + 1 < |ordered| ==> cy < Boundary(ordered, slot))
  }

  /** The first card above whose centre the point lies, else behind them all. */
  ghost predicate AboveCenter(sorted: seq<CardRect>, cy: real, slot: nat) {
    && slot <= |sorted|
    && (forall i :: 0 <= i < slot ==> CenterY(sorted[i]) <= cy)
    && (slot < |sorted| ==> cy < CenterY(sorted[slot]))
  }

  /** The remaining cards' rectangles from top to bottom. */
  function SortedRects(d: Drag): seq<CardRect> {
    var remaining := Without(d.ids, d.source);
    StableSort(Filter(d.rects, (rect: CardRect) => rect.id in remaining), (rect: CardRect) => rect.top)
  }

  ghost predicate Target(d: Drag, slot: nat) {
    var ordered := OrderedRects(d.ids, d.rects);
    if Flows(d) then Nearest(ordered, DraggedX(d), DraggedY(d), slot)
    else if |ordered| >= 2 && FirstRect(d.rects, d.source).Some? then AboveBoundary(ordered, DraggedY(d), slot)
    else AboveCenter(SortedRects(d), DraggedY(d), slot)
  }

  function InsertAt(ids: seq<string>, source: string, slot: nat): seq<string> {
    var at := Min(slot, |ids|);
    ids[..at] + [source] + ids[at..]
  }

  /** The answer for a drag. */
  ghost predicate Reordered(d: Drag, next: seq<string>) {
    if d.source !in d.ids || |d.ids| < 2 then next == d.ids
    else exists slot: nat :: Target(d, slot) && next == InsertAt(Without(d.ids, d.source), d.source, slot)
  }

  // The loops.

  method NearestSlot(ordered: seq<CardRect>, cx: real, cy: real) returns (bestSlot: nat)
    requires ordered != [] && forall i :: 0 <= i < |ordered| ==> HasSides(ordered[i])
    ensures Nearest(ordered, cx, cy, bestSlot)
  {
    hide Distance;
    bestSlot := 0;
    var bestDistance := None; // stands for infinity
    var index := 0;
    while index < |ordered|
      invariant 0 <= index <= |ordered|
      invariant bestDistance.None? <==> index == 0
      invariant index > 0 ==> bestSlot < index && bestDistance.value == Distance(ordered[bestSlot], cx, cy)
      invariant forall i :: 0 <= i < index ==> bestDistance.value <= Distance(ordered[i], cx, cy)
      invariant forall i :: 0 <= i < bestSlot && index > 0 ==> bestDistance.value < Distance(ordered[i], cx, cy)
    {
      var distance := Distance(ordered[index], cx, cy);
      if bestDistance.None? || distance < bestDistance.value {
        bestDistance := Some(distance);
        bestSlot := index;
      }
      index := index + 1;
    }
  }

  method BoundarySlot(ordered: seq<CardRect>, cy: real) returns (slot: nat)
    requires |ordered| >= 2
    ensures AboveBoundary(ordered, cy, slot)
  {
    hide CenterY;
    var boundaries := [];
    var i := 0;
    while i < |ordered| - 1
      invariant 0 <= i <= |ordered| - 1 && |boundaries| == i
      invariant forall k :: 0 <= k < i ==> boundaries[k] == Boundary(ordered, k)
    {
      boundaries := boundaries + [Boundary(ordered, i)];
      i := i + 1;
    }
    slot := |ordered| - 1;
    i := 0;
    while i < |boundaries|
      invariant 0 <= i <= |boundaries| && slot == |ordered| - 1
      invariant forall k :: 0 <= k < i ==> boundaries[k] <= cy
    {
      if cy < boundaries[i] {
        slot := i;
        break;
      }
      i := i + 1;
    }
  }

  method SortedSlot(sorted: seq<CardRect>, cy: real) returns (slot: nat)
    ensures AboveCenter(sorted, cy, slot)
  {
    slot := |sorted|;
    var i := 0;
    while i < |sorted|
      invariant 0 <= i <= |sorted| && slot == |sorted|
      invariant forall k :: 0 <= k < i ==> CenterY(sorted[k]) <= cy
    {
      if cy < CenterY(sorted[i]) {
        slot := i;
        break;
      }
      i := i + 1;
    }
  }

  /** reorderIdsAtPointer */
  method ReorderIdsAtPointer(d: Drag) returns (next: seq<string>)
    ensures Reordered(d, next)
  {
    if d.source !in d.ids || |d.ids| < 2 { return d.ids; }
    hide Nearest, AboveBoundary, AboveCenter, DraggedX, DraggedY, SortedRects, Filter, OrderedRects, FirstRect;
    var ordered := OrderedRects(d.ids, d.rects);
    var targetIndex: nat;
    if Flows(d) {
      targetIndex := NearestSlot(ordered, DraggedX(d), DraggedY(d));
    } else if |ordered| >= 2 && FirstRect(d.rects, d.source).Some? {
      targetIndex := BoundarySlot(ordered, DraggedY(d));
    } else {
      targetIndex := SortedSlot(SortedRects(d), DraggedY(d));
    }
    assert Target(d, targetIndex);
    next := InsertAt(Without(d.ids, d.source), d.source, targetIndex);
  }

  // What every answer keeps.

  /** The specification leaves no choice. */
  lemma ReorderedIsUnique(d: Drag, a: seq<string>, b: seq<string>)
    requires Reordered(d, a) && Reordered(d, b)
    ensures a == b
  {
    hide Distance, Filter, StableSort, OrderedRects, FirstRect, CenterY, DraggedX, DraggedY;
    if d.source in d.ids && |d.ids| >= 2 {
      var i: nat :| Target(d, i) && a == InsertAt(Without(d.ids, d.source), d.source, i);
      var j: nat :| Target(d, j) && b == InsertAt(Without(d.ids, d.source), d.source, j);
      TargetIsUnique(d, i, j);
    }
  }

  lemma LaterIsNotNearest(ordered: seq<CardRect>, cx: real, cy: real, i: nat, j: nat)
    requires Nearest(ordered, cx, cy, i) && i < j
    ensures !Nearest(ordered, cx, cy, j)
  {
    hide Distance;
    if j < |ordered| {
      assert Distance(ordered[i], cx, cy) <= Distance(ordered[j], cx, cy);
    }
  }

  lemma NearestIsUnique(ordered: seq<CardRect>, cx: real, cy: real, i: nat, j: nat)
    requires Nearest(ordered, cx, cy, i) && Nearest(ordered, cx, cy, j)
    ensures i == j
  {
    hide *;
    if i < j {
      LaterIsNotNearest(ordered, cx, cy, i, j);
    } else if j < i {
      LaterIsNotNearest(ordered, cx, cy, j, i);
    }
  }

  lemma AboveIsUnique(rects: seq<CardRect>, cy: real, i: nat, j: nat)
    ensures AboveBoundary(rects, cy, i) && AboveBoundary(rects, cy, j) ==> i == j
    ensures AboveCenter(rects, cy, i) && AboveCenter(rects, cy, j) ==> i == j
  {
    hide CenterY;
  }

  lemma TargetIsUnique(d: Drag, i: nat, j: nat)
    requires Target(d, i) && Target(d, j)
    ensures i == j
  {
    hide Nearest, AboveBoundary, AboveCenter, Flows, DraggedX, DraggedY, SortedRects, OrderedRects, FirstRect;
    var ordered := OrderedRects(d.ids, d.rects);
    if Flows(d) {
      NearestIsUnique(ordered, DraggedX(d), DraggedY(d), i, j);
    } else {
      AboveIsUnique(ordered, DraggedY(d), i, j);
      AboveIsUnique(SortedRects(d), DraggedY(d), i, j);
    }
  }

  /** The preview of a drag: nothing moved, or only the dragged card did. */
  ghost predicate OnlySourceMoved(original: seq<string>, source: string, next: seq<string>) {
    || next == original
    || (source in original && Without(next, source) == Without(original, source) && multiset(next)[source] == 1)
  }

  lemma {:induction false} WithoutIs(ids: seq<string>, source: string)
    ensures source !in Without(ids, source)
    ensures |ids| == |Without(ids, source)| + multiset(ids)[source]
    ensures multiset(ids) == multiset(Without(ids, source))[source := multiset(ids)[source]]
  {
    if ids != [] {
      var front, last := ids[..|ids| - 1], ids[|ids| - 1];
      WithoutIs(front, source);
      assert ids == front + [last];
    }
  }

  lemma InsertedOnce(rest: seq<string>, source: string, slot: nat)
    requires source !in rest
    ensures Without(InsertAt(rest, source, slot), source) == rest
    ensures multiset(InsertAt(rest, source, slot))[source] == 1
  {
    var at := Min(slot, |rest|);
    var a, b := rest[..at], rest[at..];
    assert rest == a + b;
    WithoutBetween(a, source, b);
    hide *;
    assert source !in a && source !in b;
    assert multiset(a + [source] + b)[source] == 1;
  }

  lemma WithoutBetween(a: seq<string>, source: string, b: seq<string>)
    requires source !in a && source !in b
    ensures Without(a + [source] + b, source) == a + b
  {
    var other := Other(source);
    assert Filter([source], other) == [];
    hide Filter;
    FilterKeepsAll(a, other);
    FilterKeepsAll(b, other);
    FilterConcat(a + [source], b, other);
    FilterConcat(a, [source], other);
    assert a + [] == a;
  }

  lemma ReorderingMovesOnlyTheSource(d: Drag, next: seq<string>)
    requires Reordered(d, next)
    ensures OnlySourceMoved(d.ids, d.source, next)
  {
    if d.source in d.ids && |d.ids| >= 2 {
      WithoutIs(d.ids, d.source);
      var slot: nat :| Target(d, slot) && next == InsertAt(Without(d.ids, d.source), d.source, slot);
      InsertedOnce(Without(d.ids, d.source), d.source, slot);
    }
  }

  /** Such a preview is a permutation exactly when it has the right length. */
  lemma SameLengthMeansPermutation(original: seq<string>, source: string, next: seq<string>)
    requires OnlySourceMoved(original, source, next)
    ensures |next| == |original| <==> multiset(next) == multiset(original)
  {
    WithoutIs(original, source);
    WithoutIs(next, source);
    hide Without;
    assert multiset(next) == multiset(original) ==> |multiset(next)| == |multiset(original)|;
  }

  /** For distinct ids it always is. */
  lemma DistinctIdsArePermuted(original: seq<string>, source: string, next: seq<string>)
    requires OnlySourceMoved(original, source, next) && Distinct(original)
    ensures multiset(next) == multiset(original)
  {
    if next != original {
      OnceIn(original, source);
      WithoutIs(original, source);
      WithoutIs(next, source);
    }
  }

  lemma OnceIn(ids: seq<string>, x: string)
    requires Distinct(ids) && x in ids
    ensures multiset(ids)[x] == 1
  {
    var i :| 0 <= i < |ids| && ids[i] == x;
    var a, b := ids[..i], ids[i + 1..];
    assert x !in a && x !in b;
    assert ids == a + [x] + b;
    hide *;
    assert multiset(a + [x] + b)[x] == 1;
  }

  // Flow mode, with a rectangle for every card.

  ghost predicate AllShown(d: Drag) {
    Distinct(d.ids) && forall id :: id in d.ids ==> LastRect(d.rects, id).Some?
  }

  lemma {:induction false} OrderedRectsOfShown(ids: seq<string>, rects: seq<CardRect>)
    requires forall id :: id in ids ==> LastRect(rects, id).Some?
    ensures |OrderedRects(ids, rects)| == |ids|
    ensures forall i :: 0 <= i < |ids| ==> OrderedRects(ids, rects)[i] == LastRect(rects, ids[i]).value
  {
    hide LastRect;
    if ids != [] { OrderedRectsOfShown(ids[..|ids| - 1], rects); }
  }

  /** The dragged card ends up at the position of the first card nearest to it. */
  lemma FlowGoesToTheNearest(d: Drag, next: seq<string>)
    requires Reordered(d, next) && AllShown(d) && Flows(d) && d.source in d.ids && |d.ids| >= 2
    ensures
      exists slot: nat ::
        slot < |next| && next[slot] == d.source && Nearest(OrderedRects(d.ids, d.rects), DraggedX(d), DraggedY(d), slot)
  {
    OrderedRectsOfShown(d.ids, d.rects);
    OnceIn(d.ids, d.source);
    WithoutIs(d.ids, d.source);
    hide Without, OrderedRects, LastRect, Distance, DraggedX, DraggedY, FirstRect;
    var slot: nat :| Target(d, slot) && next == InsertAt(Without(d.ids, d.source), d.source, slot);
    assert next[slot] == d.source;
  }

  lemma SameSigns(a: real, b: real)
    ensures (a > 0.0 && b > 0.0) || (a < 0.0 && b < 0.0) ==> Times(a, b) > 0.0
    ensures a == 0.0 || b == 0.0 ==> Times(a, b) == 0.0
  {}

  lemma Quotient(a: real, b: real, w: real)
    requires w > 0.0
    ensures a == b ==> (a - b) / w == 0.0
    ensures a != b ==> (a - b) / w != 0.0
  {}

  lemma SumOfSquares(a: real, b: real)
    ensures a == 0.0 && b == 0.0 ==> Norm(a, b) == 0.0
    ensures a != 0.0 || b != 0.0 ==> Norm(a, b) > 0.0
  {
    hide Times;
    SameSigns(a, a);
    SameSigns(b, b);
  }

  lemma ZeroDistance(rect: CardRect, cx: real, cy: real)
    requires HasSides(rect)
    ensures cx == CenterX(rect) && cy == CenterY(rect) ==> Distance(rect, cx, cy) == 0.0
    ensures cx != CenterX(rect) || cy != CenterY(rect) ==> Distance(rect, cx, cy) > 0.0
  {
    hide CenterX, CenterY, Norm;
    Quotient(cx, CenterX(rect), Width(rect));
    Quotient(cy, CenterY(rect), Height(rect));
    SumOfSquares((cx - CenterX(rect)) / Width(rect), (cy - CenterY(rect)) / Height(rect));
  }

  lemma PutBackInPlace(ids: seq<string>, i: nat)
    requires Distinct(ids) && i < |ids|
    ensures InsertAt(Without(ids, ids[i]), ids[i], i) == ids
  {
    var a, b := ids[..i], ids[i + 1..];
    assert ids == a + [ids[i]] + b;
    assert ids[i] !in a && ids[i] !in b;
    WithoutBetween(a, ids[i], b);
    hide Without;
    assert (a + b)[..i] == a && (a + b)[i..] == b;
  }

  lemma ReorderedAtOwnSlot(d: Drag, next: seq<string>, i: nat)
    requires Reordered(d, next) && Distinct(d.ids) && |d.ids| >= 2 && i < |d.ids| && d.ids[i] == d.source
    requires Target(d, i)
    ensures next == d.ids
  {
    hide Target, Without, InsertAt;
    var slot: nat :| Target(d, slot) && next == InsertAt(Without(d.ids, d.source), d.source, slot);
    TargetIsUnique(d, slot, i);
    PutBackInPlace(d.ids, i);
  }

  lemma OnlyOwnCentreIsNearest(ordered: seq<CardRect>, cx: real, cy: real, i: nat)
    requires i < |ordered| && forall k :: 0 <= k < |ordered| ==> HasSides(ordered[k])
    requires forall k :: 0 <= k < |ordered| ==> (k == i <==> CenterX(ordered[k]) == cx && CenterY(ordered[k]) == cy)
    ensures Nearest(ordered, cx, cy, i)
  {
    hide CenterX, CenterY, Distance;
    forall k | 0 <= k < |ordered|
      ensures Distance(ordered[i], cx, cy) <= Distance(ordered[k], cx, cy)
      ensures k != i ==> Distance(ordered[i], cx, cy) < Distance(ordered[k], cx, cy)
    {
      ZeroDistance(ordered[i], cx, cy);
      ZeroDistance(ordered[k], cx, cy);
    }
  }

  /** Where a card counts as centred when it is held where it was grabbed. */
  lemma GrabbedCentre(d: Drag, rect: CardRect)
    requires Flows(d) && FirstRect(d.rects, d.source) == Some(rect)
    requires d.grabY == Some(d.y - rect.top) && d.grabX == Some(d.x.value - rect.left.value)
    ensures DraggedX(d) == rect.left.value + Width(rect) / 2.0 && DraggedY(d) == rect.top + Height(rect) / 2.0
    ensures rect.right.value - rect.left.value >= 1.0 ==> DraggedX(d) == CenterX(rect)
    ensures rect.bottom - rect.top >= 1.0 ==> DraggedY(d) == CenterY(rect)
  {
    hide FirstRect, OrderedRects;
  }

  /** A drag leaves the order as it is exactly when the card is the first nearest to itself. */
  lemma StaysInPlaceIff(d: Drag, next: seq<string>, i: nat)
    requires Reordered(d, next) && AllShown(d) && Flows(d)
    requires i < |d.ids| && d.ids[i] == d.source && |d.ids| >= 2
    ensures next == d.ids <==> Nearest(OrderedRects(d.ids, d.rects), DraggedX(d), DraggedY(d), i)
  {
    FlowGoesToTheNearest(d, next);
    hide Reordered, OrderedRects, LastRect, DraggedX, DraggedY, FirstRect, CenterX, CenterY, Nearest, HasSides;
    var slot: nat :| slot < |next| && next[slot] == d.source
      && Nearest(OrderedRects(d.ids, d.rects), DraggedX(d), DraggedY(d), slot);
    if Nearest(OrderedRects(d.ids, d.rects), DraggedX(d), DraggedY(d), i) { ReorderedAtOwnSlot(d, next, i); }
  }

  /** Held where it was grabbed, a card stays in its place exactly when no other card is nearer to
      that point, and no earlier one as near. */
  lemma BackAtTheStartNothingMoves(d: Drag, next: seq<string>, i: nat, rect: CardRect)
    requires Reordered(d, next) && AllShown(d) && Flows(d)
    requires i < |d.ids| && d.ids[i] == d.source && |d.ids| >= 2
    requires FirstRect(d.rects, d.source) == Some(rect)
    requires d.grabY == Some(d.y - rect.top) && d.grabX == Some(d.x.value - rect.left.value)
    ensures
      var x, y := rect.left.value + Width(rect) / 2.0, rect.top + Height(rect) / 2.0;
      next == d.ids <==> Nearest(OrderedRects(d.ids, d.rects), x, y, i)
  {
    GrabbedCentre(d, rect);
    StaysInPlaceIff(d, next, i);
    hide Reordered, OrderedRects, LastRect, DraggedX, DraggedY, FirstRect, Nearest, Width, Height;
  }

  /** So a card of at least unit size stays where its place, and no other, has its centre. */
  lemma FullSizeCardStays(d: Drag, next: seq<string>, i: nat, rect: CardRect)
    requires Reordered(d, next) && AllShown(d) && Flows(d)
    requires i < |d.ids| && d.ids[i] == d.source && |d.ids| >= 2
    requires FirstRect(d.rects, d.source) == Some(rect)
    requires d.grabY == Some(d.y - rect.top) && d.grabX == Some(d.x.value - rect.left.value)
    requires rect.bottom - rect.top >= 1.0 && rect.right.value - rect.left.value >= 1.0
    requires
      var ordered := OrderedRects(d.ids, d.rects);
      forall k :: 0 <= k < |ordered| ==>
        (k == i <==> CenterX(ordered[k]) == CenterX(rect) && CenterY(ordered[k]) == CenterY(rect))
    ensures next == d.ids
  {
    var ordered := OrderedRects(d.ids, d.rects);
    OrderedRectsOfShown(d.ids, d.rects);
    GrabbedCentre(d, rect);
    StaysInPlaceIff(d, next, i);
    hide Reordered, OrderedRects, LastRect, DraggedX, DraggedY, FirstRect, CenterX, CenterY, Nearest;
    OnlyOwnCentreIsNearest(ordered, DraggedX(d), DraggedY(d), i);
  }
}
