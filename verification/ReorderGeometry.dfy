/** What the geometry of a reordering means on screen (src/utils/account/pointer-reorder.ts:31-103). */
module ReorderGeometry {
  import opened Prelude
  import opened Sorting
  import opened PointerReorder
  import opened DragController

  function Abs(v: real): real { if v < 0.0 then -v else v }

  /** How far a point lies above or below the middle of a card. */
  function Off(rect: CardRect, cy: real): real { Abs(cy - (rect.top + rect.bottom) / 2.0) }

  /** Every card's middle lies above the next one's. */
  ghost predicate Stacked(ordered: seq<CardRect>) {
    forall i, j :: 0 <= i < j < |ordered| ==>
      (ordered[i].top + ordered[i].bottom) / 2.0 < (ordered[j].top + ordered[j].bottom) / 2.0
  }

  /** The last of the vertically nearest cards. */
  ghost predicate LastNearest(ordered: seq<CardRect>, cy: real, slot: nat) {
    && slot < |ordered|
    && (forall i :: 0 <= i < |ordered| ==> Off(ordered[slot], cy) <= Off(ordered[i], cy))
    && (forall i :: slot < i < |ordered| ==> Off(ordered[slot], cy) < Off(ordered[i], cy))
  }

  lemma NearerThan(a: CardRect, b: CardRect, cy: real)
    requires (a.top + a.bottom) / 2.0 < (b.top + b.bottom) / 2.0
    ensures cy < (CenterY(a) + CenterY(b)) / 2.0 <==> Off(a, cy) < Off(b, cy)
    ensures cy >= (CenterY(a) + CenterY(b)) / 2.0 <==> Off(b, cy) <= Off(a, cy)
  {}

  lemma BoundariesRise(ordered: seq<CardRect>, i: nat, j: nat)
    requires Stacked(ordered) && i < j < |ordered|
    ensures Boundary(ordered, i) <= (CenterY(ordered[i]) + CenterY(ordered[j])) / 2.0 <= Boundary(ordered, j - 1)
  {
    assert i + 1 < j ==> CenterY(ordered[i + 1]) < CenterY(ordered[j]);
    assert i < j - 1 ==> CenterY(ordered[i]) < CenterY(ordered[j - 1]);
  }

  lemma BoundaryGivesNearest(ordered: seq<CardRect>, cy: real, slot: nat)
    requires Stacked(ordered) && AboveBoundary(ordered, cy, slot)
    ensures LastNearest(ordered, cy, slot)
  {
    hide Off, CenterY, Boundary;
    forall i | 0 <= i < |ordered|
      ensures Off(ordered[slot], cy) <= Off(ordered[i], cy)
      ensures slot < i ==> Off(ordered[slot], cy) < Off(ordered[i], cy)
    {
      if i < slot {
        BoundariesRise(ordered, i, slot);
        NearerThan(ordered[i], ordered[slot], cy);
      } else if slot < i {
        BoundariesRise(ordered, slot, i);
        NearerThan(ordered[slot], ordered[i], cy);
      }
    }
  }

  lemma NearestGivesBoundary(ordered: seq<CardRect>, cy: real, slot: nat)
    requires Stacked(ordered) && LastNearest(ordered, cy, slot)
    ensures AboveBoundary(ordered, cy, slot)
  {
    hide Off, CenterY, Stacked;
    forall i | 0 <= i < slot ensures Boundary(ordered, i) <= cy {
      BoundariesRise(ordered, i, slot);
      StackedPair(ordered, i, slot);
      NearerThan(ordered[i], ordered[slot], cy);
    }
    if slot + 1 < |ordered| {
      StackedPair(ordered, slot, slot + 1);
      NearerThan(ordered[slot], ordered[slot + 1], cy);
    }
  }

  lemma StackedPair(ordered: seq<CardRect>, i: nat, j: nat)
    requires Stacked(ordered) && i < j < |ordered|
    ensures (ordered[i].top + ordered[i].bottom) / 2.0 < (ordered[j].top + ordered[j].bottom) / 2.0
  {}

  /** In a list from top to bottom the boundaries choose exactly the last of the nearest cards. */
  lemma BoundarySlotIff(ordered: seq<CardRect>, cy: real, slot: nat)
    requires Stacked(ordered)
    ensures AboveBoundary(ordered, cy, slot) <==> LastNearest(ordered, cy, slot)
  {
    hide *;
    if AboveBoundary(ordered, cy, slot) { BoundaryGivesNearest(ordered, cy, slot); }
    if LastNearest(ordered, cy, slot) { NearestGivesBoundary(ordered, cy, slot); }
  }

  lemma Multiple(c: real, a: real, w: real)
    requires w > 0.0
    ensures (c + Times(a, w) - c) / w == a
  {}

  /** A point a widths and b heights from the middle of a card, where a length below one counts as
      one, has the squared distance a * a + b * b. */
  lemma DistanceIsInCardSizes(rect: CardRect, a: real, b: real)
    requires HasSides(rect)
    ensures
      var width := if rect.right.value - rect.left.value > 1.0 then rect.right.value - rect.left.value else 1.0;
      var height := if rect.bottom - rect.top > 1.0 then rect.bottom - rect.top else 1.0;
      var cx := (rect.left.value + rect.right.value) / 2.0 + Times(a, width);
      var cy := (rect.top + rect.bottom) / 2.0 + Times(b, height);
      Distance(rect, cx, cy) == a * a + b * b
  {
    hide Times;
    Multiple(CenterX(rect), a, Width(rect));
    Multiple(CenterY(rect), b, Height(rect));
    Squares(a);
    Squares(b);
  }

  lemma Squares(a: real)
    ensures Times(a, a) == a * a
  {}

  /** The dragged centre follows the pointer, whatever was grabbed; without a grab offset it is
      the pointer. */
  lemma CentreFollowsThePointer(d: Drag, dx: real, dy: real)
    requires Flows(d)
    ensures
      var e := d.(x := Some(d.x.value + dx), y := d.y + dy);
      Flows(e) && DraggedX(e) == DraggedX(d) + dx && DraggedY(e) == DraggedY(d) + dy
    ensures d.grabX.None? ==> DraggedX(d) == d.x.value
    ensures d.grabY.None? ==> DraggedY(d) == d.y
  {
    hide FirstRect, OrderedRects, Width, Height;
  }

  /** The offsets a drag takes from its own rectangle put the centre of the card, at the start, in
      the middle of that rectangle. */
  lemma CaughtInTheMiddle(d: Drag, rect: CardRect)
    requires Flows(d) && FirstRect(d.rects, d.source) == Some(rect)
    requires d.grabY == CaughtY(None, d.y, d.rects, d.source)
    requires d.grabX == CaughtX(None, d.x.value, d.rects, d.source)
    ensures rect.right.value - rect.left.value >= 1.0 ==> DraggedX(d) == (rect.left.value + rect.right.value) / 2.0
    ensures rect.bottom - rect.top >= 1.0 ==> DraggedY(d) == (rect.top + rect.bottom) / 2.0
  {
    hide FirstRect, OrderedRects;
    GrabbedCentre(d, rect);
  }

  /** An offset that is given is kept, and without rectangles nothing is known of one that is not. */
  lemma GivenOffsetsAreKept(offset: real, start: real, rects: seq<CardRect>, source: string)
    ensures CaughtX(Some(offset), start, rects, source) == Some(offset)
    ensures CaughtY(Some(offset), start, rects, source) == Some(offset)
    ensures CaughtX(None, start, [], source) == None && CaughtY(None, start, [], source) == None
  {}

  /** The threshold is a bound on the length h of the way. */
  lemma ThresholdIsADistance(dx: real, dy: real, h: real, threshold: real)
    requires h >= 0.0 && h * h == dx * dx + dy * dy
    ensures WithinThreshold(dx, dy, threshold) <==> h < threshold
  {
    if threshold > 0.0 { SquaresGrow(h, threshold); }
  }

  lemma SquaresGrow(a: real, b: real)
    requires a >= 0.0 && b > 0.0
    ensures a < b <==> a * a < b * b
  {
    assert b * b - a * a == (b - a) * (b + a);
    SameSigns(b - a, b + a);
    assert a >= b ==> (b - a) * (b + a) <= 0.0;
  }

  // Which rectangles count.

  /** The first rectangle of the id, and the last. */
  lemma {:induction false} FirstRectIs(rects: seq<CardRect>, id: string)
    ensures
      match FirstRect(rects, id)
      case None => forall i :: 0 <= i < |rects| ==> rects[i].id != id
      case Some(r) =>
        exists i :: 0 <= i < |rects| && rects[i] == r && r.id == id && forall j :: 0 <= j < i ==> rects[j].id != id
  {
    if rects != [] && rects[0].id != id {
      var rest := rects[1..];
      FirstRectIs(rest, id);
      if FirstRect(rects, id).Some? {
        var i :| 0 <= i < |rest| && rest[i] == FirstRect(rects, id).value
          && forall j :: 0 <= j < i ==> rest[j].id != id;
        assert rects[i + 1] == rest[i];
        forall j | 0 <= j < i + 1 ensures rects[j].id != id { if j > 0 { assert rects[j] == rest[j - 1]; } }
      } else {
        forall i | 0 <= i < |rects| ensures rects[i].id != id { if i > 0 { assert rects[i] == rest[i - 1]; } }
      }
    }
  }

  lemma {:induction false} LastRectIs(rects: seq<CardRect>, id: string)
    ensures
      match LastRect(rects, id)
      case None => forall i :: 0 <= i < |rects| ==> rects[i].id != id
      case Some(r) =>
        exists i :: 0 <= i < |rects| && rects[i] == r && r.id == id
          && forall j :: i < j < |rects| ==> rects[j].id != id
  {
    if rects != [] && rects[|rects| - 1].id != id { LastRectIs(rects[..|rects| - 1], id); }
  }

  function Shown(rects: seq<CardRect>): string -> bool {
    id => LastRect(rects, id).Some?
  }

  /** One rectangle for each id that has one, in the order of the ids. */
  lemma {:induction false} OrderedRectsAre(ids: seq<string>, rects: seq<CardRect>)
    ensures
      var shown := Filter(ids, Shown(rects));
      && |OrderedRects(ids, rects)| == |shown|
      && forall k :: 0 <= k < |shown| ==> LastRect(rects, shown[k]) == Some(OrderedRects(ids, rects)[k])
  {
    hide LastRect;
    if ids != [] { OrderedRectsAre(ids[..|ids| - 1], rects); }
  }

  /** The rectangles of the other cards, by their upper edges. */
  lemma SortedRectsAre(d: Drag, rect: CardRect)
    ensures rect in SortedRects(d) <==> rect in d.rects && rect.id in d.ids && rect.id != d.source
    ensures forall i, j :: 0 <= i < j < |SortedRects(d)| ==> SortedRects(d)[i].top <= SortedRects(d)[j].top
  {
    var remaining := Without(d.ids, d.source);
    var keep := (rect: CardRect) => rect.id in remaining;
    var key := (rect: CardRect) => rect.top;
    var kept := Filter(d.rects, keep);
    StableSortIs(kept, key);
    FilterMembers(d.rects, keep, rect);
    FilterMembers(d.ids, Other(d.source), rect.id);
    hide Filter, StableSort;
    var sorted := SortedRects(d);
    assert sorted == StableSort(kept, key);
    assert rect in sorted <==> rect in multiset(sorted);
    assert rect in kept <==> rect in multiset(kept);
    forall i, j | 0 <= i < j < |sorted| ensures sorted[i].top <= sorted[j].top {
      assert key(sorted[i]) <= key(sorted[j]);
    }
  }
}
