/** PointerReorderController (src/utils/account/pointer-reorder.ts:109-233): the state machine of
    one drag at a time. */
module DragController {
  import opened Prelude
  import opened PointerReorder

  datatype Update = Update(dragging: bool, ids: seq<string>, sourceId: Option<string>)

  datatype Finish = Finish(committedIds: Option<seq<string>>, sourceId: Option<string>)

  /** Math.hypot(dx, dy) < threshold */
  predicate WithinThreshold(dx: real, dy: real, threshold: real) {
    threshold > 0.0 && dx * dx + dy * dy < threshold * threshold
  }

  /** The vertical grab offset after a move has supplied the first rectangles. */
  function CaughtY(grab: Option<real>, startY: real, rects: seq<CardRect>, source: string): Option<real> {
    var src := FirstRect(rects, source);
    if grab.Some? then grab
    else if src.Some? then Some(startY - src.value.top)
    else None
  }

  function CaughtX(grab: Option<real>, startX: real, rects: seq<CardRect>, source: string): Option<real> {
    var src := FirstRect(rects, source);
    if grab.None? && src.Some? && src.value.left.Some? then Some(startX - src.value.left.value) else grab
  }

  lemma FirstOfNone(source: string)
    ensures FirstRect([], source) == None
  {}

  lemma NothingMoved(ids: seq<string>, source: string)
    ensures OnlySourceMoved(ids, source, ids)
  {}

  class Controller {
    const threshold: real
    var sourceId: Option<string>
    var pointerId: Option<int>
    var startX: real
    var startY: real
    var grabOffsetY: Option<real>
    var grabOffsetX: Option<real>
    var dragging: bool
    var originalIds: seq<string>
    var previewIds: seq<string>
    var initialRects: seq<CardRect>
    var suppressClick: bool
    var cancelled: bool

    /** Before a drag the preview is the original; during one only the dragged card has moved. */
    ghost predicate Valid()
      reads this
    {
      && (!dragging ==> previewIds == originalIds)
      && (dragging ==> sourceId.Some? && sourceId.value != "" && !cancelled)
      && (sourceId.Some? ==> OnlySourceMoved(originalIds, sourceId.value, previewIds))
    }

    ghost predicate Idle()
      reads this
    {
      && sourceId == None && (forall p :: !OwnsPointer(p)) && !dragging && originalIds == [] && previewIds == []
      && initialRects == [] && grabOffsetY == None && grabOffsetX == None
    }

    constructor (threshold: real)
      ensures Valid() && Idle() && this.threshold == threshold && !suppressClick && !cancelled
    {
      this.threshold := threshold;
      sourceId, pointerId := None, None;
      startX, startY := 0.0, 0.0;
      grabOffsetY, grabOffsetX := None, None;
      dragging := false;
      originalIds, previewIds, initialRects := [], [], [];
      suppressClick, cancelled := false, false;
    }

    method Begin(
        source: string, pointer: int, x: real, y: real, ids: seq<string>,
        rects: Option<seq<CardRect>>, grabY: Option<real>, grabX: Option<real>)
      modifies this`sourceId, this`pointerId, this`startX, this`startY, this`dragging, this`cancelled,
        this`originalIds, this`previewIds, this`initialRects, this`grabOffsetY, this`grabOffsetX
      ensures Valid()
      ensures sourceId == Some(source) && startX == x && startY == y
      ensures forall p :: OwnsPointer(p) <==> p == pointer
      ensures !dragging && !cancelled && originalIds == ids && previewIds == ids
      ensures initialRects == if rects.Some? then rects.value else []
      ensures grabOffsetY == CaughtY(grabY, y, initialRects, source)
      ensures grabOffsetX == CaughtX(grabX, x, initialRects, source)
    {
      FirstOfNone(source);
      NothingMoved(ids, source);
      hide FirstRect, OnlySourceMoved;
      sourceId := Some(source);
      pointerId := Some(pointer);
      startX, startY := x, y;
      dragging := false;
      originalIds, previewIds := ids, ids;
      cancelled := false;
      initialRects := if rects.Some? then rects.value else [];
      var sourceRect := if rects.Some? then FirstRect(rects.value, source) else None;
      grabOffsetY :=
        if grabY.Some? then grabY
        else if sourceRect.Some? then Some(y - sourceRect.value.top) else None;
      grabOffsetX :=
        if grabX.Some? then grabX
        else if sourceRect.Some? && sourceRect.value.left.Some? then Some(x - sourceRect.value.left.value) else None;
    }

    predicate OwnsPointer(pointer: int)
      reads this
    {
      pointerId == Some(pointer)
    }

    /** Nothing to drag, or still within the threshold. */
    predicate Still(x: real, y: real)
      reads this
    {
      || sourceId.None? || sourceId.value == "" || cancelled
      || (!dragging && WithinThreshold(x - startX, y - startY, threshold))
    }

    /** The first rectangles a move brings are kept, and give the grab offsets not yet known. */
    method Adopt(rects: seq<CardRect>, source: string)
      modifies this`initialRects, this`grabOffsetY, this`grabOffsetX
      ensures initialRects == rects
      ensures grabOffsetY == CaughtY(old(grabOffsetY), startY, rects, source)
      ensures grabOffsetX == CaughtX(old(grabOffsetX), startX, rects, source)
    {
      hide FirstRect;
      initialRects := rects;
      var src := FirstRect(rects, source);
      if grabOffsetY.None? {
        grabOffsetY := if src.Some? then Some(startY - src.value.top) else None;
      }
      if grabOffsetX.None? && src.Some? && src.value.left.Some? {
        grabOffsetX := Some(startX - src.value.left.value);
      }
    }

    method Move(x: real, y: real, rects: Option<seq<CardRect>>) returns (u: Update)
      requires Valid()
      modifies this`dragging, this`initialRects, this`grabOffsetY, this`grabOffsetX, this`previewIds
      ensures dragging <==>
        || old(dragging)
        || (sourceId.Some? && sourceId.value != "" && !cancelled
            && !WithinThreshold(x - startX, y - startY, threshold))
      ensures old(dragging) ==> !old(Still(x, y))
      ensures Valid() && u.ids == previewIds && u.dragging == (dragging && !old(Still(x, y)))
      ensures u.sourceId == if sourceId.Some? && sourceId.value != "" && !cancelled then sourceId else None
      ensures old(Still(x, y)) ==>
        unchanged(`dragging) && unchanged(`initialRects) && unchanged(`grabOffsetY) && unchanged(`grabOffsetX)
        && unchanged(`previewIds)
      ensures !old(Still(x, y)) ==>
        && dragging
        && initialRects == (if old(initialRects) != [] || rects.None? then old(initialRects) else rects.value)
        && (if old(initialRects) == [] && initialRects != []
            then grabOffsetY == CaughtY(old(grabOffsetY), startY, initialRects, sourceId.value)
              && grabOffsetX == CaughtX(old(grabOffsetX), startX, initialRects, sourceId.value)
            else unchanged(`grabOffsetY) && unchanged(`grabOffsetX))
        && Reordered(
             Drag(originalIds, sourceId.value, initialRects, y, grabOffsetY, Some(x), grabOffsetX), previewIds)
    {
      hide OnlySourceMoved, Reordered, WithinThreshold, CaughtY, CaughtX;
      if sourceId.None? || sourceId.value == "" || cancelled {
        return Update(false, previewIds, None);
      }
      if !dragging {
        if WithinThreshold(x - startX, y - startY, threshold) {
          return Update(false, previewIds, sourceId);
        }
        dragging := true;
      }
      if |initialRects| == 0 && rects.Some? && |rects.value| > 0 { Adopt(rects.value, sourceId.value); }
      var activeRects := if |initialRects| > 0 then initialRects else if rects.Some? then rects.value else [];
      var drag := Drag(originalIds, sourceId.value, activeRects, y, grabOffsetY, Some(x), grabOffsetX);
      previewIds := ReorderIdsAtPointer(drag);
      ReorderingMovesOnlyTheSource(drag, previewIds);
      u := Update(true, previewIds, sourceId);
    }

    /** Commits nothing, or a different order of the same ids in which only the dragged card moved. */
    method FinishDrag() returns (r: Finish)
      requires Valid()
      modifies this`sourceId, this`pointerId, this`dragging, this`originalIds, this`previewIds, this`initialRects,
        this`grabOffsetY, this`grabOffsetX, this`suppressClick
      ensures Valid() && Idle()
      ensures r.sourceId == old(sourceId) && suppressClick == (old(suppressClick) || old(dragging))
      ensures r.committedIds.Some? <==>
        old(dragging) && old(previewIds) != old(originalIds) && multiset(old(previewIds)) == multiset(old(originalIds))
      ensures r.committedIds.Some? ==>
        && r.committedIds.value == old(previewIds)
        && old(sourceId).Some? && old(sourceId).value in old(originalIds)
        && Without(r.committedIds.value, old(sourceId).value) == Without(old(originalIds), old(sourceId).value)
      ensures Distinct(old(originalIds)) ==>
        (r.committedIds.Some? <==> old(dragging) && old(previewIds) != old(originalIds))
    {
      if dragging {
        SameLengthMeansPermutation(originalIds, sourceId.value, previewIds);
        if Distinct(originalIds) { DistinctIdsArePermuted(originalIds, sourceId.value, previewIds); }
      }
      hide Without;
      var source := sourceId;
      var changed := dragging && !cancelled && |previewIds| == |originalIds| && previewIds != originalIds;
      r := Finish(if changed then Some(previewIds) else None, source);
      if dragging && !cancelled { suppressClick := true; }
      ResetActive();
    }

    method Cancel()
      modifies this`sourceId, this`pointerId, this`dragging, this`originalIds, this`previewIds, this`initialRects,
        this`grabOffsetY, this`grabOffsetX, this`cancelled
      ensures Valid() && Idle() && cancelled
    {
      cancelled := true;
      ResetActive();
    }

    /** The click that ends a drag is swallowed once. */
    method ConsumeClickSuppression() returns (suppressed: bool)
      modifies this`suppressClick
      ensures suppressed == old(suppressClick) && !suppressClick
    {
      if !suppressClick { return false; }
      suppressClick := false;
      return true;
    }

    method ResetActive()
      modifies this`sourceId, this`pointerId, this`dragging, this`originalIds, this`previewIds, this`initialRects,
        this`grabOffsetY, this`grabOffsetX
      ensures Valid() && Idle()
    {
      sourceId, pointerId := None, None;
      dragging := false;
      originalIds, previewIds, initialRects := [], [], [];
      grabOffsetY, grabOffsetX := None, None;
    }
  }
}
