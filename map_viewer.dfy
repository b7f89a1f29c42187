/** The map viewer widget: pixel-to-percent conversion, hit-testing of the
    marks in pixel space, and what a click on the overlay or on one mark
    does to the mark list. */
module MapViewer {
  import opened Marks

  const MarkSizePx: real := 18.0
  /** The visual radius of a mark plus 4 px of tolerance: 13 px. */
  const HitRadiusPx: real := MarkSizePx / 2.0 + 4.0

  /** The on-screen rectangle of the map container, as measured by the
      browser. */
  datatype Rect = Rect(w: real, h: real)

  /** How the viewer is configured by its caller: whether it is read-only,
      whether `onMarksChange` and `onMarkClick` are registered, and whether
      the selected map has an image URL. */
  datatype Viewer = Viewer(readOnly: bool, hasMarksChange: bool, hasMarkClick: bool, hasImage: bool)

  /** `Math.max(0, Math.min(100, v))`. */
  function Clamp100(v: real): (r: real)
    ensures 0.0 <= r <= 100.0
    ensures 0.0 <= v <= 100.0 ==> r == v
    ensures v < 0.0 ==> r == 0.0
    ensures v > 100.0 ==> r == 100.0
  {
    if v < 0.0 then 0.0 else if v > 100.0 then 100.0 else v
  }

  /** A click offset along one axis of a frame of positive size, as a
      percentage clamped to [0, 100]; inside the frame no clamping happens. */
  function ToPercent(offset: real, size: real): (p: real)
    requires size > 0.0
    ensures 0.0 <= p <= 100.0
    ensures 0.0 <= offset <= size ==> p == offset / size * 100.0
  {
    PercentInRange(offset, size);
    Clamp100(offset / size * 100.0)
  }

  lemma PercentInRange(offset: real, size: real)
    requires size > 0.0
    ensures 0.0 <= offset <= size ==> 0.0 <= offset / size * 100.0 <= 100.0
  {
    if 0.0 <= offset <= size {
      assert offset / size <= 1.0;
    }
  }

  /** The pixel offset of a percentage along an axis of the given size: a
      percentage in [0, 100] lands inside the frame, and converting it back
      gives the percentage, clamped. */
  function ToPixel(percent: real, size: real): (px: real)
    ensures 0.0 <= percent <= 100.0 && size >= 0.0 ==> 0.0 <= px <= size
    ensures size > 0.0 ==> ToPercent(px, size) == Clamp100(percent)
  {
    var px := percent / 100.0 * size;
    assert size > 0.0 ==> px / size * 100.0 == percent;
    assert 0.0 <= percent <= 100.0 && size >= 0.0 ==> px <= size by {
      if 0.0 <= percent <= 100.0 && size >= 0.0 {
        assert percent / 100.0 <= 1.0;
      }
    }
    px
  }

  /** Converting an in-frame offset to a percentage and back gives the offset. */
  lemma PixelRoundTrip(offset: real, size: real)
    requires size > 0.0 && 0.0 <= offset <= size
    ensures ToPixel(ToPercent(offset, size), size) == offset
  {
    var q := offset / size;
    assert ToPercent(offset, size) / 100.0 == q;
    assert q * size == offset;
  }

  /** `Math.hypot(cx - mx, cy - my) <= HIT_RADIUS_PX` with the mark taken to
      pixel space, compared in squared form (both sides are non-negative). */
  predicate HitsMark(m: Mark, cx: real, cy: real, r: Rect)
    ensures HitsMark(m, cx, cy, r) ==>
      && -HitRadiusPx <= cx - ToPixel(m.x, r.w) <= HitRadiusPx
      && -HitRadiusPx <= cy - ToPixel(m.y, r.h) <= HitRadiusPx
    ensures cx == ToPixel(m.x, r.w) && cy == ToPixel(m.y, r.h) ==> HitsMark(m, cx, cy, r)
  {
    WithinRadius(cx - ToPixel(m.x, r.w), cy - ToPixel(m.y, r.h));
    var dx := cx - ToPixel(m.x, r.w);
    var dy := cy - ToPixel(m.y, r.h);
    dx * dx + dy * dy <= HitRadiusPx * HitRadiusPx
  }

  /** A point within the hit radius lies in the square of that half-width. */
  lemma WithinRadius(dx: real, dy: real)
    ensures dx * dx + dy * dy <= HitRadiusPx * HitRadiusPx ==>
      -HitRadiusPx <= dx <= HitRadiusPx && -HitRadiusPx <= dy <= HitRadiusPx
  {
    if dx > HitRadiusPx { assert dx * dx > HitRadiusPx * HitRadiusPx; }
    if dx < -HitRadiusPx { assert dx * dx > HitRadiusPx * HitRadiusPx; }
    if dy > HitRadiusPx { assert dy * dy > HitRadiusPx * HitRadiusPx; }
    if dy < -HitRadiusPx { assert dy * dy > HitRadiusPx * HitRadiusPx; }
  }

  /** The lowest index whose mark the click hits, if there is one. */
  function FirstHit(marks: seq<Mark>, cx: real, cy: real, r: Rect): (hit: Option<nat>)
    ensures hit.Some? ==> hit.value < |marks| && HitsMark(marks[hit.value], cx, cy, r)
    ensures hit.Some? ==> forall j :: 0 <= j < hit.value ==> !HitsMark(marks[j], cx, cy, r)
    ensures hit.None? ==> forall j :: 0 <= j < |marks| ==> !HitsMark(marks[j], cx, cy, r)
  {
    if marks == [] then None
    else if HitsMark(marks[0], cx, cy, r) then Some(0)
    else match FirstHit(marks[1..], cx, cy, r)
      case None => None
      case Some(k) => Some(k + 1)
  }

  lemma FirstHitIs(marks: seq<Mark>, cx: real, cy: real, r: Rect, i: nat)
    requires i < |marks| && HitsMark(marks[i], cx, cy, r)
    requires forall j :: 0 <= j < i ==> !HitsMark(marks[j], cx, cy, r)
    ensures FirstHit(marks, cx, cy, r) == Some(i)
  {
  }

  predicate Editable(v: Viewer) {
    !v.readOnly && v.hasMarksChange && v.hasImage
  }

  /** The list an overlay click emits through `onMarksChange`, or `None` when
      nothing is emitted: the first mark hit is filtered out, otherwise an
      unnamed mark at the clamped percentage position is appended. */
  function OverlayClick(v: Viewer, marks: seq<Mark>, container: Option<Rect>, cx: real, cy: real): (emitted: Option<seq<Mark>>)
    requires container.Some? ==> container.value.w > 0.0 && container.value.h > 0.0
    ensures emitted.Some? <==> Editable(v) && container.Some?
  {
    if !Editable(v) || container.None? then None
    else
      var r := container.value;
      match FirstHit(marks, cx, cy, r)
      case Some(i) => Some(WithoutIndex(marks, i))
      case None => Some(marks + [Mark(ToPercent(cx, r.w), ToPercent(cy, r.h), None)])
  }

  /** The overlay's click handler: scans the marks in index order and emits
      at most once, at the first mark within the hit radius. */
  method HandleOverlayClick(v: Viewer, marks: seq<Mark>, container: Option<Rect>, cx: real, cy: real)
    returns (emitted: Option<seq<Mark>>)
    requires container.Some? ==> container.value.w > 0.0 && container.value.h > 0.0
    ensures emitted == OverlayClick(v, marks, container, cx, cy)
  {
    if v.readOnly || !v.hasMarksChange || !v.hasImage || container.None? {
      return None;
    }
    var r := container.value;
    var xPercent := ToPercent(cx, r.w);
    var yPercent := ToPercent(cy, r.h);
    for i := 0 to |marks|
      invariant forall j :: 0 <= j < i ==> !HitsMark(marks[j], cx, cy, r)
    {
      if HitsMark(marks[i], cx, cy, r) {
        FirstHitIs(marks, cx, cy, r, i);
        return Some(WithoutIndex(marks, i));
      }
    }
    return Some(marks + [Mark(xPercent, yPercent, None)]);
  }

  /** A click with some mark within the radius emits the list with exactly the
      lowest such index removed; the rest keep their order. */
  lemma OverlayClickRemovesFirstHit(v: Viewer, marks: seq<Mark>, r: Rect, cx: real, cy: real, i: nat)
    requires r.w > 0.0 && r.h > 0.0 && Editable(v)
    requires i < |marks| && HitsMark(marks[i], cx, cy, r)
    requires forall j :: 0 <= j < i ==> !HitsMark(marks[j], cx, cy, r)
    ensures var e := OverlayClick(v, marks, Some(r), cx, cy);
      && e.Some? && |e.value| == |marks| - 1
      && e.value[..i] == marks[..i] && e.value[i..] == marks[i + 1..]
  {
    var e := OverlayClick(v, marks, Some(r), cx, cy);
    assert FirstHit(marks, cx, cy, r) == Some(i);
    assert e.value[..i] == marks[..i];
  }

  /** A click that hits no mark emits the list with one more mark at the end:
      unnamed, at the click's clamped percentages, so inside [0, 100] on both
      axes. */
  lemma OverlayClickAppends(v: Viewer, marks: seq<Mark>, r: Rect, cx: real, cy: real)
    requires r.w > 0.0 && r.h > 0.0 && Editable(v)
    requires forall j :: 0 <= j < |marks| ==> !HitsMark(marks[j], cx, cy, r)
    ensures var e := OverlayClick(v, marks, Some(r), cx, cy);
      && e.Some? && |e.value| == |marks| + 1 && e.value[..|marks|] == marks
      && var m := e.value[|marks|];
      && m == Mark(ToPercent(cx, r.w), ToPercent(cy, r.h), None)
      && 0.0 <= m.x <= 100.0 && 0.0 <= m.y <= 100.0
  {
    var e := OverlayClick(v, marks, Some(r), cx, cy);
    assert FirstHit(marks, cx, cy, r) == None;
    assert e.value[..|marks|] == marks;
  }

  /** A click on the background at a point inside the frame, followed by a
      click at the same point, gives back the original list: the new mark
      sits exactly under the pointer and no earlier mark was hit. */
  lemma {:induction false} AddThenRemoveRestores(v: Viewer, marks: seq<Mark>, r: Rect, cx: real, cy: real)
    requires r.w > 0.0 && r.h > 0.0 && Editable(v)
    requires 0.0 <= cx <= r.w && 0.0 <= cy <= r.h
    requires FirstHit(marks, cx, cy, r) == None
    ensures var e := OverlayClick(v, marks, Some(r), cx, cy);
      e.Some? && OverlayClick(v, e.value, Some(r), cx, cy) == Some(marks)
  {
    var added := Mark(ToPercent(cx, r.w), ToPercent(cy, r.h), None);
    var e := marks + [added];
    assert OverlayClick(v, marks, Some(r), cx, cy) == Some(e);
    AddedMarkIsHit(cx, cy, r);
    forall j | 0 <= j < |marks| ensures !HitsMark(e[j], cx, cy, r) {
      assert e[j] == marks[j];
    }
    FirstHitIs(e, cx, cy, r, |marks|);
    WithoutAppended(marks, added);
  }

  /** A mark placed at an in-frame click lies at distance 0 from that click. */
  lemma AddedMarkIsHit(cx: real, cy: real, r: Rect)
    requires r.w > 0.0 && r.h > 0.0
    requires 0.0 <= cx <= r.w && 0.0 <= cy <= r.h
    ensures HitsMark(Mark(ToPercent(cx, r.w), ToPercent(cy, r.h), None), cx, cy, r)
  {
    PixelRoundTrip(cx, r.w);
    PixelRoundTrip(cy, r.h);
  }

  /** What a click on one rendered mark leads to. */
  datatype MarkClickOutcome =
    | Delegated(mark: Mark, index: nat)   // `onMarkClick(m, i)` is called
    | Emitted(marks: seq<Mark>)           // `onMarksChange` is called
    | Ignored

  /** A click on mark `i`: handed to `onMarkClick` whenever one is registered
      (read-only or not); otherwise, in an editable viewer with a measured
      container, mark `i` is removed when the click is within its radius. */
  function MarkClick(v: Viewer, marks: seq<Mark>, i: nat, container: Option<Rect>, cx: real, cy: real): (o: MarkClickOutcome)
    requires i < |marks|
    ensures v.hasMarkClick <==> o == Delegated(marks[i], i)
    ensures !v.hasMarkClick && (v.readOnly || !v.hasMarksChange || container.None?) ==> o == Ignored
    ensures o.Emitted? <==> !v.hasMarkClick && !v.readOnly && v.hasMarksChange && container.Some?
                            && HitsMark(marks[i], cx, cy, container.value)
    ensures o.Emitted? ==> |o.marks| == |marks| - 1 && o.marks == marks[..i] + marks[i + 1..]
    ensures !v.hasMarkClick ==> !o.Delegated?
    ensures o == Ignored <==> !v.hasMarkClick && !o.Emitted?
  {
    if v.hasMarkClick then Delegated(marks[i], i)
    else if v.readOnly || !v.hasMarksChange then Ignored
    else if container.None? then Ignored
    else if HitsMark(marks[i], cx, cy, container.value) then Emitted(WithoutIndex(marks, i))
    else Ignored
  }

  /** A read-only viewer without a delegate never changes the list, whatever
      is clicked. */
  lemma ReadOnlyNeverEmits(v: Viewer, marks: seq<Mark>, container: Option<Rect>, cx: real, cy: real, i: nat)
    requires v.readOnly && !v.hasMarkClick && i < |marks|
    requires container.Some? ==> container.value.w > 0.0 && container.value.h > 0.0
    ensures OverlayClick(v, marks, container, cx, cy) == None
    ensures MarkClick(v, marks, i, container, cx, cy) == Ignored
  {
  }
}
