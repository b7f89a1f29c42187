/** The marked-maps page: an admin edits the draft marks of one saved
    record through a popover that renames or deletes the selected mark. */
module MarkedMapsPage {
  import opened Strings
  import opened Marks
  import MapViewer

  /** `markNameInput.trim() || undefined`: the trimmed input, or no label
      when nothing but whitespace was typed. The label is never empty. */
  function LabelFromInput(input: string): (name: Option<string>)
    ensures name != Some("")
    ensures name.None? <==> AllWhitespace(input)
    ensures name.Some? ==> name.value == Trim(input)
  {
    var trimmed := Trim(input);
    if trimmed == "" then None else Some(trimmed)
  }

  /** `prev.map((m, idx) => idx === selected ? { ...m, name: label } : m)`. */
  function RenameAt(marks: seq<Mark>, selected: int, input: string): (r: seq<Mark>)
    ensures |r| == |marks|
    ensures forall k :: 0 <= k < |marks| && k != selected ==> r[k] == marks[k]
    ensures 0 <= selected < |marks| ==>
      r[selected] == Mark(marks[selected].x, marks[selected].y, LabelFromInput(input))
    ensures !(0 <= selected < |marks|) ==> r == marks
  {
    seq(|marks|, k requires 0 <= k < |marks| =>
      if k == selected then marks[k].(name := LabelFromInput(input)) else marks[k])
  }

  /** `prev.filter((_, idx) => idx !== selected)`. */
  function DeleteAt(marks: seq<Mark>, selected: int): (r: seq<Mark>)
    ensures 0 <= selected < |marks| ==> |r| == |marks| - 1 && r == marks[..selected] + marks[selected + 1..]
    ensures !(0 <= selected < |marks|) ==> r == marks
  {
    WithoutIndex(marks, selected)
  }

  /** Renaming never moves a mark: the positions before and after agree. */
  lemma RenameKeepsPositions(marks: seq<Mark>, selected: int, input: string)
    ensures var r := RenameAt(marks, selected, input);
      forall k :: 0 <= k < |r| ==> r[k].x == marks[k].x && r[k].y == marks[k].y
  {
  }

  /** Renaming a mark and then deleting it is the same as deleting it. */
  lemma DeleteAfterRename(marks: seq<Mark>, selected: int, input: string)
    ensures DeleteAt(RenameAt(marks, selected, input), selected) == DeleteAt(marks, selected)
  {
    var r := RenameAt(marks, selected, input);
    if 0 <= selected < |marks| {
      assert r[..selected] == marks[..selected];
      assert r[selected + 1..] == marks[selected + 1..];
    }
  }

  /** Renaming twice with the same input is renaming once. */
  lemma RenameIdempotent(marks: seq<Mark>, selected: int, input: string)
    ensures RenameAt(RenameAt(marks, selected, input), selected, input) == RenameAt(marks, selected, input)
  {
  }

  /** The state of the edit dialog that the popover handlers touch: the draft
      marks, the selected mark index (`null` when none), the name typed in
      the popover, and whether the popover is open. */
  datatype Editor = Editor(draft: seq<Mark>, selected: Option<int>, nameInput: string, popoverOpen: bool)

  /** The popover's Save button: with a selection, renames the selected mark
      and closes the popover; with none, does nothing. */
  function SaveMarkName(e: Editor): (e': Editor)
    ensures e.selected.None? ==> e' == e
    ensures e.selected.Some? ==>
      && e'.draft == RenameAt(e.draft, e.selected.value, e.nameInput)
      && e'.selected.None? && !e'.popoverOpen && e'.nameInput == e.nameInput
  {
    match e.selected
    case None => e
    case Some(i) => e.(draft := RenameAt(e.draft, i, e.nameInput), selected := None, popoverOpen := false)
  }

  /** The popover's delete button: with a selection, removes the selected
      mark and closes the popover; with none, does nothing. */
  function DeleteSelectedMark(e: Editor): (e': Editor)
    ensures e.selected.None? ==> e' == e
    ensures e.selected.Some? ==>
      && e'.draft == DeleteAt(e.draft, e.selected.value)
      && e'.selected.None? && !e'.popoverOpen && e'.nameInput == e.nameInput
  {
    match e.selected
    case None => e
    case Some(i) => e.(draft := DeleteAt(e.draft, i), selected := None, popoverOpen := false)
  }

  /** The page's `onMarkClick`: for an admin, selects the mark, opens the
      popover and preloads its label (or `""`); for anyone else, nothing. */
  function MarkClicked(isAdmin: bool, e: Editor, mark: Mark, index: nat): (e': Editor)
    ensures !isAdmin ==> e' == e
    ensures isAdmin ==> e'.draft == e.draft && e'.selected == Some(index) && e'.popoverOpen
    ensures isAdmin ==> e'.nameInput == match mark.name case None => "" case Some(n) => n
  {
    if !isAdmin then e
    else
      var preload := match mark.name case None => "" case Some(n) => n;
      e.(selected := Some(index), popoverOpen := true, nameInput := preload)
  }

  /** How the page configures the viewer: read-only unless admin, edits go
      to the draft, mark clicks to `MarkClicked`. */
  function PageViewer(isAdmin: bool, hasImage: bool): (v: MapViewer.Viewer)
    ensures v.hasMarkClick && v.hasMarksChange && v.readOnly == !isAdmin
    ensures v.hasImage == hasImage
  {
    MapViewer.Viewer(!isAdmin, true, true, hasImage)
  }

  /** The overlay handler does not consult `onMarkClick`: for an admin, a
      click on the overlay within the hit radius of a mark (but off its dot,
      so the mark's own handler does not run) removes the first mark hit
      from the draft directly, bypassing `MarkClicked`. */
  lemma PageOverlayMayRemove(hasImage: bool, marks: seq<Mark>, r: MapViewer.Rect, cx: real, cy: real, i: nat)
    requires hasImage && r.w > 0.0 && r.h > 0.0
    requires i < |marks| && MapViewer.HitsMark(marks[i], cx, cy, r)
    requires forall j :: 0 <= j < i ==> !MapViewer.HitsMark(marks[j], cx, cy, r)
    ensures PageViewer(true, hasImage).hasMarkClick
    ensures MapViewer.OverlayClick(PageViewer(true, hasImage), marks, Some(r), cx, cy)
            == Some(WithoutIndex(marks, i))
  {
    MapViewer.FirstHitIs(marks, cx, cy, r, i);
  }

  /** On this page a click on a mark never edits the draft directly: it is
      always handed to `MarkClicked`, and for a non-admin that changes
      nothing at all. */
  lemma MarkClickOnPage(isAdmin: bool, hasImage: bool, e: Editor, i: nat,
                        container: Option<MapViewer.Rect>, cx: real, cy: real)
    requires i < |e.draft|
    ensures MapViewer.MarkClick(PageViewer(isAdmin, hasImage), e.draft, i, container, cx, cy)
            == MapViewer.Delegated(e.draft[i], i)
    ensures !isAdmin ==> MarkClicked(isAdmin, e, e.draft[i], i) == e
  {
  }

  /** The worked case: a blank name clears the label instead of storing an
      empty string. */
  lemma BlankNameClearsLabel(marks: seq<Mark>, i: nat)
    requires i < |marks|
    ensures RenameAt(marks, i, "   ")[i].name == None
  {
    assert AllWhitespace("   ");
  }
}
