/** The combined read-only view of all saved marks: pooling the marks of
    every record of a map, merging marks that overlap into one
    representative, and summarising the saved records per map. */
module AllMarksMap {
  import opened Marks
  import MapViewer

  /** The default merge threshold, in percent units. */
  const DefaultThreshold: real := 2.5

  /** The squared percent-space distance between two marks. */
  function DistanceSq(a: Mark, b: Mark): (d: real)
    ensures d >= 0.0
  {
    (a.x - b.x) * (a.x - b.x) + (a.y - b.y) * (a.y - b.y)
  }

  /** `markDistance(a, b) <= threshold`, compared in squared form: a
      Euclidean distance is never negative, so a negative threshold admits
      nothing. */
  predicate Intersect(a: Mark, b: Mark, threshold: real)
    ensures Intersect(a, b, threshold) ==>
      && -threshold <= a.x - b.x <= threshold
      && -threshold <= a.y - b.y <= threshold
    ensures threshold >= 0.0 && a.x == b.x && a.y == b.y ==> Intersect(a, b, threshold)
  {
    if threshold < 0.0 then false
    else
      WithinThreshold(a.x - b.x, a.y - b.y, threshold);
      DistanceSq(a, b) <= threshold * threshold
  }

  /** Within a non-negative threshold, each axis differs by at most the
      threshold. */
  lemma WithinThreshold(dx: real, dy: real, t: real)
    requires t >= 0.0
    ensures dx * dx + dy * dy <= t * t ==> -t <= dx <= t && -t <= dy <= t
  {
    if dx > t { SquareAbove(dx, t); }
    if dx < -t { SquareAbove(-dx, t); }
    if dy > t { SquareAbove(dy, t); }
    if dy < -t { SquareAbove(-dy, t); }
  }

  lemma SquareAbove(a: real, t: real)
    requires a > t >= 0.0
    ensures a * a > t * t
  {
    calc {
      a * a;
    > a * t;
    >= t * t;
    }
  }

  lemma IntersectSymmetric(a: Mark, b: Mark, threshold: real)
    ensures Intersect(a, b, threshold) == Intersect(b, a, threshold)
  {
    assert (a.x - b.x) * (a.x - b.x) == (b.x - a.x) * (b.x - a.x);
    assert (a.y - b.y) * (a.y - b.y) == (b.y - a.y) * (b.y - a.y);
  }

  /** `result.some((existing) => markDistance(existing, mark) <= threshold)`. */
  predicate IntersectsAny(result: seq<Mark>, mark: Mark, threshold: real)
    ensures IntersectsAny(result, mark, threshold) ==> threshold >= 0.0 && result != []
    ensures threshold >= 0.0 && mark in result ==> IntersectsAny(result, mark, threshold)
  {
    exists k :: 0 <= k < |result| && Intersect(result[k], mark, threshold)
  }

  /** The greedy first-wins merge over the marks in input order: a mark is
      kept when it is farther than the threshold from every mark kept before
      it. */
  function Merge(marks: seq<Mark>, threshold: real): (r: seq<Mark>)
    ensures |r| <= |marks|
  {
    if marks == [] then []
    else
      var kept := Merge(marks[..|marks| - 1], threshold);
      var mark := marks[|marks| - 1];
      if IntersectsAny(kept, mark, threshold) then kept else kept + [mark]
  }

  /** `mergeIntersectingMarks`: pushes onto `result` every mark that does not
      intersect a mark already pushed. */
  method MergeIntersectingMarks(marks: seq<Mark>, threshold: real) returns (result: seq<Mark>)
    ensures result == Merge(marks, threshold)
  {
    result := [];
    for i := 0 to |marks|
      invariant result == Merge(marks[..i], threshold)
    {
      var mark := marks[i];
      var intersects := exists k :: 0 <= k < |result| && Intersect(result[k], mark, threshold);
      assert marks[..i + 1][..i] == marks[..i];
      if !intersects {
        result := result + [mark];
      }
    }
    assert marks[..|marks|] == marks;
  }

  /** The merge of a prefix is a prefix of the merge. */
  lemma {:induction false} MergePrefix(marks: seq<Mark>, n: nat, threshold: real)
    requires n <= |marks|
    ensures Merge(marks[..n], threshold) <= Merge(marks, threshold)
    decreases |marks|
  {
    if n < |marks| {
      var init := marks[..|marks| - 1];
      assert init[..n] == marks[..n];
      MergePrefix(init, n, threshold);
    } else {
      assert marks[..n] == marks;
    }
  }

  /** For non-empty input the first mark, label included, is the first mark
      of the output; empty input gives empty output. */
  lemma MergeKeepsFirst(marks: seq<Mark>, threshold: real)
    ensures marks == [] ==> Merge(marks, threshold) == []
    ensures marks != [] ==> |Merge(marks, threshold)| > 0 && Merge(marks, threshold)[0] == marks[0]
  {
    if marks != [] {
      MergePrefix(marks, 1, threshold);
      assert marks[..1][..0] == [];
      assert Merge(marks[..1], threshold) == [marks[0]];
    }
  }

  /** Any two distinct marks of the output are farther apart than the
      threshold. */
  ghost predicate Separated(r: seq<Mark>, threshold: real) {
    forall i, j :: 0 <= i < |r| && 0 <= j < |r| && i != j ==> !Intersect(r[i], r[j], threshold)
  }

  lemma {:induction false} MergeSeparated(marks: seq<Mark>, threshold: real)
    ensures Separated(Merge(marks, threshold), threshold)
    decreases |marks|
  {
    if marks != [] {
      var kept := Merge(marks[..|marks| - 1], threshold);
      var mark := marks[|marks| - 1];
      MergeSeparated(marks[..|marks| - 1], threshold);
      if !IntersectsAny(kept, mark, threshold) {
        var r := kept + [mark];
        forall i, j | 0 <= i < |r| && 0 <= j < |r| && i != j
          ensures !Intersect(r[i], r[j], threshold)
        {
          if j == |kept| {
            assert !Intersect(kept[i], mark, threshold);
          } else if i == |kept| {
            assert !Intersect(kept[j], mark, threshold);
            IntersectSymmetric(kept[j], mark, threshold);
          }
        }
      }
    }
  }

  /** With a non-negative threshold every input mark lies within the
      threshold of some output mark: of itself when it was kept, of the mark
      that absorbed it otherwise. */
  lemma {:induction false} MergeCovers(marks: seq<Mark>, threshold: real)
    requires threshold >= 0.0
    ensures forall k :: 0 <= k < |marks| ==> IntersectsAny(Merge(marks, threshold), marks[k], threshold)
    decreases |marks|
  {
    if marks != [] {
      var init := marks[..|marks| - 1];
      var kept := Merge(init, threshold);
      var mark := marks[|marks| - 1];
      var r := Merge(marks, threshold);
      MergeCovers(init, threshold);
      assert kept <= r;
      forall k | 0 <= k < |marks| ensures IntersectsAny(r, marks[k], threshold) {
        if k < |marks| - 1 {
          assert marks[k] == init[k];
          var w :| 0 <= w < |kept| && Intersect(kept[w], init[k], threshold);
          assert r[w] == kept[w];
        } else if !IntersectsAny(kept, mark, threshold) {
          assert r[|kept|] == mark;
          assert Intersect(mark, mark, threshold);
        } else {
          assert r == kept;
        }
      }
    }
  }

  /** `r` is the subsequence of `s` at the strictly increasing positions
      `idx`. */
  ghost predicate SubsequenceAt<T>(r: seq<T>, s: seq<T>, idx: seq<nat>) {
    && |idx| == |r|
    && (forall k :: 0 <= k < |idx| ==> idx[k] < |s| && r[k] == s[idx[k]])
    && (forall k, l :: 0 <= k < l < |idx| ==> idx[k] < idx[l])
  }

  /** The positions of the input marks that the merge keeps. */
  ghost function KeptPositions(marks: seq<Mark>, threshold: real): seq<nat> {
    if marks == [] then []
    else
      var kept := Merge(marks[..|marks| - 1], threshold);
      var positions := KeptPositions(marks[..|marks| - 1], threshold);
      if IntersectsAny(kept, marks[|marks| - 1], threshold) then positions
      else positions + [|marks| - 1]
  }

  /** The output consists of copies of input marks, in input order. */
  lemma {:induction false} MergeIsSubsequence(marks: seq<Mark>, threshold: real)
    ensures SubsequenceAt(Merge(marks, threshold), marks, KeptPositions(marks, threshold))
    decreases |marks|
  {
    if marks != [] {
      var init := marks[..|marks| - 1];
      MergeIsSubsequence(init, threshold);
      var idx := KeptPositions(init, threshold);
      assert forall k :: 0 <= k < |idx| ==> init[idx[k]] == marks[idx[k]];
    }
  }

  /** A sequence whose marks are pairwise farther apart than the threshold
      is left as it is. */
  lemma {:induction false} MergeOfSeparated(marks: seq<Mark>, threshold: real)
    requires Separated(marks, threshold)
    ensures Merge(marks, threshold) == marks
    decreases |marks|
  {
    if marks != [] {
      var init := marks[..|marks| - 1];
      var mark := marks[|marks| - 1];
      assert Separated(init, threshold) by {
        forall i, j | 0 <= i < |init| && 0 <= j < |init| && i != j
          ensures !Intersect(init[i], init[j], threshold)
        {
          assert init[i] == marks[i] && init[j] == marks[j];
        }
      }
      MergeOfSeparated(init, threshold);
      forall k | 0 <= k < |init| ensures !Intersect(init[k], mark, threshold) {
        assert init[k] == marks[k];
      }
    }
  }

  /** Merging the output of a merge changes nothing. */
  lemma MergeIdempotent(marks: seq<Mark>, threshold: real)
    ensures Merge(Merge(marks, threshold), threshold) == Merge(marks, threshold)
  {
    MergeSeparated(marks, threshold);
    MergeOfSeparated(Merge(marks, threshold), threshold);
  }

  /** Two marks merge into the first one exactly when they intersect. */
  lemma MergeTwo(a: Mark, b: Mark, threshold: real)
    ensures Merge([a, b], threshold) == if Intersect(a, b, threshold) then [a] else [a, b]
  {
    assert [a, b][..1] == [a] && [a][..0] == [];
    assert Merge([a], threshold) == [a];
    assert IntersectsAny([a], b, threshold) == Intersect(a, b, threshold) by {
      assert [a][0] == a;
    }
  }

  /** Three worked cases: marks 1.41 units apart merge into the first one,
      marks 14.1 units apart stay apart, and the surviving representative
      keeps its own label. */
  lemma MergeExamples()
    ensures Merge([Mark(10.0, 10.0, None), Mark(11.0, 11.0, None)], DefaultThreshold) == [Mark(10.0, 10.0, None)]
    ensures Merge([Mark(10.0, 10.0, None), Mark(20.0, 20.0, None)], DefaultThreshold)
            == [Mark(10.0, 10.0, None), Mark(20.0, 20.0, None)]
    ensures Merge([Mark(10.0, 10.0, Some("A")), Mark(10.5, 10.0, Some("B"))], DefaultThreshold)
            == [Mark(10.0, 10.0, Some("A"))]
  {
    var a, b, c := Mark(10.0, 10.0, None), Mark(11.0, 11.0, None), Mark(20.0, 20.0, None);
    var na, nb := Mark(10.0, 10.0, Some("A")), Mark(10.5, 10.0, Some("B"));
    assert DistanceSq(a, b) == 2.0 && DistanceSq(a, c) == 200.0 && DistanceSq(na, nb) == 0.25;
    MergeTwo(a, b, DefaultThreshold);
    MergeTwo(a, c, DefaultThreshold);
    MergeTwo(na, nb, DefaultThreshold);
  }

  /** The number of marks over all records. */
  function TotalMarks(docs: seq<MarkedMap>): nat {
    if docs == [] then 0 else TotalMarks(docs[..|docs| - 1]) + |docs[|docs| - 1].marks|
  }

  /** `docs.flatMap((doc) => doc.marks)`: every record's marks, record after
      record. */
  function Pool(docs: seq<MarkedMap>): (flat: seq<Mark>)
    ensures |flat| == TotalMarks(docs)
  {
    if docs == [] then [] else Pool(docs[..|docs| - 1]) + docs[|docs| - 1].marks
  }

  lemma {:induction false} PoolAppend(a: seq<MarkedMap>, b: seq<MarkedMap>)
    ensures Pool(a + b) == Pool(a) + Pool(b)
    decreases |b|
  {
    if b == [] {
      assert a + b == a;
    } else {
      var b', last := b[..|b| - 1], b[|b| - 1];
      assert (a + b)[..|a + b| - 1] == a + b';
      assert Pool(a + b) == Pool(a + b') + last.marks;
      assert Pool(b) == Pool(b') + last.marks;
      PoolAppend(a, b');
    }
  }

  /** Record `k`'s marks sit in the pool right after those of the records
      before it. */
  lemma PoolSlice(docs: seq<MarkedMap>, k: nat)
    requires k < |docs|
    ensures var lo := TotalMarks(docs[..k]);
      && lo + |docs[k].marks| <= |Pool(docs)|
      && Pool(docs)[lo..lo + |docs[k].marks|] == docs[k].marks
  {
    var before, rest := docs[..k + 1], docs[k + 1..];
    assert docs == before + rest;
    assert before[..k] == docs[..k];
    PoolAppend(before, rest);
  }

  /** The marks shown in the combined popup: the pooled marks, merged with the
      default threshold. */
  function AllMarksInPopup(docs: seq<MarkedMap>): (r: seq<Mark>)
    ensures |r| <= TotalMarks(docs)
    ensures Separated(r, DefaultThreshold)
  {
    MergeSeparated(Pool(docs), DefaultThreshold);
    Merge(Pool(docs), DefaultThreshold)
  }

  /** Every mark of every record is shown, or lies within the threshold of a
      mark that is shown. */
  lemma PopupCoversEveryMark(docs: seq<MarkedMap>, k: nat, j: nat)
    requires k < |docs| && j < |docs[k].marks|
    ensures IntersectsAny(AllMarksInPopup(docs), docs[k].marks[j], DefaultThreshold)
  {
    PoolSlice(docs, k);
    var lo := TotalMarks(docs[..k]);
    assert Pool(docs)[lo + j] == docs[k].marks[j];
    MergeCovers(Pool(docs), DefaultThreshold);
  }

  /** The popup's viewer: read-only, with neither `onMarksChange` nor
      `onMarkClick`. */
  function PopupViewer(hasImage: bool): (v: MapViewer.Viewer)
    ensures v.readOnly && !v.hasMarksChange && !v.hasMarkClick
  {
    MapViewer.Viewer(true, false, false, hasImage)
  }

  /** No click in the popup changes the marks it shows. */
  lemma PopupNeverEdits(hasImage: bool, marks: seq<Mark>, i: nat,
                        container: Option<MapViewer.Rect>, cx: real, cy: real)
    requires i < |marks|
    requires container.Some? ==> container.value.w > 0.0 && container.value.h > 0.0
    ensures MapViewer.OverlayClick(PopupViewer(hasImage), marks, container, cx, cy) == None
    ensures MapViewer.MarkClick(PopupViewer(hasImage), marks, i, container, cx, cy) == MapViewer.Ignored
  {
    MapViewer.ReadOnlyNeverEmits(PopupViewer(hasImage), marks, container, cx, cy, i);
  }

  /** The summary card of one map: its first record's name and image, the
      number of marks over its records and the number of its records. */
  datatype MapWithMarks = MapWithMarks(mapId: string, mapName: string, imageUrl: string, totalMarks: nat, savedCount: nat)

  /** The position of the summary for `id`, if there is one. */
  function IndexOfMap(groups: seq<MapWithMarks>, id: string): (r: Option<nat>)
    ensures r.Some? ==> r.value < |groups| && groups[r.value].mapId == id
    ensures r.Some? ==> forall k :: 0 <= k < r.value ==> groups[k].mapId != id
    ensures r.None? ==> forall k :: 0 <= k < |groups| ==> groups[k].mapId != id
  {
    if groups == [] then None
    else if groups[0].mapId == id then Some(0)
    else match IndexOfMap(groups[1..], id)
      case None => None
      case Some(k) => Some(k + 1)
  }

  /** The summary opened by the first record of a map. */
  function Opened(doc: MarkedMap): (g: MapWithMarks)
    ensures g.mapId == doc.mapId && g.mapName == doc.mapName && g.imageUrl == doc.imageUrl
    ensures g.totalMarks == |doc.marks| && g.savedCount == 1
  {
    MapWithMarks(doc.mapId, doc.mapName, doc.imageUrl, |doc.marks|, 1)
  }

  /** A summary with one more record of its map added to its counts. */
  function Counted(g: MapWithMarks, doc: MarkedMap): (g': MapWithMarks)
    ensures g'.mapId == g.mapId && g'.mapName == g.mapName && g'.imageUrl == g.imageUrl
    ensures g'.totalMarks == g.totalMarks + |doc.marks| && g'.savedCount == g.savedCount + 1
  {
    g.(totalMarks := g.totalMarks + |doc.marks|, savedCount := g.savedCount + 1)
  }

  /** One step of the fold: a record of a map not seen yet opens a summary
      at the end; a record of a known map adds to that map's counts. */
  function AddRecord(groups: seq<MapWithMarks>, doc: MarkedMap): (r: seq<MapWithMarks>)
    ensures |r| == if IndexOfMap(groups, doc.mapId).None? then |groups| + 1 else |groups|
    ensures forall k :: 0 <= k < |groups| ==> r[k].mapId == groups[k].mapId
  {
    match IndexOfMap(groups, doc.mapId)
    case None => groups + [Opened(doc)]
    case Some(k) => groups[k := Counted(groups[k], doc)]
  }

  /** The summaries of the records, folded in list order. */
  function Group(list: seq<MarkedMap>): (r: seq<MapWithMarks>)
    ensures |r| <= |list|
    ensures r == [] <==> list == []
  {
    if list == [] then [] else AddRecord(Group(list[..|list| - 1]), list[|list| - 1])
  }

  /** The entries of a JavaScript `Map` in insertion order: `keys` is the
      insertion order, `byMap` the key-value table. */
  function Values(keys: seq<string>, byMap: map<string, MapWithMarks>): (vs: seq<MapWithMarks>)
    requires forall k :: 0 <= k < |keys| ==> keys[k] in byMap
    ensures |vs| == |keys| && forall k :: 0 <= k < |keys| ==> vs[k] == byMap[keys[k]]
  {
    seq(|keys|, k requires 0 <= k < |keys| => byMap[keys[k]])
  }

  /** What `groupByMap`'s table keeps true: `keys` lists every key of
      `byMap` once, in insertion order, and every entry is filed under its
      own `mapId`. */
  ghost predicate Table(keys: seq<string>, byMap: map<string, MapWithMarks>) {
    && (forall k :: 0 <= k < |keys| ==> keys[k] in byMap && byMap[keys[k]].mapId == keys[k])
    && (forall id :: id in byMap ==> id in keys)
    && (forall k, l :: 0 <= k < l < |keys| ==> keys[k] != keys[l])
  }

  /** Filing a summary under a new key appends the key and the summary. */
  lemma TableAppend(keys: seq<string>, byMap: map<string, MapWithMarks>, g: MapWithMarks)
    requires Table(keys, byMap) && g.mapId !in byMap
    ensures Table(keys + [g.mapId], byMap[g.mapId := g])
    ensures Values(keys + [g.mapId], byMap[g.mapId := g]) == Values(keys, byMap) + [g]
  {
    var keys', byMap' := keys + [g.mapId], byMap[g.mapId := g];
    forall k | 0 <= k < |keys| ensures keys'[k] == keys[k] && byMap'[keys[k]] == byMap[keys[k]] {
      assert keys[k] != g.mapId;
    }
  }

  /** A record of a map not in the table opens a new entry at the end. */
  lemma TableInsert(keys: seq<string>, byMap: map<string, MapWithMarks>, doc: MarkedMap)
    requires Table(keys, byMap) && doc.mapId !in byMap
    ensures Table(keys + [doc.mapId], byMap[doc.mapId := Opened(doc)])
    ensures Values(keys + [doc.mapId], byMap[doc.mapId := Opened(doc)]) == AddRecord(Values(keys, byMap), doc)
  {
    assert IndexOfMap(Values(keys, byMap), doc.mapId) == None;
    TableAppend(keys, byMap, Opened(doc));
  }

  /** In the table's values, the entry of the key at position `p` is found
      at position `p`. */
  lemma TableIndex(keys: seq<string>, byMap: map<string, MapWithMarks>, p: nat)
    requires Table(keys, byMap) && p < |keys|
    ensures IndexOfMap(Values(keys, byMap), keys[p]) == Some(p)
  {
    var q := IndexOfMap(Values(keys, byMap), keys[p]);
    assert Values(keys, byMap)[p].mapId == keys[p];
    assert q.Some? && keys[q.value] == keys[p];
  }

  /** Replacing the entry of the key at position `p` by a summary of the
      same map keeps the table and replaces the `p`-th value. */
  lemma TableReplace(keys: seq<string>, byMap: map<string, MapWithMarks>, p: nat, g: MapWithMarks)
    requires Table(keys, byMap) && p < |keys| && g.mapId == keys[p]
    ensures Table(keys, byMap[keys[p] := g])
    ensures Values(keys, byMap[keys[p] := g]) == Values(keys, byMap)[p := g]
  {
    var before, after := Values(keys, byMap), Values(keys, byMap[keys[p] := g]);
    forall k | 0 <= k < |keys| ensures after[k] == before[p := g][k] {
      if k != p {
        assert keys[k] != keys[p];
      }
    }
  }

  /** A record of a map in the table adds to that entry in place. */
  lemma TableUpdate(keys: seq<string>, byMap: map<string, MapWithMarks>, doc: MarkedMap)
    requires Table(keys, byMap) && doc.mapId in byMap
    ensures Table(keys, byMap[doc.mapId := Counted(byMap[doc.mapId], doc)])
    ensures Values(keys, byMap[doc.mapId := Counted(byMap[doc.mapId], doc)]) == AddRecord(Values(keys, byMap), doc)
  {
    var p :| 0 <= p < |keys| && keys[p] == doc.mapId;
    TableIndex(keys, byMap, p);
    assert Values(keys, byMap)[p] == byMap[doc.mapId];
    TableReplace(keys, byMap, p, Counted(byMap[doc.mapId], doc));
  }

  /** `groupByMap`: one pass over the records, updating a `Map` keyed by
      `mapId`, then its values in insertion order. */
  method GroupByMap(list: seq<MarkedMap>) returns (groups: seq<MapWithMarks>)
    ensures groups == Group(list)
  {
    var byMap: map<string, MapWithMarks> := map[];
    var keys: seq<string> := [];
    for i := 0 to |list|
      invariant Table(keys, byMap)
      invariant Values(keys, byMap) == Group(list[..i])
    {
      var doc := list[i];
      GroupPrefix(list, i);
      if doc.mapId !in byMap {
        TableInsert(keys, byMap, doc);
        byMap := byMap[doc.mapId := Opened(doc)];
        keys := keys + [doc.mapId];
      } else {
        TableUpdate(keys, byMap, doc);
        byMap := byMap[doc.mapId := Counted(byMap[doc.mapId], doc)];
      }
    }
    assert list[..|list|] == list;
    groups := Values(keys, byMap);
  }

  /** Folding one more record is one more step of the fold. */
  lemma GroupLast(init: seq<MarkedMap>, doc: MarkedMap)
    ensures Group(init + [doc]) == AddRecord(Group(init), doc)
  {
    assert (init + [doc])[..|init|] == init;
  }

  /** Folding one record further into the list is one more step of the fold. */
  lemma GroupPrefix(list: seq<MarkedMap>, i: nat)
    requires i < |list|
    ensures Group(list[..i + 1]) == AddRecord(Group(list[..i]), list[i])
  {
    assert list[..i + 1] == list[..i] + [list[i]];
    GroupLast(list[..i], list[i]);
  }

  /** No two summaries share a `mapId`. */
  ghost predicate DistinctIds(groups: seq<MapWithMarks>) {
    forall i, j :: 0 <= i < j < |groups| ==> groups[i].mapId != groups[j].mapId
  }

  /** Every record of `list` has a summary in `groups`. */
  ghost predicate CoversRecords(groups: seq<MapWithMarks>, list: seq<MarkedMap>) {
    forall j :: 0 <= j < |list| ==> IndexOfMap(groups, list[j].mapId).Some?
  }

  /** A fold step keeps every summary it had, in place, under the same map,
      name and image, and leaves a summary for the record's map. */
  lemma AddRecordKeepsSummaries(groups: seq<MapWithMarks>, doc: MarkedMap)
    ensures |groups| <= |AddRecord(groups, doc)|
    ensures forall k :: 0 <= k < |groups| ==>
      && AddRecord(groups, doc)[k].mapId == groups[k].mapId
      && AddRecord(groups, doc)[k].mapName == groups[k].mapName
      && AddRecord(groups, doc)[k].imageUrl == groups[k].imageUrl
    ensures IndexOfMap(AddRecord(groups, doc), doc.mapId).Some?
    ensures DistinctIds(groups) ==> DistinctIds(AddRecord(groups, doc))
  {
    var r := AddRecord(groups, doc);
    match IndexOfMap(groups, doc.mapId)
    case None =>
      assert r[|groups|].mapId == doc.mapId;
    case Some(p) =>
      assert r[p].mapId == doc.mapId;
  }

  /** A map without a summary after a fold step had none before, and is not
      the map of the record folded in. */
  lemma AddRecordMissing(groups: seq<MapWithMarks>, doc: MarkedMap, id: string)
    requires IndexOfMap(AddRecord(groups, doc), id).None?
    ensures IndexOfMap(groups, id).None? && id != doc.mapId
  {
    AddRecordKeepsSummaries(groups, doc);
    forall k | 0 <= k < |groups| ensures groups[k].mapId != id {
      assert AddRecord(groups, doc)[k].mapId == groups[k].mapId;
    }
  }

  /** The inductive step of `GroupOnePerMap`, for any summaries `before` of
      the records `init`. */
  lemma OnePerMapStep(before: seq<MapWithMarks>, init: seq<MarkedMap>, doc: MarkedMap)
    requires DistinctIds(before) && CoversRecords(before, init)
    ensures DistinctIds(AddRecord(before, doc)) && CoversRecords(AddRecord(before, doc), init + [doc])
  {
    var r, list := AddRecord(before, doc), init + [doc];
    AddRecordKeepsSummaries(before, doc);
    forall j | 0 <= j < |list| ensures IndexOfMap(r, list[j].mapId).Some? {
      if j < |init| {
        assert list[j] == init[j];
        var q := IndexOfMap(before, init[j].mapId).value;
        assert r[q].mapId == init[j].mapId;
      }
    }
  }

  /** There is one summary per distinct `mapId`: no `mapId` has two, and
      every record's map has one. */
  lemma {:induction false} GroupOnePerMap(list: seq<MarkedMap>)
    ensures forall i, j :: 0 <= i < j < |Group(list)| ==> Group(list)[i].mapId != Group(list)[j].mapId
    ensures forall j :: 0 <= j < |list| ==> IndexOfMap(Group(list), list[j].mapId).Some?
    decreases |list|
  {
    if list != [] {
      var init, doc := list[..|list| - 1], list[|list| - 1];
      assert list == init + [doc];
      GroupOnePerMap(init);
      GroupLast(init, doc);
      OnePerMapStep(Group(init), init, doc);
    }
  }

  /** The number of records of map `id`. */
  function SavedCount(list: seq<MarkedMap>, id: string): nat {
    if list == [] then 0
    else SavedCount(list[..|list| - 1], id) + (if list[|list| - 1].mapId == id then 1 else 0)
  }

  /** The number of marks over the records of map `id`. */
  function MarksOf(list: seq<MarkedMap>, id: string): nat {
    if list == [] then 0
    else MarksOf(list[..|list| - 1], id) + (if list[|list| - 1].mapId == id then |list[|list| - 1].marks| else 0)
  }

  /** One more record adds to the counts of its own map only. */
  lemma CountsLast(init: seq<MarkedMap>, doc: MarkedMap, id: string)
    ensures SavedCount(init + [doc], id) == SavedCount(init, id) + (if doc.mapId == id then 1 else 0)
    ensures MarksOf(init + [doc], id) == MarksOf(init, id) + (if doc.mapId == id then |doc.marks| else 0)
  {
    assert (init + [doc])[..|init|] == init;
  }

  /** Summary `g` counts the records of its map in `list` and their marks. */
  ghost predicate CountsOf(g: MapWithMarks, list: seq<MarkedMap>) {
    g.savedCount == SavedCount(list, g.mapId) && g.totalMarks == MarksOf(list, g.mapId)
  }

  /** The inductive step of `GroupCounts`, for any summaries `before` of the
      records `init`. */
  lemma CountsStep(before: seq<MapWithMarks>, init: seq<MarkedMap>, doc: MarkedMap)
    requires DistinctIds(before)
    requires forall k :: 0 <= k < |before| ==> CountsOf(before[k], init)
    requires forall id :: IndexOfMap(before, id).None? ==> SavedCount(init, id) == 0 && MarksOf(init, id) == 0
    ensures forall k :: 0 <= k < |AddRecord(before, doc)| ==> CountsOf(AddRecord(before, doc)[k], init + [doc])
    ensures forall id :: IndexOfMap(AddRecord(before, doc), id).None? ==>
      SavedCount(init + [doc], id) == 0 && MarksOf(init + [doc], id) == 0
  {
    var r, list := AddRecord(before, doc), init + [doc];
    forall k | 0 <= k < |r| ensures CountsOf(r[k], list) {
      CountsLast(init, doc, r[k].mapId);
      match IndexOfMap(before, doc.mapId)
      case None =>
        if k < |before| {
          assert r[k] == before[k];
        }
      case Some(p) =>
        if k != p {
          assert r[k] == before[k];
          assert before[p].mapId == doc.mapId;
        }
    }
    forall id | IndexOfMap(r, id).None? ensures SavedCount(list, id) == 0 && MarksOf(list, id) == 0 {
      AddRecordMissing(before, doc, id);
      CountsLast(init, doc, id);
    }
  }

  /** Each summary counts the records of its map and the marks on them; a
      map without a summary has no records. */
  lemma {:induction false} GroupCounts(list: seq<MarkedMap>)
    ensures forall k :: 0 <= k < |Group(list)| ==>
      && Group(list)[k].savedCount == SavedCount(list, Group(list)[k].mapId)
      && Group(list)[k].totalMarks == MarksOf(list, Group(list)[k].mapId)
    ensures forall id :: IndexOfMap(Group(list), id).None? ==> SavedCount(list, id) == 0 && MarksOf(list, id) == 0
    decreases |list|
  {
    if list != [] {
      var init, doc := list[..|list| - 1], list[|list| - 1];
      assert list == init + [doc];
      GroupCounts(init);
      GroupOnePerMap(init);
      GroupLast(init, doc);
      CountsStep(Group(init), init, doc);
    }
  }

  /** The position of the first record of map `id`, if there is one. */
  function FirstRecord(list: seq<MarkedMap>, id: string): (r: Option<nat>)
    ensures r.Some? ==> r.value < |list| && list[r.value].mapId == id
    ensures r.Some? ==> forall j :: 0 <= j < r.value ==> list[j].mapId != id
    ensures r.None? ==> forall j :: 0 <= j < |list| ==> list[j].mapId != id
  {
    if list == [] then None
    else if list[0].mapId == id then Some(0)
    else match FirstRecord(list[1..], id)
      case None => None
      case Some(k) => Some(k + 1)
  }

  /** The first record of map `id` is at `j` when record `j` is of that map
      and none before it is. */
  lemma FirstRecordAt(list: seq<MarkedMap>, id: string, j: nat)
    requires j < |list| && list[j].mapId == id
    requires forall i :: 0 <= i < j ==> list[i].mapId != id
    ensures FirstRecord(list, id) == Some(j)
  {
    var f := FirstRecord(list, id);
    assert f.Some? && !(f.value < j) && !(j < f.value);
  }

  /** Adding a record at the end does not move the first record of a map
      that already had one. */
  lemma FirstRecordExtend(init: seq<MarkedMap>, doc: MarkedMap, id: string)
    ensures FirstRecord(init + [doc], id) ==
        if FirstRecord(init, id).Some? then FirstRecord(init, id)
        else if doc.mapId == id then Some(|init|) else None
  {
    var list := init + [doc];
    var f := FirstRecord(init, id);
    assert forall i :: 0 <= i < |init| ==> list[i] == init[i];
    if f.Some? {
      FirstRecordAt(list, id, f.value);
    } else if doc.mapId == id {
      FirstRecordAt(list, id, |init|);
    } else {
      assert forall j :: 0 <= j < |list| ==> list[j].mapId != id;
    }
  }

  /** The summary `g` shows the name and image of the first record of its
      map. */
  ghost predicate CarriesFirstRecord(list: seq<MarkedMap>, g: MapWithMarks) {
    match FirstRecord(list, g.mapId)
    case None => false
    case Some(j) => list[j].mapName == g.mapName && list[j].imageUrl == g.imageUrl
  }

  /** The position of the first record of map `id`, or `|list|` when there is
      none. */
  ghost function FirstPosition(list: seq<MarkedMap>, id: string): nat {
    match FirstRecord(list, id)
    case None => |list|
    case Some(j) => j
  }

  /** A summary that carried its map's first record still does, and keeps
      its first position, after one more record. */
  lemma FirstRecordKept(init: seq<MarkedMap>, doc: MarkedMap, g: MapWithMarks)
    requires CarriesFirstRecord(init, g)
    ensures CarriesFirstRecord(init + [doc], g)
    ensures FirstPosition(init + [doc], g.mapId) == FirstPosition(init, g.mapId) < |init|
  {
    FirstRecordExtend(init, doc, g.mapId);
    var j := FirstRecord(init, g.mapId).value;
    assert (init + [doc])[j] == init[j];
  }

  /** Whether a summary carries its map's first record depends only on its
      map, name and image. */
  lemma CarriesSameRecord(list: seq<MarkedMap>, g: MapWithMarks, g': MapWithMarks)
    requires CarriesFirstRecord(list, g)
    requires g'.mapId == g.mapId && g'.mapName == g.mapName && g'.imageUrl == g.imageUrl
    ensures CarriesFirstRecord(list, g')
  {
  }

  /** The inductive step of `GroupFirstOccurrence`, for any summaries
      `before` of the records `init`. */
  lemma FirstOccurrenceStep(before: seq<MapWithMarks>, init: seq<MarkedMap>, doc: MarkedMap)
    requires CoversRecords(before, init)
    requires forall k :: 0 <= k < |before| ==> CarriesFirstRecord(init, before[k])
    requires forall k, l :: 0 <= k < l < |before| ==>
      FirstPosition(init, before[k].mapId) < FirstPosition(init, before[l].mapId)
    ensures forall k :: 0 <= k < |AddRecord(before, doc)| ==> CarriesFirstRecord(init + [doc], AddRecord(before, doc)[k])
    ensures forall k, l :: 0 <= k < l < |AddRecord(before, doc)| ==>
      FirstPosition(init + [doc], AddRecord(before, doc)[k].mapId) < FirstPosition(init + [doc], AddRecord(before, doc)[l].mapId)
  {
    var r, list, n := AddRecord(before, doc), init + [doc], |before|;
    AddRecordKeepsSummaries(before, doc);
    if n < |r| {
      assert r[n] == Opened(doc);
      FirstRecordExtend(init, doc, doc.mapId);
      assert FirstRecord(init, doc.mapId).None? by {
        forall j | 0 <= j < |init| ensures init[j].mapId != doc.mapId {
          assert IndexOfMap(before, init[j].mapId).Some?;
        }
      }
      assert FirstRecord(list, r[n].mapId) == Some(|init|);
      assert list[|init|] == doc;
      assert CarriesFirstRecord(list, r[n]);
    }
    forall k | 0 <= k < |r|
      ensures CarriesFirstRecord(list, r[k])
      ensures FirstPosition(list, r[k].mapId) == if k < n then FirstPosition(init, before[k].mapId) else |init|
      ensures k < n ==> FirstPosition(init, before[k].mapId) < |init|
    {
      if k < n {
        FirstRecordKept(init, doc, before[k]);
        CarriesSameRecord(list, before[k], r[k]);
      }
    }
  }

  /** Each summary carries the name and image of its map's first record, and
      the summaries come in the order of their maps' first records. */
  lemma {:induction false} GroupFirstOccurrence(list: seq<MarkedMap>)
    ensures forall k :: 0 <= k < |Group(list)| ==> CarriesFirstRecord(list, Group(list)[k])
    ensures forall k, l :: 0 <= k < l < |Group(list)| ==>
      FirstPosition(list, Group(list)[k].mapId) < FirstPosition(list, Group(list)[l].mapId)
    decreases |list|
  {
    if list != [] {
      var init, doc := list[..|list| - 1], list[|list| - 1];
      assert list == init + [doc];
      GroupFirstOccurrence(init);
      GroupOnePerMap(init);
      GroupLast(init, doc);
      FirstOccurrenceStep(Group(init), init, doc);
    }
  }

  /** The sum of the record counts over the summaries. */
  function SumSaved(groups: seq<MapWithMarks>): nat {
    if groups == [] then 0 else SumSaved(groups[..|groups| - 1]) + groups[|groups| - 1].savedCount
  }

  /** The sum of the mark counts over the summaries. */
  function SumMarks(groups: seq<MapWithMarks>): nat {
    if groups == [] then 0 else SumMarks(groups[..|groups| - 1]) + groups[|groups| - 1].totalMarks
  }

  lemma {:induction false} SumsUpdate(groups: seq<MapWithMarks>, k: nat, g: MapWithMarks)
    requires k < |groups|
    ensures SumSaved(groups[k := g]) + groups[k].savedCount == SumSaved(groups) + g.savedCount
    ensures SumMarks(groups[k := g]) + groups[k].totalMarks == SumMarks(groups) + g.totalMarks
    decreases |groups|
  {
    var n := |groups|;
    var u := groups[k := g];
    if k < n - 1 {
      assert u[..n - 1] == groups[..n - 1][k := g];
      SumsUpdate(groups[..n - 1], k, g);
    } else {
      assert u[..n - 1] == groups[..n - 1];
    }
  }

  /** Over all summaries the record counts add up to the number of records
      and the mark counts to the number of marks. */
  lemma {:induction false} GroupTotals(list: seq<MarkedMap>)
    ensures SumSaved(Group(list)) == |list|
    ensures SumMarks(Group(list)) == TotalMarks(list)
    decreases |list|
  {
    if list != [] {
      var init, doc := list[..|list| - 1], list[|list| - 1];
      GroupTotals(init);
      var before := Group(init);
      assert Group(list) == AddRecord(before, doc);
      assert TotalMarks(list) == TotalMarks(init) + |doc.marks|;
      match IndexOfMap(before, doc.mapId)
      case None =>
        var added := Opened(doc);
        var after := before + [added];
        assert Group(list) == after;
        assert after[..|before|] == before;
        assert SumSaved(after) == SumSaved(before) + 1;
      case Some(p) =>
        var g := Counted(before[p], doc);
        assert Group(list) == before[p := g];
        SumsUpdate(before, p, g);
    }
  }
}
