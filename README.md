# Albion map marks: a verified model of the mark annotation engine

This Dafny project models the core of an Albion Online map-marking app.
Users place point marks on a map image. An admin names or deletes marks on
a saved record. A combined view pools the marks of every record of a map,
and two server routes search maps and proxy their images.

The model has seven modules:

- `Strings` (`strings.dfy`): the JavaScript string operations the core
  calls, written out on `seq<char>`. These are `trim` and the `\s`
  whitespace set, `toLowerCase` on ASCII letters, `endsWith` and `includes`.
- `Marks` (`marks.dfy`): a mark (`x`, `y` in percent of the image, an
  optional name), a saved marked-map record, and deleting one index from a
  list.
- `MapViewer` (`map_viewer.dfy`): the viewer widget.
  - A click position becomes a clamped percentage.
  - Marks are hit-tested in pixel space, within 13 px.
  - An overlay click removes the first mark hit, or appends a new unnamed
    mark.
  - A click on a mark is handed to `onMarkClick`, or removes the mark.
  - The overlay handler is an imperative loop, proved against the
    `OverlayClick` function.
- `AllMarksMap` (`all_marks_map.dfy`): the all-marks page.
  - `mergeIntersectingMarks` is a loop proved against `Merge`. `Merge`
    keeps the first mark of every cluster, where a mark joins a cluster when it
    lies within 2.5 percent units (inclusive) of a kept mark.
  - Marks are pooled over the records of one map.
  - `groupByMap` is a loop over an insertion-ordered JavaScript `Map`
    (`keys` plus a `map`), proved against `Group`. It builds one summary
    per map, with mark and record counts.
- `MarkedMapsPage` (`marked_maps_page.dfy`): the admin popover.
  - Save renames the selected mark. A blank name clears the label.
  - Delete removes the selected mark.
  - Only admins can select a mark.
  - The overlay handler does not consult `onMarkClick`. So an admin's click near a mark, but off its dot, removes that mark from the draft directly.
- `GameMaps` (`game_maps.dfy`): the `/search` route of the game-map
  collection. It escapes regex metacharacters, rewrites `.png` image names
  to `.webp` on the CDN, tokenises the query and builds one `\b` pattern
  per token.
- `AlbionMaps` (`albion_maps.dfy`): the world-map routes.
  - The world list is cached after the first completed download and keeps four-digit cluster indices
    only. The cache is a class with one mutable field.
  - Search is a substring search over names, capped at 100 results.
  - Each map gets a direct image URL.
  - The image proxy normalises the upstream content type, rejects SVG and
    non-images, and sniffs the `<svg` magic bytes.

Distances are compared in squared form: `hypot(dx, dy) <= t` becomes
`t >= 0 && dx*dx + dy*dy <= t*t`. The two agree on the reals for every
`t`.

## Model

| member | source | states |
|---|---|---|
| Strings.Trim | client/src/pages/marked-maps/ui/MarkedMapsPage.tsx:217 | `trim()` returns the infix between leading and trailing whitespace. Both ends of the result are non-blank, everything dropped is whitespace, and the result is empty iff the input is blank |
| Strings.TrimIsInfix | client/src/pages/marked-maps/ui/MarkedMapsPage.tsx:217 | the trimmed text is the infix that starts after the leading whitespace, and its ends are not whitespace |
| Strings.TrimOfTrimmed | server/src/routes/albion-maps.ts:95 | a text that is empty or has non-blank ends is its own trim |
| Strings.TrimIdempotent | server/src/routes/albion-maps.ts:124 | trimming twice equals trimming once |
| Strings.LowerChar | server/src/routes/game-maps.ts:24 | an ASCII capital becomes the lower-case letter 32 code points later; every other character is kept, so whitespace stays whitespace |
| Strings.ToLower | server/src/routes/game-maps.ts:24 | `toLowerCase()` keeps the length, leaves no upper-case ASCII letter, and keeps whitespace at exactly the same positions |
| Strings.ContainsEmpty | server/src/routes/albion-maps.ts:127 | every string `includes` the empty string |
| Strings.EndsWith | server/src/routes/game-maps.ts:12 | `endsWith(suffix)` means the text is some prefix followed by `suffix`; the empty suffix always ends a text, and a suffix longer than the text never does |
| Strings.Contains | server/src/routes/albion-maps.ts:127 | `includes(needle)`: `needle` is a prefix of the text or occurs in its tail (no contract of its own; `ContainsOccurs` states what it means) |
| Strings.ContainsOccurs | server/src/routes/albion-maps.ts:127 | `includes` holds iff the needle occurs at some position of the text |
| Marks.WithoutIndex | client/src/widgets/map-viewer/ui/MapViewer.tsx:57 | `filter((_, idx) => idx !== i)` drops exactly element `i` and keeps the others in order (multiset minus one). An index out of range changes nothing |
| Marks.WithoutAppended | client/src/widgets/map-viewer/ui/MapViewer.tsx:57-61 | appending an element and then filtering out its index gives back the list |
| MapViewer.Clamp100 | client/src/widgets/map-viewer/ui/MapViewer.tsx:48-49 | `max(0, min(100, v))` lies in [0, 100], is `v` inside that range, and is the nearer bound outside it |
| MapViewer.ToPercent | client/src/widgets/map-viewer/ui/MapViewer.tsx:48-49 | for a positive frame, the percentage of any offset (in or out of the frame) lies in [0, 100]; an in-frame offset is converted without clamping |
| MapViewer.PercentInRange | client/src/widgets/map-viewer/ui/MapViewer.tsx:48 | an in-frame offset over a positive size, times 100, is already in [0, 100] |
| MapViewer.ToPixel | client/src/widgets/map-viewer/ui/MapViewer.tsx:53-54 | a percentage in [0, 100] maps to a pixel offset inside the frame, and converting that offset back gives the percentage clamped to [0, 100] |
| MapViewer.PixelRoundTrip | client/src/widgets/map-viewer/ui/MapViewer.tsx:48-54 | percent of an in-frame offset, mapped back to pixels as the hit test does, is the offset again |
| MapViewer.HitsMark | client/src/widgets/map-viewer/ui/MapViewer.tsx:53-56 | a hit lies in the 26 px square around the mark's pixel position, and a click on that exact position always hits |
| MapViewer.FirstHit | client/src/widgets/map-viewer/ui/MapViewer.tsx:51-60 | the result is the lowest index within the 13 px radius, or none when no mark is within it |
| MapViewer.FirstHitIs | client/src/widgets/map-viewer/ui/MapViewer.tsx:51-60 | a hit index with no earlier hit is the first hit |
| MapViewer.OverlayClick | client/src/widgets/map-viewer/ui/MapViewer.tsx:40-64 | something is emitted iff the viewer is editable (not read-only, `onMarksChange` set, map has an image) and the container is measured |
| MapViewer.HandleOverlayClick | client/src/widgets/map-viewer/ui/MapViewer.tsx:40-64 | the loop with early return emits exactly `OverlayClick`: at most one emit, at the lowest index hit. Invariant: no index before `i` was hit |
| MapViewer.OverlayClickRemovesFirstHit | client/src/widgets/map-viewer/ui/MapViewer.tsx:51-58 | when index `i` is the first mark within the radius, the emitted list is one shorter; before `i` it is unchanged, and after `i` it is shifted down by one |
| MapViewer.OverlayClickAppends | client/src/widgets/map-viewer/ui/MapViewer.tsx:48-61 | with no mark within the radius, the emitted list is the old list plus exactly one mark: unnamed, at the clamped percentage of the click (`ToPercent` of each axis), so its coordinates lie in [0, 100] |
| MapViewer.AddThenRemoveRestores | client/src/widgets/map-viewer/ui/MapViewer.tsx:48-61 | a background click at an in-frame point followed by a click at the same point restores the original list |
| MapViewer.AddedMarkIsHit | client/src/widgets/map-viewer/ui/MapViewer.tsx:48-56 | the mark added at an in-frame click lies within the hit radius of that click |
| MapViewer.MarkClick | client/src/widgets/map-viewer/ui/MapViewer.tsx:135-150 | a registered `onMarkClick` always gets `(m, i)`, even when read-only. Without it, read-only or no `onMarksChange` or no container means nothing happens. Otherwise mark `i` is removed iff the click is within its radius. Without `onMarkClick` nothing is ever delegated, and the outcome is "nothing happens" exactly when no removal is emitted |
| MapViewer.ReadOnlyNeverEmits | client/src/widgets/map-viewer/ui/MapViewer.tsx:42 | a read-only viewer with no delegate never emits, from the overlay or from a mark |
| AllMarksMap.DistanceSq | client/src/pages/all-marks-map/ui/AllMarksMapPage.tsx:33-35 | the squared percent-space distance is non-negative |
| AllMarksMap.Intersect | client/src/pages/all-marks-map/ui/AllMarksMapPage.tsx:44 | `markDistance(a, b) <= threshold`, inclusive: two intersecting marks differ by at most the threshold on each axis, a negative threshold admits nothing, and two marks at the same point intersect under any non-negative threshold |
| AllMarksMap.IntersectSymmetric | client/src/pages/all-marks-map/ui/AllMarksMapPage.tsx:33-35 | two marks intersect iff they intersect the other way round |
| AllMarksMap.IntersectsAny | client/src/pages/all-marks-map/ui/AllMarksMapPage.tsx:44 | `result.some(...)` holds only for a non-empty result and a non-negative threshold, and, for a non-negative threshold, always holds for a mark already in the result |
| AllMarksMap.Merge | client/src/pages/all-marks-map/ui/AllMarksMapPage.tsx:38-48 | the merged list is never longer than the input |
| AllMarksMap.MergeIntersectingMarks | client/src/pages/all-marks-map/ui/AllMarksMapPage.tsx:38-48 | the push loop computes `Merge`. Invariant: the result so far is `Merge` of the marks read so far |
| AllMarksMap.MergePrefix | client/src/pages/all-marks-map/ui/AllMarksMapPage.tsx:43-46 | the merge of a prefix is a prefix of the merge, so the result is only ever extended |
| AllMarksMap.MergeKeepsFirst | client/src/pages/all-marks-map/ui/AllMarksMapPage.tsx:43-46 | the first mark is always kept, and first; an empty input gives an empty result |
| AllMarksMap.MergeSeparated | client/src/pages/all-marks-map/ui/AllMarksMapPage.tsx:43-46 | no two marks of the result intersect |
| AllMarksMap.MergeCovers | client/src/pages/all-marks-map/ui/AllMarksMapPage.tsx:43-46 | with a non-negative threshold, every input mark intersects some kept mark |
| AllMarksMap.MergeIsSubsequence | client/src/pages/all-marks-map/ui/AllMarksMapPage.tsx:43-46 | the result is the input at increasing positions: a subsequence, unchanged marks, original order |
| AllMarksMap.MergeOfSeparated | client/src/pages/all-marks-map/ui/AllMarksMapPage.tsx:43-46 | an input with no intersecting pair is returned unchanged |
| AllMarksMap.MergeIdempotent | client/src/pages/all-marks-map/ui/AllMarksMapPage.tsx:38-48 | merging twice equals merging once |
| AllMarksMap.MergeExamples | client/src/pages/all-marks-map/ui/AllMarksMapPage.tsx:38-48 | (10,10) absorbs (11,11); (10,10) and (20,20) both stay; of two close named marks the first one's name survives |
| AllMarksMap.MergeTwo | client/src/pages/all-marks-map/ui/AllMarksMapPage.tsx:38-48 | two marks merge into the first one iff they intersect, and otherwise both stay in order |
| AllMarksMap.Pool | client/src/pages/all-marks-map/ui/AllMarksMapPage.tsx:80 | `flatMap` holds as many marks as all records together |
| AllMarksMap.PoolAppend | client/src/pages/all-marks-map/ui/AllMarksMapPage.tsx:80 | pooling distributes over concatenation of record lists |
| AllMarksMap.PoolSlice | client/src/pages/all-marks-map/ui/AllMarksMapPage.tsx:80 | record `k`'s marks appear contiguously, right after those of the earlier records |
| AllMarksMap.AllMarksInPopup | client/src/pages/all-marks-map/ui/AllMarksMapPage.tsx:79-82 | the popup shows at most the total number of marks, and no two shown marks intersect |
| AllMarksMap.PopupCoversEveryMark | client/src/pages/all-marks-map/ui/AllMarksMapPage.tsx:79-82 | every mark of every record is shown or lies within 2.5 units of a shown mark |
| AllMarksMap.PopupViewer | client/src/pages/all-marks-map/ui/AllMarksMapPage.tsx:143-148 | the popup viewer is read-only with neither `onMarksChange` nor `onMarkClick` |
| AllMarksMap.PopupNeverEdits | client/src/pages/all-marks-map/ui/AllMarksMapPage.tsx:143-148 | no click in the popup emits a change |
| AllMarksMap.IndexOfMap | client/src/pages/all-marks-map/ui/AllMarksMapPage.tsx:53 | `byMap.get(id)` finds the summary with that map id, or reports that there is none |
| AllMarksMap.Values | client/src/pages/all-marks-map/ui/AllMarksMapPage.tsx:67 | `Array.from(byMap.values())` lists the entries in key insertion order |
| AllMarksMap.TableAppend | client/src/pages/all-marks-map/ui/AllMarksMapPage.tsx:54-61 | `byMap.set` under a new key appends the key and the summary to the values |
| AllMarksMap.TableIndex | client/src/pages/all-marks-map/ui/AllMarksMapPage.tsx:52-53 | in the values, the entry of the `p`-th key is the first one with that map id |
| AllMarksMap.TableReplace | client/src/pages/all-marks-map/ui/AllMarksMapPage.tsx:62-65 | replacing the entry of an existing key by a summary of the same map keeps the table and replaces exactly that value |
| AllMarksMap.Opened | client/src/pages/all-marks-map/ui/AllMarksMapPage.tsx:55-61 | the summary a map's first record opens carries that record's map id, name and image, its number of marks, and a count of one record |
| AllMarksMap.Counted | client/src/pages/all-marks-map/ui/AllMarksMapPage.tsx:63-64 | adding a record to a summary keeps its map id, name and image, adds the record's marks to `totalMarks` and one to `savedCount` |
| AllMarksMap.TableInsert | client/src/pages/all-marks-map/ui/AllMarksMapPage.tsx:54-61 | setting a new key keeps the map well formed and appends the new summary to the values |
| AllMarksMap.TableUpdate | client/src/pages/all-marks-map/ui/AllMarksMapPage.tsx:62-65 | updating an existing entry keeps the map well formed and updates that summary in place in the values |
| AllMarksMap.AddRecord | client/src/pages/all-marks-map/ui/AllMarksMapPage.tsx:52-65 | one step of the fold grows the summaries by one exactly when the record's map has none yet, and keeps every existing summary's map id in place |
| AllMarksMap.Group | client/src/pages/all-marks-map/ui/AllMarksMapPage.tsx:50-68 | the fold never yields more summaries than records, and yields none exactly for no records |
| AllMarksMap.GroupByMap | client/src/pages/all-marks-map/ui/AllMarksMapPage.tsx:50-68 | the loop over `byMap` returns `Group(list)`. Invariants: the key list and map agree, and the values are `Group` of the records read |
| AllMarksMap.GroupLast | client/src/pages/all-marks-map/ui/AllMarksMapPage.tsx:52 | folding one more record is one more step of the fold |
| AllMarksMap.AddRecordKeepsSummaries | client/src/pages/all-marks-map/ui/AllMarksMapPage.tsx:52-66 | a step keeps every summary in place with its map, name and image, leaves one for the record's map, and keeps map ids distinct |
| AllMarksMap.AddRecordMissing | client/src/pages/all-marks-map/ui/AllMarksMapPage.tsx:52-66 | a map with no summary after a step had none before and is not the record's map |
| AllMarksMap.GroupOnePerMap | client/src/pages/all-marks-map/ui/AllMarksMapPage.tsx:50-68 | exactly one summary per map id: ids are distinct and every record's map has a summary |
| AllMarksMap.FirstRecord | client/src/pages/all-marks-map/ui/AllMarksMapPage.tsx:53-61 | the result is the first record of a map, or none when the map has none |
| AllMarksMap.FirstRecordAt | client/src/pages/all-marks-map/ui/AllMarksMapPage.tsx:53-61 | a record of map `id` with none of that map before it is the first record |
| AllMarksMap.FirstRecordExtend | client/src/pages/all-marks-map/ui/AllMarksMapPage.tsx:53-61 | appending a record changes the first record of a map only when that map had none |
| AllMarksMap.GroupCounts | client/src/pages/all-marks-map/ui/AllMarksMapPage.tsx:59-64 | each summary's `savedCount` is its map's number of records and `totalMarks` its number of marks; maps without a summary have no records |
| AllMarksMap.GroupFirstOccurrence | client/src/pages/all-marks-map/ui/AllMarksMapPage.tsx:54-61 | each summary carries the name and image of its map's first record, and summaries are ordered by first appearance |
| AllMarksMap.SumsUpdate | client/src/pages/all-marks-map/ui/AllMarksMapPage.tsx:62-65 | replacing one summary changes the sums by exactly its difference |
| AllMarksMap.GroupTotals | client/src/pages/all-marks-map/ui/AllMarksMapPage.tsx:50-68 | the `savedCount`s add up to the number of records, and the `totalMarks` to the number of marks |
| MarkedMapsPage.LabelFromInput | client/src/pages/marked-maps/ui/MarkedMapsPage.tsx:217-220 | `trim() \|\| undefined` is never the empty label. It is absent iff the input is blank, and otherwise the trimmed input |
| MarkedMapsPage.RenameAt | client/src/pages/marked-maps/ui/MarkedMapsPage.tsx:218-222 | only the selected index changes, and only its name; an out-of-range index changes nothing |
| MarkedMapsPage.DeleteAt | client/src/pages/marked-maps/ui/MarkedMapsPage.tsx:235 | the selected index is removed and the rest keep their order |
| MarkedMapsPage.RenameKeepsPositions | client/src/pages/marked-maps/ui/MarkedMapsPage.tsx:219-221 | renaming never moves a mark |
| MarkedMapsPage.DeleteAfterRename | client/src/pages/marked-maps/ui/MarkedMapsPage.tsx:218-235 | renaming then deleting the same index is just deleting it |
| MarkedMapsPage.RenameIdempotent | client/src/pages/marked-maps/ui/MarkedMapsPage.tsx:219-221 | saving the same name twice is saving it once |
| MarkedMapsPage.SaveMarkName | client/src/pages/marked-maps/ui/MarkedMapsPage.tsx:215-225 | with no selection nothing changes; otherwise the draft is renamed at the selection, and the selection and popover close |
| MarkedMapsPage.DeleteSelectedMark | client/src/pages/marked-maps/ui/MarkedMapsPage.tsx:233-238 | with no selection nothing changes; otherwise the selected mark is removed, and the selection and popover close |
| MarkedMapsPage.MarkClicked | client/src/pages/marked-maps/ui/MarkedMapsPage.tsx:174-179 | a non-admin click changes nothing; an admin click selects the mark, opens the popover and preloads its name or `""` |
| MarkedMapsPage.PageViewer | client/src/pages/marked-maps/ui/MarkedMapsPage.tsx:168-179 | the page's viewer is read-only exactly for non-admins, has both callbacks, and shows the record's image exactly when it has one |
| MarkedMapsPage.PageOverlayMayRemove | client/src/widgets/map-viewer/ui/MapViewer.tsx:40-58 | although the page registers `onMarkClick`, an admin's overlay click within the hit radius of a mark removes the first mark hit from the draft directly: the overlay handler never consults `onMarkClick` |
| MarkedMapsPage.MarkClickOnPage | client/src/pages/marked-maps/ui/MarkedMapsPage.tsx:172-179 | on this page a mark click is always delegated, never removes a mark, and changes nothing for a non-admin |
| MarkedMapsPage.BlankNameClearsLabel | client/src/pages/marked-maps/ui/MarkedMapsPage.tsx:217-220 | saving a blank name leaves the mark unnamed |
| GameMaps.EscapeRegex | server/src/routes/game-maps.ts:7-9 | the output is one character longer per metacharacter |
| GameMaps.EscapeRoundTrip | server/src/routes/game-maps.ts:7-9 | removing the inserted backslashes gives the input back |
| GameMaps.EscapeIsWellEscaped | server/src/routes/game-maps.ts:7-9 | every metacharacter of the output is backslash-escaped, so the pattern matches the token literally |
| GameMaps.EscapeIdentity | server/src/routes/game-maps.ts:7-9 | a text without metacharacters is unchanged |
| GameMaps.ToImageUrl | server/src/routes/game-maps.ts:11-14 | the URL starts with the CDN base and `/`; a `.png` name becomes the `.webp` of the same stem, and other names are kept |
| GameMaps.ImageUrlNeverPng | server/src/routes/game-maps.ts:11-14 | no URL produced ends in `.png` |
| GameMaps.SplitFrom | server/src/routes/game-maps.ts:25 | `split(/\s+/)` always yields at least one piece, and the first piece continues the piece being read |
| GameMaps.SplitJoin | server/src/routes/game-maps.ts:25 | the split cuts exactly at the maximal whitespace runs: one more piece than runs, and pieces and runs interleaved give the input back |
| GameMaps.Separators | server/src/routes/game-maps.ts:25 | the runs the split removes are non-empty and all whitespace |
| GameMaps.SplitPiecesNonEmpty | server/src/routes/game-maps.ts:24-25 | a text that starts and ends with a non-blank character splits into non-empty pieces only |
| GameMaps.NonEmpty | server/src/routes/game-maps.ts:25 | `filter(Boolean)` keeps only non-empty pieces, each taken from the input |
| GameMaps.NonEmptyAppend | server/src/routes/game-maps.ts:25 | `filter(Boolean)` distributes over concatenation, so order and repeats are kept |
| GameMaps.NonEmptySingle | server/src/routes/game-maps.ts:25 | a single piece is kept iff it is non-empty |
| GameMaps.NonEmptyOfNonEmpty | server/src/routes/game-maps.ts:25 | pieces that are all non-empty pass the filter unchanged |
| GameMaps.SplitConcat | server/src/routes/game-maps.ts:25 | `split(/\s+/)` loses only whitespace: the pieces, concatenated, are the non-blank characters in order |
| GameMaps.SplitPieceChars | server/src/routes/game-maps.ts:25 | every character of every piece is non-blank and comes from the input |
| GameMaps.NonEmptyConcat | server/src/routes/game-maps.ts:25 | dropping empty pieces does not change the concatenation |
| GameMaps.Tokens | server/src/routes/game-maps.ts:24-25 | no token is the empty string |
| GameMaps.TokensAreRuns | server/src/routes/game-maps.ts:24-25 | the tokens are the maximal non-blank runs of the trimmed lower-cased query: no tokens means that text is empty; otherwise the tokens with the text's whitespace runs between them give that text back |
| GameMaps.TokensAreWords | server/src/routes/game-maps.ts:24-25 | tokens are non-empty and contain neither whitespace nor an upper-case ASCII letter |
| GameMaps.TokensConcat | server/src/routes/game-maps.ts:24-25 | the tokens, concatenated, are the non-blank characters of the trimmed lower-cased query |
| GameMaps.TokensEmptyIffBlank | server/src/routes/game-maps.ts:24-29 | there are no tokens iff the query is blank |
| GameMaps.WordStartPattern | server/src/routes/game-maps.ts:31 | a pattern is `\b` followed by the escaped token |
| GameMaps.SearchQuery | server/src/routes/game-maps.ts:22-39 | no lookup happens iff `q` is missing or blank; otherwise the lookup is black-zone, open-world, limited to 100, with one pattern per token |
| GameMaps.SearchPatterns | server/src/routes/game-maps.ts:30-32 | pattern `k` is `\b` plus a well-escaped text that unescapes to token `k` |
| GameMaps.MapPageUrl | server/src/routes/game-maps.ts:45 | the page URL is the albiononline2d map prefix followed by the id |
| GameMaps.ToResult | server/src/routes/game-maps.ts:41-46 | a result keeps the id and display name; its image URL is `toImageUrl` of the document's image file (on the CDN, never `.png`) and its page URL is the albiononline2d page of the id |
| AlbionMaps.IsClusterIndex | server/src/routes/albion-maps.ts:46 | `/^\d{4}$/`: exactly four ASCII digits (no contract of its own; `ClusterIndexExamples` pins it on accepted and rejected indices) |
| AlbionMaps.KeepClusters | server/src/routes/albion-maps.ts:46 | an entry is kept iff its index is exactly four ASCII digits |
| AlbionMaps.KeepClustersAppend | server/src/routes/albion-maps.ts:46 | filtering distributes over concatenation, so original order is kept |
| AlbionMaps.KeepClustersIdempotent | server/src/routes/albion-maps.ts:46 | filtering twice equals filtering once |
| AlbionMaps.ClusterIndexExamples | server/src/routes/albion-maps.ts:46 | `0312` passes; `312`, `03120` and `03a2` fail |
| AlbionMaps.KeepClustersExample | server/src/routes/albion-maps.ts:46 | a list with an island entry between two clusters loses only the island |
| AlbionMaps.WorldMapCache.constructor | server/src/routes/albion-maps.ts:40 | the cache starts unset |
| AlbionMaps.WorldMapCache.FetchWorldMaps | server/src/routes/albion-maps.ts:42-48 | a set cache is returned unchanged and the download is ignored. Otherwise a successful download is filtered, stored and returned, and a failed one leaves the cache unset |
| AlbionMaps.DirectImageUrl | server/src/routes/albion-maps.ts:62-66 | none iff the AFM file name is missing or empty; otherwise the CDN base, `/`, and exactly that file name |
| AlbionMaps.ToResult | server/src/routes/albion-maps.ts:129-136 | a result keeps the index and unique name; its image URL is `getDirectImageUrl` of the index (present iff the cluster has a non-empty file name, and then on the CDN); its page URL is the albiononline2d page of the index |
| AlbionMaps.SearchKey | server/src/routes/albion-maps.ts:124 | the key is `""` when `q` is missing and otherwise the trimmed, lower-cased `q`; so it is empty iff `q` is missing or blank, and it has no upper-case ASCII letter |
| AlbionMaps.NameMatches | server/src/routes/albion-maps.ts:127 | the result holds exactly the entries whose lower-cased name contains the key |
| AlbionMaps.NameMatchesAppend | server/src/routes/albion-maps.ts:127 | the filter distributes over concatenation, so matches keep their order and their repeats |
| AlbionMaps.NameMatchesSingle | server/src/routes/albion-maps.ts:127 | a single entry is kept iff its lower-cased name contains the key |
| AlbionMaps.EmptyKeyMatchesAll | server/src/routes/albion-maps.ts:126-128 | filtering by the empty key keeps everything, so the `q ? … : maps` branch is that filter |
| AlbionMaps.FirstResults | server/src/routes/albion-maps.ts:129-137 | `slice(0, 100).map(...)` gives `min(100, n)` results, result `k` being the result of entry `k` |
| AlbionMaps.SearchWorldMaps | server/src/routes/albion-maps.ts:122-137 | the result has `min(100, matches)` entries, and entry `k` is built from match `k` |
| AlbionMaps.SearchSoundAndComplete | server/src/routes/albion-maps.ts:126-129 | every result's name contains the key; with fewer than 100 results, every matching entry is present |
| AlbionMaps.BeforeSemicolon | server/src/routes/albion-maps.ts:95 | `split(';')[0]` is the longest prefix without `;` |
| AlbionMaps.BeforeSemicolonAt | server/src/routes/albion-maps.ts:95 | when position `n` ends the text or holds the first `;`, `split(';')[0]` is the first `n` characters |
| AlbionMaps.NormalizeContentType | server/src/routes/albion-maps.ts:95 | a missing header gives the empty type; a present one gives the lower-cased, trimmed text before its first `;`. The result has no `;`, no upper-case ASCII letter and no whitespace at either end |
| AlbionMaps.LowerTrimmedMediaType | server/src/routes/albion-maps.ts:95 | trimming and lower-casing a text without `;` leaves it without `;` and without whitespace at either end |
| AlbionMaps.NormalizeIdempotent | server/src/routes/albion-maps.ts:95 | normalising a normalised type changes nothing |
| AlbionMaps.NormalizeExample | server/src/routes/albion-maps.ts:95 | `Image/PNG; charset=binary` normalises to `image/png` |
| AlbionMaps.AcceptableImageType | server/src/routes/albion-maps.ts:96 | the type starts with `image/` and is not `image/svg+xml` (no contract of its own; `PlaceholderExamples` and `Respond` state its effect) |
| AlbionMaps.IsSvgPlaceholder | server/src/routes/albion-maps.ts:106 | at least 5 bytes beginning with `<svg` (no contract of its own; `PlaceholderExamples` and `Respond` state its effect) |
| AlbionMaps.PlaceholderExamples | server/src/routes/albion-maps.ts:96-106 | `<svg` plus one byte is a placeholder; a 4-byte `<svg` body and a PNG signature are not. `image/png` and `image/webp` are accepted; SVG, `text/html` and the empty type are not |
| AlbionMaps.Respond | server/src/routes/albion-maps.ts:87-119 | an image is passed on iff the status is 2xx, the type is an acceptable image and the body is no placeholder. A failed request is a proxy error, and a non-2xx status is reported with its status. A 2xx reply with an unacceptable type is rejected as not-an-image, and one with an acceptable type but a `<svg` body as a placeholder |
| AlbionMaps.ImageReplyType | server/src/routes/albion-maps.ts:96-113 | a passed-on image always carries an `image/` type other than SVG, so the `image/png` fallback is never reached |
| AlbionMaps.ProxyImage | server/src/routes/albion-maps.ts:69-120 | 404 iff the cluster has no (or an empty) file name; otherwise the reply is the response to the file's CDN URL |
| AlbionMaps.ProxyDependsOnlyOnMappedUrl | server/src/routes/albion-maps.ts:71-78 | fetchers that agree on the mapped URL give the same reply; an unmapped cluster gets 404 whatever the fetcher |

## Left out

- AlbionMaps.WorldMapCache.FetchWorldMaps: one call is one step. Between the check of the cache and its assignment the source awaits the download and its JSON, so requests that arrive before the first download finishes each download, and the last to finish overwrites the cache. That interleaving is not modelled.
- React rendering, MUI layout, dialogs, `useState`/`useEffect` wiring and image-size measurement are not modelled. Click offsets and the container size are inputs, and a missing container ref is `None`.
- MapViewer.OverlayClick: requires a positive frame width and height. The source divides by them unguarded, and a zero-size container would give NaN or Infinity. MapViewer.HandleOverlayClick, MapViewer.ToPercent, MapViewer.OverlayClickRemovesFirstHit, MapViewer.OverlayClickAppends, MapViewer.AddThenRemoveRestores, MapViewer.AddedMarkIsHit, MapViewer.ReadOnlyNeverEmits, AllMarksMap.PopupNeverEdits and MarkedMapsPage.PageOverlayMayRemove carry the same requirement.
- IEEE-754 arithmetic is modelled with `real`. `Math.hypot` becomes a squared comparison against 13² and 2.5². Rounding, NaN and Infinity are not modelled, and the round-trip lemmas hold over the reals, not bit-exactly.
- Strings.LowerChar: maps only the ASCII capitals `A`-`Z`; every other character is kept, so non-ASCII letters are not lower-cased.
- Strings.ToLower: lower-cases ASCII letters only, through Strings.LowerChar. JavaScript's full Unicode case mapping (which can change the length) is not modelled. Strings.Trim and the `\s` set use the ECMAScript whitespace list.
- The click event, `stopPropagation` and the popover anchor element are not modelled. The anchor is reduced to `popoverOpen`.
- The `groupByMap` loop mutates the object stored in the `Map` in place. The model updates the map entry instead; no other reference to those objects exists.
- Network, database and file I/O are parameters. These cover the world-list download (`Option` of the entries), the image fetch (a function from URL to an optional reply), the AFM and albiononline2d file-name tables that `loadJsonMapping` reads (maps), and the game-map query, which is returned as a `GameMapQuery` value and not run.
- Mongo's evaluation of the `\b…` patterns (case-insensitive word-start matching) and the `.lean()` documents are not modelled.
- AlbionMaps.Respond: a failure of `arrayBuffer()` after a good status is not modelled separately; it would reach the same 502 "Failed to load image" as a failed request. The `Cache-Control` header and the JSON error bodies are not modelled.
- JavaScript object lookups of inherited keys (`__proto__`, `toString`) in the file-name tables are not modelled; the tables are plain maps.
- The `catch` blocks returning 500 in both search routes are not modelled. A failed world-list download only leaves the cache unset; no reply is modelled for it.
- The marked-maps CRUD route keeps only `x`/`y` of each mark. The model therefore makes no claim that mark names survive persistence.
- The search debounce timer and the RTK Query request wrappers are not modelled.
