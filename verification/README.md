# Chartist line-chart tooltip: a Dafny model

This project models the logic of the Chartist tooltip plugins for line charts. It covers three files:

- `src/scripts/chartist-plugin-line-tooltip.js`, the grouped, cached line tooltip;
- `dist/chartist-plugin-line-tooltip.js`, the built line tooltip with a value-list tooltip and a hideable cursor;
- `src/scripts/chartist-plugin-tooltip.js`, the `ctTooltip` plugin.

All three resolve the pointer's x pixel to the nearest category with the same recursive `binarySearch`. They keep the resolved category in an `IndexTracker`. On `mousemove` they redraw the cursor line and the tooltip only when the category changes, and on `mouseleave` they hide both.

The modules are:

- `JsValues` (`js_values.dfy`): the JavaScript values the plugins inspect. It models `undefined`, `null`, strings and integers, together with truthiness, `a || b`, string conversion, and out-of-range reads that give `undefined`.
- `NearestIndex` (`nearest_index.dfy`): `binarySearch` as a recursive function. It carries the best candidate, exits early on an exact hit and replaces the candidate only on a strictly smaller distance. It also defines the list of probed indices. Proved:
  - the result is a nearest category, clamped at the ends;
  - an exact hit ends the search;
  - on a tie the earliest probe is kept;
  - the categories on both sides of the pointer are probed;
  - worked examples on the axis `[10, 30, 50, 70]`.
- `IndexTracking` (`index_tracker.dfy`): the `IndexTracker` class. Its stored index is three-valued:
  - the reset sentinel -1;
  - the `undefined` that the search returns on an empty axis;
  - a category.

  `set` is change-detecting. `reset` guarantees that the next `set` reports a change.
- `Overlays` (`overlays.dfy`): what the plugins share.
  - The `reduce` that appends one markup block per item.
  - The value-list tooltip markup of the `dist` and `ctTooltip` variants, with the per-series `formatValue` mapping.
  - The cursor and tooltip overlays as objects with visibility, position and content.
- `LineTooltip` (`line_tooltip.dfy`): the `src` line tooltip.
  - `getGroupedValues` maps each series to a row, drops blank texts, and keeps only the first row of each (group, text) pair. It is modelled as the loop over the `groups` dictionary, proved equal to a reference definition.
  - The row markup.
  - The per-category `cache` of `getTooltip`. A ghost count of formatter calls states that a cached category is never formatted again.
  - The `created`, `mouseleave` and `mousemove` handlers, as a class whose invariant ties the tracker's state to the two overlays.
- `DistLineTooltip` (`dist_line_tooltip.dfy`) and `CtTooltip` (`ct_tooltip.dfy`): the handlers of the other two variants. In both, the tooltip gets one formatted value per series. The cursor is hidden when the configured hidden position equals the category's label.
  - `dist` captions the cursor with `cursor.header() || ''`.
  - `ctTooltip` passes `cursorHeader()` as it is.

The three copies of `IndexTracker` are identical, so one model stands for all three. The rows below cite each copy.

On an empty axis the search returns `undefined`. `set` stores it, which differs from the `-1` sentinel, and so reports a change. The handler then redraws for category `undefined`, at position `coords[undefined]`:
- the tooltip is shown in all three variants;
- the `src` line tooltip also shows the cursor;
- `dist` and `ctTooltip` show the cursor only when the configured hidden position differs from `labels[undefined]`, which is `undefined`. Their default hidden position is `Chartist.noop`, which returns `undefined`, so by default the cursor stays hidden.

The model follows the code: such a move leads to `Active(None)`.

## Model

| member | source | states |
|---|---|---|
| NearestIndex.BinarySearch | src/scripts/chartist-plugin-line-tooltip.js:159-188 | the search yields no index (`undefined`) exactly when the axis is empty, and otherwise an index within the axis |
| NearestIndex.SearchFindsNearest | src/scripts/chartist-plugin-line-tooltip.js:159-188 | on a non-empty sorted axis the result is a category whose pixel is at least as close to the pointer as every other one; a pointer left of the first or right of the last category resolves to that boundary pixel (the copies at dist/chartist-plugin-line-tooltip.js lines 123-152 and src/scripts/chartist-plugin-tooltip.js lines 98-117 are the same search) |
| NearestIndex.HitEndsSearch | src/scripts/chartist-plugin-line-tooltip.js:175-177 | a search window, entered with a candidate that is not an exact hit, ends on an exact hit exactly when its last probe lands on the pointer, and then that probe is returned |
| NearestIndex.ExactHitFound | src/scripts/chartist-plugin-line-tooltip.js:175-177 | a pointer exactly on a category pixel of a sorted axis resolves to a category at that pixel; it is the last probe and no earlier probe was a hit (likewise in the other two copies) |
| NearestIndex.SearchKeepsEarliestProbe | src/scripts/chartist-plugin-line-tooltip.js:179-181 | the result is on the probe path; no probe is closer; every probe before it is strictly farther, so on equal distances the earlier-probed index wins (the same strict `<` is at dist/chartist-plugin-line-tooltip.js line 143 and src/scripts/chartist-plugin-tooltip.js line 110) |
| NearestIndex.FloorAndCeilingProbed | src/scripts/chartist-plugin-line-tooltip.js:183-187 | when the pointer lies strictly between pixels of a sorted axis, the category just left of it and the one just right of it are both probed |
| NearestIndex.FourCategoryExamples | src/scripts/chartist-plugin-line-tooltip.js:179-181 | on `[10, 30, 50, 70]`: pointer 38 gives 1; pointer 40 probes 1 then 2 and keeps 1 on the tie; 0 gives 0; 100 gives 3 |
| IndexTracking.Resolve | src/scripts/chartist-plugin-line-tooltip.js:200 | the value `set` stores is never the reset sentinel; it is `undefined` exactly on an empty axis and otherwise the in-range search result |
| IndexTracking.ResolveIsNearest | src/scripts/chartist-plugin-line-tooltip.js:198-200 | on a non-empty sorted axis the stored category is a nearest one |
| IndexTracking.IndexTracker.constructor | src/scripts/chartist-plugin-line-tooltip.js:155-157 | a new tracker holds the sentinel -1 |
| IndexTracking.IndexTracker.Get | src/scripts/chartist-plugin-line-tooltip.js:190-192 | `get` returns the stored index, which is in range when it is a category |
| IndexTracking.IndexTracker.Reset | src/scripts/chartist-plugin-line-tooltip.js:194-196 | `reset` stores the sentinel |
| IndexTracking.IndexTracker.Set | src/scripts/chartist-plugin-line-tooltip.js:198-209 | afterwards the stored index is the resolved one; the result is true exactly when that differs from the index stored before, and the index is unchanged otherwise (the copies in the other two files are the same) |
| IndexTracking.SetTwiceReportsOnce | src/scripts/chartist-plugin-line-tooltip.js:198-209 | a second `set` with the same pointer position reports no change |
| IndexTracking.ResetThenSetReportsChange | src/scripts/chartist-plugin-line-tooltip.js:194-209 | after `reset`, the next `set` reports a change whatever it resolves to (likewise in the other two copies) |
| JsValues.ToStr | src/scripts/chartist-plugin-line-tooltip.js:77 | `String(v)` as concatenation inserts it: `undefined` and `null` print as those words and a string as it is. A non-negative integer prints as decimal digits with no leading zero that read back as the number; a negative one prints as `-` followed by those digits of its magnitude |
| JsValues.NatToStringRoundTrip | src/scripts/chartist-plugin-line-tooltip.js:77 | the decimal digits of a natural number read back as that number |
| Overlays.AppendEachIsConcat | src/scripts/chartist-plugin-line-tooltip.js:74-78 | the markup `reduce` yields the initial markup followed by exactly one block per item, in item order |
| Overlays.SeriesMarkupStructure | src/scripts/chartist-plugin-tooltip.js:25-34 | `tooltipHtml(header, values)` is the header block followed by exactly one block per value; the `i`-th block is classed by `alphaNumerate(i)` and holds value `i` (the same function is at dist/chartist-plugin-line-tooltip.js lines 48-57) |
| Overlays.FormattedValues | dist/chartist-plugin-line-tooltip.js:244-246 | exactly one value per series, in series order: the `i`-th is `formatValue(series[i][index], i)` |
| Overlays.CategoryMarkupStructure | src/scripts/chartist-plugin-tooltip.js:201-205 | the tooltip of a category has one block per series, in order, holding that series' formatted value at the category |
| Overlays.Cursor.constructor | dist/chartist-plugin-line-tooltip.js:78-89 | the cursor starts hidden |
| Overlays.Cursor.Show | dist/chartist-plugin-line-tooltip.js:103-116 | `show` makes the line and its caption visible at `coords[index]` with the given caption |
| Overlays.Cursor.Hide | dist/chartist-plugin-line-tooltip.js:98-101 | `hide` makes the cursor invisible and changes nothing else |
| Overlays.SeriesTooltip.constructor | dist/chartist-plugin-line-tooltip.js:38-46 | the tooltip starts hidden |
| Overlays.SeriesTooltip.Show | dist/chartist-plugin-line-tooltip.js:70-75 | `show` renders `tooltipHtml(header, values)`, places the box at `coords[index]` and shows it |
| Overlays.SeriesTooltip.Hide | dist/chartist-plugin-line-tooltip.js:66-68 | `hide` hides the box and keeps its content and position |
| LineTooltip.Present | src/scripts/chartist-plugin-line-tooltip.js:50-52 | no kept row has an `undefined`, `null` or `''` text |
| LineTooltip.PresentIsSubsequence | src/scripts/chartist-plugin-line-tooltip.js:50-52 | the filtered rows are the mapped rows at exactly the non-blank positions, in order |
| LineTooltip.DedupKeys | src/scripts/chartist-plugin-line-tooltip.js:53-62 | deduplication keeps every (group, text) pair that occurs |
| LineTooltip.DedupKeepsFirstOccurrences | src/scripts/chartist-plugin-line-tooltip.js:53-62 | the deduplicated rows are the input rows at exactly the positions where a (group, text) pair first occurs, in order |
| LineTooltip.DedupDistinctKeys | src/scripts/chartist-plugin-line-tooltip.js:53-62 | no two deduplicated rows share a group and a text |
| LineTooltip.GroupedValues | src/scripts/chartist-plugin-line-tooltip.js:38-63 | the loop over the `groups` dictionary returns the first row of each (group, text) pair among the non-blank mapped rows; its invariant is that `groups` holds exactly the pairs already appended |
| LineTooltip.GroupedRowsProperties | src/scripts/chartist-plugin-line-tooltip.js:38-63 | for the mapped rows, the grouped result has no blank text and no repeated (group, text) pair; it is a subsequence of the mapped rows at exactly the first non-blank row of each pair |
| LineTooltip.MarkupStructure | src/scripts/chartist-plugin-line-tooltip.js:67-79 | the markup is the formatted header block followed by exactly one block per grouped row, in order, each classed by the row's class name and holding its text |
| LineTooltip.Tooltip.constructor | src/scripts/chartist-plugin-line-tooltip.js:20-28 | a new tooltip is hidden and its cache is empty |
| LineTooltip.Tooltip.TooltipHtml | src/scripts/chartist-plugin-line-tooltip.js:67-79 | `tooltipHtml(index)` computes the markup of the category, making one `formatHeader` call and one `formatValue` call per series; the formatter count is raised here, where the formatting happens |
| LineTooltip.Tooltip.GetTooltip | src/scripts/chartist-plugin-line-tooltip.js:88-93 | the result is the category's markup and offset, and is cached under the index; a cached entry is returned as it is with no formatter call; otherwise one `formatHeader` call and one `formatValue` call per series are made; every cached entry stays equal to a fresh computation |
| LineTooltip.Tooltip.Show | src/scripts/chartist-plugin-line-tooltip.js:95-103 | `show(index)` displays the category's entry, formatting only when the category was not cached |
| LineTooltip.Tooltip.Hide | src/scripts/chartist-plugin-line-tooltip.js:105-107 | `hide` hides the tooltip |
| LineTooltip.CachedTooltipIsReused | src/scripts/chartist-plugin-line-tooltip.js:88-93 | asking twice for a category returns equal entries and formats at most once |
| LineTooltip.Plugin.constructor | src/scripts/chartist-plugin-line-tooltip.js:248-252 | after `created` the plugin is idle: tracker at the sentinel, both overlays hidden, empty cache, cursor caption `cursorLabel \|\| ''` |
| LineTooltip.Plugin.MouseLeave | src/scripts/chartist-plugin-line-tooltip.js:254-258 | from any state: the tracker is reset and both overlays are hidden. The cache, the shown entry, the formatter count, and the cursor's position and caption are all kept |
| LineTooltip.Plugin.MouseMove | src/scripts/chartist-plugin-line-tooltip.js:260-275 | a target other than the `svg` changes nothing; otherwise the tracker holds the resolved index; without a change the overlays are untouched; on a change the cursor and tooltip show the new category, and the formatters run only when that category was not cached |
| DistLineTooltip.Plugin.constructor | dist/chartist-plugin-line-tooltip.js:212-216 | after `created` the plugin is idle with both overlays hidden |
| DistLineTooltip.Plugin.MouseLeave | dist/chartist-plugin-line-tooltip.js:218-222 | from any state: the tracker is reset and both overlays are hidden; the tooltip's content and position and the cursor's position and caption are kept |
| DistLineTooltip.Plugin.MouseMove | dist/chartist-plugin-line-tooltip.js:224-249 | a target other than the `svg` changes nothing; without a change nothing is touched; on a change the tooltip shows the formatted header and one formatted value per series; the cursor is visible exactly when `hiddenPosition()` differs from `labels[index]`, and then it sits at `coords[index]` captioned `header() \|\| ''` |
| CtTooltip.Plugin.constructor | src/scripts/chartist-plugin-tooltip.js:173-177 | after `created` the plugin is idle with both overlays hidden |
| CtTooltip.Plugin.MouseLeave | src/scripts/chartist-plugin-tooltip.js:179-183 | from any state: the tracker is reset and both overlays are hidden; the tooltip's content and position and the cursor's position and caption are kept |
| CtTooltip.Plugin.MouseMove | src/scripts/chartist-plugin-tooltip.js:185-206 | a target other than the `svg` changes nothing; without a change nothing is touched; on a change the tooltip gets `formatHeader(labels[index], index)` and one `formatValue` result per series; the cursor is visible exactly when `hideCursorPosition()` differs from `labels[index]`, and then it sits at `coords[index]` captioned with the raw `cursorHeader()` |

## Left out

- DOM and jQuery work is not modelled: element lookup and creation, `.html`/`.css`/`.show`/`.hide`, measured sizes. An overlay is reduced to whether it is visible, its horizontal position `coords[index]`, and its content.
- The tooltip's vertical offset and the cursor label's placement are not modelled. Both divide measured DOM sizes.
- The cursor line's SVG attributes (`y1`, `y2`, `style`) are not modelled. The line is created without a style and is modelled as hidden until first shown.
- The Chartist library calls are not modelled:
  - `Chartist.extend`: options are passed in complete.
  - `Chartist.noop`: the default formatters are ordinary function parameters.
  - `Chartist.alphaNumerate`: a function parameter.
- The `instanceof Chartist.Line` guard and the event subscriptions are not modelled. The `data`, `draw` and `created` events are collapsed into the `Plugin` constructor, which receives complete `coords`, `labels` and series.
- The model assumes every series was drawn. In the source, `series` is created as `new Array(n)` and filled from the `draw` events. A series that was never drawn, for example with `showLine: false`, leaves a hole. `map`, `filter` and `reduce` skip holes, so such a series silently adds no row in `getGroupedValues` and no value block in `tooltipHtml`. The model has no holes.
- The event-field fallback `event.offsetX || event.originalEvent.layerX` is not modelled. The handlers receive the pixel `x` and whether the target is the `svg` element.
- Pixels are integers. Fractional pixels, `NaN`, booleans and objects are not among the modelled values. Numbers are integers and `String(n)` is decimal notation.
- DistLineTooltip.Options: the zero-argument callbacks `cursor.hiddenPosition` and `cursor.header` are modelled by the value they return, so they are taken to return the same value at every call.
- CtTooltip.Options: the same holds for `hideCursorPosition` and `cursorHeader`.
- CtTooltip.Plugin.MouseMove: the raw `cursorHeader()` value is stored as the caption. jQuery's `.html(undefined)` reads the content instead of writing it, so with the default `cursorHeader` the header keeps its previous content; that is not modelled.
- LineTooltip.GroupedValues: the `groups` dictionary is a map from group name to texts. In the source it is a plain object. A group named after an `Object.prototype` property, such as `toString`, finds an inherited value there instead of an array, and `indexOf` then fails. That case is not modelled.
- LineTooltip.Tooltip.GetTooltip: the `cache` object is keyed by the string form of the index. The model keys it by the index itself, which tells the same keys apart. `formatCalls` counts formatter calls abstractly; the formatters' own effects are not modelled.
- The UMD wrapper of `dist/chartist-plugin-line-tooltip.js` and `demo/app.js` are not part of this model.
