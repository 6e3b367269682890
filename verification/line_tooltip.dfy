/**
 * The line-chart tooltip plugin (src/scripts/chartist-plugin-line-tooltip.js):
 * per category, the tooltip lists one row per series value, drops empty
 * texts, collapses rows of the same group with the same text, and caches the
 * rendered result per category; the pointer handlers redraw the overlays
 * only when the resolved category changes.
 */
module LineTooltip {
  import opened JsValues
  import opened IndexTracking
  import opened Overlays

  datatype ClassNames = ClassNames(tooltip: string, series: string, cursor: string)

  /** The plugin options; the two formatters are caller-supplied functions. */
  datatype Options = Options(
    formatHeader: (JsValue, Option<nat>) -> JsValue,
    formatValue: (JsValue, nat) -> JsValue,
    cursorLabel: JsValue,
    classNames: ClassNames)

  /**
   * One series of the chart: the optional `groupName` and `className` of its
   * descriptor in `chart.data.series`, and the values drawn for its line.
   */
  datatype Series = Series(groupName: JsValue, className: JsValue, values: seq<JsValue>)

  /** A tooltip row before rendering: `{groupName, className, text}`. */
  datatype Row = Row(groupName: JsValue, className: JsValue, text: JsValue)

  /** Rows are duplicates when their group's property name and their text are the same. */
  function Key(row: Row): (string, JsValue) {
    (ToStr(row.groupName), row.text)
  }

  function KeysOf(rows: seq<Row>): set<(string, JsValue)> {
    set k | 0 <= k < |rows| :: Key(rows[k])
  }

  // ---------------------------------------------------------------------------
  // Row construction and filtering
  // ---------------------------------------------------------------------------

  /** `getGroupName(i)`: the series' own group name, or its letter when that is falsy. */
  function GroupName(s: Series, i: nat, alphaNumerate: nat -> string): JsValue {
    Or(s.groupName, Str(alphaNumerate(i)))
  }

  /** `getClassName(i)`: the series' own class name, or `<series class>-<letter>`. */
  function ClassName(s: Series, i: nat, options: Options, alphaNumerate: nat -> string): JsValue {
    Or(s.className, Str(options.classNames.series + "-" + alphaNumerate(i)))
  }

  /** The `series.map(...)` step: one row per series, in series order, with the formatted value at `index`. */
  function MapRows(series: seq<Series>, index: Option<nat>, options: Options, alphaNumerate: nat -> string): seq<Row> {
    seq(|series|, i requires 0 <= i < |series| =>
      Row(GroupName(series[i], i, alphaNumerate),
          ClassName(series[i], i, options, alphaNumerate),
          options.formatValue(Lookup(series[i].values, index), i)))
  }

  /** Texts the `filter` step drops: `undefined`, `null` and `''`. */
  predicate Blank(text: JsValue) {
    text == Undefined || text == Null || text == Str("")
  }

  /** `a` is `b` with some elements left out, the rest kept in order, as witnessed by positions `idx`. */
  ghost predicate SubsequenceAt<T>(a: seq<T>, b: seq<T>, idx: seq<nat>) {
    && |idx| == |a|
    && (forall k :: 0 <= k < |idx| ==> idx[k] < |b| && a[k] == b[idx[k]])
    && (forall k, l :: 0 <= k < l < |idx| ==> idx[k] < idx[l])
  }

  /** The `filter` step: keeps the rows whose text is not blank, in order. */
  function Present(rows: seq<Row>): (r: seq<Row>)
    ensures forall k :: 0 <= k < |r| ==> !Blank(r[k].text)
    decreases |rows|
  {
    if rows == [] then []
    else
      var last := rows[|rows| - 1];
      Present(rows[..|rows| - 1]) + (if Blank(last.text) then [] else [last])
  }

  /** The filtered rows are the subsequence of the mapped ones at exactly the non-blank positions. */
  lemma {:induction false} PresentIsSubsequence(rows: seq<Row>) returns (idx: seq<nat>)
    ensures SubsequenceAt(Present(rows), rows, idx)
    ensures forall k :: 0 <= k < |rows| ==> (k in idx <==> !Blank(rows[k].text))
    decreases |rows|
  {
    if rows == [] {
      idx := [];
    } else {
      var n := |rows| - 1;
      var prefix := rows[..n];
      var pidx := PresentIsSubsequence(prefix);
      var out := Present(rows);
      if Blank(rows[n].text) {
        idx := pidx;
        assert out == Present(prefix);
      } else {
        idx := pidx + [n];
        assert out == Present(prefix) + [rows[n]];
        forall k | 0 <= k < |idx| ensures idx[k] < |rows| && out[k] == rows[idx[k]] {
          if k < |pidx| { assert out[k] == Present(prefix)[k]; }
        }
      }
      forall k | 0 <= k < |rows| ensures k in idx <==> !Blank(rows[k].text) {
        if k < n { assert rows[k] == prefix[k]; }
      }
    }
  }

  /** A subsequence of a subsequence is a subsequence. */
  lemma SubsequenceTrans<T>(a: seq<T>, b: seq<T>, c: seq<T>, ab: seq<nat>, bc: seq<nat>) returns (ac: seq<nat>)
    requires SubsequenceAt(a, b, ab) && SubsequenceAt(b, c, bc)
    ensures SubsequenceAt(a, c, ac)
    ensures forall k :: 0 <= k < |ac| ==> ac[k] == bc[ab[k]]
  {
    ac := seq(|ab|, k requires 0 <= k < |ab| => bc[ab[k]]);
  }

  /** Extending the sequence a subsequence is taken from, and taking its new last element or not. */
  lemma SubsequenceSnoc<T>(a: seq<T>, b: seq<T>, idx: seq<nat>, x: T, keep: bool) returns (idx': seq<nat>)
    requires SubsequenceAt(a, b, idx)
    ensures SubsequenceAt(if keep then a + [x] else a, b + [x], idx')
    ensures forall k :: 0 <= k < |b| ==> (k in idx' <==> k in idx)
    ensures |b| in idx' <==> keep
  {
    forall k | 0 <= k < |idx| ensures idx[k] < |b| && (b + [x])[idx[k]] == b[idx[k]] {
    }
    idx' := if keep then idx + [|b|] else idx;
    if keep {
      forall k | 0 <= k < |idx'| ensures idx'[k] < |b + [x]| && (a + [x])[k] == (b + [x])[idx'[k]] {
        if k < |idx| { assert (a + [x])[k] == a[k]; }
      }
    }
  }

  // ---------------------------------------------------------------------------
  // Deduplication by (group, text), keeping the first occurrence
  // ---------------------------------------------------------------------------

  /**
   * What the `reduce` step of `getGroupedValues` leaves in `result`: each row
   * in turn is appended unless a row with its key was appended before.
   */
  function Dedup(rows: seq<Row>): seq<Row>
    decreases |rows|
  {
    if rows == [] then []
    else
      var kept := Dedup(rows[..|rows| - 1]);
      var last := rows[|rows| - 1];
      if Key(last) in KeysOf(kept) then kept else kept + [last]
  }

  lemma KeysOfAppend(rows: seq<Row>, row: Row)
    ensures KeysOf(rows + [row]) == KeysOf(rows) + {Key(row)}
  {
    var s := rows + [row];
    forall key | key in KeysOf(s) ensures key in KeysOf(rows) + {Key(row)} {
      var k :| 0 <= k < |s| && Key(s[k]) == key;
      if k < |rows| { assert s[k] == rows[k]; }
    }
    forall key | key in KeysOf(rows) ensures key in KeysOf(s) {
      var k :| 0 <= k < |rows| && Key(rows[k]) == key;
      assert s[k] == rows[k];
    }
    assert Key(row) == Key(s[|rows|]);
  }

  /** Deduplication loses no key. */
  lemma {:induction false} DedupKeys(rows: seq<Row>)
    ensures KeysOf(Dedup(rows)) == KeysOf(rows)
    decreases |rows|
  {
    if rows != [] {
      var prefix := rows[..|rows| - 1];
      var last := rows[|rows| - 1];
      DedupKeys(prefix);
      assert rows == prefix + [last];
      KeysOfAppend(prefix, last);
      KeysOfAppend(Dedup(prefix), last);
    }
  }

  /** Row `k` is the first row with its key. */
  ghost predicate FirstOfKey(rows: seq<Row>, k: nat) {
    k < |rows| && forall j :: 0 <= j < k ==> Key(rows[j]) != Key(rows[k])
  }

  lemma FirstOfKeyLast(rows: seq<Row>)
    requires rows != []
    ensures FirstOfKey(rows, |rows| - 1) <==> Key(rows[|rows| - 1]) !in KeysOf(rows[..|rows| - 1])
  {
    var n := |rows| - 1;
    if Key(rows[n]) in KeysOf(rows[..n]) {
      var j :| 0 <= j < n && Key(rows[..n][j]) == Key(rows[n]);
      assert rows[..n][j] == rows[j];
    }
  }

  /**
   * Deduplication keeps exactly the first row of each key, in the original
   * order: its result is the subsequence of the input at the positions `idx`,
   * and a position is among them exactly when its row is the first with its key.
   */
  lemma {:induction false} DedupKeepsFirstOccurrences(rows: seq<Row>) returns (idx: seq<nat>)
    ensures SubsequenceAt(Dedup(rows), rows, idx)
    ensures forall k :: 0 <= k < |rows| ==> (k in idx <==> FirstOfKey(rows, k))
    decreases |rows|
  {
    if rows == [] {
      idx := [];
    } else {
      var prefix := rows[..|rows| - 1];
      var pidx := DedupKeepsFirstOccurrences(prefix);
      DedupKeys(prefix);
      idx := KeepFirstStep(rows, Dedup(prefix), pidx);
    }
  }

  /**
   * The inductive step of `DedupKeepsFirstOccurrences`: if `kept` holds the
   * first rows of each key of all but the last row, appending the last row
   * unless its key is already kept yields the first rows of each key.
   */
  lemma KeepFirstStep(rows: seq<Row>, kept: seq<Row>, pidx: seq<nat>) returns (idx: seq<nat>)
    requires rows != []
    requires SubsequenceAt(kept, rows[..|rows| - 1], pidx)
    requires forall k :: 0 <= k < |rows| - 1 ==> (k in pidx <==> FirstOfKey(rows[..|rows| - 1], k))
    requires KeysOf(kept) == KeysOf(rows[..|rows| - 1])
    ensures var last := rows[|rows| - 1];
      SubsequenceAt(if Key(last) in KeysOf(kept) then kept else kept + [last], rows, idx)
    ensures forall k :: 0 <= k < |rows| ==> (k in idx <==> FirstOfKey(rows, k))
  {
    var prefix := rows[..|rows| - 1];
    var last := rows[|rows| - 1];
    assert rows == prefix + [last];
    idx := SubsequenceSnoc(kept, prefix, pidx, last, Key(last) !in KeysOf(kept));
    KeepFirstMembership(prefix, last, pidx, idx, Key(last) !in KeysOf(prefix));
  }

  lemma KeepFirstMembership(prefix: seq<Row>, last: Row, pidx: seq<nat>, idx: seq<nat>, keep: bool)
    requires forall k :: 0 <= k < |prefix| ==> (k in pidx <==> FirstOfKey(prefix, k))
    requires forall k :: 0 <= k < |prefix| ==> (k in idx <==> k in pidx)
    requires |prefix| in idx <==> keep
    requires keep <==> Key(last) !in KeysOf(prefix)
    ensures forall k :: 0 <= k < |prefix| + 1 ==> (k in idx <==> FirstOfKey(prefix + [last], k))
  {
    var rows := prefix + [last];
    var n := |prefix|;
    assert FirstOfKey(rows, n) <==> keep by {
      assert rows[..n] == prefix;
      FirstOfKeyLast(rows);
    }
    forall k | 0 <= k < n ensures FirstOfKey(rows, k) <==> FirstOfKey(prefix, k) {
      assert rows[..n] == prefix;
      FirstOfKeyPrefix(rows, n, k);
    }
  }

  /** Whether row `k` is first with its key does not depend on the rows after it. */
  lemma FirstOfKeyPrefix(rows: seq<Row>, n: nat, k: nat)
    requires k < n <= |rows|
    ensures FirstOfKey(rows, k) <==> FirstOfKey(rows[..n], k)
  {
    assert forall j :: 0 <= j <= k ==> rows[..n][j] == rows[j];
  }

  /** No two rows of the deduplicated list share a group and a text. */
  lemma {:induction false} DedupDistinctKeys(rows: seq<Row>)
    ensures forall a, b :: 0 <= a < b < |Dedup(rows)| ==> Key(Dedup(rows)[a]) != Key(Dedup(rows)[b])
    decreases |rows|
  {
    if rows != [] {
      var prefix := rows[..|rows| - 1];
      DedupDistinctKeys(prefix);
      var kept := Dedup(prefix);
      var last := rows[|rows| - 1];
      if Key(last) !in KeysOf(kept) {
        forall a, b | 0 <= a < b < |kept| + 1
          ensures Key((kept + [last])[a]) != Key((kept + [last])[b])
        {
          if b == |kept| {
            assert Key(kept[a]) in KeysOf(kept);
          } else {
            assert (kept + [last])[a] == kept[a] && (kept + [last])[b] == kept[b];
          }
        }
      }
    }
  }

  /** The `groups` dictionary holds text `t` under group name `g`. */
  predicate Seen(groups: map<string, seq<JsValue>>, g: string, t: JsValue) {
    g in groups && t in groups[g]
  }

  /**
   * `getGroupedValues(index)`: map every series to a row, drop blank texts,
   * then run the `reduce` that records each group's texts in `groups` and
   * appends a row only when its text is new for its group.
   */
  method GroupedValues(series: seq<Series>, index: Option<nat>, options: Options, alphaNumerate: nat -> string)
    returns (result: seq<Row>)
    ensures result == Dedup(Present(MapRows(series, index, options, alphaNumerate)))
  {
    var rows := Present(MapRows(series, index, options, alphaNumerate));
    var groups: map<string, seq<JsValue>> := map[];
    result := [];
    var n := 0;
    while n < |rows|
      invariant 0 <= n <= |rows|
      invariant result == Dedup(rows[..n])
      invariant forall g, t :: Seen(groups, g, t) <==> (g, t) in KeysOf(result)
    {
      var row := rows[n];
      var name := ToStr(row.groupName);
      if name !in groups {
        groups := groups[name := []];
      }
      var texts := groups[name];
      if row.text !in texts {
        groups := groups[name := texts + [row.text]];
        KeysOfAppend(result, row);
        result := result + [row];
      }
      assert rows[..n + 1][..n] == rows[..n];
      n := n + 1;
    }
    assert rows[..n] == rows;
  }

  /** Row `k` has a non-blank text and no earlier non-blank row has its key. */
  ghost predicate FirstNonBlankOfKey(rows: seq<Row>, k: nat) {
    && k < |rows| && !Blank(rows[k].text)
    && forall j :: 0 <= j < k && !Blank(rows[j].text) ==> Key(rows[j]) != Key(rows[k])
  }

  /**
   * For `present`, the non-blank rows of `rows` taken at positions `idx`: a
   * row first with its key in `present` is the first non-blank row with it.
   */
  lemma FirstAmongPresentForward(rows: seq<Row>, present: seq<Row>, idx: seq<nat>, p: nat)
    requires SubsequenceAt(present, rows, idx)
    requires forall k :: 0 <= k < |rows| ==> (k in idx <==> !Blank(rows[k].text))
    requires p < |idx| && FirstOfKey(present, p)
    ensures FirstNonBlankOfKey(rows, idx[p])
  {
    var k := idx[p];
    assert present[p] == rows[k];
    assert !Blank(rows[k].text) by {
      assert k in idx;
    }
    forall j | 0 <= j < k && !Blank(rows[j].text) ensures Key(rows[j]) != Key(rows[k]) {
      assert j in idx;
      var q :| 0 <= q < |idx| && idx[q] == j;
      assert q < p;
      assert present[q] == rows[j];
    }
  }

  /** A row with an earlier row of the same key in `present` has an earlier non-blank row of that key. */
  lemma FirstAmongPresentBackward(rows: seq<Row>, present: seq<Row>, idx: seq<nat>, p: nat)
    requires SubsequenceAt(present, rows, idx)
    requires forall k :: 0 <= k < |present| ==> !Blank(present[k].text)
    requires p < |idx| && !FirstOfKey(present, p)
    ensures !FirstNonBlankOfKey(rows, idx[p])
  {
    var q :| 0 <= q < p && Key(present[q]) == Key(present[p]);
    assert present[q] == rows[idx[q]] && present[p] == rows[idx[p]];
    assert !Blank(present[q].text);
    assert idx[q] < idx[p];
  }

  /** Being first with its key among the filtered rows is being the first non-blank row with it. */
  lemma FirstAmongPresent(rows: seq<Row>, idx: seq<nat>, p: nat)
    requires SubsequenceAt(Present(rows), rows, idx)
    requires forall k :: 0 <= k < |rows| ==> (k in idx <==> !Blank(rows[k].text))
    requires p < |idx|
    ensures FirstOfKey(Present(rows), p) <==> FirstNonBlankOfKey(rows, idx[p])
  {
    var present := Present(rows);
    if FirstOfKey(present, p) {
      FirstAmongPresentForward(rows, present, idx, p);
    } else {
      FirstAmongPresentBackward(rows, present, idx, p);
    }
  }

  /**
   * The grouped rows built from the mapped rows: no blank text, no two rows
   * with the same group and text, and exactly the first non-blank row of each
   * key, kept in series order (a subsequence of the mapped rows at `idx`).
   */
  lemma GroupedRowsProperties(rows: seq<Row>) returns (idx: seq<nat>)
    ensures forall k :: 0 <= k < |Dedup(Present(rows))| ==> !Blank(Dedup(Present(rows))[k].text)
    ensures forall a, b :: 0 <= a < b < |Dedup(Present(rows))| ==>
              Key(Dedup(Present(rows))[a]) != Key(Dedup(Present(rows))[b])
    ensures SubsequenceAt(Dedup(Present(rows)), rows, idx)
    ensures forall k :: 0 <= k < |rows| ==> (k in idx <==> FirstNonBlankOfKey(rows, k))
  {
    var present := Present(rows);
    var grouped := Dedup(present);
    var pidx := PresentIsSubsequence(rows);
    var didx := DedupKeepsFirstOccurrences(present);
    DedupDistinctKeys(present);
    idx := SubsequenceTrans(grouped, present, rows, didx, pidx);
    forall k | 0 <= k < |grouped| ensures !Blank(grouped[k].text) {
      assert grouped[k] == present[didx[k]];
    }
    forall m | 0 <= m < |idx| ensures FirstNonBlankOfKey(rows, idx[m]) {
      var p := didx[m];
      FirstAmongPresent(rows, pidx, p);
      assert p in didx;
    }
    forall k | 0 <= k < |rows| && FirstNonBlankOfKey(rows, k) ensures k in idx {
      assert k in pidx;
      var p :| 0 <= p < |pidx| && pidx[p] == k;
      FirstAmongPresent(rows, pidx, p);
      assert p in didx;
      var m :| 0 <= m < |didx| && didx[m] == p;
      assert idx[m] == k;
    }
  }

  // ---------------------------------------------------------------------------
  // Markup
  // ---------------------------------------------------------------------------

  /** `'<div class="<tooltip>-header">' + (header || '') + '</div>'`. */
  function TooltipHeader(options: Options, header: JsValue): string {
    "<div class=\"" + options.classNames.tooltip + "-header\">" + ToStr(Or(header, Str(""))) + "</div>"
  }

  /** The block of one grouped row, classed by the row's class name and holding its text. */
  function RowBlock(options: Options, row: Row): string {
    "<div class=\"" + options.classNames.series + " " + ToStr(row.className) + "\">" +
    "<svg class=\"" + options.classNames.series + "-label\"><line x1=\"0\" x2=\"100%\" y1=\"50%\" y2=\"50%\" class=\"label-line\"></line></svg>" +
    "<div class=\"value\">" + ToStr(row.text) + "</div></div>"
  }

  function RowBlockOf(options: Options): (nat, Row) -> string {
    (i: nat, row: Row) => RowBlock(options, row)
  }

  /** `tooltipHtml(index)` as a value: the header, then the grouped rows folded in. */
  function Markup(labels: seq<JsValue>, series: seq<Series>, index: Option<nat>, options: Options,
                  alphaNumerate: nat -> string): string
  {
    var header := options.formatHeader(Lookup(labels, index), index);
    AppendEach(TooltipHeader(options, header), Dedup(Present(MapRows(series, index, options, alphaNumerate))), 0,
               RowBlockOf(options))
  }

  /** The markup is the header block followed by exactly one block per grouped row, in order. */
  lemma MarkupStructure(labels: seq<JsValue>, series: seq<Series>, index: Option<nat>, options: Options,
                        alphaNumerate: nat -> string)
    ensures
      var header := options.formatHeader(Lookup(labels, index), index);
      var grouped := Dedup(Present(MapRows(series, index, options, alphaNumerate)));
      var blocks := Blocks(grouped, 0, RowBlockOf(options));
      && |blocks| == |grouped|
      && (forall k :: 0 <= k < |grouped| ==> blocks[k] == RowBlock(options, grouped[k]))
      && Markup(labels, series, index, options, alphaNumerate) == TooltipHeader(options, header) + Concat(blocks)
  {
    var header := options.formatHeader(Lookup(labels, index), index);
    var grouped := Dedup(Present(MapRows(series, index, options, alphaNumerate)));
    AppendEachIsConcat(TooltipHeader(options, header), grouped, 0, RowBlockOf(options));
  }

  // ---------------------------------------------------------------------------
  // The tooltip and its per-category cache
  // ---------------------------------------------------------------------------

  /** A cached tooltip: its markup and its horizontal offset `coords[index]`. */
  datatype Entry = Entry(html: string, left: Option<int>)

  class Tooltip {
    const coords: seq<int>
    const labels: seq<JsValue>
    const series: seq<Series>
    const options: Options
    const alphaNumerate: nat -> string

    var cache: map<Option<nat>, Entry>
    /** How many formatter calls (`formatHeader` and `formatValue`) have been made. */
    ghost var formatCalls: nat
    var visible: bool
    var shown: Entry

    /** What `getTooltip(index)` computes when the category is not cached. */
    function Content(index: Option<nat>): Entry {
      Entry(Markup(labels, series, index, options, alphaNumerate), CoordAt(coords, index))
    }

    /** Every entry of `m` is what a fresh computation would give. */
    ghost predicate Consistent(m: map<Option<nat>, Entry>) {
      forall i :: i in m ==> m[i] == Content(i)
    }

    /** Recording a freshly computed entry keeps a consistent cache consistent. */
    lemma ConsistentInsert(m: map<Option<nat>, Entry>, index: Option<nat>, e: Entry)
      requires Consistent(m) && e == Content(index)
      ensures Consistent(m[index := e])
    {
    }

    /** Every cached entry is what a fresh computation would give. */
    ghost predicate Valid()
      reads this`cache
    {
      Consistent(cache)
    }

    constructor (coords: seq<int>, labels: seq<JsValue>, series: seq<Series>, options: Options,
                 alphaNumerate: nat -> string)
      ensures this.coords == coords && this.labels == labels && this.series == series
      ensures this.options == options && this.alphaNumerate == alphaNumerate
      ensures cache == map[] && formatCalls == 0 && !visible && Valid()
    {
      this.coords := coords;
      this.labels := labels;
      this.series := series;
      this.options := options;
      this.alphaNumerate := alphaNumerate;
      cache := map[];
      formatCalls := 0;
      visible := false;
      shown := Entry("", None);
    }

    /** `tooltipHtml(index)`: format the header, group the rows, fold them into the markup. */
    method TooltipHtml(index: Option<nat>) returns (html: string)
      modifies this`formatCalls
      ensures html == Markup(labels, series, index, options, alphaNumerate)
      ensures formatCalls == old(formatCalls) + 1 + |series|
    {
      var header := options.formatHeader(Lookup(labels, index), index);
      formatCalls := formatCalls + 1;
      var values := GroupedValues(series, index, options, alphaNumerate);
      formatCalls := formatCalls + |series|;
      html := AppendEach(TooltipHeader(options, header), values, 0, RowBlockOf(options));
    }

    /**
     * `getTooltip(index)`: the cached entry when there is one, with no
     * formatter called; otherwise compute it (one `formatHeader` call and one
     * `formatValue` call per series) and cache it.
     */
    method GetTooltip(index: Option<nat>) returns (e: Entry)
      requires Valid()
      modifies this`cache, this`formatCalls
      ensures Valid()
      ensures e == Content(index) && index in cache
      ensures index in old(cache) ==> e == old(cache)[index] && cache == old(cache) && formatCalls == old(formatCalls)
      ensures index !in old(cache) ==>
                cache == old(cache)[index := e] && formatCalls == old(formatCalls) + 1 + |series|
    {
      if index in cache {
        return cache[index];
      }
      var html := TooltipHtml(index);
      e := Entry(html, CoordAt(coords, index));
      ConsistentInsert(cache, index, e);
      cache := cache[index := e];
    }

    /** `show(index)`: display the (cached) tooltip for the category. */
    method Show(index: Option<nat>)
      requires Valid()
      modifies this
      ensures Valid()
      ensures visible && shown == Content(index) && index in cache
      ensures index in old(cache) ==> cache == old(cache) && formatCalls == old(formatCalls)
      ensures index !in old(cache) ==>
                cache == old(cache)[index := shown] && formatCalls == old(formatCalls) + 1 + |series|
    {
      var e := GetTooltip(index);
      shown := e;
      visible := true;
    }

    /** `hide()`. */
    method Hide()
      modifies this`visible
      ensures !visible
    {
      visible := false;
    }
  }

  /** Asking twice for the same category formats once: the second call is served from the cache. */
  method CachedTooltipIsReused(t: Tooltip, index: Option<nat>) returns (first: Entry, second: Entry)
    requires t.Valid()
    modifies t`cache, t`formatCalls
    ensures first == second == t.Content(index)
    ensures t.formatCalls <= old(t.formatCalls) + 1 + |t.series|
  {
    first := t.GetTooltip(index);
    ghost var calls := t.formatCalls;
    second := t.GetTooltip(index);
    assert t.formatCalls == calls;
  }

  // ---------------------------------------------------------------------------
  // The pointer handlers
  // ---------------------------------------------------------------------------

  /** The plugin state of one chart after its `created` event. */
  class Plugin {
    const tracker: IndexTracker
    const tooltip: Tooltip
    const cursor: Cursor

    /**
     * Idle (tracker at the sentinel) exactly when the tooltip is hidden, and
     * then the cursor is hidden too; otherwise both overlays show the tracked
     * category.
     */
    ghost predicate Valid()
      reads this, tracker, tooltip, cursor
    {
      && tracker.Valid() && tooltip.Valid() && tracker.coords == tooltip.coords
      && (tracker.index.Sentinel? <==> !tooltip.visible)
      && (tracker.index.Sentinel? ==> !cursor.visible)
      && (!tracker.index.Sentinel? ==>
            && tooltip.shown == tooltip.Content(tracker.index.Resolved())
            && cursor.visible && cursor.x == CoordAt(tracker.coords, tracker.index.Resolved()))
    }

    ghost function Phase(): Phase
      reads this, tracker
    {
      PhaseOf(tracker.index)
    }

    /** The `created` handler: a fresh tracker, tooltip (empty cache) and cursor, all idle. */
    constructor (coords: seq<int>, labels: seq<JsValue>, series: seq<Series>, options: Options,
                 alphaNumerate: nat -> string)
      ensures Valid() && fresh(tracker) && fresh(tooltip) && fresh(cursor)
      ensures Phase() == Idle && tracker.coords == coords && tooltip.cache == map[]
      ensures tooltip.labels == labels && tooltip.series == series && tooltip.options == options
      ensures cursor.caption == Or(options.cursorLabel, Str(""))
    {
      tracker := new IndexTracker(coords);
      tooltip := new Tooltip(coords, labels, series, options, alphaNumerate);
      cursor := new Cursor(Or(options.cursorLabel, Str("")));
    }

    /** `mouseleave`: forget the category and hide both overlays, whatever the state was. */
    method MouseLeave()
      requires Valid()
      modifies tracker, tooltip, cursor
      ensures Valid() && Phase() == Idle
      ensures !tooltip.visible && !cursor.visible
      ensures tooltip.cache == old(tooltip.cache) && tooltip.shown == old(tooltip.shown)
      ensures tooltip.formatCalls == old(tooltip.formatCalls)
      ensures cursor.x == old(cursor.x) && cursor.caption == old(cursor.caption)
    {
      tracker.Reset();
      tooltip.Hide();
      cursor.Hide();
    }

    /**
     * `mousemove` at pixel `x`; `onSvg` says whether the event's target is
     * the chart's `svg` element. Events elsewhere change nothing; otherwise
     * the overlays are redrawn only when the resolved category changes.
     */
    method MouseMove(onSvg: bool, x: int)
      requires Valid()
      modifies tracker, tooltip, cursor
      ensures Valid()
      ensures !onSvg ==> unchanged(tracker) && unchanged(tooltip) && unchanged(cursor)
      ensures onSvg ==> tracker.index == Resolve(tracker.coords, x) && Phase() == Active(tracker.index.Resolved())
      ensures onSvg && old(tracker.index) == tracker.index ==> unchanged(tooltip) && unchanged(cursor)
      ensures onSvg && old(tracker.index) != tracker.index ==>
                var index := tracker.index.Resolved();
                && tooltip.visible && tooltip.shown == tooltip.Content(index)
                && index in tooltip.cache
                && (index in old(tooltip.cache) ==> tooltip.cache == old(tooltip.cache))
                && (index in old(tooltip.cache) ==> tooltip.formatCalls == old(tooltip.formatCalls))
                && (index !in old(tooltip.cache) ==> tooltip.cache == old(tooltip.cache)[index := tooltip.shown])
                && (index !in old(tooltip.cache) ==> tooltip.formatCalls == old(tooltip.formatCalls) + 1 + |tooltip.series|)
                && cursor.visible && cursor.x == CoordAt(tracker.coords, index)
                && cursor.caption == old(cursor.caption)
    {
      if !onSvg {
        return;
      }
      var changed := tracker.Set(x);
      if !changed {
        return;
      }
      var slot := tracker.Get();
      var index := slot.Resolved();
      cursor.Show(CoordAt(tracker.coords, index), cursor.caption);
      tooltip.Show(index);
    }
  }
}
