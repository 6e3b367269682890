/**
 * The line-chart tooltip as shipped in dist/chartist-plugin-line-tooltip.js:
 * the tooltip lists one formatted value per series (no grouping, no cache),
 * and the cursor is hidden instead of shown when the category's label equals
 * the configured `cursor.hiddenPosition()`.
 */
module DistLineTooltip {
  import opened JsValues
  import opened IndexTracking
  import opened Overlays

  /**
   * The plugin options. `cursor.hiddenPosition` and `cursor.header` are
   * zero-argument callbacks; they are modelled by the value they return.
   */
  datatype Options = Options(
    formatHeader: (JsValue, Option<nat>) -> JsValue,
    formatValue: (JsValue, nat) -> JsValue,
    hiddenPosition: JsValue,
    cursorHeader: JsValue)

  /** `options.cursor.hiddenPosition() === labels[index]`: the cursor stays hidden at this category. */
  predicate CursorHiddenAt(options: Options, labels: seq<JsValue>, index: Option<nat>) {
    options.hiddenPosition == Lookup(labels, index)
  }

  /** The plugin state of one chart after its `created` event. */
  class Plugin {
    const labels: seq<JsValue>
    const series: seq<seq<JsValue>>
    const options: Options
    const tracker: IndexTracker
    const tooltip: SeriesTooltip
    const cursor: Cursor

    /** The tooltip markup of a category: formatted header, then one block per series. */
    function Html(index: Option<nat>): string {
      SeriesMarkup(options.formatHeader(Lookup(labels, index), index),
                   FormattedValues(series, index, options.formatValue), tooltip.alphaNumerate)
    }

    /** Both overlays as `mousemove` leaves them for category `index`. */
    ghost predicate Shows(index: Option<nat>)
      reads this, tracker, tooltip, cursor
    {
      && tooltip.visible && tooltip.html == Html(index) && tooltip.left == CoordAt(tracker.coords, index)
      && (cursor.visible <==> !CursorHiddenAt(options, labels, index))
      && (cursor.visible ==>
            cursor.x == CoordAt(tracker.coords, index) && cursor.caption == Or(options.cursorHeader, Str("")))
    }

    /**
     * Idle (tracker at the sentinel) exactly when the tooltip is hidden, and
     * then the cursor is hidden too; otherwise the overlays show the tracked
     * category.
     */
    ghost predicate Valid()
      reads this, tracker, tooltip, cursor
    {
      && tracker.Valid()
      && (tracker.index.Sentinel? <==> !tooltip.visible)
      && (tracker.index.Sentinel? ==> !cursor.visible)
      && (!tracker.index.Sentinel? ==> Shows(tracker.index.Resolved()))
    }

    ghost function Phase(): Phase
      reads this, tracker
    {
      PhaseOf(tracker.index)
    }

    /** The `created` handler: a fresh tracker, a hidden tooltip and a hidden cursor. */
    constructor (coords: seq<int>, labels: seq<JsValue>, series: seq<seq<JsValue>>, options: Options,
                 alphaNumerate: nat -> string)
      ensures Valid() && fresh(tracker) && fresh(tooltip) && fresh(cursor)
      ensures Phase() == Idle && tracker.coords == coords && tooltip.alphaNumerate == alphaNumerate
      ensures this.labels == labels && this.series == series && this.options == options
    {
      this.labels := labels;
      this.series := series;
      this.options := options;
      tracker := new IndexTracker(coords);
      tooltip := new SeriesTooltip(alphaNumerate);
      cursor := new Cursor(Undefined);
    }

    /** `mouseleave`: forget the category and hide both overlays, whatever the state was. */
    method MouseLeave()
      requires Valid()
      modifies tracker, tooltip, cursor
      ensures Valid() && Phase() == Idle
      ensures !tooltip.visible && !cursor.visible
      ensures tooltip.html == old(tooltip.html) && tooltip.left == old(tooltip.left)
      ensures cursor.x == old(cursor.x) && cursor.caption == old(cursor.caption)
    {
      tracker.Reset();
      tooltip.Hide();
      cursor.Hide();
    }

    /**
     * `mousemove` at pixel `x`; `onSvg` says whether the event's target is
     * the chart's `svg` element. Events elsewhere change nothing; otherwise
     * the overlays are redrawn only when the resolved category changes, the
     * cursor being hidden at the `hiddenPosition` label.
     */
    method MouseMove(onSvg: bool, x: int)
      requires Valid()
      modifies tracker, tooltip, cursor
      ensures Valid()
      ensures !onSvg ==> unchanged(tracker) && unchanged(tooltip) && unchanged(cursor)
      ensures onSvg ==> tracker.index == Resolve(tracker.coords, x) && Phase() == Active(tracker.index.Resolved())
      ensures onSvg && old(tracker.index) == tracker.index ==> unchanged(tooltip) && unchanged(cursor)
      ensures onSvg && old(tracker.index) != tracker.index ==>
                var index := tracker.index.Resolved();
                && tooltip.visible && tooltip.html == Html(index)
                && tooltip.left == CoordAt(tracker.coords, index)
                && (cursor.visible <==> options.hiddenPosition != Lookup(labels, index))
                && (cursor.visible ==>
                      cursor.x == CoordAt(tracker.coords, index) && cursor.caption == Or(options.cursorHeader, Str("")))
    {
      if !onSvg {
        return;
      }
      var changed := tracker.Set(x);
      if !changed {
        return;
      }
      var slot := tracker.Get();
      var index := slot.Resolved();
      if options.hiddenPosition == Lookup(labels, index) {
        cursor.Hide();
      } else {
        cursor.Show(CoordAt(tracker.coords, index), Or(options.cursorHeader, Str("")));
      }
      var values := FormattedValues(series, index, options.formatValue);
      tooltip.Show(CoordAt(tracker.coords, index), options.formatHeader(Lookup(labels, index), index), values);
    }
  }
}
