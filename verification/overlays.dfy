/**
 * The two overlays the plugin drives: the vertical cursor line with its
 * label, and the tooltip box of the `dist` and `chartist-plugin-tooltip`
 * variants, whose markup is a header block followed by one block per value.
 * Element lookup, jQuery calls and measured sizes are not modelled; what is
 * kept is whether each overlay is shown, where, and with which content.
 */
module Overlays {
  import opened JsValues

  /**
   * `items.reduce((prev, item, i) => prev + block(i, item), prev)` started at
   * position `from`: appends one block per item, left to right.
   */
  function AppendEach<T>(prev: string, items: seq<T>, from: nat, block: (nat, T) -> string): string
    requires from <= |items|
    decreases |items| - from
  {
    if from == |items| then prev else AppendEach(prev + block(from, items[from]), items, from + 1, block)
  }

  /** The blocks `block(i, items[i])` for the positions `from` onwards, in order. */
  function Blocks<T>(items: seq<T>, from: nat, block: (nat, T) -> string): (bs: seq<string>)
    requires from <= |items|
    ensures |bs| == |items| - from
    ensures forall k :: 0 <= k < |bs| ==> bs[k] == block(from + k, items[from + k])
  {
    seq(|items| - from, k requires 0 <= k < |items| - from => block(from + k, items[from + k]))
  }

  /** The reduce produces the initial text followed by exactly one block per item, in item order. */
  lemma {:induction false} AppendEachIsConcat<T>(prev: string, items: seq<T>, from: nat, block: (nat, T) -> string)
    requires from <= |items|
    ensures AppendEach(prev, items, from, block) == prev + Concat(Blocks(items, from, block))
    decreases |items| - from
  {
    if from < |items| {
      AppendEachIsConcat(prev + block(from, items[from]), items, from + 1, block);
      var bs := Blocks(items, from, block);
      assert bs[1..] == Blocks(items, from + 1, block);
    }
  }

  // ---------------------------------------------------------------------------
  // The tooltip markup of the value-list variants
  // ---------------------------------------------------------------------------

  const LabelSvg: string :=
    "<svg class=\"series-label\"><line x1=\"0\" x2=\"100%\" y1=\"50%\" y2=\"50%\" class=\"label-line\"></line></svg>"

  /** `'<div class="header">' + (header || '') + '</div>'`. */
  function HeaderBlock(header: JsValue): string {
    "<div class=\"header\">" + ToStr(Or(header, Str(""))) + "</div>"
  }

  /** The block of the `i`-th value: classed `series-<letter of i>`, holding the value's text. */
  function ValueBlock(alphaNumerate: nat -> string, i: nat, value: JsValue): string {
    "<div class=\"series series-" + alphaNumerate(i) + "\">" + LabelSvg +
    "<div class=\"value\">" + ToStr(value) + "</div></div>"
  }

  function ValueBlockOf(alphaNumerate: nat -> string): (nat, JsValue) -> string {
    (i: nat, value: JsValue) => ValueBlock(alphaNumerate, i, value)
  }

  /** `tooltipHtml(header, values)`: the header block, then the values folded in. */
  function SeriesMarkup(header: JsValue, values: seq<JsValue>, alphaNumerate: nat -> string): string {
    AppendEach(HeaderBlock(header), values, 0, ValueBlockOf(alphaNumerate))
  }

  /** The markup is the header block followed by exactly one value block per value, in order. */
  lemma SeriesMarkupStructure(header: JsValue, values: seq<JsValue>, alphaNumerate: nat -> string)
    ensures
      var blocks := Blocks(values, 0, ValueBlockOf(alphaNumerate));
      && |blocks| == |values|
      && (forall i :: 0 <= i < |values| ==> blocks[i] == ValueBlock(alphaNumerate, i, values[i]))
      && SeriesMarkup(header, values, alphaNumerate) == HeaderBlock(header) + Concat(blocks)
  {
    AppendEachIsConcat(HeaderBlock(header), values, 0, ValueBlockOf(alphaNumerate));
  }

  /** `series.map((x, i) => formatValue(x[index], i))`: one formatted value per series, in series order. */
  function FormattedValues(series: seq<seq<JsValue>>, index: Option<nat>, formatValue: (JsValue, nat) -> JsValue)
    : (values: seq<JsValue>)
    ensures |values| == |series|
    ensures forall i :: 0 <= i < |series| ==> values[i] == formatValue(Lookup(series[i], index), i)
  {
    seq(|series|, i requires 0 <= i < |series| => formatValue(Lookup(series[i], index), i))
  }

  /**
   * The tooltip of a category: its header block, then exactly one block per
   * series, in series order, the `i`-th classed by series `i`'s letter and
   * holding the formatted value of series `i` at the category.
   */
  lemma CategoryMarkupStructure(header: JsValue, series: seq<seq<JsValue>>, index: Option<nat>,
                                formatValue: (JsValue, nat) -> JsValue, alphaNumerate: nat -> string)
    ensures
      var blocks := Blocks(FormattedValues(series, index, formatValue), 0, ValueBlockOf(alphaNumerate));
      && |blocks| == |series|
      && (forall i :: 0 <= i < |series| ==>
            blocks[i] == ValueBlock(alphaNumerate, i, formatValue(Lookup(series[i], index), i)))
      && SeriesMarkup(header, FormattedValues(series, index, formatValue), alphaNumerate)
           == HeaderBlock(header) + Concat(blocks)
  {
    SeriesMarkupStructure(header, FormattedValues(series, index, formatValue), alphaNumerate);
  }

  // ---------------------------------------------------------------------------
  // Overlay objects
  // ---------------------------------------------------------------------------

  /** The cursor line and its caption; `x` is the pixel it was last shown at (`None` for `undefined`). */
  class Cursor {
    var visible: bool
    var x: Option<int>
    var caption: JsValue

    /** Created hidden: the caption is hidden and the line has no coordinates yet. */
    constructor (caption: JsValue)
      ensures !visible && x == None && this.caption == caption
    {
      visible := false;
      x := None;
      this.caption := caption;
    }

    /** `show`: line and caption at pixel `x`, caption content `caption`. */
    method Show(x: Option<int>, caption: JsValue)
      modifies this
      ensures visible && this.x == x && this.caption == caption
    {
      visible := true;
      this.x := x;
      this.caption := caption;
    }

    /** `hide`: the line gets `display: none` and the caption is hidden; nothing else changes. */
    method Hide()
      modifies this
      ensures !visible && x == old(x) && caption == old(caption)
    {
      visible := false;
    }
  }

  /** The tooltip box of the value-list variants. */
  class SeriesTooltip {
    const alphaNumerate: nat -> string
    var visible: bool
    var html: string
    var left: Option<int>

    constructor (alphaNumerate: nat -> string)
      ensures this.alphaNumerate == alphaNumerate && !visible && html == "" && left == None
    {
      this.alphaNumerate := alphaNumerate;
      visible := false;
      html := "";
      left := None;
    }

    /** `show(index, header, values)`: render the markup, place it at `coords[index]`, show it. */
    method Show(left: Option<int>, header: JsValue, values: seq<JsValue>)
      modifies this
      ensures visible && this.left == left
      ensures html == SeriesMarkup(header, values, alphaNumerate)
    {
      html := SeriesMarkup(header, values, alphaNumerate);
      this.left := left;
      visible := true;
    }

    method Hide()
      modifies this
      ensures !visible && html == old(html) && left == old(left)
    {
      visible := false;
    }
  }
}
