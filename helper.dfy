/**
 * The two pieces of plain logic in ZHHNumberKeyboardHelper: the selected range of a
 * text input as an NSRange, and the darker highlight colour derived from a colour.
 */
module KeyboardHelper {
  import opened Wrappers

  /** A selected text range, given by the integer positions of its two ends
      (what UITextRange's `start` and `end` stand for). */
  datatype TextRange = TextRange(start: int, end: int)

  /** A location and a length, in characters. */
  datatype NSRange = NSRange(location: int, length: int)

  /** `selectedRange(in:)`: with no selected text range the result is (0, 0); otherwise
      the location is the offset from the beginning of the document to the selection's
      start and the length is the offset from the selection's start to its end.
      The two ends of the selection can be recovered from the result. */
  function SelectedRange(beginning: int, selected: Option<TextRange>): (r: NSRange)
    ensures selected.None? ==> r == NSRange(0, 0)
    ensures selected.Some? ==> beginning + r.location == selected.value.start
    ensures selected.Some? ==> selected.value.start + r.length == selected.value.end
  {
    match selected
    case None => NSRange(0, 0)
    case Some(sel) =>
      var location := sel.start - beginning;
      var length := sel.end - sel.start;
      NSRange(location, length)
  }

  /** A caret (a selection whose ends coincide) gives a range of length 0, and a
      selection that runs forwards gives a non-negative length. */
  lemma CaretHasNoLength(beginning: int, sel: TextRange)
    ensures SelectedRange(beginning, Some(sel)).length == 0 <==> sel.start == sel.end
    ensures sel.start <= sel.end ==> SelectedRange(beginning, Some(sel)).length >= 0
  {
  }

  /** Hue, saturation, brightness and alpha of a colour, as `getHue` reports them. */
  datatype Hsba = Hsba(hue: real, saturation: real, brightness: real, alpha: real)

  /** The step of `darken` once the components are known: brightness goes down by
      `amount` but not below zero; hue, saturation and alpha are kept. */
  function Dimmed(c: Hsba, amount: real): (r: Hsba)
    ensures r.hue == c.hue && r.saturation == c.saturation && r.alpha == c.alpha
    ensures r.brightness >= 0.0
    ensures r.brightness >= c.brightness - amount
    ensures r.brightness == c.brightness - amount || r.brightness == 0.0
    ensures amount >= 0.0 && c.brightness >= 0.0 ==> r.brightness <= c.brightness
  {
    c.(brightness := if 0.0 >= c.brightness - amount then 0.0 else c.brightness - amount)
  }

  /** `darken(_:by:)`. The colour-space conversion is the platform's and may fail:
      `getHue` stands for `UIColor.getHue(_:saturation:brightness:alpha:)` (None when it
      returns false) and `fromHsba` for `UIColor(hue:saturation:brightness:alpha:)`. */
  function Darken<C>(color: C, amount: real, getHue: C -> Option<Hsba>, fromHsba: Hsba -> C): C
  {
    if !(amount >= 0.0 && amount <= 1.0) then
      color
    else
      match getHue(color)
      case Some(hsba) => fromHsba(Dimmed(hsba, amount))
      case None => color
  }

  /** What `darken` promises, on every input: an amount outside [0, 1] or a colour without
      HSB components gives the colour back; otherwise the result is built from the same
      hue, saturation and alpha and a brightness of max(0, b - amount), which lies in
      [0, b] whenever b is. */
  lemma DarkenCases<C>(color: C, amount: real, getHue: C -> Option<Hsba>, fromHsba: Hsba -> C)
    ensures !(0.0 <= amount <= 1.0) ==> Darken(color, amount, getHue, fromHsba) == color
    ensures getHue(color).None? ==> Darken(color, amount, getHue, fromHsba) == color
    ensures 0.0 <= amount <= 1.0 && getHue(color).Some? ==>
      exists d: Hsba ::
        && Darken(color, amount, getHue, fromHsba) == fromHsba(d)
        && d.hue == getHue(color).value.hue
        && d.saturation == getHue(color).value.saturation
        && d.alpha == getHue(color).value.alpha
        && d.brightness >= 0.0
        && d.brightness >= getHue(color).value.brightness - amount
        && (getHue(color).value.brightness >= 0.0 ==> d.brightness <= getHue(color).value.brightness)
        && (d.brightness == 0.0 || d.brightness == getHue(color).value.brightness - amount)
  {
    if 0.0 <= amount <= 1.0 && getHue(color).Some? {
      var d := Dimmed(getHue(color).value, amount);
      assert Darken(color, amount, getHue, fromHsba) == fromHsba(d);
    }
  }

  /** When the platform's conversion round-trips on the darkened components (reading back
      the colour built from them gives them back), the darkened colour reads back with
      the original hue, saturation and alpha and a brightness no greater than before. */
  lemma DarkenReadsBackDarker<C>(color: C, amount: real, getHue: C -> Option<Hsba>, fromHsba: Hsba -> C)
    requires getHue(color).Some? && getHue(color).value.brightness >= 0.0
    requires getHue(fromHsba(Dimmed(getHue(color).value, amount))) == Some(Dimmed(getHue(color).value, amount))
    ensures getHue(Darken(color, amount, getHue, fromHsba)).Some?
    ensures var before, after := getHue(color).value, getHue(Darken(color, amount, getHue, fromHsba)).value;
      && after.hue == before.hue && after.saturation == before.saturation && after.alpha == before.alpha
      && 0.0 <= after.brightness <= before.brightness
  {
    if 0.0 <= amount <= 1.0 {
      assert getHue(fromHsba(Dimmed(getHue(color).value, amount))) == Some(Dimmed(getHue(color).value, amount));
    }
  }
}
