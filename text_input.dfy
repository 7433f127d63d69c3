/**
 * The focused text control the keyboard types into: a UITextField, a UITextView or
 * another UIKeyInput view, abstracted as a character sequence with a selection and,
 * for text fields and text views, the delegate that may veto a change.
 */
module TextInput {
  import opened KeyboardHelper

  /** The text of the control and its selection [selStart, selEnd), as character offsets. */
  datatype EditState = EditState(text: string, selStart: int, selEnd: int) {
    predicate Valid() {
      0 <= selStart <= selEnd <= |text|
    }

    /** The selection as a text range of document positions (the document begins at 0). */
    function Selection(): TextRange {
      TextRange(selStart, selEnd)
    }
  }

  /** `insertText(_:)`: the string replaces the selection and the caret is put after it;
      what came before the selection and what came after it are kept. */
  function Inserted(e: EditState, s: string): (r: EditState)
    requires e.Valid()
    ensures r.Valid() && r.selStart == r.selEnd == e.selStart + |s|
    ensures r.text[..r.selStart] == e.text[..e.selStart] + s
    ensures r.text[r.selEnd..] == e.text[e.selEnd..]
    ensures |r.text| == |e.text| - (e.selEnd - e.selStart) + |s|
  {
    var text := e.text[..e.selStart] + s + e.text[e.selEnd..];
    assert text[..e.selStart + |s|] == e.text[..e.selStart] + s;
    assert text[e.selStart + |s|..] == e.text[e.selEnd..];
    EditState(text, e.selStart + |s|, e.selStart + |s|)
  }

  /** `deleteBackward()`: a non-empty selection is removed; otherwise the character
      before the caret is removed; at the start of the text nothing happens. The text
      after the selection is always kept. */
  function DeletedBackward(e: EditState): (r: EditState)
    requires e.Valid()
    ensures r.Valid() && r.selStart == r.selEnd
    ensures r.text[r.selEnd..] == e.text[e.selEnd..]
    ensures e.selStart < e.selEnd ==>
      r.selStart == e.selStart && r.text[..r.selStart] == e.text[..e.selStart]
    ensures e.selStart == e.selEnd > 0 ==>
      r.selStart == e.selStart - 1 && r.text[..r.selStart] == e.text[..e.selStart - 1]
    ensures e.selStart == e.selEnd == 0 ==> r == e
    ensures |r.text| < |e.text| <==> e.selStart < e.selEnd || e.selStart > 0
  {
    if e.selStart < e.selEnd then
      var text := e.text[..e.selStart] + e.text[e.selEnd..];
      assert text[..e.selStart] == e.text[..e.selStart];
      assert text[e.selStart..] == e.text[e.selEnd..];
      EditState(text, e.selStart, e.selStart)
    else if e.selStart > 0 then
      var text := e.text[..e.selStart - 1] + e.text[e.selStart..];
      assert text[..e.selStart - 1] == e.text[..e.selStart - 1];
      assert text[e.selStart - 1..] == e.text[e.selStart..];
      EditState(text, e.selStart - 1, e.selStart - 1)
    else
      e
  }

  /** The delegate of a text field or text view, as far as the should-change question goes:
      no delegate, a delegate without the method, or a delegate that answers
      (given the current text, the range to replace and the replacement string). */
  datatype Veto = NoDelegate | NoMethod | Answers(shouldChange: (string, NSRange, string) -> bool)

  /** The answer to the should-change question; a missing delegate or method counts as yes. */
  function Allows(v: Veto, text: string, range: NSRange, s: string): (b: bool)
    ensures !v.Answers? ==> b
  {
    match v
    case Answers(shouldChange) => shouldChange(text, range, s)
    case _ => true
  }

  /** What kind of key-input control is focused. */
  datatype InputKind = TextField(fieldDelegate: Veto) | TextView(viewDelegate: Veto) | OtherKeyInput

  /** A focused control whose text, selection and first-responder status change in place. */
  class Responder {
    const kind: InputKind
    var text: string
    var selStart: int
    var selEnd: int
    var isFirstResponder: bool

    function State(): EditState
      reads this
    {
      EditState(text, selStart, selEnd)
    }

    ghost predicate Valid()
      reads this
    {
      State().Valid()
    }

    constructor (kind: InputKind, text: string, selStart: int, selEnd: int)
      requires 0 <= selStart <= selEnd <= |text|
      ensures Valid() && this.kind == kind && State() == EditState(text, selStart, selEnd)
      ensures isFirstResponder
    {
      this.kind := kind;
      this.text := text;
      this.selStart := selStart;
      this.selEnd := selEnd;
      this.isFirstResponder := true;
    }

    /** `hasText` of UIKeyInput. */
    function HasText(): bool
      reads this
    {
      |text| > 0
    }

    method InsertText(s: string)
      requires Valid()
      modifies this
      ensures Valid() && State() == Inserted(old(State()), s)
      ensures isFirstResponder == old(isFirstResponder)
    {
      var r := Inserted(State(), s);
      text, selStart, selEnd := r.text, r.selStart, r.selEnd;
    }

    method DeleteBackward()
      requires Valid()
      modifies this
      ensures Valid() && State() == DeletedBackward(old(State()))
      ensures isFirstResponder == old(isFirstResponder)
    {
      var r := DeletedBackward(State());
      text, selStart, selEnd := r.text, r.selStart, r.selEnd;
    }

    method ResignFirstResponder()
      modifies this
      ensures !isFirstResponder && State() == old(State())
    {
      isFirstResponder := false;
    }
  }
}
