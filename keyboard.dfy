/**
 * ZHHNumberKeyboard: the keyboard view's own state (its 14 buttons, the keyboard type,
 * the done-button colour, the delete display link and the bound first responder) and
 * the operations that change it: building the buttons, re-titling and re-colouring them,
 * enabling the done key, routing a key press to the focused control, and the press-and-hold
 * delete machine driven by gesture states and display-link ticks.
 */
module NumberKeyboard {
  import opened Wrappers
  import opened KeyboardHelper
  import opened KeyTable
  import opened TextInput

  /** The colours the keyboard uses and the platform's colour-space conversion, which `darken` needs. */
  datatype Palette<!C> = Palette(
    buttonBackground: C,
    buttonHighlight: C,
    defaultDoneBackground: C,
    getHue: C -> Option<Hsba>,
    fromHsba: Hsba -> C)

  /** A key button as far as the keyboard reads or changes it. */
  datatype Button<C> = Button(
    tag: int,
    title: Option<string>,
    normalBackground: C,
    highlightedBackground: C,
    isEnabled: bool,
    alpha: real,
    isHighlighted: bool)

  /** The done key's highlighted background: its normal background darkened by 0.1. */
  function DoneHighlight<C>(p: Palette<C>, doneColor: C): C
  {
    Darken(doneColor, 0.1, p.getHue, p.fromHsba)
  }

  /** The button `initUI` creates at index i. */
  function InitialButton<C>(i: int, p: Palette<C>, kt: KeyboardType, doneColor: C): Button<C>
    requires 0 <= i < ButtonCount
  {
    var tag := TagAt(i);
    Button(tag, TitleAt(i, kt),
           if tag != TagDone then p.buttonBackground else doneColor,
           if tag != TagDone then p.buttonHighlight else DoneHighlight(p, doneColor),
           true, 1.0, false)
  }

  /** All 14 buttons `initUI` creates, in order. */
  function InitialButtons<C>(p: Palette<C>, kt: KeyboardType, doneColor: C): seq<Button<C>>
  {
    seq(ButtonCount, i requires 0 <= i < ButtonCount => InitialButton(i, p, kt, doneColor))
  }

  /** The buttons' tags are those of the table, in order. */
  ghost predicate TagsAsBuilt<C>(bs: seq<Button<C>>)
  {
    |bs| == ButtonCount && forall i :: 0 <= i < |bs| ==> bs[i].tag == TagAt(i)
  }

  /** The buttons `initUI` builds: tags and titles from the table, every button enabled,
      opaque and not highlighted; the done key coloured with the done colour and its
      darkened highlight, every other key with the plain button colours. On either
      keyboard type the title of each text-inserting key is the text it inserts. */
  lemma InitialButtonsTable<C>(p: Palette<C>, kt: KeyboardType, doneColor: C)
    ensures TagsAsBuilt(InitialButtons(p, kt, doneColor))
    ensures forall i :: 0 <= i < ButtonCount ==>
      var b := InitialButtons(p, kt, doneColor)[i];
      && b.title == TitleAt(i, kt) && b.isEnabled && b.alpha == 1.0 && !b.isHighlighted
      && (b.tag == TagDone ==> b.normalBackground == doneColor && b.highlightedBackground == DoneHighlight(p, doneColor))
      && (b.tag != TagDone ==> b.normalBackground == p.buttonBackground && b.highlightedBackground == p.buttonHighlight)
      && (Dispatch(b.tag, kt).Insert? ==> b.title == Some(Dispatch(b.tag, kt).text))
  {
    forall i | 0 <= i < ButtonCount
      ensures var b := InitialButtons(p, kt, doneColor)[i];
        Dispatch(b.tag, kt).Insert? ==> b.title == Some(Dispatch(b.tag, kt).text)
    {
      TitlesMatchInsertedText(i, kt);
    }
  }

  /** `updateKeyboardLayout` applied to one button. */
  function LaidOut<C>(b: Button<C>, p: Palette<C>, kt: KeyboardType, doneColor: C): Button<C>
  {
    if b.tag == TagDot then b.(title := Some(DotTitle(kt)))
    else if b.tag == TagDone then b.(normalBackground := doneColor, highlightedBackground := DoneHighlight(p, doneColor))
    else b
  }

  /** `updateKeyboardLayout` applied to every button. */
  function LaidOutAll<C>(bs: seq<Button<C>>, p: Palette<C>, kt: KeyboardType, doneColor: C): seq<Button<C>>
  {
    seq(|bs|, i requires 0 <= i < |bs| => LaidOut(bs[i], p, kt, doneColor))
  }

  /** `updateKeyboardLayout` changes nothing but the title of the tag-46 buttons, which
      becomes the text that key inserts for the new type, and the two backgrounds of the
      tag -2 buttons; every other button is left as it was. */
  lemma LayoutChangesOnlyDotTitleAndDoneColours<C>(bs: seq<Button<C>>, p: Palette<C>, kt: KeyboardType, doneColor: C)
    ensures |LaidOutAll(bs, p, kt, doneColor)| == |bs|
    ensures forall i :: 0 <= i < |bs| ==>
      var b, r := bs[i], LaidOutAll(bs, p, kt, doneColor)[i];
      && r.tag == b.tag && r.isEnabled == b.isEnabled && r.alpha == b.alpha && r.isHighlighted == b.isHighlighted
      && (r.title != b.title ==> b.tag == TagDot)
      && (b.tag == TagDot ==> r.title == Some(Dispatch(TagDot, kt).text))
      && (r.normalBackground != b.normalBackground || r.highlightedBackground != b.highlightedBackground ==> b.tag == TagDone)
      && (b.tag == TagDone ==> r.normalBackground == doneColor && r.highlightedBackground == DoneHighlight(p, doneColor))
      && (b.tag != TagDot && b.tag != TagDone ==> r == b)
  {
    DotTitleIsDotText(kt);
  }

  /** `updateDoneButtonState` applied to one button. */
  function WithDoneState<C>(b: Button<C>, hasInput: bool): Button<C>
  {
    if b.tag == TagDone then b.(isEnabled := hasInput, alpha := if hasInput then 1.0 else 0.7) else b
  }

  /** `updateDoneButtonState` applied to every button. */
  function DoneStateAll<C>(bs: seq<Button<C>>, hasInput: bool): seq<Button<C>>
  {
    seq(|bs|, i requires 0 <= i < |bs| => WithDoneState(bs[i], hasInput))
  }

  /** After `updateDoneButtonState(hasInput:)` every tag -2 button is enabled iff there is
      input, with alpha 1.0 when enabled and 0.7 when not; nothing else about it and
      nothing about any other button changes. */
  lemma DoneStateOnlyTouchesDoneKey<C>(bs: seq<Button<C>>, hasInput: bool)
    ensures |DoneStateAll(bs, hasInput)| == |bs|
    ensures forall i :: 0 <= i < |bs| ==>
      var b, r := bs[i], DoneStateAll(bs, hasInput)[i];
      && (b.tag == TagDone ==> (r.isEnabled <==> hasInput) && r.alpha == (if r.isEnabled then 1.0 else 0.7))
      && r.(isEnabled := b.isEnabled, alpha := b.alpha) == b
      && (b.tag != TagDone ==> r == b)
  {
  }

  /** `viewWithTag(_:)` over the keyboard's buttons: the index of the first button with the
      tag (the keyboard view, the separator and the buttons' inner views all have tag 0). */
  function FirstWithTag<C>(bs: seq<Button<C>>, tag: int): (r: Option<int>)
    ensures r.Some? ==> 0 <= r.value < |bs| && bs[r.value].tag == tag
    ensures r.Some? ==> forall j :: 0 <= j < r.value ==> bs[j].tag != tag
    ensures r.None? <==> forall j :: 0 <= j < |bs| ==> bs[j].tag != tag
  {
    if bs == [] then None
    else if bs[0].tag == tag then Some(0)
    else
      match FirstWithTag(bs[1..], tag)
      case Some(k) => Some(k + 1)
      case None => None
  }

  /** `viewWithTag` reads only the tags: buttons with the same tags give the same answer. */
  lemma {:induction false} FirstWithTagReadsTags<C>(bs: seq<Button<C>>, cs: seq<Button<C>>, tag: int)
    requires |bs| == |cs| && forall i :: 0 <= i < |bs| ==> bs[i].tag == cs[i].tag
    ensures FirstWithTag(bs, tag) == FirstWithTag(cs, tag)
    decreases |bs|
  {
    if bs != [] && bs[0].tag != tag {
      FirstWithTagReadsTags(bs[1..], cs[1..], tag);
    }
  }

  /** On the buttons as built, the delete key (tag 127) is found at index 11. */
  lemma DeleteKeyIsAtEleven<C>(bs: seq<Button<C>>)
    requires TagsAsBuilt(bs)
    ensures FirstWithTag(bs, TagDelete) == Some(11)
  {
    assert bs[11].tag == TagAt(11);
  }

  /** Re-laying out the buttons and updating the done key keep every tag. */
  lemma UpdatesKeepTags<C>(bs: seq<Button<C>>, p: Palette<C>, kt: KeyboardType, doneColor: C, hasInput: bool)
    requires TagsAsBuilt(bs)
    ensures TagsAsBuilt(LaidOutAll(bs, p, kt, doneColor))
    ensures TagsAsBuilt(DoneStateAll(bs, hasInput))
  {
  }

  /** `handleDeleteButtonTap`: delete backward only when the control has text. */
  function DeleteTap(e: EditState): (r: EditState)
    requires e.Valid()
    ensures r.Valid()
    ensures |e.text| == 0 ==> r == e
  {
    if |e.text| > 0 then DeletedBackward(e) else e
  }

  /** The selection of a control as `selectedRange(in:)` reports it. */
  function SelectionRange(e: EditState): NSRange
  {
    SelectedRange(0, Some(e.Selection()))
  }

  /** `insertText(_:)` of the keyboard on the bound control: a text field or text view takes
      the text iff its delegate allows the change of the selected range; any other key-input
      control always takes it. */
  function InsertEffect(kind: InputKind, e: EditState, s: string): EditState
    requires e.Valid()
  {
    match kind
    case TextField(v) => if Allows(v, e.text, SelectionRange(e), s) then Inserted(e, s) else e
    case TextView(v) => if Allows(v, e.text, SelectionRange(e), s) then Inserted(e, s) else e
    case OtherKeyInput => Inserted(e, s)
  }

  /** The effect of a key's action on the bound control's text and selection. */
  function ActionEffect(a: Action, kind: InputKind, e: EditState): (r: EditState)
    requires e.Valid()
    ensures r.Valid()
  {
    match a
    case Insert(s) => InsertEffect(kind, e, s)
    case Delete => DeleteTap(e)
    case Done => e
    case Ignore => e
  }

  /** What the delete long-press logic reads and changes: the bound control's text state
      (None: no bound control), whether the display link exists, and the delete key's highlight. */
  datatype PressState = PressState(input: Option<EditState>, linkActive: bool, highlighted: bool)

  predicate PressValid(s: PressState)
  {
    s.input.Some? ==> s.input.value.Valid()
  }

  /** The states a long-press gesture reports to its action. */
  datatype GestureState = Possible | Began | Changed | Ended | Cancelled | Failed

  /** `deleteItemLongPress` once the delete key is found. */
  function PressStep(g: GestureState, s: PressState): (r: PressState)
    requires PressValid(s)
    ensures PressValid(r)
  {
    match g
    case Began =>
      var input := if s.input.Some? && |s.input.value.text| > 0 then Some(DeleteTap(s.input.value)) else s.input;
      PressState(input, true, true)
    case Ended => s.(linkActive := false, highlighted := false)
    case Cancelled => s.(linkActive := false, highlighted := false)
    case Failed => s.(linkActive := false, highlighted := false)
    case Possible => s
    case Changed => s
  }

  /** `repeatLongPressDelete`, one display-link tick: delete while there is text, else stop the link. */
  function TickStep(s: PressState): (r: PressState)
    requires PressValid(s)
    ensures PressValid(r) && r.highlighted == s.highlighted
  {
    if s.input.Some? && |s.input.value.text| > 0 then s.(input := Some(DeleteTap(s.input.value)))
    else s.(linkActive := false)
  }

  /** n display-link ticks in a row. */
  function Ticks(s: PressState, n: nat): (r: PressState)
    requires PressValid(s)
    ensures PressValid(r) && r.highlighted == s.highlighted
    decreases n
  {
    if n == 0 then s else Ticks(TickStep(s), n - 1)
  }

  /** `began` turns the highlight on and starts the link, and deletes at most once:
      only when the control has text, by one backward delete. */
  lemma BeganDeletesAtMostOnce(s: PressState)
    requires PressValid(s)
    ensures PressStep(Began, s).highlighted && PressStep(Began, s).linkActive
    ensures s.input.None? ==> PressStep(Began, s).input.None?
    ensures s.input.Some? && |s.input.value.text| == 0 ==> PressStep(Began, s).input == s.input
    ensures s.input.Some? && |s.input.value.text| > 0 ==> PressStep(Began, s).input == Some(DeletedBackward(s.input.value))
  {
  }

  /** Releasing the key (`ended`, `cancelled` or `failed`) always clears both the link and
      the highlight, and deletes nothing; other gesture states change nothing. */
  lemma ReleaseClearsLinkAndHighlight(g: GestureState, s: PressState)
    requires PressValid(s)
    ensures g in {Ended, Cancelled, Failed} ==> PressStep(g, s) == PressState(s.input, false, false)
    ensures g in {Possible, Changed} ==> PressStep(g, s) == s
  {
  }

  /** A tick never deletes on empty text: it stops the link instead, and so does a tick
      with no bound control; the highlight stays. */
  lemma TickNeverDeletesOnEmpty(s: PressState)
    requires PressValid(s)
    requires s.input.None? || |s.input.value.text| == 0
    ensures TickStep(s) == s.(linkActive := false)
  {
  }

  lemma {:induction false} TicksLast(s: PressState, n: nat)
    requires PressValid(s)
    ensures Ticks(s, n + 1) == TickStep(Ticks(s, n))
    decreases n
  {
    if n > 0 {
      TicksLast(TickStep(s), n - 1);
    }
  }

  lemma {:induction false} TicksAdd(s: PressState, m: nat, n: nat)
    requires PressValid(s)
    ensures Ticks(s, m + n) == Ticks(Ticks(s, m), n)
    decreases m
  {
    if m > 0 {
      TicksAdd(TickStep(s), m - 1, n);
    }
  }

  /** With a caret at offset k, k ticks delete exactly the k characters before it; the
      link keeps running, the highlight stays and the text after the caret is kept. */
  lemma {:induction false} TicksDeleteBeforeCaret(s: PressState, e: EditState)
    requires s.input == Some(e) && e.Valid() && e.selStart == e.selEnd
    ensures Ticks(s, e.selStart) == s.(input := Some(EditState(e.text[e.selStart..], 0, 0)))
    decreases e.selStart
  {
    if e.selStart == 0 {
      assert e.text[0..] == e.text;
    } else {
      var e' := DeletedBackward(e);
      assert TickStep(s) == s.(input := Some(e'));
      TicksDeleteBeforeCaret(s.(input := Some(e')), e');
    }
  }

  /** A run of ticks removes the selection (one tick, if it is not empty) and then every
      character before it, leaving the text after the selection with the caret at 0. */
  lemma TicksDrainBeforeSelection(s: PressState, e: EditState)
    requires s.input == Some(e) && e.Valid()
    ensures Ticks(s, e.selStart + (if e.selStart < e.selEnd then 1 else 0))
         == s.(input := Some(EditState(e.text[e.selEnd..], 0, 0)))
  {
    if e.selStart < e.selEnd {
      var e' := DeletedBackward(e);
      assert TickStep(s) == s.(input := Some(e'));
      TicksDeleteBeforeCaret(s.(input := Some(e')), e');
    } else {
      TicksDeleteBeforeCaret(s, e);
    }
  }

  /** Once the caret is at the start and text remains after it, ticks change nothing at all:
      the control still has text, so the link is never stopped by a tick. */
  lemma {:induction false} TicksStallAtStart(s: PressState, t: string, n: nat)
    requires s.input == Some(EditState(t, 0, 0)) && |t| > 0
    ensures Ticks(s, n) == s
    decreases n
  {
    if n > 0 {
      assert TickStep(s) == s;
      TicksStallAtStart(s, t, n - 1);
    }
  }

  /** The usual case, the caret at the end of the text: |text| ticks drain the text, and the
      next tick stops the link, while the highlight stays on. */
  lemma TicksDrainWholeText(s: PressState, e: EditState)
    requires s.input == Some(e) && e.Valid() && e.selStart == e.selEnd == |e.text|
    ensures Ticks(s, |e.text|) == s.(input := Some(EditState("", 0, 0)))
    ensures Ticks(s, |e.text| + 1) == PressState(Some(EditState("", 0, 0)), false, s.highlighted)
  {
    TicksDeleteBeforeCaret(s, e);
    assert e.text[|e.text|..] == "";
    TicksLast(s, |e.text|);
  }

  /** The keyboard view. Fields mirror the source's stored properties; the display link is
      modelled by whether it exists, and the click sounds, haptic impacts and done-delegate
      calls are counted. */
  class Keyboard<C> {
    const palette: Palette<C>
    var keyboardType: KeyboardType
    var doneButtonBackgroundColor: C
    var enableClickSound: bool
    var enableHapticFeedback: bool
    /** A delegate that implements `numberKeyboardDidTapDone` is attached. */
    var hasDoneDelegate: bool
    var buttons: seq<Button<C>>
    /** `deleteDisplayLink != nil`. */
    var deleteDisplayLinkActive: bool
    var firstResponder: Responder?
    var clickSounds: nat
    var hapticImpacts: nat
    var doneCallbacks: nat

    ghost predicate Valid()
      reads this, firstResponder
    {
      firstResponder != null ==> firstResponder.Valid()
    }

    /** The highlight of the delete key, the button `viewWithTag(127)` finds. */
    function DeleteKeyHighlighted(): bool
      reads this
    {
      match FirstWithTag(buttons, TagDelete)
      case Some(i) => buttons[i].isHighlighted
      case None => false
    }

    function Snapshot(): (s: PressState)
      reads this, firstResponder
      requires Valid()
      ensures PressValid(s)
    {
      PressState(if firstResponder == null then None else Some(firstResponder.State()),
                 deleteDisplayLinkActive, DeleteKeyHighlighted())
    }

    /** `init(frame:)`: default properties, then `initUI`. */
    constructor (palette: Palette<C>)
      ensures Valid() && this.palette == palette
      ensures keyboardType == Decimal && doneButtonBackgroundColor == palette.defaultDoneBackground
      ensures buttons == InitialButtons(palette, Decimal, palette.defaultDoneBackground)
      ensures enableClickSound && enableHapticFeedback && !hasDoneDelegate
      ensures !deleteDisplayLinkActive && firstResponder == null
      ensures clickSounds == 0 && hapticImpacts == 0 && doneCallbacks == 0
    {
      this.palette := palette;
      keyboardType := Decimal;
      doneButtonBackgroundColor := palette.defaultDoneBackground;
      enableClickSound := true;
      enableHapticFeedback := true;
      hasDoneDelegate := false;
      deleteDisplayLinkActive := false;
      firstResponder := null;
      clickSounds, hapticImpacts, doneCallbacks := 0, 0, 0;
      buttons := [];
      new;
      InitUI();
    }

    /** `initUI`: create the 14 buttons in index order. */
    method InitUI()
      modifies this`buttons
      ensures buttons == InitialButtons(palette, keyboardType, doneButtonBackgroundColor)
    {
      buttons := [];
      for i := 0 to ButtonCount
        invariant |buttons| == i
        invariant forall j :: 0 <= j < i ==> buttons[j] == InitialButton(j, palette, keyboardType, doneButtonBackgroundColor)
      {
        var tag: int;
        var title: Option<string> := None;
        if i == 10 {
          tag := TagDot;
          if keyboardType == Decimal {
            title := Some(".");
          } else if keyboardType == IdCard {
            title := Some("X");
          }
        } else if i == 11 {
          tag := TagDelete;
        } else if i == 12 {
          tag := TagDone;
          title := Some("确定");
        } else {
          if i < 9 {
            tag := 49 + i;
            title := Some(DecimalString(i + 1));
          } else {
            tag := TagZero;
            title := Some("0");
          }
        }
        var normal: C, highlighted: C;
        if tag != TagDone {
          normal, highlighted := palette.buttonBackground, palette.buttonHighlight;
        } else {
          highlighted := Darken(doneButtonBackgroundColor, 0.1, palette.getHue, palette.fromHsba);
          normal := doneButtonBackgroundColor;
        }
        buttons := buttons + [Button(tag, title, normal, highlighted, true, 1.0, false)];
      }
    }

    /** `updateKeyboardLayout`: re-title the dot key and re-colour the done key. */
    method UpdateKeyboardLayout()
      modifies this`buttons
      ensures buttons == LaidOutAll(old(buttons), palette, keyboardType, doneButtonBackgroundColor)
    {
      var i := 0;
      while i < |buttons|
        invariant 0 <= i <= |buttons| == |old(buttons)|
        invariant forall j :: 0 <= j < i ==> buttons[j] == LaidOut(old(buttons)[j], palette, keyboardType, doneButtonBackgroundColor)
        invariant forall j :: i <= j < |buttons| ==> buttons[j] == old(buttons)[j]
      {
        var button := buttons[i];
        if button.tag == TagDot {
          if keyboardType == Decimal {
            button := button.(title := Some("."));
          } else if keyboardType == IdCard {
            button := button.(title := Some("X"));
          }
        } else if button.tag == TagDone {
          var highlightColor := Darken(doneButtonBackgroundColor, 0.1, palette.getHue, palette.fromHsba);
          button := button.(normalBackground := doneButtonBackgroundColor, highlightedBackground := highlightColor);
        }
        buttons := buttons[i := button];
        i := i + 1;
      }
    }

    /** Setting `keyboardType` runs `updateKeyboardLayout` (its `didSet`). */
    method SetKeyboardType(kt: KeyboardType)
      modifies this`keyboardType, this`buttons
      ensures keyboardType == kt
      ensures buttons == LaidOutAll(old(buttons), palette, kt, doneButtonBackgroundColor)
    {
      keyboardType := kt;
      UpdateKeyboardLayout();
    }

    /** Setting `doneButtonBackgroundColor` runs `updateKeyboardLayout` (its `didSet`). */
    method SetDoneButtonBackgroundColor(c: C)
      modifies this`doneButtonBackgroundColor, this`buttons
      ensures doneButtonBackgroundColor == c
      ensures buttons == LaidOutAll(old(buttons), palette, keyboardType, c)
    {
      doneButtonBackgroundColor := c;
      UpdateKeyboardLayout();
    }

    /** Assigning the keyboard's `delegate` and the feedback switches. */
    method Configure(clickSound: bool, hapticFeedback: bool, doneDelegate: bool)
      modifies this`enableClickSound, this`enableHapticFeedback, this`hasDoneDelegate
      ensures enableClickSound == clickSound && enableHapticFeedback == hapticFeedback
      ensures hasDoneDelegate == doneDelegate
    {
      enableClickSound, enableHapticFeedback, hasDoneDelegate := clickSound, hapticFeedback, doneDelegate;
    }

    /** `updateDoneButtonState(hasInput:)`. */
    method UpdateDoneButtonState(hasInput: bool)
      modifies this`buttons
      ensures buttons == DoneStateAll(old(buttons), hasInput)
    {
      var i := 0;
      while i < |buttons|
        invariant 0 <= i <= |buttons| == |old(buttons)|
        invariant forall j :: 0 <= j < i ==> buttons[j] == WithDoneState(old(buttons)[j], hasInput)
        invariant forall j :: i <= j < |buttons| ==> buttons[j] == old(buttons)[j]
      {
        if buttons[i].tag == TagDone {
          buttons := buttons[i := buttons[i].(isEnabled := hasInput, alpha := if hasInput then 1.0 else 0.7)];
        }
        i := i + 1;
      }
    }

    /** `keyboardInputDidChange(_:)`: the done key is enabled iff the text is not empty. */
    method KeyboardInputDidChange(currentText: string)
      modifies this`buttons
      ensures buttons == DoneStateAll(old(buttons), |currentText| > 0)
    {
      UpdateDoneButtonState(|currentText| > 0);
    }

    /** `insertText(_:)`: no bound control, no effect; a text field or text view asks its
        delegate about the selected range first; any other control always takes the text. */
    method InsertText(text: string)
      requires Valid()
      modifies firstResponder
      ensures Valid()
      ensures firstResponder != null ==>
        && firstResponder.State() == InsertEffect(firstResponder.kind, old(firstResponder.State()), text)
        && firstResponder.isFirstResponder == old(firstResponder.isFirstResponder)
    {
      if firstResponder == null {
        return;
      }
      var responder := firstResponder;
      match responder.kind {
        case TextField(delegate) =>
          var range := SelectedRange(0, Some(responder.State().Selection()));
          var nsRange := NSRange(range.location, range.length);
          var shouldInsert := true;
          match delegate {
            case NoDelegate =>
            case NoMethod => shouldInsert := true;
            case Answers(shouldChange) => shouldInsert := shouldChange(responder.text, nsRange, text);
          }
          if shouldInsert {
            responder.InsertText(text);
          }
        case TextView(delegate) =>
          var range := SelectedRange(0, Some(responder.State().Selection()));
          var nsRange := NSRange(range.location, range.length);
          var shouldInsert := true;
          match delegate {
            case NoDelegate =>
            case NoMethod => shouldInsert := true;
            case Answers(shouldChange) => shouldInsert := shouldChange(responder.text, nsRange, text);
          }
          if shouldInsert {
            responder.InsertText(text);
          }
        case OtherKeyInput =>
          responder.InsertText(text);
      }
    }

    /** `handleDeleteButtonTap`: delete backward only if the control has text; the
        delegate is not asked. */
    method HandleDeleteButtonTap()
      requires Valid()
      modifies firstResponder
      ensures Valid()
      ensures firstResponder != null ==>
        && firstResponder.State() == DeleteTap(old(firstResponder.State()))
        && firstResponder.isFirstResponder == old(firstResponder.isFirstResponder)
    {
      if firstResponder != null && firstResponder.HasText() {
        firstResponder.DeleteBackward();
      }
    }

    /** `handleDoneButtonTap`: the control resigns first responder and the delegate is told. */
    method HandleDoneButtonTap()
      requires Valid()
      modifies firstResponder, this`doneCallbacks
      ensures Valid()
      ensures firstResponder != null ==>
        !firstResponder.isFirstResponder && firstResponder.State() == old(firstResponder.State())
      ensures doneCallbacks == old(doneCallbacks) + (if hasDoneDelegate then 1 else 0)
    {
      if firstResponder != null {
        firstResponder.ResignFirstResponder();
      }
      if hasDoneDelegate {
        doneCallbacks := doneCallbacks + 1;
      }
    }

    /** `handleNumberButtonTap(decimal:)`. */
    method HandleNumberButtonTap(decimal: int)
      requires Valid()
      modifies firstResponder
      ensures Valid()
      ensures firstResponder != null ==>
        && firstResponder.State() == InsertEffect(firstResponder.kind, old(firstResponder.State()), DecimalString(decimal))
        && firstResponder.isFirstResponder == old(firstResponder.isFirstResponder)
    {
      InsertText(DecimalString(decimal));
    }

    /** `handleInput(with:)`: the effect on the bound control is that of the tag's action. */
    method HandleInput(tag: int)
      requires Valid()
      modifies firstResponder, this`doneCallbacks
      ensures Valid()
      ensures firstResponder != null ==>
        && firstResponder.State() == ActionEffect(Dispatch(tag, keyboardType), firstResponder.kind, old(firstResponder.State()))
        && firstResponder.isFirstResponder == (old(firstResponder.isFirstResponder) && !Dispatch(tag, keyboardType).Done?)
      ensures doneCallbacks == old(doneCallbacks) + (if Dispatch(tag, keyboardType).Done? && hasDoneDelegate then 1 else 0)
    {
      if tag == TagDot {
        if keyboardType == Decimal {
          InsertText(".");
        } else {
          InsertText("X");
        }
      } else if tag == TagDelete {
        HandleDeleteButtonTap();
      } else if tag == TagDone {
        HandleDoneButtonTap();
      } else if 48 <= tag <= 57 {
        HandleNumberButtonTap(tag - 48);
      }
    }

    /** `cleanDisplayLink`: afterwards there is no display link. */
    method CleanDisplayLink()
      modifies this`deleteDisplayLinkActive
      ensures !deleteDisplayLinkActive
    {
      deleteDisplayLinkActive := false;
    }

    /** Set the highlight of the button at index d, the delete key. */
    method SetHighlighted(d: int, on: bool)
      requires 0 <= d < |buttons|
      modifies this`buttons
      ensures buttons == old(buttons)[d := old(buttons)[d].(isHighlighted := on)]
      ensures FirstWithTag(buttons, TagDelete) == FirstWithTag(old(buttons), TagDelete)
    {
      buttons := buttons[d := buttons[d].(isHighlighted := on)];
      FirstWithTagReadsTags(buttons, old(buttons), TagDelete);
    }

    /** `deleteItemLongPress(_:)`: nothing happens unless `viewWithTag(127)` finds the
        delete key; then the gesture state drives the press machine. Only that key's
        highlight changes among the buttons; a sound and a haptic impact accompany the
        immediate delete of `began`. */
    method DeleteItemLongPress(state: GestureState)
      requires Valid()
      modifies this`buttons, this`deleteDisplayLinkActive, this`clickSounds, this`hapticImpacts, firstResponder
      ensures Valid()
      ensures FirstWithTag(old(buttons), TagDelete).None? ==>
        buttons == old(buttons) && Snapshot() == old(Snapshot()) &&
        clickSounds == old(clickSounds) && hapticImpacts == old(hapticImpacts)
      ensures FirstWithTag(old(buttons), TagDelete).Some? ==> Snapshot() == PressStep(state, old(Snapshot()))
      ensures |buttons| == |old(buttons)|
      ensures forall i :: 0 <= i < |buttons| ==> buttons[i] == old(buttons)[i].(isHighlighted := buttons[i].isHighlighted)
      ensures forall i :: 0 <= i < |buttons| && Some(i) != FirstWithTag(old(buttons), TagDelete) ==> buttons[i] == old(buttons)[i]
      ensures firstResponder != null ==> firstResponder.isFirstResponder == old(firstResponder.isFirstResponder)
      ensures var deleted := FirstWithTag(old(buttons), TagDelete).Some? && state == Began &&
                             firstResponder != null && |old(firstResponder.text)| > 0;
        && clickSounds == old(clickSounds) + (if deleted && enableClickSound then 1 else 0)
        && hapticImpacts == old(hapticImpacts) + (if deleted && enableHapticFeedback then 1 else 0)
    {
      var found := FirstWithTag(buttons, TagDelete);
      if found.None? {
        return;
      }
      var d := found.value;
      if state == Began {
        BeginDeletePress(d);
      } else if state == Ended || state == Cancelled || state == Failed {
        EndDeletePress(d);
      }
    }

    /** The `began` case: highlight the delete key, delete once (with feedback) if the
        control has text, and start the display link. */
    method BeginDeletePress(d: int)
      requires Valid() && FirstWithTag(buttons, TagDelete) == Some(d)
      modifies this`buttons, this`deleteDisplayLinkActive, this`clickSounds, this`hapticImpacts, firstResponder
      ensures Valid()
      ensures buttons == old(buttons)[d := old(buttons)[d].(isHighlighted := true)]
      ensures Snapshot() == PressStep(Began, old(Snapshot()))
      ensures firstResponder != null ==> firstResponder.isFirstResponder == old(firstResponder.isFirstResponder)
      ensures var deleted := firstResponder != null && |old(firstResponder.text)| > 0;
        && clickSounds == old(clickSounds) + (if deleted && enableClickSound then 1 else 0)
        && hapticImpacts == old(hapticImpacts) + (if deleted && enableHapticFeedback then 1 else 0)
    {
      SetHighlighted(d, true);
      if firstResponder != null && firstResponder.HasText() {
        if enableClickSound {
          clickSounds := clickSounds + 1;
        }
        if enableHapticFeedback {
          hapticImpacts := hapticImpacts + 1;
        }
        HandleDeleteButtonTap();
      }
      deleteDisplayLinkActive := true;
    }

    /** The `ended`, `cancelled` and `failed` cases: clear the highlight and the link. */
    method EndDeletePress(d: int)
      requires Valid() && FirstWithTag(buttons, TagDelete) == Some(d)
      modifies this`buttons, this`deleteDisplayLinkActive
      ensures buttons == old(buttons)[d := old(buttons)[d].(isHighlighted := false)]
      ensures Snapshot() == PressStep(Ended, old(Snapshot()))
    {
      SetHighlighted(d, false);
      CleanDisplayLink();
    }

    /** `repeatLongPressDelete`, one display-link tick: the press machine's tick; the
        buttons (and so the highlight) are left alone. */
    method RepeatLongPressDelete()
      requires Valid()
      modifies this`deleteDisplayLinkActive, this`clickSounds, this`hapticImpacts, firstResponder
      ensures Valid()
      ensures Snapshot() == TickStep(old(Snapshot()))
      ensures firstResponder != null ==> firstResponder.isFirstResponder == old(firstResponder.isFirstResponder)
      ensures var deleted := firstResponder != null && |old(firstResponder.text)| > 0;
        && clickSounds == old(clickSounds) + (if deleted && enableClickSound then 1 else 0)
        && hapticImpacts == old(hapticImpacts) + (if deleted && enableHapticFeedback then 1 else 0)
    {
      if firstResponder != null && firstResponder.HasText() {
        if enableClickSound {
          clickSounds := clickSounds + 1;
        }
        if enableHapticFeedback {
          hapticImpacts := hapticImpacts + 1;
        }
        HandleDeleteButtonTap();
      } else {
        CleanDisplayLink();
      }
    }

    /** `buttonTouchUpInside(_:)` for the button at index `sender`. `lookup` is what
        `UIView.zhhkb_firstResponder()` cast to a key-input view gives (null: none). When
        the bound control is missing or no longer first responder, the lookup replaces it,
        and when the lookup gives none the press has no effect at all. Otherwise a click
        sound and a haptic impact are produced (when enabled) and the tag is handled.
        UIKit sends a button's touch-up-inside action only while the button is enabled,
        so a disabled done key never reaches this handler. A control the press does not
        type into is left as it was. */
    method ButtonTouchUpInside(sender: int, lookup: Responder?)
      requires Valid() && 0 <= sender < |buttons| && buttons[sender].isEnabled
      requires lookup != null ==> lookup.Valid()
      modifies this`firstResponder, this`clickSounds, this`hapticImpacts, this`doneCallbacks, firstResponder, lookup
      ensures Valid()
      ensures lookup != null && lookup != firstResponder ==> unchanged(lookup)
      ensures old(firstResponder) != null && old(firstResponder) != firstResponder ==> unchanged(old(firstResponder))
      ensures var stale := old(firstResponder) == null || !old(firstResponder.isFirstResponder);
        stale && lookup == null ==>
          && firstResponder == old(firstResponder)
          && (firstResponder != null ==> unchanged(firstResponder))
          && clickSounds == old(clickSounds) && hapticImpacts == old(hapticImpacts)
          && doneCallbacks == old(doneCallbacks)
      ensures var stale := old(firstResponder) == null || !old(firstResponder.isFirstResponder);
        !(stale && lookup == null) ==>
          && firstResponder == (if stale then lookup else old(firstResponder))
          && clickSounds == old(clickSounds) + (if enableClickSound then 1 else 0)
          && hapticImpacts == old(hapticImpacts) + (if enableHapticFeedback then 1 else 0)
          && var r, a := firstResponder, Dispatch(buttons[sender].tag, keyboardType);
             && r != null
             && r.State() == ActionEffect(a, r.kind, old(r.State()))
             && r.isFirstResponder == (old(r.isFirstResponder) && !a.Done?)
             && doneCallbacks == old(doneCallbacks) + (if a.Done? && hasDoneDelegate then 1 else 0)
    {
      if firstResponder == null || !firstResponder.isFirstResponder {
        if lookup == null {
          return;
        }
        firstResponder := lookup;
      }
      if enableClickSound {
        clickSounds := clickSounds + 1;
      }
      if enableHapticFeedback {
        hapticImpacts := hapticImpacts + 1;
      }
      HandleInput(buttons[sender].tag);
    }
  }
}
