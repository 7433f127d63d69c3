/**
 * The example app's view controller: its `shouldChangeCharactersIn` validator for the
 * amount, ID-card and phone fields, which is the veto the keyboard consults, and the
 * routing of each field to the decimal or the ID-card keyboard.
 */
module ExampleApp {
  import opened Wrappers
  import opened KeyboardHelper
  import opened KeyTable
  import opened TextInput
  import opened NumberKeyboard

  /** The text fields of the screen; `OtherField` is any text field it is not. */
  datatype Field = AmountField | IdCardField | PhoneField | OtherField

  /** The range lies inside the text (otherwise NSString raises an exception). */
  predicate RangeFits(text: string, range: NSRange)
  {
    0 <= range.location && 0 <= range.length && range.location + range.length <= |text|
  }

  /** `NSString.replacingCharacters(in:with:)`. */
  function Replacing(text: string, range: NSRange, s: string): (r: string)
    requires RangeFits(text, range)
    ensures |r| == |text| - range.length + |s|
    ensures r[..range.location] == text[..range.location]
    ensures r[range.location..range.location + |s|] == s
    ensures r[range.location + |s|..] == text[range.location + range.length..]
  {
    var r := text[..range.location] + s + text[range.location + range.length..];
    assert r[..range.location] == text[..range.location];
    assert r[range.location..range.location + |s|] == s;
    assert r[range.location + |s|..] == text[range.location + range.length..];
    r
  }

  /** The candidate text: the current text with the range replaced; a nil text gives "". */
  function CandidateText(text: Option<string>, range: NSRange, s: string): string
    requires text.Some? ==> RangeFits(text.value, range)
  {
    match text
    case Some(t) => Replacing(t, range, s)
    case None => ""
  }

  /** The number of occurrences of c in t. */
  function Count(t: string, c: char): (n: nat)
    ensures n == 0 <==> c !in t
    ensures n <= |t|
  {
    if t == [] then 0 else (if t[0] == c then 1 else 0) + Count(t[1..], c)
  }

  lemma {:induction false} CountAppend(a: string, b: string, c: char)
    ensures Count(a + b, c) == Count(a, c) + Count(b, c)
    decreases |a|
  {
    if a == [] {
      assert a + b == b;
    } else {
      assert (a + b)[1..] == a[1..] + b;
      CountAppend(a[1..], b, c);
    }
  }

  /** `components(separatedBy:)` with a one-character separator: the pieces between the
      separators, in order; there is always one more piece than separators. */
  function Components(t: string, sep: char): (parts: seq<string>)
    ensures |parts| == Count(t, sep) + 1
    ensures forall i :: 0 <= i < |parts| ==> sep !in parts[i]
    decreases |t|
  {
    if t == [] then [""]
    else
      var rest := Components(t[1..], sep);
      if t[0] == sep then [""] + rest
      else [[t[0]] + rest[0]] + rest[1..]
  }

  /** Joining pieces with the separator, the inverse of `Components`. */
  function Joined(parts: seq<string>, sep: char): string
    requires |parts| >= 1
  {
    if |parts| == 1 then parts[0] else parts[0] + [sep] + Joined(parts[1..], sep)
  }

  lemma JoinedCons(p: string, rest: seq<string>, sep: char)
    requires |rest| >= 1
    ensures Joined([p] + rest, sep) == p + [sep] + Joined(rest, sep)
  {
    assert ([p] + rest)[1..] == rest;
  }

  lemma JoinedHeadCons(c: char, rest: seq<string>, sep: char)
    requires |rest| >= 1
    ensures Joined([[c] + rest[0]] + rest[1..], sep) == [c] + Joined(rest, sep)
  {
    var parts := [[c] + rest[0]] + rest[1..];
    if |rest| > 1 {
      assert parts[1..] == rest[1..];
    }
  }

  /** Splitting and re-joining gives the text back. */
  lemma {:induction false} JoinedComponents(t: string, sep: char)
    ensures Joined(Components(t, sep), sep) == t
    decreases |t|
  {
    if t != [] {
      var rest := Components(t[1..], sep);
      JoinedComponents(t[1..], sep);
      if t[0] == sep {
        JoinedCons("", rest, sep);
      } else {
        JoinedHeadCons(t[0], rest, sep);
      }
      assert t == [t[0]] + t[1..];
    }
  }

  /** Splitting joined pieces that are free of the separator gives the pieces back. */
  lemma {:induction false} ComponentsOfJoined(parts: seq<string>, sep: char)
    requires |parts| >= 1 && forall i :: 0 <= i < |parts| ==> sep !in parts[i]
    ensures Components(Joined(parts, sep), sep) == parts
    decreases |parts|, |parts[0]|
  {
    if |parts| == 1 {
      NoSeparatorOnePiece(parts[0], sep);
    } else if parts[0] == [] {
      var t := Joined(parts, sep);
      assert t == [sep] + Joined(parts[1..], sep);
      assert t[1..] == Joined(parts[1..], sep);
      ComponentsOfJoined(parts[1..], sep);
      assert parts == [""] + parts[1..];
    } else {
      var c := parts[0][0];
      var shorter := [parts[0][1..]] + parts[1..];
      assert parts[0] == [c] + shorter[0];
      assert parts == [[c] + shorter[0]] + shorter[1..];
      JoinedHeadCons(c, shorter, sep);
      var t := Joined(parts, sep);
      assert t[1..] == Joined(shorter, sep);
      assert sep !in shorter[0] by {
        assert forall k :: 0 <= k < |parts[0][1..]| ==> parts[0][1..][k] == parts[0][k + 1];
      }
      ComponentsOfJoined(shorter, sep);
    }
  }

  lemma {:induction false} NoSeparatorOnePiece(t: string, sep: char)
    requires sep !in t
    ensures Components(t, sep) == [t]
    decreases |t|
  {
    if t != [] {
      assert t[0] in t;
      assert sep !in t[1..] by {
        assert forall k :: 0 <= k < |t[1..]| ==> t[1..][k] == t[k + 1];
      }
      NoSeparatorOnePiece(t[1..], sep);
      assert t == [t[0]] + t[1..];
    }
  }

  /** After the last separator, at index i, the last piece is what follows it. */
  lemma {:induction false} LastPieceFollowsLastSeparator(t: string, sep: char, i: int)
    requires 0 <= i < |t| && t[i] == sep && sep !in t[i + 1..]
    ensures Components(t, sep)[|Components(t, sep)| - 1] == t[i + 1..]
    decreases i
  {
    if i == 0 {
      NoSeparatorOnePiece(t[1..], sep);
    } else {
      var rest := t[1..];
      assert rest[i - 1] == sep && rest[i..] == t[i + 1..];
      LastPieceFollowsLastSeparator(rest, sep, i - 1);
      assert sep in rest;
    }
  }

  /** What the amount field is meant to hold: at most one "." and at most two
      characters after it. */
  ghost predicate AmountValid(t: string)
  {
    && Count(t, '.') <= 1
    && forall i :: 0 <= i < |t| && t[i] == '.' ==> |t| - (i + 1) <= 2
  }

  /** `textField(_:shouldChangeCharactersIn:replacementString:)`. */
  function ShouldChange(field: Field, text: Option<string>, range: NSRange, s: string): bool
    requires text.Some? ==> RangeFits(text.value, range)
  {
    var newText := CandidateText(text, range, s);
    match field
    case AmountField =>
      var components := Components(newText, '.');
      if |components| > 2 then false
      else if |components| == 2 && |components[1]| > 2 then false
      else true
    case IdCardField => if |newText| > 18 then false else true
    case PhoneField =>
      if s == "." then false
      else if |newText| > 11 then false
      else true
    case OtherField => true
  }

  /** The amount-field rule, split into "." pieces, accepts exactly the valid amounts. */
  lemma AmountRuleIsAmountValid(t: string)
    ensures (|Components(t, '.')| <= 2 && (|Components(t, '.')| == 2 ==> |Components(t, '.')[1]| <= 2))
        <==> AmountValid(t)
  {
    var n := Count(t, '.');
    if n == 1 {
      var i :| 0 <= i < |t| && t[i] == '.';
      assert t == t[..i] + [t[i]] + t[i + 1..];
      CountAppend(t[..i] + [t[i]], t[i + 1..], '.');
      CountAppend(t[..i], [t[i]], '.');
      assert Count([t[i]], '.') == 1;
      LastPieceFollowsLastSeparator(t, '.', i);
      assert '.' !in t[..i] && '.' !in t[i + 1..];
      assert forall j :: 0 <= j < i ==> t[j] == t[..i][j];
      assert forall j :: i < j < |t| ==> t[j] == t[i + 1..][j - (i + 1)];
    }
  }

  /** What the validator accepts, field by field: an amount iff the candidate is a valid
      amount; an ID card iff the candidate has at most 18 characters; a phone number iff
      the replacement is not "." and the candidate has at most 11 characters; anything
      in any other field. */
  lemma ShouldChangeMeaning(field: Field, text: Option<string>, range: NSRange, s: string)
    requires text.Some? ==> RangeFits(text.value, range)
    ensures var newText := CandidateText(text, range, s);
      && (field == AmountField ==> (ShouldChange(field, text, range, s) <==> AmountValid(newText)))
      && (field == IdCardField ==> (ShouldChange(field, text, range, s) <==> |newText| <= 18))
      && (field == PhoneField ==> (ShouldChange(field, text, range, s) <==> s != "." && |newText| <= 11))
      && (field == OtherField ==> ShouldChange(field, text, range, s))
  {
    AmountRuleIsAmountValid(CandidateText(text, range, s));
  }

  /** As written, the phone rule refuses only the bare string ".", so pasting "1.5" into
      an empty phone field is accepted and the field then holds a ".". */
  lemma PhoneAcceptsPastedDot()
    ensures ShouldChange(PhoneField, Some(""), NSRange(0, 0), "1.5")
    ensures '.' in CandidateText(Some(""), NSRange(0, 0), "1.5")
  {
    var pasted := "1.5";
    assert pasted != "." && pasted[1] == '.';
    ShouldChangeMeaning(PhoneField, Some(""), NSRange(0, 0), pasted);
    var candidate := Replacing("", NSRange(0, 0), pasted);
    assert candidate[0..3] == pasted;
    assert candidate[1] == '.';
  }

  /** The validator with the phone rule as intended ("no decimal point"): a phone-field
      change whose string contains a "." is refused; every other decision is that of
      `ShouldChange`. */
  function ShouldChangeCorrected(field: Field, text: Option<string>, range: NSRange, s: string): bool
    requires text.Some? ==> RangeFits(text.value, range)
  {
    if field == PhoneField && '.' in s then false else ShouldChange(field, text, range, s)
  }

  /** The corrected rule never lets a "." into a phone field that has none, whatever string
      is typed or pasted; for every other field it decides as the source does. */
  lemma CorrectedPhoneRejectsEveryDot(field: Field, text: string, range: NSRange, s: string)
    requires RangeFits(text, range)
    ensures field == PhoneField && ShouldChangeCorrected(field, Some(text), range, s) ==>
      '.' !in s && |CandidateText(Some(text), range, s)| <= 11
    ensures field == PhoneField && ShouldChangeCorrected(field, Some(text), range, s) && '.' !in text ==>
      '.' !in CandidateText(Some(text), range, s)
    ensures field != PhoneField ==>
      ShouldChangeCorrected(field, Some(text), range, s) == ShouldChange(field, Some(text), range, s)
  {
    ShouldChangeMeaning(field, Some(text), range, s);
    if field == PhoneField && ShouldChangeCorrected(field, Some(text), range, s) && '.' !in text {
      var r := CandidateText(Some(text), range, s);
      assert r == r[..range.location] + r[range.location..range.location + |s|] + r[range.location + |s|..];
      assert '.' !in text[..range.location] && '.' !in text[range.location + range.length..];
    }
  }

  /** The example controller as the delegate of a field, with the phone rule corrected.
      Outside a fitting range NSString would raise an exception; the change is refused there. */
  function ExampleDelegate(field: Field): Veto
  {
    Answers((text: string, range: NSRange, s: string) => RangeFits(text, range) && ShouldChangeCorrected(field, Some(text), range, s))
  }

  /** The example controller as the delegate of a field, with the rules as written. */
  function AsWrittenDelegate(field: Field): Veto
  {
    Answers((text: string, range: NSRange, s: string) => RangeFits(text, range) && ShouldChange(field, Some(text), range, s))
  }

  /** The keyboard's insertion is the NSString splice the validator makes of the same
      text, range and string. */
  lemma InsertedIsReplacing(e: EditState, s: string)
    requires e.Valid()
    ensures RangeFits(e.text, SelectionRange(e))
    ensures Inserted(e, s).text == Replacing(e.text, SelectionRange(e), s)
  {
    var r, x := Inserted(e, s).text, Replacing(e.text, SelectionRange(e), s);
    assert r == r[..e.selStart + |s|] + r[e.selStart + |s|..];
    assert x == x[..e.selStart] + x[e.selStart..e.selStart + |s|] + x[e.selStart + |s|..];
  }

  /** Deleting a middle part of a valid amount leaves a valid amount. */
  lemma AmountValidUnderDeletion(a: string, b: string, c: string)
    requires AmountValid(a + b + c)
    ensures AmountValid(a + c)
  {
    var t, u := a + b + c, a + c;
    CountAppend(a + b, c, '.');
    CountAppend(a, b, '.');
    CountAppend(a, c, '.');
    forall i | 0 <= i < |u| && u[i] == '.'
      ensures |u| - (i + 1) <= 2
    {
      if i < |a| {
        assert t[i] == '.';
      } else {
        assert t[i + |b|] == '.';
      }
    }
  }

  /** The keyboard's delete removes one contiguous part of the text ending at the
      selection's end. */
  lemma DeleteTapRemovesMiddle(e: EditState) returns (k: int)
    requires e.Valid()
    ensures 0 <= k <= e.selEnd
    ensures DeleteTap(e).text == e.text[..k] + e.text[e.selEnd..]
  {
    k := e.selEnd;
    if |e.text| > 0 {
      var d := DeletedBackward(e);
      k := d.selStart;
      assert d.text == d.text[..d.selStart] + d.text[d.selEnd..];
    } else {
      assert e.text[..k] + e.text[e.selEnd..] == e.text;
    }
  }

  /** The keyboard's delete keeps a valid amount valid. */
  lemma DeleteKeepsAmountValid(e: EditState)
    requires e.Valid() && AmountValid(e.text)
    ensures AmountValid(DeleteTap(e).text)
  {
    var k := DeleteTapRemovesMiddle(e);
    assert e.text == e.text[..k] + e.text[k..e.selEnd] + e.text[e.selEnd..];
    AmountValidUnderDeletion(e.text[..k], e.text[k..e.selEnd], e.text[e.selEnd..]);
  }

  /** With the example controller as its delegate, an amount field stays a valid amount
      whatever key of the keyboard is pressed. */
  lemma AmountFieldStaysValid(e: EditState, a: Action)
    requires e.Valid() && AmountValid(e.text)
    ensures AmountValid(ActionEffect(a, TextField(ExampleDelegate(AmountField)), e).text)
  {
    match a {
      case Insert(s) => AmountInsertStaysValid(e, s);
      case Delete => DeleteKeepsAmountValid(e);
      case Done =>
      case Ignore =>
    }
  }

  /** An insertion the example delegate lets into an amount field is a valid amount. */
  lemma AmountInsertStaysValid(e: EditState, s: string)
    requires e.Valid() && AmountValid(e.text)
    ensures AmountValid(InsertEffect(TextField(ExampleDelegate(AmountField)), e, s).text)
  {
    InsertedIsReplacing(e, s);
    ShouldChangeMeaning(AmountField, Some(e.text), SelectionRange(e), s);
  }

  /** The keyboard's delete never lengthens the text. */
  lemma DeleteNeverLengthens(e: EditState)
    requires e.Valid()
    ensures |DeleteTap(e).text| <= |e.text|
  {
  }

  /** With the example controller as its delegate, an ID-card field never grows past 18
      characters. */
  lemma IdCardFieldStaysShort(e: EditState, a: Action)
    requires e.Valid() && |e.text| <= 18
    ensures |ActionEffect(a, TextField(ExampleDelegate(IdCardField)), e).text| <= 18
  {
    if a.Insert? {
      InsertedIsReplacing(e, a.text);
      ShouldChangeMeaning(IdCardField, Some(e.text), SelectionRange(e), a.text);
    }
  }

  /** With the rules as written and the decimal keyboard, a phone field never grows past
      11 characters and never receives a ".": the keyboard's only "." is the bare string. */
  lemma PhoneFieldStaysDigits(e: EditState, tag: int)
    requires e.Valid() && |e.text| <= 11 && '.' !in e.text
    ensures var r := ActionEffect(Dispatch(tag, Decimal), TextField(AsWrittenDelegate(PhoneField)), e);
      |r.text| <= 11 && '.' !in r.text
  {
    var a := Dispatch(tag, Decimal);
    if a.Insert? {
      InsertedIsReplacing(e, a.text);
      ShouldChangeMeaning(PhoneField, Some(e.text), SelectionRange(e), a.text);
      if a.text != "." {
        DecimalKeysTypeNoOtherDot(tag);
        InsertKeepsNoDot(e, a.text);
      }
    } else if a.Delete? {
      DeleteKeepsNoDot(e);
    }
  }

  /** With the corrected example delegate, a phone field never grows past 11 characters
      and never receives a ".", whatever text a key action inserts. */
  lemma CorrectedPhoneFieldStaysDigits(e: EditState, a: Action)
    requires e.Valid() && |e.text| <= 11 && '.' !in e.text
    ensures var r := ActionEffect(a, TextField(ExampleDelegate(PhoneField)), e);
      |r.text| <= 11 && '.' !in r.text
  {
    if a.Insert? {
      InsertedIsReplacing(e, a.text);
      CorrectedPhoneRejectsEveryDot(PhoneField, e.text, SelectionRange(e), a.text);
    } else if a.Delete? {
      DeleteKeepsNoDot(e);
    }
  }

  /** On the decimal keyboard, the only key that types a "." types exactly ".". */
  lemma DecimalKeysTypeNoOtherDot(tag: int)
    requires Dispatch(tag, Decimal).Insert? && Dispatch(tag, Decimal).text != "."
    ensures '.' !in Dispatch(tag, Decimal).text
  {
    DispatchIsAscii(tag, Decimal);
  }

  lemma InsertKeepsNoDot(e: EditState, s: string)
    requires e.Valid() && '.' !in e.text && '.' !in s
    ensures '.' !in Inserted(e, s).text
  {
    var d := Inserted(e, s);
    assert d.text == d.text[..d.selStart] + d.text[d.selEnd..];
    assert '.' !in e.text[..e.selStart] && '.' !in e.text[e.selEnd..];
  }

  lemma DeleteKeepsNoDot(e: EditState)
    requires e.Valid() && '.' !in e.text
    ensures '.' !in DeleteTap(e).text
  {
    var k := DeleteTapRemovesMiddle(e);
    assert '.' !in e.text[..k] && '.' !in e.text[e.selEnd..];
  }

  /** The two keyboards of the screen. */
  datatype KeyboardChoice = DecimalKeyboard | IdCardKeyboard

  /** Which keyboard serves a field: its input view, the keyboard recorded when it begins
      editing and the keyboard told about its changes. */
  function KeyboardFor(field: Field): (k: Option<KeyboardChoice>)
    ensures field == AmountField || field == PhoneField <==> k == Some(DecimalKeyboard)
    ensures field == IdCardField <==> k == Some(IdCardKeyboard)
  {
    match field
    case AmountField => Some(DecimalKeyboard)
    case PhoneField => Some(DecimalKeyboard)
    case IdCardField => Some(IdCardKeyboard)
    case OtherField => None
  }

  /** On the controller as set up, each field's keyboard has the type its rules expect:
      the dot key of the amount and phone fields' keyboard types "." (the decimal keyboard,
      so `PhoneFieldStaysDigits` applies), and that of the ID-card field's keyboard types "X". */
  lemma FieldsGetTheirDotKey<C>(c: Controller<C>, field: Field)
    requires c.Valid() && KeyboardFor(field).Some?
    ensures field != IdCardField ==> c.KeyboardOf(KeyboardFor(field).value).keyboardType == Decimal
    ensures Dispatch(TagDot, c.KeyboardOf(KeyboardFor(field).value).keyboardType)
         == Insert(if field == IdCardField then "X" else ".")
  {
  }

  /** The view controller: its two keyboards and the one currently in use. */
  class Controller<C> {
    const decimalKeyboard: Keyboard<C>
    const idCardKeyboard: Keyboard<C>
    var currentKeyboard: Keyboard?<C>

    function KeyboardOf(k: KeyboardChoice): Keyboard<C>
    {
      match k
      case DecimalKeyboard => decimalKeyboard
      case IdCardKeyboard => idCardKeyboard
    }

    /** The two keyboards are distinct and keep the types `setupKeyboards` gave them. */
    ghost predicate Valid()
      reads this, decimalKeyboard, idCardKeyboard
    {
      && decimalKeyboard != idCardKeyboard
      && decimalKeyboard.keyboardType == Decimal && idCardKeyboard.keyboardType == IdCard
    }

    /** `setupKeyboards`: a decimal keyboard with a blue done key and an ID-card keyboard
        with a green one, both with sounds, haptics and this controller as delegate, and
        both with the done key disabled for the empty text. */
    constructor (palette: Palette<C>, blue: C, green: C)
      ensures Valid() && fresh(decimalKeyboard) && fresh(idCardKeyboard)
      ensures currentKeyboard == null
      ensures decimalKeyboard.doneButtonBackgroundColor == blue && idCardKeyboard.doneButtonBackgroundColor == green
      ensures decimalKeyboard.enableClickSound && decimalKeyboard.enableHapticFeedback && decimalKeyboard.hasDoneDelegate
      ensures idCardKeyboard.enableClickSound && idCardKeyboard.enableHapticFeedback && idCardKeyboard.hasDoneDelegate
      ensures decimalKeyboard.Valid() && idCardKeyboard.Valid()
      ensures decimalKeyboard.firstResponder == null && idCardKeyboard.firstResponder == null
      ensures !decimalKeyboard.deleteDisplayLinkActive && !idCardKeyboard.deleteDisplayLinkActive
      ensures decimalKeyboard.clickSounds == 0 && decimalKeyboard.hapticImpacts == 0 && decimalKeyboard.doneCallbacks == 0
      ensures idCardKeyboard.clickSounds == 0 && idCardKeyboard.hapticImpacts == 0 && idCardKeyboard.doneCallbacks == 0
      ensures decimalKeyboard.buttons == SetUpButtons(palette, Decimal, blue)
      ensures idCardKeyboard.buttons == SetUpButtons(palette, IdCard, green)
    {
      var d := new Keyboard(palette);
      d.SetKeyboardType(Decimal);
      d.Configure(true, true, true);
      d.SetDoneButtonBackgroundColor(blue);
      var i := new Keyboard(palette);
      i.SetKeyboardType(IdCard);
      i.Configure(true, true, true);
      i.SetDoneButtonBackgroundColor(green);
      d.KeyboardInputDidChange("");
      i.KeyboardInputDidChange("");
      decimalKeyboard, idCardKeyboard := d, i;
      currentKeyboard := null;
    }

    /** `textFieldDidBeginEditing(_:)`: record the field's keyboard; other fields leave it. */
    method TextFieldDidBeginEditing(field: Field)
      requires Valid()
      modifies this`currentKeyboard
      ensures Valid()
      ensures KeyboardFor(field).Some? ==> currentKeyboard == KeyboardOf(KeyboardFor(field).value)
      ensures KeyboardFor(field).None? ==> currentKeyboard == old(currentKeyboard)
    {
      if field == AmountField || field == PhoneField {
        currentKeyboard := decimalKeyboard;
      } else if field == IdCardField {
        currentKeyboard := idCardKeyboard;
      }
    }

    /** `textFieldDidChange(_:)`: the field's keyboard updates its done key for the new
        text (nil counts as ""); the other keyboard is left alone. */
    method TextFieldDidChange(field: Field, text: Option<string>)
      requires Valid()
      modifies decimalKeyboard`buttons, idCardKeyboard`buttons
      ensures Valid()
      ensures var hasInput := text.Some? && |text.value| > 0;
        && decimalKeyboard.buttons ==
             (if KeyboardFor(field) == Some(DecimalKeyboard) then DoneStateAll(old(decimalKeyboard.buttons), hasInput)
              else old(decimalKeyboard.buttons))
        && idCardKeyboard.buttons ==
             (if KeyboardFor(field) == Some(IdCardKeyboard) then DoneStateAll(old(idCardKeyboard.buttons), hasInput)
              else old(idCardKeyboard.buttons))
    {
      var t := if text.Some? then text.value else "";
      if field == AmountField || field == PhoneField {
        decimalKeyboard.KeyboardInputDidChange(t);
      } else if field == IdCardField {
        idCardKeyboard.KeyboardInputDidChange(t);
      }
    }
  }

  /** The buttons of a keyboard after `setupKeyboards`: built, re-laid out for the type,
      re-coloured, and updated for the empty text. */
  function SetUpButtons<C>(p: Palette<C>, kt: KeyboardType, doneColor: C): seq<Button<C>>
  {
    var built := InitialButtons(p, Decimal, p.defaultDoneBackground);
    DoneStateAll(LaidOutAll(LaidOutAll(built, p, kt, p.defaultDoneBackground), p, kt, doneColor), false)
  }

  /** After `setupKeyboards` a keyboard's dot key shows what it types, its done key has
      the chosen colours and is disabled at alpha 0.7, and every other key is as built. */
  lemma SetUpKeyboardState<C>(p: Palette<C>, kt: KeyboardType, doneColor: C)
    ensures TagsAsBuilt(SetUpButtons(p, kt, doneColor))
    ensures forall i :: 0 <= i < ButtonCount ==>
      var b := SetUpButtons(p, kt, doneColor)[i];
      && (b.tag == TagDot ==> b.title == Some(Dispatch(TagDot, kt).text))
      && (b.tag == TagDone ==> !b.isEnabled && b.alpha == 0.7 && b.normalBackground == doneColor
                               && b.highlightedBackground == DoneHighlight(p, doneColor))
      && (b.tag != TagDot && b.tag != TagDone ==> b == InitialButtons(p, kt, doneColor)[i])
  {
    var built := InitialButtons(p, Decimal, p.defaultDoneBackground);
    InitialButtonsTable(p, Decimal, p.defaultDoneBackground);
    InitialButtonsTable(p, kt, doneColor);
    var l1 := LaidOutAll(built, p, kt, p.defaultDoneBackground);
    LayoutChangesOnlyDotTitleAndDoneColours(built, p, kt, p.defaultDoneBackground);
    var l2 := LaidOutAll(l1, p, kt, doneColor);
    LayoutChangesOnlyDotTitleAndDoneColours(l1, p, kt, doneColor);
    DoneStateOnlyTouchesDoneKey(l2, false);
    forall i | 0 <= i < ButtonCount
      ensures var b := SetUpButtons(p, kt, doneColor)[i];
        b.tag != TagDot && b.tag != TagDone ==> b == InitialButtons(p, kt, doneColor)[i]
    {
      TitlesMatchInsertedText(i, kt);
    }
  }
}
