# ZHHNumberKeyboard, modelled in Dafny

ZHHNumberKeyboard is a UIKit replacement keyboard for numeric input. It has a decimal
mode, where the extra key types ".", and an ID-card mode, where it types "X". It also has
a done key that is enabled only when there is input, press-and-hold repeat delete, and
optional click sounds and haptics. It types into the focused text field or text view,
and it asks that control's delegate before inserting. The example app supplies such a
delegate: it validates amounts, ID-card numbers and phone numbers.

This project models:

- the keyboard's key table and key dispatch (`KeyTable`, keys.dfy);
- the keyboard view's state and its operations, as the class `NumberKeyboard.Keyboard`
  (keyboard.dfy). This covers building the 14 buttons, re-titling and re-colouring them
  when the keyboard type or done colour is set, and the done-key state. It also covers
  input routing with the delegate veto, the press-and-hold delete machine driven by
  gesture states and display-link ticks, and the guard in the touch handler that looks
  up a new first responder;
- the focused control, abstracted as a character sequence with a selection and an
  optional veto (`TextInput`, text_input.dfy);
- the recursive first-responder search and the key-window selection
  (`FindFirstResponder`, first_responder.dfy);
- the selection-range arithmetic and colour darkening of the helper
  (`KeyboardHelper`, helper.dfy);
- the example app's validator and its field-to-keyboard routing, including what the
  validator guarantees about each field's text when the keyboard types into it
  (`ExampleApp`, example.dfy).

Platform calls are parameters of the model:

- `UIColor.getHue` and the HSB initialiser are the function fields of a `Palette`.
- The result of `UIView.zhhkb_firstResponder()` is a parameter of `ButtonTouchUpInside`.
- Gesture states and display-link ticks are method calls.
- Click sounds, haptic impacts and done-delegate calls are counters.

## Model

| member | source | states |
|---|---|---|
| KeyTable.DispatchIsAscii | ZHHNumberKeyboard/Classes/ZHHNumberKeyboard.swift:354-371 | A tag inserts text iff it is 46 or 48-57. 127 and only 127 deletes, -2 and only -2 is done, and every other tag does nothing. A digit tag inserts the single character whose code is the tag. Tag 46 inserts "." on the decimal keyboard and "X" otherwise. |
| KeyTable.DigitTitles | ZHHNumberKeyboard/Classes/ZHHNumberKeyboard.swift:215-226 | Every button with a digit tag is titled with the digit `tag - 48`, which is the one character whose code is the tag. |
| KeyTable.TitlesMatchInsertedText | ZHHNumberKeyboard/Classes/ZHHNumberKeyboard.swift:185-227 | Every one of the 14 buttons has an action. On either keyboard type, a button that inserts text is titled with exactly that text. |
| KeyTable.DotTitleIsDotText | ZHHNumberKeyboard/Classes/ZHHNumberKeyboard.swift:356-361 | The dot key's title, as `initUI` and `updateKeyboardLayout` set it, equals the text `handleInput` inserts for it, for each keyboard type. |
| KeyTable.OnlyZeroTagRepeats | ZHHNumberKeyboard/Classes/ZHHNumberKeyboard.swift:215-226 | Tags are not unique. Index 13 takes the digit branch, so two buttons share a tag iff they are indices 9 and 13, both with tag 48. |
| KeyTable.NatString | ZHHNumberKeyboard/Classes/ZHHNumberKeyboard.swift:429 | The decimal rendering of `"\(n)"` is never empty, and a number below 10 renders as its one digit. |
| NumberKeyboard.InitialButtonsTable | ZHHNumberKeyboard/Classes/ZHHNumberKeyboard.swift:185-244 | The 14 buttons have the table's tags and titles, and all are enabled, opaque and not highlighted. The done key gets the done colour and its darkened highlight; every other key gets the plain colours. Each text-inserting key is titled with its text. |
| NumberKeyboard.LayoutChangesOnlyDotTitleAndDoneColours | ZHHNumberKeyboard/Classes/ZHHNumberKeyboard.swift:319-336 | Re-laying out changes only two things. The title of each tag-46 button becomes the text that key inserts for the new type. The two backgrounds of each tag -2 button become the done colour and its darkened highlight. Every other button is left as it was. |
| NumberKeyboard.DoneStateOnlyTouchesDoneKey | ZHHNumberKeyboard/Classes/ZHHNumberKeyboard.swift:340-347 | Each tag -2 button is enabled iff there is input, with alpha 1.0 when enabled and 0.7 when not. Nothing else about it changes, and no other button changes. |
| NumberKeyboard.FirstWithTag | ZHHNumberKeyboard/Classes/ZHHNumberKeyboard.swift:438 | `viewWithTag` over the buttons gives the first index with the tag. It gives none iff no button has the tag. |
| NumberKeyboard.DeleteKeyIsAtEleven | ZHHNumberKeyboard/Classes/ZHHNumberKeyboard.swift:199-201 | On the buttons as built, tag 127 is found at index 11. |
| NumberKeyboard.FirstWithTagReadsTags | ZHHNumberKeyboard/Classes/ZHHNumberKeyboard.swift:438 | The lookup depends only on the tags, so changing a highlight never moves the delete key. |
| NumberKeyboard.UpdatesKeepTags | ZHHNumberKeyboard/Classes/ZHHNumberKeyboard.swift:319-347 | Neither update changes any tag. |
| NumberKeyboard.DeleteTap | ZHHNumberKeyboard/Classes/ZHHNumberKeyboard.swift:413-417 | Delete on empty text changes nothing. |
| NumberKeyboard.BeganDeletesAtMostOnce | ZHHNumberKeyboard/Classes/ZHHNumberKeyboard.swift:440-461 | `began` turns the highlight on and starts the link. It deletes only when the control has text, and then by exactly one backward delete. |
| NumberKeyboard.ReleaseClearsLinkAndHighlight | ZHHNumberKeyboard/Classes/ZHHNumberKeyboard.swift:462-466 | `ended`, `cancelled` and `failed` always clear both the link and the highlight, and delete nothing. Other states change nothing. |
| NumberKeyboard.TickNeverDeletesOnEmpty | ZHHNumberKeyboard/Classes/ZHHNumberKeyboard.swift:487-490 | A tick on empty text, or with no bound control, stops the link and changes nothing else; in particular the highlight stays. |
| NumberKeyboard.TickStep | ZHHNumberKeyboard/Classes/ZHHNumberKeyboard.swift:472-491 | A tick never changes the highlight. |
| NumberKeyboard.Ticks | ZHHNumberKeyboard/Classes/ZHHNumberKeyboard.swift:472-491 | Any number of ticks leaves the highlight as it was. |
| NumberKeyboard.TicksLast | ZHHNumberKeyboard/Classes/ZHHNumberKeyboard.swift:472-491 | n + 1 ticks are n ticks followed by one tick. |
| NumberKeyboard.TicksAdd | ZHHNumberKeyboard/Classes/ZHHNumberKeyboard.swift:472-491 | m + n ticks are m ticks followed by n ticks. |
| NumberKeyboard.TicksDeleteBeforeCaret | ZHHNumberKeyboard/Classes/ZHHNumberKeyboard.swift:472-491 | With a caret at offset k, k ticks delete exactly the k characters before it. The text after the caret is kept, and the link and the highlight are unchanged. |
| NumberKeyboard.TicksDrainBeforeSelection | ZHHNumberKeyboard/Classes/ZHHNumberKeyboard.swift:472-491 | Ticks remove a non-empty selection and then everything before it. The text after the selection is left, with the caret at 0. |
| NumberKeyboard.TicksStallAtStart | ZHHNumberKeyboard/Classes/ZHHNumberKeyboard.swift:474-486 | With the caret at 0 and text after it, ticks change nothing and never stop the link. |
| NumberKeyboard.TicksDrainWholeText | ZHHNumberKeyboard/Classes/ZHHNumberKeyboard.swift:472-491 | With the caret at the end, \|text\| ticks empty the text, and the next tick stops the link while the highlight is unchanged. |
| NumberKeyboard.Keyboard.constructor | ZHHNumberKeyboard/Classes/ZHHNumberKeyboard.swift:126-140 | The keyboard starts with the default properties: decimal type, default done colour, sound and haptics on, no link, no bound control. Its buttons are the ones `initUI` builds. |
| NumberKeyboard.Keyboard.InitUI | ZHHNumberKeyboard/Classes/ZHHNumberKeyboard.swift:181-251 | The loop builds exactly the 14 buttons of the table for the current type and done colour, in index order. |
| NumberKeyboard.Keyboard.UpdateKeyboardLayout | ZHHNumberKeyboard/Classes/ZHHNumberKeyboard.swift:319-336 | The loop's result is the layout update applied to every button. |
| NumberKeyboard.Keyboard.SetKeyboardType | ZHHNumberKeyboard/Classes/ZHHNumberKeyboard.swift:71-75 | Setting the type re-lays out the buttons for the new type. |
| NumberKeyboard.Keyboard.SetDoneButtonBackgroundColor | ZHHNumberKeyboard/Classes/ZHHNumberKeyboard.swift:63-67 | Setting the done colour re-lays out the buttons with the new colour. |
| NumberKeyboard.Keyboard.Configure | ZHHNumberKeyboard/Classes/ZHHNumberKeyboard.swift:77-103 | This sets the sound and haptic switches and whether a done delegate is attached. |
| NumberKeyboard.Keyboard.UpdateDoneButtonState | ZHHNumberKeyboard/Classes/ZHHNumberKeyboard.swift:340-347 | The loop's result is the done-state update applied to every button. |
| NumberKeyboard.Keyboard.KeyboardInputDidChange | ZHHNumberKeyboard/Classes/ZHHNumberKeyboard.swift:165-167 | The done key is updated for "there is input" iff the text is not empty. |
| NumberKeyboard.Keyboard.InsertText | ZHHNumberKeyboard/Classes/ZHHNumberKeyboard.swift:376-409 | With no bound control nothing happens. A text field or text view takes the text iff its delegate allows the change of the selected range; a missing delegate or method allows it. Any other control always takes it. |
| NumberKeyboard.Keyboard.HandleDeleteButtonTap | ZHHNumberKeyboard/Classes/ZHHNumberKeyboard.swift:413-417 | This deletes backward only when the control has text, and it never asks the delegate. |
| NumberKeyboard.Keyboard.HandleDoneButtonTap | ZHHNumberKeyboard/Classes/ZHHNumberKeyboard.swift:421-424 | The bound control resigns first responder with its text unchanged, and an attached delegate is told once. |
| NumberKeyboard.Keyboard.HandleNumberButtonTap | ZHHNumberKeyboard/Classes/ZHHNumberKeyboard.swift:428-430 | This inserts the decimal rendering of the number under the same veto rules. |
| NumberKeyboard.Keyboard.HandleInput | ZHHNumberKeyboard/Classes/ZHHNumberKeyboard.swift:354-371 | The effect on the bound control is that of the tag's action. It resigns first responder iff the action is done, and the delegate is told only for done. |
| NumberKeyboard.Keyboard.CleanDisplayLink | ZHHNumberKeyboard/Classes/ZHHNumberKeyboard.swift:540-544 | Afterwards there is no display link. |
| NumberKeyboard.Keyboard.DeleteItemLongPress | ZHHNumberKeyboard/Classes/ZHHNumberKeyboard.swift:437-467 | If no delete key is found, nothing changes. Otherwise the press state moves by the gesture step. Only the delete key's highlight changes among the buttons. One sound and one haptic accompany a `began` that deletes. |
| NumberKeyboard.Keyboard.BeginDeletePress | ZHHNumberKeyboard/Classes/ZHHNumberKeyboard.swift:440-461 | The delete key is highlighted, at most one delete happens (with feedback), and the link starts. |
| NumberKeyboard.Keyboard.EndDeletePress | ZHHNumberKeyboard/Classes/ZHHNumberKeyboard.swift:462-466 | The highlight and the link are both cleared. |
| NumberKeyboard.Keyboard.RepeatLongPressDelete | ZHHNumberKeyboard/Classes/ZHHNumberKeyboard.swift:472-491 | A tick is the press machine's tick step. Feedback happens exactly when something is deleted, and the buttons are untouched. |
| NumberKeyboard.Keyboard.ButtonTouchUpInside | ZHHNumberKeyboard/Classes/ZHHNumberKeyboard.swift:498-519 | If the bound control is missing or no longer first responder and the lookup finds none, the press has no effect at all. Otherwise the found control replaces a stale one, one sound and one haptic are produced (when enabled), and the key's action is applied. A looked-up control that is not used, and a stale control that is replaced, are left unchanged. |
| TextInput.Inserted | ZHHNumberKeyboard/Classes/ZHHNumberKeyboard.swift:390 | The string replaces the selection and the caret lands after it. The text before and after the selection is kept. |
| TextInput.DeletedBackward | ZHHNumberKeyboard/Classes/ZHHNumberKeyboard.swift:415 | A non-empty selection is removed; else the character before the caret is removed; at offset 0 nothing changes. The text shrinks iff there was a selection or a character before the caret. |
| TextInput.Allows | ZHHNumberKeyboard/Classes/ZHHNumberKeyboard.swift:385-387 | A missing delegate or a delegate without the method allows the change. |
| TextInput.Responder.InsertText | ZHHNumberKeyboard/Classes/ZHHNumberKeyboard.swift:390 | The control's new state is the insertion applied to its old state. |
| TextInput.Responder.DeleteBackward | ZHHNumberKeyboard/Classes/ZHHNumberKeyboard.swift:415 | The control's new state is the backward delete applied to its old state. |
| TextInput.Responder.ResignFirstResponder | ZHHNumberKeyboard/Classes/ZHHNumberKeyboard.swift:422 | The control stops being first responder and its text is unchanged. |
| FindFirstResponder.Find | ZHHNumberKeyboard/Classes/UIView+ZHHFindFirstResponder.swift:37-49 | Any view the search returns is first responder. |
| FindFirstResponder.FindIsPreOrderFirst | ZHHNumberKeyboard/Classes/UIView+ZHHFindFirstResponder.swift:37-49 | The recursive search with early return gives the first first responder in a pre-order walk of the tree. |
| FindFirstResponder.FindSpec | ZHHNumberKeyboard/Classes/UIView+ZHHFindFirstResponder.swift:37-49 | A first-responder root is returned without looking at its subviews. The result is nil iff no node is first responder. A returned view is a first-responder node of the tree, and no node before it in pre-order is first responder. |
| FindFirstResponder.FirstResponderInIsEarliest | ZHHNumberKeyboard/Classes/UIView+ZHHFindFirstResponder.swift:42-46 | The first match in a sequence sits at an index before which nothing matches. |
| FindFirstResponder.FindKeyWindow | ZHHNumberKeyboard/Classes/UIView+ZHHFindFirstResponder.swift:17-31 | The nested loops with `break` give the first key window in scene and window order, and none iff there is no key window. |
| FindFirstResponder.FirstResponder | ZHHNumberKeyboard/Classes/UIView+ZHHFindFirstResponder.swift:16-33 | Only the first key window is searched. With no key window the result is nil. |
| KeyboardHelper.SelectedRange | ZHHNumberKeyboard/Classes/ZHHNumberKeyboardHelper.swift:96-116 | With no selection the range is (0, 0). Otherwise the location is the offset from the document's start to the selection's start, and the length is the offset from the selection's start to its end. |
| KeyboardHelper.CaretHasNoLength | ZHHNumberKeyboard/Classes/ZHHNumberKeyboardHelper.swift:113 | The length is 0 iff the selection is a caret, and it is non-negative for a forward selection. |
| KeyboardHelper.Dimmed | ZHHNumberKeyboard/Classes/ZHHNumberKeyboardHelper.swift:139-141 | Hue, saturation and alpha are kept. The brightness is max(0, b - amount), so it is never negative and never above b when b and the amount are not negative. |
| KeyboardHelper.DarkenCases | ZHHNumberKeyboard/Classes/ZHHNumberKeyboardHelper.swift:128-146 | An amount outside [0, 1], or a colour whose HSB components cannot be read, gives the colour back. Otherwise the result is built from the same hue, saturation and alpha with a brightness of max(0, b - amount), which is never below b - amount. |
| KeyboardHelper.DarkenReadsBackDarker | ZHHNumberKeyboard/Classes/ZHHNumberKeyboardHelper.swift:139-141 | When the conversion round-trips on the darkened components, the darkened colour reads back with the same hue, saturation and alpha and a brightness in [0, b]. |
| ExampleApp.Replacing | Example/ZHHNumberKeyboard/ViewController.swift:249 | The range's characters are replaced by the string, with the text before and after the range kept. |
| ExampleApp.Components | Example/ZHHNumberKeyboard/ViewController.swift:254 | Splitting at "." gives one more piece than there are dots, and no piece contains a dot. |
| ExampleApp.JoinedComponents | Example/ZHHNumberKeyboard/ViewController.swift:254 | Re-joining the pieces with the separator gives the text back. |
| ExampleApp.ComponentsOfJoined | Example/ZHHNumberKeyboard/ViewController.swift:254 | Splitting pieces that were joined gives the pieces back, provided no piece contains the separator. |
| ExampleApp.AmountRuleIsAmountValid | Example/ZHHNumberKeyboard/ViewController.swift:254-260 | The split-based amount rule accepts exactly the texts with at most one "." and at most two characters after it. |
| ExampleApp.ShouldChangeMeaning | Example/ZHHNumberKeyboard/ViewController.swift:248-278 | Amount: accepted iff the candidate is a valid amount. ID card: accepted iff the candidate has at most 18 characters. Phone: accepted iff the string is not exactly "." and the candidate has at most 11 characters. Any other field: always accepted. |
| ExampleApp.PhoneAcceptsPastedDot | Example/ZHHNumberKeyboard/ViewController.swift:266-273 | As written, pasting "1.5" into an empty phone field is accepted, and the field then contains a ".". |
| ExampleApp.CorrectedPhoneRejectsEveryDot | Example/ZHHNumberKeyboard/ViewController.swift:266-273 | With the corrected phone rule, any accepted phone change has no "." in its string and at most 11 characters, so a field without a "." never gets one. For every other field the corrected rule decides as the source does. |
| ExampleApp.InsertedIsReplacing | Example/ZHHNumberKeyboard/ViewController.swift:249 | The range the keyboard passes fits the text. The keyboard's insertion produces the very candidate the validator checks. |
| ExampleApp.AmountValidUnderDeletion | Example/ZHHNumberKeyboard/ViewController.swift:252-260 | Removing a middle part of a valid amount leaves a valid amount. |
| ExampleApp.DeleteKeepsAmountValid | ZHHNumberKeyboard/Classes/ZHHNumberKeyboard.swift:413-417 | The keyboard's delete, which bypasses the validator, keeps a valid amount valid. |
| ExampleApp.AmountInsertStaysValid | Example/ZHHNumberKeyboard/ViewController.swift:252-260 | An insertion through the example delegate leaves an amount field valid. |
| ExampleApp.AmountFieldStaysValid | Example/ZHHNumberKeyboard/ViewController.swift:252-260 | With the example delegate, an amount field stays valid for every key action. |
| ExampleApp.DeleteNeverLengthens | ZHHNumberKeyboard/Classes/ZHHNumberKeyboard.swift:413-417 | The keyboard's delete never lengthens the text. |
| ExampleApp.IdCardFieldStaysShort | Example/ZHHNumberKeyboard/ViewController.swift:261-265 | With the example delegate, an ID-card field never grows past 18 characters, whatever the key action. |
| ExampleApp.PhoneFieldStaysDigits | Example/ZHHNumberKeyboard/ViewController.swift:266-273 | With the rules as written and the decimal keyboard, a phone field never grows past 11 characters and never receives a ".": the keyboard's only dot is the bare "." the rule refuses. |
| ExampleApp.CorrectedPhoneFieldStaysDigits | Example/ZHHNumberKeyboard/ViewController.swift:266-273 | With the corrected rule, a phone field never grows past 11 characters and never receives a ".", whatever text is inserted. |
| ExampleApp.KeyboardFor | Example/ZHHNumberKeyboard/ViewController.swift:241-245 | Amount and phone route to the decimal keyboard and only they do. ID card routes to the ID-card keyboard and only it does. |
| ExampleApp.FieldsGetTheirDotKey | Example/ZHHNumberKeyboard/ViewController.swift:141-161 | On a controller as set up, the amount and phone fields get the controller's decimal keyboard, whose dot key types ".". The ID-card field gets its ID-card keyboard, whose dot key types "X". |
| ExampleApp.Controller.constructor | Example/ZHHNumberKeyboard/ViewController.swift:141-176 | This builds two distinct keyboards: a decimal one with a blue done key and an ID-card one with a green done key. Both have sound, haptics and the controller as delegate, and their buttons are as set up for the empty text. Neither is bound to a control, neither has a display link, and no sound, haptic or done call has happened yet. The controller invariant holds: the keyboards are distinct and of the two types. |
| ExampleApp.SetUpKeyboardState | Example/ZHHNumberKeyboard/ViewController.swift:141-176 | After setup, each keyboard's dot key shows what it types, and its done key has the chosen colours and is disabled at alpha 0.7. Every other key is as built. |
| ExampleApp.Controller.TextFieldDidBeginEditing | Example/ZHHNumberKeyboard/ViewController.swift:239-246 | This records the field's keyboard; another field leaves the record as it was. The controller invariant is kept. |
| ExampleApp.Controller.TextFieldDidChange | Example/ZHHNumberKeyboard/ViewController.swift:280-287 | Only the field's keyboard updates its done key, for "the text is not empty", with nil counting as "". The controller invariant is kept. |

## Left out

- Layout geometry (`layoutSubviews`, `keyboardFrame`, `safeAreaInsets`), the top separator, fonts, images, title colours and the button background images. These are drawing with no logic to model.
- Sounds and haptics are counters. `playClickAudio` and the feedback generator are platform calls.
- The display link has no timing (10 frames per second, run-loop modes), and the long press has no 0.3 s threshold. Gesture states and ticks are events.
- NumberKeyboard.Keyboard.BeginDeletePress: a second `began` replaces the display link without invalidating the old one. The model has one link flag, so it does not model a leaked link that keeps firing.
- `cancelTracking(with:)` on the delete key is not modelled; it has no state the model keeps.
- Buttons are values in a sequence owned by the keyboard, not shared objects. `viewWithTag` is modelled over the buttons only: the keyboard view and the separator have tag 0 and are never matched.
- The bound first responder is a strong reference in the model. The source's weak reference, which becomes nil when the control is released, is not modelled.
- A focused control always has a selection. The nil-selection branch of `selectedRange` is modelled only in `KeyboardHelper.SelectedRange`.
- UIKit's text editing is reduced to insertion at the selection and the backward delete described above. Text is counted in characters; UTF-16 and grapheme counts agree for the digits, "." and "X" the keyboard types.
- `connectedScenes` is an unordered set in UIKit; the model iterates it as a fixed sequence.
- ExampleApp.ExampleDelegate and ExampleApp.AsWrittenDelegate: for a range that does not fit the text the model refuses the change, where the app would raise an NSString exception. The keyboard only ever passes the selection, which fits.
- NumberKeyboard.Keyboard.ButtonTouchUpInside: requires the pressed button to be enabled, because UIKit sends the touch-up-inside action only to an enabled control.
- `deinit`, `init(coder:)`, `safeAreaInsetsDidChange`, `showTopSeparator` and `topSeparatorColor`: view lifecycle and drawing with no state the model keeps.
- The example app's UI construction, switch handlers, `dismissKeyboard`, and the `print` logging. `numberKeyboardDidTapDone` logs and then ends editing with `view.endEditing(true)`; the model counts the call but does not model the end of editing, which is UIKit's resigning of the focused field.
- The Objective-C headers (*.h): they are declarations only, and they disagree with the Swift code.

## Findings

| source | as written | input that shows it | evidently intended | confidence | as-written member | corrected member |
|---|---|---|---|---|---|---|
| Example/ZHHNumberKeyboard/ViewController.swift:266-270 | The phone rule refuses a change only when the replacement string is exactly ".". | Pasting "1.5" into an empty phone field: the string is not ".", the candidate has 3 characters, so the change is accepted and the field holds a ".". | The comment on line 267 says the phone field allows no decimal point, so any string containing "." should be refused. | not executed | ExampleApp.PhoneAcceptsPastedDot | ExampleApp.CorrectedPhoneRejectsEveryDot |

`ExampleApp.ExampleDelegate` uses the corrected rule. `ExampleApp.AsWrittenDelegate` keeps the rule as written; `ExampleApp.PhoneFieldStaysDigits` shows that the discrepancy cannot be reached through this keyboard alone, since its only dot is the bare ".".
