/**
 * The key table of ZHHNumberKeyboard: which tag and title `initUI` gives each of the
 * 14 buttons, and which action `handleInput` takes for a tag. Tags are ASCII codes:
 * 48-57 the digits, 46 the "." key (showing "X" on the ID-card keyboard), 127 delete,
 * and -2 the done key.
 */
module KeyTable {
  import opened Wrappers

  /** `ZHHNumberKeyboardType`. */
  datatype KeyboardType = Decimal | IdCard

  const ButtonCount: int := 14
  const TagDot: int := 46
  const TagZero: int := 48
  const TagDelete: int := 127
  const TagDone: int := -2

  /** The decimal digit character for 0 <= d < 10. */
  function DigitChar(d: int): (c: char)
    requires 0 <= d < 10
    ensures '0' <= c <= '9' && c as int - '0' as int == d
  {
    (48 + d) as char
  }

  /** The decimal digits of a natural number, most significant first. */
  function NatString(n: nat): (s: string)
    ensures |s| >= 1
    ensures n < 10 ==> s == [DigitChar(n)]
    decreases n
  {
    if n < 10 then [DigitChar(n)] else NatString(n / 10) + [DigitChar(n % 10)]
  }

  /** Swift's string interpolation of an integer, `"\(n)"`. */
  function DecimalString(n: int): string
  {
    if n < 0 then "-" + NatString(-n) else NatString(n)
  }

  /** The tag `initUI` gives the button at index i. Index 13 takes the digit branch
      and so gets tag 48, like index 9. */
  function TagAt(i: int): int
    requires 0 <= i < ButtonCount
  {
    if i == 10 then TagDot
    else if i == 11 then TagDelete
    else if i == 12 then TagDone
    else if i < 9 then 49 + i
    else TagZero
  }

  /** The title of the dot key as `initUI` and `updateKeyboardLayout` set it. */
  function DotTitle(kt: KeyboardType): string
  {
    match kt
    case Decimal => "."
    case IdCard => "X"
  }

  /** The title `initUI` gives the button at index i (None: the delete key shows an
      image and has no title). */
  function TitleAt(i: int, kt: KeyboardType): Option<string>
    requires 0 <= i < ButtonCount
  {
    if i == 10 then Some(DotTitle(kt))
    else if i == 11 then None
    else if i == 12 then Some("确定")
    else if i < 9 then Some(DecimalString(i + 1))
    else Some("0")
  }

  /** What pressing a key does. */
  datatype Action = Insert(text: string) | Delete | Done | Ignore

  /** The text `handleInput` inserts for the dot key. */
  function DotText(kt: KeyboardType): string
  {
    if kt == Decimal then "." else "X"
  }

  /** The `switch tag` of `handleInput`, with `handleNumberButtonTap` for 48...57. */
  function Dispatch(tag: int, kt: KeyboardType): Action
  {
    if tag == TagDot then Insert(DotText(kt))
    else if tag == TagDelete then Delete
    else if tag == TagDone then Done
    else if 48 <= tag <= 57 then Insert(DecimalString(tag - 48))
    else Ignore
  }

  /** Dispatch read as ASCII: a digit tag inserts the one character whose code is the
      tag; tag 46 inserts "." (code 46) on the decimal keyboard and "X" otherwise;
      127 deletes, -2 is done, and every other tag does nothing. */
  lemma DispatchIsAscii(tag: int, kt: KeyboardType)
    ensures Dispatch(tag, kt).Insert? <==> tag == TagDot || 48 <= tag <= 57
    ensures Dispatch(tag, kt) == Delete <==> tag == TagDelete
    ensures Dispatch(tag, kt) == Done <==> tag == TagDone
    ensures Dispatch(tag, kt) == Ignore <==> !(tag in {TagDot, TagDelete, TagDone} || 48 <= tag <= 57)
    ensures Dispatch(tag, kt).Insert? ==> |Dispatch(tag, kt).text| == 1
    ensures 48 <= tag <= 57 ==> Dispatch(tag, kt).text[0] as int == tag
    ensures tag == TagDot ==> Dispatch(tag, kt).text == (if kt == Decimal then "." else "X")
    ensures tag == TagDot && kt == Decimal ==> Dispatch(tag, kt).text[0] as int == tag
  {
  }

  /** Every digit button is titled with the digit `tag - 48`. */
  lemma DigitTitles(i: int, kt: KeyboardType)
    requires 0 <= i < ButtonCount && 48 <= TagAt(i) <= 57
    ensures TitleAt(i, kt) == Some(DecimalString(TagAt(i) - 48))
    ensures TitleAt(i, kt).value == [(TagAt(i)) as char]
  {
  }

  /** Each of the 14 buttons does something, and every button that inserts text is
      titled with exactly the text it inserts, on either keyboard type. */
  lemma TitlesMatchInsertedText(i: int, kt: KeyboardType)
    requires 0 <= i < ButtonCount
    ensures Dispatch(TagAt(i), kt) != Ignore
    ensures Dispatch(TagAt(i), kt).Insert? ==> TitleAt(i, kt) == Some(Dispatch(TagAt(i), kt).text)
  {
  }

  /** The dot key's title and the text it inserts agree for each keyboard type. */
  lemma DotTitleIsDotText(kt: KeyboardType)
    ensures DotTitle(kt) == DotText(kt) == Dispatch(TagDot, kt).text
  {
  }

  /** Tags are not unique: the only repeated tag is 48, at indices 9 and 13. */
  lemma OnlyZeroTagRepeats(i: int, j: int)
    requires 0 <= i < ButtonCount && 0 <= j < ButtonCount && i != j
    ensures TagAt(i) == TagAt(j) <==> (i == 9 && j == 13) || (i == 13 && j == 9)
    ensures TagAt(9) == TagAt(13) == TagZero
  {
  }
}
