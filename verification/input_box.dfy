/**
 * The editing model of the text box widget
 * (Sources/HelbreathRaylib/UI/InputBox.cpp and InputBox.h): the text, the
 * cursor, the selection and the length limit, the character filter, and
 * the focus rule that lets at most one box hold the keyboard.
 *
 * `Edit` is the editing state as a value and the `...Op` functions say what
 * each operation makes of it; the `InputBox` class holds the same state in
 * fields and its methods update them in place, each proved to produce what
 * its function says. Drawing, fonts, scrolling, clipboard access and the
 * change callbacks are left out.
 */
module InputBoxModel {
  import opened Wrappers

  /** `_text`, `_cursor_position`, `_selection_start` and `_selection_end`; -1 marks no selection end. */
  datatype Edit = Edit(text: string, cursor: int, selStart: int, selEnd: int)

  /** The default `max_length` of a box. */
  const DEFAULT_MAX_LENGTH: int := 32767

  function Min(a: int, b: int): int
  {
    if a <= b then a else b
  }

  function Max(a: int, b: int): int
  {
    if a <= b then b else a
  }

  /** `std::clamp(v, lo, hi)` for lo <= hi. */
  function Clamp(v: int, lo: int, hi: int): int
    requires lo <= hi
  {
    if v < lo then lo else if hi < v then hi else v
  }

  /** `text.erase(pos, n)`. */
  function Erase(text: string, pos: nat, n: nat): string
    requires pos + n <= |text|
  {
    text[..pos] + text[pos + n..]
  }

  /** `text.insert(pos, s)`. */
  function InsertAt(text: string, pos: nat, s: string): string
    requires pos <= |text|
  {
    text[..pos] + s + text[pos..]
  }

  /** `HasSelection`: both ends set and different. */
  predicate HasSelection(e: Edit)
  {
    e.selStart >= 0 && e.selEnd >= 0 && e.selStart != e.selEnd
  }

  function SelectionMin(e: Edit): int
  {
    Min(e.selStart, e.selEnd)
  }

  function SelectionMax(e: Edit): int
  {
    Max(e.selStart, e.selEnd)
  }

  /**
   * The state every operation keeps: the cursor inside the text, a live
   * selection inside the text, and the text no longer than a non-negative
   * limit. (A negative limit, which `SetMaxLength` accepts, limits nothing
   * already there, as the unsigned comparisons of the source do.)
   */
  predicate Good(e: Edit, maxLength: int)
  {
    0 <= e.cursor <= |e.text| &&
    (HasSelection(e) ==> e.selStart <= |e.text| && e.selEnd <= |e.text|) &&
    (maxLength >= 0 ==> |e.text| <= maxLength)
  }

  /** A text cut to the limit, when the limit is non-negative and the text longer. */
  function Truncated(text: string, maxLength: int): string
  {
    if maxLength >= 0 && |text| > maxLength then text[..maxLength] else text
  }

  function ClearSelectionOp(e: Edit): Edit
  {
    e.(selStart := -1, selEnd := -1)
  }

  /** `SetText` (InputBox.cpp:39-55). */
  function SetTextOp(e: Edit, text: string, maxLength: int): Edit
  {
    var t := Truncated(text, maxLength);
    Edit(t, Min(e.cursor, |t|), -1, -1)
  }

  /** `Clear` (InputBox.cpp:57-66). */
  function ClearOp(e: Edit): Edit
  {
    Edit([], 0, -1, -1)
  }

  /** `SetMaxLength` (InputBox.cpp:68-81): truncates only a text longer than a non-negative limit. */
  function SetMaxLengthOp(e: Edit, maxLength: int): Edit
  {
    if maxLength >= 0 && |e.text| > maxLength then
      Edit(e.text[..maxLength], Min(e.cursor, maxLength), -1, -1)
    else e
  }

  /** `InsertText` (InputBox.cpp:590-608): inserts at the cursor as much of `s` as fits. */
  function InsertOp(e: Edit, s: string, maxLength: int): Edit
    requires 0 <= e.cursor <= |e.text|
  {
    var available := maxLength - |e.text|;
    if available <= 0 then e
    else
      var toInsert := if |s| > available then s[..available] else s;
      e.(text := InsertAt(e.text, e.cursor, toInsert), cursor := e.cursor + |toInsert|)
  }

  /** `GetSelectedText` (InputBox.cpp:473-478). */
  function SelectedText(e: Edit): string
    requires HasSelection(e) ==> e.selStart <= |e.text| && e.selEnd <= |e.text|
  {
    if !HasSelection(e) then [] else e.text[SelectionMin(e)..SelectionMax(e)]
  }

  /** `DeleteSelection` (InputBox.cpp:480-493). */
  function DeleteSelectionOp(e: Edit): Edit
    requires HasSelection(e) ==> e.selStart <= |e.text| && e.selEnd <= |e.text|
  {
    if !HasSelection(e) then e
    else
      var lo := SelectionMin(e);
      Edit(Erase(e.text, lo, SelectionMax(e) - lo), lo, -1, -1)
  }

  /** `SelectAll` (InputBox.cpp:468-471). */
  function SelectAllOp(e: Edit): Edit
  {
    e.(selStart := 0, selEnd := |e.text|)
  }

  /**
   * `MoveCursor` (InputBox.cpp:495-512): clamps the position into the text;
   * selecting anchors a new selection at the old cursor, otherwise the
   * selection is dropped.
   */
  function MoveCursorOp(e: Edit, position: int, select: bool): Edit
  {
    var p := Clamp(position, 0, |e.text|);
    if select then
      Edit(e.text, p, if HasSelection(e) then e.selStart else e.cursor, p)
    else
      Edit(e.text, p, -1, -1)
  }

  /** `MoveCursorLeft` (InputBox.cpp:514-523). */
  function MoveLeftOp(e: Edit, select: bool): Edit
  {
    if !select && HasSelection(e) then Edit(e.text, SelectionMin(e), -1, -1)
    else if e.cursor > 0 then MoveCursorOp(e, e.cursor - 1, select)
    else e
  }

  /** `MoveCursorRight` (InputBox.cpp:525-534). */
  function MoveRightOp(e: Edit, select: bool): Edit
  {
    if !select && HasSelection(e) then Edit(e.text, SelectionMax(e), -1, -1)
    else if e.cursor < |e.text| then MoveCursorOp(e, e.cursor + 1, select)
    else e
  }

  /** `DeleteCharacterAtCursor` (InputBox.cpp:610-618). */
  function DeleteAtCursorOp(e: Edit): Edit
    requires 0 <= e.cursor
  {
    if e.cursor < |e.text| then e.(text := Erase(e.text, e.cursor, 1)) else e
  }

  /** `DeleteCharacterBeforeCursor` (InputBox.cpp:620-631). */
  function DeleteBeforeCursorOp(e: Edit): Edit
    requires e.cursor <= |e.text|
  {
    if e.cursor > 0 then e.(text := Erase(e.text, e.cursor - 1, 1), cursor := e.cursor - 1) else e
  }

  /** The Backspace key (InputBox.cpp:324-332). */
  function BackspaceOp(e: Edit): Edit
    requires Good(e, -1)
  {
    if HasSelection(e) then DeleteSelectionOp(e) else DeleteBeforeCursorOp(e)
  }

  /** The Delete key (InputBox.cpp:335-343). */
  function DeleteKeyOp(e: Edit): Edit
    requires Good(e, -1)
  {
    if HasSelection(e) then DeleteSelectionOp(e) else DeleteAtCursorOp(e)
  }

  /** Ctrl+X (InputBox.cpp:435-441): the selection removed, and the text for the clipboard if there was one. */
  function CutOp(e: Edit): (Edit, Option<string>)
    requires HasSelection(e) ==> e.selStart <= |e.text| && e.selEnd <= |e.text|
  {
    if HasSelection(e) then (DeleteSelectionOp(e), Some(SelectedText(e))) else (e, None)
  }

  /** Ctrl+V (InputBox.cpp:444-451): a non-empty clipboard replaces the selection. */
  function PasteOp(e: Edit, clipboard: string, maxLength: int): Edit
    requires Good(e, -1)
  {
    if clipboard == [] then e else InsertOp(DeleteSelectionOp(e), clipboard, maxLength)
  }

  /** `IsCharacterAllowed` (InputBox.cpp:101-104): any character without a filter, else one of the filter's. */
  predicate CharacterAllowed(c: char, hasFilter: bool, allowed: string)
  {
    !hasFilter || c in allowed
  }

  /** One typed key of `HandleTextInput` (InputBox.cpp:354-371). */
  function TypeKeyOp(e: Edit, key: int, maxLength: int, hasFilter: bool, allowed: string): Edit
    requires Good(e, -1)
  {
    if 32 <= key < 127 && CharacterAllowed(key as char, hasFilter, allowed) then
      InsertOp(DeleteSelectionOp(e), [key as char], maxLength)
    else e
  }

  // ---------------------------------------------------------------------
  // Properties of the operations
  // ---------------------------------------------------------------------

  /**
   * `SetText` keeps at most `maxLength` characters of the new text (all of
   * them under a negative limit), never leaves the cursor past the end, and
   * clears the selection.
   */
  lemma SetTextResult(e: Edit, text: string, maxLength: int)
    requires 0 <= e.cursor
    ensures var r := SetTextOp(e, text, maxLength);
      Good(r, maxLength) && !HasSelection(r) &&
      (maxLength >= 0 && |text| > maxLength ==> r.text == text[..maxLength]) &&
      (maxLength < 0 || |text| <= maxLength ==> r.text == text) &&
      r.cursor == Min(e.cursor, |r.text|)
  {
  }

  /** `Clear` leaves an empty text with the cursor at 0 and no selection. */
  lemma ClearResult(e: Edit, maxLength: int)
    ensures var r := ClearOp(e); r.text == [] && r.cursor == 0 && !HasSelection(r) && Good(r, maxLength)
  {
  }

  /** `SetMaxLength` truncates a longer text to the new limit and keeps the cursor inside it. */
  lemma SetMaxLengthResult(e: Edit, oldMax: int, maxLength: int)
    requires Good(e, oldMax)
    ensures var r := SetMaxLengthOp(e, maxLength);
      Good(r, maxLength) &&
      (maxLength >= 0 && |e.text| > maxLength ==> r.text == e.text[..maxLength] && !HasSelection(r)) &&
      (maxLength < 0 || |e.text| <= maxLength ==> r == e)
  {
  }

  /**
   * `InsertText` never makes the text longer than the limit, keeps the
   * characters before and after the cursor, and advances the cursor by
   * exactly the number of characters it inserted, which is all of `s` that fits.
   */
  lemma InsertResult(e: Edit, s: string, maxLength: int)
    requires Good(e, maxLength)
    ensures var r := InsertOp(e, s, maxLength);
      var n := r.cursor - e.cursor;
      Good(r, maxLength) &&
      n == |r.text| - |e.text| &&
      n == (if maxLength - |e.text| <= 0 then 0 else Min(|s|, maxLength - |e.text|)) &&
      r.text == e.text[..e.cursor] + s[..n] + e.text[e.cursor..]
  {
    var r := InsertOp(e, s, maxLength);
    if maxLength - |e.text| <= 0 {
      assert e.text == e.text[..e.cursor] + e.text[e.cursor..];
    } else if |s| <= maxLength - |e.text| {
      assert s[..|s|] == s;
    }
  }

  /** `DeleteSelection` removes [min, max), puts the cursor at min and clears the selection. */
  lemma DeleteSelectionResult(e: Edit, maxLength: int)
    requires Good(e, maxLength) && HasSelection(e)
    ensures var r := DeleteSelectionOp(e);
      Good(r, maxLength) && !HasSelection(r) &&
      r.text == e.text[..SelectionMin(e)] + e.text[SelectionMax(e)..] &&
      r.cursor == SelectionMin(e)
  {
  }

  /**
   * Cutting a selection and pasting it back at the cursor restores the text,
   * with the cursor after the pasted characters and nothing selected, when
   * the limit leaves room for the text.
   */
  lemma {:induction false} CutPasteRestores(e: Edit, maxLength: int)
    requires Good(e, maxLength) && HasSelection(e) && maxLength >= |e.text|
    ensures CutOp(e).1.Some?
    ensures PasteOp(CutOp(e).0, CutOp(e).1.value, maxLength) == Edit(e.text, SelectionMax(e), -1, -1)
  {
    var lo, hi := SelectionMin(e), SelectionMax(e);
    var d := DeleteSelectionOp(e);
    assert d.text == e.text[..lo] + e.text[hi..];
    assert d.text[..lo] == e.text[..lo];
    assert d.text[lo..] == e.text[hi..];
    assert e.text == e.text[..lo] + e.text[lo..hi] + e.text[hi..];
    assert SelectedText(e) == e.text[lo..hi];
    assert !HasSelection(d);
  }

  /** Cutting takes the selected text to the clipboard and removes it; without a selection nothing happens. */
  lemma CutResult(e: Edit, maxLength: int)
    requires Good(e, maxLength)
    ensures CutOp(e).1.Some? <==> HasSelection(e)
    ensures HasSelection(e) ==> CutOp(e).1.value == e.text[SelectionMin(e)..SelectionMax(e)] && |CutOp(e).1.value| > 0
    ensures !HasSelection(e) ==> CutOp(e).0 == e
    ensures Good(CutOp(e).0, maxLength) && !HasSelection(CutOp(e).0)
  {
  }

  /** Pasting replaces the selection by as much of the clipboard as fits; an empty clipboard changes nothing. */
  lemma PasteResult(e: Edit, clipboard: string, maxLength: int)
    requires Good(e, maxLength)
    ensures clipboard == [] ==> PasteOp(e, clipboard, maxLength) == e
    ensures Good(PasteOp(e, clipboard, maxLength), maxLength)
    ensures clipboard != [] ==>
      var d := DeleteSelectionOp(e);
      var r := PasteOp(e, clipboard, maxLength);
      var n := r.cursor - d.cursor;
      0 <= n <= |clipboard| && r.text == d.text[..d.cursor] + clipboard[..n] + d.text[d.cursor..]
  {
    if clipboard != [] {
      if HasSelection(e) {
        DeleteSelectionResult(e, maxLength);
      }
      InsertResult(DeleteSelectionOp(e), clipboard, maxLength);
    }
  }

  /**
   * `MoveCursor` puts the cursor at the position clamped into the text;
   * selecting keeps an existing anchor or anchors at the previous cursor,
   * with the selection's other end at the new cursor.
   */
  lemma MoveCursorResult(e: Edit, position: int, select: bool, maxLength: int)
    requires Good(e, maxLength)
    ensures var r := MoveCursorOp(e, position, select);
      Good(r, maxLength) && r.text == e.text &&
      0 <= r.cursor <= |e.text| &&
      (0 <= position <= |e.text| ==> r.cursor == position) &&
      (position < 0 ==> r.cursor == 0) && (position > |e.text| ==> r.cursor == |e.text|) &&
      (select ==> r.selEnd == r.cursor && r.selStart == (if HasSelection(e) then e.selStart else e.cursor)) &&
      (!select ==> !HasSelection(r))
  {
  }

  /** Left and right without selecting collapse a selection onto its near end. */
  lemma ArrowCollapsesSelection(e: Edit, maxLength: int)
    requires Good(e, maxLength) && HasSelection(e)
    ensures MoveLeftOp(e, false).cursor == SelectionMin(e) && !HasSelection(MoveLeftOp(e, false))
    ensures MoveRightOp(e, false).cursor == SelectionMax(e) && !HasSelection(MoveRightOp(e, false))
    ensures Good(MoveLeftOp(e, false), maxLength) && Good(MoveRightOp(e, false), maxLength)
  {
  }

  /** Backspace at the start with no selection changes nothing; otherwise it removes the character before the cursor. */
  lemma BackspaceResult(e: Edit, maxLength: int)
    requires Good(e, maxLength) && !HasSelection(e)
    ensures e.cursor == 0 ==> BackspaceOp(e) == e
    ensures e.cursor > 0 ==>
      BackspaceOp(e).text == e.text[..e.cursor - 1] + e.text[e.cursor..] &&
      BackspaceOp(e).cursor == e.cursor - 1
    ensures Good(BackspaceOp(e), maxLength)
  {
  }

  /** The Delete key keeps the state good. */
  lemma DeleteKeyKeepsGood(e: Edit, maxLength: int)
    requires Good(e, maxLength)
    ensures Good(DeleteKeyOp(e), maxLength)
  {
    if HasSelection(e) {
      DeleteSelectionResult(e, maxLength);
    }
  }

  /** Selecting everything and the arrow keys keep the state good. */
  lemma MovesKeepGood(e: Edit, maxLength: int, select: bool)
    requires Good(e, maxLength)
    ensures Good(SelectAllOp(e), maxLength)
    ensures Good(MoveLeftOp(e, select), maxLength) && Good(MoveRightOp(e, select), maxLength)
  {
  }

  /** A typed key keeps the state good. */
  lemma TypeKeyKeepsGood(e: Edit, maxLength: int, key: int, hasFilter: bool, allowed: string)
    requires Good(e, maxLength)
    ensures Good(TypeKeyOp(e, key, maxLength, hasFilter, allowed), maxLength)
  {
    var c := if 32 <= key < 127 then key as char else ' ';
    if HasSelection(e) {
      DeleteSelectionResult(e, maxLength);
    }
    InsertResult(DeleteSelectionOp(e), [c], maxLength);
  }

  /** Without a filter every character is allowed; with one, exactly the filter's characters. */
  lemma CharacterFilter(c: char, allowed: string)
    ensures CharacterAllowed(c, false, allowed)
    ensures CharacterAllowed(c, |allowed| > 0, allowed) <==> |allowed| == 0 || c in allowed
  {
  }

  // ---------------------------------------------------------------------
  // The widget
  // ---------------------------------------------------------------------

  /** `UI::InputBox`: the editing fields updated in place by its methods. */
  class InputBox {
    var text: string
    var cursor: int
    var selStart: int
    var selEnd: int
    var maxLength: int
    var focused: bool
    var allowed: string
    var hasFilter: bool

    function State(): Edit
      reads this
    {
      Edit(text, cursor, selStart, selEnd)
    }

    ghost predicate Valid()
      reads this
    {
      -0x8000 <= maxLength < 0x8000 && Good(State(), maxLength)
    }

    /** A new box: empty, no selection, limit 32767, not focused, no filter. */
    constructor ()
      ensures Valid() && !focused && !hasFilter
      ensures text == [] && cursor == 0 && selStart == -1 && selEnd == -1 && maxLength == DEFAULT_MAX_LENGTH
    {
      text := [];
      cursor := 0;
      selStart := -1;
      selEnd := -1;
      maxLength := DEFAULT_MAX_LENGTH;
      focused := false;
      allowed := [];
      hasFilter := false;
    }

    predicate HasSelectionNow()
      reads this
    {
      selStart >= 0 && selEnd >= 0 && selStart != selEnd
    }

    method ClearSelection()
      modifies this
      ensures State() == ClearSelectionOp(old(State()))
      ensures maxLength == old(maxLength) && focused == old(focused)
      ensures allowed == old(allowed) && hasFilter == old(hasFilter)
    {
      selStart := -1;
      selEnd := -1;
    }

    method SetText(t: string)
      requires Valid()
      modifies this
      ensures Valid() && State() == SetTextOp(old(State()), t, maxLength)
      ensures maxLength == old(maxLength) && focused == old(focused)
      ensures allowed == old(allowed) && hasFilter == old(hasFilter)
    {
      if maxLength >= 0 && |t| > maxLength {
        text := t[..maxLength];
      } else {
        text := t;
      }
      cursor := Min(cursor, |text|);
      ClearSelection();
    }

    method Clear()
      requires Valid()
      modifies this
      ensures Valid() && State() == ClearOp(old(State()))
      ensures maxLength == old(maxLength) && focused == old(focused)
      ensures allowed == old(allowed) && hasFilter == old(hasFilter)
    {
      text := [];
      cursor := 0;
      ClearSelection();
    }

    method SetMaxLength(newMax: int)
      requires Valid() && -0x8000 <= newMax < 0x8000
      modifies this
      ensures Valid() && maxLength == newMax && State() == SetMaxLengthOp(old(State()), newMax)
      ensures focused == old(focused) && allowed == old(allowed) && hasFilter == old(hasFilter)
    {
      ghost var e := State();
      SetMaxLengthResult(e, maxLength, newMax);
      maxLength := newMax;
      if newMax >= 0 && |text| > newMax {
        text := text[..newMax];
        cursor := Min(cursor, |text|);
        ClearSelection();
      }
    }

    /** `SetAllowedCharacters` (InputBox.cpp:91-94): an empty set of characters turns the filter off. */
    method SetAllowedCharacters(chars: string)
      modifies this
      ensures allowed == chars && hasFilter == (|chars| > 0)
      ensures State() == old(State()) && maxLength == old(maxLength) && focused == old(focused)
    {
      allowed := chars;
      hasFilter := |chars| > 0;
    }

    predicate IsCharacterAllowed(c: char)
      reads this
    {
      CharacterAllowed(c, hasFilter, allowed)
    }

    method InsertText(s: string)
      requires Valid()
      modifies this
      ensures Valid() && State() == InsertOp(old(State()), s, maxLength)
      ensures maxLength == old(maxLength) && focused == old(focused)
      ensures allowed == old(allowed) && hasFilter == old(hasFilter)
    {
      InsertResult(State(), s, maxLength);
      var available := maxLength - |text|;
      if available <= 0 {
        return;
      }
      var toInsert := if |s| > available then s[..available] else s;
      text := text[..cursor] + toInsert + text[cursor..];
      cursor := cursor + |toInsert|;
    }

    method SelectAll()
      requires Valid()
      modifies this
      ensures Valid() && State() == SelectAllOp(old(State()))
      ensures maxLength == old(maxLength) && focused == old(focused)
      ensures allowed == old(allowed) && hasFilter == old(hasFilter)
    {
      selStart := 0;
      selEnd := |text|;
    }

    method DeleteSelection()
      requires Valid()
      modifies this
      ensures Valid() && State() == DeleteSelectionOp(old(State()))
      ensures maxLength == old(maxLength) && focused == old(focused)
      ensures allowed == old(allowed) && hasFilter == old(hasFilter)
    {
      if !HasSelectionNow() {
        return;
      }
      var lo := Min(selStart, selEnd);
      var hi := Max(selStart, selEnd);
      text := text[..lo] + text[hi..];
      cursor := lo;
      ClearSelection();
    }

    method MoveCursor(position: int, select: bool)
      requires Valid()
      modifies this
      ensures Valid() && State() == MoveCursorOp(old(State()), position, select)
      ensures maxLength == old(maxLength) && focused == old(focused)
      ensures allowed == old(allowed) && hasFilter == old(hasFilter)
    {
      var p := Clamp(position, 0, |text|);
      if select {
        if !HasSelectionNow() {
          selStart := cursor;
        }
        selEnd := p;
      } else {
        ClearSelection();
      }
      cursor := p;
    }

    method MoveCursorLeft(select: bool)
      requires Valid()
      modifies this
      ensures Valid() && State() == MoveLeftOp(old(State()), select)
      ensures maxLength == old(maxLength) && focused == old(focused)
      ensures allowed == old(allowed) && hasFilter == old(hasFilter)
    {
      if !select && HasSelectionNow() {
        cursor := Min(selStart, selEnd);
        ClearSelection();
      } else if cursor > 0 {
        MoveCursor(cursor - 1, select);
      }
    }

    method MoveCursorRight(select: bool)
      requires Valid()
      modifies this
      ensures Valid() && State() == MoveRightOp(old(State()), select)
      ensures maxLength == old(maxLength) && focused == old(focused)
      ensures allowed == old(allowed) && hasFilter == old(hasFilter)
    {
      if !select && HasSelectionNow() {
        cursor := Max(selStart, selEnd);
        ClearSelection();
      } else if cursor < |text| {
        MoveCursor(cursor + 1, select);
      }
    }

    method MoveCursorToStart(select: bool)
      requires Valid()
      modifies this
      ensures Valid() && State() == MoveCursorOp(old(State()), 0, select)
      ensures maxLength == old(maxLength) && focused == old(focused)
      ensures allowed == old(allowed) && hasFilter == old(hasFilter)
    {
      MoveCursor(0, select);
    }

    method MoveCursorToEnd(select: bool)
      requires Valid()
      modifies this
      ensures Valid() && State() == MoveCursorOp(old(State()), |old(text)|, select)
      ensures maxLength == old(maxLength) && focused == old(focused)
      ensures allowed == old(allowed) && hasFilter == old(hasFilter)
    {
      MoveCursor(|text|, select);
    }

    /** Only called when there is no selection: the key handlers delete a selection instead. */
    method DeleteCharacterAtCursor()
      requires Valid() && !HasSelectionNow()
      modifies this
      ensures Valid() && State() == DeleteAtCursorOp(old(State()))
      ensures maxLength == old(maxLength) && focused == old(focused)
      ensures allowed == old(allowed) && hasFilter == old(hasFilter)
    {
      if cursor < |text| {
        text := text[..cursor] + text[cursor + 1..];
      }
    }

    /** Only called when there is no selection: the key handlers delete a selection instead. */
    method DeleteCharacterBeforeCursor()
      requires Valid() && !HasSelectionNow()
      modifies this
      ensures Valid() && State() == DeleteBeforeCursorOp(old(State()))
      ensures maxLength == old(maxLength) && focused == old(focused)
      ensures allowed == old(allowed) && hasFilter == old(hasFilter)
    {
      if cursor > 0 {
        text := text[..cursor - 1] + text[cursor..];
        cursor := cursor - 1;
      }
    }

    /** Ctrl+X: returns the text for the clipboard, if anything was selected. */
    method Cut() returns (clipboard: Option<string>)
      requires Valid()
      modifies this
      ensures Valid() && (State(), clipboard) == CutOp(old(State()))
      ensures maxLength == old(maxLength) && focused == old(focused)
      ensures allowed == old(allowed) && hasFilter == old(hasFilter)
    {
      if HasSelectionNow() {
        clipboard := Some(text[Min(selStart, selEnd)..Max(selStart, selEnd)]);
        DeleteSelection();
      } else {
        clipboard := None;
      }
    }

    /** Ctrl+V with the clipboard's text. */
    method Paste(clipboard: string)
      requires Valid()
      modifies this
      ensures Valid() && State() == PasteOp(old(State()), clipboard, maxLength)
      ensures maxLength == old(maxLength) && focused == old(focused)
      ensures allowed == old(allowed) && hasFilter == old(hasFilter)
    {
      if clipboard != [] {
        if HasSelectionNow() {
          DeleteSelection();
        }
        InsertText(clipboard);
      }
    }

    /** The Backspace branch of `HandleKeyboardInput`. */
    method PressBackspace()
      requires Valid()
      modifies this
      ensures Valid() && State() == BackspaceOp(old(State()))
      ensures maxLength == old(maxLength) && focused == old(focused)
      ensures allowed == old(allowed) && hasFilter == old(hasFilter)
    {
      if HasSelectionNow() {
        DeleteSelection();
      } else {
        DeleteCharacterBeforeCursor();
      }
    }

    /** The Delete branch of `HandleKeyboardInput`. */
    method PressDelete()
      requires Valid()
      modifies this
      ensures Valid() && State() == DeleteKeyOp(old(State()))
      ensures maxLength == old(maxLength) && focused == old(focused)
      ensures allowed == old(allowed) && hasFilter == old(hasFilter)
    {
      if HasSelectionNow() {
        DeleteSelection();
      } else {
        DeleteCharacterAtCursor();
      }
    }

    /**
     * `HandleTextInput`: the keys the window queued, read until the first
     * non-positive code; each printable, allowed key replaces the selection
     * and is inserted at the cursor.
     */
    method HandleTextInput(keys: seq<int>)
      requires Valid()
      modifies this
      ensures Valid() && State() == TypeKeys(old(State()), keys, old(maxLength), old(hasFilter), old(allowed))
      ensures maxLength == old(maxLength) && focused == old(focused)
      ensures allowed == old(allowed) && hasFilter == old(hasFilter)
    {
      var i := 0;
      while i < |keys| && keys[i] > 0
        invariant 0 <= i <= |keys|
        invariant Valid() && maxLength == old(maxLength) && focused == old(focused)
        invariant allowed == old(allowed) && hasFilter == old(hasFilter)
        invariant forall j | 0 <= j < i :: keys[j] > 0
        invariant TypeKeys(old(State()), keys, maxLength, hasFilter, allowed)
               == TypeKeys(State(), keys[i..], maxLength, hasFilter, allowed)
      {
        var key := keys[i];
        ghost var before := State();
        TypeKeyKeepsGood(before, maxLength, key, hasFilter, allowed);
        if 32 <= key < 127 {
          var c := key as char;
          if IsCharacterAllowed(c) {
            if HasSelectionNow() {
              DeleteSelection();
            }
            InsertText([c]);
          }
        }
        assert State() == TypeKeyOp(before, key, maxLength, hasFilter, allowed);
        assert keys[i..][1..] == keys[i + 1..];
        i := i + 1;
      }
    }

    /** `Blur` (InputBox.cpp:124-136). */
    method Blur(focus: FocusTracker)
      requires Valid() && focus.Valid()
      modifies this, focus
      ensures Valid() && focus.Valid() && !focused
      ensures old(focused) ==> State() == ClearSelectionOp(old(State()))
      ensures !old(focused) ==> State() == old(State())
      ensures focus.active == (if old(focused) && old(focus.active) == this then null else old(focus.active))
      ensures maxLength == old(maxLength) && allowed == old(allowed) && hasFilter == old(hasFilter)
      ensures focus.boxes == old(focus.boxes)
    {
      if focused {
        focused := false;
        if focus.active == this {
          focus.active := null;
        }
        ClearSelection();
      }
    }

    /** `Focus` (InputBox.cpp:106-122): blurs the box that had the keyboard and takes it. */
    method Focus(focus: FocusTracker)
      requires Valid() && focus.Valid() && this in focus.boxes
      modifies this, focus, focus.active
      ensures focus.Valid() && focused && focus.active == this
      ensures State() == old(State()) && maxLength == old(maxLength)
      ensures focus.boxes == old(focus.boxes)
      ensures allowed == old(allowed) && hasFilter == old(hasFilter)
      ensures old(focus.active) != null && old(focus.active) != this ==> !old(focus.active).focused
      ensures old(focus.active) != null && old(focus.active) != this ==>
        old(focus.active).State() == ClearSelectionOp(old(focus.active.State())) &&
        old(focus.active).maxLength == old(focus.active.maxLength) &&
        old(focus.active).allowed == old(focus.active.allowed) &&
        old(focus.active).hasFilter == old(focus.active.hasFilter)
    {
      if !focused {
        var previous := focus.active;
        if previous != null && previous != this {
          assert previous.focused;
          previous.BlurIfValid(focus);
        }
        focused := true;
        focus.active := this;
      }
    }

    /** `Blur` on the previously focused box, whose editing state is not otherwise constrained here. */
    method BlurIfValid(focus: FocusTracker)
      requires focused && focus.active == this
      modifies this, focus
      ensures !focused && focus.active == null && focus.boxes == old(focus.boxes)
      ensures State() == ClearSelectionOp(old(State())) && maxLength == old(maxLength)
      ensures allowed == old(allowed) && hasFilter == old(hasFilter)
    {
      focused := false;
      focus.active := null;
      ClearSelection();
    }
  }

  /** The keys of `HandleTextInput` applied in turn, up to the first non-positive code. */
  function TypeKeys(e: Edit, keys: seq<int>, maxLength: int, hasFilter: bool, allowed: string): Edit
    requires Good(e, maxLength)
    decreases |keys|
  {
    if |keys| == 0 || keys[0] <= 0 then e
    else
      TypeKeyKeepsGood(e, maxLength, keys[0], hasFilter, allowed);
      TypeKeys(TypeKeyOp(e, keys[0], maxLength, hasFilter, allowed), keys[1..], maxLength, hasFilter, allowed)
  }

  /**
   * The static `_active_input_box` together with the boxes that exist: a
   * box is focused exactly when it is the active one.
   */
  class FocusTracker {
    var active: InputBox?
    ghost var boxes: set<InputBox>

    ghost predicate Valid()
      reads this, boxes
    {
      (active != null ==> active in boxes && active.focused) &&
      forall b | b in boxes :: b.focused ==> b == active
    }

    constructor (boxes: set<InputBox>)
      requires forall b | b in boxes :: !b.focused
      ensures Valid() && active == null && this.boxes == boxes
    {
      active := null;
      this.boxes := boxes;
    }
  }

  /** At most one box is focused at any time. */
  lemma AtMostOneFocused(focus: FocusTracker, a: InputBox, b: InputBox)
    requires focus.Valid() && a in focus.boxes && b in focus.boxes
    requires a.focused && b.focused
    ensures a == b
  {
  }
}
