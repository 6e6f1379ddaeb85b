/** Key events and list selection as the terminal screens of critic-term see them.

    Key events come from crossterm; a selection is the `selected` field of ratatui's
    `ListState`/`TableState` (version 0.28), whose movement operations do not look at
    the length of the list: rendering clamps the selection afterwards. */
module Terminal {
  import opened Sqlite

  datatype KeyCode = Up | Down | Left | Right | Enter | Esc | Char(c: char) | OtherKey

  /** A key press; `control` holds when the modifiers are exactly CONTROL. */
  datatype KeyEvent = KeyEvent(code: KeyCode, control: bool)

  /** `select_next`: nothing selected selects the first row, otherwise one down (saturating). */
  function SelectNext(sel: Option<nat>): (r: Option<nat>)
    ensures r.Some?
    ensures sel.None? ==> r == Some(0)
    ensures sel.Some? && sel.value < USIZE_MAX ==> r == Some(sel.value + 1)
  {
    match sel
    case None => Some(0)
    case Some(i) => Some(if i < USIZE_MAX then i + 1 else i)
  }

  /** `select_previous`: nothing selected selects the last row, otherwise one up (saturating). */
  function SelectPrevious(sel: Option<nat>): (r: Option<nat>)
    ensures r.Some?
    ensures sel.None? ==> r == Some(USIZE_MAX)
    ensures sel.Some? && sel.value > 0 ==> r == Some(sel.value - 1)
    ensures sel == Some(0) ==> r == Some(0)
  {
    match sel
    case None => Some(USIZE_MAX)
    case Some(i) => Some(if i > 0 then i - 1 else 0)
  }

  const SELECT_FIRST: Option<nat> := Some(0)
  const SELECT_LAST: Option<nat> := Some(USIZE_MAX)

  /** What rendering a list of `len` rows does to the selection: none in an empty list,
      the last row for a selection past the end. */
  function Clamp(sel: Option<nat>, len: nat): (r: Option<nat>)
    ensures len == 0 ==> r.None?
    ensures r.Some? ==> r.value < len
    ensures len > 0 && sel.Some? ==> r.Some? && r.value <= sel.value
    ensures sel.Some? && sel.value < len ==> r == sel
  {
    if len == 0 then None
    else match sel
      case None => None
      case Some(i) => Some(if i < len then i else len - 1)
  }

  /** `select_last`, once rendered, selects the last row of a non-empty list. */
  lemma SelectLastRendered(len: nat)
    requires 0 < len <= USIZE_MAX
    ensures Clamp(SELECT_LAST, len) == Some(len - 1)
  {
  }

  /** On a rendered selection, moving down stops at the last row and moving up stops at
      the first; moving up with nothing selected reaches the last row. */
  lemma MovesRendered(sel: Option<nat>, len: nat)
    requires 0 < len <= USIZE_MAX
    requires sel.Some? ==> sel.value < len
    ensures sel.Some? ==> Clamp(SelectNext(sel), len) == Some(if sel.value + 1 < len then sel.value + 1 else len - 1)
    ensures sel.Some? ==> Clamp(SelectPrevious(sel), len) == Some(if sel.value > 0 then sel.value - 1 else 0)
    ensures sel.None? ==> Clamp(SelectNext(sel), len) == Some(0)
    ensures sel.None? ==> Clamp(SelectPrevious(sel), len) == Some(len - 1)
  {
  }
}
