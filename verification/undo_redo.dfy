/**
 * Undo and redo: their action kinds and the key listener that maps
 * Ctrl/Cmd+Z and Ctrl/Cmd+Shift+Z to them.
 */
module UndoRedo {
  import opened SModel
  import opened Actions

  const UndoKind := "undo"
  const RedoKind := "redo"

  const UndoAction := Action(UndoKind)
  const RedoAction := Action(RedoKind)

  /** The part of a keyboard event the listener reads; whether Ctrl or Cmd is held is decided by the browser helper. */
  datatype KeyEvent = KeyEvent(ctrlOrCmd: bool, keyCode: int, shiftKey: bool)

  /** The key code of Z. */
  const KeyZ := 90

  /** keyPress: Ctrl/Cmd+Z undoes, with Shift it redoes; any other key gives no action. */
  function KeyPress(element: Element, event: KeyEvent): (r: seq<Action>)
    ensures |r| <= 1
    ensures r == [RedoAction] <==> event.ctrlOrCmd && event.keyCode == KeyZ && event.shiftKey
    ensures r == [UndoAction] <==> event.ctrlOrCmd && event.keyCode == KeyZ && !event.shiftKey
    ensures r == [] <==> !event.ctrlOrCmd || event.keyCode != KeyZ
  {
    if event.ctrlOrCmd && event.keyCode == KeyZ then
      if event.shiftKey then [RedoAction] else [UndoAction]
    else []
  }

  /** The element the key was pressed on plays no part. */
  lemma KeyPressIgnoresElement(e1: Element, e2: Element, event: KeyEvent)
    ensures KeyPress(e1, event) == KeyPress(e2, event)
  {
  }

  /** The lower-case kinds differ from the capitalised ones of the older action constants. */
  lemma KindsDifferFromLegacy()
    ensures UndoKind != LegacyUndoKind && RedoKind != LegacyRedoKind && UndoKind != RedoKind
  {
  }
}
