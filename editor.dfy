/**
 * The editing session's cursor: position, movement keys bounded by the
 * terminal size, and the dispatch of key presses.
 */
module Editors {

  /** A cursor position: column x and row y. */
  datatype Position = Position(x: nat, y: nat)

  type U16 = n: nat | n < 0x1_0000

  /** The terminal size in character cells. */
  datatype Size = Size(width: U16, height: U16)

  /** The key codes a terminal reports; keys the editor treats alike share
      one constructor. */
  datatype KeyCode =
    | Up | Down | Left | Right | PageUp | PageDown | Home | End
    | Char(c: char)
    | Backspace | Enter | Tab | BackTab | Delete | Insert | Esc | Function(n: nat)
    | OtherKey

  datatype Modifier = Shift | Control | Alt | Super | Hyper | Meta

  /** A key press: its code and the set of modifiers held. */
  datatype KeyEvent = KeyEvent(code: KeyCode, modifiers: set<Modifier>)

  /** `saturating_sub(1)` on an unsigned integer. */
  function SaturatingSub1(n: nat): nat {
    if n == 0 then 0 else n - 1
  }

  /** The last column the cursor may reach. */
  function LastColumn(size: Size): nat {
    SaturatingSub1(size.width)
  }

  /** The last row the cursor may reach. */
  function LastRow(size: Size): nat {
    SaturatingSub1(size.height)
  }

  predicate IsMovement(code: KeyCode) {
    code.Up? || code.Down? || code.Left? || code.Right?
    || code.PageUp? || code.PageDown? || code.Home? || code.End?
  }

  /** Exactly Control held, with the character q. */
  predicate IsQuit(event: KeyEvent) {
    event.modifiers == {Control} && event.code == Char('q')
  }

  predicate InBounds(p: Position, size: Size) {
    p.x <= LastColumn(size) && p.y <= LastRow(size)
  }

  /** The movement rules: where key code takes the cursor from p within a
      terminal of the given size. */
  ghost predicate Moved(p: Position, code: KeyCode, size: Size, q: Position) {
    var w, h := LastColumn(size), LastRow(size);
    && (code.Up? ==> q == Position(p.x, if p.y > 0 then p.y - 1 else 0))
    && (code.Down? ==> q == Position(p.x, if p.y < h then p.y + 1 else p.y))
    && (code.Left? ==> q == Position(if p.x > 0 then p.x - 1 else 0, p.y))
    && (code.Right? ==> q == Position(if p.x < w then p.x + 1 else p.x, p.y))
    && (code.PageUp? ==> q == Position(p.x, 0))
    && (code.PageDown? ==> q == Position(p.x, h))
    && (code.Home? ==> q == Position(0, p.y))
    && (code.End? ==> q == Position(w, p.y))
    && (!IsMovement(code) ==> q == p)
  }

  /** The rules fix one position for every key. */
  lemma MovedIsDeterministic(p: Position, code: KeyCode, size: Size, q1: Position, q2: Position)
    requires Moved(p, code, size, q1) && Moved(p, code, size, q2)
    ensures q1 == q2
  {
  }

  /** A cursor within the terminal stays within it, whatever the key. */
  lemma MovedStaysInBounds(p: Position, code: KeyCode, size: Size, q: Position)
    requires InBounds(p, size) && Moved(p, code, size, q)
    ensures InBounds(q, size)
  {
  }

  /** Up undoes Down, and Left undoes Right, away from the terminal's edges. */
  lemma MovesUndo(p: Position, size: Size, q: Position, r: Position)
    ensures p.y < LastRow(size) && Moved(p, Down, size, q) && Moved(q, Up, size, r) ==> r == p
    ensures p.x < LastColumn(size) && Moved(p, Right, size, q) && Moved(q, Left, size, r) ==> r == p
  {
  }

  class Editor {
    var shouldQuit: bool
    var cursorPosition: Position

    /** A session that has not been asked to quit, with the cursor at the
        top-left cell. */
    constructor Start()
      ensures !shouldQuit && cursorPosition == Position(0, 0)
    {
      shouldQuit := false;
      cursorPosition := Position(0, 0);
    }

    method MoveCursor(code: KeyCode, size: Size)
      modifies this`cursorPosition
      ensures Moved(old(cursorPosition), code, size, cursorPosition)
      ensures old(InBounds(cursorPosition, size)) ==> InBounds(cursorPosition, size)
    {
      var x, y := cursorPosition.x, cursorPosition.y;
      var height := SaturatingSub1(size.height);
      var width := SaturatingSub1(size.width);
      match code {
        case Up => y := SaturatingSub1(y);
        case Down =>
          if y < height {
            // y < height < 2^16, so usize's saturating add never saturates here
            y := y + 1;
          }
        case Left => x := SaturatingSub1(x);
        case Right =>
          if x < width {
            x := x + 1;
          }
        case PageUp => y := 0;
        case PageDown => y := height;
        case Home => x := 0;
        case End => x := width;
        case _ =>
      }
      cursorPosition := Position(x, y);
    }

    method HandleKeyPress(event: KeyEvent, size: Size)
      modifies this
      ensures IsQuit(event) ==> shouldQuit && cursorPosition == old(cursorPosition)
      ensures !IsQuit(event) ==> shouldQuit == old(shouldQuit)
      ensures !IsQuit(event) ==> Moved(old(cursorPosition), event.code, size, cursorPosition)
      ensures !IsQuit(event) && !IsMovement(event.code) ==> cursorPosition == old(cursorPosition)
    {
      if IsQuit(event) {
        shouldQuit := true;
      } else if IsMovement(event.code) {
        MoveCursor(event.code, size);
      }
    }
  }
}
