/** Keyboard input as a text input sees it: the physical key code, the logical key
    the keyboard layout produced for it, and whether the key went down or up. */
module Keys {

  datatype Option<+T> = None | Some(value: T)

  /** The physical key codes the edit loop tells apart; every other code is `Other`. */
  datatype KeyCode = ArrowLeft | ArrowRight | Backspace | Delete | Enter | Space | Other

  /** The logical key: either the character string the layout produced, or a named key
      (a modifier, a function key, ...) that produces no text. */
  datatype Key = Character(chars: string) | Named

  datatype ButtonState = Pressed | Released

  /** One keyboard event of a frame's ordered batch. */
  datatype KeyboardInput = KeyboardInput(keyCode: KeyCode, logicalKey: Key, state: ButtonState)
  {
    predicate IsPressed() { state == Pressed }

    /** A pressed Enter: the event that submits the input's value. */
    predicate IsSubmit() { IsPressed() && keyCode == Enter }

    /** An event that can at most move the cursor: a released key or an arrow. */
    predicate MovesOnly() { !IsPressed() || keyCode == ArrowLeft || keyCode == ArrowRight }
  }
}
