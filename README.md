# Single-line text input: editing and cursor model

This project models the core of `bevy_simple_text_input`, a single-line text input
widget. The model covers two parts.

- **Keyboard editing.** The widget keeps its text as two sections split at the cursor:
  the pre-cursor section and the post-cursor section. A third section between them only
  holds the cursor glyph. Each frame, a batch of key events edits the two sections in
  arrival order:
  - ArrowLeft and ArrowRight move one char across the cursor.
  - Backspace and Delete remove one char on their side.
  - Enter records the whole text as the submitted value and clears both sections.
  - Space and character keys append to the pre-cursor section.
  After the batch the widget does three things:
  - It re-synchronises the value the application reads, marking it changed only when it differs.
  - It reports at most one submitted value, from the batch's last Enter.
  - It picks the cursor glyph: `}` at the end of the text, a zero-width `|` elsewhere.
- **Cursor blinking.** A change of the inactive flag shows or hides the cursor and
  restarts the blink timer. While the input is active, each tick on which the timer finishes
  flips the cursor's visibility.

Modules:
- `Keys` (`keys.dfy`): the key events of a batch.
- `Editing` (`editing.dfy`): one event's effect on the two sections (`Step`), a batch
  (`Run`), and lemmas about batches.
- `CursorModel` (`cursor_model.dfy`): an independent reference model. It treats the input
  as one string plus a cursor index counted in chars. The lemmas there show that the
  two-section edits implement it exactly.
- `Widget` (`widget.dfy`): the widget as a class whose methods update its fields in place.
  `Keyboard` is a loop over the batch, proved against `Editing.Run`.

Strings are sequences of `char`. The source's `pop`, `insert(0, ..)`, `remove(0)` and
`chars().skip(1)` all act on Unicode scalar values, so one `char` here is one of those.

## Model

| member | source | states |
|---|---|---|
| `Editing.MoveLeft` | src/lib.rs:157-162 | ArrowLeft keeps the text; at the start it changes nothing, otherwise the pre-cursor section loses exactly one char |
| `Editing.MoveRight` | src/lib.rs:163-169 | ArrowRight keeps the text; at the end it changes nothing, otherwise the pre-cursor section gains exactly one char |
| `Editing.DeleteBefore` | src/lib.rs:170-173 | Backspace leaves the post-cursor section untouched; it does nothing on an empty pre-cursor section, otherwise removes only its last char |
| `Editing.DeleteAfter` | src/lib.rs:174-177 | Delete leaves the pre-cursor section untouched; it does nothing on an empty post-cursor section, otherwise removes only its first char |
| `Editing.Insert` | src/lib.rs:188-197 | typed text is appended to the pre-cursor section, so it lands at the cursor; the post-cursor section is untouched |
| `Editing.Step` | src/lib.rs:151-198 | a released key changes nothing; Enter clears both sections and records the whole prior text; other keys keep the submitted value; arrows keep the text; each edit key touches only its own side |
| `Editing.MoveRightThenLeft` | src/lib.rs:157-169 | ArrowRight then ArrowLeft restores the sections when something follows the cursor |
| `Editing.MoveLeftThenRight` | src/lib.rs:157-169 | ArrowLeft then ArrowRight restores the sections when something precedes the cursor |
| `Editing.Run` | src/lib.rs:151-198 | the state after a batch is its events applied one by one in arrival order; an empty batch changes nothing; a batch ending in a pressed Enter leaves both sections empty with a value submitted |
| `Editing.RunReleasedIsIdentity` | src/lib.rs:151-154 | a batch of released keys leaves the state unchanged |
| `Editing.RunMotionPreservesText` | src/lib.rs:157-169 | a batch of arrows and released keys never changes the text or the submitted value |
| `Editing.RunWithoutEnterKeepsSubmitted` | src/lib.rs:149-198 | a batch without a pressed Enter submits nothing |
| `Editing.RunSubmitsLastEnter` | src/lib.rs:178-187 | the submitted value is the text just before the batch's last pressed Enter; a later Enter overwrites an earlier one |
| `Editing.EnterTwiceSubmitsEmpty` | src/lib.rs:178-187 | two Enters in a row submit the empty string and leave both sections empty |
| `CursorModel.ActionOf` | src/lib.rs:151-197 | released keys resolve to no action; the Submit action comes exactly from a pressed Enter; Space resolves to inserting one space |
| `CursorModel.Apply` | src/lib.rs:156-197 | reference semantics on text plus cursor: the cursor stays in range; motions keep the text; submit empties; inserting moves the cursor past the inserted text; each deletion removes one char or, at its end, nothing |
| `CursorModel.BufferStep` | src/lib.rs:151-198 | one event in the reference model keeps the cursor within the text |
| `CursorModel.BufferRun` | src/lib.rs:151-198 | a batch in the reference model keeps the cursor within the text |
| `CursorModel.Abstract` | src/lib.rs:212-217 | the cursor is the length of the pre-cursor section; it is at the end of the text exactly when the post-cursor section is empty |
| `CursorModel.AbstractState` | src/lib.rs:149-187 | the abstracted editing state is the abstracted sections with the same submitted value, and its cursor is within range |
| `CursorModel.AbstractIsInjective` | src/lib.rs:231-249 | the text and cursor determine the two sections, so the refinement below is exact |
| `CursorModel.MovesRefineCharMotions` | src/lib.rs:157-169 | the arrows are the reference model's saturating cursor motions |
| `CursorModel.DeletionsRefineDeleteActions` | src/lib.rs:170-177 | Backspace removes the char before the cursor and Delete the char after it, as index arithmetic on the text |
| `CursorModel.InsertRefinesInsertText` | src/lib.rs:188-197 | appending to the pre-cursor section is insertion at the cursor |
| `CursorModel.StepRefinesBufferStep` | src/lib.rs:151-198 | every event does to the two sections what its action does to text and cursor, including the submitted value |
| `CursorModel.RunRefinesBufferRun` | src/lib.rs:151-198 | a whole batch on the two sections agrees with the same batch in the reference model |
| `Widget.CursorGlyph` | src/lib.rs:212-217 | the glyph is `}` exactly when the post-cursor section is empty, and the zero-width bar glyph otherwise |
| `Widget.TextInput.constructor` | src/lib.rs:225-249 | a new input has all starting text before the cursor, an empty post-cursor section, the `}` glyph, a visible cursor, and its inactive flag counting as changed |
| `Widget.TextInput.SetInactive` | src/lib.rs:85-87 | writing the inactive flag marks it changed and keeps the widget invariant |
| `Widget.TextInput.Keyboard` | src/lib.rs:130-219 | an empty batch or an inactive input changes nothing; otherwise the sections and the returned submitted value are those of `Run` over the batch, the value equals pre ++ post and is marked changed exactly when it differs, and the glyph follows the post-cursor section |
| `Widget.TextInput.BlinkCursor` | src/lib.rs:276-302 | after a change of the inactive flag, visibility becomes not-inactive and the blink timer restarts; without a change nothing happens |
| `Widget.TextInput.ShowHideCursor` | src/lib.rs:304-333 | an inactive input never flips; an active one flips visibility once on each tick on which the timer finished at least one period, keeping visibility tied to the parity of such ticks |
| `Widget.TwoBlinksRestoreVisibility` | src/lib.rs:319-332 | two ticks on which the timer finished restore the cursor's visibility; an active input's count of such ticks grows by two; nothing else changes |

## Left out

- Plugin registration, the embedded cursor font and the event and type registration (src/lib.rs:14-37) are host-engine plumbing.
- `InnerText::get_mut` (src/lib.rs:121-128) finds the inner text node in the entity tree. The model holds the three sections directly, so the case where that node is missing is not modelled.
- In `create`, node spawning, styling and the overflow container (src/lib.rs:226-272) are UI layout. Only the initial section contents are modelled.
- `update_style` (src/lib.rs:335-351) only copies opaque text styles. It also re-colours the cursor section, and that effect on visibility is not modelled.
- Widget.TextInput.ShowHideCursor: the timer's duration (0.5 s, src/lib.rs:95) and the frame's time delta are not modelled. Whether the timer finished at least one period this tick is a boolean input, and the timer's state is the number of ticks since its last reset on which it finished. A tick that finishes several periods flips the cursor once and counts once.
- Widget.TextInput.BlinkCursor: the host's change detection is modelled as a flag set by every write of the inactive flag and by creation, and consumed by this method. The order in which the host schedules the five systems within a frame is not modelled, and neither is the frame on which the inner text node does not exist yet.
- Widget.TextInput.constructor: the model lets the first `BlinkCursor` see the new input's inactive flag, so an input created inactive gets a hidden cursor. In the source, `create` spawns the inner text node through deferred commands (src/lib.rs:226-272) and the systems are registered unordered (src/lib.rs:25-33). So on the frame the input appears, `blink_cursor` sees the change but finds no inner text node and skips the input (src/lib.rs:286-292); later frames no longer see the change. An input created inactive therefore keeps the text-coloured cursor `create` gave it (src/lib.rs:238-243), and `show_hide_cursor` never flips it (src/lib.rs:315-317), until the inactive flag is next written. The model does not capture this, and the visibility clause of `Valid` does not hold for such an input in the source.
- Cursor colours are modelled as visible or hidden. This assumes the configured text colour is not itself transparent; with a transparent text colour the source would never show the cursor.
- Widget.TextInput.Keyboard: the event reader is drained inside the per-input loop (src/lib.rs:140-151), so when several inputs are active only the first one sees the batch. The model gives one input one batch. The submit event's entity field is the input itself and is not carried.
- An application writing the value directly is not modelled. In this source such a write never reaches the sections, and the next non-empty batch the input processes while active overwrites it with pre ++ post.
- Selection, word motion, line start and end, undo and redo, clipboard, masking, multi-line input, IME preedit, placeholders, configurable key bindings and retain-on-submit are not implemented by src/lib.rs, so they are not modelled. Some example programs refer to them (for example examples/password.rs and examples/multiline.rs), but those programs target a later API.
- The blink timer is not reset after an edit: `keyboard` (src/lib.rs:130-219) never touches the cursor timer, so an edit does not restart the blink phase.
- Integer widths and allocation failures play no role in the modelled code.
