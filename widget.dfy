/** One text input widget: the two text sections around the cursor, the cursor glyph
    between them, the value the application reads, and the blinking cursor's state. */
module Widget {
  import opened Keys
  import opened Editing

  /** The cursor glyph shown at the end of the text. */
  const EndCursor: char := '}'
  /** The zero-width cursor glyph shown between two chars. */
  const MidCursor: char := '|'

  /** The glyph for a post-cursor section: the end-of-text glyph exactly when nothing
      follows the cursor. */
  function CursorGlyph(post: string): (c: char)
    ensures c == EndCursor <==> post == []
    ensures c == EndCursor || c == MidCursor
  {
    if post == [] then EndCursor else MidCursor
  }

  class TextInput {
    /** The pre-cursor text section. */
    var pre: string
    /** The post-cursor text section. */
    var post: string
    /** The cursor text section, drawn with a font whose `|` has zero width. */
    var cursorGlyph: char
    /** The value the application reads. */
    var value: string
    /** While true the input ignores the keyboard and hides its cursor. */
    var inactive: bool
    /** The host's change detection on `inactive`: set by every write, seen once. */
    var inactiveChanged: bool
    /** Whether the cursor section has the text colour (true) or no colour (false). */
    var cursorVisible: bool
    /** Ticks on which the cursor timer finished at least one period since it was last reset. */
    var blinkPhase: nat

    /** The value mirrors the sections, the glyph matches the post-cursor section, and
        once a change of `inactive` has been seen the cursor is hidden while inactive and
        visible after an even number of such ticks while active. */
    ghost predicate Valid()
      reads this
    {
      && value == pre + post
      && cursorGlyph == CursorGlyph(post)
      && (!inactiveChanged ==> (cursorVisible <==> !inactive && blinkPhase % 2 == 0))
    }

    /** A new input: all of the starting text lies before the cursor, nothing after it,
        the cursor shows the end-of-text glyph in the text colour, and the new `inactive`
        flag counts as changed. */
    constructor (startingText: string, startInactive: bool)
      ensures pre == startingText && post == [] && value == startingText
      ensures cursorGlyph == EndCursor
      ensures inactive == startInactive && inactiveChanged
      ensures cursorVisible && blinkPhase == 0
      ensures Valid()
    {
      pre, post, value := startingText, [], startingText;
      cursorGlyph := EndCursor;
      inactive, inactiveChanged := startInactive, true;
      cursorVisible, blinkPhase := true, 0;
    }

    /** The application switches the input on or off. */
    method SetInactive(b: bool)
      modifies this`inactive, this`inactiveChanged
      ensures inactive == b && inactiveChanged
      ensures old(Valid()) ==> Valid()
    {
      inactive, inactiveChanged := b, true;
    }

    /** One frame's batch of key events. An empty batch or an inactive input changes
        nothing. Otherwise the sections become those of `Run` over the batch, the value is
        re-synchronised to their concatenation (and marked changed only if it differs),
        the submitted value of the last Enter is returned, and the glyph is chosen. */
    method Keyboard(events: seq<KeyboardInput>) returns (submitted: Option<string>, valueChanged: bool)
      modifies this`pre, this`post, this`value, this`cursorGlyph
      ensures events == [] || old(inactive) ==>
        && pre == old(pre) && post == old(post) && value == old(value)
        && cursorGlyph == old(cursorGlyph) && submitted == None && !valueChanged
      ensures events != [] && !old(inactive) ==>
        && EditState(Sections(pre, post), submitted) == Run(EditState(Sections(old(pre), old(post)), None), events)
        && value == pre + post
        && valueChanged == (old(value) != value)
        && cursorGlyph == CursorGlyph(post)
      ensures old(Valid()) ==> Valid()
    {
      submitted, valueChanged := None, false;
      if events == [] || inactive {
        return;
      }
      ghost var start := EditState(Sections(pre, post), None);
      var i := 0;
      while i < |events|
        invariant 0 <= i <= |events|
        invariant EditState(Sections(pre, post), submitted) == Run(start, events[..i])
        invariant value == old(value)
      {
        var ev := events[i];
        assert events[..i + 1][..i] == events[..i];
        if ev.IsPressed() {
          match ev.keyCode
          case ArrowLeft =>
            if pre != [] {
              var behind := pre[|pre| - 1];
              pre := pre[..|pre| - 1];
              post := [behind] + post;
            }
          case ArrowRight =>
            if post != [] {
              var ahead := post[0];
              post := post[1..];
              pre := pre + [ahead];
            }
          case Backspace =>
            if pre != [] {
              pre := pre[..|pre| - 1];
            }
          case Delete =>
            post := if post == [] then [] else post[1..];
          case Enter =>
            submitted := Some(pre + post);
            pre, post := [], [];
          case Space =>
            pre := pre + " ";
          case Other =>
            if ev.logicalKey.Character? {
              pre := pre + ev.logicalKey.chars;
            }
        }
        i := i + 1;
      }
      assert events[..i] == events;
      var synced := pre + post;
      if synced != value {
        value := synced;
        valueChanged := true;
      }
      cursorGlyph := if post == [] then EndCursor else MidCursor;
    }

    /** Reacts to a seen change of `inactive`: the cursor takes the text colour when the
        input became active and no colour when it became inactive, and the blink timer
        restarts. Without a change nothing happens. */
    method BlinkCursor()
      modifies this`cursorVisible, this`blinkPhase, this`inactiveChanged
      ensures old(inactiveChanged) ==> cursorVisible == !inactive && blinkPhase == 0
      ensures !old(inactiveChanged) ==> cursorVisible == old(cursorVisible) && blinkPhase == old(blinkPhase)
      ensures !inactiveChanged
      ensures old(Valid()) ==> Valid()
    {
      if inactiveChanged {
        cursorVisible := !inactive;
        blinkPhase := 0;
        inactiveChanged := false;
      }
    }

    /** One tick of the blink timer. An inactive input does not tick; an active one flips
        the cursor's visibility once on each tick on which the timer finished at least one
        period, however many periods that tick finished. */
    method ShowHideCursor(timerJustFinished: bool)
      modifies this`cursorVisible, this`blinkPhase
      ensures inactive || !timerJustFinished ==> cursorVisible == old(cursorVisible) && blinkPhase == old(blinkPhase)
      ensures !inactive && timerJustFinished ==> cursorVisible == !old(cursorVisible) && blinkPhase == old(blinkPhase) + 1
      ensures old(Valid()) ==> Valid()
    {
      if inactive || !timerJustFinished {
        return;
      }
      cursorVisible := !cursorVisible;
      blinkPhase := blinkPhase + 1;
    }
  }

  /** Two ticks on which an active input's timer finished bring its cursor back to where
      it was. */
  method TwoBlinksRestoreVisibility(input: TextInput)
    modifies input`cursorVisible, input`blinkPhase
    ensures input.cursorVisible == old(input.cursorVisible)
    ensures !input.inactive ==> input.blinkPhase == old(input.blinkPhase) + 2
    ensures old(input.Valid()) ==> input.Valid()
  {
    input.ShowHideCursor(true);
    input.ShowHideCursor(true);
  }
}
