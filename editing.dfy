/** The text of a single-line input held as two strings split at the cursor, and the
    effect of one frame's batch of key events on them. The cursor is not stored: it is
    the boundary between `pre` (shown before the cursor glyph) and `post` (shown after). */
module Editing {
  import opened Keys

  datatype Sections = Sections(pre: string, post: string)
  {
    /** The whole text of the input, as the user sees it around the cursor. */
    function Text(): string { pre + post }
  }

  const Cleared := Sections([], [])

  /** ArrowLeft: the last char before the cursor moves to the front of `post`. */
  function MoveLeft(s: Sections): (r: Sections)
    ensures r.Text() == s.Text()
    ensures s.pre == [] ==> r == s
    ensures s.pre != [] ==> |r.pre| + 1 == |s.pre|
  {
    if s.pre == [] then s
    else
      var n := |s.pre| - 1;
      assert s.pre == s.pre[..n] + [s.pre[n]];
      Sections(s.pre[..n], [s.pre[n]] + s.post)
  }

  /** ArrowRight: the first char after the cursor moves to the end of `pre`. */
  function MoveRight(s: Sections): (r: Sections)
    ensures r.Text() == s.Text()
    ensures s.post == [] ==> r == s
    ensures s.post != [] ==> |r.pre| == |s.pre| + 1
  {
    if s.post == [] then s
    else
      assert s.post == [s.post[0]] + s.post[1..];
      Sections(s.pre + [s.post[0]], s.post[1..])
  }

  /** Backspace: the last char of `pre` is dropped; `post` is untouched. */
  function DeleteBefore(s: Sections): (r: Sections)
    ensures r.post == s.post
    ensures s.pre == [] ==> r == s
    ensures s.pre != [] ==> r.pre < s.pre && |r.pre| + 1 == |s.pre|
  {
    if s.pre == [] then s else Sections(s.pre[..|s.pre| - 1], s.post)
  }

  /** Delete: the first char of `post` is dropped; `pre` is untouched. Skipping one char
      of an empty string leaves it empty. */
  function DeleteAfter(s: Sections): (r: Sections)
    ensures r.pre == s.pre
    ensures s.post == [] ==> r == s
    ensures s.post != [] ==> s.post == s.post[..1] + r.post
  {
    Sections(s.pre, if s.post == [] then [] else s.post[1..])
  }

  /** Space or a character key: the typed text is appended to `pre`, that is, inserted
      at the cursor, and the cursor ends up after it. */
  function Insert(s: Sections, typed: string): (r: Sections)
    ensures r.post == s.post
    ensures s.pre <= r.pre && r.pre[|s.pre|..] == typed
    ensures r.Text() == s.pre + typed + s.post
  {
    Sections(s.pre + typed, s.post)
  }

  /** The sections together with the value the batch has submitted so far, if any. */
  datatype EditState = EditState(sections: Sections, submitted: Option<string>)

  /** The effect of one event of the batch. Released keys do nothing; Enter records the
      whole text as the submitted value (replacing an earlier one) and clears both
      sections; an unmatched key code types its logical character string, if any. */
  function Step(st: EditState, ev: KeyboardInput): (r: EditState)
    ensures !ev.IsPressed() ==> r == st
    ensures ev.IsSubmit() ==> r.sections == Cleared && r.submitted == Some(st.sections.Text())
    ensures !ev.IsSubmit() ==> r.submitted == st.submitted
    ensures ev.MovesOnly() ==> r.sections.Text() == st.sections.Text()
    ensures ev.keyCode == Backspace ==> r.sections.post == st.sections.post
    ensures ev.keyCode == Delete ==> r.sections.pre == st.sections.pre
    ensures ev.keyCode in {Space, Other} ==> r.sections.post == st.sections.post
  {
    if !ev.IsPressed() then st
    else
      match ev.keyCode
      case ArrowLeft => st.(sections := MoveLeft(st.sections))
      case ArrowRight => st.(sections := MoveRight(st.sections))
      case Backspace => st.(sections := DeleteBefore(st.sections))
      case Delete => st.(sections := DeleteAfter(st.sections))
      case Enter => EditState(Cleared, Some(st.sections.Text()))
      case Space => st.(sections := Insert(st.sections, " "))
      case Other =>
        match ev.logicalKey
        case Character(chars) => st.(sections := Insert(st.sections, chars))
        case Named => st
  }

  /** The state after a batch of events, applied one by one in arrival order. An empty
      batch changes nothing; a batch that ends with a pressed Enter leaves both sections
      empty with a value submitted. */
  function Run(st: EditState, events: seq<KeyboardInput>): (r: EditState)
    ensures events == [] ==> r == st
    ensures events != [] && events[|events| - 1].IsSubmit() ==> r.sections == Cleared && r.submitted.Some?
    decreases |events|
  {
    if events == [] then st
    else Step(Run(st, events[..|events| - 1]), events[|events| - 1])
  }

  /** Moving right and then left returns to the same place, unless already at the end. */
  lemma MoveRightThenLeft(s: Sections)
    requires s.post != []
    ensures MoveLeft(MoveRight(s)) == s
  {
  }

  /** Moving left and then right returns to the same place, unless already at the start. */
  lemma MoveLeftThenRight(s: Sections)
    requires s.pre != []
    ensures MoveRight(MoveLeft(s)) == s
  {
  }

  /** A batch of released keys changes nothing. */
  lemma {:induction false} RunReleasedIsIdentity(st: EditState, events: seq<KeyboardInput>)
    requires forall i | 0 <= i < |events| :: !events[i].IsPressed()
    ensures Run(st, events) == st
  {
    if events != [] {
      RunReleasedIsIdentity(st, events[..|events| - 1]);
    }
  }

  /** A batch of arrows and released keys never changes the text or the submitted value:
      only where the boundary between the two sections lies. */
  lemma {:induction false} RunMotionPreservesText(st: EditState, events: seq<KeyboardInput>)
    requires forall i | 0 <= i < |events| :: events[i].MovesOnly()
    ensures Run(st, events).sections.Text() == st.sections.Text()
    ensures Run(st, events).submitted == st.submitted
  {
    if events != [] {
      RunMotionPreservesText(st, events[..|events| - 1]);
    }
  }

  /** A batch without a pressed Enter submits nothing new. */
  lemma {:induction false} RunWithoutEnterKeepsSubmitted(st: EditState, events: seq<KeyboardInput>)
    requires forall i | 0 <= i < |events| :: !events[i].IsSubmit()
    ensures Run(st, events).submitted == st.submitted
  {
    if events != [] {
      RunWithoutEnterKeepsSubmitted(st, events[..|events| - 1]);
    }
  }

  /** The value a batch submits is the text as it stood just before its last pressed
      Enter: a later Enter overwrites what an earlier one recorded. */
  lemma {:induction false} RunSubmitsLastEnter(st: EditState, events: seq<KeyboardInput>, k: nat)
    requires k < |events| && events[k].IsSubmit()
    requires forall j | k < j < |events| :: !events[j].IsSubmit()
    ensures Run(st, events).submitted == Some(Run(st, events[..k]).sections.Text())
  {
    var n := |events| - 1;
    if k < n {
      assert events[..n][..k] == events[..k];
      RunSubmitsLastEnter(st, events[..n], k);
    }
  }

  /** Two Enters in one batch submit the empty string: the first one cleared the text. */
  lemma EnterTwiceSubmitsEmpty(st: EditState, first: KeyboardInput, second: KeyboardInput)
    requires first.IsSubmit() && second.IsSubmit()
    ensures Run(st, [first, second]).submitted == Some([])
    ensures Run(st, [first, second]).sections == Cleared
  {
    assert [first, second][..1] == [first];
    assert [first][..0] == [];
    assert Run(st, [first]).sections == Cleared;
    assert Cleared.Text() == [];
  }
}
