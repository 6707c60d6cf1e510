/** An independent reference for the edit loop: the input as one string with a cursor
    index counted in chars, and the editing actions as index arithmetic on that string.
    The two-section representation is shown to implement it exactly. */
module CursorModel {
  import opened Keys
  import opened Editing

  datatype Buffer = Buffer(text: string, cursor: nat)
  {
    predicate Valid() { cursor <= |text| }
  }

  /** The editing action a key event stands for. */
  datatype Action = CharLeft | CharRight | DeletePrev | DeleteNext | Submit | InsertText(typed: string) | Ignore

  /** Resolves an event to its action, testing in the edit loop's order: released keys
      first, then the six key codes, then the logical character of any other key. */
  function ActionOf(ev: KeyboardInput): (a: Action)
    ensures !ev.IsPressed() ==> a == Ignore
    ensures a == Submit <==> ev.IsSubmit()
    ensures ev.IsPressed() && ev.keyCode == Space ==> a == InsertText(" ")
  {
    if !ev.IsPressed() then Ignore
    else
      match ev.keyCode
      case ArrowLeft => CharLeft
      case ArrowRight => CharRight
      case Backspace => DeletePrev
      case Delete => DeleteNext
      case Enter => Submit
      case Space => InsertText(" ")
      case Other =>
        match ev.logicalKey
        case Character(chars) => InsertText(chars)
        case Named => Ignore
  }

  /** The action on text and cursor: motions saturate at both ends, deletions at an end
      they cannot reach do nothing, insertion happens at the cursor, Submit empties. */
  function Apply(b: Buffer, a: Action): (r: Buffer)
    requires b.Valid()
    ensures r.Valid()
    ensures a in {CharLeft, CharRight, Ignore} ==> r.text == b.text
    ensures a == Submit ==> r.text == [] && r.cursor == 0
    ensures a.InsertText? ==> |r.text| == |b.text| + |a.typed| && r.cursor == b.cursor + |a.typed|
    ensures a == DeletePrev ==> if b.cursor == 0 then r == b else |r.text| + 1 == |b.text| && r.cursor + 1 == b.cursor
    ensures a == DeleteNext ==> if b.cursor == |b.text| then r == b else |r.text| + 1 == |b.text| && r.cursor == b.cursor
  {
    match a
    case CharLeft => b.(cursor := if b.cursor == 0 then 0 else b.cursor - 1)
    case CharRight => b.(cursor := if b.cursor == |b.text| then b.cursor else b.cursor + 1)
    case DeletePrev =>
      if b.cursor == 0 then b else Buffer(b.text[..b.cursor - 1] + b.text[b.cursor..], b.cursor - 1)
    case DeleteNext =>
      if b.cursor == |b.text| then b else Buffer(b.text[..b.cursor] + b.text[b.cursor + 1..], b.cursor)
    case Submit => Buffer([], 0)
    case InsertText(typed) => Buffer(b.text[..b.cursor] + typed + b.text[b.cursor..], b.cursor + |typed|)
    case Ignore => b
  }

  /** The buffer together with the value submitted so far, if any. */
  datatype Session = Session(buffer: Buffer, submitted: Option<string>)
  {
    predicate Valid() { buffer.Valid() }
  }

  function BufferStep(se: Session, ev: KeyboardInput): (r: Session)
    requires se.Valid()
    ensures r.Valid()
  {
    var a := ActionOf(ev);
    Session(Apply(se.buffer, a), if a == Submit then Some(se.buffer.text) else se.submitted)
  }

  function BufferRun(se: Session, events: seq<KeyboardInput>): (r: Session)
    requires se.Valid()
    ensures r.Valid()
    decreases |events|
  {
    if events == [] then se
    else BufferStep(BufferRun(se, events[..|events| - 1]), events[|events| - 1])
  }

  /** The cursor of a two-section input is the length of its pre-cursor section; it sits
      at the end of the text exactly when the post-cursor section is empty. */
  function Abstract(s: Sections): (b: Buffer)
    ensures b.Valid() && b.text == s.Text()
    ensures b.cursor == |b.text| <==> s.post == []
  {
    Buffer(s.Text(), |s.pre|)
  }

  function AbstractState(st: EditState): (se: Session)
    ensures se.Valid()
    ensures se.buffer == Abstract(st.sections) && se.submitted == st.submitted
  {
    Session(Abstract(st.sections), st.submitted)
  }

  /** Text and cursor determine the two sections: the reference model loses nothing. */
  lemma AbstractIsInjective(s: Sections, t: Sections)
    requires Abstract(s) == Abstract(t)
    ensures s == t
  {
    assert s.pre == s.Text()[..|s.pre|] && s.post == s.Text()[|s.pre|..];
    assert t.pre == t.Text()[..|t.pre|] && t.post == t.Text()[|t.pre|..];
  }

  /** ArrowLeft and ArrowRight are the saturating cursor motions. */
  lemma MovesRefineCharMotions(s: Sections)
    ensures Abstract(MoveLeft(s)) == Apply(Abstract(s), CharLeft)
    ensures Abstract(MoveRight(s)) == Apply(Abstract(s), CharRight)
  {
  }

  /** Backspace removes the char before the cursor, Delete the one after it. */
  lemma DeletionsRefineDeleteActions(s: Sections)
    ensures Abstract(DeleteBefore(s)) == Apply(Abstract(s), DeletePrev)
    ensures Abstract(DeleteAfter(s)) == Apply(Abstract(s), DeleteNext)
  {
  }

  /** Appending to the pre-cursor section is insertion at the cursor. */
  lemma InsertRefinesInsertText(s: Sections, typed: string)
    ensures Abstract(Insert(s, typed)) == Apply(Abstract(s), InsertText(typed))
  {
  }

  /** Each event does to the two sections exactly what its action does to text and cursor. */
  lemma StepRefinesBufferStep(st: EditState, ev: KeyboardInput)
    ensures AbstractState(Step(st, ev)) == BufferStep(AbstractState(st), ev)
  {
  }

  /** A whole batch on the two sections agrees with the same batch on text and cursor. */
  lemma {:induction false} RunRefinesBufferRun(st: EditState, events: seq<KeyboardInput>)
    ensures AbstractState(Run(st, events)) == BufferRun(AbstractState(st), events)
  {
    if events != [] {
      var n := |events| - 1;
      RunRefinesBufferRun(st, events[..n]);
      StepRefinesBufferStep(Run(st, events[..n]), events[n]);
    }
  }
}
