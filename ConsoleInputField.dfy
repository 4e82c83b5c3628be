/** The console's input line: a history of submitted lines and a cursor into it,
    moved by the Up and Down arrow keys. The model keeps the behaviour of the
    code as it is: the line is cleared before it is recorded, so every entry the
    history holds is the empty string, and Down never returns the cursor to the
    slot past the last entry. */
module ConsoleInputField {

  /** The state of the input line: the history, the cursor and the shown text. */
  datatype Field = Field(history: seq<string>, histInd: int, text: string)

  /** A fresh input line: no history, the cursor at 0, nothing typed. */
  function Initial(): Field
  {
    Field([], 0, "")
  }

  /** The cursor is at an entry or one past the last. */
  predicate Cursor(f: Field)
  {
    0 <= f.histInd <= |f.history|
  }

  /** `OnSubmit`: the text is cleared, then the (now empty) text is recorded,
      and the cursor moves past the new last entry. */
  function Submitted(f: Field): (g: Field)
    ensures Cursor(g) && g.histInd == |g.history|
    ensures |g.history| == |f.history| + 1 && g.history[..|f.history|] == f.history
    ensures g.history[|f.history|] == "" && g.text == ""
  {
    var cleared := f.(text := "");
    cleared.(history := cleared.history + [cleared.text], histInd := |cleared.history| + 1)
  }

  /** One frame of `Update` with the arrow keys pressed as given. Up is handled
      first: at the first entry it returns early, which also skips Down. Down
      returns early at the last entry. */
  function Pressed(f: Field, up: bool, down: bool): (g: Field)
    requires Cursor(f)
    ensures Cursor(g) && g.history == f.history
    ensures g.histInd != f.histInd ==> g.histInd < |g.history| && g.text == g.history[g.histInd]
  {
    if up && f.histInd - 1 < 0 then f
    else
      var h := if up then f.(histInd := f.histInd - 1, text := f.history[f.histInd - 1]) else f;
      if !down || h.histInd + 1 >= |h.history| then h
      else h.(histInd := h.histInd + 1, text := h.history[h.histInd + 1])
  }

  /** What can happen to the input line. */
  datatype Event =
    | Typed(s: string)          // the user edits the text (the input field's own editing)
    | Submit                    // Enter
    | Keys(up: bool, down: bool) // one frame of `Update`

  function Step(f: Field, e: Event): Field
    requires Cursor(f)
  {
    match e
    case Typed(s) => f.(text := s)
    case Submit => Submitted(f)
    case Keys(up, down) => Pressed(f, up, down)
  }

  /** The state after each of `es` in turn. */
  function Run(f: Field, es: seq<Event>): (g: Field)
    requires Cursor(f)
    ensures Cursor(g)
  {
    if es == [] then f else Step(Run(f, es[..|es| - 1]), es[|es| - 1])
  }

  /** The number of submissions among `es`. */
  function Submits(es: seq<Event>): nat
  {
    if es == [] then 0 else Submits(es[..|es| - 1]) + (if es[|es| - 1].Submit? then 1 else 0)
  }

  /** Up at the first entry changes nothing, whatever else is pressed; Down at
      the last entry, or past it, changes nothing. */
  lemma RefusedKeys(f: Field, down: bool)
    requires Cursor(f)
    ensures f.histInd == 0 ==> Pressed(f, true, down) == f
    ensures f.histInd + 1 >= |f.history| ==> Pressed(f, false, true) == f
  {
  }

  /** Up moves the cursor back one entry and shows that entry; Down moves it
      forward one entry and shows that one. */
  lemma MovingKeys(f: Field)
    requires Cursor(f)
    ensures 0 < f.histInd ==> var g := Pressed(f, true, false);
      g.histInd == f.histInd - 1 && g.text == f.history[f.histInd - 1]
    ensures f.histInd + 1 < |f.history| ==> var g := Pressed(f, false, true);
      g.histInd == f.histInd + 1 && g.text == f.history[f.histInd + 1]
  {
  }

  /** Down undoes Up, and Up undoes Down, apart from the shown text, which is
      the entry the cursor is back at. */
  lemma UpDownInverse(f: Field)
    requires Cursor(f)
    ensures 0 < f.histInd < |f.history| ==>
      Pressed(Pressed(f, true, false), false, true) == f.(text := f.history[f.histInd])
    ensures f.histInd + 1 < |f.history| ==>
      Pressed(Pressed(f, false, true), true, false) == f.(text := f.history[f.histInd])
  {
  }

  /** Pressing both keys at the first entry does nothing, even where Down alone
      would have moved the cursor: the refused Up returns before Down is handled. */
  lemma UpAtStartSkipsDown(f: Field)
    requires Cursor(f) && f.histInd == 0 && |f.history| >= 2
    ensures Pressed(f, true, true) == f
    ensures Pressed(f, false, true).histInd == 1
  {
  }

  /** The arrow keys never move the cursor onto the slot past the last entry:
      a frame that ends there started there and changed nothing. */
  lemma DownNeverPastEnd(f: Field, up: bool, down: bool)
    requires Cursor(f)
    ensures Pressed(f, up, down).histInd == |f.history| ==> Pressed(f, up, down) == f
  {
  }

  /** Once the cursor is on an entry, only a submission takes it off the entries. */
  lemma {:induction false} CursorStaysOnEntries(f: Field, es: seq<Event>)
    requires Cursor(f) && f.histInd < |f.history|
    requires forall i :: 0 <= i < |es| ==> !es[i].Submit?
    ensures Run(f, es).histInd < |Run(f, es).history|
  {
    if es != [] {
      CursorStaysOnEntries(f, es[..|es| - 1]);
      assert !es[|es| - 1].Submit?;
      match es[|es| - 1]
      case Typed(_) =>
      case Keys(up, down) => DownNeverPastEnd(Run(f, es[..|es| - 1]), up, down);
    }
  }

  /** The history only grows, by one entry per submission, and the entries
      already there never change. */
  lemma {:induction false} HistoryGrows(f: Field, es: seq<Event>)
    requires Cursor(f)
    ensures |Run(f, es).history| == |f.history| + Submits(es)
    ensures Run(f, es).history[..|f.history|] == f.history
  {
    if es != [] {
      var before := Run(f, es[..|es| - 1]);
      HistoryGrows(f, es[..|es| - 1]);
      assert Run(f, es).history[..|before.history|] == before.history;
      assert before.history[..|f.history|] == f.history;
    }
  }

  /** Whatever is typed and submitted, every entry of the history is the empty
      string, so recalling an entry with the arrow keys always shows "". */
  lemma {:induction false} HistoryIsBlank(es: seq<Event>)
    ensures forall i :: 0 <= i < |Run(Initial(), es).history| ==> Run(Initial(), es).history[i] == ""
  {
    if es != [] {
      HistoryIsBlank(es[..|es| - 1]);
    }
  }

  /** Whatever was typed before Enter, pressing Up right after recalls the
      empty string: the typed text is lost. */
  lemma RecallAfterSubmit(f: Field, typed: string)
    requires Cursor(f)
    ensures Pressed(Submitted(f.(text := typed)), true, false) == Field(f.history + [""], |f.history|, "")
  {
  }

  /** The input line of the console. */
  class ConsoleInputField {
    var history: seq<string>
    var histInd: int
    var text: string

    ghost function State(): Field
      reads this
    {
      Field(history, histInd, text)
    }

    ghost predicate Valid()
      reads this
    {
      Cursor(State())
    }

    constructor ()
      ensures State() == Initial() && Valid()
    {
      history := [];
      histInd := 0;
      text := "";
    }

    /** Enter: clear the text, record it, put the cursor past the last entry. */
    method OnSubmit()
      requires Valid()
      modifies this
      ensures Valid()
      ensures State() == Submitted(old(State()))
    {
      text := "";
      history := history + [text];
      histInd := |history|;
    }

    /** One frame: the Up arrow, then the Down arrow, each refused at the end
      of the history by an early `return`. */
    method Update(up: bool, down: bool)
      requires Valid()
      modifies this
      ensures Valid()
      ensures State() == Pressed(old(State()), up, down)
    {
      if up {
        if histInd - 1 < 0 {
          return;
        }
        histInd := histInd - 1;
        text := history[histInd];
      }
      if down {
        if histInd + 1 >= |history| {
          return;
        }
        histInd := histInd + 1;
        text := history[histInd];
      }
    }
  }
}
