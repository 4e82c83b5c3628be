# HollowKnight.ModConsole, modelled in Dafny

ModConsole is an in-game C# console. The user types a line. The line is echoed
into a scrollback buffer and evaluated by an embedded compiler. The compiler's
reports pass through a colouring writer into the same buffer. When evaluation
yields a value, the value inspector renders it and the result is appended as
`=> …`. The input field records one history entry per submission, and the
arrow keys walk through those entries.

The model covers four parts of that system. Each is written in the same form as
the code it models.

- `ModConsole.dfy` models the scrollback buffer.
  - Class `ModConsole` holds the buffer lines and the displayed text.
  - `AddMessage` does what the C# does: it splits the message on `'\n'`, cuts each line into 80-character chunks, appends them, evicts from the front down to 40 lines, and re-joins the text.
  - `Chunks` is a loop method.
  - `OnEndEdit` is the submission handler.
  - These are proved against the functions `ChunksOf`, `Appended`, `AppendedAll` and `SubmissionMessages`.
  - Lemmas about those functions give:
    - the chunking round trip and widths;
    - first-in-first-out eviction over any run of messages;
    - that, for a non-empty buffer, the displayed text splits back into the buffer.
- `Inspector.dfy` models the value inspector. Reflection is replaced by an abstract `Value`, which records:
  - a type name and the `ToString()` text;
  - whether the type is primitive;
  - its fields and properties, where reading a member either returns a value or throws;
  - the elements, when the value is enumerable.

  `Inspect` and `AppendMemberInfo` build the report step by step, as the C# `StringBuilder` code does. `Inspect` is proved equal to the function `InspectionOf`; `AppendMemberInfo` is proved to append exactly the member's line, `MemberLine`, to the builder contents. Lemmas then state the layout rules: the header, which members are listed and in what order, the member line shape, and collection previews and counts.
- `LambdaWriter.dfy` models the diagnostic writer, which is pure.
  - A line is yellow exactly when it contains the case-sensitive substring `warning`; otherwise it is `#ff5370`.
  - Lemmas prove the colour rule and the tag-stripping round trip.
- `ConsoleInputField.dfy` models the input history.
  - The class has `OnSubmit` and the arrow-key part of `Update`.
  - The keys are boolean parameters.
  - Both are proved against a pure state machine (`Submitted`, `Pressed`, `Run`).
  - The model reproduces the code as written:
    - The text is cleared before it is recorded, so every history entry is `""`.
    - Down never moves the cursor back to the slot past the last entry.
    - An Up refused at the first entry returns early, which also skips Down.
- `Strings.dfy` gives the .NET string operations these parts use: `Split(char)`, `Join`, `Concat`, `Contains`, `PadRight` and `int.ToString`. Each comes with the property that ties it to the library behaviour.

Two behaviours of the code that the model keeps as they are:

- **Chunking.** `Chunks` (ModConsole/ModConsole.cs:153-157) counts characters only, so it may cut a colour tag such as `<color=yellow>` in two.
- **Recording submitted lines.** `OnSubmit` (ModConsole/ConsoleInputField.cs:28-30) clears the text before recording it, so every history entry is `""`.
  - Up after submitting `"a"` then `"b"` shows `""`, not `"b"`.
  - Down stays on the last entry. It does not return to an empty "new line" slot.

## Model

| member | source | states |
|---|---|---|
| Strings.JoinSplit | ModConsole/ModConsole.cs:66 | joining the pieces of `Split(s, c)` with `c` gives back `s` |
| Strings.ConcatSplit | ModConsole/ModConsole.cs:66-73 | the pieces of a split, concatenated, are the input with every separator removed |
| Strings.SplitJoin | ModConsole/ModConsole.cs:78 | splitting a join of a non-empty list of separator-free pieces at the separator gives back the pieces (an empty list joins to `""`, which splits into `[""]`) |
| Strings.ContainsIffOccurs | ModConsole/LambdaWriter.cs:18 | `Contains(s, sub)` holds exactly when `sub` occurs at some position of `s` |
| Strings.PadRight | ModConsole/Inspector.cs:88 | the result has length max(width, \|s\|), starts with `s` and is filled with spaces |
| Strings.NatToStringDenotes | ModConsole/Inspector.cs:118 | `n.ToString()` is one or more decimal digits, with no leading zero, and denotes `n` |
| LambdaWriter.Colour | ModConsole/LambdaWriter.cs:9-18 | the colour is always one of the two constants, `yellow` or `#ff5370` |
| LambdaWriter.WriteLine | ModConsole/LambdaWriter.cs:18 | the printed string starts with the opening colour tag and ends with `</color>` |
| LambdaWriter.WarningIffOccurs | ModConsole/LambdaWriter.cs:18 | yellow if and only if `warning` occurs in the line; `#ff5370` if and only if it does not |
| LambdaWriter.NoLowerCaseWIsError | ModConsole/LambdaWriter.cs:18 | the check is case-sensitive: a line with no lower-case `w` (such as `Warning: …`) is shown as an error |
| LambdaWriter.WarningAnywhere | ModConsole/LambdaWriter.cs:18 | a line with `warning` anywhere in it is printed as `<color=yellow>` + line + `</color>` |
| LambdaWriter.StripTags | ModConsole/LambdaWriter.cs:18 | removing the opening and closing tags from the printed string gives back the line unchanged |
| Inspector.SortByNameSorts | ModConsole/Inspector.cs:36-37 | ordering by name gives ascending names and the same members, each as often as before |
| Inspector.ListedMembersRule | ModConsole/Inspector.cs:39-53 | properties are listed if and only if there are some and either there are no fields or properties were requested; otherwise fields; the listed members are exactly that kind's members, sorted, and for a value as reflection describes it they are all properties or all fields accordingly |
| Inspector.AppendMemberInfo | ModConsole/Inspector.cs:58-126 | the builder afterwards holds its old contents followed by that member's line, or the inspection raises |
| Inspector.Inspect | ModConsole/Inspector.cs:18-56 | returns `"null"` for null and a string unchanged; any other value gets the full report `InspectionOf` |
| Inspector.MemberLinesConcat | ModConsole/Inspector.cs:45-53 | the member section raises if and only if one member's line raises; otherwise it is the member lines in order |
| Inspector.ReportLayout | ModConsole/Inspector.cs:33-55 | an object's report is `[type]`, newline, its `ToString()`, newline, then the listed members' lines in name order (empty for an indexer); it raises if and only if one of those lines raises |
| Inspector.MemberLineShape | ModConsole/Inspector.cs:66-88 | an indexer adds nothing; any other member raises exactly when showing its value raises, and otherwise adds one line that starts with `<color=#14f535>` + name padded to 30 + `</color>` and ends with a newline |
| Inspector.PlainValues | ModConsole/Inspector.cs:83-124 | for every field and every property that is not an indexer: a read that throws, or a null value, shows `null`; a string shows verbatim; a non-collection object shows its `ToString()` |
| Inspector.TextsOfElements | ModConsole/Inspector.cs:109 | printing the elements fails if and only if one of them is null; otherwise it gives every element's text in order |
| Inspector.CollectionPreview | ModConsole/Inspector.cs:105-115 | a collection whose first element is primitive or a string shows its first min(5, n) elements joined by `, `, with `, ...` if and only if n > 5, in brackets; it raises if and only if one of those elements is null |
| Inspector.CollectionCount | ModConsole/Inspector.cs:101-119 | a collection that is empty, or whose first element is null or of any other type, shows `Item Count: ` and its size in decimal |
| ModConsole.ChunksConcat | ModConsole/ModConsole.cs:153-157 | the chunks of a line, concatenated, are the line |
| ModConsole.ChunksCount | ModConsole/ModConsole.cs:155-156 | a line of length L gives ceil(L / n) chunks: (count − 1)·n < L ≤ count·n |
| ModConsole.ChunksWidths | ModConsole/ModConsole.cs:155-156 | every chunk holds 1 to n characters, and every chunk but the last holds exactly n |
| ModConsole.Chunks | ModConsole/ModConsole.cs:153-157 | the loop yields exactly the chunks `ChunksOf(str, maxChunkSize)` |
| ModConsole.MessageLinesContent | ModConsole/ModConsole.cs:66-73 | a message's buffer lines hold its characters other than `'\n'`, in order; each has 1 to 80 characters and no line break |
| ModConsole.BlankMessageAddsNothing | ModConsole/ModConsole.cs:66-73 | an empty message, or one made only of line breaks, adds no buffer lines |
| ModConsole.RetainTwice | ModConsole/ModConsole.cs:75-76 | evicting down to the newest `cap` lines early changes nothing once the result is evicted again |
| ModConsole.AppendedBound | ModConsole/ModConsole.cs:75-76 | after appending, the buffer holds min(40, total) lines, and they are the newest of the old lines followed by the new chunks |
| ModConsole.AppendedAllFifo | ModConsole/ModConsole.cs:64-79 | after any run of messages, the buffer is the newest 40 (or all) of the old lines followed by every message's chunks, in order |
| ModConsole.DisplayedLines | ModConsole/ModConsole.cs:78 | for a non-empty buffer, the displayed text, split at its line breaks, gives back exactly the buffer lines (an empty buffer displays `""`, which splits into one empty line) |
| ModConsole.AppendedAllConcat | ModConsole/ModConsole.cs:107-111 | adding two runs of messages in one go is the same as adding the first run, then the second |
| ModConsole.SubmissionOrder | ModConsole/ModConsole.cs:101-114 | an empty line adds nothing; any other line adds itself first, then each compiler report wrapped by the writer, in order |
| ModConsole.SubmissionEnds | ModConsole/ModConsole.cs:107-112 | after the line and its reports come its result lines and nothing else |
| ModConsole.ResultLinesShape | ModConsole/ModConsole.cs:109-112 | there is at most one result line, `=> ` followed by the inspection; it is there if and only if evaluation produced a value and inspecting it did not raise |
| ModConsole.ModConsole.constructor | ModConsole/ModConsole.cs:33 | the buffer starts empty and consistent with the displayed text |
| ModConsole.ModConsole.AddMessage | ModConsole/ModConsole.cs:64-79 | the new buffer is `Appended(old buffer, message)`; it keeps at most 40 lines of 1 to 80 characters; the displayed text is the lines joined by `"\n"` |
| ModConsole.ModConsole.OnEndEdit | ModConsole/ModConsole.cs:101-114 | an empty line leaves the buffer and the text unchanged; otherwise the buffer is the old one after `AddMessage` of each of `SubmissionMessages`, in order |
| ConsoleInputField.Submitted | ModConsole/ConsoleInputField.cs:26-33 | a submission adds exactly one entry, which is `""`; earlier entries are unchanged; the text is `""`; the cursor is one past the last entry |
| ConsoleInputField.Pressed | ModConsole/ConsoleInputField.cs:35-53 | the arrow keys keep the cursor within 0..\|history\| and never change the history; when the cursor moves, the text is the entry under it |
| ConsoleInputField.RefusedKeys | ModConsole/ConsoleInputField.cs:37-49 | Up at the first entry changes nothing, whatever Down is; Down alone at or past the last entry changes nothing |
| ConsoleInputField.MovingKeys | ModConsole/ConsoleInputField.cs:37-52 | otherwise Up moves the cursor back one and shows that entry, and Down moves it forward one and shows that entry |
| ConsoleInputField.UpDownInverse | ModConsole/ConsoleInputField.cs:35-53 | from an entry that has a neighbour on the other side (an earlier entry for Up then Down, a later entry for Down then Up), the two keys in turn return the cursor to that entry and show it; from the slot past the last entry, Down refuses, so Up then Down ends on the last entry |
| ConsoleInputField.UpAtStartSkipsDown | ModConsole/ConsoleInputField.cs:37-40 | at the first entry, Up with Down changes nothing, even though Down alone would move the cursor |
| ConsoleInputField.DownNeverPastEnd | ModConsole/ConsoleInputField.cs:46-52 | a key frame that leaves the cursor one past the last entry began there and changed nothing |
| ConsoleInputField.CursorStaysOnEntries | ModConsole/ConsoleInputField.cs:35-53 | once the cursor is on an entry, only a submission moves it off the entries |
| ConsoleInputField.HistoryGrows | ModConsole/ConsoleInputField.cs:13-30 | the history grows by exactly one entry per submission, and existing entries never change |
| ConsoleInputField.HistoryIsBlank | ModConsole/ConsoleInputField.cs:28-30 | whatever was typed and submitted, every history entry is `""` |
| ConsoleInputField.RecallAfterSubmit | ModConsole/ConsoleInputField.cs:26-43 | Up right after a submission recalls `""`, not the submitted text |
| ConsoleInputField.ConsoleInputField.constructor | ModConsole/ConsoleInputField.cs:13-15 | a new field has an empty history, the cursor at 0 and empty text |
| ConsoleInputField.ConsoleInputField.OnSubmit | ModConsole/ConsoleInputField.cs:26-33 | the new state is `Submitted(old state)`, and the cursor invariant holds |
| ConsoleInputField.ConsoleInputField.Update | ModConsole/ConsoleInputField.cs:35-53 | the new state is `Pressed(old state, up, down)`, including both early returns, and the cursor invariant holds |

## Left out

- The Mono.CSharp evaluator, `Extensions.TryEvaluate`, the compiler settings and the `USINGS` preamble are left out. The submission handler receives what evaluation produced instead:
  - the reports the compiler wrote, as a sequence of lines;
  - a value, or failure.
- An exception other than `ArgumentException` that escapes `TryEvaluate` is not modelled. It would leave the buffer as `Failed` does, having echoed the line and its reports.
- .NET reflection is left out. `GetType`, `GetFields`, `GetProperties`, `GetValue`, `IsPrimitive` and `ToString()` become fields of the abstract `Value` and `Member`.
  - A user `ToString()` that throws is not modelled, and neither is one that returns null.
  - Only `TargetInvocationException` from a member read is modelled, because that is the only exception the source catches.
- Inspector.SortByNameSorts: the model orders by ordinal character comparison. `OrderBy` uses the culture's string comparison. The model proves only that the result is sorted and is a permutation, not that `OrderBy` keeps members with equal names in their original order.
- `Environment.NewLine` is modelled as `"\n"`.
- `consoleText.text`, the Unity canvas, `Canvas.cs`, `ToggleBind.cs`, `InputFieldSubmitOnly.cs`, `FontUtil.cs`, `GlobalSettings.cs` and `OnDeselect` are left out. They are UI, font and focus handling with no logic that affects the buffer or history. The displayed text is a field of the class instead.
- `Input.GetKeyDown` polling is left out. Each frame's key presses are boolean parameters of `Update`.
- Editing the input text outside `OnSubmit` and `Update` is the input field's own behaviour. It appears only as the `Typed` event of the history state machine.
- A null string is not modelled: Dafny strings are never null, so `IsNullOrEmpty` reduces to the empty test.
- 32-bit `int` overflow of counts and the cursor is not modelled. It needs more than 2^31 entries or characters.
- ModConsole.Chunks: lengths count Unicode scalar values (a Dafny `char`), not the UTF-16 code units that .NET `string.Length` and `Substring` count. A line with characters outside the Basic Multilingual Plane can be cut into fewer chunks than the C# makes, and the C# can split a surrogate pair across two chunks.
- Strings.PadRight: the width counts Unicode scalar values, not UTF-16 code units, so a name with characters outside the Basic Multilingual Plane gets more padding than `PadRight(30)` gives it.
- Inspector.AppendMemberInfo: a member's collection is a finite sequence read without failure. In the C#, `ToArray()` and `Count()` on an enumerable can throw, or never finish for an endless one, and that exception or hang escapes `Inspect`.
- ModConsole.ModConsole.AddMessage: the C# grows and trims `_messages` in place. The model grows and trims a local copy and stores it back into the field at the end. The list is private and nothing runs in between, so no caller can see a difference.
- ModConsole.Chunks: requires `maxChunkSize > 0`. With 0 the C# loop never ends. The only caller passes 80.
- ConsoleInputField.ConsoleInputField.Update: requires the cursor invariant `0 <= histInd <= |history|`. Every operation of the class keeps it, so the indexing in the C# never fails.
