/** The console itself: the scrollback buffer that every message is appended
    to, and the handler that runs when the user commits a line of input. The
    compiler is not modelled; what it does with a line is given to the handler
    as the diagnostics it reported and whether evaluation produced a value. */
module ModConsole {
  import opened Strings
  import Inspector
  import LambdaWriter

  /** The most lines the scrollback keeps. */
  const LINE_COUNT: nat := 40

  /** The width each line of a message is cut at. */
  const CHUNK_WIDTH: nat := 80

  function Min(a: int, b: int): int
  {
    if a < b then a else b
  }

  // ----- Chunking -----

  /** The pieces `Chunks(s, n)` yields: `s` cut every `n` characters. */
  function ChunksOf(s: string, n: nat): seq<string>
    requires n > 0
    decreases |s|
  {
    if s == [] then [] else var k := Min(n, |s|); [s[..k]] + ChunksOf(s[k..], n)
  }

  /** The chunks put back together give the line unchanged. */
  lemma {:induction false} ChunksConcat(s: string, n: nat)
    requires n > 0
    ensures Concat(ChunksOf(s, n)) == s
    decreases |s|
  {
    if s != [] {
      var k := Min(n, |s|);
      ChunksConcat(s[k..], n);
      assert s[..k] + s[k..] == s;
    }
  }

  /** There are ceil(|s| / n) chunks: the fewest n-character pieces that cover `s`. */
  lemma {:induction false} ChunksCount(s: string, n: nat)
    requires n > 0
    ensures (|ChunksOf(s, n)| - 1) * n < |s| <= |ChunksOf(s, n)| * n
    decreases |s|
  {
    var c := |ChunksOf(s, n)|;
    if s == [] {
      assert c == 0;
    } else {
      var k := Min(n, |s|);
      ChunksCount(s[k..], n);
      var c' := |ChunksOf(s[k..], n)|;
      assert c == c' + 1;
      if k == n {
        assert c * n == c' * n + n;
        assert (c - 1) * n == c' * n;
      } else {
        assert ChunksOf(s[k..], n) == [];
        assert c == 1;
      }
    }
  }

  /** Each chunk holds 1 to n characters, and every chunk but the last holds exactly n. */
  lemma {:induction false} ChunksWidths(s: string, n: nat)
    requires n > 0
    ensures forall i :: 0 <= i < |ChunksOf(s, n)| ==> 1 <= |ChunksOf(s, n)[i]| <= n
    ensures forall i :: 0 <= i < |ChunksOf(s, n)| - 1 ==> |ChunksOf(s, n)[i]| == n
    decreases |s|
  {
    if s != [] {
      var k := Min(n, |s|);
      ChunksWidths(s[k..], n);
      var rest := ChunksOf(s[k..], n);
      var c := [s[..k]] + rest;
      assert c == ChunksOf(s, n);
      if k < n {
        assert rest == [];
      }
      forall i | 0 <= i < |c| ensures 1 <= |c[i]| <= n {
        if i > 0 {
          assert c[i] == rest[i - 1];
        }
      }
      forall i | 0 <= i < |c| - 1 ensures |c[i]| == n {
        if i > 0 {
          assert c[i] == rest[i - 1];
        }
      }
    }
  }

  /** What is left of `s` from position `i` on; nothing once `i` has passed its end. */
  function From(s: string, i: nat): string
  {
    if i <= |s| then s[i..] else []
  }

  /** One turn of the chunking loop: the rest of `s` from `i` starts with the
      chunk taken at `i`, and what follows it is the rest from `i + n`. */
  lemma ChunkAt(s: string, i: nat, n: nat)
    requires i < |s| && n > 0
    ensures ChunksOf(From(s, i), n) == [s[i..i + Min(n, |s| - i)]] + ChunksOf(From(s, i + n), n)
  {
    var k := Min(n, |s| - i);
    assert s[i..][..k] == s[i..i + k];
    assert s[i..][k..] == From(s, i + n);
  }

  /** `Chunks(str, maxChunkSize)`: the loop that cuts a line into chunks. */
  method Chunks(str: string, maxChunkSize: int) returns (chunks: seq<string>)
    requires maxChunkSize > 0
    ensures chunks == ChunksOf(str, maxChunkSize)
  {
    chunks := [];
    var i := 0;
    while i < |str|
      invariant 0 <= i
      invariant chunks + ChunksOf(From(str, i), maxChunkSize) == ChunksOf(str, maxChunkSize)
      decreases |str| - i
    {
      var chunk := str[i..i + Min(maxChunkSize, |str| - i)];
      ghost var rest := ChunksOf(From(str, i + maxChunkSize), maxChunkSize);
      ChunkAt(str, i, maxChunkSize);
      AppendAssoc(chunks, [chunk], rest);
      assert (chunks + [chunk]) + rest == ChunksOf(str, maxChunkSize);
      chunks := chunks + [chunk];
      i := i + maxChunkSize;
    }
    assert From(str, i) == [];
  }

  // ----- The buffer -----

  /** The chunks of `lines`, line after line. */
  function ChunksOfLines(lines: seq<string>): seq<string>
  {
    if lines == [] then []
    else ChunksOfLines(lines[..|lines| - 1]) + ChunksOf(lines[|lines| - 1], CHUNK_WIDTH)
  }

  /** The buffer lines a message adds: each of its '\n'-separated lines, cut into chunks. */
  function MessageLines(message: string): seq<string>
  {
    ChunksOfLines(Split(message, '\n'))
  }

  /** The last `cap` elements of `s` (all of them if there are fewer). */
  function Retain(s: seq<string>, cap: nat): seq<string>
  {
    if |s| <= cap then s else s[|s| - cap..]
  }

  /** The buffer after `AddMessage(message)`. */
  function Appended(buffer: seq<string>, message: string): seq<string>
  {
    Retain(buffer + MessageLines(message), LINE_COUNT)
  }

  /** The buffer after `AddMessage` of each of `messages`, in order. */
  function AppendedAll(buffer: seq<string>, messages: seq<string>): seq<string>
  {
    if messages == [] then buffer
    else Appended(AppendedAll(buffer, messages[..|messages| - 1]), messages[|messages| - 1])
  }

  /** The lines of all of `messages`, one message after another. */
  function AllLines(messages: seq<string>): seq<string>
  {
    if messages == [] then []
    else AllLines(messages[..|messages| - 1]) + MessageLines(messages[|messages| - 1])
  }

  /** A buffer line is one chunk of one line of a message. */
  predicate IsBufferLine(line: string)
  {
    1 <= |line| <= CHUNK_WIDTH && '\n' !in line
  }

  lemma {:induction false} ChunksOfLinesContent(lines: seq<string>)
    ensures Concat(ChunksOfLines(lines)) == Concat(lines)
  {
    if lines != [] {
      var init := lines[..|lines| - 1];
      var last := lines[|lines| - 1];
      var chunks := ChunksOf(last, CHUNK_WIDTH);
      ChunksOfLinesContent(init);
      assert ChunksOfLines(lines) == ChunksOfLines(init) + chunks;
      ConcatAppend(ChunksOfLines(init), chunks);
      ChunksConcat(last, CHUNK_WIDTH);
      assert lines == init + [last];
      ConcatAppend(init, [last]);
      ConcatSingle(last);
    }
  }

  lemma {:induction false} ChunksOfLinesShape(lines: seq<string>)
    requires forall j :: 0 <= j < |lines| ==> '\n' !in lines[j]
    ensures forall i :: 0 <= i < |ChunksOfLines(lines)| ==> IsBufferLine(ChunksOfLines(lines)[i])
  {
    if lines != [] {
      var init := lines[..|lines| - 1];
      var last := lines[|lines| - 1];
      ChunksOfLinesShape(init);
      ChunksWidths(last, CHUNK_WIDTH);
      var c := ChunksOf(last, CHUNK_WIDTH);
      forall i | 0 <= i < |c| ensures '\n' !in c[i] {
        ChunksConcat(last, CHUNK_WIDTH);
        ChunkInConcat(c, i);
      }
    }
  }

  /** A piece of a concatenation is a slice of it, so lacks whatever the whole lacks. */
  lemma {:induction false} ChunkInConcat(c: seq<string>, i: nat)
    requires i < |c|
    ensures forall x :: x in c[i] ==> x in Concat(c)
  {
    if i > 0 {
      ChunkInConcat(c[1..], i - 1);
    }
  }

  /** A message's buffer lines hold its characters other than '\n', in order,
      and each is a chunk of 1 to 80 characters without a '\n'. */
  lemma MessageLinesContent(message: string)
    ensures Concat(MessageLines(message)) == Remove(message, '\n')
    ensures forall i :: 0 <= i < |MessageLines(message)| ==> IsBufferLine(MessageLines(message)[i])
  {
    ChunksOfLinesContent(Split(message, '\n'));
    ConcatSplit(message, '\n');
    ChunksOfLinesShape(Split(message, '\n'));
  }

  /** A message made of nothing but line breaks (or empty) adds no lines. */
  lemma BlankMessageAddsNothing(message: string)
    requires forall i :: 0 <= i < |message| ==> message[i] == '\n'
    ensures MessageLines(message) == []
  {
    MessageLinesContent(message);
    RemoveAll(message);
  }

  lemma {:induction false} RemoveAll(message: string)
    requires forall i :: 0 <= i < |message| ==> message[i] == '\n'
    ensures Remove(message, '\n') == []
  {
    if message != [] {
      RemoveAll(message[1..]);
    }
  }

  /** Trimming to the last `cap` lines before appending more changes nothing
      once the result is trimmed again: eviction is first in, first out. */
  lemma RetainTwice(a: seq<string>, b: seq<string>, cap: nat)
    ensures Retain(Retain(a, cap) + b, cap) == Retain(a + b, cap)
  {
    var x := Retain(a, cap);
    if |a| > cap {
      assert x + b == (a + b)[|a| - cap..];
    }
  }

  lemma AllLinesStep(buffer: seq<string>, messages: seq<string>)
    requires messages != []
    ensures buffer + AllLines(messages)
         == (buffer + AllLines(messages[..|messages| - 1])) + MessageLines(messages[|messages| - 1])
  {
    var x := AllLines(messages[..|messages| - 1]);
    var y := MessageLines(messages[|messages| - 1]);
    assert AllLines(messages) == x + y;
    AppendAssoc(buffer, x, y);
  }

  /** The buffer after any sequence of messages holds the last 40 (or all, if
      fewer) of: the old buffer's lines, then every message's lines in order. */
  lemma {:induction false} AppendedAllFifo(buffer: seq<string>, messages: seq<string>)
    requires |buffer| <= LINE_COUNT
    ensures AppendedAll(buffer, messages) == Retain(buffer + AllLines(messages), LINE_COUNT)
  {
    if messages != [] {
      var init := messages[..|messages| - 1];
      var last := messages[|messages| - 1];
      AppendedAllFifo(buffer, init);
      RetainTwice(buffer + AllLines(init), MessageLines(last), LINE_COUNT);
      AllLinesStep(buffer, messages);
    } else {
      assert buffer + [] == buffer;
    }
  }

  /** The buffer never holds more than 40 lines; it holds all of the old
      lines and new chunks when they fit, and otherwise exactly 40, the newest. */
  lemma AppendedBound(buffer: seq<string>, message: string)
    ensures var total := buffer + MessageLines(message);
      && |Appended(buffer, message)| == Min(LINE_COUNT, |total|)
      && Appended(buffer, message) == total[|total| - Min(LINE_COUNT, |total|)..]
  {
  }

  /** The displayed text splits back, at its line breaks, into the buffer's lines. */
  lemma DisplayedLines(buffer: seq<string>)
    requires buffer != []
    requires forall i :: 0 <= i < |buffer| ==> IsBufferLine(buffer[i])
    ensures Split(Join(buffer, "\n"), '\n') == buffer
  {
    SplitJoin(buffer, '\n');
  }

  // ----- Submission -----

  /** What evaluating a line produced: a value, or the compiler's refusal
      (`TryEvaluate` returning false). */
  datatype Evaluation = Evaluated(output: Inspector.Value) | Failed

  /** The lines the diagnostic writer prints for the compiler's reports. */
  function Written(diagnostics: seq<string>): seq<string>
  {
    seq(|diagnostics|, i requires 0 <= i < |diagnostics| => LambdaWriter.WriteLine(diagnostics[i]))
  }

  /** The result line a committed line adds: "=> " and the inspection of the
      value when evaluation produced one and showing it did not raise. */
  function ResultLines(evaluation: Evaluation): seq<string>
  {
    if evaluation.Failed? then []
    else
      var shown := Inspector.InspectionOf(evaluation.output, Inspector.Fields);
      if shown.Rendered? then ["=> " + shown.text] else []
  }

  /** The messages a committed line adds, in order: nothing for an empty line;
      otherwise the line itself, the compiler's reports, then the result line. */
  function SubmissionMessages(str: string, diagnostics: seq<string>, evaluation: Evaluation): seq<string>
  {
    if str == "" then [] else [str] + Written(diagnostics) + ResultLines(evaluation)
  }

  /** An empty line adds nothing. Any other line adds itself first, then each
      report in the writer's colour tags, in order. */
  lemma SubmissionOrder(str: string, diagnostics: seq<string>, evaluation: Evaluation)
    ensures str == "" ==> SubmissionMessages(str, diagnostics, evaluation) == []
    ensures str != "" ==> var m := SubmissionMessages(str, diagnostics, evaluation);
      && |m| > |diagnostics|
      && m[0] == str
      && forall i :: 0 <= i < |diagnostics| ==> m[i + 1] == LambdaWriter.WriteLine(diagnostics[i])
  {
    if str != "" {
      var w := Written(diagnostics);
      var m := SubmissionMessages(str, diagnostics, evaluation);
      assert m == [str] + w + ResultLines(evaluation);
      ThreeParts(str, w, ResultLines(evaluation));
      forall i | 0 <= i < |diagnostics|
        ensures m[i + 1] == LambdaWriter.WriteLine(diagnostics[i])
      {
        assert m[i + 1] == w[i];
      }
    }
  }

  /** After the line and its reports come its result lines, and nothing else. */
  lemma SubmissionEnds(str: string, diagnostics: seq<string>, evaluation: Evaluation)
    requires str != ""
    ensures var m := SubmissionMessages(str, diagnostics, evaluation);
      && |m| == |diagnostics| + 1 + |ResultLines(evaluation)|
      && m[|diagnostics| + 1..] == ResultLines(evaluation)
  {
    var w := Written(diagnostics);
    assert SubmissionMessages(str, diagnostics, evaluation) == [str] + w + ResultLines(evaluation);
    ThreeParts(str, w, ResultLines(evaluation));
  }

  /** There is at most one result line: "=> " and the inspection of the value,
      present exactly when evaluation produced a value and showing it did not raise. */
  lemma ResultLinesShape(evaluation: Evaluation)
    ensures |ResultLines(evaluation)| <= 1
    ensures |ResultLines(evaluation)| == 1 <==>
      evaluation.Evaluated? && Inspector.InspectionOf(evaluation.output, Inspector.Fields).Rendered?
    ensures |ResultLines(evaluation)| == 1 ==>
      ResultLines(evaluation)[0] == "=> " + Inspector.InspectionOf(evaluation.output, Inspector.Fields).text
  {
  }

  lemma ThreeParts(x: string, w: seq<string>, r: seq<string>)
    ensures |[x] + w + r| == 1 + |w| + |r| && ([x] + w + r)[0] == x
    ensures forall i :: 0 <= i < |w| ==> ([x] + w + r)[i + 1] == w[i]
    ensures ([x] + w + r)[|w| + 1..] == r
  {
  }

  lemma WrittenStep(diagnostics: seq<string>, k: nat)
    requires k < |diagnostics|
    ensures Written(diagnostics[..k + 1]) == Written(diagnostics[..k]) + [LambdaWriter.WriteLine(diagnostics[k])]
  {
  }

  lemma AppendedAllStep(buffer: seq<string>, messages: seq<string>, message: string)
    ensures AppendedAll(buffer, messages + [message]) == Appended(AppendedAll(buffer, messages), message)
  {
    assert (messages + [message])[..|messages|] == messages;
  }

  /** Appending two runs of messages is appending the first, then the second. */
  lemma {:induction false} AppendedAllConcat(buffer: seq<string>, xs: seq<string>, ys: seq<string>)
    ensures AppendedAll(buffer, xs + ys) == AppendedAll(AppendedAll(buffer, xs), ys)
  {
    if ys == [] {
      assert xs + ys == xs;
    } else {
      var init := ys[..|ys| - 1];
      AppendedAllConcat(buffer, xs, init);
      AppendAssoc(xs, init, [ys[|ys| - 1]]);
      assert init + [ys[|ys| - 1]] == ys;
      AppendedAllStep(buffer, xs + init, ys[|ys| - 1]);
    }
  }

  lemma ReportStep(buffer: seq<string>, str: string, diagnostics: seq<string>, k: nat)
    requires k < |diagnostics|
    ensures AppendedAll(buffer, [str] + Written(diagnostics[..k + 1]))
         == Appended(AppendedAll(buffer, [str] + Written(diagnostics[..k])), LambdaWriter.WriteLine(diagnostics[k]))
  {
    WrittenStep(diagnostics, k);
    AppendAssoc([str], Written(diagnostics[..k]), [LambdaWriter.WriteLine(diagnostics[k])]);
    AppendedAllStep(buffer, [str] + Written(diagnostics[..k]), LambdaWriter.WriteLine(diagnostics[k]));
  }

  lemma SingleMessage(buffer: seq<string>, message: string)
    ensures AppendedAll(buffer, [message]) == Appended(buffer, message)
  {
    assert [message][..0] == [];
  }

  lemma ChunksOfLinesStep(before: seq<string>, lines: seq<string>, k: nat)
    requires k < |lines|
    ensures before + ChunksOfLines(lines[..k + 1]) == (before + ChunksOfLines(lines[..k])) + ChunksOf(lines[k], CHUNK_WIDTH)
  {
    assert lines[..k + 1][..k] == lines[..k];
    AppendAssoc(before, ChunksOfLines(lines[..k]), ChunksOf(lines[k], CHUNK_WIDTH));
  }

  lemma EvictedIsRetained(all: seq<string>, kept: seq<string>)
    requires |kept| <= |all| && kept == all[|all| - |kept|..]
    requires Min(LINE_COUNT, |all|) <= |kept| <= LINE_COUNT
    ensures kept == Retain(all, LINE_COUNT)
  {
  }

  /** What is left after evicting from the front of a buffer grown by a message is still made of buffer lines. */
  lemma SuffixOfBufferLines(before: seq<string>, message: string, all: seq<string>, kept: seq<string>)
    requires forall i :: 0 <= i < |before| ==> IsBufferLine(before[i])
    requires all == before + MessageLines(message)
    requires |kept| <= |all| && kept == all[|all| - |kept|..]
    ensures forall i :: 0 <= i < |kept| ==> IsBufferLine(kept[i])
  {
    MessageLinesContent(message);
    forall i | 0 <= i < |kept| ensures IsBufferLine(kept[i]) {
      var j := |all| - |kept| + i;
      assert kept[i] == all[j];
      if j >= |before| {
        assert all[j] == MessageLines(message)[j - |before|];
      }
    }
  }


  /** The console: its scrollback buffer and the text shown for it. */
  class ModConsole {
    var messages: seq<string>
    var consoleText: string

    ghost predicate Valid()
      reads this
    {
      && |messages| <= LINE_COUNT
      && (forall i :: 0 <= i < |messages| ==> IsBufferLine(messages[i]))
      && consoleText == Join(messages, "\n")
    }

    constructor ()
      ensures Valid() && messages == [] && consoleText == ""
    {
      messages := [];
      consoleText := "";
    }

    /** `AddMessage(message)`: appends the message's chunks, evicts the oldest
        lines beyond 40, and shows the buffer joined by line breaks. */
    method AddMessage(message: string)
      requires Valid()
      modifies this
      ensures Valid()
      ensures messages == Appended(old(messages), message)
      ensures consoleText == Join(messages, "\n")
    {
      ghost var before := messages;
      // the list is private to the console: it is grown and trimmed here, then stored back
      var buffer := messages;
      var lines := Split(message, '\n');
      for k := 0 to |lines|
        invariant buffer == before + ChunksOfLines(lines[..k])
      {
        var chunks := Chunks(lines[k], CHUNK_WIDTH);
        ChunksOfLinesStep(before, lines, k);
        buffer := buffer + chunks;
      }
      ghost var all := buffer;
      assert all == before + MessageLines(message) by {
        assert lines[..|lines|] == lines;
      }
      while |buffer| > LINE_COUNT
        invariant |buffer| <= |all| && buffer == all[|all| - |buffer|..]
        invariant |buffer| >= Min(LINE_COUNT, |all|)
      {
        assert buffer[1..] == all[|all| - |buffer| + 1..];
        buffer := buffer[1..];
      }
      EvictedIsRetained(all, buffer);
      SuffixOfBufferLines(before, message, all, buffer);
      messages := buffer;
      consoleText := Join(messages, "\n");
    }

    /** The handler for a committed line `str`: `diagnostics` are the lines the
        compiler reports through the writer while evaluating it. */
    method OnEndEdit(str: string, diagnostics: seq<string>, evaluation: Evaluation)
      requires Valid()
      modifies this
      ensures Valid()
      ensures messages == AppendedAll(old(messages), SubmissionMessages(str, diagnostics, evaluation))
      ensures str == "" ==> messages == old(messages) && consoleText == old(consoleText)
    {
      if str == "" {
        return;
      }
      AddMessage(str);
      SingleMessage(old(messages), str);
      // each report the compiler makes while evaluating `str` goes through the writer
      for k := 0 to |diagnostics|
        invariant Valid()
        invariant messages == AppendedAll(old(messages), [str] + Written(diagnostics[..k]))
      {
        AddMessage(LambdaWriter.WriteLine(diagnostics[k]));
        ReportStep(old(messages), str, diagnostics, k);
      }
      assert diagnostics[..|diagnostics|] == diagnostics;
      ghost var reported := messages;
      if evaluation.Evaluated? {
        var shown := Inspector.Inspect(evaluation.output, Inspector.Fields);
        if shown.Rendered? {
          AddMessage("=> " + shown.text);
          SingleMessage(reported, "=> " + shown.text);
        }
      }
      assert messages == AppendedAll(reported, ResultLines(evaluation));
      AppendedAllConcat(old(messages), [str] + Written(diagnostics), ResultLines(evaluation));
    }
  }
}
