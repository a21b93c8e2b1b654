/** Line arithmetic of the editor (`lines.ts`), on UTF-16 code units: where lines start, which line an index is
    in, and which lines a range touches. */
module EditorLines {
  type Unit = n: int | 0 <= n < 0x1_0000

  const NEWLINE: Unit := 0x0A

  /** How many of the first `n` units are line feeds. */
  function Feeds(text: seq<Unit>, n: nat): (f: nat)
    requires n <= |text|
    ensures f <= n
  {
    if n == 0 then 0 else Feeds(text, n - 1) + if text[n - 1] == NEWLINE then 1 else 0
  }

  function Clamp(n: nat, limit: nat): nat {
    if n > limit then limit else n
  }

  /** The 1-based line of an index; past the end it is the last line. */
  function LineOf(text: seq<Unit>, index: nat): nat {
    1 + Feeds(text, Clamp(index, |text|))
  }

  function StartsBefore(text: seq<Unit>, n: nat): (r: seq<nat>)
    requires n <= |text|
    ensures |r| == 1 + Feeds(text, n)
  {
    if n == 0 then [0]
    else if text[n - 1] == NEWLINE then StartsBefore(text, n - 1) + [n]
    else StartsBefore(text, n - 1)
  }

  function Starts(text: seq<Unit>): seq<nat> {
    StartsBefore(text, |text|)
  }

  method LineStarts(text: seq<Unit>) returns (starts: seq<nat>)
    ensures starts == Starts(text)
  {
    starts := [0];
    for index := 0 to |text|
      invariant starts == StartsBefore(text, index)
    {
      if text[index] == NEWLINE {
        starts := starts + [index + 1];
      }
    }
  }

  predicate Ascending(starts: seq<nat>) {
    forall i, j | 0 <= i < j < |starts| :: starts[i] < starts[j]
  }

  lemma {:induction false} FeedsGrow(text: seq<Unit>, m: nat, n: nat)
    requires m <= n <= |text|
    ensures Feeds(text, m) <= Feeds(text, n) <= Feeds(text, m) + (n - m)
    decreases n
  {
    if m < n {
      FeedsGrow(text, m, n - 1);
    }
  }

  /** The starts up to an index are as many as the line number of that index, and they come first. */
  lemma {:induction false} StartsRank(text: seq<Unit>, n: nat, index: nat)
    requires index <= n <= |text|
    ensures forall k | 0 <= k < |StartsBefore(text, n)| :: StartsBefore(text, n)[k] <= n
    ensures forall k | 0 <= k < |StartsBefore(text, n)| ::
              StartsBefore(text, n)[k] <= index <==> k <= Feeds(text, index)
    decreases n
  {
    if n > 0 {
      var front := StartsBefore(text, n - 1);
      if index < n {
        StartsRank(text, n - 1, index);
        FeedsGrow(text, index, n - 1);
      } else {
        StartsRank(text, n - 1, n - 1);
      }
      assert forall k | 0 <= k < |front| :: StartsBefore(text, n)[k] == front[k];
    }
  }

  lemma {:induction false} StartsAscend(text: seq<Unit>, n: nat)
    requires n <= |text|
    ensures Ascending(StartsBefore(text, n))
  {
    if n > 0 {
      StartsAscend(text, n - 1);
      StartsRank(text, n - 1, n - 1);
    }
  }

  /** Binary search: the last start that is not after the index. There is always at least one start. */
  method LineAt(starts: seq<nat>, charIndex: nat) returns (line: nat)
    requires starts != [] && Ascending(starts)
    ensures 1 <= line <= |starts|
    ensures line > 1 ==> starts[line - 1] <= charIndex
    ensures line < |starts| ==> charIndex < starts[line]
  {
    var low, high := 0, |starts| - 1;
    while low < high
      invariant 0 <= low <= high < |starts|
      invariant low > 0 ==> starts[low] <= charIndex
      invariant high + 1 < |starts| ==> charIndex < starts[high + 1]
    {
      var middle := (low + high + 1) / 2;
      if starts[middle] <= charIndex {
        low := middle;
      } else {
        high := middle - 1;
      }
    }
    line := low + 1;
  }

  /** What the binary search finds in the starts of a text is the line of the index. */
  lemma SearchIsLineOf(text: seq<Unit>, charIndex: nat, line: nat)
    requires 1 <= line <= |Starts(text)|
    requires line > 1 ==> Starts(text)[line - 1] <= charIndex
    requires line < |Starts(text)| ==> charIndex < Starts(text)[line]
    ensures line == LineOf(text, charIndex)
  {
    var starts, index := Starts(text), Clamp(charIndex, |text|);
    StartsRank(text, |text|, index);
    FeedsGrow(text, index, |text|);
    assert line > 1 ==> starts[line - 1] <= index;
    assert line < |starts| ==> index < starts[line];
    assert line - 1 <= Feeds(text, index);
    if line < |starts| {
      assert line > Feeds(text, index);
    }
  }

  /** The start of an index's line: no line feed lies between, and what is before it is a line feed. */
  method LineColumn(text: seq<Unit>, charIndex: nat) returns (line: nat, column: int)
    ensures line == LineOf(text, charIndex)
    ensures line <= |Starts(text)| && Starts(text)[line - 1] + column - 1 == charIndex
    ensures charIndex <= |text| ==>
              column >= 1 && forall i | Starts(text)[line - 1] <= i < charIndex :: text[i] != NEWLINE
  {
    hide Feeds, StartsBefore, LineOf;
    var starts := LineStarts(text);
    StartsAscend(text, |text|);
    line := LineAt(starts, charIndex);
    SearchIsLineOf(text, charIndex, line);
    column := charIndex - starts[line - 1] + 1;
    if charIndex <= |text| {
      StartOfLine(text, charIndex, line);
    }
  }

  lemma StartOfLine(text: seq<Unit>, index: nat, line: nat)
    requires index <= |text| && line == LineOf(text, index)
    ensures line <= |Starts(text)| && Starts(text)[line - 1] <= index
    ensures forall i | Starts(text)[line - 1] <= i < index :: text[i] != NEWLINE
  {
    FeedsGrow(text, index, |text|);
    StartsRank(text, |text|, index);
    var start := Starts(text)[line - 1];
    forall i | start <= i < index
      ensures text[i] != NEWLINE
    {
      StartsRank(text, |text|, i);
      FeedsGrow(text, i + 1, index);
    }
  }

  function Consecutive(first: nat, last: nat): (r: seq<nat>)
    ensures forall k | 0 <= k < |r| :: r[k] == first + k
    ensures |r| == if first <= last then last - first + 1 else 0
    decreases last + 1 - first
  {
    if first > last then [] else [first] + Consecutive(first + 1, last)
  }

  function LastIndex(start: nat, end: nat): nat {
    if end > start + 1 then end - 1 else start
  }

  method LinesInRange(text: seq<Unit>, start: nat, end: nat) returns (lines: seq<nat>)
    ensures lines == Consecutive(LineOf(text, start), LineOf(text, LastIndex(start, end)))
  {
    hide Feeds, StartsBefore, LineOf;
    var starts := LineStarts(text);
    StartsAscend(text, |text|);
    var first := LineAt(starts, start);
    SearchIsLineOf(text, start, first);
    var last := LineAt(starts, LastIndex(start, end));
    SearchIsLineOf(text, LastIndex(start, end), last);
    hide Consecutive;
    lines := [];
    var line: nat := first;
    NothingFirst(Consecutive(first, last));
    while line <= last
      invariant lines + Consecutive(line, last) == Consecutive(first, last)
    {
      ConsecutiveMoves(lines, line, last);
      lines := lines + [line];
      line := line + 1;
    }
    assert lines + [] == lines;
  }

  lemma NothingFirst(s: seq<nat>)
    ensures [] + s == s
  {
  }

  lemma ConsecutiveMoves(lines: seq<nat>, line: nat, last: nat)
    requires line <= last
    ensures lines + Consecutive(line, last) == (lines + [line]) + Consecutive(line + 1, last)
  {
    var rest := Consecutive(line + 1, last);
    assert Consecutive(line, last) == [line] + rest;
    assert lines + ([line] + rest) == (lines + [line]) + rest;
  }

  lemma {:induction false} SomeIndexOn(text: seq<Unit>, start: nat, end: nat, line: nat) returns (i: nat)
    requires start < end <= |text| && LineOf(text, start) <= line <= LineOf(text, end - 1)
    ensures start <= i < end && LineOf(text, i) == line
    decreases end
  {
    if LineOf(text, end - 1) == line {
      i := end - 1;
    } else {
      FeedsGrow(text, end - 2, end - 1);
      i := SomeIndexOn(text, start, end - 1, line);
    }
  }

  lemma LinesGrow(text: seq<Unit>, i: nat, j: nat)
    requires i <= j <= |text|
    ensures LineOf(text, i) <= LineOf(text, j)
  {
    FeedsGrow(text, i, j);
  }

  /** The lines named for a non-empty range are exactly the lines that one of its units is on. */
  lemma LinesAreTouched(text: seq<Unit>, start: nat, end: nat, line: nat)
    requires start < end <= |text|
    ensures line in Consecutive(LineOf(text, start), LineOf(text, LastIndex(start, end)))
            <==> exists i | start <= i < end :: LineOf(text, i) == line
  {
    hide Consecutive, LineOf;
    var lines := Consecutive(LineOf(text, start), LineOf(text, LastIndex(start, end)));
    if line in lines {
      var i := SomeIndexOn(text, start, end, line);
    }
    if exists i | start <= i < end :: LineOf(text, i) == line {
      var i :| start <= i < end && LineOf(text, i) == line;
      LinesGrow(text, start, i);
      LinesGrow(text, i, end - 1);
      assert lines[line - LineOf(text, start)] == line;
    }
  }
}
