/** What an INI edit means: parsing the edited bytes gives the old fields with one value replaced, and the encoding
    and line endings stay (`common.rs`). */
module IniEdit {
  import opened Utf8
  import opened Document
  import opened IniText
  import opened Ini
  import Path

  // ---- documents as lines ---------------------------------------------------

  /** The byte-order mark, or nothing. */
  function Mark(source: seq<byte>): seq<byte> {
    source[..BaseOffset(source)]
  }

  function FromLines(mark: seq<byte>, lines: seq<string>): seq<byte> {
    mark + Encode(Concat(lines))
  }

  lemma SourceIsLines(source: seq<byte>)
    requires DetectEncoding(source) != Unsupported
    ensures source == FromLines(Mark(source), TextLines(source)) && AreLines(TextLines(source))
    ensures |Mark(source)| == BaseOffset(source)
  {
    hide Encode, Decode, Lines, AreLines, Concat;
    var text := Decode(Body(source)).value;
    EncodeOfDecode(Body(source));
    LinesLossless(text);
    LinesAreLines(text);
  }

  lemma FirstCharacter(lines: seq<string>)
    requires AreLines(lines) && lines != []
    ensures lines[0] != [] && Concat(lines) != [] && Concat(lines)[0] == lines[0][0]
  {
    assert IsLine(lines[0], 0 == |lines| - 1);
  }

  /** New lines under the same mark, with the same first character, are read back as they are. */
  lemma LinesAreSource(source: seq<byte>, lines: seq<string>)
    requires DetectEncoding(source) != Unsupported && AreLines(lines) && TextLines(source) != [] && lines != []
    requires TextLines(source)[0] != [] && lines[0] != [] && TextLines(source)[0][0] == lines[0][0]
    ensures var out := FromLines(Mark(source), lines);
            && DetectEncoding(out) == DetectEncoding(source) && TextLines(out) == lines
            && BaseOffset(out) == BaseOffset(source) && Mark(out) == Mark(source)
  {
    hide Encode, Decode, Lines, AreLines, Concat;
    var before, after := Concat(TextLines(source)), Concat(lines);
    var out := FromLines(Mark(source), lines);
    SourceIsLines(source);
    DecodeOfEncode(after);
    LinesUnique(lines);
    MarkIsFirst(before);
    MarkIsFirst(after);
    FirstCharacter(TextLines(source));
    FirstCharacter(lines);
    if HasBom(source) {
      assert Mark(source) == BOM;
      assert out[..3] == BOM && out[3..] == Encode(after);
    } else {
      assert Mark(source) == [] && source == Encode(before);
      assert out == Encode(after) && out[0..] == out;
    }
  }

  // ---- one line replaced ----------------------------------------------------

  /** Two documents that differ only in line `k`, which assigns to the same key in both. */
  ghost predicate SameBut(lines: seq<string>, lines': seq<string>, k: nat) {
    && |lines'| == |lines| && k < |lines|
    && (forall j | 0 <= j < |lines| && j != k :: lines'[j] == lines[j])
    && var (a, b) := (Classify(Content(lines[k])), Classify(Content(lines'[k])));
    a.Assignment? && b.Assignment? && a.key == b.key
  }

  lemma {:induction false} SameSections(lines: seq<string>, lines': seq<string>, k: nat, n: nat, options: Options)
    requires SameBut(lines, lines', k) && n <= |lines|
    ensures SectionBefore(lines', n, options) == SectionBefore(lines, n, options)
  {
    hide Classify, Content, MatchingSection;
    if n > 0 {
      SameSections(lines, lines', k, n - 1, options);
    }
  }

  lemma {:induction false} SameFieldLines(lines: seq<string>, lines': seq<string>, k: nat, n: nat, options: Options)
    requires SameBut(lines, lines', k) && n <= |lines|
    ensures FieldLines(lines', n, options) == FieldLines(lines, n, options)
  {
    hide Classify, Content, SectionBefore;
    if n > 0 {
      SameSections(lines, lines', k, n - 1, options);
      SameFieldLines(lines, lines', k, n - 1, options);
    }
  }

  lemma SameOpens(lines: seq<string>, lines': seq<string>, k: nat, j: nat, options: Options)
    requires SameBut(lines, lines', k) && j < |lines|
    ensures Opens(lines', j, options) == Opens(lines, j, options)
  {
    hide Classify, Content;
  }

  lemma {:induction false} SameDuplicates(lines: seq<string>, lines': seq<string>, k: nat, n: nat, options: Options)
    requires SameBut(lines, lines', k) && n <= |lines|
    ensures Seen(lines', n, options) == Seen(lines, n, options)
    ensures Duplicates(lines', n, options) == Duplicates(lines, n, options)
  {
    hide Opens, Classify, Content;
    if n > 0 {
      SameOpens(lines, lines', k, n - 1, options);
      SameDuplicates(lines, lines', k, n - 1, options);
    }
  }

  /** Positions up to the changed line stay; later ones move by the change in its length. */
  lemma {:induction false} OffsetsMove(lines: seq<string>, lines': seq<string>, k: nat, n: nat, base: nat)
    requires SameBut(lines, lines', k) && n <= |lines|
    ensures Offset(lines', n, base)
            == Offset(lines, n, base) + if n <= k then 0 else |Encode(lines'[k])| - |Encode(lines[k])|
  {
    hide Encode, Classify, Content;
    if n > 0 {
      OffsetsMove(lines, lines', k, n - 1, base);
    }
  }

  /** The fields are the field lines, in the order of the lines. */
  lemma {:induction false} FieldsAreLines(lines: seq<string>, n: nat, base: nat, options: Options)
    requires n <= |lines|
    ensures var ks := FieldLines(lines, n, options);
            var fields := FieldsBefore(lines, n, base, options);
            && |fields| == |ks|
            && (forall i | 0 <= i < |ks| :: ks[i] < n && IsFieldLine(lines, ks[i], options)
                                            && fields[i] == FieldAt(lines, ks[i], base, options))
            && (forall i, j | 0 <= i < j < |ks| :: ks[i] < ks[j])
  {
    hide FieldAt, IsFieldLine;
    if n > 0 {
      FieldsAreLines(lines, n - 1, base, options);
    }
  }

  // ---- the span of a field --------------------------------------------------

  lemma {:induction false} ConcatSplit(lines: seq<string>, k: nat)
    requires k <= |lines|
    ensures Concat(lines) == Concat(lines[..k]) + Concat(lines[k..])
  {
    if k == 0 {
      assert lines[..0] == [] && lines[0..] == lines;
      assert Concat([]) + Concat(lines) == Concat(lines);
    } else {
      var rest := lines[1..];
      ConcatSplit(rest, k - 1);
      assert lines[..k][0] == lines[0] && lines[..k][1..] == rest[..k - 1] && rest[k - 1..] == lines[k..];
      assert lines[0] + (Concat(rest[..k - 1]) + Concat(rest[k - 1..]))
          == (lines[0] + Concat(rest[..k - 1])) + Concat(rest[k - 1..]);
    }
  }

  lemma ConcatAround(lines: seq<string>, k: nat)
    requires k < |lines|
    ensures Concat(lines) == Concat(lines[..k]) + (lines[k] + Concat(lines[k + 1..]))
  {
    ConcatSplit(lines, k);
    assert lines[k..][0] == lines[k] && lines[k..][1..] == lines[k + 1..];
  }

  lemma {:induction false} OffsetIsLength(lines: seq<string>, n: nat, base: nat)
    requires n <= |lines|
    ensures Offset(lines, n, base) == base + |Encode(Concat(lines[..n]))|
  {
    hide EncodeChar, Encode;
    if n > 0 {
      var k := n - 1;
      OffsetIsLength(lines, k, base);
      ConcatAround(lines[..n], k);
      assert lines[..n][..k] == lines[..k] && lines[..n][k + 1..] == [];
      assert lines[k] + Concat([]) == lines[k];
      EncodeConcat(Concat(lines[..k]), lines[k]);
    } else {
      assert lines[..0] == [];
      EncodeEmpty();
    }
  }

  lemma EncodeEmpty()
    ensures |Encode(Concat([]))| == 0
  {
  }

  /** A document around one value. */
  lemma Around(mark: seq<byte>, lines: seq<string>, k: nat, at: nat, end: nat, r: string)
    requires k < |lines| && at <= end <= |lines[k]|
    ensures var x := mark + Encode(Concat(lines[..k])) + Encode(lines[k][..at]);
            var y := Encode(lines[k][end..] + Concat(lines[k + 1..]));
            && FromLines(mark, lines) == x + (Encode(lines[k][at..end]) + y)
            && FromLines(mark, lines[k := lines[k][..at] + r + lines[k][end..]]) == x + (Encode(r) + y)
  {
    hide Encode, Concat;
    var line := lines[k];
    var line' := line[..at] + r + line[end..];
    var lines' := lines[k := line'];
    AroundText(mark, lines, k, at, line[at..end], line[end..]);
    assert line == line[..at] + line[at..end] + line[end..];
    assert lines == lines[k := line[..at] + line[at..end] + line[end..]];
    assert lines'[..k] == lines[..k] && lines'[k + 1..] == lines[k + 1..];
    assert line'[..at] == line[..at];
    AroundText(mark, lines', k, at, r, line[end..]);
  }

  lemma AroundText(mark: seq<byte>, lines: seq<string>, k: nat, at: nat, m: string, z: string)
    requires k < |lines| && at <= |lines[k]| && lines[k] == lines[k][..at] + m + z
    ensures FromLines(mark, lines)
            == mark + Encode(Concat(lines[..k])) + Encode(lines[k][..at])
              + (Encode(m) + Encode(z + Concat(lines[k + 1..])))
  {
    hide Encode, Concat;
    var a, c := Concat(lines[..k]), Concat(lines[k + 1..]);
    var pre := lines[k][..at];
    ConcatAround(lines, k);
    assert a + (lines[k] + c) == a + (pre + (m + (z + c)));
    EncodeConcat(a, pre + (m + (z + c)));
    EncodeConcat(pre, m + (z + c));
    EncodeConcat(m, z + c);
    var (ea, ep, em) := (Encode(a), Encode(pre), Encode(m));
    var ez := Encode(z + c);
    assert mark + (ea + (ep + (em + ez))) == mark + ea + ep + (em + ez);
  }

  /** A field's span holds its value, and splicing there replaces the value in its line. */
  lemma SpanHoldsValue(mark: seq<byte>, lines: seq<string>, k: nat, options: Options, r: string)
    requires k < |lines| && IsFieldLine(lines, k, options)
    ensures var source := FromLines(mark, lines);
            var span := FieldAt(lines, k, |mark|, options).span;
            var kind := Classify(Content(lines[k]));
            && span.start <= span.end <= |source| && source[span.start..span.end] == Encode(kind.value)
            && span.end <= Offset(lines, k + 1, |mark|) && Offset(lines, k, |mark|) < span.start
            && Splice(source, span.start, span.end, Encode(r))
               == FromLines(mark, lines[k := Replaced(lines[k], kind, r)])
  {
    hide Encode, Concat, Content, Classify, IsFieldLine, SectionBefore, Path.FromSegments;
    FieldLineIs(lines, k, options);
    var line, kind := lines[k], Classify(Content(lines[k]));
    AssignmentParts(Content(line));
    var end := kind.at + |kind.value|;
    ContentSlice(line, kind.at, end);
    OffsetIsLength(lines, k, |mark|);
    Around(mark, lines, k, kind.at, end, r);
    var x := mark + Encode(Concat(lines[..k])) + Encode(line[..kind.at]);
    var y := Encode(line[end..] + Concat(lines[k + 1..]));
    var span := FieldAt(lines, k, |mark|, options).span;
    assert span.start == |x| && span.end == |x| + |Encode(kind.value)|;
    assert Encode(line[..kind.at]) != [] by {
      LastEncoded(line[..kind.at], '=');
    }
    SpliceMiddle(x, Encode(kind.value), y, Encode(r));
    Held(x, Encode(kind.value), y);
    LineBytes(line, kind.at, end);
  }

  lemma ContentSlice(line: string, at: nat, end: nat)
    requires at <= end <= |Content(line)|
    ensures line[at..end] == Content(line)[at..end]
  {
    hide Content;
    var c := Content(line);
    assert c == line[..|c|];
  }

  lemma FieldLineIs(lines: seq<string>, k: nat, options: Options)
    requires k < |lines| && IsFieldLine(lines, k, options)
    ensures Classify(Content(lines[k])).Assignment? && SectionBefore(lines, k, options).Some? && k > 0
  {
    hide Classify, Content;
  }

  lemma Held(x: seq<byte>, m: seq<byte>, y: seq<byte>)
    ensures (x + (m + y))[|x|..|x| + |m|] == m
  {
  }

  lemma LineBytes(line: string, at: nat, end: nat)
    requires at <= end <= |line|
    ensures |Encode(line)| == |Encode(line[..at])| + |Encode(line[at..end])| + |Encode(line[end..])|
  {
    hide Encode;
    EncodeSplit(line, at);
    EncodeSplit(line[at..], end - at);
    assert line[at..][..end - at] == line[at..end] && line[at..][end - at..] == line[end..];
  }

  // ---- the edited document --------------------------------------------------

  /** The position of the first field with a path. */
  function IndexOf(fields: seq<Field>, path: string): (m: nat)
    ensures m <= |fields|
  {
    if fields == [] || fields[0].path == path then 0 else 1 + IndexOf(fields[1..], path)
  }

  lemma {:induction false} MatchesAre(fields: seq<Field>, path: string)
    ensures var m := IndexOf(fields, path);
            && |Matches(fields, path)| == (if m == |fields| then 0 else 1 + |Matches(fields[m + 1..], path)|)
            && (m < |fields| ==> fields[m].path == path && Matches(fields, path)[0] == fields[m])
            && forall j | 0 <= j < m :: fields[j].path != path
  {
    if fields != [] && fields[0].path != path {
      var rest := fields[1..];
      MatchesAre(rest, path);
      var m := IndexOf(rest, path);
      if m < |rest| {
        assert rest[m + 1..] == fields[m + 2..];
      }
      assert forall j | 1 <= j < m + 1 :: fields[j] == rest[j - 1];
    }
  }

  lemma {:induction false} NoMatch(fields: seq<Field>, path: string)
    requires |Matches(fields, path)| == 0
    ensures forall j | 0 <= j < |fields| :: fields[j].path != path
  {
    if fields != [] {
      NoMatch(fields[1..], path);
      assert forall j | 1 <= j < |fields| :: fields[j] == fields[1..][j - 1];
    }
  }

  /** A unique match is the only field with the path. */
  lemma UniqueMatch(fields: seq<Field>, path: string)
    requires |Matches(fields, path)| == 1
    ensures var m := IndexOf(fields, path);
            && m < |fields| && Matches(fields, path) == [fields[m]] && fields[m].path == path
            && forall j | 0 <= j < |fields| && j != m :: fields[j].path != path
  {
    var m := IndexOf(fields, path);
    MatchesAre(fields, path);
    NoMatch(fields[m + 1..], path);
    assert forall j | m < j < |fields| :: fields[j] == fields[m + 1..][j - m - 1];
  }

  predicate SamePaths(p: seq<Field>, q: seq<Field>) {
    |q| == |p| && forall j | 0 <= j < |p| :: q[j].path == p[j].path
  }

  lemma {:induction false} MatchesByPath(p: seq<Field>, q: seq<Field>, path: string)
    requires SamePaths(p, q)
    ensures |Matches(q, path)| == |Matches(p, path)| && IndexOf(q, path) == IndexOf(p, path)
  {
    if p != [] {
      assert q[0].path == p[0].path;
      MatchesByPath(p[1..], q[1..], path);
    }
  }

  /** Same paths; spans before the edited field stay, spans after it move by `delta`. */
  predicate Moved(p: seq<Field>, q: seq<Field>, m: nat, delta: int) {
    && SamePaths(p, q) && m < |p|
    && (forall j | 0 <= j < m :: q[j] == p[j])
    && (forall j | m < j < |p| :: q[j].span.start == p[j].span.start + delta && q[j].span.end == p[j].span.end + delta)
  }

  /** The edited value: the trimmed replacement, right where the replacement has it. */
  predicate HoldsTrimmed(span: Span, q: Span, replacement: string) {
    && q.end - q.start == |Encode(Trim(replacement))|
    && (Trim(replacement) != [] ==>
          q.start == span.start + |Encode(replacement[..|replacement| - |TrimStart(replacement)|])|)
  }

  lemma ReplacedIsSame(lines: seq<string>, k: nat, r: string, options: Options)
    requires AreLines(lines) && k < |lines| && IsFieldLine(lines, k, options) && SafeReplacement(r)
    ensures var lines' := lines[k := Replaced(lines[k], Classify(Content(lines[k])), r)];
            && SameBut(lines, lines', k) && AreLines(lines')
            && Classify(Content(lines'[k])).value == Trim(r)
            && (Trim(r) != [] ==>
                  Classify(Content(lines'[k])).at == Classify(Content(lines[k])).at + (|r| - |TrimStart(r)|))
  {
    hide Classify, Content, IsLine, Trim, TrimStart, SectionBefore, SafeReplacement;
    FieldLineIs(lines, k, options);
    assert IsLine(lines[k], k == |lines| - 1);
    ReplacedLine(lines[k], k == |lines| - 1, r);
    ReplacedContent(Content(lines[k]), r);
  }

  /** Every field of the edited document, compared with the one it was. */
  lemma FieldMoves(lines: seq<string>, lines': seq<string>, k: nat, j: nat, base: nat, options: Options)
    requires SameBut(lines, lines', k) && j < |lines| && IsFieldLine(lines, j, options)
    ensures IsFieldLine(lines', j, options)
    ensures var (f, g) := (FieldAt(lines, j, base, options), FieldAt(lines', j, base, options));
            var delta := |Encode(lines'[k])| - |Encode(lines[k])|;
            && g.path == f.path
            && (j < k ==> g == f)
            && (j > k ==> g.span.start == f.span.start + delta && g.span.end == f.span.end + delta)
  {
    hide Classify, Content, Encode, Path.FromSegments, SectionBefore;
    SameSections(lines, lines', k, j, options);
    OffsetsMove(lines, lines', k, j, base);
  }

  lemma EditedSpan(lines: seq<string>, k: nat, base: nat, r: string, options: Options)
    requires AreLines(lines) && k < |lines| && IsFieldLine(lines, k, options) && SafeReplacement(r)
    ensures var kind := Classify(Content(lines[k]));
            var lines' := lines[k := Replaced(lines[k], kind, r)];
            && IsFieldLine(lines', k, options)
            && |Encode(lines'[k])| - |Encode(lines[k])| == |Encode(r)| - |Encode(kind.value)|
            && HoldsTrimmed(FieldAt(lines, k, base, options).span, FieldAt(lines', k, base, options).span, r)
  {
    hide Classify, Content, Encode, Path.FromSegments, SectionBefore, Trim, TrimStart, AreLines, SafeReplacement,
      Offset;
    var kind := Classify(Content(lines[k]));
    FieldLineIs(lines, k, options);
    ReplacedIsSame(lines, k, r, options);
    AssignmentParts(Content(lines[k]));
    var end := kind.at + |kind.value|;
    ContentSlice(lines[k], kind.at, end);
    var line' := Replaced(lines[k], kind, r);
    var lines' := lines[k := line'];
    SameSections(lines, lines', k, k, options);
    OffsetsMove(lines, lines', k, k, base);
    LineBytes(lines[k], kind.at, end);
    LineBytes(line', kind.at, kind.at + |r|);
    assert line'[..kind.at] == lines[k][..kind.at] && line'[kind.at..kind.at + |r|] == r;
    assert line'[kind.at + |r|..] == lines[k][end..];
    if Trim(r) != [] {
      var lead := r[..|r| - |TrimStart(r)|];
      assert line'[..kind.at + |lead|] == lines[k][..kind.at] + lead;
      EncodeConcat(lines[k][..kind.at], lead);
    }
  }

  // ---- line endings ---------------------------------------------------------

  /** Splicing text without line terminators, not right between a carriage return and a line feed, keeps
      the class of line endings and the way the document ends. */
  lemma EndingsKept(x: seq<byte>, v: seq<byte>, r: seq<byte>, y: seq<byte>)
    requires LF !in v && LF !in r && CR !in r && r != []
    requires y != [] && y[0] == LF ==> x + v != [] && (x + v)[|x + v| - 1] != CR
    requires x != [] && x[|x| - 1] != LF
    ensures LineEndingOf(x + (r + y)) == LineEndingOf(x + (v + y))
    ensures TrailingNewline(x + (r + y)) == TrailingNewline(x + (v + y))
  {
    var a, b := x + (v + y), x + (r + y);
    EndingsMap(x, v, r, y);
    hide CrLfAt, LoneLfAt;
    Trailing(x, v, y);
    Trailing(x, r, y);
  }

  lemma Trailing(x: seq<byte>, v: seq<byte>, y: seq<byte>)
    requires LF !in v && x != [] && x[|x| - 1] != LF
    ensures TrailingNewline(x + (v + y)) == (y != [] && y[|y| - 1] == LF)
  {
    var a := x + (v + y);
    if y != [] {
      assert a[|a| - 1] == y[|y| - 1];
    } else if v != [] {
      assert a[|a| - 1] == v[|v| - 1];
    } else {
      assert a == x;
    }
  }

  /** No line feed of the first document is inside `v`, and all the others are in both, alike. */
  lemma EndingsMap(x: seq<byte>, v: seq<byte>, r: seq<byte>, y: seq<byte>)
    requires LF !in v && LF !in r && CR !in r && r != []
    requires y != [] && y[0] == LF ==> x + v != [] && (x + v)[|x + v| - 1] != CR
    requires x != []
    ensures var (a, b) := (x + (v + y), x + (r + y));
            (SomeCrLf(a) <==> SomeCrLf(b)) && (SomeLoneLf(a) <==> SomeLoneLf(b))
  {
    var a, b := x + (v + y), x + (r + y);
    forall i | CrLfAt(a, i)
      ensures SomeCrLf(b)
    {
      CrLfMoves(x, v, r, y, i);
    }
    forall i | LoneLfAt(a, i)
      ensures SomeLoneLf(b)
    {
      LoneLfMoves(x, v, r, y, i);
    }
    if y != [] && y[0] == LF {
      assert (x + r)[|x + r| - 1] == r[|r| - 1];
    }
    forall i | CrLfAt(b, i)
      ensures SomeCrLf(a)
    {
      CrLfMoves(x, r, v, y, i);
    }
    forall i | LoneLfAt(b, i)
      ensures SomeLoneLf(a)
    {
      LoneLfMoves(x, r, v, y, i);
    }
  }

  lemma CrLfMoves(x: seq<byte>, v: seq<byte>, r: seq<byte>, y: seq<byte>, i: nat)
    requires LF !in v && x != []
    requires y != [] && y[0] == LF ==> (x + v)[|x + v| - 1] != CR
    requires CrLfAt(x + (v + y), i)
    ensures SomeCrLf(x + (r + y))
  {
    var a, b := x + (v + y), x + (r + y);
    assert forall k | |x| <= k < |x| + |v| :: a[k] == v[k - |x|];
    assert a[|x| + |v| - 1] == (x + v)[|x + v| - 1];
    if i < |x| {
      assert CrLfAt(b, i);
    } else {
      assert i >= |x| + |v|;
      assert a[|x| + |v|] == y[0];
      assert i > |x| + |v|;
      var j := i - |v| + |r|;
      assert b[j] == a[i] && b[j - 1] == a[i - 1];
      assert CrLfAt(b, j);
    }
  }

  lemma LoneLfMoves(x: seq<byte>, v: seq<byte>, r: seq<byte>, y: seq<byte>, i: nat)
    requires LF !in v && x != []
    requires y != [] && y[0] == LF ==> (x + r)[|x + r| - 1] != CR
    requires LoneLfAt(x + (v + y), i)
    ensures SomeLoneLf(x + (r + y))
  {
    var a, b := x + (v + y), x + (r + y);
    assert forall k | |x| <= k < |x| + |v| :: a[k] == v[k - |x|];
    if i < |x| {
      assert LoneLfAt(b, i);
    } else {
      assert i >= |x| + |v|;
      var j := i - |v| + |r|;
      assert b[j] == a[i];
      if i == |x| + |v| {
        assert b[j] == y[0] && b[j - 1] == (x + r)[|x + r| - 1];
      } else {
        assert b[j - 1] == a[i - 1];
      }
      assert LoneLfAt(b, j);
    }
  }

  // ---- the theorem ----------------------------------------------------------

  lemma AfterTheValue(line: string, last: bool, end: nat)
    requires 0 < end <= |Content(line)| && end < |line| && IsLine(line, last) && line[end] == '\n'
    ensures line[end - 1] != '\r'
  {
  }

  lemma BeforeTheValue(line: string, last: bool, at: nat)
    requires 0 < at <= |Content(line)| && IsLine(line, last)
    ensures line[at - 1] != '\n'
  {
  }

  lemma RestAfter(lines: seq<string>, k: nat, end: nat)
    requires AreLines(lines) && k < |lines| && 0 < end <= |Content(lines[k])|
    ensures var z := lines[k][end..] + Concat(lines[k + 1..]);
            z != [] && z[0] == '\n' ==> end < |lines[k]| && lines[k][end] == '\n' && lines[k][end - 1] != '\r'
  {
    hide Content;
    var line := lines[k];
    assert IsLine(line, k == |lines| - 1);
    if end < |line| && line[end] == '\n' {
      AfterTheValue(line, k == |lines| - 1, end);
    }
    if end == |line| {
      if k < |lines| - 1 {
        LineEndsInside(line);
      }
      assert lines[k + 1..] == [];
    }
  }

  lemma LineEndsInside(line: string)
    requires line != [] && line[|line| - 1] == '\n'
    ensures |Content(line)| < |line|
  {
  }

  /** An edit keeps the class of line endings and the trailing newline. */
  lemma EndingsOfEdit(mark: seq<byte>, lines: seq<string>, k: nat, options: Options, r: string)
    requires AreLines(lines) && k < |lines| && IsFieldLine(lines, k, options) && SafeReplacement(r)
    ensures var lines' := lines[k := Replaced(lines[k], Classify(Content(lines[k])), r)];
            && LineEndingOf(FromLines(mark, lines')) == LineEndingOf(FromLines(mark, lines))
            && TrailingNewline(FromLines(mark, lines')) == TrailingNewline(FromLines(mark, lines))
  {
    hide Encode, Concat, Content, Classify, SectionBefore, AreLines, FromLines, LineEndingOf, TrailingNewline;
    var line, kind, content := lines[k], Classify(Content(lines[k])), Content(lines[k]);
    FieldLineIs(lines, k, options);
    AssignmentParts(content);
    var at, end := kind.at, kind.at + |kind.value|;
    ContentSlice(line, at, end);
    Around(mark, lines, k, at, end, r);
    var z := line[end..] + Concat(lines[k + 1..]);
    var x := mark + Encode(Concat(lines[..k])) + Encode(line[..at]);
    EncodedEdges(line, at, end, r);
    LastOf(mark + Encode(Concat(lines[..k])), Encode(line[..at]));
    RestAfter(lines, k, end);
    assert IsLine(line, k == |lines| - 1) by {
      LineAt(lines, k);
    }
    BeforeTheValue(line, k == |lines| - 1, at);
    if z != [] {
      FirstEncoded(z, '\n');
    } else {
      EncodeNothing();
    }
    assert x + Encode(kind.value) == mark + Encode(Concat(lines[..k])) + (Encode(line[..at]) + Encode(kind.value));
    LastOf(mark + Encode(Concat(lines[..k])), Encode(line[..at]) + Encode(kind.value));
    ValueOnOneLine(line, k == |lines| - 1, at, end);
    EndingsKept(x, Encode(kind.value), Encode(r), Encode(z));
  }

  lemma LineAt(lines: seq<string>, k: nat)
    requires AreLines(lines) && k < |lines|
    ensures IsLine(lines[k], k == |lines| - 1)
  {
  }

  lemma EncodeNothing()
    ensures Encode([]) == []
  {
  }

  lemma LastOf(a: seq<byte>, b: seq<byte>)
    requires b != []
    ensures a + b != [] && (a + b)[|a + b| - 1] == b[|b| - 1]
  {
  }

  /** The bytes next to and inside the value, read as characters. */
  lemma EncodedEdges(line: string, at: nat, end: nat, r: string)
    requires 0 < at <= end <= |line| && SafeReplacement(r)
    ensures var (pre, value) := (Encode(line[..at]), Encode(line[at..end]));
            && pre != [] && (pre[|pre| - 1] == LF <==> line[at - 1] == '\n')
            && pre + value != [] && ((pre + value)[|pre + value| - 1] == CR <==> line[end - 1] == '\r')
            && Encode(r) != [] && LF !in Encode(r) && CR !in Encode(r)
            && (LF in value <==> '\n' in line[at..end])
  {
    hide Encode;
    LastEncoded(line[..at], '\n');
    EncodeSplit(line[..end], at);
    assert line[..end][..at] == line[..at] && line[..end][at..] == line[at..end];
    LastEncoded(line[..end], '\r');
    FirstEncoded(r, '\n');
    AsciiIn(r, '\n');
    AsciiIn(r, '\r');
    AsciiIn(line[at..end], '\n');
  }

  lemma ValueOnOneLine(line: string, last: bool, at: nat, end: nat)
    requires at <= end <= |Content(line)| && IsLine(line, last)
    ensures '\n' !in line[at..end]
  {
    hide Content;
    ContentOnOneLine(line, last);
    assert forall i | 0 <= i < end - at :: line[at..end][i] == line[at + i];
  }

  lemma ContentOnOneLine(line: string, last: bool)
    requires IsLine(line, last)
    ensures forall i | 0 <= i < |Content(line)| :: line[i] != '\n'
  {
  }

  /** The edit, told on lines: exactly one field line carries the path, and its value is replaced. */
  lemma EditIsLineEdit(source: seq<byte>, path: string, r: string, options: Options) returns (m: nat, k: nat)
    requires EditOutcome(source, path, r, options).Ok?
    ensures var fields := ParseOutcome(source, options).value.fields;
            var canonical := Canonical(path, options).value;
            var lines := TextLines(source);
            var ks := FieldLines(lines, |lines|, options);
            && m == IndexOf(fields, canonical) < |fields| && |Matches(fields, canonical)| == 1
            && fields[m].path == canonical && Within(fields[m].span, source)
            && EditOutcome(source, path, r, options).value
               == Splice(source, fields[m].span.start, fields[m].span.end, Encode(r))
            && SafeReplacement(r)
            && m < |ks| && k == ks[m] < |lines| && IsFieldLine(lines, k, options)
            && fields[m] == FieldAt(lines, k, BaseOffset(source), options)
  {
    hide Encode, Decode, FieldsBefore, FieldLines, Duplicates, FieldAt, IsFieldLine, Splice, Canonical, Matches, Valid,
      SectionDuplicated;
    var lines := TextLines(source);
    var fields := ParseOutcome(source, options).value.fields;
    FieldsAreLines(lines, |lines|, BaseOffset(source), options);
    UniqueMatch(fields, Canonical(path, options).value);
    m := IndexOf(fields, Canonical(path, options).value);
    k := FieldLines(lines, |lines|, options)[m];
  }

  /** What the edited document parses to. */
  ghost predicate Reparsed(source: seq<byte>, out: seq<byte>, m: nat, r: string, options: Options) {
    && ParseOutcome(source, options).Ok? && ParseOutcome(out, options).Ok?
    && var (p, q) := (ParseOutcome(source, options).value, ParseOutcome(out, options).value);
    && q.duplicates == p.duplicates
    && m < |p.fields| && Within(p.fields[m].span, source)
    && Moved(p.fields, q.fields, m, |Encode(r)| - (p.fields[m].span.end - p.fields[m].span.start))
    && HoldsTrimmed(p.fields[m].span, q.fields[m].span, r)
    && Within(q.fields[m].span, out) && Bytes(q.fields[m].span, out) == Encode(Trim(r))
  }

  lemma LineEditReparsed(source: seq<byte>, m: nat, k: nat, r: string, options: Options)
    requires DetectEncoding(source) != Unsupported
    requires var lines := TextLines(source);
             var ks := FieldLines(lines, |lines|, options);
             m < |ks| && k == ks[m] < |lines| && IsFieldLine(lines, k, options)
    requires SafeReplacement(r)
    ensures var lines := TextLines(source);
            var out := FromLines(Mark(source), lines[k := Replaced(lines[k], Classify(Content(lines[k])), r)]);
            && Reparsed(source, out, m, r, options)
            && DetectEncoding(out) == DetectEncoding(source)
  {
    hide Encode, Decode, TextLines, FieldsBefore, FieldLines, Duplicates, FieldAt, IsFieldLine, Splice, Classify,
      Content, Valid, Mark, HasBom, FromLines, SameBut, AreLines, Trim, DetectEncoding, HoldsTrimmed, SafeReplacement;
    var lines := TextLines(source);
    var ks := FieldLines(lines, |lines|, options);
    var base := BaseOffset(source);
    SourceIsLines(source);
    FieldLineIs(lines, k, options);
    ReplacedIsSame(lines, k, r, options);
    var lines' := lines[k := Replaced(lines[k], Classify(Content(lines[k])), r)];
    FirstCharacter(lines);
    LinesAreSource(source, lines');
    FieldsAreLines(lines, |lines|, base, options);
    FieldsAreLines(lines', |lines|, base, options);
    SameFieldLines(lines, lines', k, |lines|, options);
    SameDuplicates(lines, lines', k, |lines|, options);
    EditedSpan(lines, k, base, r, options);
    SpanHoldsValue(Mark(source), lines, k, options, r);
    SpanHoldsValue(Mark(source), lines', k, options, r);
    var p, q := FieldsBefore(lines, |lines|, base, options), FieldsBefore(lines', |lines|, base, options);
    var delta := |Encode(r)| - |Encode(Classify(Content(lines[k])).value)|;
    forall j | 0 <= j < |p|
      ensures q[j].path == p[j].path
      ensures j < m ==> q[j] == p[j]
      ensures j > m ==> q[j].span.start == p[j].span.start + delta && q[j].span.end == p[j].span.end + delta
    {
      FieldMoves(lines, lines', k, ks[j], base, options);
    }
  }

  /** THE REPARSE THEOREM. After a successful edit the document parses to the same paths in the same order
      with the same duplicate sections; spans before the edited one stay, later ones move by the change
      in length, the edited one holds the trimmed replacement; and encoding, line endings and trailing
      newline are those of the original. */
  lemma ReparseAfterEdit(source: seq<byte>, path: string, r: string, options: Options)
    requires EditOutcome(source, path, r, options).Ok?
    ensures var out := EditOutcome(source, path, r, options).value;
            && Reparsed(source, out, IndexOf(ParseOutcome(source, options).value.fields,
                                             Canonical(path, options).value), r, options)
            && DetectEncoding(out) == DetectEncoding(source)
            && LineEndingOf(out) == LineEndingOf(source)
            && TrailingNewline(out) == TrailingNewline(source)
  {
    var m, k := EditIsLineEdit(source, path, r, options);
    hide EditOutcome, Encode, TextLines, FieldLines, FieldAt, IsFieldLine, Splice, Classify, Content, Valid, HasBom,
      ParseOutcome, FromLines, AreLines, Reparsed, Canonical, SafeReplacement, Mark, LineEndingOf, TrailingNewline;
    EncodingOk(source, path, r, options);
    SourceIsLines(source);
    var lines := TextLines(source);
    SpanHoldsValue(Mark(source), lines, k, options, r);
    LineEditReparsed(source, m, k, r, options);
    EndingsOfEdit(Mark(source), lines, k, options, r);
  }

  lemma EncodingOk(source: seq<byte>, path: string, r: string, options: Options)
    requires EditOutcome(source, path, r, options).Ok?
    ensures DetectEncoding(source) != Unsupported
  {
  }
}
