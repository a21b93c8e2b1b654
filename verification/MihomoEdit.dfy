/** After a mixed-port edit the port is found again (`mihomo.rs`), holding exactly the replacement; it can be
    edited again just when the replacement did not start with the plus sign that number parsing admits. */
module MihomoEdit {
  import opened Wrappers
  import opened Utf8
  import opened Document
  import opened IniText
  import opened Mihomo
  import Ini
  import IniEdit

  // ---- replacements ---------------------------------------------------------

  lemma {:induction false} DigitsAre(s: string)
    requires DigitsValue(s).Some?
    ensures forall i | 0 <= i < |s| :: IsDigit(s[i])
  {
    if s != [] {
      DigitsAre(s[..|s| - 1]);
      assert forall i | 0 <= i < |s| - 1 :: s[i] == s[..|s| - 1][i];
    }
  }

  predicate StartsPlus(r: string) {
    r != [] && r[0] == '+'
  }

  /** An accepted port is one line of digits, perhaps after a plus sign. */
  lemma PortText(r: string)
    requires ParseU16(r).Some?
    ensures SafeReplacement(r) && Trimmed(r) && (IsDigit(r[0]) || StartsPlus(r)) && IsDigit(r[|r| - 1])
    ensures !StartsPlus(r) ==> forall i | 0 <= i < |r| :: IsDigit(r[i])
  {
    var digits := if r[0] == '+' then r[1..] else r;
    DigitsAre(digits);
    assert forall i | 1 <= i < |r| :: r[0] == '+' ==> r[i] == digits[i - 1];
    assert forall i | 0 <= i < |r| :: IsDigit(r[i]) || r[i] == '+';
  }

  /** The number parser admits a leading plus sign, which the digit scan then refuses. */
  lemma PlusIsAccepted()
    ensures ParseU16("+80") == Some(80) && StartsPlus("+80")
  {
    var s := "+80";
    assert s[1..] == "80" && "80"[..1] == "8" && "8"[..0] == [];
    assert DigitsValue("8") == Some(8);
  }

  // ---- one line -------------------------------------------------------------

  lemma {:induction false} CountAllDigits(r: string, z: string)
    requires forall i | 0 <= i < |r| :: IsDigit(r[i])
    requires z != [] ==> !IsDigit(z[0])
    ensures CountDigits(r + z) == |r|
  {
    if r == [] {
      assert r + z == z;
    } else {
      assert (r + z)[0] == r[0] && (r + z)[1..] == r[1..] + z;
      CountAllDigits(r[1..], z);
    }
  }

  /** Only white space or a comment follows the digits. */
  predicate Terminated(digits: nat, rest: string) {
    digits > 0 && (Trim(rest) == [] || "#" <= TrimStart(rest))
  }

  /** The text after the key of a hit line: white space, the value, white space. */
  lemma HitParts(content: string) returns (space: string, tail: string)
    requires ScanLine(content).Some?
    ensures var hit := ScanLine(content).value;
            && content == KEY + (space + (hit.trimmed + tail)) && hit.at == |KEY| + |space|
            && hit.digits == CountDigits(hit.trimmed) && hit.safe == Terminated(hit.digits, hit.trimmed[hit.digits..])
            && AllSpace(space) && AllSpace(tail) && (hit.trimmed != [] ==> !IsSpace(hit.trimmed[|hit.trimmed| - 1]))
  {
    hide IsSpace, TrimStart, TrimEnd, Trim, CountDigits;
    var hit := ScanLine(content).value;
    var after := content[|KEY|..];
    TrimStartParts(after);
    TrimEndParts(TrimStart(after));
    var leading := |after| - |TrimStart(after)|;
    space := after[..leading];
    assert after[leading..] == TrimStart(after);
    tail := TrimStart(after)[|hit.trimmed|..];
    assert content == KEY + after;
  }

  /** And a line of that form is hit accordingly. */
  lemma HitOf(space: string, value: string, tail: string)
    requires AllSpace(space) && AllSpace(tail) && Trimmed(value)
    ensures var n := CountDigits(value);
            ScanLine(KEY + (space + (value + tail))) == Some(Hit(|KEY| + |space|, n, value, Terminated(n, value[n..])))
  {
    hide IsSpace, TrimStart, TrimEnd, Trim, CountDigits;
    var content := KEY + (space + (value + tail));
    var after := content[|KEY|..];
    assert content[..|KEY|] == KEY && after == space + value + tail;
    TrimOfParts(space, value, tail);
    assert after[|space|..] == value + tail;
  }

  /** With the digits replaced by a port, the line is hit again at the same place. */
  lemma ReplacedHit(content: string, r: string)
    requires ScanLine(content).Some? && ScanLine(content).value.safe && ParseU16(r).Some?
    ensures var hit := ScanLine(content).value;
            var again := ScanLine(content[..hit.at] + r + content[hit.at + hit.digits..]);
            && again.Some? && again.value.at == hit.at && again.value.safe == !StartsPlus(r)
            && (!StartsPlus(r) ==> again.value.digits == |r|)
  {
    hide ScanLine, CountDigits, ParseU16, Terminated, AllSpace, KEY, IsSpace;
    var space, tail := HitParts(content);
    var hit := ScanLine(content).value;
    ReplacedParts(space, hit.trimmed, tail, hit.digits, r);
    PortHit(space, hit.trimmed, tail, r);
  }

  lemma PortHit(space: string, value: string, tail: string, r: string)
    requires AllSpace(space) && AllSpace(tail) && (value != [] ==> !IsSpace(value[|value| - 1])) && ParseU16(r).Some?
    requires Terminated(CountDigits(value), value[CountDigits(value)..])
    ensures r != []
    ensures var rest := value[CountDigits(value)..];
            ScanLine(KEY + (space + ((r + rest) + tail)))
            == Some(Hit(|KEY| + |space|, if StartsPlus(r) then 0 else |r|, r + rest, !StartsPlus(r)))
  {
    hide ScanLine, CountDigits, ParseU16, Terminated, AllSpace, KEY, IsSpace, SafeReplacement;
    var n := CountDigits(value);
    var rest := value[n..];
    PortText(r);
    RestEdges(value);
    EdgesTrimmed(r, rest);
    HitOf(space, r + rest, tail);
    if r[0] == '+' {
      PlusIsNoDigit(r + rest);
      NotTerminated((r + rest)[0..]);
    } else {
      CountAllDigits(r, rest);
      assert (r + rest)[|r|..] == rest;
      StillTerminated(n, |r|, rest);
    }
  }

  lemma ReplacedParts(space: string, value: string, tail: string, digits: nat, r: string)
    requires digits <= |value|
    ensures var content := KEY + (space + (value + tail));
            var at := |KEY| + |space|;
            content[..at] + r + content[at + digits..] == KEY + (space + ((r + value[digits..]) + tail))
  {
    var content := KEY + (space + (value + tail));
    var at := |KEY| + |space|;
    assert content[..at] == KEY + space;
    assert content[at + digits..] == value[digits..] + tail;
  }

  lemma RestEdges(value: string)
    requires value != [] ==> !IsSpace(value[|value| - 1])
    ensures var rest := value[CountDigits(value)..];
            rest != [] ==> !IsDigit(rest[0]) && !IsSpace(rest[|rest| - 1])
  {
    var n := CountDigits(value);
    var rest := value[n..];
    if rest != [] {
      assert rest[0] == value[n] && rest[|rest| - 1] == value[|value| - 1];
    }
  }

  lemma NotTerminated(rest: string)
    ensures !Terminated(0, rest)
  {
  }

  lemma StillTerminated(before: nat, after: nat, rest: string)
    requires Terminated(before, rest) && after > 0
    ensures Terminated(after, rest)
  {
  }

  lemma EdgesTrimmed(r: string, rest: string)
    requires Trimmed(r) && (rest != [] ==> !IsSpace(rest[|rest| - 1]))
    ensures Trimmed(r + rest)
  {
    hide IsSpace;
    var m := r + rest;
    assert m[0] == r[0];
    assert rest != [] ==> m[|m| - 1] == rest[|rest| - 1];
    assert rest == [] ==> m == r;
  }

  lemma PlusIsNoDigit(s: string)
    requires s != [] && s[0] == '+'
    ensures CountDigits(s) == 0
  {
  }

  // ---- the document ---------------------------------------------------------

  lemma {:induction false} HitsPointwise(lines: seq<string>, n: nat, base: nat)
    requires n <= |lines|
    ensures var hits := HitsBefore(lines, n);
            && |OccurrencesBefore(lines, n, base)| == |hits|
            && forall i | 0 <= i < |hits| ::
                 hits[i] < n && IsHit(lines, hits[i])
                   && OccurrencesBefore(lines, n, base)[i] == OccurrenceAt(lines, hits[i], base)
  {
    hide IsHit, OccurrenceAt;
    if n > 0 {
      HitsPointwise(lines, n - 1, base);
    }
  }

  lemma {:induction false} SameHits(lines: seq<string>, lines': seq<string>, k: nat, n: nat)
    requires |lines'| == |lines| && k < |lines| && n <= |lines| && IsHit(lines, k) && IsHit(lines', k)
    requires forall j | 0 <= j < |lines| && j != k :: lines'[j] == lines[j]
    ensures HitsBefore(lines', n) == HitsBefore(lines, n)
  {
    hide ScanLine, Content;
    if n > 0 {
      SameHits(lines, lines', k, n - 1);
    }
  }

  lemma {:induction false} SameOffsets(lines: seq<string>, lines': seq<string>, k: nat, n: nat, base: nat)
    requires |lines'| == |lines| && k < |lines| && n <= k
    requires forall j | 0 <= j < |lines| && j != k :: lines'[j] == lines[j]
    ensures Ini.Offset(lines', n, base) == Ini.Offset(lines, n, base)
  {
    if n > 0 {
      SameOffsets(lines, lines', k, n - 1, base);
    }
  }

  /** The line with its port replaced. */
  function ReplacedLine(line: string, hit: Hit, r: string): string
    requires hit.at + hit.digits <= |line|
  {
    line[..hit.at] + r + line[hit.at + hit.digits..]
  }

  lemma HitOfReplaced(line: string, last: bool, r: string)
    requires IsLine(line, last) && ScanLine(Content(line)).Some? && ScanLine(Content(line)).value.safe
             && ParseU16(r).Some?
    ensures var hit := ScanLine(Content(line)).value;
            && hit.at + hit.digits <= |line| && |Content(line)| <= |line|
            && var t := ReplacedLine(line, hit, r);
            && IsLine(t, last) && t[..hit.at] == line[..hit.at] && t[0] == line[0]
            && var again := ScanLine(Content(t));
            && again.Some? && again.value.at == hit.at && again.value.safe == !StartsPlus(r)
            && (!StartsPlus(r) ==> again.value.digits == |r|)
            && line[hit.at..hit.at + hit.digits] == Content(line)[hit.at..hit.at + hit.digits]
  {
    hide ScanLine, Content, IsLine, ParseU16, SafeReplacement;
    var content := Content(line);
    var hit := ScanLine(content).value;
    PortText(r);
    ReplacedHit(content, r);
    ReplacedIsLine(line, last, hit.at, hit.at + hit.digits, r);
    ReplacedStripped(line, hit.at, hit.at + hit.digits, r);
    IniEdit.ContentSlice(line, hit.at, hit.at + hit.digits);
  }

  lemma DigitBytes(content: string)
    requires ScanLine(content).Some?
    ensures var hit := ScanLine(content).value;
            && hit.at + hit.digits <= |content| && |Encode(content[hit.at..hit.at + hit.digits])| == hit.digits
  {
    hide ScanLine, KEY, CountDigits, IsSpace;
    var hit := ScanLine(content).value;
    var space, tail := HitParts(content);
    ValuePart(space, hit.trimmed, tail, hit.digits);
    DigitsAscii(hit.trimmed);
  }

  lemma ValuePart(space: string, value: string, tail: string, n: nat)
    requires n <= |value|
    ensures var content := KEY + (space + (value + tail));
            var at := |KEY| + |space|;
            at + n <= |content| && content[at..at + n] == value[..n]
  {
    hide KEY;
    var content := KEY + (space + (value + tail));
    assert content[|KEY|..][|space|..][..n] == value[..n];
  }

  lemma DigitsAscii(s: string)
    ensures |Encode(s[..CountDigits(s)])| == CountDigits(s)
  {
    hide Encode;
    assert forall i | 0 <= i < CountDigits(s) :: IsDigit(s[..CountDigits(s)][i]);
    AsciiBytes(s[..CountDigits(s)]);
  }

  /** A hit's value span holds its digits, and splicing there replaces them in their line. */
  lemma SpliceIsReplaced(mark: seq<byte>, lines: seq<string>, k: nat, r: string)
    requires k < |lines| && IsHit(lines, k) && ScanLine(Content(lines[k])).value.safe
             && |Content(lines[k])| <= |lines[k]|
    ensures var hit := ScanLine(Content(lines[k])).value;
            var span := OccurrenceAt(lines, k, |mark|).valueSpan.value;
            var source := IniEdit.FromLines(mark, lines);
            && hit.at + hit.digits <= |lines[k]| && span.end <= |source|
            && source[span.start..span.end] == Encode(lines[k][hit.at..hit.at + hit.digits])
            && Splice(source, span.start, span.end, Encode(r))
               == IniEdit.FromLines(mark, lines[k := ReplacedLine(lines[k], hit, r)])
  {
    hide ScanLine, Content, Encode, Concat;
    var line, hit := lines[k], ScanLine(Content(lines[k])).value;
    DigitBytes(Content(line));
    var end := hit.at + hit.digits;
    IniEdit.ContentSlice(line, hit.at, end);
    IniEdit.OffsetIsLength(lines, k, |mark|);
    IniEdit.Around(mark, lines, k, hit.at, end, r);
    var x := mark + Encode(Concat(lines[..k])) + Encode(line[..hit.at]);
    var y := Encode(line[end..] + Concat(lines[k + 1..]));
    SpliceMiddle(x, Encode(line[hit.at..end]), y, Encode(r));
    IniEdit.Held(x, Encode(line[hit.at..end]), y);
  }

  lemma AcceptedPort(source: seq<byte>, r: string, load: Loader, readers: YamlEvents.Readers)
    requires EditOutcome(source, PATH, r, load, readers).Ok?
    ensures DetectEncoding(source) != Unsupported && ParseU16(r).Some? && ParseU16(r).value > 0
    ensures |Scan(source)| == 1 && Scan(source)[0].valueSpan.Some?
    ensures var span := Scan(source)[0].valueSpan.value;
            && Ini.Within(span, source)
            && EditOutcome(source, PATH, r, load, readers) == Ok(Splice(source, span.start, span.end, Encode(r)))
  {
    hide Scan, ParseU16, YamlEvents.Inspect, Valid, Encode, Decode, HasBom, DocumentStarts, Splice;
  }

  /** And with a port to write and one recognised value, nothing else can refuse it. */
  lemma PortAccepted(source: seq<byte>, r: string, load: Loader, readers: YamlEvents.Readers)
    requires ParseU16(r).Some? && ParseU16(r).value > 0
    requires var ports := ParseYamlRoot(source, load, readers); ports.Ok? && |ports.value| <= 1
    requires |Scan(source)| == 1 && Scan(source)[0].valueSpan.Some?
    requires Ini.Within(Scan(source)[0].valueSpan.value, source)
    ensures var span := Scan(source)[0].valueSpan.value;
            EditOutcome(source, PATH, r, load, readers) == Ok(Splice(source, span.start, span.end, Encode(r)))
  {
    hide Scan, ParseU16, ParseYamlRoot, Encode, Splice, Ini.Within;
  }

  // ---- what the root says ---------------------------------------------------

  /** The document's root is the mapping of `pairs`. */
  ghost predicate IsRoot(source: seq<byte>, load: Loader, pairs: seq<YamlEvents.Pair>) {
    && DetectEncoding(source) != Unsupported
    && var events := load(Decode(Body(source)).value);
    && events.Some?
    && var starts := DocumentStarts(events.value, |events.value|);
    && |starts| == 1
    && YamlEvents.At(events.value, starts[0] + 1, YamlEvents.Flatten(YamlEvents.MappingNode(pairs)))
  }

  lemma {:induction false} PortsAreKeys(pairs: seq<YamlEvents.Pair>, readers: YamlEvents.Readers)
    ensures YamlEvents.MixedPorts(pairs, readers) != []
            <==> exists i :: 0 <= i < |pairs| && YamlEvents.IsPortKey(pairs[i])
  {
    hide YamlEvents.IsPortKey, YamlEvents.PortOf;
    if pairs != [] {
      PortsAreKeys(pairs[1..], readers);
      if i :| 0 <= i < |pairs| && YamlEvents.IsPortKey(pairs[i]) {
        assert i > 0 ==> pairs[1..][i - 1] == pairs[i];
      }
    }
  }

  /** WHAT IS PATCHED. An accepted edit's root mapping has at most one `mixed-port`. It has one at all exactly when
      one is counted, which the code does not ask: it refuses only two. */
  lemma PatchedRoot(source: seq<byte>, r: string, load: Loader, readers: YamlEvents.Readers)
    requires EditOutcome(source, PATH, r, load, readers).Ok?
    ensures exists pairs :: IsRoot(source, load, pairs)
    ensures var ports := ParseYamlRoot(source, load, readers);
            && ports.Ok? && |ports.value| <= 1
            && forall pairs | IsRoot(source, load, pairs) ::
                 |ports.value| == 1 <==> exists i :: 0 <= i < |pairs| && YamlEvents.IsPortKey(pairs[i])
  {
    RootIsMapping(source, r, load, readers);
    hide EditOutcome, ParseYamlRoot, IsRoot, YamlEvents.IsPortKey;
    forall pairs | IsRoot(source, load, pairs)
      ensures ParseYamlRoot(source, load, readers).value != []
              <==> exists i :: 0 <= i < |pairs| && YamlEvents.IsPortKey(pairs[i])
    {
      PortsAreKeys(pairs, readers);
    }
  }

  lemma RootIsMapping(source: seq<byte>, r: string, load: Loader, readers: YamlEvents.Readers)
    requires EditOutcome(source, PATH, r, load, readers).Ok?
    ensures exists pairs :: IsRoot(source, load, pairs)
    ensures var ports := ParseYamlRoot(source, load, readers);
            && ports.Ok? && |ports.value| <= 1
            && forall pairs | IsRoot(source, load, pairs) :: ports.value == YamlEvents.MixedPorts(pairs, readers)
  {
    hide Scan, ParseU16, Splice, Encode, Decode, Valid, HasBom, DocumentStarts, YamlEvents.Inspect, YamlEvents.At,
      YamlEvents.Flatten, YamlEvents.MixedPorts;
    Ini.DecodeBody(source);
    var events := load(Decode(Body(source)).value).value;
    var root := DocumentStarts(events, |events|)[0] + 1;
    YamlEvents.RootMixedPorts(events, root, readers);
    var pairs :| YamlEvents.At(events, root, YamlEvents.Flatten(YamlEvents.MappingNode(pairs)));
    assert IsRoot(source, load, pairs);
  }

  /** THE RE-EDIT THEOREM. After a successful edit the scan finds exactly one port again, at the same place. Its
      digits can be edited again just when the replacement does not start with a plus sign, and then they are the
      replacement. */
  lemma PortFoundAgain(source: seq<byte>, r: string, load: Loader, readers: YamlEvents.Readers)
    requires EditOutcome(source, PATH, r, load, readers).Ok?
    ensures var out := EditOutcome(source, PATH, r, load, readers).value;
            var (before, after) := (Scan(source), Scan(out));
            && DetectEncoding(out) == DetectEncoding(source)
            && |before| == 1 && |after| == 1 && before[0].valueSpan.Some?
            && after[0].fullSpan.start == before[0].valueSpan.value.start
            && (after[0].valueSpan.Some? <==> !StartsPlus(r))
            && (!StartsPlus(r) ==>
                  && after[0].valueSpan.value == Span(before[0].valueSpan.value.start,
                                                      before[0].valueSpan.value.start + |Encode(r)|)
                  && Ini.Within(after[0].valueSpan.value, out) && Ini.Bytes(after[0].valueSpan.value, out) == Encode(r))
  {
    AcceptedPort(source, r, load, readers);
    var k := OnePort(source);
    hide EditOutcome, Scan, Encode, ScanLine, Content, ParseU16, DetectEncoding, Splice, ReplacedLine,
      IniEdit.FromLines, Ini.TextLines, IsHit, OccurrenceAt, AreLines;
    PortReplaced(source, k, r);
  }

  /** The one occurrence is that of the one hit line. */
  lemma OnePort(source: seq<byte>) returns (k: nat)
    requires DetectEncoding(source) != Unsupported && |Scan(source)| == 1
    ensures var lines := Ini.TextLines(source);
            && k < |lines| && IsHit(lines, k) && HitsBefore(lines, |lines|) == [k]
            && Scan(source) == [OccurrenceAt(lines, k, BaseOffset(source))]
  {
    hide Ini.TextLines, IsHit, OccurrenceAt, HitsBefore, OccurrencesBefore, DetectEncoding;
    var lines := Ini.TextLines(source);
    HitsPointwise(lines, |lines|, BaseOffset(source));
    k := HitsBefore(lines, |lines|)[0];
  }

  /** The document with the port of its hit line replaced. */
  lemma PortReplaced(source: seq<byte>, k: nat, r: string)
    requires DetectEncoding(source) != Unsupported && ParseU16(r).Some?
    requires var lines := Ini.TextLines(source);
             && k < |lines| && IsHit(lines, k) && HitsBefore(lines, |lines|) == [k]
             && OccurrenceAt(lines, k, BaseOffset(source)).valueSpan.Some?
    ensures r != []
    ensures var before := OccurrenceAt(Ini.TextLines(source), k, BaseOffset(source));
            var span := before.valueSpan.value;
            && Ini.Within(span, source)
            && var out := Splice(source, span.start, span.end, Encode(r));
            && DetectEncoding(out) == DetectEncoding(source)
            && |Scan(out)| == 1
            && var after := Scan(out)[0];
            && after.fullSpan.start == span.start
            && (after.valueSpan.Some? <==> !StartsPlus(r))
            && (!StartsPlus(r) ==>
                  && after.valueSpan.value == Span(span.start, span.start + |Encode(r)|)
                  && Ini.Within(after.valueSpan.value, out) && Ini.Bytes(after.valueSpan.value, out) == Encode(r))
  {
    hide Encode, ScanLine, Content, IsLine, ParseU16, Lines, Decode, Valid, HasBom, IniEdit.FromLines, AreLines,
      Ini.TextLines, Splice, HitsBefore, OccurrencesBefore, ReplacedLine, IniEdit.Mark, Scan;
    var mark, lines := IniEdit.Mark(source), Ini.TextLines(source);
    IniEdit.SourceIsLines(source);
    IniEdit.LineAt(lines, k);
    var line, hit := lines[k], ScanLine(Content(lines[k])).value;
    HitOfReplaced(line, k == |lines| - 1, r);
    SpliceIsReplaced(mark, lines, k, r);
    var lines' := lines[k := ReplacedLine(line, hit, r)];
    ReplacedScan(source, lines, k, lines');
    PortBytes(r);
    SplicedBytes(source, OccurrenceAt(lines, k, BaseOffset(source)).valueSpan.value, Encode(r));
  }

  /** Changing one hit line into another keeps it the only hit. */
  lemma ReplacedScan(source: seq<byte>, lines: seq<string>, k: nat, lines': seq<string>)
    requires |lines'| == |lines| && k < |lines|
    requires DetectEncoding(source) != Unsupported && lines == Ini.TextLines(source) && AreLines(lines)
    requires lines' == lines[k := lines'[k]] && IsLine(lines'[k], k == |lines| - 1) && lines[k] != [] && lines'[k] != []
    requires lines'[k][0] == lines[k][0] && IsHit(lines, k) && IsHit(lines', k) && HitsBefore(lines, |lines|) == [k]
    requires ScanLine(Content(lines'[k])).value.at == ScanLine(Content(lines[k])).value.at
    requires var at := ScanLine(Content(lines[k])).value.at;
             at <= |lines[k]| && at <= |lines'[k]| && lines'[k][..at] == lines[k][..at]
    ensures var out := IniEdit.FromLines(IniEdit.Mark(source), lines');
            var base := BaseOffset(source);
            && DetectEncoding(out) == DetectEncoding(source) && Scan(out) == [OccurrenceAt(lines', k, base)]
            && OccurrenceAt(lines', k, base).fullSpan.start == OccurrenceAt(lines, k, base).fullSpan.start
  {
    hide Encode, ScanLine, Content, IsLine, Lines, Decode, Valid, HasBom, IniEdit.FromLines, AreLines, Ini.TextLines,
      HitsBefore, OccurrencesBefore, IniEdit.Mark;
    var base := BaseOffset(source);
    LinesStayLines(lines, k, lines'[k]);
    IniEdit.FirstCharacter(lines);
    IniEdit.FirstCharacter(lines');
    IniEdit.LinesAreSource(source, lines');
    HitsPointwise(lines', |lines|, base);
    SameHits(lines, lines', k, |lines|);
    SameOffsets(lines, lines', k, k, base);
  }

  lemma PortBytes(r: string)
    requires ParseU16(r).Some?
    ensures |Encode(r)| == |r| && r != []
  {
    PortText(r);
    if r[0] == '+' {
      DigitsAre(r[1..]);
      assert forall i | 1 <= i < |r| :: r[i] == r[1..][i - 1];
    }
    assert forall i | 0 <= i < |r| :: IsDigit(r[i]) || r[i] == '+';
    AsciiBytes(r);
  }

  lemma LinesStayLines(lines: seq<string>, k: nat, line: string)
    requires AreLines(lines) && k < |lines| && IsLine(line, k == |lines| - 1)
    ensures AreLines(lines[k := line])
  {
    hide IsLine;
  }

  lemma SplicedBytes(s: seq<byte>, span: Span, r: seq<byte>)
    requires Ini.Within(span, s)
    ensures Splice(s, span.start, span.end, r)[span.start..span.start + |r|] == r
  {
  }

  /** A second port over a first one of digits gives what the second alone would have given, as long as the
      document still passes the YAML gate with at most one root `mixed-port`. */
  lemma LaterPortOverrides(source: seq<byte>, first: string, second: string, load: Loader, readers: YamlEvents.Readers)
    requires EditOutcome(source, PATH, first, load, readers).Ok? && !StartsPlus(first)
    requires EditOutcome(source, PATH, second, load, readers).Ok?
    requires var ports := ParseYamlRoot(EditOutcome(source, PATH, first, load, readers).value, load, readers);
             ports.Ok? && |ports.value| <= 1
    ensures var once := EditOutcome(source, PATH, first, load, readers).value;
            EditOutcome(once, PATH, second, load, readers) == EditOutcome(source, PATH, second, load, readers)
  {
    hide Scan, ParseYamlRoot, Encode, DetectEncoding, ParseU16, Splice, EditOutcome, StartsPlus;
    AcceptedPort(source, first, load, readers);
    AcceptedPort(source, second, load, readers);
    PortFoundAgain(source, first, load, readers);
    var once := EditOutcome(source, PATH, first, load, readers).value;
    var span := Scan(source)[0].valueSpan.value;
    PortAccepted(once, second, load, readers);
    SpliceOver(source, span.start, span.end, Encode(first), Encode(second));
  }
}
