/** Concrete inputs on which the code does something other than it says of itself; the exact conditions are
    in `EditorText`, `MihomoEdit` and `IniEdits`. */
module Witnesses {
  import opened Wrappers
  import opened Utf8
  import opened Document
  import opened IniText
  import EditorText
  import Ini
  import IniEdit
  import Mihomo
  import MihomoEdit
  import MihomoPlaces
  import Path
  import YamlEvents

  // ---- the second byte-order mark -------------------------------------------

  /** A valid, unmixed document of two marks is shown empty and written back with one. */
  lemma SecondMarkIsLost()
    ensures var bytes := BOM + BOM;
            && DetectEncoding(bytes) == Utf8Bom && LineEndingOf(bytes) != Mixed
            && EditorText.EditorTextOf(bytes).Some?
            && EditorText.EncodeFromEditor(EditorText.EditorTextOf(bytes).value, EditorText.Info(bytes), Some(bytes))
               != Some(bytes)
  {
    var bytes := BOM + BOM;
    assert bytes[3..] == BOM && Body(bytes) == BOM;
    assert BOM[3..] == [] && Valid([]);
    MarkIsValid();
    NoFeedInMarks();
    EditorText.BytesRoundTrip(bytes);
  }

  lemma MarkIsValid()
    ensures Valid(BOM)
  {
    EncodeMark();
    var s := ['\U{FEFF}'];
    assert s[1..] == [] && Encode(s) == EncodeChar('\U{FEFF}') + Encode([]);
    assert BOM + [] == BOM;
    DecodeOfEncode(s);
  }

  lemma NoFeedInMarks()
    ensures LineEndingOf(BOM + BOM) == NoEnding
  {
    var b := BOM + BOM;
    assert b == [0xEF, 0xBB, 0xBF, 0xEF, 0xBB, 0xBF];
  }

  // ---- small documents ------------------------------------------------------

  predicate IsAscii(s: string) {
    forall i | 0 <= i < |s| :: (s[i] as int) < 0x80
  }

  /** An ASCII text in bytes is a document whose lines are those of the text. */
  lemma AsciiDocument(lines: seq<string>)
    requires AreLines(lines) && IsAscii(Concat(lines)) && lines != []
    ensures var source := Encode(Concat(lines));
            && DetectEncoding(source) == SourceEncoding.Utf8 && BaseOffset(source) == 0 && Body(source) == source
            && Decode(source) == Some(Concat(lines)) && Ini.TextLines(source) == lines
  {
    hide Encode, Decode, HasBom, AreLines, Concat, Lines;
    var text := Concat(lines);
    var source := Encode(text);
    DecodeOfEncode(text);
    MarkIsFirst(text);
    LinesUnique(lines);
    assert source[0..] == source;
  }

  // ---- YAML readings --------------------------------------------------------

  lemma {:induction false} OneStart(events: seq<YamlEvents.Event>, n: nat)
    requires 1 < n <= |events| && events[0] == YamlEvents.Marker && events[1] == YamlEvents.DocumentStart
    requires forall i | 2 <= i < n :: events[i] != YamlEvents.DocumentStart
    ensures Mihomo.DocumentStarts(events, n) == [1]
  {
    if n > 2 {
      OneStart(events, n - 1);
    } else {
      assert Mihomo.DocumentStarts(events, 0) == [] && Mihomo.DocumentStarts(events, 1) == [];
    }
  }

  /** A document of one mapping, whatever the text. */
  lemma RootOf(source: seq<byte>, events: seq<YamlEvents.Event>, readers: YamlEvents.Readers,
      ports: seq<YamlEvents.MixedPortValue>)
    requires DetectEncoding(source) == SourceEncoding.Utf8
    requires |events| > 2 && events[0] == YamlEvents.Marker && events[1] == YamlEvents.DocumentStart
             && events[2] == YamlEvents.MappingStart
    requires forall i | 2 <= i < |events| :: events[i] != YamlEvents.DocumentStart
    requires YamlEvents.Inspect(events, 3, readers) == Ok(ports)
    ensures Mihomo.ParseYamlRoot(source, Always(events), readers) == Ok(ports)
  {
    hide YamlEvents.Inspect, Decode, Valid, HasBom, Mihomo.DocumentStarts;
    OneStart(events, |events|);
  }

  /** A reading that gives these events. */
  function Always(events: seq<YamlEvents.Event>): Mihomo.Loader {
    text => Some(events)
  }

  /** One pair of scalars before the end of the mapping. */
  lemma ScalarPair(events: seq<YamlEvents.Event>, cursor: nat, readers: YamlEvents.Readers)
    requires cursor + 2 < |events| && events[cursor].Scalar? && events[cursor + 1].Scalar?
    requires events[cursor + 2] == YamlEvents.MappingEnd
    ensures YamlEvents.SkipPairs(events, cursor) == Ok(cursor + 3)
    ensures YamlEvents.Inspect(events, cursor, readers)
            == Ok(if YamlEvents.IsMixedPortKey(events[cursor]) then [YamlEvents.Classify(events[cursor + 1], readers)]
                  else [])
  {
    hide YamlEvents.Classify, YamlEvents.IsMixedPortKey;
    assert YamlEvents.Skip(events, cursor) == Ok(cursor + 1);
    assert YamlEvents.Skip(events, cursor + 1) == Ok(cursor + 2);
    assert YamlEvents.SkipPairs(events, cursor + 2) == Ok(cursor + 3);
    var none: seq<YamlEvents.MixedPortValue> := [];
    assert YamlEvents.Inspect(events, cursor + 2, readers) == Ok(none);
    NothingMore(if YamlEvents.IsMixedPortKey(events[cursor]) then [YamlEvents.Classify(events[cursor + 1], readers)]
                else none);
  }

  lemma NothingMore<T>(s: seq<T>)
    ensures s + [] == s && [] + s == s
  {
  }

  // ---- the plus sign --------------------------------------------------------

  const ONE_PORT: seq<string> := ["mixed-port: 80"]

  /** A YAML reading of that line. */
  const ONE_PORT_EVENTS: seq<YamlEvents.Event> := [
    YamlEvents.Marker, YamlEvents.DocumentStart, YamlEvents.MappingStart, YamlEvents.Scalar("mixed-port", true, None),
    YamlEvents.Scalar("80", true, None), YamlEvents.MappingEnd, YamlEvents.Marker, YamlEvents.Marker]

  /** Content without a terminator is the whole line. */
  lemma NoTerminator(line: string)
    requires line != [] && line[|line| - 1] != '\n' && line[|line| - 1] != '\r'
    ensures Content(line) == line
  {
  }

  lemma ConcatOne(line: string)
    ensures Concat([line]) == line
  {
    assert [line][1..] == [] && line + [] == line;
  }

  lemma CountEighty()
    ensures Mihomo.CountDigits("80") == 2 && "80"[2..] == []
  {
    assert "80"[1..] == "0" && "0"[1..] == [];
    assert Mihomo.CountDigits("0") == 1;
  }

  /** The value 80 after the key and some white space is hit. */
  lemma EightyIsHit(space: string)
    requires AllSpace(space)
    ensures Mihomo.ScanLine(Mihomo.KEY + (space + ("80" + [])))
            == Some(Mihomo.Hit(|Mihomo.KEY| + |space|, 2, "80", true))
  {
    hide Mihomo.ScanLine, Mihomo.KEY, TrimStart, TrimEnd;
    CountEighty();
    TrimAllSpace([]);
    assert Trimmed("80");
    MihomoEdit.HitOf(space, "80", []);
  }

  /** A scan of one line that is hit. */
  lemma OneHit(line: string, hit: Mihomo.Hit)
    requires IsLine(line, true) && IsAscii(line) && Mihomo.ScanLine(Content(line)) == Some(hit) && hit.safe
             && hit.at <= |line|
    ensures var source := Encode(Concat([line]));
            && DetectEncoding(source) == SourceEncoding.Utf8 && |source| == |line|
            && Mihomo.Scan(source) == [Mihomo.Occurrence(Some(Span(hit.at, hit.at + hit.digits)),
                                                         Span(hit.at, hit.at + |Encode(hit.trimmed)|))]
  {
    hide Encode, Content, Mihomo.ScanLine;
    var lines := [line];
    ConcatOne(line);
    AsciiDocument(lines);
    Mihomo.AsciiBytes(line);
    Mihomo.AsciiBytes(line[..hit.at]);
    assert Mihomo.OccurrencesBefore(lines, 1, 0)
      == Mihomo.OccurrencesBefore(lines, 0, 0) + Mihomo.OccurrencesOfLine(lines, 0, 0);
  }

  lemma OnePortIsScanned()
    ensures var source := Encode(Concat(ONE_PORT));
            && DetectEncoding(source) == SourceEncoding.Utf8 && |source| == 14
            && |Mihomo.Scan(source)| == 1 && Mihomo.Scan(source)[0].valueSpan == Some(Span(12, 14))
  {
    hide Encode, Mihomo.ScanLine, Content;
    var line := ONE_PORT[0];
    assert AllSpace(" ");
    EightyIsHit(" ");
    OnePortText();
    NoTerminator(line);
    OneHit(line, Mihomo.Hit(12, 2, "80", true));
  }

  lemma OnePortText()
    ensures ONE_PORT == [ONE_PORT[0]] && |ONE_PORT[0]| == 14 && IsLine(ONE_PORT[0], true) && IsAscii(ONE_PORT[0])
    ensures ONE_PORT[0] == Mihomo.KEY + (" " + ("80" + [])) && |Mihomo.KEY| == 11
  {
  }

  /** The edit to "+80" is accepted, and afterwards the port is no longer recognised as a value. */
  lemma PlusLosesThePort(readers: YamlEvents.Readers)
    ensures var source := Encode(Concat(ONE_PORT));
            var r := Mihomo.EditOutcome(source, Mihomo.PATH, "+80", Always(ONE_PORT_EVENTS), readers);
            && r.Ok? && |Mihomo.Scan(r.value)| == 1 && Mihomo.Scan(r.value)[0].valueSpan.None?
  {
    hide Encode, Mihomo.Scan, Mihomo.ParseYamlRoot, Mihomo.ParseU16, Mihomo.EditOutcome, Concat, ONE_PORT,
      ONE_PORT_EVENTS;
    var source := Encode(Concat(ONE_PORT));
    OnePortIsScanned();
    OnePortRoot(source, readers);
    MihomoEdit.PlusIsAccepted();
    MihomoEdit.PortAccepted(source, "+80", Always(ONE_PORT_EVENTS), readers);
    MihomoEdit.PortFoundAgain(source, "+80", Always(ONE_PORT_EVENTS), readers);
  }

  lemma OnePortRoot(source: seq<byte>, readers: YamlEvents.Readers)
    requires DetectEncoding(source) == SourceEncoding.Utf8
    ensures var r := Mihomo.ParseYamlRoot(source, Always(ONE_PORT_EVENTS), readers);
            r.Ok? && |r.value| == 1
  {
    hide DetectEncoding, Mihomo.ParseYamlRoot, YamlEvents.Classify, YamlEvents.Inspect, YamlEvents.Skip;
    ScalarPair(ONE_PORT_EVENTS, 3, readers);
    RootOf(source, ONE_PORT_EVENTS, readers, YamlEvents.Inspect(ONE_PORT_EVENTS, 3, readers).value);
  }

  /** Where its scalars stand; the other events stand nowhere. */
  const ONE_PORT_PLACES: seq<Span> := [
    Span(0, 0), Span(0, 0), Span(0, 0), Span(0, 10), Span(12, 14), Span(0, 0), Span(0, 0), Span(0, 0)]

  lemma OnePortIsPlaced()
    ensures MihomoPlaces.Placed(ONE_PORT[0], ONE_PORT_EVENTS, ONE_PORT_PLACES)
    ensures MihomoPlaces.OccursOnce(ONE_PORT[0])
  {
    OnePortApart();
    OnePortWords();
    OnePortStands();
    OnePortMarks();
    OnePortLines(ONE_PORT[0]);
    OnePortDigits(ONE_PORT[0]);
    hide MihomoPlaces.Apart, MihomoPlaces.WordsStand, MihomoPlaces.LinesBelong, MihomoPlaces.DigitsBelong,
      MihomoPlaces.OccursOnce, MihomoPlaces.MarksStand;
  }

  lemma OnePortApart()
    ensures MihomoPlaces.Apart(ONE_PORT[0], ONE_PORT_EVENTS, ONE_PORT_PLACES)
    ensures var text := ONE_PORT[0];
            |text| == 14 && text[0..10] == "mixed-port" && text[11] == ' ' && text[12] == '8'
            && forall i | 0 <= i < 14 :: text[i] != '\n'
  {
  }

  lemma OnePortStands()
    requires MihomoPlaces.Apart(ONE_PORT[0], ONE_PORT_EVENTS, ONE_PORT_PLACES) && ONE_PORT[0][0..10] == "mixed-port"
    ensures MihomoPlaces.WordsStand(ONE_PORT[0], ONE_PORT_EVENTS, ONE_PORT_PLACES)
  {
    OnePortWords();
    hide MihomoPlaces.IsWord, MihomoPlaces.Apart, ONE_PORT;
  }

  lemma OnePortMarks()
    requires MihomoPlaces.Apart(ONE_PORT[0], ONE_PORT_EVENTS, ONE_PORT_PLACES)
    ensures MihomoPlaces.MarksStand(ONE_PORT[0], ONE_PORT_EVENTS, ONE_PORT_PLACES)
  {
    hide MihomoPlaces.Apart, ONE_PORT;
  }

  lemma OnePortLines(text: string)
    requires |text| == 14 && forall i | 0 <= i < 14 :: text[i] != '\n'
    ensures MihomoPlaces.LinesBelong(text, ONE_PORT_EVENTS, ONE_PORT_PLACES)
  {
    assert MihomoPlaces.Covers(ONE_PORT_EVENTS, ONE_PORT_PLACES, 3, 0);
    hide ONE_PORT_EVENTS, ONE_PORT_PLACES, MihomoPlaces.Covers;
  }

  lemma OnePortDigits(text: string)
    requires |text| == 14 && text[11] == ' ' && text[12] == '8'
    ensures MihomoPlaces.DigitsBelong(text, ONE_PORT_EVENTS, ONE_PORT_PLACES)
  {
    OnePortWords();
    hide MihomoPlaces.IsWord, MihomoPlaces.Closed, AllSpace;
    forall i, q: nat, r: nat, t: nat | 0 <= i < 8 && MihomoPlaces.IsWord(ONE_PORT_EVENTS[i])
        && MihomoPlaces.DigitsFollow(text, ONE_PORT_PLACES[i].end, q, r, t)
      ensures i == 3 && q == 12 && r <= 14
    {
      OneBlank(text, ONE_PORT_PLACES[i].end, q, r, t);
    }
  }

  lemma OnePortWords()
    ensures forall i | 0 <= i < 8 :: MihomoPlaces.IsWord(ONE_PORT_EVENTS[i]) <==> i == 3
    ensures MihomoPlaces.OccursOnce(ONE_PORT[0])
  {
    var text := ONE_PORT[0];
    assert forall i | 1 <= i < 14 :: text[i] != 'm';
    forall p | 0 <= p <= |text| - |MihomoPlaces.WORD| && MihomoPlaces.WORD <= text[p..]
      ensures p == 0
    {
      assert text[p] == text[p..][0] == MihomoPlaces.WORD[0] == 'm';
    }
  }

  /** Behind a colon and one blank the digits start at once. */
  lemma OneBlank(text: string, e: nat, q: nat, r: nat, t: nat)
    requires MihomoPlaces.DigitsFollow(text, e, q, r, t) && e + 2 < |text| && text[e + 1] == ' '
    ensures q > e + 1 && (!IsSpace(text[e + 2]) ==> q == e + 2 && Mihomo.IsDigit(text[e + 2]))
  {
    if q > e + 2 {
      assert text[e + 1..q][1] == text[e + 2];
    }
  }

  /** So the edit of this document is one of the root's port. */
  lemma OnePortIsRoots(readers: YamlEvents.Readers)
    ensures var source := Encode(Concat(ONE_PORT));
            && Mihomo.EditOutcome(source, Mihomo.PATH, "90", Always(ONE_PORT_EVENTS), readers).Ok?
            && exists k: nat ::
                 && MihomoPlaces.IsRootPort(ONE_PORT_EVENTS, k)
                 && MihomoPlaces.InValue(ONE_PORT_EVENTS, ONE_PORT_PLACES, k, MihomoPlaces.SpotOf(source))
  {
    hide Encode, Mihomo.Scan, Mihomo.ParseYamlRoot, Mihomo.ParseU16, Mihomo.EditOutcome, Concat, ONE_PORT,
      ONE_PORT_EVENTS, ONE_PORT_PLACES, MihomoPlaces.IsRootPort, MihomoPlaces.InValue, MihomoPlaces.SpotOf,
      MihomoPlaces.Placed, MihomoPlaces.OccursOnce;
    var source := Encode(Concat(ONE_PORT));
    OnePortIsScanned();
    OnePortRoot(source, readers);
    NinetyIsPort();
    MihomoEdit.PortAccepted(source, "90", Always(ONE_PORT_EVENTS), readers);
    OnePortIsPlaced();
    OnePortIsPlain();
    OnePortReading(source);
    MihomoPlaces.OnceIsRoot(source, "90", Always(ONE_PORT_EVENTS), readers, ONE_PORT_PLACES);
  }

  lemma OnePortReading(source: seq<byte>)
    requires source == Encode(Concat(ONE_PORT))
    ensures MihomoPlaces.TextOf(source) == ONE_PORT[0]
    ensures MihomoPlaces.EventsOf(source, Always(ONE_PORT_EVENTS)) == ONE_PORT_EVENTS
  {
    OnePortText();
    var line := ONE_PORT[0];
    hide Encode, Decode, HasBom, ONE_PORT, ONE_PORT_EVENTS, Concat, Valid, DetectEncoding, Ini.TextLines, Body,
      MihomoPlaces.TextOf, MihomoPlaces.EventsOf, Always, IsLine, IsAscii;
    ConcatOne(line);
    OneLine(line);
    AsciiDocument([line]);
    ReadingIs(source, line, ONE_PORT_EVENTS);
  }

  lemma OneLine(line: string)
    requires IsLine(line, true)
    ensures AreLines([line])
  {
  }

  lemma ReadingIs(source: seq<byte>, text: string, events: seq<YamlEvents.Event>)
    requires DetectEncoding(source) == SourceEncoding.Utf8 && Decode(Body(source)) == Some(text)
    ensures MihomoPlaces.TextOf(source) == text && MihomoPlaces.EventsOf(source, Always(events)) == events
  {
    hide Decode, DetectEncoding, Body;
  }

  lemma OnePortIsPlain()
    ensures forall k: nat | MihomoPlaces.IsRootPort(ONE_PORT_EVENTS, k) :: ONE_PORT_EVENTS[k].plain
  {
    hide MihomoPlaces.KeysFrom, Mihomo.DocumentStarts, YamlEvents.SkipPairs;
  }

  // ---- a port that is not the root's ----------------------------------------

  /** A flow mapping with a mapping inside whose only line is a port. */
  function Nested(first: string): seq<string> {
    [first, "mixed-port: 80\n", "}}"]
  }

  lemma NestedText(first: string)
    ensures var (a, b, c) := (Nested(first)[0], Nested(first)[1], Nested(first)[2]);
            && Nested(first) == [a, b, c] && a == first && |b| == 15 && |c| == 2 && IsAscii(b) && IsAscii(c)
            && IsLine(b, false) && IsLine(c, true)
            && c[0] == '}' && c[1] == '}' && StripLf(b) == Mihomo.KEY + (" " + ("80" + []))
            && b[13] == '0' && b[14] == '\n'
  {
  }

  predicate IsOpening(first: string) {
    IsAscii(first) && IsLine(first, false) && first[0] == '{'
  }

  lemma NestedIsScanned(first: string)
    requires IsOpening(first)
    ensures var source := Encode(Concat(Nested(first)));
            && DetectEncoding(source) == SourceEncoding.Utf8 && |source| == |first| + 17
            && |Mihomo.Scan(source)| == 1
            && Mihomo.Scan(source)[0].valueSpan == Some(Span(|first| + 12, |first| + 14))
  {
    hide Encode, Mihomo.ScanLine, Content, Nested;
    NestedText(first);
    var b, c := Nested(first)[1], Nested(first)[2];
    ConcatThree(first, b, c);
    Mihomo.AsciiBytes(first + b + c);
    AsciiDocument([first, b, c]);
    NestedHits(first);
    MiddleHit(first, b, c, Mihomo.Hit(12, 2, "80", true));
  }

  /** A scan of three lines of which only the middle one is hit. */
  lemma MiddleHit(a: string, b: string, c: string, hit: Mihomo.Hit)
    requires Mihomo.ScanLine(Content(a)).None? && Mihomo.ScanLine(Content(c)).None?
    requires Mihomo.ScanLine(Content(b)) == Some(hit) && hit.safe && hit.at <= |b| && IsAscii(a) && IsAscii(b)
    ensures var r := Mihomo.OccurrencesBefore([a, b, c], 3, 0);
            |r| == 1 && r[0].valueSpan == Some(Span(|a| + hit.at, |a| + hit.at + hit.digits))
  {
    hide Encode, Content, Mihomo.ScanLine;
    var lines := [a, b, c];
    Mihomo.AsciiBytes(a);
    Mihomo.AsciiBytes(b[..hit.at]);
    assert Ini.Offset(lines, 1, 0) == |a|;
    assert Mihomo.OccurrencesBefore(lines, 1, 0) == [];
    assert Mihomo.OccurrencesBefore(lines, 2, 0) == [Mihomo.OccurrenceAt(lines, 1, 0)];
    assert Mihomo.OccurrencesBefore(lines, 3, 0) == [Mihomo.OccurrenceAt(lines, 1, 0)];
  }

  lemma ConcatThree(a: string, b: string, c: string)
    ensures Concat([a, b, c]) == a + b + c
  {
    ConcatOne(c);
    assert [a, b, c][1..] == [b, c] && [b, c][1..] == [c];
    assert Concat([b, c]) == b + c;
    assert a + (b + c) == a + b + c;
  }

  lemma OtherStart(content: string)
    requires content == [] || content[0] != 'm'
    ensures Mihomo.ScanLine(content).None?
  {
    assert Mihomo.KEY[0] == 'm';
  }

  lemma NestedHits(first: string)
    requires IsOpening(first)
    ensures var lines := Nested(first);
            && |lines| == 3 && lines[0] == first
            && Mihomo.ScanLine(Content(lines[0])).None? && Mihomo.ScanLine(Content(lines[2])).None?
            && Mihomo.ScanLine(Content(lines[1])) == Some(Mihomo.Hit(12, 2, "80", true))
  {
    hide Mihomo.ScanLine, Nested, Mihomo.KEY, IsAscii, IsLine;
    NestedText(first);
    OtherStart(Content(first));
    OtherStart(Content(Nested(first)[2]));
    assert AllSpace(" ");
    EightyIsHit(" ");
    KeyLength();
    assert Content(Nested(first)[1]) == StripLf(Nested(first)[1]);
  }

  lemma KeyLength()
    ensures |Mihomo.KEY| == 11
  {
  }

  lemma NinetyIsPort()
    ensures Mihomo.ParseU16("90") == Some(90)
  {
    assert "90"[..1] == "9" && "9"[..0] == [];
    assert Mihomo.DigitsValue("9") == Some(9);
  }

  /** With at most one port counted at the root, the edit changes the nested one. */
  lemma NestedIsPatched(first: string, load: Mihomo.Loader, readers: YamlEvents.Readers)
    requires IsOpening(first)
    requires var ports := Mihomo.ParseYamlRoot(Encode(Concat(Nested(first))), load, readers);
             ports.Ok? && |ports.value| <= 1
    ensures var source := Encode(Concat(Nested(first)));
            && |source| == |first| + 17
            && Mihomo.EditOutcome(source, Mihomo.PATH, "90", load, readers)
               == Ok(Splice(source, |first| + 12, |first| + 14, Encode("90")))
  {
    NestedIsScanned(first);
    NinetyIsPort();
    hide Encode, Mihomo.Scan, Mihomo.ParseYamlRoot, Mihomo.ParseU16, Mihomo.EditOutcome, Concat, Nested, Splice,
      IsOpening;
    MihomoEdit.PortAccepted(Encode(Concat(Nested(first))), "90", load, readers);
  }

  // The root is `a` alone.
  const OTHER_FIRST := "{a: {\n"
  const OTHER_EVENTS: seq<YamlEvents.Event> := [
    YamlEvents.Marker, YamlEvents.DocumentStart, YamlEvents.MappingStart, YamlEvents.Scalar("a", true, None),
    YamlEvents.MappingStart, YamlEvents.Scalar("mixed-port", true, None), YamlEvents.Scalar("80", true, None),
    YamlEvents.MappingEnd, YamlEvents.MappingEnd, YamlEvents.Marker, YamlEvents.Marker]

  /** The edit is accepted although the root has no `mixed-port` at all. */
  lemma NestedPortIsEdited(readers: YamlEvents.Readers)
    ensures var source := Encode(Concat(Nested(OTHER_FIRST)));
            && Mihomo.ParseYamlRoot(source, Always(OTHER_EVENTS), readers) == Ok([])
            && |source| == 23
            && Mihomo.EditOutcome(source, Mihomo.PATH, "90", Always(OTHER_EVENTS), readers)
               == Ok(Splice(source, 18, 20, Encode("90")))
  {
    hide Encode, Mihomo.Scan, Mihomo.ParseYamlRoot, Mihomo.EditOutcome, Concat, Nested, Splice, IsOpening,
      DetectEncoding, OTHER_FIRST, OTHER_EVENTS;
    OtherOpens();
    var source := Encode(Concat(Nested(OTHER_FIRST)));
    NestedIsScanned(OTHER_FIRST);
    OtherRoot(source, readers);
    NestedIsPatched(OTHER_FIRST, Always(OTHER_EVENTS), readers);
  }

  lemma OtherRoot(source: seq<byte>, readers: YamlEvents.Readers)
    requires DetectEncoding(source) == SourceEncoding.Utf8
    ensures Mihomo.ParseYamlRoot(source, Always(OTHER_EVENTS), readers) == Ok([])
  {
    hide DetectEncoding, Mihomo.ParseYamlRoot, YamlEvents.Inspect;
    OtherInspected(readers);
    RootOf(source, OTHER_EVENTS, readers, []);
  }

  lemma OtherOpens()
    ensures IsOpening(OTHER_FIRST) && |OTHER_FIRST| == 6
  {
  }

  lemma OtherInspected(readers: YamlEvents.Readers)
    ensures YamlEvents.Inspect(OTHER_EVENTS, 3, readers) == Ok([])
  {
    hide YamlEvents.Inspect, YamlEvents.Classify, YamlEvents.SkipPairs, YamlEvents.Skip;
    ScalarPair(OTHER_EVENTS, 5, readers);
    MappingValue(OTHER_EVENTS, 3, 8, readers);
  }

  /** A pair of a scalar other than the port and a mapping, the last of its mapping. */
  lemma MappingValue(events: seq<YamlEvents.Event>, cursor: nat, next: nat, readers: YamlEvents.Readers)
    requires cursor + 1 < next < |events| && events[cursor].Scalar? && events[cursor + 1] == YamlEvents.MappingStart
    requires YamlEvents.SkipPairs(events, cursor + 2) == Ok(next) && events[next] == YamlEvents.MappingEnd
    requires !YamlEvents.IsMixedPortKey(events[cursor])
    ensures YamlEvents.Inspect(events, cursor, readers) == Ok([])
  {
    hide YamlEvents.Classify, YamlEvents.IsMixedPortKey, YamlEvents.SkipPairs;
    assert YamlEvents.Skip(events, cursor) == Ok(cursor + 1);
    assert YamlEvents.Skip(events, cursor + 1) == Ok(next);
    var none: seq<YamlEvents.MixedPortValue> := [];
    assert YamlEvents.Inspect(events, next, readers) == Ok(none);
    NothingMore(none);
  }

  // The root has its own port, quoted, so that its line does not start with the key.
  const QUOTED_FIRST := "{'mixed-port': 1, a: {\n"
  const QUOTED_EVENTS: seq<YamlEvents.Event> := [
    YamlEvents.Marker, YamlEvents.DocumentStart, YamlEvents.MappingStart, YamlEvents.Scalar("mixed-port", false, None),
    YamlEvents.Scalar("1", true, None), YamlEvents.Scalar("a", true, None), YamlEvents.MappingStart,
    YamlEvents.Scalar("mixed-port", true, None), YamlEvents.Scalar("80", true, None), YamlEvents.MappingEnd,
    YamlEvents.MappingEnd, YamlEvents.Marker, YamlEvents.Marker]

  /** Even with exactly one port at the root, the nested one can be the one that is edited. */
  lemma QuotedPortIsKept(readers: YamlEvents.Readers)
    ensures var source := Encode(Concat(Nested(QUOTED_FIRST)));
            var ports := Mihomo.ParseYamlRoot(source, Always(QUOTED_EVENTS), readers);
            && ports.Ok? && |ports.value| == 1
            && |source| == 40
            && Mihomo.EditOutcome(source, Mihomo.PATH, "90", Always(QUOTED_EVENTS), readers)
               == Ok(Splice(source, 35, 37, Encode("90")))
  {
    hide Encode, Mihomo.Scan, Mihomo.ParseYamlRoot, Mihomo.EditOutcome, Concat, Nested, Splice, IsOpening,
      DetectEncoding, QUOTED_FIRST, QUOTED_EVENTS;
    QuotedOpens();
    var source := Encode(Concat(Nested(QUOTED_FIRST)));
    NestedIsScanned(QUOTED_FIRST);
    QuotedRoot(source, readers);
    NestedIsPatched(QUOTED_FIRST, Always(QUOTED_EVENTS), readers);
  }

  const QUOTED_PLACES: seq<Span> := [
    Span(0, 0), Span(0, 0), Span(0, 0), Span(1, 13), Span(15, 16), Span(18, 19), Span(0, 0), Span(23, 33), Span(35, 37),
    Span(0, 0), Span(0, 0), Span(0, 0), Span(0, 0)]

  /** This reading keeps to what readings keep to; but the root's key does not stand at the start of the line. */
  lemma QuotedIsPlaced()
    ensures var text := QUOTED_FIRST + "mixed-port: 80\n" + "}}";
            MihomoPlaces.Placed(text, QUOTED_EVENTS, QUOTED_PLACES) && !MihomoPlaces.OccursOnce(text)
    ensures !QUOTED_EVENTS[3].plain && QUOTED_PLACES[3].start != |QUOTED_FIRST|
  {
    var text := QUOTED_FIRST + "mixed-port: 80\n" + "}}";
    QuotedText(text);
    QuotedApart(text);
    QuotedStand(text);
    QuotedMarks(text);
    QuotedLines(text);
    QuotedDigits(text);
    hide MihomoPlaces.Apart, MihomoPlaces.WordsStand, MihomoPlaces.LinesBelong, MihomoPlaces.DigitsBelong,
      MihomoPlaces.OccursOnce, MihomoPlaces.MarksStand;
  }

  lemma QuotedApart(text: string)
    requires |text| == 40
    ensures MihomoPlaces.Apart(text, QUOTED_EVENTS, QUOTED_PLACES)
  {
  }

  lemma QuotedStand(text: string)
    requires |text| == 40 && MihomoPlaces.Apart(text, QUOTED_EVENTS, QUOTED_PLACES)
    requires text[18..19] == "a" && text[23..33] == "mixed-port"
    ensures MihomoPlaces.WordsStand(text, QUOTED_EVENTS, QUOTED_PLACES)
  {
    QuotedWords();
    hide MihomoPlaces.IsWord, MihomoPlaces.Apart;
  }

  lemma QuotedMarks(text: string)
    requires |text| == 40 && MihomoPlaces.Apart(text, QUOTED_EVENTS, QUOTED_PLACES)
    requires text[1] == text[12] == '\''
    ensures MihomoPlaces.MarksStand(text, QUOTED_EVENTS, QUOTED_PLACES)
  {
    hide MihomoPlaces.Apart, MihomoPlaces.Indented;
  }

  lemma QuotedLines(text: string)
    requires |text| == 40 && text[0] == '{' && text[37..] == "\n}}"
    requires forall i | 0 <= i < 40 && text[i] == '\n' :: i == 22 || i == 37
    ensures MihomoPlaces.LinesBelong(text, QUOTED_EVENTS, QUOTED_PLACES)
  {
    assert text[38] == text[37..][1] == '}';
    assert MihomoPlaces.Covers(QUOTED_EVENTS, QUOTED_PLACES, 7, 23);
    hide QUOTED_EVENTS, QUOTED_PLACES, MihomoPlaces.Covers;
    forall p: nat | MihomoPlaces.StartsLine(text, p) && MihomoPlaces.IsLetter(text[p])
      ensures p == 23
    {
      assert p == 0 || text[p - 1] == '\n';
    }
  }

  lemma QuotedDigits(text: string)
    requires |text| == 40 && text[20] == ' ' && text[21] == '{' && text[33..37] == ": 80" && text[37..] == "\n}}"
    ensures MihomoPlaces.DigitsBelong(text, QUOTED_EVENTS, QUOTED_PLACES)
  {
    QuotedWords();
    assert text[34] == text[33..37][1] == ' ' && text[35] == text[33..37][2] == '8' && text[37] == text[37..][0];
    hide MihomoPlaces.IsWord, MihomoPlaces.Closed, AllSpace;
    forall i, q: nat, r: nat, t: nat | 0 <= i < 13 && MihomoPlaces.IsWord(QUOTED_EVENTS[i])
        && MihomoPlaces.DigitsFollow(text, QUOTED_PLACES[i].end, q, r, t)
      ensures i == 7 && q == 35 && r <= 37
    {
      OneBlank(text, QUOTED_PLACES[i].end, q, r, t);
    }
  }

  lemma QuotedText(text: string)
    requires text == QUOTED_FIRST + "mixed-port: 80\n" + "}}"
    ensures |QUOTED_FIRST| == 23 && |text| == 40 && text[0] == '{' && text[19] == ':' && text[20] == ' '
            && text[21] == '{'
    ensures text[18..19] == "a" && text[23..33] == "mixed-port" && text[33..37] == ": 80" && text[37..] == "\n}}"
    ensures text[22] == '\n' && (forall i | 0 <= i < 40 && text[i] == '\n' :: i == 22 || i == 37)
    ensures text[1] == text[12] == '\'' && !MihomoPlaces.OccursOnce(text)
  {
    QuotedParts();
    QuotedLine();
    var (a, b, c) := (QUOTED_FIRST, "mixed-port: 80\n", "}}");
    assert text == a + (b + c);
    hide QUOTED_FIRST, MihomoPlaces.OccursOnce;
    assert text[..23] == a && text[23..] == b + c;
    assert text[23..33] == b[..10] && text[33..37] == b[10..14];
    assert text[37..] == b[14..] + c;
    assert forall i | 0 <= i < 23 :: text[i] == a[i];
    assert forall i | 0 <= i < 15 :: text[23 + i] == b[i];
    assert text[38] == c[0] && text[39] == c[1];
    assert text[18..19] == a[18..19];
    assert text[2..12] == a[2..12];
    TwoWords(text);
  }

  lemma QuotedParts()
    ensures var a := QUOTED_FIRST;
            && |a| == 23 && a[0] == '{' && a[19] == ':' && a[20] == ' ' && a[21] == '{' && a[22] == '\n'
            && (forall i | 0 <= i < 22 :: a[i] != '\n') && a[1] == a[12] == '\'' && a[18..19] == "a"
            && a[2..12] == "mixed-port"
  {
    var (a, word) := (QUOTED_FIRST, "mixed-port");
    assert |word| == 10 && forall i | 0 <= i < 10 :: a[i + 2] == word[i];
    assert forall i | 0 <= i < 10 :: a[2..12][i] == a[i + 2];
  }

  lemma QuotedLine()
    ensures var b := "mixed-port: 80\n";
            && |b| == 15 && (forall i | 0 <= i < 14 :: b[i] != '\n') && b[..10] == "mixed-port" && b[10..14] == ": 80"
            && b[14..] + "}}" == "\n}}"
  {
  }

  lemma TwoWords(text: string)
    requires |text| == 40 && text[2..12] == "mixed-port" && text[23..33] == "mixed-port"
    ensures !MihomoPlaces.OccursOnce(text)
  {
    assert text[2..][..10] == text[2..12] && text[23..][..10] == text[23..33];
  }

  lemma QuotedWords()
    ensures forall i | 0 <= i < 13 :: MihomoPlaces.IsWord(QUOTED_EVENTS[i]) <==> i == 5 || i == 7
  {
  }

  lemma QuotedRoot(source: seq<byte>, readers: YamlEvents.Readers)
    requires DetectEncoding(source) == SourceEncoding.Utf8
    ensures var ports := Mihomo.ParseYamlRoot(source, Always(QUOTED_EVENTS), readers);
            ports.Ok? && |ports.value| == 1
  {
    hide DetectEncoding, Mihomo.ParseYamlRoot, YamlEvents.Inspect;
    QuotedInspected(readers);
    RootOf(source, QUOTED_EVENTS, readers, YamlEvents.Inspect(QUOTED_EVENTS, 3, readers).value);
  }

  lemma QuotedOpens()
    ensures IsOpening(QUOTED_FIRST) && |QUOTED_FIRST| == 23
  {
  }

  lemma QuotedInspected(readers: YamlEvents.Readers)
    ensures YamlEvents.Inspect(QUOTED_EVENTS, 3, readers).Ok?
            && |YamlEvents.Inspect(QUOTED_EVENTS, 3, readers).value| == 1
  {
    hide YamlEvents.Classify, YamlEvents.SkipPairs;
    ScalarPair(QUOTED_EVENTS, 7, readers);
    MappingValue(QUOTED_EVENTS, 5, 10, readers);
    assert YamlEvents.Skip(QUOTED_EVENTS, 3) == Ok(4) && YamlEvents.Skip(QUOTED_EVENTS, 4) == Ok(5);
  }

  // ---- white space as an INI value ------------------------------------------

  const SMALL: seq<string> := ["[General]\n", "k=v"]
  const GENERAL: Ini.Options := Ini.Options(["General"], true)
  const KEY_PATH: string := Path.FromSegments(["General", "k"])

  lemma SmallText()
    ensures var (a, b) := (SMALL[0], SMALL[1]);
            && SMALL == [a, b] && |a| == 10 && IsAscii(a) && IsLine(a, false) && IsLine(b, true) && b == "k=v"
            && Content(a) == "[General]"
  {
    assert Content(SMALL[0]) == SMALL[0][..9];
  }

  lemma HeaderIs()
    ensures Classify("[General]") == Header("General")
  {
    var header := "[General]";
    hide TrimStart, TrimEnd, Find, ValueStart;
    TrimmedHeader();
  }

  lemma TrimmedHeader()
    ensures Trim("[General]") == "[General]" && Trim("[General]"[1..8]) == "General"
  {
    hide TrimStart, TrimEnd;
    TrimIsTrimmed("[General]");
    TrimIsTrimmed("General");
    assert "[General]"[1..8] == "General";
  }

  lemma AssignmentIs()
    ensures Content("k=v") == "k=v" && Classify("k=v") == Assignment("k", 2, "v")
  {
    hide TrimStart, TrimEnd, Trim, Find, Classify, Content, ValueStart, IsSafeKey;
    var line := "k=v";
    NoTerminator(line);
    FindEqual();
    KeyIsSafe();
    assert line[..1] == "k";
    AssignmentByKey(line);
    ValueIsV();
  }

  lemma KeyIsSafe()
    ensures Trim("k") == "k" && IsSafeKey("k")
  {
    hide TrimStart, TrimEnd;
    TrimIsTrimmed("k");
  }

  lemma ValueIsV()
    ensures ValueStart("k=v", 1) == 2 && TrimEnd("k=v"[2..]) == "v"
  {
    assert "k=v"[2..] == "v" && [] + "v" + [] == "v" && "v" + [] == "v";
    TrimOfParts([], "v", []);
  }

  lemma FindEqual()
    ensures Find("k=v", '=') == 1
  {
  }

  lemma SmallFields()
    ensures var source := Encode(Concat(SMALL));
            && DetectEncoding(source) == SourceEncoding.Utf8 && |source| == 13 && source[12..13] == [0x76]
            && Ini.ParseOutcome(source, GENERAL) == Ok(Ini.Parsed([Ini.Field(KEY_PATH, Span(12, 13))], {}))
  {
    hide Encode, Classify, Content, SMALL, Path.FromSegments, DetectEncoding, HasBom, Decode, Ini.FieldsBefore,
      Ini.Duplicates, KEY_PATH;
    SmallText();
    var header, line := SMALL[0], SMALL[1];
    ConcatTwo(header, line);
    AsciiDocument([header, line]);
    Mihomo.AsciiBytes(header + line);
    LastIsV(header + "k=");
    assert header + line == header + "k=" + "v";
    HeaderIs();
    AssignmentIs();
    FieldsOfTwo(header, line);
  }

  lemma FieldsOfTwo(header: string, line: string)
    requires Classify(Content(header)) == Header("General") && Classify(Content(line)) == Assignment("k", 2, "v")
    requires IsAscii(header) && IsAscii(line) && |header| == 10 && |line| == 3
    ensures Ini.FieldsBefore([header, line], 2, 0, GENERAL) == [Ini.Field(KEY_PATH, Span(12, 13))]
    ensures Ini.Duplicates([header, line], 2, GENERAL) == {}
  {
    hide Encode, Classify, Content, Path.FromSegments;
    var lines := [header, line];
    assert Ini.FirstMatch(["General"], true, "General") == Some("General");
    assert Ini.SectionBefore(lines, 1, GENERAL) == Some("General");
    Mihomo.AsciiBytes(header);
    Mihomo.AsciiBytes(line[..2]);
    Mihomo.AsciiBytes("v");
    assert Ini.Offset(lines, 1, 0) == 10;
    assert !Ini.IsFieldLine(lines, 0, GENERAL) && Ini.FieldsBefore(lines, 1, 0, GENERAL) == [];
    assert Ini.FieldsBefore(lines, 2, 0, GENERAL) == [Ini.FieldAt(lines, 1, 0, GENERAL)];
    assert Ini.Duplicates(lines, 1, GENERAL) == {} && Ini.Duplicates(lines, 2, GENERAL) == {};
  }

  lemma ConcatTwo(a: string, b: string)
    ensures Concat([a, b]) == a + b
  {
    ConcatOne(b);
    assert [a, b][1..] == [b];
  }

  lemma LastIsV(front: string)
    ensures var b := Encode(front + "v"); b != [] && b[|b| - 1] == 0x76
  {
    LastEncoded(front + "v", 'v');
  }

  /** The value can be replaced by a single space, and the field then reads as empty. */
  lemma SpaceIsAcceptedAsValue()
    ensures var source := Encode(Concat(SMALL));
            && |source| == 13
            && Ini.EditOutcome(source, KEY_PATH, " ", GENERAL).Ok?
            && HasEmptyField(Ini.EditOutcome(source, KEY_PATH, " ", GENERAL).value)
  {
    SmallFields();
    hide Encode, Ini.EditOutcome, Ini.ParseOutcome, Concat, SMALL, KEY_PATH, GENERAL, HasEmptyField;
    var source := Encode(Concat(SMALL));
    SmallEdit(source);
    IniEdit.ReparseAfterEdit(source, KEY_PATH, " ", GENERAL);
    SpaceReparsed(source, Ini.EditOutcome(source, KEY_PATH, " ", GENERAL).value);
  }

  /** It parses to the one field, with nothing in it. */
  predicate HasEmptyField(out: seq<byte>) {
    && Ini.ParseOutcome(out, GENERAL).Ok?
    && var fields := Ini.ParseOutcome(out, GENERAL).value.fields;
    && |fields| == 1 && fields[0].path == KEY_PATH && fields[0].span.start == fields[0].span.end
  }

  /** What the reparse theorem says of a single field whose replacement is white space. */
  lemma SpaceReparsed(source: seq<byte>, out: seq<byte>)
    requires Ini.ParseOutcome(source, GENERAL) == Ok(Ini.Parsed([Ini.Field(KEY_PATH, Span(12, 13))], {}))
    requires IniEdit.Reparsed(source, out, IniEdit.IndexOf([Ini.Field(KEY_PATH, Span(12, 13))], KEY_PATH), " ", GENERAL)
    ensures HasEmptyField(out)
  {
    hide Ini.ParseOutcome, KEY_PATH, GENERAL, TrimStart, TrimEnd, Encode;
    TrimAllSpace(" ");
    TrimAllSpace([]);
    EncodeNothing();
  }

  lemma EncodeNothing()
    ensures Encode([]) == []
  {
  }

  lemma SmallEdit(source: seq<byte>)
    requires |source| == 13 && source[12..13] == [0x76]
    requires Ini.ParseOutcome(source, GENERAL) == Ok(Ini.Parsed([Ini.Field(KEY_PATH, Span(12, 13))], {}))
    ensures Ini.EditOutcome(source, KEY_PATH, " ", GENERAL).Ok? && Ini.Canonical(KEY_PATH, GENERAL) == Some(KEY_PATH)
  {
    Path.SegmentsRoundTrip(["General", "k"]);
    hide Ini.ParseOutcome, Path.FromSegments, Path.DecodedSegments, Encode;
    var field := Ini.Field(KEY_PATH, Span(12, 13));
    assert [field][1..] == [] && Ini.Matches([field], KEY_PATH) == [field];
    assert Ini.FirstMatch(["General"], true, "General") == Some("General");
  }
}
