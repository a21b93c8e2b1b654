/** Where a mixed-port edit lands (`mihomo.rs`). The code finds the port twice, as an event of the YAML reading and as
    a line of the text, and never compares the two. Given where the scalars of the reading stand in the text, this
    says exactly when the digits it replaces are those of the root's port. */
module MihomoPlaces {
  import opened Wrappers
  import opened Utf8
  import opened Document
  import opened IniText
  import opened YamlEvents
  import opened Mihomo
  import opened MihomoEdit
  import Ini
  import IniEdit

  const WORD := "mixed-port"

  // ---- where scalars stand --------------------------------------------------

  predicate IsLetter(c: char) {
    'a' <= c <= 'z' || 'A' <= c <= 'Z'
  }

  /** A plain scalar that is written as it reads. (A missing value is reported as a tilde that stands nowhere.) */
  predicate IsWord(e: Event) {
    e.Scalar? && e.plain && e.value != [] && IsLetter(e.value[0])
      && forall i | 0 <= i < |e.value| :: !IsSpace(e.value[i])
  }

  predicate StartsLine(text: string, p: nat) {
    p < |text| && (p == 0 || text[p - 1] == '\n')
  }

  /** Nothing but white space, or white space and a comment. */
  predicate Closed(rest: string) {
    TrimStart(rest) == [] || TrimStart(rest)[0] == '#'
  }

  /** A colon at `e`, white space, the digits from `q` to `r`, and nothing else up to the end `t` of the line. */
  predicate DigitsFollow(text: string, e: nat, q: nat, r: nat, t: nat) {
    && e < q < r <= t <= |text| && text[e] == ':' && AllSpace(text[e + 1..q])
    && (forall i | q <= i < r :: IsDigit(text[i])) && Closed(text[r..t])
    && (forall i | e <= i < t :: text[i] != '\n') && (t == |text| || text[t] == '\n')
  }

  /** Event `i` is a scalar that stands around position `p`. */
  predicate Covers(events: seq<Event>, places: seq<Span>, i: nat, p: nat)
    requires |places| == |events|
  {
    i < |events| && events[i].Scalar? && places[i].start <= p < places[i].end
  }

  /** Scalars stand in the text in their order and apart. */
  predicate Apart(text: string, events: seq<Event>, places: seq<Span>) {
    && |places| == |events|
    && (forall i | 0 <= i < |events| && events[i].Scalar? :: places[i].start <= places[i].end <= |text|)
    && (forall i, j | 0 <= i < j < |events| && events[i].Scalar? && events[j].Scalar? ::
          places[i].end <= places[j].start)
  }

  /** Words stand there as they are. */
  predicate WordsStand(text: string, events: seq<Event>, places: seq<Span>)
    requires Apart(text, events, places)
  {
    forall i | 0 <= i < |events| && IsWord(events[i]) :: text[places[i].start..places[i].end] == events[i].value
  }

  predicate IsMark(c: char) {
    c == '\'' || c == '"' || c == '|' || c == '>'
  }

  /** Nothing but white space stands in the line before `p`. */
  ghost predicate Indented(text: string, p: nat)
    requires p <= |text|
  {
    exists q: nat :: q <= p && (q == 0 || text[q - 1] == '\n') && AllSpace(text[q..p])
  }

  /** Quoted scalars and blocks start with their mark. They end behind a quote, behind a line or with the text. */
  ghost predicate MarksStand(text: string, events: seq<Event>, places: seq<Span>)
    requires Apart(text, events, places)
  {
    forall i | 0 <= i < |events| && events[i].Scalar? && !events[i].plain ::
      var place := places[i];
      && place.start < place.end && IsMark(text[place.start])
      && (IsMark(text[place.end - 1]) || Indented(text, place.end) || place.end == |text|)
  }

  /** A letter that starts a line belongs to a scalar. */
  ghost predicate LinesBelong(text: string, events: seq<Event>, places: seq<Span>)
    requires |places| == |events|
  {
    forall p: nat | StartsLine(text, p) && IsLetter(text[p]) :: exists i :: Covers(events, places, i, p)
  }

  /** And so do digits that end a line behind a word and a colon, namely to the next one. */
  ghost predicate DigitsBelong(text: string, events: seq<Event>, places: seq<Span>)
    requires |places| == |events|
  {
    forall i, q: nat, r: nat, t: nat | 0 <= i < |events| && IsWord(events[i])
      && DigitsFollow(text, places[i].end, q, r, t)
      :: && i + 1 < |events| && events[i + 1].Scalar?
         && places[i].end < places[i + 1].start <= q && r <= places[i + 1].end
  }

  /** What a YAML reading keeps to. */
  ghost predicate Placed(text: string, events: seq<Event>, places: seq<Span>) {
    && Apart(text, events, places) && WordsStand(text, events, places) && MarksStand(text, events, places)
    && LinesBelong(text, events, places) && DigitsBelong(text, events, places)
  }

  // ---- the keys of the root -------------------------------------------------

  /** The indexes of the keys from a cursor inside a mapping on. */
  function KeysFrom(events: seq<Event>, cursor: nat): seq<nat>
    requires SkipPairs(events, cursor).Ok?
    decreases |events| - cursor
  {
    if events[cursor] == MappingEnd then []
    else [cursor] + KeysFrom(events, Skip(events, Skip(events, cursor).value).value)
  }

  function TextOf(source: seq<byte>): string {
    if DetectEncoding(source) == Unsupported then [] else Decode(Body(source)).value
  }

  function EventsOf(source: seq<byte>, load: Loader): seq<Event> {
    match load(TextOf(source))
    case None => []
    case Some(events) => events
  }

  /** Event `k` is a key of the root, and reads `mixed-port`. */
  ghost predicate IsRootPort(events: seq<Event>, k: nat) {
    && var starts := DocumentStarts(events, |events|);
    && |starts| == 1 && SkipPairs(events, starts[0] + 2).Ok?
    && k in KeysFrom(events, starts[0] + 2) && k < |events| && IsMixedPortKey(events[k])
  }

  lemma {:induction false} KeyHasValue(events: seq<Event>, cursor: nat, k: nat)
    requires SkipPairs(events, cursor).Ok? && k in KeysFrom(events, cursor)
    ensures k < |events| && (events[k].Scalar? ==> k + 1 < |events|)
    decreases |events| - cursor
  {
    var value := Skip(events, cursor).value;
    if k == cursor {
      assert Skip(events, value).Ok?;
    } else {
      KeyHasValue(events, Skip(events, value).value, k);
    }
  }

  /** A value is collected exactly when a key asks for it. */
  lemma {:induction false} PortsHaveKeys(events: seq<Event>, cursor: nat, readers: Readers)
    requires SkipPairs(events, cursor).Ok? && Inspect(events, cursor, readers).Ok?
    ensures Inspect(events, cursor, readers).value != [] ==>
              exists k :: k in KeysFrom(events, cursor) && k < |events| && IsMixedPortKey(events[k])
    decreases |events| - cursor
  {
    hide YamlEvents.Classify, IsMixedPortKey;
    if events[cursor] != MappingEnd {
      var next := Skip(events, Skip(events, cursor).value).value;
      PortsHaveKeys(events, next, readers);
      var keys := KeysFrom(events, cursor);
      assert keys == [cursor] + KeysFrom(events, next);
      if IsMixedPortKey(events[cursor]) {
        assert cursor in keys;
      } else if Inspect(events, cursor, readers).value != [] {
        assert Inspect(events, cursor, readers).value == [] + Inspect(events, next, readers).value;
        var k :| k in KeysFrom(events, next) && k < |events| && IsMixedPortKey(events[k]);
        assert k in keys;
      }
    }
  }

  // ---- the line that is hit -------------------------------------------------

  /** The start of the hit line and its digits, as positions in the text. */
  datatype Spot = Spot(line: nat, start: nat, end: nat)

  function SpotOf(source: seq<byte>): Spot {
    if DetectEncoding(source) == Unsupported then Spot(0, 0, 0)
    else
      var lines := Ini.TextLines(source);
      var hits := HitsBefore(lines, |lines|);
      if |hits| == 1 && hits[0] < |lines| && IsHit(lines, hits[0]) then LineSpot(lines, hits[0]) else Spot(0, 0, 0)
  }

  function LineSpot(lines: seq<string>, k: nat): Spot
    requires k < |lines| && IsHit(lines, k)
  {
    var (line, hit) := (|Concat(lines[..k])|, ScanLine(Content(lines[k])).value);
    Spot(line, line + hit.at, line + hit.at + hit.digits)
  }

  predicate DigitsOf(text: string, spot: Spot, t: nat) {
    DigitsFollow(text, spot.line + |WORD|, spot.start, spot.end, t)
  }

  /** It starts a line with the key, and its digits follow. */
  ghost predicate SpotOk(text: string, spot: Spot) {
    && StartsLine(text, spot.line) && spot.line + |KEY| <= spot.start < spot.end <= |text|
    && text[spot.line..spot.line + |KEY|] == KEY && exists t: nat :: DigitsOf(text, spot, t)
  }

  /** The bytes of its digits. */
  function ByteSpan(text: string, base: nat, spot: Spot): Span
    requires spot.start <= spot.end <= |text|
  {
    Span(base + |Encode(text[..spot.start])|, base + |Encode(text[..spot.end])|)
  }

  lemma ClosedBefore(rest: string, space: string)
    requires Trim(rest) == [] || "#" <= TrimStart(rest)
    requires AllSpace(space)
    ensures Closed(rest + space)
  {
    hide IsSpace, TrimStart, TrimEnd, AllSpace, Trim;
    TrimStartParts(rest);
    var a, m := rest[..|rest| - |TrimStart(rest)|], TrimStart(rest);
    assert rest + space == a + (m + space);
    TrimStartSkips(a, m + space);
    if m == [] || Trim(rest) == [] {
      OnlySpace(rest);
      SpaceConcat(m, space);
      TrimAllSpace(m + space);
    } else {
      assert (m + space)[0] == m[0] == '#';
      NotTrimmed(m + space);
    }
  }

  lemma OnlySpace(s: string)
    requires TrimStart(s) == [] || Trim(s) == []
    ensures AllSpace(TrimStart(s))
  {
    hide IsSpace, TrimStart, TrimEnd;
    var a, z := TrimParts(s);
    if Trim(s) != [] {
      assert TrimStart(s) == [];
    }
  }

  lemma NotTrimmed(s: string)
    requires s != [] && !IsSpace(s[0])
    ensures TrimStart(s) == s
  {
  }

  lemma KeyIsWord()
    ensures KEY == WORD + ":" && |WORD| == 10 && WORD[0] == 'm' && IsLetter('m')
    ensures forall i | 1 <= i < |KEY| :: KEY[i] != 'm'
    ensures forall i | 0 <= i < |WORD| :: !IsSpace(WORD[i])
  {
  }

  /** In a hit line the digits follow the key. */
  lemma LineDigits(line: string, last: bool)
    requires IsLine(line, last) && ScanLine(Content(line)).Some? && ScanLine(Content(line)).value.safe
    ensures var hit := ScanLine(Content(line)).value;
            && |KEY| <= |line| && line[..|KEY|] == KEY
            && DigitsFollow(line, |WORD|, hit.at, hit.at + hit.digits, |StripLf(line)|)
  {
    hide ScanLine, CountDigits, TrimStart, TrimEnd, Trim, IsSpace, AllSpace, Closed, KEY, WORD, IsLine, Content,
      StripLf, DigitsFollow, IsDigit;
    var content := Content(line);
    var hit := ScanLine(content).value;
    var space, tail := HitParts(content);
    var body := StripLf(line);
    LineEnd(line, last);
    var rest := hit.trimmed[hit.digits..];
    var end := body[|content|..];
    JoinParts(body, content, space, hit.trimmed, tail, hit.digits);
    SpaceConcat(tail, end);
    ClosedBefore(rest, tail + end);
    FirstDigits(hit.trimmed);
    DigitsIn(line, space, hit.trimmed[..hit.digits], rest + (tail + end), body);
  }

  lemma JoinParts(body: string, content: string, space: string, trimmed: string, tail: string, n: nat)
    requires |content| <= |body| && content == body[..|content|] && content == KEY + (space + (trimmed + tail))
    requires n <= |trimmed|
    ensures body == KEY + (space + (trimmed[..n] + (trimmed[n..] + (tail + body[|content|..]))))
  {
    hide KEY;
    var end := body[|content|..];
    assert body == content + end;
    assert trimmed == trimmed[..n] + trimmed[n..];
    assert content + end == KEY + (space + ((trimmed + tail) + end));
    assert (trimmed + tail) + end == trimmed[..n] + (trimmed[n..] + (tail + end));
  }

  lemma FirstDigits(s: string)
    ensures forall i | 0 <= i < CountDigits(s) :: IsDigit(s[..CountDigits(s)][i])
  {
  }

  /** What is stripped behind the content is white space. */
  lemma LineEnd(line: string, last: bool)
    requires IsLine(line, last)
    ensures var body := StripLf(line);
            && |Content(line)| <= |body| <= |line| && body == line[..|body|] && AllSpace(body[|Content(line)|..])
            && Content(line) == body[..|Content(line)|]
            && (forall i | 0 <= i < |body| :: line[i] != '\n') && (|body| == |line| || line[|body|] == '\n')
  {
  }

  lemma DigitsIn(line: string, space: string, digits: string, rest: string, body: string)
    requires |body| <= |line| && body == line[..|body|] && body == KEY + (space + (digits + rest))
    requires AllSpace(space) && digits != [] && (forall i | 0 <= i < |digits| :: IsDigit(digits[i])) && Closed(rest)
    requires (forall i | 0 <= i < |body| :: line[i] != '\n') && (|body| == |line| || line[|body|] == '\n')
    ensures |KEY| <= |line| && line[..|KEY|] == KEY
    ensures var q := |KEY| + |space|; DigitsFollow(line, |WORD|, q, q + |digits|, |body|)
  {
    hide AllSpace, Closed, IsDigit, KEY, WORD, DigitsFollow;
    KeyIsWord();
    var q := |KEY| + |space|;
    var r := q + |digits|;
    assert body[|KEY|..] == space + (digits + rest);
    assert line[..|KEY|] == body[..|KEY|] == KEY;
    assert line[|WORD|] == KEY[|WORD|] == ':';
    assert line[|WORD| + 1..q] == body[|KEY|..][..|space|] == space;
    assert body[q..] == body[|KEY|..][|space|..] == digits + rest;
    assert line[r..|body|] == body[q..][|digits|..] == rest;
    assert line[q..r] == body[q..][..|digits|] == digits;
    DigitsPlaced(line, q, r, |body|);
  }

  lemma DigitsPlaced(line: string, q: nat, r: nat, t: nat)
    requires |WORD| < q < r <= t <= |line| && line[|WORD|] == ':' && AllSpace(line[|WORD| + 1..q])
    requires (forall i | 0 <= i < r - q :: IsDigit(line[q..r][i])) && Closed(line[r..t])
    requires (forall i | 0 <= i < t :: line[i] != '\n') && (t == |line| || line[t] == '\n')
    ensures DigitsFollow(line, |WORD|, q, r, t)
  {
    hide AllSpace, Closed, IsDigit, WORD;
    forall i | q <= i < r
      ensures IsDigit(line[i])
    {
      assert line[i] == line[q..r][i - q];
    }
  }

  /** The same in the whole text. */
  lemma DigitsInText(a: string, line: string, c: string, e: nat, q: nat, r: nat, t: nat)
    requires DigitsFollow(line, e, q, r, t) && (t == |line| ==> c == [])
    ensures DigitsFollow(a + (line + c), |a| + e, |a| + q, |a| + r, |a| + t)
  {
    hide AllSpace, Closed, IsDigit;
    var text := a + (line + c);
    assert forall i | 0 <= i < |line| :: text[|a| + i] == line[i];
    assert text[|a| + e + 1..|a| + q] == line[e + 1..q];
    assert text[|a| + r..|a| + t] == line[r..t];
    forall i | |a| + q <= i < |a| + r
      ensures IsDigit(text[i])
    {
      assert text[i] == line[i - |a|];
    }
    forall i | |a| + e <= i < |a| + t
      ensures text[i] != '\n'
    {
      assert text[i] == line[i - |a|];
    }
  }

  /** The line before ends with a line feed. */
  lemma {:induction false} BeforeLine(lines: seq<string>, k: nat)
    requires AreLines(lines) && k < |lines|
    ensures var a := Concat(lines[..k]); a == [] || a[|a| - 1] == '\n'
  {
    hide Concat, IsLine;
    if k > 0 {
      IniEdit.LineAt(lines, k - 1);
      var before := lines[..k];
      IniEdit.ConcatSplit(before, k - 1);
      assert before[..k - 1] == lines[..k - 1] && before[k - 1..] == [lines[k - 1]];
      LastLine(Concat(lines[..k - 1]), lines[k - 1]);
    } else {
      assert lines[..0] == [];
      NoLines();
    }
  }

  lemma NoLines()
    ensures Concat([]) == []
  {
  }

  lemma LastLine(a: string, line: string)
    requires IsLine(line, false)
    ensures var x := a + Concat([line]); x != [] && x[|x| - 1] == '\n'
  {
    assert [line][1..] == [] && line + [] == line;
  }

  /** Where the one hit is: its digits are what the value span covers in the source. */
  lemma SpotIs(source: seq<byte>)
    requires DetectEncoding(source) != Unsupported && |Scan(source)| == 1 && Scan(source)[0].valueSpan.Some?
    ensures SpotOk(TextOf(source), SpotOf(source))
    ensures Scan(source)[0].valueSpan == Some(ByteSpan(TextOf(source), BaseOffset(source), SpotOf(source)))
  {
    hide Scan, ScanLine, Content, Decode, Encode, Concat, AreLines, HitsBefore, OccurrencesBefore, KEY, WORD, DigitsOf,
      IsLine, Lines, Valid, HasBom, TextOf, Ini.TextLines, LineSpot, SpotOk, ByteSpan, OccurrenceAt, BaseOffset,
      DetectEncoding, IsHit, DigitsFollow;
    var k := OnePort(source);
    var lines := Ini.TextLines(source);
    TextIsLines(source);
    IniEdit.SourceIsLines(source);
    LineSpotIs(lines, k, BaseOffset(source));
  }

  lemma LineSpotIs(lines: seq<string>, k: nat, base: nat)
    requires AreLines(lines) && k < |lines| && IsHit(lines, k) && OccurrenceAt(lines, k, base).valueSpan.Some?
    ensures SpotOk(Concat(lines), LineSpot(lines, k))
    ensures OccurrenceAt(lines, k, base).valueSpan == Some(ByteSpan(Concat(lines), base, LineSpot(lines, k)))
  {
    hide Concat, AreLines, LineSpot, OccurrenceAt, IsHit, SpotOk, ScanLine, Content;
    SafeHit(lines, k, base);
    LineSpotOk(lines, k);
    SpotBounds(Concat(lines), LineSpot(lines, k));
    SpotBytes(lines, k, base);
  }

  lemma SpotBounds(text: string, spot: Spot)
    requires SpotOk(text, spot)
    ensures spot.start <= spot.end <= |text|
  {
  }

  lemma LineSpotOk(lines: seq<string>, k: nat)
    requires AreLines(lines) && k < |lines| && IsHit(lines, k) && ScanLine(Content(lines[k])).value.safe
    ensures SpotOk(Concat(lines), LineSpot(lines, k))
  {
    hide ScanLine, Content, Concat, AreLines, KEY, WORD, DigitsFollow, IsLine, SpotOk, StripLf;
    IniEdit.LineAt(lines, k);
    var a, line, c := Concat(lines[..k]), lines[k], Concat(lines[k + 1..]);
    IniEdit.ConcatAround(lines, k);
    BeforeLine(lines, k);
    LineDigits(line, k == |lines| - 1);
    LastHasNothing(lines, k);
    var hit := ScanLine(Content(line)).value;
    SpotInText(a, line, c, hit.at, hit.at + hit.digits, |StripLf(line)|);
  }

  lemma SpotInText(a: string, line: string, c: string, q: nat, r: nat, t: nat)
    requires DigitsFollow(line, |WORD|, q, r, t) && (t == |line| ==> c == []) && (a == [] || a[|a| - 1] == '\n')
    requires |KEY| <= |line| && line[..|KEY|] == KEY
    ensures SpotOk(a + (line + c), Spot(|a|, |a| + q, |a| + r))
  {
    hide KEY, WORD, DigitsFollow, StartsLine;
    KeyIsWord();
    DigitsInText(a, line, c, |WORD|, q, r, t);
    KeyAt(a, line, c);
    FollowBounds(line, |WORD|, q, r, t);
    assert DigitsOf(a + (line + c), Spot(|a|, |a| + q, |a| + r), |a| + t);
  }

  lemma TextIsLines(source: seq<byte>)
    requires DetectEncoding(source) != Unsupported
    ensures TextOf(source) == Concat(Ini.TextLines(source))
  {
    hide Decode, Lines, Concat, HasBom;
    Ini.DecodeBody(source);
    LinesLossless(Decode(Body(source)).value);
  }

  lemma SafeHit(lines: seq<string>, k: nat, base: nat)
    requires k < |lines| && IsHit(lines, k) && OccurrenceAt(lines, k, base).valueSpan.Some?
    ensures ScanLine(Content(lines[k])).Some? && ScanLine(Content(lines[k])).value.safe
  {
    hide ScanLine, Content, Encode;
  }

  lemma LastHasNothing(lines: seq<string>, k: nat)
    requires AreLines(lines) && k < |lines|
    ensures |StripLf(lines[k])| == |lines[k]| ==> Concat(lines[k + 1..]) == []
  {
    hide Concat;
    assert IsLine(lines[k], k == |lines| - 1);
    if k == |lines| - 1 {
      assert lines[k + 1..] == [];
      NoLines();
    }
  }

  lemma FollowBounds(line: string, e: nat, q: nat, r: nat, t: nat)
    requires DigitsFollow(line, e, q, r, t)
    ensures e < q < r <= |line|
  {
  }

  lemma KeyAt(a: string, line: string, c: string)
    requires |KEY| <= |line| && line[..|KEY|] == KEY && (a == [] || a[|a| - 1] == '\n')
    ensures var text := a + (line + c); StartsLine(text, |a|) && text[|a|..|a| + |KEY|] == KEY
  {
    hide KEY;
    KeyIsWord();
    var text := a + (line + c);
    assert text[|a|..|a| + |KEY|] == line[..|KEY|];
    assert a != [] ==> text[|a| - 1] == a[|a| - 1];
  }

  lemma SpotBytes(lines: seq<string>, k: nat, base: nat)
    requires k < |lines| && IsHit(lines, k) && ScanLine(Content(lines[k])).value.safe
    requires LineSpot(lines, k).end <= |Concat(lines)|
    ensures OccurrenceAt(lines, k, base).valueSpan == Some(ByteSpan(Concat(lines), base, LineSpot(lines, k)))
  {
    hide ScanLine, Content, Encode, Concat;
    var line, hit := lines[k], ScanLine(Content(lines[k])).value;
    var end := hit.at + hit.digits;
    var a, c := Concat(lines[..k]), Concat(lines[k + 1..]);
    DigitBytes(Content(line));
    IniEdit.ContentSlice(line, hit.at, end);
    IniEdit.OffsetIsLength(lines, k, base);
    IniEdit.ConcatAround(lines, k);
    PrefixBytes(a, line, c, hit.at, end);
  }

  lemma PrefixBytes(a: string, line: string, c: string, at: nat, end: nat)
    requires at <= end <= |line|
    ensures var text := a + (line + c);
            && |Encode(text[..|a| + at])| == |Encode(a)| + |Encode(line[..at])|
            && |Encode(text[..|a| + end])| == |Encode(a)| + |Encode(line[..at])| + |Encode(line[at..end])|
  {
    hide Encode;
    var text := a + (line + c);
    assert text[..|a| + at] == a + line[..at];
    assert text[..|a| + end] == (a + line[..at]) + line[at..end];
    EncodeConcat(a, line[..at]);
    EncodeConcat(a + line[..at], line[at..end]);
  }

  // ---- the theorem ----------------------------------------------------------

  /** The digits lie in the value of key `k`, and that value starts on the line. */
  predicate InValue(events: seq<Event>, places: seq<Span>, k: nat, spot: Spot)
    requires |places| == |events|
  {
    && k + 1 < |events| && events[k + 1].Scalar?
    && spot.line < places[k + 1].start <= spot.start && spot.end <= places[k + 1].end
  }

  /** Two places of the word that overlap are one. */
  lemma SameWord(text: string, p: nat, s: nat)
    requires p + |WORD| <= |text| && s + |WORD| <= |text| && s <= p < s + |WORD|
    requires text[p..p + |WORD|] == WORD && text[s..s + |WORD|] == WORD
    ensures s == p
  {
    hide WORD;
    KeyIsWord();
    assert text[p] == text[p..p + |WORD|][0] == 'm';
    assert text[p] == text[s..s + |WORD|][p - s];
    assert KEY[p - s] == WORD[p - s];
  }

  /** Behind the start of a hit line and before its digits there is no second one. */
  lemma NoSecondWord(text: string, line: nat, e: nat, start: nat, s: nat)
    requires e == line + |WORD| && e < start <= |text| && text[line..line + |KEY|] == KEY
    requires AllSpace(text[e + 1..start]) && line < s && s + |WORD| <= start
    ensures text[s..s + |WORD|] != WORD
  {
    hide WORD, KEY;
    KeyIsWord();
    assert text[s] == text[s..s + |WORD|][0];
    if s <= e {
      assert text[s] == text[line..line + |KEY|][s - line];
    } else {
      assert text[s] == text[e + 1..start][s - (e + 1)];
      assert !IsSpace('m');
    }
  }

  lemma WordPlace(text: string, events: seq<Event>, places: seq<Span>, k: nat)
    requires Placed(text, events, places) && k < |events| && IsMixedPortKey(events[k]) && events[k].plain
    ensures IsWord(events[k]) && places[k].end == places[k].start + |WORD| <= |text|
    ensures text[places[k].start..places[k].end] == WORD
  {
    KeyIsWord();
    assert IsWord(events[k]);
  }

  /** With the key at the start of the line, its value is what is edited. */
  lemma PlacedIsEdited(text: string, events: seq<Event>, places: seq<Span>, k: nat, spot: Spot)
    requires Placed(text, events, places) && k < |events| && IsMixedPortKey(events[k]) && events[k].plain
    requires SpotOk(text, spot) && places[k].start == spot.line
    ensures InValue(events, places, k, spot)
  {
    hide DigitsFollow, WORD, KEY;
    var t: nat :| DigitsOf(text, spot, t);
    WordPlace(text, events, places, k);
  }

  /** And if its value is what is edited, the key is at the start of the line. */
  lemma EditedIsPlaced(text: string, events: seq<Event>, places: seq<Span>, k: nat, spot: Spot)
    requires Placed(text, events, places) && k < |events| && IsMixedPortKey(events[k]) && events[k].plain
    requires SpotOk(text, spot) && InValue(events, places, k, spot)
    ensures places[k].start == spot.line
  {
    hide KEY, WORD, IsWord, DigitsOf, DigitsFollow;
    KeyIsWord();
    var i := LineScalar(text, events, places, spot);
    WordPlace(text, events, places, k);
    PlacesApart(text, events, places, k);
    hide Covers;
    if i == k {
      SameStart(text, places[k], spot);
    } else {
      NotOther(events, places, k, spot, i);
      KeyBehind(text, places[k], spot);
    }
  }

  lemma PlacesApart(text: string, events: seq<Event>, places: seq<Span>, k: nat)
    requires Placed(text, events, places) && k + 1 < |events| && events[k].Scalar? && events[k + 1].Scalar?
    ensures places[k].end <= places[k + 1].start
  {
  }

  /** The scalar that the line's first letter belongs to. */
  lemma LineScalar(text: string, events: seq<Event>, places: seq<Span>, spot: Spot) returns (i: nat)
    requires Placed(text, events, places) && SpotOk(text, spot)
    ensures Covers(events, places, i, spot.line)
  {
    hide DigitsFollow, IsWord, DigitsOf;
    assert text[spot.line] == text[spot.line..spot.line + |KEY|][0] == KEY[0];
    i :| Covers(events, places, i, spot.line);
  }

  lemma SameStart(text: string, place: Span, spot: Spot)
    requires SpotOk(text, spot) && place.end == place.start + |WORD| <= |text| && text[place.start..place.end] == WORD
    requires place.start <= spot.line < place.end
    ensures place.start == spot.line
  {
    hide KEY, WORD, DigitsOf, StartsLine;
    KeyIsWord();
    assert text[spot.line..spot.line + |WORD|] == text[spot.line..spot.line + |KEY|][..|WORD|] == WORD;
    SameWord(text, spot.line, place.start);
  }

  lemma KeyBehind(text: string, place: Span, spot: Spot)
    requires SpotOk(text, spot) && place.end == place.start + |WORD| <= |text|
    requires spot.line < place.start && place.end <= spot.start
    ensures text[place.start..place.end] != WORD
  {
    hide KEY, WORD, DigitsOf, StartsLine;
    var t: nat :| DigitsOf(text, spot, t);
    SpaceBefore(text, spot, t);
    NoSecondWord(text, spot.line, spot.line + |WORD|, spot.start, place.start);
  }

  lemma SpaceBefore(text: string, spot: Spot, t: nat)
    requires DigitsOf(text, spot, t)
    ensures spot.line + |WORD| < spot.start <= |text| && AllSpace(text[spot.line + |WORD| + 1..spot.start])
  {
    hide Closed, WORD, AllSpace;
  }

  /** A scalar other than the key that starts the line comes before the key. */
  lemma NotOther(events: seq<Event>, places: seq<Span>, k: nat, spot: Spot, i: nat)
    requires |places| == |events| && InValue(events, places, k, spot) && Covers(events, places, i, spot.line) && i != k
    requires events[k].Scalar? && forall i | 0 <= i < |events| && events[i].Scalar? :: places[i].start <= places[i].end
    requires forall i, j | 0 <= i < j < |events| && events[i].Scalar? && events[j].Scalar? ::
               places[i].end <= places[j].start
    ensures spot.line < places[k].start
  {
  }

  /** Before the digits of the hit line there is neither a mark nor a line feed. */
  lemma NoMarks(text: string, spot: Spot)
    requires SpotOk(text, spot)
    ensures text[spot.line] == 'm' && forall p | spot.line <= p < spot.start :: !IsMark(text[p]) && text[p] != '\n'
  {
    hide WORD, KEY, DigitsOf, StartsLine, AllSpace, IsMark;
    KeyHasNoMarks();
    var t: nat :| DigitsOf(text, spot, t);
    SpaceBefore(text, spot, t);
    SpaceHasNoMarks(text[spot.line + |KEY|..spot.start]);
    NoFeeds(text, spot, t);
    forall p | spot.line <= p < spot.start
      ensures !IsMark(text[p]) && text[p] != '\n'
    {
      if p < spot.line + |KEY| {
        assert text[p] == text[spot.line..spot.line + |KEY|][p - spot.line] == KEY[p - spot.line];
      } else {
        assert text[p] == text[spot.line + |KEY|..spot.start][p - (spot.line + |KEY|)];
      }
    }
    assert text[spot.line] == text[spot.line..spot.line + |KEY|][0];
  }

  lemma KeyHasNoMarks()
    ensures |KEY| == |WORD| + 1 && KEY[0] == 'm' && forall i | 0 <= i < |KEY| :: !IsMark(KEY[i]) && KEY[i] != '\n'
  {
  }

  lemma SpaceHasNoMarks(s: string)
    requires AllSpace(s)
    ensures forall i | 0 <= i < |s| :: !IsMark(s[i])
  {
  }

  lemma NoFeeds(text: string, spot: Spot, t: nat)
    requires DigitsOf(text, spot, t)
    ensures spot.start <= |text| && forall i | spot.line + |WORD| <= i < spot.start :: text[i] != '\n'
  {
    hide Closed, WORD, AllSpace, IsDigit;
  }

  /** A quoted key never starts the hit line, nor is its value what is edited. */
  lemma MarkedIsElsewhere(text: string, events: seq<Event>, places: seq<Span>, k: nat, spot: Spot)
    requires Placed(text, events, places) && k < |events| && events[k].Scalar? && !events[k].plain
    requires SpotOk(text, spot)
    ensures places[k].start != spot.line && !InValue(events, places, k, spot)
  {
    NoMarks(text, spot);
    var i := LineScalar(text, events, places, spot);
    hide KEY, WORD, IsWord, DigitsOf, DigitsFollow, SpotOk, IsMark, StartsLine, IsLetter;
    if InValue(events, places, k, spot) {
      PlacesApart(text, events, places, k);
      if i == k {
        EndsBefore(text, spot.line, spot.start, places[k].end);
      } else {
        NotOther(events, places, k, spot, i);
      }
    }
  }

  lemma EndsBefore(text: string, line: nat, start: nat, end: nat)
    requires line < end <= start < |text| && text[line] == 'm'
    requires forall p | line <= p < start :: text[p] != '\n'
    ensures !Indented(text, end)
  {
    forall q: nat | q <= end && (q == 0 || text[q - 1] == '\n')
      ensures !AllSpace(text[q..end])
    {
      assert text[q..end][line - q] == 'm';
    }
  }

  /** WHERE THE EDIT LANDS. An accepted edit replaces the bytes of the hit line's digits. They lie in the value of a
      `mixed-port` key of the root, on its own line, exactly when that key stands at the start of the hit line. */
  lemma RootPortIsEdited(source: seq<byte>, r: string, load: Loader, readers: Readers, places: seq<Span>, k: nat)
    requires EditOutcome(source, PATH, r, load, readers).Ok?
    ensures SpotOk(TextOf(source), SpotOf(source))
    ensures var span := ByteSpan(TextOf(source), BaseOffset(source), SpotOf(source));
            && span.start <= span.end <= |source|
            && EditOutcome(source, PATH, r, load, readers) == Ok(Splice(source, span.start, span.end, Encode(r)))
    ensures Placed(TextOf(source), EventsOf(source, load), places) && IsRootPort(EventsOf(source, load), k) ==>
              (InValue(EventsOf(source, load), places, k, SpotOf(source)) <==> places[k].start == SpotOf(source).line)
  {
    hide EditOutcome, Scan, InValue, SpotOf, KeysFrom, SkipPairs, DocumentStarts, TextOf, EventsOf, Encode, Splice, KEY,
      WORD, ByteSpan, DetectEncoding, BaseOffset, IsWord, DigitsOf, DigitsFollow, Covers, ParseU16;
    AcceptedPort(source, r, load, readers);
    SpotIs(source);
    var text, events, spot := TextOf(source), EventsOf(source, load), SpotOf(source);
    if Placed(text, events, places) && IsRootPort(events, k) {
      LandsInValue(text, events, places, k, spot);
    }
  }

  lemma LandsInValue(text: string, events: seq<Event>, places: seq<Span>, k: nat, spot: Spot)
    requires Placed(text, events, places) && IsRootPort(events, k) && SpotOk(text, spot)
    ensures InValue(events, places, k, spot) <==> places[k].start == spot.line
  {
    hide SpotOk, InValue, KEY, WORD, KeysFrom, DocumentStarts, SkipPairs, IsWord, Covers, DigitsFollow, MarksStand;
    if !events[k].plain {
      MarkedIsElsewhere(text, events, places, k, spot);
    } else if InValue(events, places, k, spot) {
      EditedIsPlaced(text, events, places, k, spot);
    } else if places[k].start == spot.line {
      PlacedIsEdited(text, events, places, k, spot);
    }
  }

  lemma AcceptedRoot(source: seq<byte>, r: string, load: Loader, readers: Readers)
    requires EditOutcome(source, PATH, r, load, readers).Ok?
    ensures ParseYamlRoot(source, load, readers).Ok?
  {
    hide Scan, ParseU16, Splice, Encode, ParseYamlRoot;
  }

  lemma RootEvents(source: seq<byte>, load: Loader, readers: Readers)
    requires ParseYamlRoot(source, load, readers).Ok?
    ensures var events := EventsOf(source, load);
            var starts := DocumentStarts(events, |events|);
            && |starts| == 1 && Inspect(events, starts[0] + 2, readers).Ok?
            && ParseYamlRoot(source, load, readers) == Ok(Inspect(events, starts[0] + 2, readers).value)
  {
    hide Decode, Valid, HasBom, DocumentStarts, Inspect, Body;
    if DetectEncoding(source) != Unsupported {
      Ini.DecodeBody(source);
    }
  }

  /** The word occurs at one place only. */
  predicate OccursOnce(text: string) {
    forall p, q | 0 <= p <= |text| - |WORD| && 0 <= q <= |text| - |WORD| && WORD <= text[p..] && WORD <= text[q..] ::
      p == q
  }

  /** What can be checked before the edit: one port is counted at the root, its key is plain, and `mixed-port` occurs
      once in the text. Then the edit replaces bytes of the root port's value. */
  lemma OnceIsRoot(source: seq<byte>, r: string, load: Loader, readers: Readers, places: seq<Span>)
    requires EditOutcome(source, PATH, r, load, readers).Ok?
    requires ParseYamlRoot(source, load, readers).Ok? && |ParseYamlRoot(source, load, readers).value| == 1
    requires Placed(TextOf(source), EventsOf(source, load), places) && OccursOnce(TextOf(source))
    requires forall k: nat | IsRootPort(EventsOf(source, load), k) :: EventsOf(source, load)[k].plain
    ensures exists k: nat :: IsRootPort(EventsOf(source, load), k)
                             && InValue(EventsOf(source, load), places, k, SpotOf(source))
  {
    hide EditOutcome, Scan, SpotOf, IsRootPort, TextOf, EventsOf, KEY, WORD, ParseYamlRoot, InValue, ByteSpan, Inspect,
      DocumentStarts, OccursOnce, IsMixedPortKey, IsWord, Covers, DigitsFollow, DigitsOf, Splice, Encode, BaseOffset,
      DetectEncoding, ParseU16;
    AcceptedPort(source, r, load, readers);
    RootEvents(source, load, readers);
    SpotIs(source);
    var text, events, spot := TextOf(source), EventsOf(source, load), SpotOf(source);
    var k := CountedKey(events, readers);
    WordPlace(text, events, places, k);
    TheOnlyWord(text, places[k].start, spot.line);
    LandsInValue(text, events, places, k, spot);
  }

  lemma CountedKey(events: seq<Event>, readers: Readers) returns (k: nat)
    requires var starts := DocumentStarts(events, |events|);
             && |starts| == 1 && Inspect(events, starts[0] + 2, readers).Ok?
             && Inspect(events, starts[0] + 2, readers).value != []
    ensures k < |events| && IsRootPort(events, k) && IsMixedPortKey(events[k])
  {
    hide Inspect, KeysFrom, IsMixedPortKey, DocumentStarts;
    var root := DocumentStarts(events, |events|)[0] + 2;
    InspectIsMixedPorts(events, root, readers);
    PortsHaveKeys(events, root, readers);
    k :| k in KeysFrom(events, root) && k < |events| && IsMixedPortKey(events[k]);
  }

  lemma TheOnlyWord(text: string, p: nat, q: nat)
    requires OccursOnce(text) && p + |WORD| <= |text| && q + |KEY| <= |text|
    requires text[p..p + |WORD|] == WORD && text[q..q + |KEY|] == KEY
    ensures p == q
  {
    hide KEY, WORD;
    KeyIsWord();
    assert text[p..][..|WORD|] == WORD;
    assert text[q..][..|WORD|] == text[q..q + |KEY|][..|WORD|] == WORD;
  }
}
