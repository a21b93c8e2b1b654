/** Which mixed-port edits are accepted, and what the others are answered (`mihomo.rs`): which replacements are ports,
    which lines hold a port that can be edited, and every answer in these terms. */
module MihomoAnswers {
  import opened Wrappers
  import opened Utf8
  import opened Document
  import opened Numerals
  import opened IniText
  import opened Mihomo
  import opened MihomoEdit
  import opened MihomoPlaces
  import YamlEvents
  import Ini
  import IniEdit

  // ---- ports ----------------------------------------------------------------

  /** A decimal numeral from 1 to 65535, zeros and a plus sign in front allowed. */
  ghost predicate IsPort(r: string) {
    exists digits :: (r == digits || r == "+" + digits) && IsNumeral(digits) && 1 <= Reading(digits) <= 65535
  }

  lemma {:induction false} DigitsRead(s: string)
    ensures DigitsValue(s).Some? <==> forall i | 0 <= i < |s| :: IsDecimalDigit(s[i])
    ensures DigitsValue(s).Some? ==> DigitsValue(s).value == Reading(s)
  {
    hide IsDecimalDigit, IsDigit;
    if s != [] {
      var high := s[..|s| - 1];
      DigitsRead(high);
      SameDigit(s[|s| - 1]);
      ReadLast(0, s);
      assert forall i | 0 <= i < |high| :: high[i] == s[i];
    }
  }

  lemma SameDigit(c: char)
    ensures IsDigit(c) <==> IsDecimalDigit(c)
  {
  }

  /** What the number parser accepts and is not zero is a port, and every port is. */
  lemma PortMeans(r: string)
    ensures ParseU16(r).Some? && ParseU16(r).value != 0 <==> IsPort(r)
  {
    hide DigitsValue, Reading, IsDecimalDigit;
    var plus := r != [] && r[0] == '+';
    var digits := if plus then r[1..] else r;
    DigitsRead(digits);
    if plus {
      assert r == "+" + digits;
    }
    if d :| (r == d || r == "+" + d) && IsNumeral(d) && 1 <= Reading(d) <= 65535 {
      PlusIsNone();
      assert IsDecimalDigit(d[0]);
      assert r == "+" + d ==> r[1..] == d;
    }
  }

  lemma PlusIsNone()
    ensures !IsDecimalDigit('+')
  {
  }

  // ---- lines that can be edited ---------------------------------------------

  predicate IsPortLine(line: string) {
    "mixed-port:" <= line
  }

  /** Behind the key stand white space, digits, and then nothing but white space or a comment. */
  ghost predicate IsEditable(line: string) {
    IsPortLine(line) && exists q: nat, r: nat, t: nat :: DigitsFollow(line, |"mixed-port"|, q, r, t)
  }

  lemma KeyIs()
    ensures KEY == "mixed-port:" && WORD == "mixed-port" && PATH == "/mixed-port"
  {
  }

  /** A line is hit exactly when it starts with the key. */
  lemma HitMeans(line: string, last: bool)
    requires IsLine(line, last)
    ensures ScanLine(Content(line)).Some? <==> IsPortLine(line)
  {
    hide TrimStart, TrimEnd, Trim, CountDigits, KEY;
    KeyIs();
    LineEnd(line, last);
    var c := Content(line);
    if IsPortLine(line) {
      KeyStays(line);
      assert c[..|KEY|] == line[..|KEY|] == KEY;
    }
  }

  lemma KeyStays(line: string)
    requires IsPortLine(line)
    ensures |Content(line)| >= |"mixed-port:"|
  {
    assert forall i | 0 <= i < |"mixed-port:"| :: line[i] != '\n' && line[i] != '\r';
  }

  lemma {:induction false} NoSpaceEnd(u: string, z: string)
    requires AllSpace(z)
    ensures TrimStart(u) != [] ==> TrimStart(u + z) == TrimStart(u) + z
    ensures TrimStart(u) == [] ==> AllSpace(u)
  {
    hide IsSpace;
    if u == [] {
      assert u + z == z;
    } else {
      assert (u + z)[0] == u[0] && (u + z)[1..] == u[1..] + z;
      NoSpaceEnd(u[1..], z);
      if IsSpace(u[0]) && TrimStart(u) == [] {
        SpaceCons(u[0], u[1..]);
        assert u == [u[0]] + u[1..];
      }
    }
  }

  /** What is closed stays so without its last white space. */
  lemma ClosedFront(u: string, z: string)
    requires AllSpace(z)
    ensures Closed(u + z) <==> Closed(u)
  {
    hide IsSpace, TrimStart, AllSpace;
    NoSpaceEnd(u, z);
    if TrimStart(u) == [] {
      SpaceConcat(u, z);
      TrimAllSpace(u + z);
    }
  }

  /** A value of digits with a closed rest behind them. */
  lemma DigitsHit(space: string, digits: string, rest: string)
    requires AllSpace(space) && digits != [] && (forall i | 0 <= i < |digits| :: IsDigit(digits[i])) && Closed(rest)
    ensures var hit := ScanLine(KEY + (space + (digits + rest)));
            && hit.Some? && hit.value.safe && hit.value.at == |KEY| + |space| && hit.value.digits == |digits|
  {
    hide IsSpace, TrimStart, TrimEnd, Trim, CountDigits, ScanLine, KEY, AllSpace, IsDigit;
    TrimEndParts(rest);
    var u := TrimEnd(rest);
    var z := rest[|u|..];
    ClosedFront(u, z);
    ClosedEdges(u);
    DigitEdges(digits, u);
    HitOf(space, digits + u, z);
    CountAllDigits(digits, u);
    assert (digits + u)[|digits|..] == u;
    assert digits + rest == (digits + u) + z;
  }

  lemma ClosedEdges(u: string)
    requires Closed(u) && (u != [] ==> !IsSpace(u[|u| - 1]))
    ensures u != [] ==> !IsDigit(u[0])
    ensures Trim(u) == [] || "#" <= TrimStart(u)
  {
    if TrimStart(u) != [] {
      assert TrimStart(u)[..1] == "#";
    }
  }

  lemma DigitEdges(digits: string, u: string)
    requires digits != [] && (forall i | 0 <= i < |digits| :: IsDigit(digits[i])) && (u != [] ==> !IsSpace(u[|u| - 1]))
    ensures Trimmed(digits + u)
  {
    var m := digits + u;
    assert m[0] == digits[0] && IsDigit(digits[0]) && IsDigit(digits[|digits| - 1]);
    assert m[|m| - 1] == if u == [] then digits[|digits| - 1] else u[|u| - 1];
  }

  /** Where digits follow the key in a line, they are the ones that are found. */
  lemma FollowedHit(line: string, last: bool, q: nat, r: nat, t: nat)
    requires IsLine(line, last) && IsPortLine(line) && DigitsFollow(line, |WORD|, q, r, t)
    ensures var hit := ScanLine(Content(line));
            hit.Some? && hit.value.safe && hit.value.at == q && hit.value.digits == r - q
  {
    hide ScanLine, AllSpace, Closed, IsSpace, KEY, WORD, IsDigit;
    KeyIs();
    LineEnd(line, last);
    var body, content := StripLf(line), Content(line);
    assert t == |body|;
    ContentHasDigits(line, r, t);
    var (space, digits, rest) := (line[|KEY|..q], line[q..r], line[r..|content|]);
    assert line[r..t] == rest + body[|content|..];
    ClosedFront(rest, body[|content|..]);
    assert forall i | 0 <= i < |digits| :: digits[i] == line[q + i];
    DigitsHit(space, digits, rest);
    FourParts(content, |KEY|, q, r);
    assert content[..|KEY|] == line[..|KEY|] == KEY;
    assert content[|KEY|..q] == space && content[q..r] == digits && content[r..] == rest;
  }

  lemma ContentHasDigits(line: string, r: nat, t: nat)
    requires 0 < r <= t == |StripLf(line)| && IsDigit(line[r - 1])
    ensures r <= |Content(line)|
  {
  }

  lemma FourParts(s: string, a: nat, b: nat, c: nat)
    requires a <= b <= c <= |s|
    ensures s == s[..a] + (s[a..b] + (s[b..c] + s[c..]))
  {
  }

  /** The value of a hit line can be edited exactly when digits follow as they should. */
  lemma EditableMeans(line: string, last: bool)
    requires IsLine(line, last) && IsPortLine(line)
    ensures ScanLine(Content(line)).Some? && (ScanLine(Content(line)).value.safe <==> IsEditable(line))
  {
    hide ScanLine, Content, DigitsFollow, IsLine, IsPortLine, KEY, WORD;
    KeyIs();
    HitMeans(line, last);
    if ScanLine(Content(line)).value.safe {
      LineDigits(line, last);
    }
    if q: nat, r: nat, t: nat :| DigitsFollow(line, |"mixed-port"|, q, r, t) {
      FollowedHit(line, last, q, r, t);
    }
  }

  // ---- counting lines and keys ----------------------------------------------

  lemma {:induction false} HitsAre(lines: seq<string>, n: nat)
    requires n <= |lines|
    ensures forall k :: k in HitsBefore(lines, n) <==> 0 <= k < n && IsHit(lines, k)
    ensures forall i, j | 0 <= i < j < |HitsBefore(lines, n)| :: HitsBefore(lines, n)[i] < HitsBefore(lines, n)[j]
  {
    hide IsHit;
    if n > 0 {
      HitsAre(lines, n - 1);
      var before := HitsBefore(lines, n - 1);
      assert forall i | 0 <= i < |before| :: before[i] in before;
    }
  }

  /** How many lines are hit. */
  lemma HitCount(lines: seq<string>, base: nat)
    ensures var n := |OccurrencesBefore(lines, |lines|, base)|;
            && (n == 0 <==> forall k | 0 <= k < |lines| :: !IsHit(lines, k))
            && (n > 1 <==> exists j, k | 0 <= j < k < |lines| :: IsHit(lines, j) && IsHit(lines, k))
  {
    hide IsHit, HitsBefore, OccurrencesBefore;
    HitsAre(lines, |lines|);
    HitsPointwise(lines, |lines|, base);
    var hits := HitsBefore(lines, |lines|);
    if |hits| > 1 {
      assert hits[0] in hits && hits[1] in hits;
    } else if |hits| == 1 {
      assert hits[0] in hits;
      assert forall k :: k in hits ==> k == hits[0];
    }
  }

  lemma {:induction false} PortCount(pairs: seq<YamlEvents.Pair>, readers: YamlEvents.Readers)
    ensures |YamlEvents.MixedPorts(pairs, readers)| > 1
            <==> exists i, j | 0 <= i < j < |pairs| :: YamlEvents.IsPortKey(pairs[i]) && YamlEvents.IsPortKey(pairs[j])
  {
    hide YamlEvents.IsPortKey, YamlEvents.PortOf;
    if pairs != [] {
      var rest := pairs[1..];
      PortCount(rest, readers);
      PortsAreKeys(rest, readers);
      assert forall i | 0 <= i < |rest| :: rest[i] == pairs[i + 1];
      if i, j :| 0 <= i < j < |pairs| && YamlEvents.IsPortKey(pairs[i]) && YamlEvents.IsPortKey(pairs[j]) {
        assert rest[j - 1] == pairs[j];
        assert i > 0 ==> rest[i - 1] == pairs[i];
      }
      if i, j :| 0 <= i < j < |rest| && YamlEvents.IsPortKey(rest[i]) && YamlEvents.IsPortKey(rest[j]) {
        assert YamlEvents.IsPortKey(pairs[i + 1]) && YamlEvents.IsPortKey(pairs[j + 1]);
      }
      if i :| 0 <= i < |rest| && YamlEvents.IsPortKey(rest[i]) {
        assert YamlEvents.IsPortKey(pairs[i + 1]);
      }
    }
  }

  // ---- the answers ----------------------------------------------------------

  /** The gate passes exactly the documents whose root is a mapping. */
  lemma RootMeans(source: seq<byte>, load: Loader, readers: YamlEvents.Readers)
    ensures var ports := ParseYamlRoot(source, load, readers);
            && (ports.Ok? <==> exists pairs :: IsRoot(source, load, pairs))
            && forall pairs | IsRoot(source, load, pairs) :: ports == Ok(YamlEvents.MixedPorts(pairs, readers))
  {
    hide Decode, Valid, HasBom, DocumentStarts, YamlEvents.Inspect, YamlEvents.Flatten, YamlEvents.MixedPorts, Body;
    if DetectEncoding(source) != Unsupported {
      Ini.DecodeBody(source);
      var loaded := load(Decode(Body(source)).value);
      if loaded.Some? && |DocumentStarts(loaded.value, |loaded.value|)| == 1 {
        var events := loaded.value;
        var root := DocumentStarts(events, |events|)[0] + 1;
        forall pairs | YamlEvents.At(events, root, YamlEvents.Flatten(YamlEvents.MappingNode(pairs)))
          ensures root < |events| && events[root] == YamlEvents.MappingStart
        {
          StartsMapping(events, root, pairs);
        }
        if root < |events| && events[root] == YamlEvents.MappingStart {
          hide YamlEvents.At;
          YamlEvents.RootMixedPorts(events, root, readers);
          if YamlEvents.Inspect(events, root + 1, readers).Ok? {
            var pairs :| YamlEvents.At(events, root, YamlEvents.Flatten(YamlEvents.MappingNode(pairs)));
            assert IsRoot(source, load, pairs);
          }
        }
      }
    }
  }

  lemma StartsMapping(events: seq<YamlEvents.Event>, root: nat, pairs: seq<YamlEvents.Pair>)
    requires YamlEvents.At(events, root, YamlEvents.Flatten(YamlEvents.MappingNode(pairs)))
    ensures root < |events| && events[root] == YamlEvents.MappingStart
  {
    var part := YamlEvents.Flatten(YamlEvents.MappingNode(pairs));
    assert events[root] == events[root..root + |part|][0];
  }

  /** What the scan finds: one occurrence for every line that starts with the key. */
  lemma ScanMeans(source: seq<byte>)
    requires DetectEncoding(source) != Unsupported
    ensures var (lines, n) := (Ini.TextLines(source), |Scan(source)|);
            && AreLines(lines)
            && (n == 0 <==> forall k | 0 <= k < |lines| :: !IsPortLine(lines[k]))
            && (n > 1 <==> exists j, k | 0 <= j < k < |lines| :: IsPortLine(lines[j]) && IsPortLine(lines[k]))
            && (n == 1 ==> forall k | 0 <= k < |lines| && IsPortLine(lines[k]) ::
                             Scan(source)[0].valueSpan.Some? <==> IsEditable(lines[k]))
  {
    hide OccurrencesBefore, ScanLine, Content, IsPortLine, IsEditable, Ini.TextLines, IsLine, DetectEncoding;
    var lines := Ini.TextLines(source);
    IniEdit.SourceIsLines(source);
    forall k | 0 <= k < |lines|
      ensures IsHit(lines, k) <==> IsPortLine(lines[k])
    {
      HitMeans(lines[k], k == |lines| - 1);
    }
    HitCount(lines, BaseOffset(source));
    if |Scan(source)| == 1 {
      var k := OnePort(source);
      EditableMeans(lines[k], k == |lines| - 1);
      EditableSpan(lines, k, BaseOffset(source));
    }
  }

  lemma EditableSpan(lines: seq<string>, k: nat, base: nat)
    requires k < |lines| && IsHit(lines, k)
    ensures OccurrenceAt(lines, k, base).valueSpan.Some? <==> ScanLine(Content(lines[k])).value.safe
  {
    hide ScanLine, Content, Encode;
  }

  /** Every occurrence is a line that starts with the key, and its full span holds what stands behind, trimmed. */
  lemma FullSpanHolds(source: seq<byte>, i: nat) returns (k: nat)
    requires DetectEncoding(source) != Unsupported && i < |Scan(source)|
    ensures var (lines, span) := (Ini.TextLines(source), Scan(source)[i].fullSpan);
            && k < |lines| && IsPortLine(lines[k]) && IsPortLine(Content(lines[k]))
            && span.start <= span.end <= |source|
            && source[span.start..span.end] == Encode(Trim(Content(lines[k])[|"mixed-port:"|..]))
  {
    hide OccurrencesBefore, HitsBefore, ScanLine, Content, IsPortLine, Ini.TextLines, IsLine, DetectEncoding, Encode,
      Trim, TrimStart, TrimEnd, OccurrenceAt, BaseOffset;
    var lines := Ini.TextLines(source);
    IniEdit.SourceIsLines(source);
    HitsPointwise(lines, |lines|, BaseOffset(source));
    k := HitsBefore(lines, |lines|)[i];
    HitMeans(lines[k], k == |lines| - 1);
    HitText(Content(lines[k]));
    OccurrenceHolds(IniEdit.Mark(source), lines, k);
  }

  lemma HitText(content: string)
    requires ScanLine(content).Some?
    ensures var hit := ScanLine(content).value;
            && IsPortLine(content) && hit.at + |hit.trimmed| <= |content|
            && hit.trimmed == content[hit.at..hit.at + |hit.trimmed|] == Trim(content[|"mixed-port:"|..])
  {
    hide TrimStart, TrimEnd, KEY, CountDigits, IsSpace, AllSpace;
    KeyIs();
    var after := content[|KEY|..];
    TrimStartParts(after);
    TrimEndParts(TrimStart(after));
    var leading := |after| - |TrimStart(after)|;
    assert after[leading..] == TrimStart(after);
    var trimmed := Trim(after);
    assert content[|KEY| + leading..] == after[leading..];
    assert content[|KEY| + leading..][..|trimmed|] == trimmed;
  }

  lemma OccurrenceHolds(mark: seq<byte>, lines: seq<string>, k: nat)
    requires k < |lines| && IsHit(lines, k) && |Content(lines[k])| <= |lines[k]|
    requires var hit := ScanLine(Content(lines[k])).value;
             hit.at + |hit.trimmed| <= |Content(lines[k])|
             && hit.trimmed == Content(lines[k])[hit.at..hit.at + |hit.trimmed|]
    ensures var (span, source) := (OccurrenceAt(lines, k, |mark|).fullSpan, IniEdit.FromLines(mark, lines));
            && span.start <= span.end <= |source|
            && source[span.start..span.end] == Encode(ScanLine(Content(lines[k])).value.trimmed)
  {
    hide ScanLine, Content, Encode, Concat;
    var line, hit := lines[k], ScanLine(Content(lines[k])).value;
    var end := hit.at + |hit.trimmed|;
    IniEdit.ContentSlice(line, hit.at, end);
    IniEdit.OffsetIsLength(lines, k, |mark|);
    IniEdit.Around(mark, lines, k, hit.at, end, []);
    var x := mark + Encode(Concat(lines[..k])) + Encode(line[..hit.at]);
    var y := Encode(line[end..] + Concat(lines[k + 1..]));
    IniEdit.Held(x, Encode(line[hit.at..end]), y);
  }

  /** THE ANSWERS OF A PORT EDIT. Only `/mixed-port` is edited, and only where the root is a mapping; two ports at the
      root or two lines that start with the key are ambiguous, no such line is not found, a value that is not digits is
      not edited, and then exactly the ports are written, over the digits. */
  lemma EditAnswers(source: seq<byte>, path: string, r: string, load: Loader, readers: YamlEvents.Readers,
      pairs: seq<YamlEvents.Pair>)
    ensures var out := EditOutcome(source, path, r, load, readers);
            && (path != "/mixed-port" ==> out == Err(UnsupportedEdit))
            && (path == "/mixed-port" && (forall any :: !IsRoot(source, load, any)) ==> out == Err(ParseFailed))
            && (path == "/mixed-port" && IsRoot(source, load, pairs) ==>
                  var lines := Ini.TextLines(source);
                  if || (exists i, j | 0 <= i < j < |pairs| ::
                           YamlEvents.IsPortKey(pairs[i]) && YamlEvents.IsPortKey(pairs[j]))
                     || (exists j, k | 0 <= j < k < |lines| :: IsPortLine(lines[j]) && IsPortLine(lines[k]))
                  then out == Err(AmbiguousField(path))
                  else if forall k | 0 <= k < |lines| :: !IsPortLine(lines[k]) then out == Err(FieldNotFound(path))
                  else if forall k | 0 <= k < |lines| && IsPortLine(lines[k]) :: !IsEditable(lines[k])
                  then out == Err(UnsupportedEdit)
                  else if !IsPort(r) then out == Err(UnsafeValue)
                  else
                    && SpotOk(TextOf(source), SpotOf(source))
                    && var span := ByteSpan(TextOf(source), BaseOffset(source), SpotOf(source));
                    && span.start <= span.end <= |source|
                    && out == Ok(Splice(source, span.start, span.end, Encode(r))))
  {
    hide EditOutcome, ParseYamlRoot, IsRoot, YamlEvents.IsPortKey, IsPortLine, IsEditable, IsPort, Scan, ParseU16,
      TextOf, SpotOf, SpotOk, ByteSpan, Splice, Encode, Ini.TextLines, DetectEncoding, YamlEvents.MixedPorts, IsLine,
        PATH;
    KeyIs();
    RootMeans(source, load, readers);
    RefusedEarly(source, path, r, load, readers);
    if path == "/mixed-port" && IsRoot(source, load, pairs) {
      RootIsText(source, load, pairs);
      PortCount(pairs, readers);
      ScanMeans(source);
      PortMeans(r);
      RefusedLate(source, r, load, readers);
    }
  }

  lemma RootIsText(source: seq<byte>, load: Loader, pairs: seq<YamlEvents.Pair>)
    requires IsRoot(source, load, pairs)
    ensures DetectEncoding(source) != Unsupported
  {
    hide YamlEvents.At, YamlEvents.Flatten, DocumentStarts, DetectEncoding;
  }

  lemma RefusedEarly(source: seq<byte>, path: string, r: string, load: Loader, readers: YamlEvents.Readers)
    ensures path != PATH ==> EditOutcome(source, path, r, load, readers) == Err(UnsupportedEdit)
    ensures path == PATH && ParseYamlRoot(source, load, readers).Err? ==>
              EditOutcome(source, path, r, load, readers) == Err(ParseFailed)
  {
    hide ParseYamlRoot, Scan, ParseU16;
  }

  lemma RefusedLate(source: seq<byte>, r: string, load: Loader, readers: YamlEvents.Readers)
    requires DetectEncoding(source) != Unsupported && ParseYamlRoot(source, load, readers).Ok?
    ensures var (ports, found) := (ParseYamlRoot(source, load, readers).value, Scan(source));
            var out := EditOutcome(source, PATH, r, load, readers);
            if |ports| > 1 || |found| > 1 then out == Err(AmbiguousField(PATH))
            else if |found| == 0 then out == Err(FieldNotFound(PATH))
            else if found[0].valueSpan.None? then out == Err(UnsupportedEdit)
            else if ParseU16(r).None? || ParseU16(r).value == 0 then out == Err(UnsafeValue)
            else
              && SpotOk(TextOf(source), SpotOf(source))
              && var span := ByteSpan(TextOf(source), BaseOffset(source), SpotOf(source));
              && span.start <= span.end <= |source|
              && out == Ok(Splice(source, span.start, span.end, Encode(r)))
  {
    hide ParseYamlRoot, Scan, ParseU16, TextOf, SpotOf, SpotOk, ByteSpan, Splice, Encode, DetectEncoding;
    var found := Scan(source);
    if |found| == 1 && found[0].valueSpan.Some? {
      SpotIs(source);
      ValueWithin(source);
    }
  }

  lemma ValueWithin(source: seq<byte>)
    requires DetectEncoding(source) != Unsupported && |Scan(source)| == 1 && Scan(source)[0].valueSpan.Some?
    ensures Ini.Within(Scan(source)[0].valueSpan.value, source)
  {
    hide Scan, ScanLine, Content, ParseU16, Encode, Splice, IniEdit.FromLines, Ini.TextLines, DetectEncoding;
    PlusIsAccepted();
    var k := OnePort(source);
    PortReplaced(source, k, "+80");
  }
}
