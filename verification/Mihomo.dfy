/** The mixed-port edit (`mihomo.rs`): finding the one line that sets the port, checking the document's YAML
    structure, and replacing the digits. */
module Mihomo {
  import opened Wrappers
  import opened Utf8
  import opened Document
  import opened IniText
  import opened YamlEvents
  import Ini

  const KEY := "mixed-port:"
  const PATH := "/mixed-port"

  predicate IsDigit(c: char) {
    '0' <= c <= '9'
  }

  /** The number of digits at the start. */
  function CountDigits(s: string): (n: nat)
    ensures n <= |s|
    ensures forall i | 0 <= i < n :: IsDigit(s[i])
    ensures n < |s| ==> !IsDigit(s[n])
  {
    if s == [] || !IsDigit(s[0]) then 0 else 1 + CountDigits(s[1..])
  }

  /** Where the value of the key starts in the line, its digits, all of it, and whether only white space or a
      comment follows the digits. */
  datatype Hit = Hit(at: nat, digits: nat, trimmed: string, safe: bool)

  function ScanLine(content: string): (r: Option<Hit>)
    ensures r.Some? ==>
              && |KEY| <= r.value.at && r.value.at + |r.value.trimmed| <= |content|
              && r.value.digits <= |r.value.trimmed|
  {
    if !(KEY <= content) then None
    else
      var after := content[|KEY|..];
      var leading := |after| - |TrimStart(after)|;
      var trimmed := TrimEnd(after[leading..]);
      var digits := CountDigits(trimmed);
      var remainder := trimmed[digits..];
      Some(Hit(|KEY| + leading, digits, trimmed, digits > 0 && (Trim(remainder) == [] || "#" <= TrimStart(remainder))))
  }

  datatype Occurrence = Occurrence(valueSpan: Option<Span>, fullSpan: Span)

  function OccurrenceAt(lines: seq<string>, k: nat, base: nat): Occurrence
    requires k < |lines| && ScanLine(Content(lines[k])).Some?
  {
    var hit := ScanLine(Content(lines[k])).value;
    var start := Ini.Offset(lines, k, base) + |Encode(lines[k][..hit.at])|;
    Occurrence(if hit.safe then Some(Span(start, start + hit.digits)) else None,
               Span(start, start + |Encode(hit.trimmed)|))
  }

  predicate IsHit(lines: seq<string>, k: nat)
    requires k < |lines|
  {
    ScanLine(Content(lines[k])).Some?
  }

  function HitsBefore(lines: seq<string>, n: nat): seq<nat>
    requires n <= |lines|
  {
    if n == 0 then [] else HitsBefore(lines, n - 1) + if IsHit(lines, n - 1) then [n - 1] else []
  }

  function OccurrencesOfLine(lines: seq<string>, k: nat, base: nat): seq<Occurrence>
    requires k < |lines|
  {
    if IsHit(lines, k) then [OccurrenceAt(lines, k, base)] else []
  }

  function OccurrencesBefore(lines: seq<string>, n: nat, base: nat): seq<Occurrence>
    requires n <= |lines|
  {
    if n == 0 then [] else OccurrencesBefore(lines, n - 1, base) + OccurrencesOfLine(lines, n - 1, base)
  }

  function Scan(source: seq<byte>): seq<Occurrence> {
    if DetectEncoding(source) == Unsupported then []
    else
      var lines := Ini.TextLines(source);
      OccurrencesBefore(lines, |lines|, BaseOffset(source))
  }

  lemma KeyIsAscii()
    ensures |Encode(KEY)| == |KEY|
  {
    AsciiBytes(KEY);
  }

  lemma KeyBytes(content: string, leading: nat)
    requires KEY <= content
    requires leading == |content[|KEY|..]| - |TrimStart(content[|KEY|..])|
    ensures var after := content[|KEY|..];
            |KEY| + |Encode(after)| - |Encode(TrimStart(after))| == |Encode(content[..|KEY| + leading])|
  {
    hide EncodeChar, TrimStart, KEY;
    var after := content[|KEY|..];
    var space := after[..leading];
    TrimStartParts(after);
    EncodeConcat(space, TrimStart(after));
    assert content[..|KEY| + leading] == KEY + space;
    EncodeConcat(KEY, space);
    KeyIsAscii();
  }

  lemma {:induction false} AsciiBytes(s: string)
    requires forall i | 0 <= i < |s| :: (s[i] as int) < 0x80
    ensures |Encode(s)| == |s|
  {
    if s != [] {
      AsciiBytes(s[1..]);
    }
  }

  method ScanMixedPort(source: seq<byte>) returns (occurrences: seq<Occurrence>)
    ensures occurrences == Scan(source)
  {
    hide Valid, Body, HasBom, BaseOffset, Encode, Decode, Lines, Content, Trim, TrimStart, TrimEnd, CountDigits;
    occurrences := [];
    if DetectEncoding(source) == Unsupported {
      return;
    }
    Ini.DecodeBody(source);
    var lines := Lines(Decode(Body(source)).value);
    var offset := BaseOffset(source);
    ghost var base := offset;
    for i := 0 to |lines|
      invariant offset == Ini.Offset(lines, i, base)
      invariant occurrences == OccurrencesBefore(lines, i, base)
    {
      var line := lines[i];
      var content := Content(line);
      if KEY <= content {
        var afterKey := content[|KEY|..];
        var leading := |afterKey| - |TrimStart(afterKey)|;
        KeyBytes(content, leading);
        assert line[..|KEY| + leading] == content[..|KEY| + leading];
        var valueStart := offset + |KEY| + |Encode(afterKey)| - |Encode(TrimStart(afterKey))|;
        var trimmed := TrimEnd(afterKey[leading..]);
        var fullSpan := Span(valueStart, valueStart + |Encode(trimmed)|);
        var digits := CountDigits(trimmed);
        var remainder := trimmed[digits..];
        var safelyTerminated := digits > 0 && (Trim(remainder) == [] || "#" <= TrimStart(remainder));
        occurrences := occurrences
          + [Occurrence(if safelyTerminated then Some(Span(valueStart, valueStart + digits)) else None, fullSpan)];
      }
      offset := offset + |Encode(line)|;
    }
  }

  // ---- the YAML gate --------------------------------------------------------

  /** The YAML library: the events of a text, or None for a syntax error. */
  type Loader = string -> Option<seq<Event>>

  function DocumentStarts(events: seq<Event>, n: nat): seq<nat>
    requires n <= |events|
  {
    if n == 0 then [] else DocumentStarts(events, n - 1) + if events[n - 1] == DocumentStart then [n - 1] else []
  }

  lemma {:induction false} StartsAreStarts(events: seq<Event>, n: nat)
    requires n <= |events|
    ensures forall i | 0 <= i < |DocumentStarts(events, n)| :: DocumentStarts(events, n)[i] < n
  {
    if n > 0 {
      StartsAreStarts(events, n - 1);
    }
  }

  datatype RootError = BadEncoding | BadSyntax | DocumentCount | RootMapping | BadStructure(message: string)

  function ParseYamlRoot(source: seq<byte>, load: Loader, readers: Readers): Result<seq<MixedPortValue>, RootError> {
    if DetectEncoding(source) == Unsupported then Err(BadEncoding)
    else
      match load(Decode(Body(source)).value)
      case None => Err(BadSyntax)
      case Some(events) =>
        var starts := DocumentStarts(events, |events|);
        if |starts| != 1 then Err(DocumentCount)
        else
          var root := starts[0] + 1;
          if root >= |events| || events[root] != MappingStart then Err(RootMapping)
          else
            match Inspect(events, root + 1, readers)
            case Err(message) => Err(BadStructure(message))
            case Ok(ports) => Ok(ports)
  }

  // ---- the edit -------------------------------------------------------------

  /** Decimal digits as a number. */
  function DigitsValue(s: string): Option<nat> {
    if s == [] then Some(0)
    else
      match DigitsValue(s[..|s| - 1])
      case None => None
      case Some(high) =>
        var c := s[|s| - 1];
        if IsDigit(c) then Some(high * 10 + (c as int - '0' as int)) else None
  }

  /** `u16::from_str`: an optional plus sign, then at least one digit, at most 65535. */
  function ParseU16(s: string): Option<nat> {
    var digits := if s != [] && s[0] == '+' then s[1..] else s;
    if digits == [] then None
    else
      match DigitsValue(digits)
      case None => None
      case Some(n) => if n <= 65535 then Some(n) else None
  }

  function EditOutcome(source: seq<byte>, path: string, replacement: string, load: Loader,
      readers: Readers): Result<seq<byte>, EditError> {
    if path != PATH then Err(UnsupportedEdit)
    else
      match ParseYamlRoot(source, load, readers)
      case Err(_) => Err(ParseFailed)
      case Ok(ports) =>
        var occurrences := Scan(source);
        if |ports| > 1 || |occurrences| > 1 then Err(AmbiguousField(path))
        else if |occurrences| == 0 then Err(FieldNotFound(path))
        else if occurrences[0].valueSpan.None? then Err(UnsupportedEdit)
        else
          match ParseU16(replacement)
          case None => Err(UnsafeValue)
          case Some(value) =>
            var span := occurrences[0].valueSpan.value;
            if value == 0 then Err(UnsafeValue)
            else if !Ini.Within(span, source) then Err(ParseFailed)
            else Ok(Splice(source, span.start, span.end, Encode(replacement)))
  }

  method ApplyEdit(source: seq<byte>, path: string, replacement: string, load: Loader, readers: Readers)
    returns (r: Result<seq<byte>, EditError>)
    ensures r == EditOutcome(source, path, replacement, load, readers)
  {
    hide Scan, ParseU16, Inspect, Valid, Encode, Decode, HasBom, DocumentStarts, Splice;
    if path != PATH {
      return Err(UnsupportedEdit);
    }
    if DetectEncoding(source) == Unsupported {
      return Err(ParseFailed);
    }
    Ini.DecodeBody(source);
    var events := load(Decode(Body(source)).value);
    if events.None? {
      return Err(ParseFailed);
    }
    var starts := DocumentStarts(events.value, |events.value|);
    if |starts| != 1 {
      return Err(ParseFailed);
    }
    var root := starts[0] + 1;
    if root >= |events.value| || events.value[root] != MappingStart {
      return Err(ParseFailed);
    }
    var ports := InspectTopLevelMixedPorts(events.value, root, readers);
    if ports.Err? {
      return Err(ParseFailed);
    }
    var occurrences := ScanMixedPort(source);
    if |ports.value| > 1 || |occurrences| > 1 {
      return Err(AmbiguousField(path));
    }
    if |occurrences| == 0 {
      return Err(FieldNotFound(path));
    }
    if occurrences[0].valueSpan.None? {
      return Err(UnsupportedEdit);
    }
    var value := ParseU16(replacement);
    if value.None? || value.value == 0 {
      return Err(UnsafeValue);
    }
    r := ApplySpanPatch(source, occurrences[0].valueSpan.value, Encode(replacement));
  }
}
