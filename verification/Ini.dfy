/** The INI-like targets (`common.rs`): one pass over the lines collects the editable assignments with
    their byte spans, and an edit replaces the value of exactly one of them. */
module Ini {
  import opened Wrappers
  import opened Utf8
  import opened Document
  import opened IniText
  import Path

  datatype Options = Options(editable: seq<string>, caseSensitive: bool)

  datatype Field = Field(path: string, span: Span)

  datatype Parsed = Parsed(fields: seq<Field>, duplicates: set<string>)

  datatype ParseError = NotUtf8

  // ---- sections -------------------------------------------------------------

  function Lower(c: char): char {
    if 'A' <= c <= 'Z' then (c as int + 32) as char else c
  }

  function ToAsciiLowercase(s: string): string {
    if s == [] then [] else [Lower(s[0])] + ToAsciiLowercase(s[1..])
  }

  predicate EqIgnoreAsciiCase(a: string, b: string) {
    |a| == |b| && forall i | 0 <= i < |a| :: Lower(a[i]) == Lower(b[i])
  }

  /** The first editable section that the name stands for. */
  function FirstMatch(editable: seq<string>, caseSensitive: bool, section: string): Option<string> {
    if editable == [] then None
    else if if caseSensitive then editable[0] == section else EqIgnoreAsciiCase(editable[0], section)
         then Some(editable[0])
    else FirstMatch(editable[1..], caseSensitive, section)
  }

  function MatchingSection(section: string, options: Options): Option<string> {
    FirstMatch(options.editable, options.caseSensitive, section)
  }

  function Normalize(section: string, options: Options): string {
    if options.caseSensitive then section else ToAsciiLowercase(section)
  }

  // ---- what a parse finds, line by line -------------------------------------

  /** The editable section that line `n` lies in: the one its closest header above names. */
  function SectionBefore(lines: seq<string>, n: nat, options: Options): Option<string>
    requires n <= |lines|
  {
    if n == 0 then None
    else
      match Classify(Content(lines[n - 1]))
      case Header(name) => MatchingSection(name, options)
      case _ => SectionBefore(lines, n - 1, options)
  }

  /** Line `k` is an assignment in an editable section. */
  predicate IsFieldLine(lines: seq<string>, k: nat, options: Options)
    requires k < |lines|
  {
    SectionBefore(lines, k, options).Some? && Classify(Content(lines[k])).Assignment?
  }

  /** The field lines among the first `n`, in order. */
  function FieldLines(lines: seq<string>, n: nat, options: Options): seq<nat>
    requires n <= |lines|
  {
    if n == 0 then []
    else FieldLines(lines, n - 1, options) + if IsFieldLine(lines, n - 1, options) then [n - 1] else []
  }

  /** The byte position of line `n`. */
  function Offset(lines: seq<string>, n: nat, base: nat): nat
    requires n <= |lines|
  {
    if n == 0 then base else Offset(lines, n - 1, base) + |Encode(lines[n - 1])|
  }

  function FieldAt(lines: seq<string>, k: nat, base: nat, options: Options): Field
    requires k < |lines| && IsFieldLine(lines, k, options)
  {
    var kind := Classify(Content(lines[k]));
    var start := Offset(lines, k, base) + |Encode(lines[k][..kind.at])|;
    Field(Path.FromSegments([SectionBefore(lines, k, options).value, kind.key]),
          Span(start, start + |Encode(kind.value)|))
  }

  function FieldsOfLine(lines: seq<string>, k: nat, base: nat, options: Options): seq<Field>
    requires k < |lines|
  {
    if IsFieldLine(lines, k, options) then [FieldAt(lines, k, base, options)] else []
  }

  function FieldsBefore(lines: seq<string>, n: nat, base: nat, options: Options): seq<Field>
    requires n <= |lines|
  {
    if n == 0 then [] else FieldsBefore(lines, n - 1, base, options) + FieldsOfLine(lines, n - 1, base, options)
  }

  /** The normalised name of the editable section that line `k` opens, if it opens one. */
  function Opens(lines: seq<string>, k: nat, options: Options): Option<string>
    requires k < |lines|
  {
    match Classify(Content(lines[k]))
    case Header(name) =>
      (match MatchingSection(name, options)
       case Some(section) => Some(Normalize(section, options))
       case None => None)
    case _ => None
  }

  function Seen(lines: seq<string>, n: nat, options: Options): set<string>
    requires n <= |lines|
  {
    if n == 0 then {}
    else
      Seen(lines, n - 1, options)
      + match Opens(lines, n - 1, options) case Some(section) => {section} case None => {}
  }

  function Duplicates(lines: seq<string>, n: nat, options: Options): set<string>
    requires n <= |lines|
  {
    if n == 0 then {}
    else
      Duplicates(lines, n - 1, options)
      + match Opens(lines, n - 1, options)
        case Some(section) => (if section in Seen(lines, n - 1, options) then {section} else {})
        case None => {}
  }

  lemma {:induction false} SeenMeans(lines: seq<string>, n: nat, section: string, options: Options)
    requires n <= |lines|
    ensures section in Seen(lines, n, options) <==> exists k | 0 <= k < n :: Opens(lines, k, options) == Some(section)
  {
    hide Opens;
    if n > 0 {
      SeenMeans(lines, n - 1, section, options);
      if Opens(lines, n - 1, options) == Some(section) {
        assert section in Seen(lines, n, options);
      }
    }
  }

  /** A duplicate section is one that at least two headers open. */
  lemma {:induction false} DuplicateMeans(lines: seq<string>, n: nat, section: string, options: Options)
    requires n <= |lines|
    ensures section in Duplicates(lines, n, options)
            <==> exists j, k | 0 <= j < k < n :: Opens(lines, j, options) == Some(section) == Opens(lines, k, options)
  {
    hide Opens, Seen;
    if n > 0 {
      DuplicateMeans(lines, n - 1, section, options);
      SeenMeans(lines, n - 1, section, options);
      if Opens(lines, n - 1, options) == Some(section) {
        assert section in Duplicates(lines, n, options) <==>
               section in Duplicates(lines, n - 1, options) || section in Seen(lines, n - 1, options);
      }
    }
  }

  function TextLines(source: seq<byte>): seq<string>
    requires DetectEncoding(source) != Unsupported
  {
    Lines(Decode(Body(source)).value)
  }

  function ParseOutcome(source: seq<byte>, options: Options): Result<Parsed, ParseError> {
    if DetectEncoding(source) == Unsupported then Err(NotUtf8)
    else
      var lines := TextLines(source);
      Ok(Parsed(FieldsBefore(lines, |lines|, BaseOffset(source), options), Duplicates(lines, |lines|, options)))
  }

  /** The byte arithmetic of the scan: how far into the line the value starts. */
  lemma ValueStartBytes(content: string, equal: nat)
    requires equal < |content| && content[equal] == '='
    ensures var after := content[equal + 1..];
            |Encode(content[..equal])| + 1 + |Encode(after)| - |Encode(TrimStart(after))|
            == |Encode(content[..ValueStart(content, equal)])|
  {
    hide Encode, TrimStart, AllSpace, IsSpace;
    var after := content[equal + 1..];
    var space := after[..|after| - |TrimStart(after)|];
    TrimStartParts(after);
    EncodeConcat(space, TrimStart(after));
    ValuePrefix(content, equal);
    EncodeConcat(content[..equal], ['='] + space);
    EncodeConcat(['='], space);
    EncodeEquals();
  }

  lemma ValuePrefix(content: string, equal: nat)
    requires equal < |content| && content[equal] == '='
    ensures var after := content[equal + 1..];
            content[..ValueStart(content, equal)] == content[..equal] + (['='] + after[..|after| - |TrimStart(after)|])
  {
    hide TrimStart;
  }

  lemma EncodeEquals()
    ensures |Encode(['='])| == 1
  {
    assert ['='][1..] == [];
  }

  /** What the scan knows before line `n`. */
  predicate Scanned(lines: seq<string>, n: nat, base: nat, options: Options, section: Option<string>, seen: set<string>,
      duplicates: set<string>, offset: nat, fields: seq<Field>)
    requires n <= |lines|
  {
    && section == SectionBefore(lines, n, options) && seen == Seen(lines, n, options)
    && duplicates == Duplicates(lines, n, options) && offset == Offset(lines, n, base)
    && fields == FieldsBefore(lines, n, base, options)
  }

  lemma ScannedNothing(lines: seq<string>, base: nat, options: Options)
    ensures Scanned(lines, 0, base, options, None, {}, {}, base, [])
  {
  }

  lemma ScannedOther(lines: seq<string>, n: nat, base: nat, options: Options, section: Option<string>,
      seen: set<string>, duplicates: set<string>, offset: nat, fields: seq<Field>)
    requires n < |lines| && Scanned(lines, n, base, options, section, seen, duplicates, offset, fields)
    requires !Classify(Content(lines[n])).Header? && (section.None? || !Classify(Content(lines[n])).Assignment?)
    ensures Scanned(lines, n + 1, base, options, section, seen, duplicates, offset + |Encode(lines[n])|, fields)
  {
    hide Classify, Content, Encode, FieldAt;
    assert fields + [] == fields;
  }

  lemma ScannedHeader(lines: seq<string>, n: nat, base: nat, options: Options, section: Option<string>,
      seen: set<string>, duplicates: set<string>, offset: nat, fields: seq<Field>)
    requires n < |lines| && Scanned(lines, n, base, options, section, seen, duplicates, offset, fields)
    requires Classify(Content(lines[n])).Header?
    ensures var entered := MatchingSection(Classify(Content(lines[n])).name, options);
            var name := if entered.Some? then {Normalize(entered.value, options)} else {};
            Scanned(lines, n + 1, base, options, entered, seen + name, duplicates + name * seen,
                    offset + |Encode(lines[n])|, fields)
  {
    hide Classify, Content, Encode, FieldAt, MatchingSection, Normalize;
    assert fields + [] == fields;
  }

  lemma ScannedField(lines: seq<string>, n: nat, base: nat, options: Options, section: Option<string>,
      seen: set<string>, duplicates: set<string>, offset: nat, fields: seq<Field>)
    requires n < |lines| && Scanned(lines, n, base, options, section, seen, duplicates, offset, fields)
    requires Classify(Content(lines[n])).Assignment? && section.Some?
    ensures var kind := Classify(Content(lines[n]));
            kind.at <= |lines[n]|
            && var start := offset + |Encode(lines[n][..kind.at])|;
               Scanned(lines, n + 1, base, options, section, seen, duplicates, offset + |Encode(lines[n])|,
                       fields + [Field(Path.FromSegments([section.value, kind.key]),
                                       Span(start, start + |Encode(kind.value)|))])
  {
    hide Classify, Content, Encode, Path.FromSegments;
  }

  method ParseIniLike(source: seq<byte>, options: Options) returns (r: Result<Parsed, ParseError>)
    ensures r == ParseOutcome(source, options)
  {
    hide Valid, Body, HasBom, BaseOffset, Encode, Decode, Lines, Content, Trim, TrimStart, TrimEnd, IsComment, IsHeader,
      IsSafeKey, Find, ValueStart, MatchingSection, Normalize, Path.FromSegments, Scanned;
    if DetectEncoding(source) == Unsupported {
      return Err(NotUtf8);
    }
    DecodeBody(source);
    var lines := Lines(Decode(Body(source)).value);
    var fields: seq<Field> := [];
    var seen: set<string>, duplicates: set<string> := {}, {};
    var section: Option<string> := None;
    var offset: nat := BaseOffset(source);
    ghost var base := offset;
    ScannedNothing(lines, base, options);
    for i := 0 to |lines|
      invariant Scanned(lines, i, base, options, section, seen, duplicates, offset, fields)
    {
      var line := lines[i];
      var content := Content(line);
      var trimmed := Trim(content);
      if IsComment(trimmed) {
        ScannedOther(lines, i, base, options, section, seen, duplicates, offset, fields);
        offset := offset + |Encode(line)|;
        continue;
      }
      if IsHeader(trimmed) {
        HeaderLength(trimmed);
        var rawSection := Trim(trimmed[1..|trimmed| - 1]);
        ScannedHeader(lines, i, base, options, section, seen, duplicates, offset, fields);
        section := MatchingSection(rawSection, options);
        if section.Some? {
          var normalized := Normalize(section.value, options);
          Filed(normalized, seen, duplicates);
          if normalized in seen {
            duplicates := duplicates + {normalized};
          } else {
            seen := seen + {normalized};
          }
        } else {
          assert seen + {} == seen && duplicates + {} * seen == duplicates;
        }
        offset := offset + |Encode(line)|;
        continue;
      }
      if section.None? {
        ScannedOther(lines, i, base, options, section, seen, duplicates, offset, fields);
        offset := offset + |Encode(line)|;
        continue;
      }
      var equal := Find(content, '=');
      if equal == |content| {
        ScannedOther(lines, i, base, options, section, seen, duplicates, offset, fields);
        offset := offset + |Encode(line)|;
        continue;
      }
      var key := Trim(content[..equal]);
      if !IsSafeKey(key) {
        ScannedOther(lines, i, base, options, section, seen, duplicates, offset, fields);
        offset := offset + |Encode(line)|;
        continue;
      }
      var afterEqual := content[equal + 1..];
      ValueStartBytes(content, equal);
      var at := ValueStart(content, equal);
      assert line[..at] == content[..at];
      ScannedField(lines, i, base, options, section, seen, duplicates, offset, fields);
      var valueStart := offset + |Encode(content[..equal])| + 1
        + |Encode(afterEqual)| - |Encode(TrimStart(afterEqual))|;
      var value := TrimEnd(content[at..]);
      fields := fields
        + [Field(Path.FromSegments([section.value, key]), Span(valueStart, valueStart + |Encode(value)|))];
      offset := offset + |Encode(line)|;
    }
    ScannedAll(lines, base, options, section, seen, duplicates, offset, fields);
    r := Ok(Parsed(fields, duplicates));
  }

  lemma ScannedAll(lines: seq<string>, base: nat, options: Options, section: Option<string>, seen: set<string>,
      duplicates: set<string>, offset: nat, fields: seq<Field>)
    requires Scanned(lines, |lines|, base, options, section, seen, duplicates, offset, fields)
    ensures fields == FieldsBefore(lines, |lines|, base, options) && duplicates == Duplicates(lines, |lines|, options)
  {
  }

  /** A name is noted as seen, and as a duplicate if it was. */
  lemma Filed(name: string, seen: set<string>, duplicates: set<string>)
    ensures name in seen ==> seen + {name} == seen && duplicates + {name} * seen == duplicates + {name}
    ensures name !in seen ==> duplicates + {name} * seen == duplicates
  {
  }

  lemma HeaderLength(trimmed: string)
    requires IsHeader(trimmed)
    ensures |trimmed| >= 2
  {
  }

  lemma DecodeBody(source: seq<byte>)
    requires DetectEncoding(source) != Unsupported
    ensures Decode(Body(source)).Some?
  {
  }

  // ---- the edit -------------------------------------------------------------

  /** The fields with a given path. */
  function Matches(fields: seq<Field>, path: string): seq<Field> {
    if fields == [] then []
    else (if fields[0].path == path then [fields[0]] else []) + Matches(fields[1..], path)
  }

  predicate Within(span: Span, source: seq<byte>) {
    span.start <= span.end <= |source|
  }

  function Bytes(span: Span, source: seq<byte>): seq<byte>
    requires Within(span, source)
  {
    source[span.start..span.end]
  }

  /** No inline comment can start inside the bytes. */
  predicate NoCommentMark(b: seq<byte>) {
    0x23 !in b && 0x3B !in b
  }

  /** The path that a parse gives to the addressed field, when the path is one of section and key and the
      section is editable. */
  function Canonical(path: string, options: Options): Option<string> {
    match Path.DecodedSegments(path)
    case None => None
    case Some(segments) =>
      if |segments| != 2 then None
      else
        match MatchingSection(segments[0], options)
        case None => None
        case Some(section) => Some(Path.FromSegments([section, segments[1]]))
  }

  predicate SectionDuplicated(path: string, duplicates: set<string>, options: Options)
    requires Canonical(path, options).Some?
  {
    var section := MatchingSection(Path.DecodedSegments(path).value[0], options).value;
    Normalize(section, options) in duplicates
  }

  function EditOutcome(source: seq<byte>, path: string, replacement: string,
      options: Options): Result<seq<byte>, EditError> {
    match Canonical(path, options)
    case None => Err(UnsupportedEdit)
    case Some(canonical) =>
      match ParseOutcome(source, options)
      case Err(_) => Err(ParseFailed)
      case Ok(parsed) =>
        if SectionDuplicated(path, parsed.duplicates, options) then Err(AmbiguousField(path))
        else
          var matches := Matches(parsed.fields, canonical);
          if |matches| == 0 then Err(FieldNotFound(path))
          else if |matches| > 1 then Err(AmbiguousField(path))
          else
            var span := matches[0].span;
            if !Within(span, source) then Err(ParseFailed)
            else if !NoCommentMark(Bytes(span, source)) then Err(UnsupportedEdit)
            else if !SafeReplacement(replacement) then Err(UnsafeValue)
            else Ok(Splice(source, span.start, span.end, Encode(replacement)))
  }

  method ValueEdit(source: seq<byte>, path: string, replacement: string, options: Options)
    returns (r: Result<seq<byte>, EditError>)
    requires Path.IsPointer(path)
    ensures r == EditOutcome(source, path, replacement, options)
  {
    hide ParseOutcome, MatchingSection, Normalize, Path.FromSegments, Path.DecodedSegments, Matches, Encode, Splice;
    Path.PointerRoundTrip(path);
    var segments := Path.DecodedSegments(path).value;
    if |segments| != 2 {
      return Err(UnsupportedEdit);
    }
    var editableSection := MatchingSection(segments[0], options);
    if editableSection.None? {
      return Err(UnsupportedEdit);
    }
    var parsed := ParseIniLike(source, options);
    if parsed.Err? {
      return Err(ParseFailed);
    }
    if Normalize(editableSection.value, options) in parsed.value.duplicates {
      return Err(AmbiguousField(path));
    }
    var matches := Matches(parsed.value.fields, Path.FromSegments([editableSection.value, segments[1]]));
    if |matches| == 0 {
      return Err(FieldNotFound(path));
    }
    if |matches| > 1 {
      return Err(AmbiguousField(path));
    }
    var span := matches[0].span;
    if span.start > span.end || span.end > |source| {
      return Err(ParseFailed);
    }
    var current := source[span.start..span.end];
    if 0x23 in current || 0x3B in current {
      return Err(UnsupportedEdit);
    }
    if replacement == [] || '\r' in replacement || '\n' in replacement {
      return Err(UnsafeValue);
    }
    r := ApplySpanPatch(source, span, Encode(replacement));
  }
}
