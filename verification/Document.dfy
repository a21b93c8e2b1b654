/** Native documents: byte-order mark, encoding, line-ending class, byte spans and the span patch
    that every structured edit ends in (`document.rs`, `patch.rs`). */
module Document {
  import opened Wrappers
  import opened Utf8

  datatype Span = Span(start: nat, end: nat)

  datatype SourceEncoding = Utf8 | Utf8Bom | Unsupported

  datatype LineEnding = Lf | CrLf | Mixed | NoEnding

  datatype EditError =
    | ParseFailed
    | FieldNotFound(path: string)
    | AmbiguousField(path: string)
    | UnsafeValue
    | UnsupportedEdit

  const LF: byte := 0x0A
  const CR: byte := 0x0D
  const BOM: seq<byte> := [0xEF, 0xBB, 0xBF]

  predicate HasBom(source: seq<byte>) {
    BOM <= source
  }

  function BaseOffset(source: seq<byte>): (n: nat)
    ensures n <= |source|
  {
    if HasBom(source) then 3 else 0
  }

  /** The document without its leading byte-order mark, if it has one. */
  function Body(source: seq<byte>): seq<byte> {
    source[BaseOffset(source)..]
  }

  function DetectEncoding(source: seq<byte>): SourceEncoding {
    if !Valid(Body(source)) then Unsupported
    else if HasBom(source) then Utf8Bom
    else SourceEncoding.Utf8
  }

  /** An encoded text starts with the byte-order mark just when its first character is U+FEFF. */
  lemma MarkIsFirst(s: string)
    ensures HasBom(Encode(s)) <==> s != [] && s[0] == '\U{FEFF}'
  {
    if s != [] {
      var b := Encode(s);
      DecodeCharOfEncode(s[0], Encode(s[1..]));
      EncodeMark();
      hide EncodeChar;
      if s[0] == '\U{FEFF}' {
        assert b[..3] == BOM;
      } else if HasBom(b) {
        DecodeMark(b);
      }
    }
  }

  lemma EncodeMark()
    ensures EncodeChar('\U{FEFF}') == BOM
  {
  }

  lemma DecodeMark(b: seq<byte>)
    requires HasBom(b)
    ensures DecodeChar(b) == Some('\U{FEFF}')
  {
    assert b[0] == BOM[0] && b[1] == BOM[1] && b[2] == BOM[2];
  }

  // ---- line endings ---------------------------------------------------------

  /** A line feed at `i` with a carriage return right before it. */
  predicate CrLfAt(b: seq<byte>, i: nat) {
    0 < i < |b| && b[i] == LF && b[i - 1] == CR
  }

  predicate LoneLfAt(b: seq<byte>, i: nat) {
    i < |b| && b[i] == LF && (i == 0 || b[i - 1] != CR)
  }

  ghost predicate SomeCrLf(b: seq<byte>) {
    exists i :: CrLfAt(b, i)
  }

  ghost predicate SomeLoneLf(b: seq<byte>) {
    exists i :: LoneLfAt(b, i)
  }

  /** Which of the two line endings occur. */
  ghost function LineEndingOf(b: seq<byte>): LineEnding {
    if SomeLoneLf(b) then (if SomeCrLf(b) then Mixed else Lf)
    else if SomeCrLf(b) then CrLf
    else NoEnding
  }

  /** Which of the two line endings end before position `n`. */
  ghost predicate CrLfBefore(b: seq<byte>, n: nat) {
    exists i | 0 <= i < n :: CrLfAt(b, i)
  }

  ghost predicate LoneLfBefore(b: seq<byte>, n: nat) {
    exists i | 0 <= i < n :: LoneLfAt(b, i)
  }

  lemma EndingsStep(b: seq<byte>, n: nat)
    ensures CrLfBefore(b, n + 1) <==> CrLfBefore(b, n) || CrLfAt(b, n)
    ensures LoneLfBefore(b, n + 1) <==> LoneLfBefore(b, n) || LoneLfAt(b, n)
  {
  }

  lemma NothingBefore(b: seq<byte>)
    ensures !CrLfBefore(b, 0) && !LoneLfBefore(b, 0)
  {
  }

  /** The two counters decide the class. */
  lemma EndingByCounts(b: seq<byte>, lf: nat, crlf: nat)
    requires lf > 0 <==> LoneLfBefore(b, |b|)
    requires crlf > 0 <==> CrLfBefore(b, |b|)
    ensures LineEndingOf(b)
            == if lf == 0 then (if crlf == 0 then NoEnding else CrLf) else if crlf == 0 then Lf else Mixed
  {
  }

  method DetectLineEnding(source: seq<byte>) returns (ending: LineEnding)
    ensures ending == LineEndingOf(source)
  {
    hide CrLfBefore, LoneLfBefore, LineEndingOf;
    var lf, crlf := 0, 0;
    var index := 0;
    NothingBefore(source);
    while index < |source|
      invariant 0 <= index <= |source|
      invariant 0 <= lf && 0 <= crlf
      invariant lf > 0 <==> LoneLfBefore(source, index)
      invariant crlf > 0 <==> CrLfBefore(source, index)
    {
      EndingsStep(source, index);
      if source[index] == LF {
        if index > 0 && source[index - 1] == CR {
          crlf := crlf + 1;
        } else {
          lf := lf + 1;
        }
      }
      index := index + 1;
    }
    EndingByCounts(source, lf, crlf);
    if lf == 0 && crlf == 0 {
      ending := NoEnding;
    } else if lf == 0 {
      ending := CrLf;
    } else if crlf == 0 {
      ending := Lf;
    } else {
      ending := Mixed;
    }
  }

  predicate TrailingNewline(source: seq<byte>) {
    source != [] && source[|source| - 1] == LF
  }

  // ---- span patches ---------------------------------------------------------

  /** `source` with the part from `start` to `end` replaced. */
  function Splice<T>(source: seq<T>, start: nat, end: nat, replacement: seq<T>): (r: seq<T>)
    requires start <= end <= |source|
    ensures |r| == |source| - (end - start) + |replacement|
  {
    source[..start] + replacement + source[end..]
  }

  method ApplySpanPatch(source: seq<byte>, span: Span, replacement: seq<byte>)
    returns (r: Result<seq<byte>, EditError>)
    ensures r == if span.start <= span.end <= |source|
                 then Ok(Splice(source, span.start, span.end, replacement)) else Err(ParseFailed)
  {
    if span.start > span.end || span.end > |source| {
      return Err(ParseFailed);
    }
    var output: seq<byte> := [];
    output := output + source[..span.start];
    assert output == source[..span.start];
    output := output + replacement;
    output := output + source[span.end..];
    return Ok(output);
  }

  lemma SpliceRight<T>(x: seq<T>, y: seq<T>, start: nat, end: nat, r: seq<T>)
    requires start <= end <= |y|
    ensures Splice(x + y, |x| + start, |x| + end, r) == x + Splice(y, start, end, r)
  {
    assert (x + y)[..|x| + start] == x + y[..start];
    assert (x + y)[|x| + end..] == y[end..];
  }

  lemma SpliceLeft<T>(x: seq<T>, y: seq<T>, start: nat, end: nat, r: seq<T>)
    requires start <= end <= |x|
    ensures Splice(x + y, start, end, r) == Splice(x, start, end, r) + y
  {
    assert (x + y)[..start] == x[..start];
    assert (x + y)[end..] == x[end..] + y;
  }

  lemma SpliceMiddle<T>(x: seq<T>, m: seq<T>, y: seq<T>, r: seq<T>)
    ensures Splice(x + (m + y), |x|, |x| + |m|, r) == x + (r + y)
  {
    SpliceRight(x, m + y, 0, |m|, r);
    assert (m + y)[|m|..] == y;
    assert Splice(m + y, 0, |m|, r) == r + y;
  }

  /** Replacing a part of a middle piece is replacing the middle piece by itself with that part
      replaced. */
  lemma SpliceWithin<T>(x: seq<T>, m: seq<T>, y: seq<T>, start: nat, end: nat, r: seq<T>)
    requires start <= end <= |m|
    ensures Splice(x + (m + y), |x| + start, |x| + end, r) == x + (Splice(m, start, end, r) + y)
  {
    SpliceRight(x, m + y, start, end, r);
    SpliceLeft(m, y, start, end, r);
  }

  /** Splicing over what was just spliced in. */
  lemma SpliceOver<T>(s: seq<T>, a: nat, b: nat, r: seq<T>, t: seq<T>)
    requires a <= b <= |s|
    ensures Splice(Splice(s, a, b, r), a, a + |r|, t) == Splice(s, a, b, t)
  {
    var once := Splice(s, a, b, r);
    assert once[..a] == s[..a] && once[a + |r|..] == s[b..];
  }

  /** Splices of disjoint parts commute once the later part's position is adjusted. */
  lemma SplicesCommute<T>(s: seq<T>, a: nat, b: nat, c: nat, d: nat, r: seq<T>, t: seq<T>)
    requires a <= b <= c <= d <= |s|
    ensures var (c', d') := (c - (b - a) + |r|, d - (b - a) + |r|);
            && Splice(Splice(s, a, b, r), c', d', t) == Splice(Splice(s, c, d, t), a, b, r)
            && Splice(s, a, b, r)[c'..d'] == s[c..d] && Splice(s, c, d, t)[a..b] == s[a..b]
  {
    var m := s[b..c];
    var first, second := Splice(s, a, b, r), Splice(s, c, d, t);
    var c', d' := c - (b - a) + |r|, d - (b - a) + |r|;
    assert s[b..] == m + s[c..];
    assert first == s[..a] + r + (m + s[c..]);
    assert first[..c'] == s[..a] + r + m;
    assert first[d'..] == s[d..];
    assert second[..a] == s[..a];
    assert second[b..] == m + t + s[d..];
  }
}
