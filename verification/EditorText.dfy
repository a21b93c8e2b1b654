/** Native bytes and the text an editor can hold (`bytes.ts`): decoding normalises line endings and drops the
    byte-order mark, encoding puts them back. Text is a sequence of Unicode scalar values. */
module EditorText {
  import opened Wrappers
  import opened Utf8
  import opened Document
  import RevisionDiff

  const FEFF: char := '\U{FEFF}'

  datatype DocumentInfo = DocumentInfo(encoding: SourceEncoding, ending: LineEnding, trailingNewline: bool,
      byteLength: nat)

  method DetectEditorLineEnding(bytes: seq<byte>) returns (ending: LineEnding)
    ensures ending == LineEndingOf(bytes)
  {
    hide CrLfBefore, LoneLfBefore, LineEndingOf;
    var lf, crlf := 0, 0;
    NothingBefore(bytes);
    for index := 0 to |bytes|
      invariant 0 <= lf && 0 <= crlf
      invariant lf > 0 <==> LoneLfBefore(bytes, index)
      invariant crlf > 0 <==> CrLfBefore(bytes, index)
    {
      EndingsStep(bytes, index);
      if bytes[index] != 0x0A {
        continue;
      }
      if index > 0 && bytes[index - 1] == 0x0D {
        crlf := crlf + 1;
      } else {
        lf := lf + 1;
      }
    }
    EndingByCounts(bytes, lf, crlf);
    if lf == 0 && crlf == 0 {
      return NoEnding;
    }
    if lf == 0 {
      return CrLf;
    }
    if crlf == 0 {
      return Lf;
    }
    return Mixed;
  }

  ghost function Info(bytes: seq<byte>): DocumentInfo {
    DocumentInfo(DetectEncoding(bytes), LineEndingOf(bytes), TrailingNewline(bytes), |bytes|)
  }

  /** A `TextDecoder` made without `ignoreBOM` drops one leading mark of what it is given. */
  function TextDecode(b: seq<byte>): Option<string> {
    Decode(Body(b))
  }

  predicate HasSecondMark(bytes: seq<byte>) {
    HasBom(bytes) && HasBom(bytes[3..])
  }

  // ---- replacing line endings -----------------------------------------------

  predicate StartsCrLf(s: string) {
    |s| >= 2 && s[0] == '\r' && s[1] == '\n'
  }

  /** Every carriage return before a line feed removed. */
  function ToLf(s: string): string
    decreases |s|
  {
    if s == [] then []
    else if StartsCrLf(s) then ['\n'] + ToLf(s[2..])
    else [s[0]] + ToLf(s[1..])
  }

  /** A carriage return put before every line feed. */
  function ToCrLf(s: string): string {
    if s == [] then [] else (if s[0] == '\n' then "\r\n" else [s[0]]) + ToCrLf(s[1..])
  }

  predicate CrLfIn(s: string) {
    exists i | 0 < i < |s| :: s[i - 1] == '\r' && s[i] == '\n'
  }

  predicate LoneLfIn(s: string) {
    exists i | 0 <= i < |s| :: s[i] == '\n' && (i == 0 || s[i - 1] != '\r')
  }

  lemma CrLfTail(s: string)
    requires s != []
    ensures CrLfIn(s) <==> StartsCrLf(s) || CrLfIn(s[1..])
  {
    var t := s[1..];
    if CrLfIn(s) && !StartsCrLf(s) {
      var i :| 0 < i < |s| && s[i - 1] == '\r' && s[i] == '\n';
      assert t[i - 2] == '\r' && t[i - 1] == '\n';
    }
    if CrLfIn(t) {
      var i :| 0 < i < |t| && t[i - 1] == '\r' && t[i] == '\n';
      assert s[i] == '\r' && s[i + 1] == '\n';
    }
    if StartsCrLf(s) {
      assert s[1 - 1] == '\r' && s[1] == '\n';
    }
  }

  lemma {:induction false} ToLfShrinks(s: string)
    ensures |ToLf(s)| <= |s|
    ensures CrLfIn(s) ==> |ToLf(s)| < |s|
    decreases |s|
  {
    if s != [] {
      hide CrLfIn;
      CrLfTail(s);
      if StartsCrLf(s) {
        ToLfShrinks(s[2..]);
      } else {
        ToLfShrinks(s[1..]);
      }
    }
  }

  /** Text without CRLF is left alone. */
  lemma {:induction false} ToLfIdentity(s: string)
    requires !CrLfIn(s)
    ensures ToLf(s) == s
  {
    hide CrLfIn;
    if s != [] {
      CrLfTail(s);
      ToLfIdentity(s[1..]);
    }
  }

  /** Expanding and normalising again gives back any text, also one that has carriage returns. */
  lemma {:induction false} ToLfOfToCrLf(s: string)
    ensures ToLf(ToCrLf(s)) == s
  {
    if s != [] {
      var t := ToCrLf(s);
      var rest := ToCrLf(s[1..]);
      ToLfOfToCrLf(s[1..]);
      if s[0] == '\n' {
        assert t[2..] == rest;
      } else {
        assert t[1..] == rest;
        CrLfHead(s[1..]);
        assert |t| >= 2 ==> t[1] == rest[0];
      }
      assert s == [s[0]] + s[1..];
    }
  }

  lemma CrLfHead(s: string)
    ensures ToCrLf(s) != [] ==> ToCrLf(s)[0] != '\n'
  {
  }

  /** A lone line feed stays alone when a whole unit is put in front of it. */
  lemma LoneLfUp(s: string)
    requires s != []
    ensures s[0] == '\n' ==> LoneLfIn(s)
    ensures StartsCrLf(s) && LoneLfIn(s[2..]) ==> LoneLfIn(s)
    ensures !StartsCrLf(s) && LoneLfIn(s[1..]) ==> LoneLfIn(s)
  {
    var n := if StartsCrLf(s) then 2 else 1;
    var t := s[n..];
    if LoneLfIn(t) {
      var i :| 0 <= i < |t| && t[i] == '\n' && (i == 0 || t[i - 1] != '\r');
      assert s[i + n] == '\n';
      assert i > 0 ==> s[i + n - 1] == t[i - 1];
      if i == 0 && n == 2 {
        assert s[1] == '\n' && s[2] == '\n';
      }
    }
  }

  /** Normalising and expanding again gives back text in which every line feed follows a carriage return. */
  lemma {:induction false} ToCrLfOfToLf(s: string)
    requires !LoneLfIn(s)
    ensures ToCrLf(ToLf(s)) == s
    decreases |s|
  {
    hide LoneLfIn;
    if s != [] {
      LoneLfUp(s);
      var t := ToLf(s);
      if StartsCrLf(s) {
        ToCrLfOfToLf(s[2..]);
        assert t[1..] == ToLf(s[2..]);
        assert s == "\r\n" + s[2..];
      } else {
        ToCrLfOfToLf(s[1..]);
        assert t[1..] == ToLf(s[1..]);
        assert s == [s[0]] + s[1..];
      }
    }
  }

  // ---- line endings of bytes and of text ------------------------------------

  lemma {:induction false} LoneLfBytes(s: string)
    ensures SomeLoneLf(Encode(s)) <==> LoneLfIn(s)
    ensures SomeCrLf(Encode(s)) <==> CrLfIn(s)
    decreases |s|
  {
    hide Encode, EncodeChar, SomeLoneLf, SomeCrLf, LoneLfIn, CrLfIn;
    if s == [] {
      NothingEnds();
    } else {
      var k := |s| - 1;
      var front, last := s[..k], s[k];
      LoneLfBytes(front);
      EncodeSplit(s, k);
      assert s[k..] == [last] && s == front + [last];
      EncodeOne(last);
      LastReturn(front);
      EncodedFeed(last);
      EndingsAppend(Encode(front), EncodeChar(last));
      TextAppend(front, last);
    }
  }

  lemma NothingEnds()
    ensures Encode([]) == [] && !SomeLoneLf([]) && !SomeCrLf([]) && !LoneLfIn([]) && !CrLfIn([])
  {
  }

  lemma LastReturn(front: string)
    ensures Encode(front) == [] <==> front == []
    ensures front != [] ==> (Encode(front)[|Encode(front)| - 1] == CR <==> front[|front| - 1] == '\r')
  {
    if front != [] {
      LastEncoded(front, '\r');
    }
  }

  /** A character is a line feed exactly when it is encoded as the one byte. */
  lemma EncodedFeed(c: char)
    ensures EncodeChar(c) == [LF] || LF !in EncodeChar(c)
    ensures EncodeChar(c) == [LF] <==> c == '\n'
  {
    AsciiHead(c, '\n');
    EncodeAscii(c);
  }

  lemma EncodeOne(c: char)
    ensures Encode([c]) == EncodeChar(c)
  {
    assert [c][1..] == [] && EncodeChar(c) + [] == EncodeChar(c);
  }

  lemma EndingsAppend(b: seq<byte>, e: seq<byte>)
    requires e == [LF] || LF !in e
    ensures SomeLoneLf(b + e) <==> SomeLoneLf(b) || (e == [LF] && (b == [] || b[|b| - 1] != CR))
    ensures SomeCrLf(b + e) <==> SomeCrLf(b) || (e == [LF] && b != [] && b[|b| - 1] == CR)
  {
    var x := b + e;
    assert forall i | 0 <= i < |b| :: x[i] == b[i];
    assert forall i | |b| <= i < |x| :: x[i] == e[i - |b|];
    forall i: nat | LoneLfAt(x, i)
      ensures SomeLoneLf(b) || (e == [LF] && (b == [] || b[|b| - 1] != CR))
    {
      assert i < |b| ==> LoneLfAt(b, i);
    }
    forall i: nat | LoneLfAt(b, i)
      ensures SomeLoneLf(x)
    {
      assert LoneLfAt(x, i);
    }
    forall i: nat | CrLfAt(x, i)
      ensures SomeCrLf(b) || (e == [LF] && b != [] && b[|b| - 1] == CR)
    {
      assert i < |b| ==> CrLfAt(b, i);
    }
    forall i: nat | CrLfAt(b, i)
      ensures SomeCrLf(x)
    {
      assert CrLfAt(x, i);
    }
    if e == [LF] {
      assert x[|b|] == LF;
      if b != [] && b[|b| - 1] == CR {
        assert CrLfAt(x, |b|);
      } else {
        assert LoneLfAt(x, |b|);
      }
    }
  }

  lemma TextAppend(s: string, c: char)
    ensures LoneLfIn(s + [c]) <==> LoneLfIn(s) || (c == '\n' && (s == [] || s[|s| - 1] != '\r'))
    ensures CrLfIn(s + [c]) <==> CrLfIn(s) || (c == '\n' && s != [] && s[|s| - 1] == '\r')
  {
    var x := s + [c];
    assert forall i | 0 <= i < |s| :: x[i] == s[i];
    assert x[|s|] == c;
  }

  // ---- the editor text ------------------------------------------------------

  /** The decoded, LF-normalised text; None for invalid UTF-8, which is shown with replacement characters. */
  function EditorTextOf(bytes: seq<byte>): Option<string> {
    match TextDecode(Body(bytes))
    case None => None
    case Some(raw) => Some(ToLf(raw))
  }

  /** None stands for the error that is thrown. */
  function EncodeFromEditor(text: string, info: DocumentInfo, original: Option<seq<byte>>): Option<seq<byte>> {
    if info.ending == Mixed then
      (if original.Some? && EditorTextOf(original.value) == Some(text) then original else None)
    else
      var encoded := Encode(if info.ending == CrLf then ToCrLf(text) else text);
      Some(if info.encoding == Utf8Bom then BOM + encoded else encoded)
  }

  /** Restoring the line endings of a body of one class gives back the body. */
  lemma BodyRestored(b: seq<byte>)
    requires Valid(b) && LineEndingOf(b) != Mixed
    ensures var text := ToLf(Decode(b).value);
            Encode(if LineEndingOf(b) == CrLf then ToCrLf(text) else text) == b
  {
    hide Encode, Decode, ToLf, ToCrLf, LoneLfIn, CrLfIn, SomeLoneLf, SomeCrLf;
    var raw := Decode(b).value;
    EncodeOfDecode(b);
    LoneLfBytes(raw);
    if LineEndingOf(b) == CrLf {
      ToCrLfOfToLf(raw);
    } else {
      ToLfIdentity(raw);
    }
  }

  /** THE BYTES ROUND TRIP. For valid UTF-8, decoding and encoding again is the identity exactly when the
      line endings are mixed (the original bytes are kept) or there is no second byte-order mark. */
  lemma BytesRoundTrip(bytes: seq<byte>)
    requires DetectEncoding(bytes) != Unsupported
    ensures EditorTextOf(bytes).Some?
    ensures EncodeFromEditor(EditorTextOf(bytes).value, Info(bytes), Some(bytes)) == Some(bytes)
            <==> LineEndingOf(bytes) == Mixed || !HasSecondMark(bytes)
  {
    hide Encode, Decode, ToLf, ToCrLf, LineEndingOf, HasBom;
    var b := Body(bytes);
    var inner := Body(b);
    InnerValid(b);
    RevisionDiff.BodyEndings(bytes);
    RevisionDiff.BodyEndings(b);
    if LineEndingOf(bytes) != Mixed {
      BodyRestored(inner);
      MarkSplit(bytes);
      if HasBom(b) {
        MarkLong(b);
        NoMarkTwice(bytes);
      }
    }
  }

  lemma InnerValid(b: seq<byte>)
    requires Valid(b)
    ensures Valid(Body(b))
  {
    if HasBom(b) {
      DecodeMark(b);
      assert Width(b) == 3 by {
        assert b[0] == BOM[0] && b[1] == BOM[1] && b[2] == BOM[2];
      }
    }
  }

  lemma MarkSplit(bytes: seq<byte>)
    ensures HasBom(bytes) ==> bytes == BOM + Body(bytes)
    ensures !HasBom(bytes) ==> bytes == Body(bytes)
  {
  }

  lemma MarkLong(b: seq<byte>)
    requires HasBom(b)
    ensures |b| == |b[3..]| + 3 && |BOM| == 3
  {
  }

  lemma NoMarkTwice(bytes: seq<byte>)
    requires HasBom(Body(bytes))
    ensures HasBom(bytes) && HasSecondMark(bytes)
  {
    MarkSplit(bytes);
  }

  // ---- from text to bytes and back ------------------------------------------

  /** What cannot be written back: in a document of mixed endings only the text as it was shown is, and as the bytes it
      was shown from; any other text is refused. */
  lemma MixedIsRefused(text: string, info: DocumentInfo, original: seq<byte>)
    requires info.ending == Mixed
    ensures EncodeFromEditor(text, info, None).None?
    ensures EncodeFromEditor(text, info, Some(original)).Some? <==> EditorTextOf(original) == Some(text)
    ensures EditorTextOf(original) == Some(text) ==> EncodeFromEditor(text, info, Some(original)) == Some(original)
  {
  }

  /** The text without one leading U+FEFF. */
  function DropMark(s: string): string {
    if s != [] && s[0] == FEFF then s[1..] else s
  }

  lemma BodyOfText(s: string)
    ensures Body(Encode(s)) == Encode(DropMark(s))
    ensures TextDecode(Encode(s)) == Some(DropMark(s))
  {
    hide EncodeChar;
    MarkIsFirst(s);
    DecodeOfEncode(DropMark(s));
    if HasBom(Encode(s)) {
      EncodeMark();
      assert Encode(s)[3..] == Encode(s[1..]);
    } else {
      assert Encode(s)[0..] == Encode(s);
    }
  }

  lemma DropOfToCrLf(s: string)
    ensures DropMark(ToCrLf(s)) == ToCrLf(DropMark(s))
  {
    if s != [] {
      assert ToCrLf(s)[1..] == (if s[0] == '\n' then "\n" else []) + ToCrLf(s[1..]);
    }
  }

  /** What the editor shows of an encoded text: the same text, less its leading marks. */
  lemma ShownAfterEncode(text: string, info: DocumentInfo, original: Option<seq<byte>>)
    requires info.ending != Mixed
    ensures var bytes := EncodeFromEditor(text, info, original).value;
            var kept := if info.encoding == Utf8Bom then DropMark(text) else DropMark(DropMark(text));
            EditorTextOf(bytes) == Some(if info.ending == CrLf then kept else ToLf(kept))
  {
    hide Encode, ToLf, ToCrLf, DropMark, TextDecode;
    var body := if info.ending == CrLf then ToCrLf(text) else text;
    var kept := if info.encoding == Utf8Bom then DropMark(text) else DropMark(DropMark(text));
    DropOfToCrLf(text);
    DropOfToCrLf(DropMark(text));
    ToLfOfToCrLf(kept);
    BodyOfText(body);
    BodyOfText(DropMark(body));
    if info.encoding == Utf8Bom {
      assert Body(BOM + Encode(body)) == Encode(body);
    }
  }

  /** THE TEXT ROUND TRIP. For well-formed text, encoding and decoding again is the identity exactly when the
      text does not start with U+FEFF and, unless the document uses CRLF, contains no CRLF itself. */
  lemma TextRoundTrip(text: string, info: DocumentInfo, original: Option<seq<byte>>)
    requires info.ending != Mixed
    ensures var bytes := EncodeFromEditor(text, info, original).value;
            EditorTextOf(bytes) == Some(text)
            <==> (text == [] || text[0] != FEFF) && (info.ending == CrLf || !CrLfIn(text))
  {
    hide EncodeFromEditor, EditorTextOf, CrLfIn, ToLf;
    ShownAfterEncode(text, info, original);
    var kept := if info.encoding == Utf8Bom then DropMark(text) else DropMark(DropMark(text));
    ToLfShrinks(kept);
    if kept == text {
      if !CrLfIn(text) {
        ToLfIdentity(text);
      }
    }
  }

  lemma {:induction false} NoLoneLf(s: string)
    ensures !LoneLfIn(ToCrLf(s))
  {
    if s != [] {
      var k := |s| - 1;
      NoLoneLf(s[1..]);
      var rest := ToCrLf(s[1..]);
      CrLfHead(s[1..]);
      hide ToCrLf;
      PutBefore(if s[0] == '\n' then "\r\n" else [s[0]], rest);
      assert ToCrLf(s) == (if s[0] == '\n' then "\r\n" else [s[0]]) + rest by {
        CrLfStep(s);
      }
    }
  }

  lemma CrLfStep(s: string)
    requires s != []
    ensures ToCrLf(s) == (if s[0] == '\n' then "\r\n" else [s[0]]) + ToCrLf(s[1..])
  {
  }

  lemma PutBefore(unit: string, rest: string)
    requires unit == "\r\n" || (|unit| == 1 && unit[0] != '\n')
    requires !LoneLfIn(rest)
    ensures !LoneLfIn(unit + rest)
  {
    var s := unit + rest;
    forall i | 0 <= i < |s| && s[i] == '\n'
      ensures i > 0 && s[i - 1] == '\r'
    {
      if i < |unit| {
        assert unit == "\r\n" && i == 1;
      } else {
        assert rest[i - |unit|] == '\n';
        assert i - |unit| > 0 && rest[i - |unit| - 1] == '\r';
      }
    }
  }

  /** What the editor writes back never has mixed line endings: always for a CRLF document, and otherwise for
      text without carriage returns before line feeds. */
  lemma NeverMixed(text: string, info: DocumentInfo, original: Option<seq<byte>>)
    requires info.ending == CrLf || (info.ending != Mixed && !CrLfIn(text))
    ensures LineEndingOf(EncodeFromEditor(text, info, original).value) != Mixed
  {
    hide Encode, ToCrLf, LoneLfIn, CrLfIn, SomeLoneLf, SomeCrLf, HasBom;
    var body := if info.ending == CrLf then ToCrLf(text) else text;
    var bytes := EncodeFromEditor(text, info, original).value;
    NoLoneLf(text);
    LoneLfBytes(body);
    if info.encoding == Utf8Bom {
      RevisionDiff.BodyEndings(bytes);
      assert Body(bytes) == Encode(body) by {
        MarkThen(Encode(body));
      }
    }
  }

  lemma MarkThen(b: seq<byte>)
    ensures HasBom(BOM + b) && Body(BOM + b) == b
  {
  }
}
