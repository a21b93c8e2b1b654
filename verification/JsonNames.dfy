/** What a pointer leads to (section 4 of RFC 6901): each segment is read as the numeral of an element or compared with
    what the key of a member is read as. And what an edit answers in these terms. */
module JsonNames {
  import opened Wrappers
  import opened Utf8
  import opened Document
  import opened Path
  import opened Numerals
  import opened JsonGrammar
  import opened JsonTree
  import opened JsonEdit
  import opened JsonStrict
  import EditorSpan
  import JsonScanner

  // ---- following a pointer --------------------------------------------------

  /** The segment leads from a container to its child `k`. */
  predicate Leads(v: Value, segment: string, k: nat)
    requires v.Full? && k < Count(v.items)
  {
    match v.kind
    case Arr => IsShortest(segment) && Reading(segment) == k
    case Obj => var head := ItemAt(v.items, k).head; head.Name? && TextString(head.text) == segment
  }

  predicate Resolves(v: Value, segments: seq<string>, a: Address)
    decreases |a|
  {
    && |segments| == |a|
    && (a != [] ==>
          && v.Full? && a[0] < Count(v.items) && Leads(v, segments[0], a[0])
          && Resolves(ItemAt(v.items, a[0]).value, segments[1..], a[1..]))
  }

  lemma LeadsIsLabel(v: Value, segment: string, k: nat)
    requires ValueOk(v) && v.Full? && k < Count(v.items)
    ensures ValueOk(ItemAt(v.items, k).value)
    ensures Leads(v, segment, k) <==> Label(ItemAt(v.items, k).head, k) == segment
  {
    hide Decimal, Reading, IsShortest, TextString;
    ItemAtOk(v.items, v.kind, k);
    if v.kind == Arr {
      DecimalReads(k);
      if IsShortest(segment) {
        DecimalOfReading(segment);
      }
    }
  }

  lemma {:induction false} ResolvesIsSegments(v: Value, segments: seq<string>, a: Address)
    requires ValueOk(v)
    ensures Resolves(v, segments, a) <==> JsonTree.Valid(v, a) && Segments(v, a) == segments
    decreases |a|
  {
    hide Leads, Label;
    if a != [] && v.Full? && a[0] < Count(v.items) && |segments| == |a| {
      var item := ItemAt(v.items, a[0]);
      LeadsIsLabel(v, segments[0], a[0]);
      ResolvesIsSegments(item.value, segments[1..], a[1..]);
      assert segments == [segments[0]] + segments[1..];
      if JsonTree.Valid(v, a) {
        assert Segments(v, a)[1..] == Segments(item.value, a[1..]);
      }
    }
  }

  /** One segment more leads on to a child: under an array, of the index that it is the numeral of. */
  lemma {:induction false} ResolvesFurther(v: Value, segments: seq<string>, a: Address, segment: string, k: nat)
    requires JsonTree.Valid(v, a) && |segments| == |a|
    ensures Resolves(v, segments + [segment], a + [k])
            <==> Resolves(v, segments, a) && NodeAt(v, a).Full? && k < Count(NodeAt(v, a).items)
                 && Leads(NodeAt(v, a), segment, k)
    decreases |a|
  {
    hide Leads;
    var (s, b) := (segments + [segment], a + [k]);
    if a == [] {
      assert s[1..] == [] && b[1..] == [];
    } else {
      assert s[0] == segments[0] && s[1..] == segments[1..] + [segment] && b[0] == a[0] && b[1..] == a[1..] + [k];
      ResolvesFurther(ItemAt(v.items, a[0]).value, segments[1..], a[1..], segment, k);
    }
  }

  /** The node of a document that the segments of the path lead to; the root is no field. */
  predicate Named(source: seq<byte>, path: string, a: Address)
    requires IsDocument(source) && DecodedSegments(path).Some?
  {
    var t := Derivation(source);
    a != [] && JsonTree.Valid(t.root, a) && Resolves(t.root, DecodedSegments(path).value, a)
  }

  /** NAMED BY SEGMENTS. A node has a pointer exactly when the pointer's segments lead to it. */
  lemma NamedIsTarget(source: seq<byte>, path: string, a: Address)
    requires IsDocument(source) && IsPointer(path)
    ensures DecodedSegments(path).Some?
    ensures Named(source, path, a) <==> IsTarget(Derivation(source), a, path)
  {
    hide Parse, FromSegments, DecodedSegments, Segments, ValueOk, Resolves, JsonTree.Valid, IsPointer, DocumentFields;
    PointerRoundTrip(path);
    DocumentOk(source);
    var (v, segments) := (Derivation(source).root, DecodedSegments(path).value);
    ResolvesIsSegments(v, segments, a);
    if JsonTree.Valid(v, a) && Pointer(v, a) == path {
      FromSegmentsInjective(Segments(v, a), segments);
    }
  }

  lemma DocumentOk(source: seq<byte>)
    requires IsDocument(source)
    ensures ValueOk(Derivation(source).root)
  {
    hide Parse;
    ParseSound(Body(source));
  }

  // ---- what an edit answers -------------------------------------------------

  /** A document is an object of the grammar behind at most one byte-order mark. */
  lemma DocumentMeans(source: seq<byte>)
    ensures IsDocument(source) <==> exists t :: JsonOk(t) && IsObject(t.root) && JsonBytes(t) == Body(source)
  {
    hide Parse, JsonBytes, JsonOk, HasBom, Utf8.Valid, ValueFields;
    if IsDocument(source) {
      RootPlace(source);
    }
    if t :| JsonOk(t) && IsObject(t.root) && JsonBytes(t) == Body(source) {
      var base := BaseOffset(source);
      MarkAndBody(source);
      DerivationIsDocument(source, t, base);
    }
  }

  lemma MarkAndBody(source: seq<byte>)
    ensures BaseOffset(source) in {0, 3} && source == (if BaseOffset(source) == 3 then BOM else []) + Body(source)
  {
    if HasBom(source) {
      assert source == source[..3] + source[3..];
    } else {
      assert source[0..] == source;
    }
  }

  lemma LiteralMeans(replacement: string)
    ensures IsLiteral(replacement) <==> exists r :: JsonOk(r) && JsonBytes(r) == Encode(replacement)
  {
    hide Parse, JsonBytes, JsonOk, Encode;
    if IsLiteral(replacement) {
      ParseSound(Encode(replacement));
    }
    if r :| JsonOk(r) && JsonBytes(r) == Encode(replacement) {
      ParseComplete(r);
    }
  }

  lemma Answered(source: seq<byte>, path: string, replacement: string)
    requires IsDocument(source)
    ensures match FindField(source, path)
            case Err(e) => Edit(source, path, replacement) == Err(e)
            case Ok(span) =>
              && span.start <= span.end <= |source|
              && Edit(source, path, replacement) == if IsLiteral(replacement)
                 then Ok(Splice(source, span.start, span.end, Encode(replacement))) else Err(UnsafeValue)
  {
    hide Parse, Encode, DocumentFields, FindField, Splice;
    if FindField(source, path).Ok? {
      var a := FoundIsUnique(source, path);
      SpanHoldsNode(source, a);
    }
  }

  /** What parsing answers: bytes that are no text, text that is no JSON and JSON that is no object are told apart; a
      document never fails in the scanner. */
  lemma ParseAnswers(source: seq<byte>)
    ensures var r := DocumentFields(source);
            var text := Utf8.Valid(Body(source));
            var json := exists t :: JsonOk(t) && JsonBytes(t) == Body(source);
            && (!text ==> r == Err(Encoding))
            && (text && !json ==> r == Err(Syntax))
            && (text && json && !IsDocument(source) ==> r == Err(RootObject))
  {
    hide Utf8.Valid, HasBom, JsonOk, JsonBytes, ValueFields, IsObject;
    if t :| JsonOk(t) && JsonBytes(t) == Body(source) {
      ParseComplete(t);
    }
    if Parse(Body(source)).Some? {
      ParseSound(Body(source));
    }
  }

  /** THE ANSWERS OF AN EDIT, in the terms of the two standards alone. */
  lemma EditAnswers(source: seq<byte>, path: string, replacement: string)
    requires IsPointer(path)
    ensures var r := Edit(source, path, replacement);
            && DecodedSegments(path).Some?
            && ((exists t :: JsonOk(t) && IsObject(t.root) && JsonBytes(t) == Body(source)) <==> IsDocument(source))
            && (!IsDocument(source) ==> r == Err(ParseFailed))
            && (IsDocument(source) ==>
                  && ((forall a :: !Named(source, path, a)) ==> r == Err(FieldNotFound(path)))
                  && (forall a, b | Named(source, path, a) && Named(source, path, b) && a != b ::
                        r == Err(AmbiguousField(path)))
                  && (forall a | Named(source, path, a) && (forall b | Named(source, path, b) :: b == a) ::
                        var span := SpanOf(source, Derivation(source), a);
                        && span.start <= span.end <= |source|
                        && r == if exists x :: JsonOk(x) && JsonBytes(x) == Encode(replacement)
                                then Ok(Splice(source, span.start, span.end, Encode(replacement)))
                                else Err(UnsafeValue)))
  {
    hide Parse, Encode, DocumentFields, FindField, Splice, Edit, IsDocument, IsPointer, JsonOk, JsonBytes, IsObject,
      Named, IsLiteral, IsTarget, DecodedSegments, SpanOf;
    DocumentMeans(source);
    LiteralMeans(replacement);
    PointerRoundTrip(path);
    if IsDocument(source) {
      NamedAnswers(source, path);
      Answered(source, path, replacement);
    } else {
      NoDocument(source, path, replacement);
    }
  }

  lemma NoDocument(source: seq<byte>, path: string, replacement: string)
    requires !IsDocument(source)
    ensures Edit(source, path, replacement) == Err(ParseFailed)
  {
    hide DocumentFields, Encode, IsLiteral;
  }

  lemma NamedAnswers(source: seq<byte>, path: string)
    requires IsDocument(source) && IsPointer(path)
    ensures var found := FindField(source, path);
            && DecodedSegments(path).Some?
            && ((forall a :: !Named(source, path, a)) ==> found == Err(FieldNotFound(path)))
            && (forall a, b | Named(source, path, a) && Named(source, path, b) && a != b ::
                  found == Err(AmbiguousField(path)))
            && (forall a | Named(source, path, a) && (forall b | Named(source, path, b) :: b == a) ::
                  found == Ok(SpanOf(source, Derivation(source), a)))
  {
    hide Parse, DocumentFields, FindField, IsDocument, IsPointer, DecodedSegments, SpanOf, Named, Pointer,
      JsonTree.Valid;
    PointerRoundTrip(path);
    forall a
      ensures DecodedSegments(path).Some? && (Named(source, path, a) <==> IsTarget(Derivation(source), a, path))
    {
      NamedIsTarget(source, path, a);
    }
    MissingIsAbsent(source, path);
    forall a | IsTarget(Derivation(source), a, path) && forall b | IsTarget(Derivation(source), b, path) :: b == a
      ensures FindField(source, path) == Ok(SpanOf(source, Derivation(source), a))
    {
      UniqueIsFound(source, path, a);
    }
    Kinds(source, path);
    if FindField(source, path).Ok? {
      var c := FoundIsUnique(source, path);
    }
  }

  lemma Kinds(source: seq<byte>, path: string)
    requires IsDocument(source)
    ensures var found := FindField(source, path);
            found.Err? ==> found.error in {FieldNotFound(path), AmbiguousField(path)}
  {
    hide DocumentFields;
  }

  // ---- what a key is read as ------------------------------------------------

  function HexDigit(n: int): (b: byte)
    requires 0 <= n < 16
  {
    var digits := "0123456789abcdef";
    digits[n] as int
  }

  /** A code unit in four hexadecimal digits. */
  function HexOf(unit: int): seq<byte>
    requires 0 <= unit < 0x1_0000
  {
    [HexDigit(unit / 4096), HexDigit(unit / 256 % 16), HexDigit(unit / 16 % 16), HexDigit(unit % 16)]
  }

  function LowerHex(b: byte): byte {
    if 'A' as int <= b <= 'F' as int then b + ('a' as int - 'A' as int) else b
  }

  predicate IsHexOf(hex: seq<byte>, unit: int) {
    && 0 <= unit < 0x1_0000 && |hex| == 4
    && [LowerHex(hex[0]), LowerHex(hex[1]), LowerHex(hex[2]), LowerHex(hex[3])] == HexOf(unit)
  }

  /** The letters of section 7 of RFC 8259 and what they stand for. */
  const SHORT: map<char, char> := map[
    '\"' := '\"', '\\' := '\\', '/' := '/', 'b' := '\U{8}', 'f' := '\U{C}', 'n' := '\n', 'r' := '\r', 't' := '\t']

  /** The symbol is a way to write the character: as it is, by its letter, or by its UTF-16 units. */
  predicate Writes(s: Sym, c: char) {
    match s
    case Plain(p) => p == c
    case Short(letter) => letter < 0x80 && (letter as char) in SHORT && SHORT[letter as char] == c
    case Unit(hex) => |EditorSpan.UnitsOf(c)| == 1 && IsHexOf(hex, EditorSpan.UnitsOf(c)[0])
    case Pair(high, low) =>
      var units := EditorSpan.UnitsOf(c); |units| == 2 && IsHexOf(high, units[0]) && IsHexOf(low, units[1])
  }

  lemma NibbleIs(b: byte)
    requires IsHex(b)
    ensures LowerHex(b) == HexDigit(Nibble(b))
  {
  }

  lemma HexIs(hex: seq<byte>)
    requires Hex4(hex)
    ensures IsHexOf(hex, HexValue(hex))
  {
    hide HexDigit, LowerHex, IsHex;
    NibbleIs(hex[0]);
    NibbleIs(hex[1]);
    NibbleIs(hex[2]);
    NibbleIs(hex[3]);
    FourDigits(Nibble(hex[0]), Nibble(hex[1]), Nibble(hex[2]), Nibble(hex[3]));
  }

  lemma FourDigits(a: int, b: int, c: int, d: int)
    requires 0 <= a < 16 && 0 <= b < 16 && 0 <= c < 16 && 0 <= d < 16
    ensures var n := a * 4096 + b * 256 + c * 16 + d;
            n / 4096 == a && n / 256 % 16 == b && n / 16 % 16 == c && n % 16 == d
  {
    var n := a * 4096 + b * 256 + c * 16 + d;
    Sixteenths(n);
    assert n / 16 == a * 256 + b * 16 + c;
    assert n / 16 / 16 == a * 16 + b;
  }

  lemma Sixteenths(n: int)
    requires n >= 0
    ensures n / 256 == n / 16 / 16 && n / 4096 == n / 256 / 16
  {
  }

  /** A key is read as the one string that its symbols write. */
  lemma KeyReads(t: seq<Sym>)
    requires TextOk(t)
    ensures |TextString(t)| == |t| && forall i | 0 <= i < |t| :: Writes(t[i], TextString(t)[i])
  {
    hide SymOk, Writes;
    forall i | 0 <= i < |t|
      ensures Writes(t[i], TextString(t)[i])
    {
      SymReads(t[i]);
    }
  }

  lemma SymReads(s: Sym)
    requires SymOk(s)
    ensures Writes(s, SymChar(s))
  {
    hide HexValue, IsHexOf;
    match s
    case Plain(_) =>
    case Short(_) =>
    case Unit(hex) => HexIs(hex);
    case Pair(high, low) =>
      HexIs(high);
      HexIs(low);
  }

  // ---- the tokens -----------------------------------------------------------

  /** The characters of the grammar, and the form feed that only the scanner takes for white space. */
  lemma CharactersAre(b: byte)
    requires b < 0x80
    ensures IsWs(b) <==> b as char in " \t\n\r"
    ensures JsonScanner.IsAsciiWs(b) <==> b as char in " \t\n\r\U{C}"
    ensures IsShort(b) <==> b as char in SHORT
    ensures JsonGrammar.IsDigit(b) <==> b as char in "0123456789"
    ensures IsHex(b) <==> b as char in "0123456789abcdefABCDEF"
  {
  }

  lemma HighBytes(b: byte)
    requires b >= 0x80
    ensures !IsWs(b) && !JsonScanner.IsAsciiWs(b) && !IsShort(b) && !JsonGrammar.IsDigit(b) && !IsHex(b)
  {
  }

  lemma TokensAre()
    ensures Ascii(NULL_BYTES) == "null" && Ascii(TRUE_BYTES) == "true" && Ascii(FALSE_BYTES) == "false"
    ensures Ascii([Open(Obj), Close(Obj), Open(Arr), Close(Arr)]) == "{}[]"
    ensures Ascii([QUOTE, BACKSLASH, COMMA, COLON, LETTER_U]) == "\"\\,:u"
  {
  }

  function Ascii(b: seq<byte>): string {
    seq(|b|, i requires 0 <= i < |b| => b[i] as char)
  }

  lemma DigitsAre(b: seq<byte>)
    ensures b != [] && AllDigits(b) <==> IsNumeral(Ascii(b))
  {
    forall i | 0 <= i < |b|
      ensures JsonGrammar.IsDigit(b[i]) <==> IsDecimalDigit(Ascii(b)[i])
    {
      DigitIs(b[i]);
    }
  }

  lemma DigitIs(b: byte)
    ensures JsonGrammar.IsDigit(b) <==> IsDecimalDigit(b as char)
  {
  }

  /** A number: a minus sign or not, an integer without leading zeros, digits behind a point or not, digits behind a
      mark or not. */
  lemma NumberIs(n: Number)
    ensures NumberOk(n)
            <==> && IsShortest(Ascii(n.whole)) && (n.frac == [] || IsNumeral(Ascii(n.frac)))
                 && (if n.mark == [] then n.power == []
                     else Ascii(n.mark) in ["e", "E", "e+", "E+", "e-", "E-"] && IsNumeral(Ascii(n.power)))
  {
    hide IsNumeral, AllDigits;
    DigitsAre(n.whole);
    DigitsAre(n.frac);
    DigitsAre(n.power);
    MarkIs(n.mark);
    NoDigits();
    assert n.whole != [] ==> Ascii(n.whole)[0] == n.whole[0] as char;
  }

  lemma NoDigits()
    ensures AllDigits([])
  {
  }

  lemma MarkIs(mark: seq<byte>)
    ensures MarkOk(mark) <==> Ascii(mark) in ["e", "E", "e+", "E+", "e-", "E-"]
  {
    var s := Ascii(mark);
    if |mark| == 1 {
      assert s == [s[0]];
    } else if |mark| == 2 {
      assert s == [s[0], s[1]];
    }
  }
}
