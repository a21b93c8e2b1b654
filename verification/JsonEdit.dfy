/** Parsing a JSON document into fields, finding one by its pointer and replacing its value
    (`json.rs`, `singbox.rs`), with the proof that an edit means what it should. */
module JsonEdit {
  import opened Wrappers
  import Utf8
  import opened Document
  import opened JsonGrammar
  import opened JsonStrict
  import opened JsonTree
  import opened JsonReplace
  import opened JsonScanner
  import opened JsonScanExact
  import opened Path

  type byte = Utf8.byte

  datatype ParseError =
    | Encoding
    | Syntax
    | RootObject
    | Scanning(at: nat, message: string)
    | Trailing(at: nat)

  predicate IsObject(v: Value) {
    (v.Blank? || v.Full?) && v.kind == Obj
  }

  /** What parsing a document should give, said in terms of its derivation alone. */
  function DocumentFields(source: seq<byte>): Result<seq<Field>, ParseError> {
    if DetectEncoding(source) == Unsupported then Err(Encoding)
    else
      match Parse(Body(source))
      case None => Err(Syntax)
      case Some(t) =>
        if !IsObject(t.root) then Err(RootObject)
        else Ok(ValueFields(t.root, [], BaseOffset(source) + |t.lead|))
  }

  /** The scan of a whole body, on any bytes. */
  function ScanOutcome(b: seq<byte>, base: nat): Result<seq<Field>, ParseError> {
    match ScanValue(b, base, SkipWs(b, 0), [])
    case Failed(at, message) => Err(Scanning(base + at, message))
    case Done(t, fields) =>
      var end := SkipWs(b, t);
      if end != |b| then Err(Trailing(base + end)) else Ok(fields)
  }

  method ScanBody(b: seq<byte>, base: nat) returns (r: Result<seq<Field>, ParseError>)
    ensures r == ScanOutcome(b, base)
  {
    hide ScanValue, SkipWs;
    var scanner := new Scanner(b, base);
    scanner.SkipWhiteSpace();
    var scanned := scanner.ParseValue([]);
    if scanned.Err? {
      return Err(Scanning(base + scanner.cursor, scanned.error));
    }
    scanner.SkipWhiteSpace();
    if scanner.cursor != |b| {
      return Err(Trailing(base + scanner.cursor));
    }
    assert forall fields: seq<Field> :: [] + fields == fields;
    return Ok(scanner.fields);
  }

  /** The encoding check, the grammar gate, then the scanner. The contract says that after the gate
      neither of the scanner's two error exits is ever taken. */
  method ParseJsonDocument(source: seq<byte>) returns (r: Result<seq<Field>, ParseError>)
    ensures r == DocumentFields(source)
  {
    hide ScanOutcome, Parse, ValueFields, Utf8.Valid, Bytes, HasBom;
    if DetectEncoding(source) == Unsupported {
      return Err(Encoding);
    }
    var base := BaseOffset(source);
    var gate := Parse(source[base..]);
    if gate.None? {
      return Err(Syntax);
    }
    if !IsObject(gate.value.root) {
      return Err(RootObject);
    }
    ScanDocument(source[base..], base);
    r := ScanBody(source[base..], base);
  }

  /** A derivable text is scanned without error from its first to its last byte. */
  lemma ScanDocument(b: seq<byte>, base: nat)
    requires Parse(b).Some?
    ensures ScanOutcome(b, base) == Ok(ValueFields(Parse(b).value.root, [], base + |Parse(b).value.lead|))
  {
    hide At, Bytes, Parse, SkipWs, IsAsciiWs, AllWs, ValueOk, ScanValue, ValueFields, Follow;
    var t := Parse(b).value;
    var i := |t.lead|;
    var e := i + |Bytes(t.root)|;
    DocumentParts(b);
    ValueStartsAt(b, i, t.root);
    AtBound(b, i, []);
    NoWs();
    TrailFollows(b, e, t.trail);
    SkipWsExact(b, 0, t.lead);
    SkipWsExact(b, e, t.trail);
    ScanValueExact(b, base, i, [], t.root, []);
  }

  /** The scanner alone is laxer than the grammar: it skips a form feed. */
  lemma GateIsNeeded()
    ensures var b := [0x0C, 0x7B, 0x7D]; ScanOutcome(b, 0) == Ok([]) && Parse(b).None?
  {
    var b: seq<byte> := [0x0C, 0x7B, 0x7D];
    assert SkipWs(b, 1) == 1 && SkipWs(b, 0) == 1 && SkipWs(b, 2) == 2 && SkipWs(b, 3) == 3;
    assert ScanObject(b, 0, 1, []) == Done(3, []);
    var none: seq<Field> := [];
    assert none + [] == none;
    assert ScanValue(b, 0, 1, []) == Done(3, []);
    assert Skip(b, 0) == 0;
    assert ParseValue(b, 0).None?;
  }

  /** What else the scanner takes by itself, and where it stops: an exponent with two signs and any escape, but no
      leading zero and no control character. */
  lemma ScannerAlone()
    ensures ScanNumber([0x31, 0x65, 0x2B, 0x2D, 0x35], 0) == Done(5, ())
    ensures ScanNumber([0x30, 0x31], 0) == Failed(1, "leading zero in number")
    ensures ScanString([QUOTE, BACKSLASH, 0x71, QUOTE], 0) == Done(4, ())
    ensures ScanString([QUOTE, 0x1F, QUOTE], 0) == Failed(1, "control character in string")
  {
    var number: seq<byte> := [0x31, 0x65, 0x2B, 0x2D, 0x35];
    assert Run(number, 5, JsonGrammar.IsDigit) == 5 && Run(number, 4, JsonGrammar.IsDigit) == 5;
    assert Run(number, 1, JsonGrammar.IsDigit) == 1 && Run(number, 0, JsonGrammar.IsDigit) == 1;
    var escape: seq<byte> := [QUOTE, BACKSLASH, 0x71, QUOTE];
    assert ScanChars(escape, 3) == Done(4, ());
    assert ScanChars(escape, 1) == ScanChars(escape, 3);
  }

  lemma DocumentParts(b: seq<byte>)
    requires Parse(b).Some?
    ensures var t := Parse(b).value;
            var i := |t.lead|;
            var e := i + |Bytes(t.root)|;
            && AllWs(t.lead) && ValueOk(t.root) && AllWs(t.trail)
            && At(b, 0, t.lead) && At(b, i, Bytes(t.root)) && At(b, e, t.trail) && e + |t.trail| == |b|
  {
    hide At, Bytes, Parse, AllWs, ValueOk;
    var t := Parse(b).value;
    ParseSound(b);
    AtAll(b);
    At3(b, 0, t.lead, Bytes(t.root), t.trail);
  }

  lemma TrailFollows(b: seq<byte>, e: nat, trail: seq<byte>)
    requires AllWs(trail) && At(b, e, trail) && e + |trail| == |b|
    ensures Follow(b, e)
  {
    FirstByte(b, e, trail);
  }

  // ---- looking a field up ---------------------------------------------------

  function Matches(fields: seq<Field>, path: string): seq<Field> {
    if fields == [] then []
    else (if fields[0].path == path then [fields[0]] else []) + Matches(fields[1..], path)
  }

  function FindField(source: seq<byte>, path: string): Result<Span, EditError> {
    match DocumentFields(source)
    case Err(_) => Err(ParseFailed)
    case Ok(fields) =>
      var found := Matches(fields, path);
      if |found| == 0 then Err(FieldNotFound(path))
      else if |found| > 1 then Err(AmbiguousField(path))
      else Ok(Span(found[0].start, found[0].end))
  }

  method FindJsonField(source: seq<byte>, path: string) returns (r: Result<Span, EditError>)
    ensures r == FindField(source, path)
  {
    hide DocumentFields;
    var parsed := ParseJsonDocument(source);
    if parsed.Err? {
      return Err(ParseFailed);
    }
    var fields := parsed.value;
    var found: seq<Field> := [];
    for i := 0 to |fields|
      invariant found + Matches(fields[i..], path) == Matches(fields, path)
    {
      assert fields[i..][0] == fields[i] && fields[i..][1..] == fields[i + 1..];
      if fields[i].path == path {
        found := found + [fields[i]];
      }
    }
    assert found == Matches(fields, path);
    if |found| == 0 {
      return Err(FieldNotFound(path));
    } else if |found| > 1 {
      return Err(AmbiguousField(path));
    }
    return Ok(Span(found[0].start, found[0].end));
  }

  /** `validate_json_literal`: the replacement is one JSON text. */
  predicate IsLiteral(replacement: string) {
    Parse(Utf8.Encode(replacement)).Some?
  }

  function Edit(source: seq<byte>, path: string, replacement: string): Result<seq<byte>, EditError> {
    match FindField(source, path)
    case Err(error) => Err(error)
    case Ok(span) =>
      if !IsLiteral(replacement) then Err(UnsafeValue)
      else if span.start <= span.end <= |source| then Ok(Splice(source, span.start, span.end, Utf8.Encode(replacement)))
      else Err(ParseFailed)
  }

  method ApplyEdit(source: seq<byte>, path: string, replacement: string) returns (r: Result<seq<byte>, EditError>)
    ensures r == Edit(source, path, replacement)
  {
    var span := FindJsonField(source, path);
    if span.Err? {
      return Err(span.error);
    }
    if !IsLiteral(replacement) {
      return Err(UnsafeValue);
    }
    r := ApplySpanPatch(source, span.value, Utf8.Encode(replacement));
  }

  // ---- fields are nodes -----------------------------------------------------

  /** The byte span of a node in the document. */
  function SpanOf(source: seq<byte>, t: Text, a: Address): Span
    requires JsonTree.Valid(t.root, a)
  {
    var start := BaseOffset(source) + |t.lead| + OffsetAt(t.root, a);
    Span(start, start + |Bytes(NodeAt(t.root, a))|)
  }

  predicate IsTarget(t: Text, a: Address, path: string) {
    a != [] && JsonTree.Valid(t.root, a) && Pointer(t.root, a) == path
  }

  /** A document is an encodable object-rooted JSON text. */
  predicate IsDocument(source: seq<byte>) {
    DocumentFields(source).Ok?
  }

  function Derivation(source: seq<byte>): Text
    requires IsDocument(source)
  {
    Parse(Body(source)).value
  }

  /** The fields of a document are, in post-order, its nodes other than the root: one field a node,
      holding the node's pointer and span. */
  lemma FieldsAreNodes(source: seq<byte>)
    requires IsDocument(source)
    ensures var t := Derivation(source);
            var fields := DocumentFields(source).value;
            var order := PostOrder(t.root);
            && |fields| == |order| - 1 && order[|order| - 1] == []
            && forall i | 0 <= i < |fields| :: FieldIsNode(source, fields[i], order[i])
  {
    hide PostOrder, ValueFields, Bytes, Parse, HasBom, Utf8.Valid, OffsetAt, JsonTree.Valid, NodeAt, Segments;
    var t := Derivation(source);
    var at := BaseOffset(source) + |t.lead|;
    var order := PostOrder(t.root);
    PostOrderValid(t.root);
    FieldsCount(t.root, [], at);
    forall i | 0 <= i < |order| - 1
      ensures FieldIsNode(source, DocumentFields(source).value[i], order[i])
    {
      FieldIsPostOrder(t.root, [], at, i);
      assert [] + Segments(t.root, order[i]) == Segments(t.root, order[i]);
    }
  }

  predicate FieldIsNode(source: seq<byte>, f: Field, a: Address)
    requires IsDocument(source)
  {
    var t := Derivation(source);
    && a != [] && JsonTree.Valid(t.root, a)
    && f == Field(Pointer(t.root, a), SpanOf(source, t, a).start, SpanOf(source, t, a).end)
  }

  /** A node's span holds the node's bytes. */
  lemma SpanHoldsNode(source: seq<byte>, a: Address)
    requires IsDocument(source) && JsonTree.Valid(Derivation(source).root, a)
    ensures var t := Derivation(source);
            var span := SpanOf(source, t, a);
            span.end <= |source| && source[span.start..span.end] == Bytes(NodeAt(t.root, a))
  {
    hide At, Bytes, Parse, OffsetAt, NodeAt, JsonTree.Valid, HasBom, Utf8.Valid;
    var t := Derivation(source);
    var at := BaseOffset(source) + |t.lead|;
    RootPlace(source);
    NodePlace(source, at, t.root, a);
    AtSlice(source, at + OffsetAt(t.root, a), Bytes(NodeAt(t.root, a)));
  }

  /** The root's bytes in the source. */
  lemma RootPlace(source: seq<byte>)
    requires IsDocument(source)
    ensures At(source, BaseOffset(source) + |Derivation(source).lead|, Bytes(Derivation(source).root))
    ensures Body(source) == JsonBytes(Derivation(source)) && JsonOk(Derivation(source))
  {
    hide Parse, Bytes, ValueOk, AllWs, At, HasBom, Utf8.Valid, ValueFields;
    var t := Derivation(source);
    ParseSound(Body(source));
    BodyAt(source);
    At3(source, BaseOffset(source), t.lead, Bytes(t.root), t.trail);
  }

  lemma BodyAt(source: seq<byte>)
    ensures At(source, BaseOffset(source), Body(source))
  {
    hide HasBom;
    var base := BaseOffset(source);
    assert source[base..base + |Body(source)|] == Body(source);
  }

  lemma {:induction false} MatchesNone(fields: seq<Field>, path: string)
    requires forall i | 0 <= i < |fields| :: fields[i].path != path
    ensures Matches(fields, path) == []
  {
    if fields != [] {
      MatchesNone(fields[1..], path);
    }
  }

  lemma {:induction false} MatchesOne(fields: seq<Field>, path: string, k: nat)
    requires k < |fields| && fields[k].path == path
    requires forall i | 0 <= i < |fields| && i != k :: fields[i].path != path
    ensures Matches(fields, path) == [fields[k]]
  {
    if k == 0 {
      MatchesNone(fields[1..], path);
    } else {
      MatchesOne(fields[1..], path, k - 1);
    }
  }

  lemma {:induction false} MatchesAll(fields: seq<Field>, path: string)
    ensures |Matches(fields, path)| <= |fields|
    ensures |Matches(fields, path)| == 1 ==>
              exists k | 0 <= k < |fields| :: fields[k].path == path && Matches(fields, path) == [fields[k]]
                && forall i | 0 <= i < |fields| && i != k :: fields[i].path != path
    ensures |Matches(fields, path)| == 0 ==> forall i | 0 <= i < |fields| :: fields[i].path != path
  {
    if fields != [] {
      MatchesAll(fields[1..], path);
      var rest := Matches(fields[1..], path);
      if |Matches(fields, path)| == 1 {
        if fields[0].path == path {
          assert forall i | 0 <= i < |fields| && i != 0 :: fields[i] == fields[1..][i - 1];
        } else {
          var k :| 0 <= k < |fields[1..]| && fields[1..][k].path == path && rest == [fields[1..][k]]
            && forall i | 0 <= i < |fields[1..]| && i != k :: fields[1..][i].path != path;
          assert fields[k + 1] == fields[1..][k];
          assert forall i | 0 <= i < |fields| && i != k + 1 :: i == 0 || fields[i] == fields[1..][i - 1];
        }
      } else if |Matches(fields, path)| == 0 {
        assert forall i | 0 <= i < |fields| :: i == 0 || fields[i] == fields[1..][i - 1];
      }
    }
  }

  ghost predicate OnlyTarget(t: Text, a: Address, path: string) {
    IsTarget(t, a, path) && forall c | IsTarget(t, c, path) :: c == a
  }

  lemma TargetHasField(source: seq<byte>, a: Address, path: string) returns (k: nat)
    requires IsDocument(source) && IsTarget(Derivation(source), a, path)
    ensures var fields := DocumentFields(source).value;
            var order := PostOrder(Derivation(source).root);
            k < |fields| && k < |order| && order[k] == a && fields[k].path == path
  {
    hide PostOrder, DocumentFields, Bytes, Parse, OffsetAt;
    var order := PostOrder(Derivation(source).root);
    FieldsAreNodes(source);
    PostOrderCovers(Derivation(source).root, a);
    k :| 0 <= k < |order| && order[k] == a;
    assert FieldIsNode(source, DocumentFields(source).value[k], order[k]);
  }

  lemma FieldIsTarget(source: seq<byte>, k: nat)
    requires IsDocument(source) && k < |DocumentFields(source).value|
    ensures k < |PostOrder(Derivation(source).root)|
    ensures IsTarget(Derivation(source), PostOrder(Derivation(source).root)[k], DocumentFields(source).value[k].path)
  {
    hide PostOrder, DocumentFields, Bytes, Parse, OffsetAt;
    FieldsAreNodes(source);
    assert FieldIsNode(source, DocumentFields(source).value[k], PostOrder(Derivation(source).root)[k]);
  }

  /** A lookup that succeeds returns the span of the one node that has the pointer. */
  lemma FoundIsUnique(source: seq<byte>, path: string) returns (a: Address)
    requires IsDocument(source) && FindField(source, path).Ok?
    ensures OnlyTarget(Derivation(source), a, path)
    ensures FindField(source, path).value == SpanOf(source, Derivation(source), a)
  {
    hide PostOrder, DocumentFields, Bytes, Parse, OffsetAt;
    var t := Derivation(source);
    var fields := DocumentFields(source).value;
    MatchesAll(fields, path);
    var k :| 0 <= k < |fields| && fields[k].path == path && Matches(fields, path) == [fields[k]]
      && forall i | 0 <= i < |fields| && i != k :: fields[i].path != path;
    FieldsAreNodes(source);
    FieldIsTarget(source, k);
    a := PostOrder(t.root)[k];
    assert FieldIsNode(source, fields[k], a);
    forall c | IsTarget(t, c, path)
      ensures c == a
    {
      var i := TargetHasField(source, c, path);
    }
  }

  /** A pointer that only one node has is found. */
  lemma UniqueIsFound(source: seq<byte>, path: string, a: Address)
    requires IsDocument(source) && OnlyTarget(Derivation(source), a, path)
    ensures FindField(source, path) == Ok(SpanOf(source, Derivation(source), a))
  {
    hide PostOrder, DocumentFields, Bytes, Parse, OffsetAt;
    var t := Derivation(source);
    var fields := DocumentFields(source).value;
    var k := TargetHasField(source, a, path);
    forall i | 0 <= i < |fields| && i != k
      ensures fields[i].path != path
    {
      FieldIsTarget(source, i);
      if fields[i].path == path {
        if i < k {
          PostOrderDistinct(t.root, i, k);
        } else {
          PostOrderDistinct(t.root, k, i);
        }
      }
    }
    MatchesOne(fields, path, k);
    FieldsAreNodes(source);
    assert FieldIsNode(source, fields[k], a);
  }

  /** A pointer is reported missing exactly when no node has it; with the two lemmas above, it is
      reported ambiguous exactly when several nodes have it. */
  lemma MissingIsAbsent(source: seq<byte>, path: string)
    requires IsDocument(source)
    ensures FindField(source, path) == Err(FieldNotFound(path))
       <==> forall a :: !IsTarget(Derivation(source), a, path)
  {
    var t := Derivation(source);
    var fields := DocumentFields(source).value;
    MatchesAll(fields, path);
    hide PostOrder, DocumentFields, Bytes, Parse, OffsetAt, JsonTree.Valid;
    if forall a :: !IsTarget(t, a, path) {
      forall i | 0 <= i < |fields|
        ensures fields[i].path != path
      {
        FieldIsTarget(source, i);
      }
      MatchesNone(fields, path);
    }
    if FindField(source, path) == Err(FieldNotFound(path)) {
      forall a
        ensures !IsTarget(t, a, path)
      {
        if IsTarget(t, a, path) {
          var k := TargetHasField(source, a, path);
        }
      }
    }
  }

  // ---- what an edit means ---------------------------------------------------

  /** Where a span outside the hole ends up when the hole changes its length by `delta`: positions up
      to the hole stay, positions behind it move. */
  predicate ShiftedSpan(before: Span, hole: Span, delta: int, after: Span) {
    && after.start == before.start + (if before.start >= hole.end then delta else 0)
    && after.end == before.end + (if before.end >= hole.end then delta else 0)
  }

  /** In a document without duplicate keys every node other than the root is found by its pointer. */
  lemma EveryNodeIsFound(source: seq<byte>, a: Address)
    requires IsDocument(source) && NoDuplicates(Derivation(source).root)
    requires a != [] && JsonTree.Valid(Derivation(source).root, a)
    ensures FindField(source, Pointer(Derivation(source).root, a)) == Ok(SpanOf(source, Derivation(source), a))
  {
    hide Parse, JsonTree.Valid, Bytes, Segments, NoDuplicates, ValueOk, FindField, HasBom, FromSegments;
    var t := Derivation(source);
    ParseSound(Body(source));
    forall c | IsTarget(t, c, Pointer(t.root, a))
      ensures c == a
    {
      FromSegmentsInjective(Segments(t.root, c), Segments(t.root, a));
      PointersDistinct(t.root, c, a);
    }
    UniqueIsFound(source, Pointer(t.root, a), a);
  }

  lemma {:induction false} Utf8Value(v: Value)
    requires ValueOk(v)
    ensures Utf8.Valid(Bytes(v))
    decreases v
  {
    hide Utf8.Valid, NumberBytes, StringBytes, ItemsBytes, ItemsOk, AllWs, NumberOk, TextOk;
    match v
    case Num(number) => Utf8Number(number);
    case Str(text) => Utf8String(text);
    case Blank(kind, gap) =>
      AsciiWs(gap);
      AsciiValid([Open(kind)] + (gap + [Close(kind)]));
    case Full(kind, items) =>
      Utf8Items(items, kind);
      AsciiValid([Open(kind)]);
      AsciiValid([Close(kind)]);
      Utf8.ValidConcat(ItemsBytes(items), [Close(kind)]);
      Utf8.ValidConcat([Open(kind)], ItemsBytes(items) + [Close(kind)]);
    case Null => AsciiValid(NULL_BYTES);
    case True => AsciiValid(TRUE_BYTES);
    case False => AsciiValid(FALSE_BYTES);
  }

  lemma {:induction false} AsciiValid(b: seq<byte>)
    requires forall k | 0 <= k < |b| :: b[k] < 0x80
    ensures Utf8.Valid(b)
  {
    if b != [] {
      AsciiValid(b[1..]);
      assert Utf8.Width(b) == 1;
    }
  }

  lemma AsciiWs(gap: seq<byte>)
    requires AllWs(gap)
    ensures forall k | 0 <= k < |gap| :: gap[k] < 0x80
    ensures Utf8.Valid(gap)
  {
    AsciiValid(gap);
  }

  lemma Utf8Number(n: Number)
    requires NumberOk(n)
    ensures Utf8.Valid(NumberBytes(n))
  {
    var b := NumberBytes(n);
    var head := (if n.negative then [0x2D] else []) + n.whole;
    var middle := FracBytes(n.frac);
    var tail := n.mark + n.power;
    assert b == head + (middle + tail);
    AsciiValid(head);
    AsciiValid(middle);
    AsciiValid(tail);
    hide Utf8.Valid;
    Utf8.ValidConcat(middle, tail);
    Utf8.ValidConcat(head, middle + tail);
  }

  lemma {:induction false} Utf8Text(t: seq<Sym>)
    requires TextOk(t)
    ensures Utf8.Valid(TextBytes(t))
  {
    hide Utf8.Valid, SymBytes;
    if t == [] {
      AsciiValid([]);
    } else {
      Utf8Sym(t[0]);
      Utf8Text(t[1..]);
      Utf8.ValidConcat(SymBytes(t[0]), TextBytes(t[1..]));
    }
  }

  lemma Utf8Sym(s: Sym)
    requires SymOk(s)
    ensures Utf8.Valid(SymBytes(s))
  {
    match s
    case Plain(c) =>
      Utf8.DecodeOfEncode([c]);
      assert Utf8.Encode([c]) == Utf8.EncodeChar(c) + Utf8.Encode([]);
      assert Utf8.Encode([c]) == Utf8.EncodeChar(c);
    case _ =>
      AsciiValid(SymBytes(s));
  }

  lemma Utf8String(t: seq<Sym>)
    requires TextOk(t)
    ensures Utf8.Valid(StringBytes(t))
  {
    hide Utf8.Valid, TextBytes;
    Utf8Text(t);
    AsciiValid([QUOTE]);
    Utf8.ValidConcat(TextBytes(t), [QUOTE]);
    Utf8.ValidConcat([QUOTE], TextBytes(t) + [QUOTE]);
  }

  lemma {:induction false} Utf8Items(items: Items, kind: Kind)
    requires ItemsOk(items, kind)
    ensures Utf8.Valid(ItemsBytes(items))
    decreases items
  {
    hide Utf8.Valid, ItemBytes, ItemOk;
    Utf8Item(items.item, kind);
    if items.More? {
      Utf8Items(items.rest, kind);
      AsciiValid([COMMA]);
      Utf8.ValidConcat([COMMA], ItemsBytes(items.rest));
      Utf8.ValidConcat(ItemBytes(items.item), [COMMA] + ItemsBytes(items.rest));
    }
  }

  lemma {:induction false} Utf8Item(item: Item, kind: Kind)
    requires ItemOk(item, kind)
    ensures Utf8.Valid(ItemBytes(item))
    decreases item
  {
    hide Utf8.Valid, AllWs, Bytes, HeadBytes, ValueOk, HeadOk;
    AsciiWs(item.lead);
    AsciiWs(item.trail);
    Utf8Head(item.head, kind);
    Utf8Value(item.value);
    Utf8.ValidConcat(Bytes(item.value), item.trail);
    Utf8.ValidConcat(HeadBytes(item.head), Bytes(item.value) + item.trail);
    Utf8.ValidConcat(item.lead, HeadBytes(item.head) + (Bytes(item.value) + item.trail));
  }

  lemma Utf8Head(head: Head, kind: Kind)
    requires HeadOk(head, kind)
    ensures Utf8.Valid(HeadBytes(head))
  {
    hide Utf8.Valid, AllWs, StringBytes, TextOk;
    match head
    case Index => AsciiValid([]);
    case Name(text, gap, lead) =>
      AsciiWs(gap);
      AsciiWs(lead);
      Utf8String(text);
      AsciiValid([COLON] + lead);
      Utf8.ValidConcat(gap, [COLON] + lead);
      Utf8.ValidConcat(StringBytes(text), gap + ([COLON] + lead));
  }

  /** A derivable object-rooted text, behind a byte-order mark or not, is a document with that derivation. */
  lemma DerivationIsDocument(source: seq<byte>, t: Text, base: nat)
    requires JsonOk(t) && IsObject(t.root)
    requires source == (if base == 3 then BOM else []) + JsonBytes(t) && base in {0, 3}
    ensures BaseOffset(source) == base && Body(source) == JsonBytes(t)
    ensures IsDocument(source) && Derivation(source) == t
  {
    hide Parse, Utf8.Valid, AllWs, ValueOk, Bytes, JsonBytes, IsObject;
    var b := JsonBytes(t);
    ParseComplete(t);
    DocumentBytes(t);
    BehindMark(source, b, base);
    assert IsObject(Parse(b).value.root);
  }

  lemma BehindMark(source: seq<byte>, b: seq<byte>, base: nat)
    requires b != [] && b[0] != 0xEF && source == (if base == 3 then BOM else []) + b && base in {0, 3}
    ensures BaseOffset(source) == base && Body(source) == b
  {
    if base == 0 {
      assert source == b;
    } else {
      assert source[..3] == BOM && source[3..] == b;
    }
  }

  lemma DocumentBytes(t: Text)
    requires JsonOk(t) && IsObject(t.root)
    ensures Utf8.Valid(JsonBytes(t)) && JsonBytes(t) != [] && JsonBytes(t)[0] != 0xEF
  {
    hide Utf8.Valid, ValueOk, Bytes;
    Utf8Value(t.root);
    AsciiWs(t.lead);
    AsciiWs(t.trail);
    Utf8.ValidConcat(Bytes(t.root), t.trail);
    Utf8.ValidConcat(t.lead, Bytes(t.root) + t.trail);
    ObjectStart(t.root);
    var b := JsonBytes(t);
    assert b[0] == if t.lead == [] then Bytes(t.root)[0] else t.lead[0];
  }

  lemma ObjectStart(v: Value)
    requires IsObject(v)
    ensures Bytes(v) != [] && Bytes(v)[0] == Open(Obj)
  {
  }

  /** THE EDIT THEOREM. When an edit succeeds, the pointer named exactly one node and the result is again
      a document; its syntactic tree is the old one with just that node exchanged for the replacement's
      value; every other node keeps its pointer, and its span stays or moves by the length difference. */
  lemma EditMeaning(source: seq<byte>, path: string, replacement: string, out: seq<byte>) returns (a: Address)
    requires Edit(source, path, replacement) == Ok(out)
    ensures IsDocument(source) && IsDocument(out) && IsLiteral(replacement)
    ensures BaseOffset(out) == BaseOffset(source)
    ensures OnlyTarget(Derivation(source), a, path)
    ensures var t, n := Derivation(source), Derivation(out);
            var r := Parse(Utf8.Encode(replacement)).value;
            && TreeOf(n.root) == TreeReplace(TreeOf(t.root), a, TreeOf(r.root))
            && n.lead == t.lead && n.trail == t.trail
    ensures var t, n := Derivation(source), Derivation(out);
            var r := Parse(Utf8.Encode(replacement)).value;
            && JsonTree.Valid(n.root, a) && NodeAt(n.root, a) == r.root && Pointer(n.root, a) == path
            && SpanOf(out, n, a).start == SpanOf(source, t, a).start + |r.lead|
    ensures var t, n := Derivation(source), Derivation(out);
            forall c | JsonTree.Valid(t.root, c) && !(a <= c) ::
              && JsonTree.Valid(n.root, c) && Pointer(n.root, c) == Pointer(t.root, c)
              && ShiftedSpan(SpanOf(source, t, c), SpanOf(source, t, a), |out| - |source|, SpanOf(out, n, c))
              && (!(c <= a) ==> NodeAt(n.root, c) == NodeAt(t.root, c))
    ensures forall c | JsonTree.Valid(Derivation(out).root, c)
            && !(a <= c) :: JsonTree.Valid(Derivation(source).root, c)
  {
    hide Parse, Utf8.Encode, JsonTree.Valid, OffsetAt, NodeAt, Bytes, ReplaceAt, Segments, HasBom;
    var t := Derivation(source);
    var r := Parse(Utf8.Encode(replacement)).value;
    a := FoundIsUnique(source, path);
    ParseSound(Utf8.Encode(replacement));
    var n := EditDerivation(source, a, r, out);
    NewNode(t.root, a, r);
    ReplaceTree(t.root, a, r);
    SpanHoldsNode(source, a);
    RootPlace(source);
    forall c | !(a <= c)
      ensures JsonTree.Valid(t.root, c) <==> JsonTree.Valid(n.root, c)
      ensures JsonTree.Valid(t.root, c) ==>
                && Pointer(n.root, c) == Pointer(t.root, c)
                && ShiftedSpan(SpanOf(source, t, c), SpanOf(source, t, a), |out| - |source|, SpanOf(out, n, c))
                && (!(c <= a) ==> NodeAt(n.root, c) == NodeAt(t.root, c))
    {
      OtherNodes(t.root, a, r, c);
      if JsonTree.Valid(t.root, c) {
        OtherSpan(source, out, t, n, a, r, c);
      }
    }
  }

  /** The spliced bytes are the bytes of the derivation with the node replaced. */
  lemma EditDerivation(source: seq<byte>, a: Address, r: Text, out: seq<byte>) returns (n: Text)
    requires IsDocument(source) && JsonOk(r) && a != [] && JsonTree.Valid(Derivation(source).root, a)
    requires var span := SpanOf(source, Derivation(source), a);
             span.end <= |source| && out == Splice(source, span.start, span.end, JsonBytes(r))
    ensures IsDocument(out) && Derivation(out) == n && BaseOffset(out) == BaseOffset(source)
    ensures var t := Derivation(source); n == Text(t.lead, ReplaceAt(t.root, a, r), t.trail)
  {
    hide Parse, OffsetAt, NodeAt, Bytes, ReplaceAt, JsonTree.Valid, ValueOk, AllWs, Utf8.Valid, Splice, HasBom,
      JsonBytes;
    var t := Derivation(source);
    n := Text(t.lead, ReplaceAt(t.root, a, r), t.trail);
    var base := BaseOffset(source);
    RootPlace(source);
    ReplaceOk(t.root, a, r);
    ReplaceRoot(t, a, r);
    BomSplit(source);
    var bom := if base == 3 then BOM else [];
    var start := |t.lead| + OffsetAt(t.root, a);
    SpliceRight(bom, JsonBytes(t), start, start + |Bytes(NodeAt(t.root, a))|, JsonBytes(r));
    ReplacedIsObject(t.root, a, r);
    DerivationIsDocument(out, n, base);
  }

  lemma BomSplit(source: seq<byte>)
    ensures BaseOffset(source) in {0, 3}
    ensures source == (if BaseOffset(source) == 3 then BOM else []) + Body(source)
  {
  }

  lemma ReplaceRoot(t: Text, a: Address, r: Text)
    requires JsonTree.Valid(t.root, a) && a != []
    ensures var start := |t.lead| + OffsetAt(t.root, a);
            var end := start + |Bytes(NodeAt(t.root, a))|;
            && end <= |JsonBytes(t)|
            && JsonBytes(Text(t.lead, ReplaceAt(t.root, a, r), t.trail))
               == Splice(JsonBytes(t), start, end, JsonBytes(r))
  {
    hide OffsetAt, NodeAt, Bytes, ReplaceAt, JsonTree.Valid, Splice;
    var start := OffsetAt(t.root, a);
    ReplaceBytes(t.root, a, r);
    SpliceWithin(t.lead, Bytes(t.root), t.trail, start, start + |Bytes(NodeAt(t.root, a))|, JsonBytes(r));
  }

  lemma ReplacedIsObject(v: Value, a: Address, r: Text)
    requires JsonTree.Valid(v, a) && a != [] && IsObject(v)
    ensures IsObject(ReplaceAt(v, a, r))
  {
  }

  /** Where a node that is not at or below `a` ends up. */
  lemma OtherSpan(source: seq<byte>, out: seq<byte>, t: Text, n: Text, a: Address, r: Text, c: Address)
    requires ValueOk(t.root) && JsonTree.Valid(t.root, a) && JsonTree.Valid(t.root, c) && a != [] && !(a <= c)
    requires n == Text(t.lead, ReplaceAt(t.root, a, r), t.trail) && JsonTree.Valid(n.root, c)
    requires BaseOffset(out) == BaseOffset(source) && |out| - |source| == Delta(t.root, a, r)
    ensures ShiftedSpan(SpanOf(source, t, c), SpanOf(source, t, a), |out| - |source|, SpanOf(out, n, c))
  {
    hide Bytes, OffsetAt, NodeAt, ReplaceAt, HasBom, JsonTree.Valid, Before;
    OtherNodes(t.root, a, r, c);
    AddressCases(a, c);
    NodeNotEmpty(t.root, a);
    if c <= a {
      var d := a[|c|..];
      assert a == c + d;
      SplitAddress(t.root, c, d);
      DescendantPlace(t.root, c, d);
      NotBefore(a, c);
    } else if Before(a, c) {
      DisjointPlaces(t.root, a, c);
    } else {
      DisjointPlaces(t.root, c, a);
      NotBoth(c, a);
    }
  }

  lemma {:induction false} SplitAddress(v: Value, c: Address, d: Address)
    requires JsonTree.Valid(v, c + d)
    ensures JsonTree.Valid(v, c) && JsonTree.Valid(NodeAt(v, c), d)
    decreases |c|
  {
    if c == [] {
      assert c + d == d;
    } else {
      assert (c + d)[1..] == c[1..] + d;
      SplitAddress(ItemAt(v.items, c[0]).value, c[1..], d);
    }
  }

  lemma {:induction false} NotBefore(a: Address, c: Address)
    requires c <= a
    ensures !Before(a, c)
    decreases |a|
  {
    if a != [] && c != [] {
      NotBefore(a[1..], c[1..]);
    }
  }

  lemma {:induction false} NotBoth(a: Address, c: Address)
    requires Before(a, c)
    ensures !Before(c, a)
    decreases |a|
  {
    if a[0] == c[0] {
      NotBoth(a[1..], c[1..]);
    }
  }

  lemma {:induction false} NodeNotEmpty(v: Value, a: Address)
    requires ValueOk(v) && JsonTree.Valid(v, a)
    ensures Bytes(NodeAt(v, a)) != []
    decreases |a|
  {
    if a == [] {
      FirstOfValue(v);
    } else {
      ItemAtOk(v.items, v.kind, a[0]);
      NodeNotEmpty(ItemAt(v.items, a[0]).value, a[1..]);
    }
  }
}
