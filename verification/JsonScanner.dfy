/** The hand-written span scanner of `json.rs`: a specification of every step of it on every input,
    errors included, and the class whose methods are proved to take exactly those steps. The scanner
    is laxer than the grammar (form feeds, any escape letter, both exponent signs). */
module JsonScanner {
  import opened Wrappers
  import opened Utf8
  import opened JsonGrammar
  import opened JsonTree
  import JsonStrict
  import opened Path

  datatype Scan<+T> = Done(cursor: nat, value: T) | Failed(cursor: nat, message: string)

  /** `u8::is_ascii_whitespace`. */
  predicate IsAsciiWs(b: byte) {
    IsWs(b) || b == 0x0C
  }

  function SkipWs(b: seq<byte>, i: nat): (j: nat)
    requires i <= |b|
    ensures i <= j <= |b|
  {
    Run(b, i, IsAsciiWs)
  }

  predicate Peek(b: seq<byte>, i: nat, c: byte) {
    i < |b| && b[i] == c
  }

  // ---- scalars --------------------------------------------------------------

  function ScanChars(b: seq<byte>, i: nat): (r: Scan<()>)
    requires i <= |b|
    ensures r.Done? ==> i < r.cursor <= |b|
    ensures r.cursor <= |b|
    decreases |b| - i
  {
    if i == |b| then Failed(i, "unterminated string")
    else if b[i] == QUOTE then Done(i + 1, ())
    else if b[i] == BACKSLASH then
      if i + 1 == |b| then Failed(i + 1, "unterminated escape") else ScanChars(b, i + 2)
    else if b[i] < 0x20 then Failed(i, "control character in string")
    else ScanChars(b, i + 1)
  }

  function ScanString(b: seq<byte>, i: nat): (r: Scan<()>)
    requires i <= |b|
    ensures r.Done? ==> i < r.cursor <= |b|
    ensures r.cursor <= |b|
  {
    if !Peek(b, i, QUOTE) then Failed(i, "expected string") else ScanChars(b, i + 1)
  }

  /** The whole-slice decoding of an object key by the JSON library. */
  function DecodeKey(slice: seq<byte>): Option<string> {
    match JsonStrict.ParseString(slice, 0)
    case Some((text, end)) => if end == |slice| then Some(TextString(text)) else None
    case None => None
  }

  function ScanKey(b: seq<byte>, i: nat): (r: Scan<string>)
    requires i <= |b|
    ensures r.Done? ==> i < r.cursor <= |b|
    ensures r.cursor <= |b|
  {
    match ScanString(b, i)
    case Failed(at, message) => Failed(at, message)
    case Done(end, _) =>
      match DecodeKey(b[i..end])
      case None => Failed(end, "invalid JSON object key")
      case Some(key) => Done(end, key)
  }

  function ScanExponent(b: seq<byte>, i: nat): (r: Scan<()>)
    requires i <= |b|
    ensures i <= r.cursor <= |b|
  {
    if !Peek(b, i, 0x65) && !Peek(b, i, 0x45) then Done(i, ())
    else
      var plus := if Peek(b, i + 1, 0x2B) then i + 2 else i + 1;
      var minus := if Peek(b, plus, 0x2D) then plus + 1 else plus;
      var end := Run(b, minus, IsDigit);
      if end == minus then Failed(end, "invalid exponent") else Done(end, ())
  }

  function ScanFraction(b: seq<byte>, i: nat): (r: Scan<()>)
    requires i <= |b|
    ensures i <= r.cursor <= |b|
  {
    if !Peek(b, i, 0x2E) then ScanExponent(b, i)
    else
      var end := Run(b, i + 1, IsDigit);
      if end == i + 1 then Failed(end, "invalid fraction") else ScanExponent(b, end)
  }

  function ScanNumber(b: seq<byte>, i: nat): (r: Scan<()>)
    requires i <= |b|
    ensures i <= r.cursor <= |b|
    ensures r.Done? ==> i < r.cursor
  {
    var w := if Peek(b, i, 0x2D) then i + 1 else i;
    if Peek(b, w, 0x30) then
      if w + 1 < |b| && IsDigit(b[w + 1]) then Failed(w + 1, "leading zero in number")
      else ScanFraction(b, w + 1)
    else
      var end := Run(b, w, IsDigit);
      if end == w then Failed(end, "invalid number") else ScanFraction(b, end)
  }

  function ScanLiteral(b: seq<byte>, i: nat, literal: seq<byte>): (r: Scan<()>)
    requires i <= |b| && literal != []
    ensures r.Done? ==> i < r.cursor <= |b|
    ensures r.cursor <= |b|
  {
    if At(b, i, literal) then Done(i + |literal|, ()) else Failed(i, "invalid literal")
  }

  // ---- values; the result is the list of fields pushed on the way -----------

  function ScanScalar(b: seq<byte>, i: nat): (r: Scan<()>)
    requires i < |b|
    ensures r.Done? ==> i < r.cursor <= |b|
    ensures r.cursor <= |b|
  {
    if b[i] == QUOTE then ScanString(b, i)
    else if b[i] == 0x2D || IsDigit(b[i]) then ScanNumber(b, i)
    else if b[i] == 0x74 then ScanLiteral(b, i, TRUE_BYTES)
    else if b[i] == 0x66 then ScanLiteral(b, i, FALSE_BYTES)
    else if b[i] == 0x6E then ScanLiteral(b, i, NULL_BYTES)
    else Failed(i, "unexpected value")
  }

  function ScanValue(b: seq<byte>, base: nat, i: nat, path: string): (r: Scan<seq<Field>>)
    requires i <= |b|
    ensures r.Done? ==> i < r.cursor <= |b|
    ensures r.cursor <= |b|
    decreases |b| - i, 1
  {
    var start := SkipWs(b, i);
    if start == |b| then Failed(start, "unexpected end of input")
    else
      var inner :=
        if b[start] == Open(Obj) then ScanObject(b, base, start, path)
        else if b[start] == Open(Arr) then ScanArray(b, base, start, path)
        else
          match ScanScalar(b, start)
          case Failed(at, message) => Failed(at, message)
          case Done(end, _) => Done(end, []);
      match inner
      case Failed(at, message) => Failed(at, message)
      case Done(end, fields) =>
        Done(end, fields + if path == [] then [] else [Field(path, base + start, base + end)])
  }

  function ScanObject(b: seq<byte>, base: nat, i: nat, path: string): (r: Scan<seq<Field>>)
    requires i < |b|
    ensures r.Done? ==> i < r.cursor <= |b|
    ensures r.cursor <= |b|
    decreases |b| - i, 0
  {
    var j := SkipWs(b, i + 1);
    if Peek(b, j, Close(Obj)) then Done(j + 1, []) else ScanMembers(b, base, j, path)
  }

  /** One member: key, colon, value. */
  function ScanMember(b: seq<byte>, base: nat, i: nat, path: string): (r: Scan<seq<Field>>)
    requires i <= |b|
    ensures r.Done? ==> i < r.cursor <= |b|
    ensures r.cursor <= |b|
    decreases |b| - i, 2
  {
    var k := SkipWs(b, i);
    if !Peek(b, k, QUOTE) then Failed(k, "object key must be a string")
    else
      match ScanKey(b, k)
      case Failed(at, message) => Failed(at, message)
      case Done(g, key) =>
        var c := SkipWs(b, g);
        if !Peek(b, c, COLON) then Failed(c, "expected ':' after object key")
        else ScanValue(b, base, c + 1, Append(path, key))
  }

  function ScanMembers(b: seq<byte>, base: nat, i: nat, path: string): (r: Scan<seq<Field>>)
    requires i <= |b|
    ensures r.Done? ==> i < r.cursor <= |b|
    ensures r.cursor <= |b|
    decreases |b| - i, 3
  {
    match ScanMember(b, base, i, path)
    case Failed(at, message) => Failed(at, message)
    case Done(t, fields) =>
      var e := SkipWs(b, t);
      if Peek(b, e, Close(Obj)) then Done(e + 1, fields)
      else if !Peek(b, e, COMMA) then Failed(e, "expected ',' or '}' in object")
      else
        match ScanMembers(b, base, e + 1, path)
        case Failed(at, message) => Failed(at, message)
        case Done(end, rest) => Done(end, fields + rest)
  }

  function ScanArray(b: seq<byte>, base: nat, i: nat, path: string): (r: Scan<seq<Field>>)
    requires i < |b|
    ensures r.Done? ==> i < r.cursor <= |b|
    ensures r.cursor <= |b|
    decreases |b| - i, 0
  {
    var j := SkipWs(b, i + 1);
    if Peek(b, j, Close(Arr)) then Done(j + 1, []) else ScanElements(b, base, j, path, 0)
  }

  function ScanElements(b: seq<byte>, base: nat, i: nat, path: string, index: nat): (r: Scan<seq<Field>>)
    requires i <= |b|
    ensures r.Done? ==> i < r.cursor <= |b|
    ensures r.cursor <= |b|
    decreases |b| - i, 2
  {
    match ScanValue(b, base, i, Append(path, Decimal(index)))
    case Failed(at, message) => Failed(at, message)
    case Done(t, fields) =>
      var e := SkipWs(b, t);
      if Peek(b, e, Close(Arr)) then Done(e + 1, fields)
      else if !Peek(b, e, COMMA) then Failed(e, "expected ',' or ']' in array")
      else
        match ScanElements(b, base, e + 1, path, index + 1)
        case Failed(at, message) => Failed(at, message)
        case Done(end, rest) => Done(end, fields + rest)
  }

  // ---- the scanner object ---------------------------------------------------

  class Scanner {
    const bytes: seq<byte>
    const base: nat
    var cursor: nat
    var fields: seq<Field>

    constructor (bytes: seq<byte>, base: nat)
      ensures this.bytes == bytes && this.base == base && cursor == 0 && fields == []
    {
      this.bytes, this.base := bytes, base;
      cursor, fields := 0, [];
    }

    method SkipWhiteSpace()
      requires cursor <= |bytes|
      modifies this`cursor
      ensures cursor == SkipWs(bytes, old(cursor))
    {
      while cursor < |bytes| && IsAsciiWs(bytes[cursor])
        invariant cursor <= |bytes|
        invariant SkipWs(bytes, cursor) == SkipWs(bytes, old(cursor))
      {
        cursor := cursor + 1;
      }
    }

    method ConsumeIf(c: byte) returns (ok: bool)
      modifies this`cursor
      ensures ok == Peek(bytes, old(cursor), c)
      ensures cursor == if ok then old(cursor) + 1 else old(cursor)
    {
      ok := cursor < |bytes| && bytes[cursor] == c;
      if ok {
        cursor := cursor + 1;
      }
    }

    method ConsumeDigits() returns (count: nat)
      requires cursor <= |bytes|
      modifies this`cursor
      ensures cursor == Run(bytes, old(cursor), IsDigit)
      ensures count == cursor - old(cursor)
    {
      var start := cursor;
      while cursor < |bytes| && IsDigit(bytes[cursor])
        invariant start <= cursor <= |bytes|
        invariant Run(bytes, cursor, IsDigit) == Run(bytes, start, IsDigit)
      {
        cursor := cursor + 1;
      }
      count := cursor - start;
    }

    method ParseString() returns (r: Result<(), string>)
      requires cursor <= |bytes|
      modifies this`cursor
      ensures ScanString(bytes, old(cursor)) == Reached(r, cursor)
    {
      var quoted := ConsumeIf(QUOTE);
      if !quoted {
        return Err("expected string");
      }
      while cursor < |bytes|
        invariant cursor <= |bytes|
        invariant ScanChars(bytes, cursor) == ScanString(bytes, old(cursor))
        decreases |bytes| - cursor
      {
        var c := bytes[cursor];
        if c == QUOTE {
          cursor := cursor + 1;
          return Ok(());
        } else if c == BACKSLASH {
          cursor := cursor + 1;
          if cursor >= |bytes| {
            return Err("unterminated escape");
          }
          cursor := cursor + 1;
        } else if c < 0x20 {
          return Err("control character in string");
        } else {
          cursor := cursor + 1;
        }
      }
      return Err("unterminated string");
    }

    method ParseStringValue() returns (r: Result<string, string>)
      requires cursor <= |bytes|
      modifies this`cursor
      ensures ScanKey(bytes, old(cursor)) == Reached(r, cursor)
    {
      var start := cursor;
      var scanned := ParseString();
      if scanned.Err? {
        return Err(scanned.error);
      }
      var key := DecodeKey(bytes[start..cursor]);
      if key.None? {
        return Err("invalid JSON object key");
      }
      return Ok(key.value);
    }

    method ParseNumber() returns (r: Result<(), string>)
      requires cursor <= |bytes|
      modifies this`cursor
      ensures ScanNumber(bytes, old(cursor)) == Reached(r, cursor)
    {
      hide Run;
      var start := cursor;
      var _ := ConsumeIf(0x2D);
      var zero := ConsumeIf(0x30);
      if zero {
        if cursor < |bytes| && IsDigit(bytes[cursor]) {
          return Err("leading zero in number");
        }
      } else {
        var digits := ConsumeDigits();
        if digits == 0 {
          return Err("invalid number");
        }
      }
      r := ParseFraction();
    }

    method ParseFraction() returns (r: Result<(), string>)
      requires cursor <= |bytes|
      modifies this`cursor
      ensures ScanFraction(bytes, old(cursor)) == Reached(r, cursor)
    {
      hide Run;
      var dot := ConsumeIf(0x2E);
      if dot {
        var digits := ConsumeDigits();
        if digits == 0 {
          return Err("invalid fraction");
        }
      }
      r := ParseExponent();
    }

    method ParseExponent() returns (r: Result<(), string>)
      requires cursor <= |bytes|
      modifies this`cursor
      ensures ScanExponent(bytes, old(cursor)) == Reached(r, cursor)
    {
      hide Run;
      if cursor < |bytes| && (bytes[cursor] == 0x65 || bytes[cursor] == 0x45) {
        cursor := cursor + 1;
        var _ := ConsumeIf(0x2B);
        var _ := ConsumeIf(0x2D);
        var digits := ConsumeDigits();
        if digits == 0 {
          return Err("invalid exponent");
        }
      }
      return Ok(());
    }

    method ConsumeLiteral(literal: seq<byte>) returns (r: Result<(), string>)
      requires cursor <= |bytes| && literal != []
      modifies this`cursor
      ensures ScanLiteral(bytes, old(cursor), literal) == Reached(r, cursor)
    {
      if cursor + |literal| <= |bytes| && bytes[cursor..cursor + |literal|] == literal {
        cursor := cursor + |literal|;
        return Ok(());
      }
      return Err("invalid literal");
    }

    /** Adds the value's fields to the list and moves behind the value, or reports where it failed. */
    method ParseValue(path: string) returns (r: Result<(), string>)
      requires cursor <= |bytes|
      modifies this
      ensures Moved(ScanValue(bytes, base, old(cursor), path), r, cursor, old(fields), fields)
      decreases |bytes| - cursor, 1
    {
      hide Run, SkipWs, ScanObject, ScanArray, ScanString, ScanNumber, ScanLiteral;
      SkipWhiteSpace();
      var start := cursor;
      if cursor >= |bytes| {
        return Err("unexpected end of input");
      }
      var c := bytes[cursor];
      var inner: Result<(), string>;
      if c == Open(Obj) {
        inner := ParseObject(path);
      } else if c == Open(Arr) {
        inner := ParseArray(path);
      } else if c == QUOTE {
        inner := ParseString();
      } else if c == 0x2D || IsDigit(c) {
        inner := ParseNumber();
      } else if c == 0x74 {
        inner := ConsumeLiteral(TRUE_BYTES);
      } else if c == 0x66 {
        inner := ConsumeLiteral(FALSE_BYTES);
      } else if c == 0x6E {
        inner := ConsumeLiteral(NULL_BYTES);
      } else {
        return Err("unexpected value");
      }
      if inner.Err? {
        return inner;
      }
      if path != [] {
        fields := fields + [Field(path, base + start, base + cursor)];
      }
      return Ok(());
    }

    method ParseObject(path: string) returns (r: Result<(), string>)
      requires cursor < |bytes|
      modifies this
      ensures Moved(ScanObject(bytes, base, old(cursor), path), r, cursor, old(fields), fields)
      decreases |bytes| - cursor, 0
    {
      hide Run, SkipWs, ScanMember, ScanMembers, Rest, Moved;
      NothingMoved();
      cursor := cursor + 1;
      SkipWhiteSpace();
      var closed := ConsumeIf(Close(Obj));
      if closed {
        return Ok(());
      }
      ghost var whole := ScanMembers(bytes, base, cursor, path);
      WholeIsRest(whole, fields);
      while true
        invariant old(cursor) < cursor <= |bytes|
        invariant Rest(whole, old(fields), ScanMembers(bytes, base, cursor, path), fields)
        decreases |bytes| - cursor
      {
        ghost var at, now := cursor, fields;
        var value := ParseMember(path);
        MembersStep(bytes, base, at, path, value, cursor, whole, old(fields), now, fields);
        if value.Err? {
          return value;
        }
        SkipWhiteSpace();
        closed := ConsumeIf(Close(Obj));
        if closed {
          return Ok(());
        }
        var comma := ConsumeIf(COMMA);
        if !comma {
          return Err("expected ',' or '}' in object");
        }
      }
    }

    /** The first half of the object loop's body: key, colon and value. */
    method ParseMember(path: string) returns (r: Result<(), string>)
      requires cursor <= |bytes|
      modifies this
      ensures Moved(ScanMember(bytes, base, old(cursor), path), r, cursor, old(fields), fields)
      decreases |bytes| - cursor, 2
    {
      hide Run, SkipWs, ScanValue, ScanKey, Append;
      SkipWhiteSpace();
      if !(cursor < |bytes| && bytes[cursor] == QUOTE) {
        return Err("object key must be a string");
      }
      var key := ParseStringValue();
      if key.Err? {
        return Err(key.error);
      }
      SkipWhiteSpace();
      var colon := ConsumeIf(COLON);
      if !colon {
        return Err("expected ':' after object key");
      }
      r := ParseValue(Append(path, key.value));
    }

    method ParseArray(path: string) returns (r: Result<(), string>)
      requires cursor < |bytes|
      modifies this
      ensures Moved(ScanArray(bytes, base, old(cursor), path), r, cursor, old(fields), fields)
      decreases |bytes| - cursor, 0
    {
      hide Run, SkipWs, ScanValue, ScanKey, Append, Decimal, ScanElements, Rest, Moved;
      NothingMoved();
      cursor := cursor + 1;
      SkipWhiteSpace();
      var closed := ConsumeIf(Close(Arr));
      if closed {
        return Ok(());
      }
      var index := 0;
      ghost var whole := ScanElements(bytes, base, cursor, path, index);
      WholeIsRest(whole, fields);
      while true
        invariant old(cursor) < cursor <= |bytes|
        invariant Rest(whole, old(fields), ScanElements(bytes, base, cursor, path, index), fields)
        decreases |bytes| - cursor
      {
        ghost var at, now := cursor, fields;
        var value := ParseValue(Append(path, Decimal(index)));
        ElementsStep(bytes, base, at, path, index, value, cursor, whole, old(fields), now, fields);
        if value.Err? {
          return value;
        }
        index := index + 1;
        SkipWhiteSpace();
        closed := ConsumeIf(Close(Arr));
        if closed {
          return Ok(());
        }
        var comma := ConsumeIf(COMMA);
        if !comma {
          return Err("expected ',' or ']' in array");
        }
      }
    }
  }

  /** The specification's view of a result and the cursor it was returned at. */
  function Reached<T>(r: Result<T, string>, cursor: nat): Scan<T> {
    match r
    case Ok(value) => Done(cursor, value)
    case Err(message) => Failed(cursor, message)
  }

  /** The scanner did what `scan` says: same cursor, same error, same fields appended. */
  ghost predicate Moved(scan: Scan<seq<Field>>, r: Result<(), string>, cursor: nat, before: seq<Field>,
      after: seq<Field>) {
    match r
    case Ok(_) => scan.Done? && scan.cursor == cursor && after == before + scan.value
    case Err(message) => scan == Failed(cursor, message)
  }

  /** With `now` already in the list, the remaining scan `rest` completes the scan `whole`. */
  ghost predicate Rest(whole: Scan<seq<Field>>, before: seq<Field>, rest: Scan<seq<Field>>, now: seq<Field>) {
    match rest
    case Done(end, more) => whole.Done? && whole.cursor == end && before + whole.value == now + more
    case Failed(at, message) => whole == Failed(at, message)
  }

  lemma NothingMoved()
    ensures forall cursor: nat, fields: seq<Field> :: Moved(Done(cursor, []), Ok(()), cursor, fields, fields)
  {
    forall cursor: nat, fields: seq<Field>
      ensures Moved(Done(cursor, []), Ok(()), cursor, fields, fields)
    {
      assert fields + [] == fields;
    }
  }

  lemma WholeIsRest(whole: Scan<seq<Field>>, fields: seq<Field>)
    ensures Rest(whole, fields, whole, fields)
  {
  }

  /** One round of the object loop. */
  lemma MembersStep(b: seq<byte>, base: nat, i: nat, path: string, r: Result<(), string>, t: nat,
      whole: Scan<seq<Field>>, before: seq<Field>, now: seq<Field>, after: seq<Field>)
    requires i <= |b| && Moved(ScanMember(b, base, i, path), r, t, now, after)
    requires Rest(whole, before, ScanMembers(b, base, i, path), now)
    ensures r.Err? ==> Moved(whole, r, t, before, after)
    ensures t <= |b| && (r.Ok? ==> i < t)
    ensures r.Ok? ==>
              var e := SkipWs(b, t);
              if Peek(b, e, Close(Obj)) then Moved(whole, Ok(()), e + 1, before, after)
              else if !Peek(b, e, COMMA) then Moved(whole, Err("expected ',' or '}' in object"), e, before, after)
              else Rest(whole, before, ScanMembers(b, base, e + 1, path), after)
  {
    hide ScanMember, SkipWs;
    Regrouped(before, now, after, ScanMember(b, base, i, path));
  }

  /** And one of the array loop. */
  lemma ElementsStep(b: seq<byte>, base: nat, i: nat, path: string, index: nat, r: Result<(), string>, t: nat,
      whole: Scan<seq<Field>>, before: seq<Field>, now: seq<Field>, after: seq<Field>)
    requires i <= |b| && Moved(ScanValue(b, base, i, Append(path, Decimal(index))), r, t, now, after)
    requires Rest(whole, before, ScanElements(b, base, i, path, index), now)
    ensures r.Err? ==> Moved(whole, r, t, before, after)
    ensures t <= |b| && (r.Ok? ==> i < t)
    ensures r.Ok? ==>
              var e := SkipWs(b, t);
              if Peek(b, e, Close(Arr)) then Moved(whole, Ok(()), e + 1, before, after)
              else if !Peek(b, e, COMMA) then Moved(whole, Err("expected ',' or ']' in array"), e, before, after)
              else Rest(whole, before, ScanElements(b, base, e + 1, path, index + 1), after)
  {
    hide ScanValue, SkipWs, Append, Decimal;
    Regrouped(before, now, after, ScanValue(b, base, i, Append(path, Decimal(index))));
  }

  lemma Regrouped(before: seq<Field>, now: seq<Field>, after: seq<Field>, scan: Scan<seq<Field>>)
    requires scan.Done? ==> after == now + scan.value
    ensures scan.Done? ==> forall rest: seq<Field> :: now + (scan.value + rest) == after + rest
  {
    if scan.Done? {
      forall rest: seq<Field>
        ensures now + (scan.value + rest) == after + rest
      {
      }
    }
  }
}
