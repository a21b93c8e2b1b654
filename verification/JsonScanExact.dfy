/** On every derivable text the laxer scanner succeeds, stops right behind the value and reports
    exactly the fields of the derivation. */
module JsonScanExact {
  import opened Wrappers
  import opened Utf8
  import opened JsonGrammar
  import opened JsonTree
  import opened JsonStrict
  import opened JsonScanner
  import opened Path

  // ---- strings --------------------------------------------------------------

  predicate Ordinary(c: byte) {
    c >= 0x20 && c != QUOTE && c != BACKSLASH
  }

  lemma {:induction false} SkipOrdinary(b: seq<byte>, i: nat, x: seq<byte>)
    requires At(b, i, x) && forall k | 0 <= k < |x| :: Ordinary(x[k])
    ensures ScanChars(b, i) == ScanChars(b, i + |x|)
    decreases |x|
  {
    if x != [] {
      FirstByte(b, i, x);
      assert x == [x[0]] + x[1..];
      AtConcat(b, i, [x[0]], x[1..]);
      SkipOrdinary(b, i + 1, x[1..]);
    }
  }

  lemma SkipEscape(b: seq<byte>, i: nat, c: byte)
    requires At(b, i, [BACKSLASH, c])
    ensures i + 2 <= |b| && ScanChars(b, i) == ScanChars(b, i + 2)
  {
    assert b[i..i + 2][0] == b[i];
  }

  lemma SkipUnit(b: seq<byte>, i: nat, hex: seq<byte>)
    requires Hex4(hex) && At(b, i, [BACKSLASH, LETTER_U] + hex)
    ensures i + 6 <= |b| && ScanChars(b, i) == ScanChars(b, i + 6)
  {
    AtConcat(b, i, [BACKSLASH, LETTER_U], hex);
    SkipEscape(b, i, LETTER_U);
    SkipOrdinary(b, i + 2, hex);
  }

  /** No byte of an unescaped character means anything to the scanner. */
  lemma PlainOrdinary(c: char)
    requires SymOk(Plain(c))
    ensures forall k | 0 <= k < |EncodeChar(c)| :: Ordinary(EncodeChar(c)[k])
  {
    EncodeAscii(c);
    if c as int < 0x80 {
      assert EncodeChar(c) == [c as int];
    }
  }

  lemma SkipSym(b: seq<byte>, i: nat, s: Sym)
    requires SymOk(s) && At(b, i, SymBytes(s))
    ensures i + |SymBytes(s)| <= |b| && ScanChars(b, i) == ScanChars(b, i + |SymBytes(s)|)
  {
    hide At, ScanChars, Ordinary, EncodeChar;
    match s
    case Plain(c) =>
      PlainOrdinary(c);
      AtSlice(b, i, EncodeChar(c));
      SkipOrdinary(b, i, EncodeChar(c));
    case Short(letter) =>
      SkipEscape(b, i, letter);
    case Unit(hex) =>
      SkipUnit(b, i, hex);
    case Pair(high, low) =>
      AtConcat(b, i, [BACKSLASH, LETTER_U] + high, [BACKSLASH, LETTER_U] + low);
      SkipUnit(b, i, high);
      SkipUnit(b, i + 6, low);
  }

  lemma ScanQuote(b: seq<byte>, i: nat)
    ensures TextBytes([]) == []
    ensures At(b, i, TextBytes([]) + [QUOTE]) ==> ScanChars(b, i) == Done(i + 1, ())
  {
    assert TextBytes([]) + [QUOTE] == [QUOTE];
    AtOne(b, i, QUOTE);
  }

  lemma {:induction false} ScanCharsExact(b: seq<byte>, i: nat, t: seq<Sym>)
    requires TextOk(t) && At(b, i, TextBytes(t) + [QUOTE])
    ensures ScanChars(b, i) == Done(i + |TextBytes(t)| + 1, ())
    decreases |t|
  {
    hide At, SymBytes, SymOk, TextBytes, ScanChars;
    if t == [] {
      ScanQuote(b, i);
    } else {
      TextCons(t[0], t[1..]);
      assert [t[0]] + t[1..] == t;
      AtConcat(b, i, SymBytes(t[0]), TextBytes(t[1..]) + [QUOTE]);
      SkipSym(b, i, t[0]);
      ScanCharsExact(b, i + |SymBytes(t[0])|, t[1..]);
    }
  }

  lemma ScanStringExact(b: seq<byte>, i: nat, t: seq<Sym>)
    requires TextOk(t) && At(b, i, StringBytes(t))
    ensures i < |b| && b[i] == QUOTE
    ensures ScanString(b, i) == Done(i + |StringBytes(t)|, ())
    ensures ScanKey(b, i) == Done(i + |StringBytes(t)|, TextString(t))
  {
    hide At, DecodeKey, TextString, ScanChars, TextBytes;
    AtSlice(b, i, StringBytes(t));
    AtConcat(b, i, [QUOTE], TextBytes(t) + [QUOTE]);
    AtOne(b, i, QUOTE);
    ScanCharsExact(b, i + 1, t);
    DecodeKeyExact(t);
  }

  lemma AtSlice(b: seq<byte>, i: nat, x: seq<byte>)
    requires At(b, i, x)
    ensures i + |x| <= |b| && b[i..i + |x|] == x
  {
  }

  lemma DecodeKeyExact(t: seq<Sym>)
    requires TextOk(t)
    ensures DecodeKey(StringBytes(t)) == Some(TextString(t))
  {
    AtAll(StringBytes(t));
    hide At, StringBytes, TextString;
    ParseStringComplete(StringBytes(t), 0, t);
  }

  lemma AtAll(b: seq<byte>)
    ensures At(b, 0, b)
  {
  }

  // ---- numbers --------------------------------------------------------------

  lemma ScanExponentExact(b: seq<byte>, i: nat, mark: seq<byte>, power: seq<byte>)
    requires ExpOk(mark, power) && At(b, i, mark) && At(b, i + |mark|, power)
    requires Follow(b, i + |mark| + |power|)
    ensures i <= |b| && ScanExponent(b, i) == Done(i + |mark| + |power|, ())
    ensures i < |b| && mark != [] ==> b[i] == mark[0]
  {
    hide At, Run, AllDigits;
    AtSlice(b, i, mark);
    FirstByte(b, i, mark);
    if mark != [] {
      FirstByte(b, i + |mark|, power);
      assert |mark| == 2 ==> b[i + 1] == b[i..i + |mark|][1];
      RunOfDigits(b, i + |mark|, power);
    }
  }

  lemma ScanNumberExact(b: seq<byte>, i: nat, n: Number)
    requires NumberOk(n) && At(b, i, NumberBytes(n)) && Follow(b, i + |NumberBytes(n)|)
    ensures i <= |b| && ScanNumber(b, i) == Done(i + |NumberBytes(n)|, ())
  {
    var w := i + if n.negative then 1 else 0;
    var f := w + |n.whole|;
    var e := f + |FracBytes(n.frac)|;
    NumberAt(b, i, n);
    hide At, FracBytes;
    hide AllDigits, ScanFraction, ScanExponent, ScanNumber, ParseFrac;
    ScanExponentExact(b, e, n.mark, n.power);
    FracComplete(b, f, n.frac);
    FracEmpty(n.frac);
    ScanFractionExact(b, f, n.frac);
    ScanWholeExact(b, i, n.negative, n.whole);
  }

  lemma ScanWholeExact(b: seq<byte>, i: nat, negative: bool, whole: seq<byte>)
    requires whole != [] && AllDigits(whole) && (|whole| > 1 ==> whole[0] != 0x30)
    requires if negative then Peek(b, i, 0x2D) else i <= |b|
    requires var w := i + if negative then 1 else 0;
             At(b, w, whole) && (w + |whole| < |b| ==> !IsDigit(b[w + |whole|]))
    ensures var f := i + (if negative then 1 else 0) + |whole|;
            f <= |b| && ScanNumber(b, i) == ScanFraction(b, f)
  {
    hide ScanFraction;
    var w := i + if negative then 1 else 0;
    FirstByte(b, w, whole);
    FirstDigit(whole);
    RunOfDigits(b, w, whole);
  }

  lemma RunOfDigits(b: seq<byte>, i: nat, d: seq<byte>)
    requires AllDigits(d) && At(b, i, d) && (i + |d| < |b| ==> !IsDigit(b[i + |d|]))
    ensures i + |d| <= |b| && Run(b, i, IsDigit) == i + |d|
  {
    RunAt(b, i, IsDigit, d);
  }

  lemma ScanFractionExact(b: seq<byte>, i: nat, frac: seq<byte>)
    requires AllDigits(frac) && At(b, i, FracBytes(frac))
    requires var e := i + |FracBytes(frac)|; e < |b| ==> !IsDigit(b[e]) && b[e] != 0x2E
    ensures var e := i + |FracBytes(frac)|;
            e <= |b| && i <= |b| && ScanFraction(b, i) == ScanExponent(b, e)
  {
    if frac != [] {
      AtConcat(b, i, [0x2E], frac);
      AtOne(b, i, 0x2E);
      RunOfDigits(b, i + 1, frac);
    }
  }

  // ---- values ---------------------------------------------------------------

  lemma ScanScalarExact(b: seq<byte>, i: nat, v: Value)
    requires ValueOk(v) && !v.Blank? && !v.Full?
    requires At(b, i, Bytes(v)) && Follow(b, i + |Bytes(v)|)
    ensures i < |b| && ScanScalar(b, i) == Done(i + |Bytes(v)|, ())
  {
    FirstOfValue(v);
    FirstByte(b, i, Bytes(v));
    hide At, NumberBytes, StringBytes, NumberOk, TextOk, ScanNumber, ScanString;
    match v
    case Str(text) => ScanStringExact(b, i, text);
    case Num(number) => ScanNumberExact(b, i, number);
    case _ =>
  }

  /** White space of the grammar, followed by anything that no reader skips, is what the scanner skips. */
  lemma SkipWsExact(b: seq<byte>, i: nat, gap: seq<byte>)
    requires AllWs(gap) && At(b, i, gap)
    requires i + |gap| < |b| ==> !IsAsciiWs(b[i + |gap|])
    ensures i + |gap| <= |b| && SkipWs(b, i) == i + |gap|
  {
    RunAt(b, i, IsAsciiWs, gap);
  }

  lemma {:induction false} ScanValueExact(b: seq<byte>, base: nat, i: nat, lead: seq<byte>, v: Value, path: string)
    requires AllWs(lead) && ValueOk(v)
    requires At(b, i, lead) && At(b, i + |lead|, Bytes(v)) && Follow(b, i + |lead| + |Bytes(v)|)
    ensures i <= |b|
    ensures ScanValue(b, base, i, path)
            == Done(i + |lead| + |Bytes(v)|, ValueFields(v, path, base + i + |lead|))
    decreases v, 1
  {
    var start := i + |lead|;
    var end := start + |Bytes(v)|;
    hide At, AllWs, SkipWs, ScanScalar, ScanObject, ScanArray, ItemsFields, ValueOk, Bytes, Open, Follow;
    AtBound(b, i, lead);
    ValueStartsAt(b, start, v);
    SkipWsExact(b, i, lead);
    if v.Blank? || v.Full? {
      ScanContainerExact(b, base, start, v, path);
      OpenKinds(v.kind);
    } else {
      ScanScalarExact(b, start, v);
    }
  }

  lemma ValueStartsAt(b: seq<byte>, i: nat, v: Value)
    requires ValueOk(v) && At(b, i, Bytes(v))
    ensures i < |b| && !IsAsciiWs(b[i])
    ensures !v.Blank? && !v.Full? ==> b[i] != Open(Obj) && b[i] != Open(Arr)
    ensures (v.Blank? || v.Full?) ==> b[i] == Open(v.kind)
  {
    FirstOfValue(v);
    FirstByte(b, i, Bytes(v));
    FirstNotFormFeed(v);
  }

  lemma FirstNotFormFeed(v: Value)
    requires ValueOk(v)
    ensures Bytes(v) != [] && !IsAsciiWs(Bytes(v)[0])
  {
    FirstOfValue(v);
    if v.Num? && !v.number.negative {
      assert Bytes(v)[0] == v.number.whole[0];
    }
  }

  function ScanContainer(b: seq<byte>, base: nat, i: nat, path: string, kind: Kind): Scan<seq<Field>>
    requires i < |b|
  {
    if kind == Obj then ScanObject(b, base, i, path) else ScanArray(b, base, i, path)
  }

  lemma {:induction false} ScanContainerExact(b: seq<byte>, base: nat, i: nat, v: Value, path: string)
    requires (v.Blank? || v.Full?) && ValueOk(v) && At(b, i, Bytes(v))
    ensures i < |b| && b[i] == Open(v.kind)
    ensures ScanContainer(b, base, i, path, v.kind)
            == Done(i + |Bytes(v)|, if v.Full? then ItemsFields(v.items, path, 0, base + i + 1) else [])
    decreases v, 0
  {
    hide At, AllWs, SkipWs, ItemsBytes, ItemsFields, ItemsOk, ScanMembers, ScanElements;
    BracketsAt(b, i, v.kind, if v.Full? then ItemsBytes(v.items) else v.gap);
    if v.Blank? {
      SkipWsExact(b, i + 1, v.gap);
    } else {
      var lead := v.items.item.lead;
      ItemsStart(b, i + 1, v.items, v.kind);
      ScanItemsExact(b, base, i + 1 + |lead|, v.items, v.kind, path, 0);
      SkipWsExact(b, i + 1, lead);
    }
  }

  /** The first item's white space, and the first byte behind it. */
  lemma ItemsStart(b: seq<byte>, i: nat, items: Items, kind: Kind)
    requires ItemsOk(items, kind) && At(b, i, ItemsBytes(items))
    requires var end := i + |ItemsBytes(items)|; end < |b| && b[end] == Close(kind)
    ensures var h := i + |items.item.lead|;
            && AllWs(items.item.lead) && At(b, i, items.item.lead)
            && h < |b| && !IsAsciiWs(b[h]) && b[h] != Close(kind)
  {
    hide At, ItemBytes, AllWs, HeadBytes, Bytes, Skip, ValueOk, IsAsciiWs;
    var item := items.item;
    if items.More? {
      At3(b, i, ItemBytes(item), [COMMA], ItemsBytes(items.rest));
      AtOne(b, i + |ItemBytes(item)|, COMMA);
    }
    ItemParts(b, i, item, kind);
    ItemLead(b, i, item);
    ItemFacts(item, kind);
    var h := i + |item.lead|;
    ValueStartsAt(b, h + |HeadBytes(item.head)|, item.value);
    HeadStartsAt(b, h, item.head);
  }

  lemma HeadStartsAt(b: seq<byte>, h: nat, head: Head)
    requires At(b, h, HeadBytes(head))
    ensures head.Index? ==> HeadBytes(head) == []
    ensures head.Name? ==> h < |b| && b[h] == QUOTE && !IsAsciiWs(b[h])
  {
    FirstOfHead(head);
    FirstByte(b, h, HeadBytes(head));
  }

  lemma ItemLead(b: seq<byte>, i: nat, item: Item)
    requires At(b, i, ItemBytes(item))
    ensures At(b, i, item.lead)
    ensures At(b, i + ValueStart(item) + |Bytes(item.value)|, item.trail)
  {
    hide At;
    At4(b, i, item.lead, HeadBytes(item.head), Bytes(item.value), item.trail);
  }

  /** The loop that reads items of this kind. */
  function ScanItems(b: seq<byte>, base: nat, i: nat, path: string, index: nat, kind: Kind): (r: Scan<seq<Field>>)
    requires i <= |b|
    ensures r.Done? ==> i < r.cursor <= |b|
  {
    if kind == Obj then ScanMembers(b, base, i, path) else ScanElements(b, base, i, path, index)
  }

  /** One turn of the loop that reads items of this kind. */
  function ScanOne(b: seq<byte>, base: nat, i: nat, path: string, index: nat, kind: Kind): (r: Scan<seq<Field>>)
    requires i <= |b|
    ensures r.Done? ==> i < r.cursor <= |b|
  {
    if kind == Obj then ScanMember(b, base, i, path) else ScanValue(b, base, i, Append(path, Decimal(index)))
  }

  lemma ScanItemsEnd(b: seq<byte>, base: nat, h: nat, path: string, index: nat, kind: Kind)
    requires h <= |b| && ScanOne(b, base, h, path, index, kind).Done?
    ensures var one := ScanOne(b, base, h, path, index, kind);
            var e := SkipWs(b, one.cursor);
            && (Peek(b, e, Close(kind)) ==> ScanItems(b, base, h, path, index, kind) == Done(e + 1, one.value))
            && (Peek(b, e, COMMA) ==>
                  var rest := ScanItems(b, base, e + 1, path, index + 1, kind);
                  rest.Done? ==> ScanItems(b, base, h, path, index, kind) == Done(rest.cursor, one.value + rest.value))
  {
    hide SkipWs, ScanMember, ScanValue, Append, Decimal;
  }

  /** Both loops, from behind the white space of the first item. */
  lemma {:induction false} ScanItemsExact(b: seq<byte>, base: nat, h: nat, items: Items, kind: Kind, path: string,
      index: nat)
    requires ItemsOk(items, kind) && h >= |items.item.lead|
    requires var i := h - |items.item.lead|; var end := i + |ItemsBytes(items)|;
             At(b, i, ItemsBytes(items)) && end < |b| && b[end] == Close(kind)
    ensures h <= |b|
    ensures var i := h - |items.item.lead|;
            ScanItems(b, base, h, path, index, kind)
            == Done(i + |ItemsBytes(items)| + 1, ItemsFields(items, path, index, base + i))
    decreases items, 2
  {
    hide At, AllWs, SkipWs, ItemBytes, ItemOk, ScanItems, ScanOne, ValueFields, Label, Append, Close, IsAsciiWs,
      ValueStart, Bytes;
    var item := items.item;
    var i := h - |item.lead|;
    var e := i + |ItemBytes(item)|;
    if items.More? {
      At3(b, i, ItemBytes(item), [COMMA], ItemsBytes(items.rest));
      AtOne(b, e, COMMA);
    }
    ScanItemExact(b, base, h, item, kind, path, index);
    ScanItemsEnd(b, base, h, path, index, kind);
    var own := ValueFields(item.value, Append(path, Label(item.head, index)), base + i + ValueStart(item));
    assert own + [] == own;
    if items.More? {
      var next := e + 1 + |items.rest.item.lead|;
      ItemsStart(b, e + 1, items.rest, kind);
      ScanItemsExact(b, base, next, items.rest, kind, path, index + 1);
      ItemsSkip(b, base, e + 1, items.rest.item.lead, path, index + 1, kind);
    }
  }

  lemma ItemsSkip(b: seq<byte>, base: nat, i: nat, lead: seq<byte>, path: string, index: nat, kind: Kind)
    requires AllWs(lead) && At(b, i, lead) && i + |lead| < |b| && !IsAsciiWs(b[i + |lead|])
    ensures i <= |b|
    ensures ScanItems(b, base, i, path, index, kind) == ScanItems(b, base, i + |lead|, path, index, kind)
  {
    hide At, ScanMembers, ScanElements;
    ScanSkips(b, base, i, lead, path, index);
  }

  /** Both loops skip white space themselves before they look at an item. */
  lemma ScanSkips(b: seq<byte>, base: nat, i: nat, lead: seq<byte>, path: string, index: nat)
    requires AllWs(lead) && At(b, i, lead) && i + |lead| < |b| && !IsAsciiWs(b[i + |lead|])
    ensures i <= |b|
    ensures ScanMembers(b, base, i, path) == ScanMembers(b, base, i + |lead|, path)
    ensures ScanElements(b, base, i, path, index) == ScanElements(b, base, i + |lead|, path, index)
  {
    hide At, AllWs, SkipWs, IsAsciiWs, ScanMember, ScanValue, ScanMembers, ScanElements;
    AtBound(b, i + |lead|, []);
    NoWs();
    SkipWsExact(b, i, lead);
    SkipWsExact(b, i + |lead|, []);
    ElementsSkip(b, base, i, i + |lead|, path, index);
    MembersSkip(b, base, i, i + |lead|, path);
  }

  lemma NoWs()
    ensures AllWs([])
  {
  }

  lemma ElementsSkip(b: seq<byte>, base: nat, i: nat, h: nat, path: string, index: nat)
    requires i <= h <= |b| && SkipWs(b, i) == h && SkipWs(b, h) == h
    ensures ScanElements(b, base, i, path, index) == ScanElements(b, base, h, path, index)
  {
    hide SkipWs, Peek, ScanValue, Decimal, Append;
    ValueSkips(b, base, i, h, Append(path, Decimal(index)));
  }

  lemma MembersSkip(b: seq<byte>, base: nat, i: nat, h: nat, path: string)
    requires i <= h <= |b| && SkipWs(b, i) == h && SkipWs(b, h) == h
    ensures ScanMembers(b, base, i, path) == ScanMembers(b, base, h, path)
  {
    hide SkipWs, Peek, ScanMember;
    MemberSkips(b, base, i, h, path);
  }

  lemma ValueSkips(b: seq<byte>, base: nat, i: nat, h: nat, path: string)
    requires i <= h <= |b| && SkipWs(b, i) == h && SkipWs(b, h) == h
    ensures ScanValue(b, base, i, path) == ScanValue(b, base, h, path)
  {
    hide SkipWs, ScanObject, ScanArray, ScanScalar;
  }

  lemma MemberSkips(b: seq<byte>, base: nat, i: nat, h: nat, path: string)
    requires i <= h <= |b| && SkipWs(b, i) == h && SkipWs(b, h) == h
    ensures ScanMember(b, base, i, path) == ScanMember(b, base, h, path)
  {
    hide SkipWs, ScanKey, ScanValue;
  }

  /** One item from behind its leading white space; what follows its value is skipped up to `e`. */
  lemma {:induction false} ScanItemExact(b: seq<byte>, base: nat, h: nat, item: Item, kind: Kind, path: string,
      index: nat)
    requires ItemOk(item, kind) && h >= |item.lead|
    requires var i := h - |item.lead|; var e := i + |ItemBytes(item)|;
             At(b, i, ItemBytes(item)) && e < |b| && (b[e] == COMMA || b[e] == Close(kind))
    ensures h <= |b|
    ensures var i := h - |item.lead|; var e := i + |ItemBytes(item)|;
            var done := Done(e - |item.trail|,
                             ValueFields(item.value, Append(path, Label(item.head, index)),
                                         base + i + ValueStart(item)));
            && e - |item.trail| >= 0
            && ScanOne(b, base, h, path, index, kind) == done
            && SkipWs(b, e - |item.trail|) == e
    decreases item, 2
  {
    hide At, AllWs, SkipWs, IsAsciiWs, ItemBytes, ItemOk, ScanValue, ScanMember, ValueFields, Decimal, Append, Follow,
      Bytes, HeadBytes, Skip;
    var i := h - |item.lead|;
    var e := i + |ItemBytes(item)|;
    ItemParts(b, i, item, kind);
    ItemLead(b, i, item);
    ItemFacts(item, kind);
    var v := h + |HeadBytes(item.head)|;
    var t := v + |Bytes(item.value)|;
    EndNotWs(b, e, kind);
    SkipWsExact(b, t, item.trail);
    ValueStartsAt(b, v, item.value);
    AtBound(b, h, []);
    match item.head
    case Index =>
      HeadStartsAt(b, h, item.head);
      ScanValueExact(b, base, h, [], item.value, Append(path, Decimal(index)));
    case Name(text, gap, lead) =>
      ScanNameExact(b, base, h, text, gap, lead, item.value, path);
  }

  lemma EndNotWs(b: seq<byte>, e: nat, kind: Kind)
    requires e < |b| && (b[e] == COMMA || b[e] == Close(kind))
    ensures !IsAsciiWs(b[e])
  {
  }

  lemma {:induction false} ScanNameExact(b: seq<byte>, base: nat, h: nat, text: seq<Sym>, gap: seq<byte>,
      lead: seq<byte>, value: Value, path: string)
    requires TextOk(text) && AllWs(gap) && AllWs(lead) && AllWs([]) && ValueOk(value)
    requires At(b, h, HeadBytes(Name(text, gap, lead)))
    requires var v := h + |HeadBytes(Name(text, gap, lead))|; At(b, v, Bytes(value)) && Follow(b, v + |Bytes(value)|)
    ensures h <= |b|
    ensures var v := h + |HeadBytes(Name(text, gap, lead))|;
            ScanMember(b, base, h, path)
            == Done(v + |Bytes(value)|, ValueFields(value, Append(path, TextString(text)), base + v))
    decreases value, 2
  {
    hide At, AllWs, SkipWs, IsAsciiWs, ScanValue, ValueFields, Append, Follow, StringBytes, Bytes, ValueOk, ScanKey;
    var g := h + |StringBytes(text)|;
    var c := g + |gap|;
    At4(b, h, StringBytes(text), gap, [COLON], lead);
    AtOne(b, c, COLON);
    ScanStringExact(b, h, text);
    AtBound(b, h, []);
    NotWs(b, h);
    NotWs(b, c);
    SkipWsExact(b, h, []);
    SkipWsExact(b, g, gap);
    ScanValueExact(b, base, c + 1, lead, value, Append(path, TextString(text)));
  }

  lemma NotWs(b: seq<byte>, i: nat)
    requires i < |b| && (b[i] == QUOTE || b[i] == COLON)
    ensures !IsAsciiWs(b[i])
  {
  }

  lemma ItemFacts(item: Item, kind: Kind)
    requires ItemOk(item, kind)
    ensures AllWs(item.lead) && AllWs(item.trail) && ValueOk(item.value) && AllWs([])
    ensures item.head.Index? <==> kind == Arr
    ensures item.head.Name? ==> TextOk(item.head.text) && AllWs(item.head.gap) && AllWs(item.head.lead)
  {
  }
}
