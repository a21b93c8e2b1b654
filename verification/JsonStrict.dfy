/** A strict recursive-descent parser for the grammar, sound (what it returns derives the bytes it
    read) and complete (it finds every derivation), so every byte string has at most one derivation. */
module JsonStrict {
  import opened Wrappers
  import opened Utf8
  import opened JsonGrammar

  // ---- numbers --------------------------------------------------------------

  /** Reads one or more digits. */
  function ParseDigits(b: seq<byte>, i: nat): (r: Option<(seq<byte>, nat)>)
    requires i <= |b|
    ensures r.Some? ==> i < r.value.1 <= |b|
  {
    var j := Run(b, i, IsDigit);
    if j == i then None else Some((b[i..j], j))
  }

  lemma DigitsSound(b: seq<byte>, i: nat)
    requires i <= |b| && ParseDigits(b, i).Some?
    ensures var (d, j) := ParseDigits(b, i).value;
            d != [] && AllDigits(d) && At(b, i, d) && j == i + |d| && d[0] == b[i]
  {
  }

  lemma DigitsComplete(b: seq<byte>, i: nat, d: seq<byte>)
    requires d != [] && AllDigits(d) && At(b, i, d) && (i + |d| < |b| ==> !IsDigit(b[i + |d|]))
    ensures i + |d| <= |b| && b[i] == d[0]
    ensures ParseDigits(b, i) == Some((d, i + |d|))
  {
    RunAt(b, i, IsDigit, d);
    FirstByte(b, i, d);
  }

  /** Reads `[ decimal-point 1*DIGIT ]`; the digits read, or none. */
  function ParseFrac(b: seq<byte>, i: nat): (r: Option<(seq<byte>, nat)>)
    requires i <= |b|
    ensures r.Some? ==> i <= r.value.1 <= |b|
  {
    if i < |b| && b[i] == 0x2E then ParseDigits(b, i + 1) else Some(([], i))
  }

  lemma FracSound(b: seq<byte>, i: nat)
    requires i <= |b| && ParseFrac(b, i).Some?
    ensures var (f, j) := ParseFrac(b, i).value;
            AllDigits(f) && At(b, i, FracBytes(f)) && j == i + |FracBytes(f)|
  {
    AtBound(b, i, []);
    AtOne(b, i, 0x2E);
    if i < |b| && b[i] == 0x2E {
      DigitsSound(b, i + 1);
      var f := ParseDigits(b, i + 1).value.0;
      hide At;
      AtConcat(b, i, [0x2E], f);
    }
  }

  lemma FracComplete(b: seq<byte>, i: nat, f: seq<byte>)
    requires AllDigits(f) && At(b, i, FracBytes(f))
    requires i + |FracBytes(f)| < |b| ==> !IsDigit(b[i + |FracBytes(f)|]) && b[i + |FracBytes(f)|] != 0x2E
    ensures i <= |b|
    ensures ParseFrac(b, i) == Some((f, i + |FracBytes(f)|))
    ensures i < |b| && f != [] ==> b[i] == 0x2E
  {
    hide At, ParseDigits, AllDigits;
    AtBound(b, i, FracBytes(f));
    if f != [] {
      AtConcat(b, i, [0x2E], f);
      AtOne(b, i, 0x2E);
      DigitsComplete(b, i + 1, f);
    }
  }

  /** Reads `[ e [ minus / plus ] 1*DIGIT ]`: the mark with its sign, and the digits. */
  function ParseExp(b: seq<byte>, i: nat): (r: Option<(seq<byte>, seq<byte>, nat)>)
    requires i <= |b|
    ensures r.Some? ==> i <= r.value.2 <= |b|
  {
    if i == |b| || (b[i] != 0x65 && b[i] != 0x45) then Some(([], [], i))
    else
      var p := if i + 1 < |b| && (b[i + 1] == 0x2B || b[i + 1] == 0x2D) then i + 2 else i + 1;
      match ParseDigits(b, p)
      case None => None
      case Some((power, end)) => Some((b[i..p], power, end))
  }

  predicate ExpOk(mark: seq<byte>, power: seq<byte>) {
    AllDigits(power) && if mark == [] then power == [] else MarkOk(mark) && power != []
  }

  lemma ExpSound(b: seq<byte>, i: nat)
    requires i <= |b| && ParseExp(b, i).Some?
    ensures var (mark, power, j) := ParseExp(b, i).value;
            ExpOk(mark, power) && At(b, i, mark) && At(b, i + |mark|, power) && j == i + |mark| + |power|
  {
    AtBound(b, i, []);
    var (mark, power, j) := ParseExp(b, i).value;
    if mark != [] {
      DigitsSound(b, i + |mark|);
    }
  }

  lemma ExpComplete(b: seq<byte>, i: nat, mark: seq<byte>, power: seq<byte>)
    requires ExpOk(mark, power) && At(b, i, mark) && At(b, i + |mark|, power)
    requires i + |mark| + |power| < |b| ==> var c := b[i + |mark| + |power|]; !IsDigit(c) && c != 0x65 && c != 0x45
    ensures i <= |b|
    ensures ParseExp(b, i) == Some((mark, power, i + |mark| + |power|))
    ensures i < |b| && mark != [] ==> b[i] == mark[0]
  {
    if mark != [] {
      FirstByte(b, i, mark);
      FirstByte(b, i + |mark|, power);
      assert b[i..i + |mark|] == mark;
      assert |mark| == 2 ==> b[i + 1] == mark[1];
      DigitsComplete(b, i + |mark|, power);
    }
  }

  /** Reads `[ minus ] int [ frac ] [ exp ]`. */
  function ParseNumber(b: seq<byte>, i: nat): (r: Option<(Number, nat)>)
    requires i <= |b|
    ensures r.Some? ==> i < r.value.1 <= |b|
  {
    var negative := i < |b| && b[i] == 0x2D;
    match ParseDigits(b, if negative then i + 1 else i)
    case None => None
    case Some((whole, f)) =>
      if |whole| > 1 && whole[0] == 0x30 then None
      else
        match ParseFrac(b, f)
        case None => None
        case Some((frac, e)) =>
          match ParseExp(b, e)
          case None => None
          case Some((mark, power, end)) => Some((Number(negative, whole, frac, mark, power), end))
  }

  /** The places of a number's parts. */
  lemma NumberAt(b: seq<byte>, i: nat, n: Number)
    ensures var w := i + if n.negative then 1 else 0;
            var f := w + |n.whole|;
            var e := f + |FracBytes(n.frac)|;
            At(b, i, NumberBytes(n)) <==>
              && (if n.negative then i < |b| && b[i] == 0x2D else i <= |b|)
              && At(b, w, n.whole) && At(b, f, FracBytes(n.frac))
              && At(b, e, n.mark) && At(b, e + |n.mark|, n.power)
  {
    hide At;
    var sign: seq<byte> := if n.negative then [0x2D] else [];
    var w := i + |sign|;
    AtConcat(b, i, sign, n.whole + (FracBytes(n.frac) + (n.mark + n.power)));
    At4(b, w, n.whole, FracBytes(n.frac), n.mark, n.power);
    AtOne(b, i, 0x2D);
    AtBound(b, i, sign);
    AtBound(b, w, n.whole);
  }

  lemma ParseNumberSound(b: seq<byte>, i: nat)
    requires i <= |b| && ParseNumber(b, i).Some?
    ensures var (n, j) := ParseNumber(b, i).value;
            NumberOk(n) && At(b, i, NumberBytes(n)) && j == i + |NumberBytes(n)| && i < j
  {
    hide At, AllDigits, ParseDigits, ParseFrac, ParseExp;
    var (n, j) := ParseNumber(b, i).value;
    var w := i + if n.negative then 1 else 0;
    var f := ParseDigits(b, w).value.1;
    DigitsSound(b, w);
    FracSound(b, f);
    ExpSound(b, ParseFrac(b, f).value.1);
    NumberAt(b, i, n);
  }

  /** The byte after a value: white space, a comma, a closing bracket, or nothing. */
  predicate Follow(b: seq<byte>, j: nat) {
    j < |b| ==> IsWs(b[j]) || b[j] == COMMA || b[j] == Close(Arr) || b[j] == Close(Obj)
  }

  lemma ParseNumberComplete(b: seq<byte>, i: nat, n: Number)
    requires NumberOk(n) && At(b, i, NumberBytes(n)) && Follow(b, i + |NumberBytes(n)|)
    ensures i <= |b| && ParseNumber(b, i) == Some((n, i + |NumberBytes(n)|))
  {
    hide At, AllDigits, ParseDigits, ParseFrac, ParseExp, FracBytes;
    var w := i + if n.negative then 1 else 0;
    var f := w + |n.whole|;
    var e := f + |FracBytes(n.frac)|;
    NumberAt(b, i, n);
    ExpComplete(b, e, n.mark, n.power);
    FracComplete(b, f, n.frac);
    FracEmpty(n.frac);
    DigitsComplete(b, w, n.whole);
    FirstDigit(n.whole);
  }

  lemma FracEmpty(frac: seq<byte>)
    ensures frac == [] <==> FracBytes(frac) == []
  {
  }

  lemma FirstDigit(d: seq<byte>)
    requires d != [] && AllDigits(d)
    ensures IsDigit(d[0])
  {
  }

  lemma FirstByte(b: seq<byte>, i: nat, x: seq<byte>)
    requires At(b, i, x)
    ensures x != [] ==> i < |b| && b[i] == x[0]
  {
    if x != [] {
      assert b[i..i + |x|][0] == b[i];
    }
  }

  // ---- strings --------------------------------------------------------------

  /** Reads a run of exactly four hexadecimal digits. */
  function ParseHex(b: seq<byte>, i: nat): Option<seq<byte>> {
    if i + 4 <= |b| && Hex4(b[i..i + 4]) then Some(b[i..i + 4]) else None
  }

  function ParseSym(b: seq<byte>, i: nat): (r: Option<(Sym, nat)>)
    requires i < |b|
    ensures r.Some? ==> i < r.value.1
  {
    if b[i] != BACKSLASH then
      match DecodeChar(b[i..])
      case None => None
      case Some(c) => if SymOk(Plain(c)) then Some((Plain(c), i + |EncodeChar(c)|)) else None
    else if i + 1 >= |b| then None
    else if b[i + 1] != LETTER_U then
      if IsShort(b[i + 1]) then Some((Short(b[i + 1]), i + 2)) else None
    else
      match ParseHex(b, i + 2)
      case None => None
      case Some(high) =>
        if !(0xD800 <= HexValue(high) < 0xE000) then Some((Unit(high), i + 6))
        else if HexValue(high) >= 0xDC00 || !At(b, i + 6, [BACKSLASH, LETTER_U]) then None
        else
          match ParseHex(b, i + 8)
          case None => None
          case Some(low) =>
            if 0xDC00 <= HexValue(low) < 0xE000 then Some((Pair(high, low), i + 12)) else None
  }

  lemma SymSound(b: seq<byte>, i: nat)
    requires i < |b| && ParseSym(b, i).Some?
    ensures var (s, j) := ParseSym(b, i).value; SymOk(s) && At(b, i, SymBytes(s)) && j == i + |SymBytes(s)|
  {
    hide DecodeChar, EncodeChar, HexValue, IsHex;
    match ParseSym(b, i).value.0
    case Plain(c) =>
      PlainSound(b, i);
    case Short(letter) =>
      assert b[i..i + 2] == [BACKSLASH, letter];
    case Unit(hex) =>
      EscapeSound(b, i, hex);
    case Pair(high, low) =>
      EscapeSound(b, i, high);
      EscapeSound(b, i + 6, low);
      AtConcat(b, i, [BACKSLASH, LETTER_U] + high, [BACKSLASH, LETTER_U] + low);
  }

  lemma PlainSound(b: seq<byte>, i: nat)
    requires i < |b| && DecodeChar(b[i..]).Some?
    ensures At(b, i, EncodeChar(DecodeChar(b[i..]).value))
  {
    EncodeCharOfDecode(b[i..]);
    assert b[i..][..Width(b[i..])] == b[i..i + Width(b[i..])];
  }

  lemma EscapeSound(b: seq<byte>, i: nat, hex: seq<byte>)
    requires i + 6 <= |b| && ParseHex(b, i + 2) == Some(hex)
    requires (b[i] == BACKSLASH && b[i + 1] == LETTER_U) || At(b, i, [BACKSLASH, LETTER_U])
    ensures Hex4(hex) && At(b, i, [BACKSLASH, LETTER_U] + hex)
  {
    assert b[i..i + 2] == [BACKSLASH, LETTER_U];
    AtConcat(b, i, [BACKSLASH, LETTER_U], hex);
  }

  lemma ParseSymComplete(b: seq<byte>, i: nat, s: Sym)
    requires SymOk(s) && At(b, i, SymBytes(s))
    ensures i < |b| && b[i] != QUOTE
    ensures ParseSym(b, i) == Some((s, i + |SymBytes(s)|))
  {
    match s
    case Plain(c) =>
      PlainAt(b, i, c);
    case Short(letter) =>
      assert b[i..i + 2] == [BACKSLASH, letter];
      assert b[i] == BACKSLASH && b[i + 1] == letter;
    case Unit(hex) =>
      EscapeAt(b, i, hex);
    case Pair(high, low) =>
      AtConcat(b, i, [BACKSLASH, LETTER_U] + high, [BACKSLASH, LETTER_U] + low);
      EscapeAt(b, i, high);
      EscapeAt(b, i + 6, low);
  }

  lemma PlainAt(b: seq<byte>, i: nat, c: char)
    requires SymOk(Plain(c)) && At(b, i, EncodeChar(c))
    ensures i < |b| && b[i] != BACKSLASH && b[i] != QUOTE
    ensures DecodeChar(b[i..]) == Some(c)
  {
    var w := |EncodeChar(c)|;
    assert b[i..] == EncodeChar(c) + b[i + w..];
    DecodeCharOfEncode(c, b[i + w..]);
    FirstByte(b, i, EncodeChar(c));
    hide DecodeChar;
    EncodeAscii(c);
    if c as int < 0x80 {
      assert EncodeChar(c)[0] == c as int;
    } else {
      assert EncodeChar(c)[0] >= 0x80;
    }
  }

  lemma EscapeAt(b: seq<byte>, i: nat, hex: seq<byte>)
    requires Hex4(hex) && At(b, i, [BACKSLASH, LETTER_U] + hex)
    ensures i + 6 <= |b| && b[i] == BACKSLASH && b[i + 1] == LETTER_U
    ensures At(b, i, [BACKSLASH, LETTER_U]) && ParseHex(b, i + 2) == Some(hex)
  {
    AtConcat(b, i, [BACKSLASH, LETTER_U], hex);
    assert b[i..i + 2] == [BACKSLASH, LETTER_U];
  }

  /** Reads the characters of a string up to and including the closing quote. */
  function ParseText(b: seq<byte>, i: nat): (r: Option<(seq<Sym>, nat)>)
    ensures r.Some? ==> i < r.value.1 <= |b|
    decreases |b| - i
  {
    if i >= |b| then None
    else if b[i] == QUOTE then Some(([], i + 1))
    else
      match ParseSym(b, i)
      case None => None
      case Some((s, j)) =>
        match ParseText(b, j)
        case None => None
        case Some((rest, end)) => Some(([s] + rest, end))
  }

  lemma TextCons(s: Sym, rest: seq<Sym>)
    ensures TextBytes([s] + rest) == SymBytes(s) + TextBytes(rest)
    ensures TextBytes([s] + rest) + [QUOTE] == SymBytes(s) + (TextBytes(rest) + [QUOTE])
  {
    assert ([s] + rest)[1..] == rest;
  }

  lemma {:induction false} TextSound(b: seq<byte>, i: nat)
    requires ParseText(b, i).Some?
    ensures var (t, j) := ParseText(b, i).value;
            TextOk(t) && At(b, i, TextBytes(t) + [QUOTE]) && j == i + |TextBytes(t)| + 1
    decreases |b| - i
  {
    hide At, ParseSym, SymBytes, SymOk;
    if b[i] == QUOTE {
      AtOne(b, i, QUOTE);
      assert TextBytes([]) + [QUOTE] == [QUOTE];
    } else {
      var (s, j) := ParseSym(b, i).value;
      SymSound(b, i);
      TextSound(b, j);
      var rest := ParseText(b, j).value.0;
      TextCons(s, rest);
      AtConcat(b, i, SymBytes(s), TextBytes(rest) + [QUOTE]);
    }
  }

  lemma {:induction false} ParseTextComplete(b: seq<byte>, i: nat, t: seq<Sym>)
    requires TextOk(t) && At(b, i, TextBytes(t) + [QUOTE])
    ensures ParseText(b, i) == Some((t, i + |TextBytes(t)| + 1))
    decreases |t|
  {
    hide At, ParseSym, SymBytes, SymOk;
    if t == [] {
      assert TextBytes(t) + [QUOTE] == [QUOTE];
      AtOne(b, i, QUOTE);
    } else {
      TextCons(t[0], t[1..]);
      assert [t[0]] + t[1..] == t;
      AtConcat(b, i, SymBytes(t[0]), TextBytes(t[1..]) + [QUOTE]);
      ParseSymComplete(b, i, t[0]);
      ParseTextComplete(b, i + |SymBytes(t[0])|, t[1..]);
    }
  }

  /** Reads a whole string, both quotes included. */
  function ParseString(b: seq<byte>, i: nat): (r: Option<(seq<Sym>, nat)>)
    ensures r.Some? ==> i < r.value.1 <= |b|
  {
    if i < |b| && b[i] == QUOTE then ParseText(b, i + 1) else None
  }

  lemma StringSound(b: seq<byte>, i: nat)
    requires ParseString(b, i).Some?
    ensures var (t, j) := ParseString(b, i).value;
            TextOk(t) && At(b, i, StringBytes(t)) && j == i + |StringBytes(t)|
  {
    hide At, ParseText, TextBytes, TextOk;
    AtOne(b, i, QUOTE);
    TextSound(b, i + 1);
    AtConcat(b, i, [QUOTE], TextBytes(ParseText(b, i + 1).value.0) + [QUOTE]);
  }

  lemma ParseStringComplete(b: seq<byte>, i: nat, t: seq<Sym>)
    requires TextOk(t) && At(b, i, StringBytes(t))
    ensures ParseString(b, i) == Some((t, i + |StringBytes(t)|))
    ensures i < |b| && b[i] == QUOTE
  {
    hide At, ParseText, TextBytes, TextOk;
    AtConcat(b, i, [QUOTE], TextBytes(t) + [QUOTE]);
    AtOne(b, i, QUOTE);
    ParseTextComplete(b, i + 1, t);
  }

  // ---- values ---------------------------------------------------------------

  function Skip(b: seq<byte>, i: nat): (j: nat)
    requires i <= |b|
    ensures i <= j <= |b|
  {
    Run(b, i, IsWs)
  }

  lemma SkipSound(b: seq<byte>, i: nat)
    requires i <= |b|
    ensures AllWs(b[i..Skip(b, i)]) && At(b, i, b[i..Skip(b, i)])
  {
  }

  lemma SkipExact(b: seq<byte>, i: nat, gap: seq<byte>)
    requires AllWs(gap) && At(b, i, gap) && (i + |gap| < |b| ==> !IsWs(b[i + |gap|]))
    ensures i + |gap| <= |b|
    ensures Skip(b, i) == i + |gap| && b[i..Skip(b, i)] == gap
  {
    RunAt(b, i, IsWs, gap);
  }

  function ParseScalar(b: seq<byte>, i: nat): (r: Option<(Value, nat)>)
    requires i < |b|
    ensures r.Some? ==> i < r.value.1 <= |b|
  {
    if b[i] == QUOTE then
      match ParseString(b, i)
      case None => None
      case Some((text, j)) => Some((Str(text), j))
    else if At(b, i, NULL_BYTES) then Some((Null, i + 4))
    else if At(b, i, TRUE_BYTES) then Some((True, i + 4))
    else if At(b, i, FALSE_BYTES) then Some((False, i + 5))
    else
      match ParseNumber(b, i)
      case None => None
      case Some((n, j)) => Some((Num(n), j))
  }

  lemma ScalarSound(b: seq<byte>, i: nat)
    requires i < |b| && ParseScalar(b, i).Some?
    ensures var (v, j) := ParseScalar(b, i).value; ValueOk(v) && At(b, i, Bytes(v)) && j == i + |Bytes(v)|
  {
    hide At, ParseString, ParseNumber, StringBytes, NumberBytes, TextOk, NumberOk;
    match ParseScalar(b, i).value.0
    case Str(_) => StringSound(b, i);
    case Num(_) => ParseNumberSound(b, i);
    case _ =>
  }

  function ParseValue(b: seq<byte>, i: nat): (r: Option<(Value, nat)>)
    requires i <= |b|
    ensures r.Some? ==> i < r.value.1 <= |b|
    decreases |b| - i, 1
  {
    if i == |b| then None
    else if b[i] == Open(Obj) then ParseContainer(b, i, Obj)
    else if b[i] == Open(Arr) then ParseContainer(b, i, Arr)
    else ParseScalar(b, i)
  }

  function ParseContainer(b: seq<byte>, i: nat, kind: Kind): (r: Option<(Value, nat)>)
    requires i < |b| && b[i] == Open(kind)
    ensures r.Some? ==> i < r.value.1 <= |b|
    decreases |b| - i, 0
  {
    var j := Skip(b, i + 1);
    if j < |b| && b[j] == Close(kind) then Some((Blank(kind, b[i + 1..j]), j + 1))
    else
      match ParseItems(b, i + 1, kind)
      case None => None
      case Some((items, end)) => Some((Full(kind, items), end + 1))
  }

  /** Reads one or more items and stops in front of the closing bracket. */
  function ParseItems(b: seq<byte>, i: nat, kind: Kind): (r: Option<(Items, nat)>)
    requires i <= |b|
    ensures r.Some? ==> i <= r.value.1 < |b| && b[r.value.1] == Close(kind)
    decreases |b| - i, 3
  {
    match ParseItem(b, i, kind)
    case None => None
    case Some((item, j)) =>
      if j < |b| && b[j] == Close(kind) then Some((Last(item), j))
      else if j < |b| && b[j] == COMMA then
        match ParseItems(b, j + 1, kind)
        case None => None
        case Some((rest, end)) => Some((More(item, rest), end))
      else None
  }

  function ParseItem(b: seq<byte>, i: nat, kind: Kind): (r: Option<(Item, nat)>)
    requires i <= |b|
    ensures r.Some? ==> i <= r.value.1 <= |b|
    decreases |b| - i, 2
  {
    var h := Skip(b, i);
    match ParseHead(b, h, kind)
    case None => None
    case Some((head, v)) =>
      match ParseValue(b, v)
      case None => None
      case Some((value, t)) =>
        var end := Skip(b, t);
        Some((Item(b[i..h], head, value, b[t..end]), end))
  }

  /** Reads a member's name, colon and the white space around the colon; nothing in an array. */
  function ParseHead(b: seq<byte>, i: nat, kind: Kind): (r: Option<(Head, nat)>)
    requires i <= |b|
    ensures r.Some? ==> i <= r.value.1 <= |b|
  {
    if kind == Arr then Some((Index, i))
    else
      match ParseString(b, i)
      case None => None
      case Some((text, g)) =>
        var c := Skip(b, g);
        if c == |b| || b[c] != COLON then None
        else
          var v := Skip(b, c + 1);
          Some((Name(text, b[g..c], b[c + 1..v]), v))
  }

  /** The whole-input gate: white space, one value, white space, nothing else. */
  function Parse(b: seq<byte>): Option<Text> {
    var i := Skip(b, 0);
    match ParseValue(b, i)
    case None => None
    case Some((root, t)) =>
      var end := Skip(b, t);
      if end < |b| then None else Some(Text(b[..i], root, b[t..end]))
  }

  // ---- soundness: the tree derives the bytes that were read -----------------

  lemma {:induction false} ValueSound(b: seq<byte>, i: nat)
    requires i <= |b| && ParseValue(b, i).Some?
    ensures var (v, j) := ParseValue(b, i).value; ValueOk(v) && At(b, i, Bytes(v)) && j == i + |Bytes(v)|
    decreases |b| - i, 1
  {
    hide At, ParseContainer, ParseScalar, Bytes, ValueOk;
    if b[i] == Open(Obj) {
      ContainerSound(b, i, Obj);
    } else if b[i] == Open(Arr) {
      ContainerSound(b, i, Arr);
    } else {
      ScalarSound(b, i);
    }
  }

  /** A container's bytes are its brackets around what is inside. */
  lemma BracketsAt(b: seq<byte>, i: nat, kind: Kind, inside: seq<byte>)
    ensures At(b, i, [Open(kind)] + (inside + [Close(kind)]))
       <==> i < |b| && b[i] == Open(kind) && At(b, i + 1, inside)
            && i + 1 + |inside| < |b| && b[i + 1 + |inside|] == Close(kind)
  {
    hide At, Open, Close;
    AtOne(b, i, Open(kind));
    AtOne(b, i + 1 + |inside|, Close(kind));
    At3(b, i, [Open(kind)], inside, [Close(kind)]);
  }

  lemma {:induction false} ContainerSound(b: seq<byte>, i: nat, kind: Kind)
    requires i < |b| && b[i] == Open(kind) && ParseContainer(b, i, kind).Some?
    ensures var (v, j) := ParseContainer(b, i, kind).value;
            ValueOk(v) && At(b, i, Bytes(v)) && j == i + |Bytes(v)|
    decreases |b| - i, 0
  {
    hide At, AllWs, Skip, ParseItems, ItemsBytes, ItemsOk, Open, Close;
    var j := Skip(b, i + 1);
    if j < |b| && b[j] == Close(kind) {
      SkipSound(b, i + 1);
      BracketsAt(b, i, kind, b[i + 1..j]);
    } else {
      ItemsSound(b, i + 1, kind);
      BracketsAt(b, i, kind, ItemsBytes(ParseItems(b, i + 1, kind).value.0));
    }
  }

  lemma {:induction false} ItemsSound(b: seq<byte>, i: nat, kind: Kind)
    requires i <= |b| && ParseItems(b, i, kind).Some?
    ensures var (items, j) := ParseItems(b, i, kind).value;
            ItemsOk(items, kind) && At(b, i, ItemsBytes(items)) && j == i + |ItemsBytes(items)|
    decreases |b| - i, 3
  {
    hide At, ParseItem, ItemBytes, ItemOk, Close;
    var (item, j) := ParseItem(b, i, kind).value;
    ItemSound(b, i, kind);
    if b[j] != Close(kind) {
      ItemsSound(b, j + 1, kind);
      AtOne(b, j, COMMA);
      At3(b, i, ItemBytes(item), [COMMA], ItemsBytes(ParseItems(b, j + 1, kind).value.0));
    }
  }

  lemma {:induction false} ItemSound(b: seq<byte>, i: nat, kind: Kind)
    requires i <= |b| && ParseItem(b, i, kind).Some?
    ensures var (item, j) := ParseItem(b, i, kind).value;
            ItemOk(item, kind) && At(b, i, ItemBytes(item)) && j == i + |ItemBytes(item)|
    decreases |b| - i, 2
  {
    hide At, AllWs, Run, Skip, ParseValue, ParseHead;
    var (item, end) := ParseItem(b, i, kind).value;
    var h := Skip(b, i);
    SkipSound(b, i);
    HeadSound(b, h, kind);
    var v := ParseHead(b, h, kind).value.1;
    ValueSound(b, v);
    SkipSound(b, ParseValue(b, v).value.1);
    At4(b, i, item.lead, HeadBytes(item.head), Bytes(item.value), item.trail);
  }

  lemma HeadSound(b: seq<byte>, i: nat, kind: Kind)
    requires i <= |b| && ParseHead(b, i, kind).Some?
    ensures var (head, j) := ParseHead(b, i, kind).value;
            HeadOk(head, kind) && At(b, i, HeadBytes(head)) && j == i + |HeadBytes(head)|
  {
    hide At, AllWs, Skip, ParseString, StringBytes, TextOk;
    if kind == Arr {
      AtBound(b, i, []);
    } else {
      NameSound(b, i);
    }
  }

  lemma NameSound(b: seq<byte>, i: nat)
    requires i <= |b| && ParseHead(b, i, Obj).Some?
    ensures var (text, g) := ParseString(b, i).value;
            var c := Skip(b, g);
            var v := Skip(b, c + 1);
            && TextOk(text) && AllWs(b[g..c]) && AllWs(b[c + 1..v])
            && At(b, i, StringBytes(text) + (b[g..c] + ([COLON] + b[c + 1..v])))
            && g == i + |StringBytes(text)|
  {
    hide At, AllWs, Skip, ParseString, StringBytes, TextOk;
    var (text, g) := ParseString(b, i).value;
    var c := Skip(b, g);
    StringSound(b, i);
    SkipSound(b, g);
    SkipSound(b, c + 1);
    AtOne(b, c, COLON);
    At4(b, i, StringBytes(text), b[g..c], [COLON], b[c + 1..Skip(b, c + 1)]);
  }

  lemma ParseSound(b: seq<byte>)
    requires Parse(b).Some?
    ensures JsonOk(Parse(b).value) && JsonBytes(Parse(b).value) == b
  {
    hide ParseValue, ValueOk, Bytes, AllWs, Skip;
    var i := Skip(b, 0);
    var (root, t) := ParseValue(b, i).value;
    ValueSound(b, i);
    SkipSound(b, 0);
    SkipSound(b, t);
    At3(b, 0, b[0..i], Bytes(root), b[t..|b|]);
    assert b[0..i] == b[..i];
  }

  // ---- completeness: every derivation is found ------------------------------

  /** The first byte of a value tells its kind apart and is never white space. */
  lemma FirstOfValue(v: Value)
    requires ValueOk(v)
    ensures Bytes(v) != [] && !IsWs(Bytes(v)[0])
    ensures Bytes(v)[0] == Open(Obj) <==> (v.Blank? || v.Full?) && v.kind == Obj
    ensures Bytes(v)[0] == Open(Arr) <==> (v.Blank? || v.Full?) && v.kind == Arr
    ensures Bytes(v)[0] == QUOTE <==> v.Str?
    ensures Bytes(v)[0] != Close(Obj) && Bytes(v)[0] != Close(Arr)
    ensures v.Num? ==> Bytes(v)[0] == 0x2D || IsDigit(Bytes(v)[0])
  {
    if v.Num? && !v.number.negative {
      assert Bytes(v)[0] == v.number.whole[0];
    }
  }

  lemma AtWord(b: seq<byte>, i: nat)
    requires i < |b|
    ensures At(b, i, NULL_BYTES) ==> b[i] == 0x6E
    ensures At(b, i, TRUE_BYTES) ==> b[i] == 0x74
    ensures At(b, i, FALSE_BYTES) ==> b[i] == 0x66
  {
    if At(b, i, NULL_BYTES) { FirstByte(b, i, NULL_BYTES); }
    if At(b, i, TRUE_BYTES) { FirstByte(b, i, TRUE_BYTES); }
    if At(b, i, FALSE_BYTES) { FirstByte(b, i, FALSE_BYTES); }
  }

  lemma ScalarComplete(b: seq<byte>, i: nat, v: Value)
    requires ValueOk(v) && !v.Blank? && !v.Full?
    requires At(b, i, Bytes(v)) && Follow(b, i + |Bytes(v)|)
    ensures i < |b| && ParseScalar(b, i) == Some((v, i + |Bytes(v)|))
  {
    hide At, ParseNumber, ParseString, NumberOk, NumberBytes, StringBytes, TextOk;
    FirstOfValue(v);
    FirstByte(b, i, Bytes(v));
    AtWord(b, i);
    match v
    case Str(text) => ParseStringComplete(b, i, text);
    case Num(number) => ParseNumberComplete(b, i, number);
    case _ =>
  }

  /** The parts of an item in the bytes, and that its white space is exactly what a reader skips. */
  lemma ItemBytesAre(item: Item)
    ensures ItemBytes(item) == item.lead + (HeadBytes(item.head) + (Bytes(item.value) + item.trail))
  {
    hide Bytes, HeadBytes;
  }

  lemma ItemParts(b: seq<byte>, i: nat, item: Item, kind: Kind)
    requires ItemOk(item, kind) && At(b, i, ItemBytes(item))
    requires var end := i + |ItemBytes(item)|; end < |b| && (b[end] == COMMA || b[end] == Close(kind))
    ensures var h := i + |item.lead|;
            var v := h + |HeadBytes(item.head)|;
            var t := v + |Bytes(item.value)|;
            && At(b, h, HeadBytes(item.head)) && At(b, v, Bytes(item.value))
            && t + |item.trail| == i + |ItemBytes(item)|
            && h < |b| && v < |b| && t < |b|
            && !IsWs(b[v]) && Follow(b, t)
            && Skip(b, i) == h && b[i..h] == item.lead
            && Skip(b, t) == t + |item.trail| && b[t..t + |item.trail|] == item.trail
            && b[h] != Close(kind)
  {
    var h := i + |item.lead|;
    var v := h + |HeadBytes(item.head)|;
    var t := v + |Bytes(item.value)|;
    hide At, AllWs, Skip, Bytes, HeadBytes, ValueOk, HeadOk;
    hide ItemBytes;
    ItemBytesAre(item);
    At4(b, i, item.lead, HeadBytes(item.head), Bytes(item.value), item.trail);
    FirstOfValue(item.value);
    FirstByte(b, v, Bytes(item.value));
    FirstByte(b, t, item.trail);
    FirstByte(b, h, HeadBytes(item.head));
    FirstWs(item.trail);
    FirstOfHead(item.head);
    HeadKind(item.head, kind);
    SkipExact(b, t, item.trail);
    SkipExact(b, i, item.lead);
  }

  lemma FirstWs(gap: seq<byte>)
    requires AllWs(gap)
    ensures gap != [] ==> IsWs(gap[0])
  {
  }

  lemma HeadKind(head: Head, kind: Kind)
    requires HeadOk(head, kind)
    ensures head.Index? <==> kind == Arr
  {
  }

  lemma FirstOfHead(head: Head)
    ensures if head.Index? then HeadBytes(head) == [] else HeadBytes(head) != [] && HeadBytes(head)[0] == QUOTE
  {
  }

  lemma NameParts(b: seq<byte>, i: nat, text: seq<Sym>, gap: seq<byte>, lead: seq<byte>)
    requires TextOk(text) && AllWs(gap) && AllWs(lead)
    requires At(b, i, StringBytes(text) + (gap + ([COLON] + lead)))
    requires var v := i + |StringBytes(text)| + |gap| + 1 + |lead|; v < |b| && !IsWs(b[v])
    ensures var g := i + |StringBytes(text)|;
            var c := g + |gap|;
            var v := c + 1 + |lead|;
            && ParseString(b, i) == Some((text, g))
            && Skip(b, g) == c && b[g..c] == gap && b[c] == COLON
            && Skip(b, c + 1) == v && b[c + 1..v] == lead
  {
    var g := i + |StringBytes(text)|;
    var c := g + |gap|;
    hide At, AllWs, Skip, StringBytes, TextOk, ParseString;
    At4(b, i, StringBytes(text), gap, [COLON], lead);
    AtOne(b, c, COLON);
    ParseStringComplete(b, i, text);
    SkipExact(b, g, gap);
    SkipExact(b, c + 1, lead);
  }

  lemma HeadComplete(b: seq<byte>, i: nat, head: Head, kind: Kind)
    requires HeadOk(head, kind) && At(b, i, HeadBytes(head))
    requires var v := i + |HeadBytes(head)|; v < |b| && !IsWs(b[v])
    ensures ParseHead(b, i, kind) == Some((head, i + |HeadBytes(head)|))
  {
    hide At, AllWs, Skip, StringBytes, TextOk, ParseString;
    match head
    case Index =>
    case Name(text, gap, lead) =>
      NameParts(b, i, text, gap, lead);
  }

  lemma {:induction false} ItemComplete(b: seq<byte>, i: nat, item: Item, kind: Kind)
    requires ItemOk(item, kind) && At(b, i, ItemBytes(item))
    requires var end := i + |ItemBytes(item)|; end < |b| && (b[end] == COMMA || b[end] == Close(kind))
    ensures ParseItem(b, i, kind) == Some((item, i + |ItemBytes(item)|))
    decreases item
  {
    hide At, AllWs, Skip, Bytes, HeadBytes, ValueOk, HeadOk, ParseHead, ParseValue, Follow;
    var h := i + |item.lead|;
    var v := h + |HeadBytes(item.head)|;
    ItemParts(b, i, item, kind);
    HeadComplete(b, h, item.head, kind);
    ValueComplete(b, v, item.value);
  }

  lemma {:induction false} ItemsComplete(b: seq<byte>, i: nat, items: Items, kind: Kind)
    requires ItemsOk(items, kind) && At(b, i, ItemsBytes(items))
    requires var end := i + |ItemsBytes(items)|; end < |b| && b[end] == Close(kind)
    ensures ParseItems(b, i, kind) == Some((items, i + |ItemsBytes(items)|))
    decreases items
  {
    hide At, ItemOk, ItemBytes, ParseItem;
    match items
    case Last(item) =>
      ItemComplete(b, i, item, kind);
    case More(item, rest) =>
      var j := i + |ItemBytes(item)|;
      At3(b, i, ItemBytes(item), [COMMA], ItemsBytes(rest));
      AtOne(b, j, COMMA);
      ItemComplete(b, i, item, kind);
      ItemsComplete(b, j + 1, rest, kind);
  }

  lemma FirstItem(b: seq<byte>, i: nat, items: Items, kind: Kind)
    requires ItemsOk(items, kind) && At(b, i, ItemsBytes(items))
    requires var end := i + |ItemsBytes(items)|; end < |b| && b[end] == Close(kind)
    ensures Skip(b, i) < |b| && b[Skip(b, i)] != Close(kind)
  {
    hide At, ItemOk, ItemBytes, Skip, HeadBytes, Bytes, Close;
    if items.More? {
      At3(b, i, ItemBytes(items.item), [COMMA], ItemsBytes(items.rest));
      AtOne(b, i + |ItemBytes(items.item)|, COMMA);
    }
    ItemParts(b, i, items.item, kind);
  }

  lemma {:induction false} ValueComplete(b: seq<byte>, i: nat, v: Value)
    requires ValueOk(v) && At(b, i, Bytes(v)) && Follow(b, i + |Bytes(v)|)
    ensures i <= |b| && ParseValue(b, i) == Some((v, i + |Bytes(v)|))
    decreases v, 1
  {
    hide At, Bytes, ValueOk, ParseContainer, ParseScalar, Open, Follow;
    FirstOfValue(v);
    FirstByte(b, i, Bytes(v));
    if v.Blank? || v.Full? {
      ContainerComplete(b, i, v);
      OpenKinds(v.kind);
    } else {
      ScalarComplete(b, i, v);
    }
  }

  lemma {:induction false} ContainerComplete(b: seq<byte>, i: nat, v: Value)
    requires (v.Blank? || v.Full?) && ValueOk(v) && At(b, i, Bytes(v))
    ensures i < |b| && b[i] == Open(v.kind)
    ensures ParseContainer(b, i, v.kind) == Some((v, i + |Bytes(v)|))
    decreases v, 0
  {
    hide At, AllWs, ItemsOk, ItemsBytes, Skip, ParseItems, Open, Close;
    match v
    case Blank(kind, gap) =>
      BracketsAt(b, i, kind, gap);
      WsThenClose(b, i + 1, gap, kind);
    case Full(kind, items) =>
      BracketsAt(b, i, kind, ItemsBytes(items));
      ItemsComplete(b, i + 1, items, kind);
      FirstItem(b, i + 1, items, kind);
  }

  lemma WsThenClose(b: seq<byte>, i: nat, gap: seq<byte>, kind: Kind)
    requires AllWs(gap) && At(b, i, gap) && i + |gap| < |b| && b[i + |gap|] == Close(kind)
    ensures Skip(b, i) == i + |gap| && b[i..i + |gap|] == gap
  {
    SkipExact(b, i, gap);
  }

  lemma OpenKinds(kind: Kind)
    ensures kind == Arr || Open(kind) != Open(Arr)
    ensures kind == Obj || Open(kind) != Open(Obj)
  {
  }

  /** Every derivation of a text is the one the parser returns: the grammar is unambiguous. */
  lemma ParseComplete(t: Text)
    requires JsonOk(t)
    ensures Parse(JsonBytes(t)) == Some(t)
  {
    hide At, Bytes, ValueOk, ParseValue, Skip, AllWs, Follow;
    var b := JsonBytes(t);
    var i := |t.lead|;
    var e := i + |Bytes(t.root)|;
    AtWholeText(b);
    At3(b, 0, t.lead, Bytes(t.root), t.trail);
    FirstOfValue(t.root);
    FirstByte(b, i, Bytes(t.root));
    WsThenEnd(b, e, t.trail);
    SkipExact(b, 0, t.lead);
    ValueComplete(b, i, t.root);
    assert b[..i] == b[0..i];
  }

  lemma AtWholeText(b: seq<byte>)
    ensures At(b, 0, b)
  {
  }

  lemma WsThenEnd(b: seq<byte>, e: nat, trail: seq<byte>)
    requires AllWs(trail) && At(b, e, trail) && e + |trail| == |b|
    ensures Follow(b, e) && Skip(b, e) == |b| && b[e..|b|] == trail
  {
    FirstByte(b, e, trail);
    SkipExact(b, e, trail);
  }
}
