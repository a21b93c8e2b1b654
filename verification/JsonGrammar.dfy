/** The grammar of section 2 of RFC 8259 as derivation trees, with the bytes each tree stands for, and where such
    bytes stand in a document. There is no limit on the depth of a tree. */
module JsonGrammar {
  import opened Utf8

  // ---- tokens ---------------------------------------------------------------

  /** One character of a string: itself, a two-byte escape, a `\u` escape or a surrogate pair of them. */
  datatype Sym =
    | Plain(c: char)
    | Short(letter: byte)
    | Unit(hex: seq<byte>)
    | Pair(high: seq<byte>, low: seq<byte>)

  datatype Number = Number(negative: bool, whole: seq<byte>, frac: seq<byte>, mark: seq<byte>, power: seq<byte>)

  datatype Kind = Arr | Obj

  // ---- derivation trees -----------------------------------------------------

  datatype Value =
    | Null
    | True
    | False
    | Num(number: Number)
    | Str(text: seq<Sym>)
    | Blank(kind: Kind, gap: seq<byte>)
    | Full(kind: Kind, items: Items)

  datatype Items = Last(item: Item) | More(item: Item, rest: Items)

  /** An array element or an object member, with the white space around its parts. */
  datatype Item = Item(lead: seq<byte>, head: Head, value: Value, trail: seq<byte>)

  datatype Head = Index | Name(text: seq<Sym>, gap: seq<byte>, lead: seq<byte>)

  /** A JSON text: one value with white space on both sides. */
  datatype Text = Text(lead: seq<byte>, root: Value, trail: seq<byte>)

  // ---- character classes ----------------------------------------------------

  const QUOTE: byte := 0x22
  const BACKSLASH: byte := 0x5C
  const COMMA: byte := 0x2C
  const COLON: byte := 0x3A
  const LETTER_U: byte := 0x75

  predicate IsWs(b: byte) {
    b == 0x20 || b == 0x09 || b == 0x0A || b == 0x0D
  }

  predicate IsDigit(b: byte) {
    0x30 <= b <= 0x39
  }

  predicate IsHex(b: byte) {
    IsDigit(b) || 0x41 <= b <= 0x46 || 0x61 <= b <= 0x66
  }

  function Nibble(b: byte): (n: int)
    requires IsHex(b)
    ensures 0 <= n < 16
  {
    if IsDigit(b) then b - 0x30 else if b <= 0x46 then b - 0x41 + 10 else b - 0x61 + 10
  }

  predicate AllWs(s: seq<byte>) {
    forall k | 0 <= k < |s| :: IsWs(s[k])
  }

  predicate AllDigits(s: seq<byte>) {
    forall k | 0 <= k < |s| :: IsDigit(s[k])
  }

  predicate Hex4(h: seq<byte>) {
    |h| == 4 && forall k | 0 <= k < 4 :: IsHex(h[k])
  }

  function HexValue(h: seq<byte>): (n: int)
    requires Hex4(h)
    ensures 0 <= n < 0x1_0000
  {
    Nibble(h[0]) * 4096 + Nibble(h[1]) * 256 + Nibble(h[2]) * 16 + Nibble(h[3])
  }

  /** The letters allowed after a reverse solidus, other than `u`. */
  predicate IsShort(b: byte) {
    b in [0x22, 0x5C, 0x2F, 0x62, 0x66, 0x6E, 0x72, 0x74]
  }

  function Open(kind: Kind): byte {
    if kind == Arr then 0x5B else 0x7B
  }

  function Close(kind: Kind): byte {
    if kind == Arr then 0x5D else 0x7D
  }

  // ---- which trees are derivations ------------------------------------------

  predicate SymOk(s: Sym) {
    match s
    case Plain(c) => c >= ' ' && c != '\"' && c != '\\'
    case Short(letter) => IsShort(letter)
    case Unit(hex) => Hex4(hex) && !(0xD800 <= HexValue(hex) < 0xE000)
    case Pair(high, low) =>
      Hex4(high) && Hex4(low) && 0xD800 <= HexValue(high) < 0xDC00 && 0xDC00 <= HexValue(low) < 0xE000
  }

  predicate TextOk(t: seq<Sym>) {
    forall k | 0 <= k < |t| :: SymOk(t[k])
  }

  predicate MarkOk(mark: seq<byte>) {
    1 <= |mark| <= 2 && (mark[0] == 0x65 || mark[0] == 0x45) && (|mark| == 2 ==> mark[1] == 0x2B || mark[1] == 0x2D)
  }

  predicate NumberOk(n: Number) {
    && n.whole != [] && AllDigits(n.whole) && (|n.whole| > 1 ==> n.whole[0] != 0x30)
    && AllDigits(n.frac)
    && AllDigits(n.power)
    && (if n.mark == [] then n.power == [] else MarkOk(n.mark) && n.power != [])
  }

  predicate ValueOk(v: Value) {
    match v
    case Num(number) => NumberOk(number)
    case Str(text) => TextOk(text)
    case Blank(_, gap) => AllWs(gap)
    case Full(kind, items) => ItemsOk(items, kind)
    case _ => true
  }

  predicate ItemsOk(items: Items, kind: Kind) {
    ItemOk(items.item, kind) && (items.More? ==> ItemsOk(items.rest, kind))
  }

  predicate ItemOk(item: Item, kind: Kind) {
    AllWs(item.lead) && HeadOk(item.head, kind) && ValueOk(item.value) && AllWs(item.trail)
  }

  predicate HeadOk(head: Head, kind: Kind) {
    match head
    case Index => kind == Arr
    case Name(text, gap, lead) => kind == Obj && TextOk(text) && AllWs(gap) && AllWs(lead)
  }

  predicate JsonOk(t: Text) {
    AllWs(t.lead) && ValueOk(t.root) && AllWs(t.trail)
  }

  // ---- the bytes of a tree --------------------------------------------------

  function SymBytes(s: Sym): seq<byte> {
    match s
    case Plain(c) => EncodeChar(c)
    case Short(letter) => [BACKSLASH, letter]
    case Unit(hex) => [BACKSLASH, LETTER_U] + hex
    case Pair(high, low) => [BACKSLASH, LETTER_U] + high + ([BACKSLASH, LETTER_U] + low)
  }

  function TextBytes(t: seq<Sym>): seq<byte> {
    if t == [] then [] else SymBytes(t[0]) + TextBytes(t[1..])
  }

  function StringBytes(t: seq<Sym>): seq<byte> {
    [QUOTE] + (TextBytes(t) + [QUOTE])
  }

  function FracBytes(frac: seq<byte>): seq<byte> {
    if frac == [] then [] else [0x2E] + frac
  }

  function NumberBytes(n: Number): seq<byte> {
    (if n.negative then [0x2D] else []) + (n.whole + (FracBytes(n.frac) + (n.mark + n.power)))
  }

  const NULL_BYTES: seq<byte> := [0x6E, 0x75, 0x6C, 0x6C]
  const TRUE_BYTES: seq<byte> := [0x74, 0x72, 0x75, 0x65]
  const FALSE_BYTES: seq<byte> := [0x66, 0x61, 0x6C, 0x73, 0x65]

  function Bytes(v: Value): seq<byte> {
    match v
    case Null => NULL_BYTES
    case True => TRUE_BYTES
    case False => FALSE_BYTES
    case Num(number) => NumberBytes(number)
    case Str(text) => StringBytes(text)
    case Blank(kind, gap) => [Open(kind)] + (gap + [Close(kind)])
    case Full(kind, items) => [Open(kind)] + (ItemsBytes(items) + [Close(kind)])
  }

  function ItemsBytes(items: Items): seq<byte> {
    match items
    case Last(item) => ItemBytes(item)
    case More(item, rest) => ItemBytes(item) + ([COMMA] + ItemsBytes(rest))
  }

  function HeadBytes(head: Head): seq<byte> {
    match head
    case Index => []
    case Name(text, gap, lead) => StringBytes(text) + (gap + ([COLON] + lead))
  }

  function ItemBytes(item: Item): seq<byte> {
    item.lead + (HeadBytes(item.head) + (Bytes(item.value) + item.trail))
  }

  function JsonBytes(t: Text): seq<byte> {
    t.lead + (Bytes(t.root) + t.trail)
  }

  // ---- reading bytes at a position ------------------------------------------

  predicate At(b: seq<byte>, i: nat, x: seq<byte>) {
    i + |x| <= |b| && b[i..i + |x|] == x
  }

  lemma AtConcat(b: seq<byte>, i: nat, x: seq<byte>, y: seq<byte>)
    ensures At(b, i, x + y) <==> At(b, i, x) && At(b, i + |x|, y)
  {
    if At(b, i, x + y) {
      var here := b[i..i + |x + y|];
      assert forall k | 0 <= k < |x| + |y| :: here[k] == b[i + k];
      assert forall k | 0 <= k < |x| :: b[i + k] == x[k];
      assert forall k | 0 <= k < |y| :: b[i + |x| + k] == (x + y)[|x| + k] == y[k];
    }
    if At(b, i, x) && At(b, i + |x|, y) {
      assert b[i..i + |x| + |y|] == b[i..i + |x|] + b[i + |x|..i + |x| + |y|];
    }
  }

  lemma AtBound(b: seq<byte>, i: nat, x: seq<byte>)
    ensures At(b, i, x) ==> i + |x| <= |b|
    ensures x == [] ==> (At(b, i, x) <==> i <= |b|)
  {
  }

  lemma At3(b: seq<byte>, i: nat, x: seq<byte>, y: seq<byte>, z: seq<byte>)
    ensures At(b, i, x + (y + z)) <==> At(b, i, x) && At(b, i + |x|, y) && At(b, i + |x| + |y|, z)
  {
    hide At;
    AtConcat(b, i, x, y + z);
    AtConcat(b, i + |x|, y, z);
  }

  lemma At4(b: seq<byte>, i: nat, w: seq<byte>, x: seq<byte>, y: seq<byte>, z: seq<byte>)
    ensures At(b, i, w + (x + (y + z)))
       <==> At(b, i, w) && At(b, i + |w|, x) && At(b, i + |w| + |x|, y) && At(b, i + |w| + |x| + |y|, z)
  {
    hide At;
    AtConcat(b, i, w, x + (y + z));
    At3(b, i + |w|, x, y, z);
  }

  lemma AtOne(b: seq<byte>, i: nat, c: byte)
    ensures At(b, i, [c]) <==> i < |b| && b[i] == c
  {
    if i < |b| {
      assert b[i..i + 1] == [b[i]];
    }
  }

  /** The first position at or after `i` whose byte does not satisfy `p`. */
  function Run(b: seq<byte>, i: nat, p: byte -> bool): (j: nat)
    requires i <= |b|
    ensures i <= j <= |b|
    ensures forall k | i <= k < j :: p(b[k])
    ensures j < |b| ==> !p(b[j])
    decreases |b| - i
  {
    if i < |b| && p(b[i]) then Run(b, i + 1, p) else i
  }

  lemma {:induction false} RunExact(b: seq<byte>, i: nat, p: byte -> bool, j: nat)
    requires i <= j <= |b|
    requires forall k | i <= k < j :: p(b[k])
    requires j < |b| ==> !p(b[j])
    ensures Run(b, i, p) == j
    decreases j - i
  {
    if i < j {
      RunExact(b, i + 1, p, j);
    }
  }

  /** `x` sits at `i`, all its bytes satisfy `p`, and the byte after it does not: `x` is the run. */
  lemma RunAt(b: seq<byte>, i: nat, p: byte -> bool, x: seq<byte>)
    requires At(b, i, x)
    requires forall k | 0 <= k < |x| :: p(x[k])
    requires i + |x| < |b| ==> !p(b[i + |x|])
    ensures Run(b, i, p) == i + |x|
    ensures b[i..Run(b, i, p)] == x
  {
    var here := b[i..i + |x|];
    assert forall k | 0 <= k < |x| :: here[k] == b[i + k];
    forall k | i <= k < i + |x|
      ensures p(b[k])
    {
      assert b[k] == x[k - i];
    }
    RunExact(b, i, p, i + |x|);
  }
}
