/** From a byte span of the native document to a range of the editor text (`bytes.ts`): the walk over the native
    bytes, and the proof that the range holds exactly the text of the span. */
module EditorSpan {
  import opened Wrappers
  import opened Utf8
  import opened Document
  import opened EditorText
  import opened EditorLines
  import RevisionDiff

  // ---- UTF-16 ---------------------------------------------------------------

  function UnitsOf(c: char): (r: seq<Unit>)
    ensures 1 <= |r| <= 2
  {
    var n := c as int;
    if n < 0x1_0000 then [n] else [0xD800 + (n - 0x1_0000) / 0x400, 0xDC00 + (n - 0x1_0000) % 0x400]
  }

  function Utf16(s: string): seq<Unit> {
    if s == [] then [] else UnitsOf(s[0]) + Utf16(s[1..])
  }

  lemma {:induction false} Utf16Concat(a: string, b: string)
    ensures Utf16(a + b) == Utf16(a) + Utf16(b)
  {
    hide UnitsOf;
    if a == [] {
      assert a + b == b;
    } else {
      assert (a + b)[1..] == a[1..] + b;
      Utf16Concat(a[1..], b);
    }
  }

  // ---- decoding one code point ----------------------------------------------

  /** Reading past the end gives zero. */
  function ByteAt(bytes: seq<byte>, index: nat): int {
    if index < |bytes| then bytes[index] else 0
  }

  /** The masks of the code read as digits: keeping the low bits is a remainder, a shift a multiplication. */
  function DecodeCodePoint(bytes: seq<byte>, index: nat): (r: (int, nat))
    ensures 1 <= r.1 <= 4
  {
    var first := ByteAt(bytes, index);
    if first < 0x80 then (first, 1)
    else if first / 32 == 6 then (first % 32 * 64 + ByteAt(bytes, index + 1) % 64, 2)
    else if first / 16 == 14 then
      (first % 16 * 4096 + ByteAt(bytes, index + 1) % 64 * 64 + ByteAt(bytes, index + 2) % 64, 3)
    else
      (first % 8 * 262144 + ByteAt(bytes, index + 1) % 64 * 4096 + ByteAt(bytes, index + 2) % 64 * 64
       + ByteAt(bytes, index + 3) % 64, 4)
  }

  /** The same with the masks of the code, on four bytes, those behind the end being zero. */
  function MaskedCodePoint(b0: bv8, b1: bv8, b2: bv8, b3: bv8): (int, nat) {
    if b0 < 0x80 then (b0 as int, 1)
    else if b0 & 0xE0 == 0xC0 then ((b0 & 0x1F) as int * 64 + (b1 & 0x3F) as int, 2)
    else if b0 & 0xF0 == 0xE0 then ((b0 & 0x0F) as int * 4096 + (b1 & 0x3F) as int * 64 + (b2 & 0x3F) as int, 3)
    else
      ((b0 & 0x07) as int * 262144 + (b1 & 0x3F) as int * 4096 + (b2 & 0x3F) as int * 64 + (b3 & 0x3F) as int, 4)
  }

  lemma Mask3F(v: bv8)
    ensures v as int % 64 == (v & 0x3F) as int
  {
  }

  lemma Mask1F(v: bv8)
    ensures v as int % 32 == (v & 0x1F) as int
  {
  }

  lemma Mask0F(v: bv8)
    ensures v as int % 16 == (v & 0x0F) as int
  {
  }

  lemma Mask07(v: bv8)
    ensures v as int % 8 == (v & 0x07) as int
  {
  }

  lemma MaskE0(v: bv8)
    ensures v as int / 32 == 6 <==> v & 0xE0 == 0xC0
  {
  }

  lemma MaskF0(v: bv8)
    ensures v as int / 16 == 14 <==> v & 0xF0 == 0xE0
  {
  }

  /** On any bytes, valid or not, the decoding is what the masks give. */
  lemma DecodeIsMasked(bytes: seq<byte>, index: nat, b0: bv8, b1: bv8, b2: bv8, b3: bv8)
    requires b0 as int == (if index < |bytes| then bytes[index] else 0)
    requires b1 as int == (if index + 1 < |bytes| then bytes[index + 1] else 0)
    requires b2 as int == (if index + 2 < |bytes| then bytes[index + 2] else 0)
    requires b3 as int == (if index + 3 < |bytes| then bytes[index + 3] else 0)
    ensures DecodeCodePoint(bytes, index) == MaskedCodePoint(b0, b1, b2, b3)
  {
    MaskE0(b0);
    MaskF0(b0);
    Mask1F(b0);
    Mask0F(b0);
    Mask07(b0);
    Mask3F(b1);
    Mask3F(b2);
    Mask3F(b3);
    hide DecodeCodePoint, MaskedCodePoint;
    DecodedBy(bytes, index, b0 as int, b1 as int, b2 as int, b3 as int);
    MaskedBy(b0, b1, b2, b3);
  }

  lemma DecodedBy(bytes: seq<byte>, index: nat, b0: int, b1: int, b2: int, b3: int)
    requires b0 == (if index < |bytes| then bytes[index] else 0)
    requires b1 == (if index + 1 < |bytes| then bytes[index + 1] else 0)
    requires b2 == (if index + 2 < |bytes| then bytes[index + 2] else 0)
    requires b3 == (if index + 3 < |bytes| then bytes[index + 3] else 0)
    ensures DecodeCodePoint(bytes, index)
            == if b0 < 0x80 then (b0, 1) else if b0 / 32 == 6 then (b0 % 32 * 64 + b1 % 64, 2)
               else if b0 / 16 == 14 then (b0 % 16 * 4096 + b1 % 64 * 64 + b2 % 64, 3)
               else (b0 % 8 * 262144 + b1 % 64 * 4096 + b2 % 64 * 64 + b3 % 64, 4)
  {
  }

  lemma MaskedBy(b0: bv8, b1: bv8, b2: bv8, b3: bv8)
    ensures MaskedCodePoint(b0, b1, b2, b3)
            == if b0 as int < 0x80 then (b0 as int, 1)
               else if b0 & 0xE0 == 0xC0 then ((b0 & 0x1F) as int * 64 + (b1 & 0x3F) as int, 2)
               else if b0 & 0xF0 == 0xE0 then
                 ((b0 & 0x0F) as int * 4096 + (b1 & 0x3F) as int * 64 + (b2 & 0x3F) as int, 3)
               else
                 ((b0 & 0x07) as int * 262144 + (b1 & 0x3F) as int * 4096 + (b2 & 0x3F) as int * 64
                  + (b3 & 0x3F) as int, 4)
  {
  }

  /** On well-formed bytes it reads the next character and its width. */
  lemma DecodesNext(bytes: seq<byte>, index: nat, rest: string)
    requires index <= |bytes| && bytes[index..] == Encode(rest) && rest != []
    ensures DecodeCodePoint(bytes, index) == (rest[0] as int, |EncodeChar(rest[0])|)
  {
    hide Encode, ByteAt;
    var e := EncodeChar(rest[0]);
    BytesOfNext(bytes, index, rest);
    Digits(rest[0] as int);
    EncodedDigits(rest[0]);
  }

  lemma BytesOfNext(bytes: seq<byte>, index: nat, rest: string)
    requires index <= |bytes| && bytes[index..] == Encode(rest) && rest != []
    ensures var e := EncodeChar(rest[0]);
            && ByteAt(bytes, index) == e[0] && (|e| > 1 ==> ByteAt(bytes, index + 1) == e[1])
            && (|e| > 2 ==> ByteAt(bytes, index + 2) == e[2]) && (|e| > 3 ==> ByteAt(bytes, index + 3) == e[3])
  {
    hide EncodeChar;
    var e := EncodeChar(rest[0]);
    assert Encode(rest) == e + Encode(rest[1..]);
    assert forall k | 0 <= k < |e| :: bytes[index..][k] == e[k];
  }

  lemma EncodedDigits(c: char)
    ensures var e := EncodeChar(c);
            var n := c as int;
            && (|e| == 2 ==> e[0] / 32 == 6 && e[0] % 32 == n / 64 && e[1] % 64 == n % 64)
            && (|e| == 3 ==>
                  && e[0] / 32 == 7 && e[0] / 16 == 14 && e[0] % 16 == n / 4096 && e[1] % 64 == n / 64 % 64
                  && e[2] % 64 == n % 64)
            && (|e| == 4 ==>
                  && e[0] / 32 == 7 && e[0] / 16 == 15 && e[0] % 8 == n / 262144 && e[1] % 64 == n / 4096 % 64
                  && e[2] % 64 == n / 64 % 64 && e[3] % 64 == n % 64)
  {
    var n := c as int;
    LowDigits(n);
    if 0x80 <= n < 0x800 {
      HighDigits(0xC0, n / 64);
    } else if n >= 0x800 && n < 0x1_0000 {
      HighDigits(0xE0, n / 4096);
    } else if n >= 0x1_0000 {
      HighDigits(0xF0, n / 262144);
    }
  }

  /** A tail byte keeps six bits. */
  lemma LowDigits(n: nat)
    ensures (0x80 + n % 64) % 64 == n % 64
    ensures (0x80 + n / 64 % 64) % 64 == n / 64 % 64
    ensures (0x80 + n / 4096 % 64) % 64 == n / 4096 % 64
  {
  }

  /** The first byte keeps the bits below its marker. */
  lemma HighDigits(marker: nat, top: nat)
    requires (marker == 0xC0 && top < 32) || (marker == 0xE0 && top < 16) || (marker == 0xF0 && top < 8)
    ensures marker == 0xC0 ==> (marker + top) / 32 == 6 && (marker + top) % 32 == top
    ensures marker == 0xE0 ==> (marker + top) / 32 == 7 && (marker + top) / 16 == 14 && (marker + top) % 16 == top
    ensures marker == 0xF0 ==> (marker + top) / 32 == 7 && (marker + top) / 16 == 15 && (marker + top) % 8 == top
  {
  }

  // ---- the offset map -------------------------------------------------------

  /** A unit is a CRLF pair or one character: its characters, bytes and UTF-16 units in the editor text. */
  function UnitChars(s: string): (n: nat)
    requires s != []
    ensures 1 <= n <= |s|
  {
    if StartsCrLf(s) then 2 else 1
  }

  function UnitBytes(s: string): (n: nat)
    requires s != []
    ensures 1 <= n
  {
    if StartsCrLf(s) then 2 else |EncodeChar(s[0])|
  }

  function UnitWidth(s: string): (n: nat)
    requires s != []
    ensures 1 <= n
  {
    if StartsCrLf(s) then 1 else |UnitsOf(s[0])|
  }

  /** The editor index of the unit that byte `t` of the encoded text lies in. */
  function IndexAt(s: string, t: int): nat
    decreases |s|
  {
    if s == [] || t < UnitBytes(s) then 0 else UnitWidth(s) + IndexAt(s[UnitChars(s)..], t - UnitBytes(s))
  }

  lemma UnitSplit(s: string)
    requires s != []
    ensures var n := UnitChars(s);
            && |Encode(s[..n])| == UnitBytes(s) && Encode(s) == Encode(s[..n]) + Encode(s[n..])
            && ToLf(s) == ToLf(s[..n]) + ToLf(s[n..]) && |Utf16(ToLf(s[..n]))| == UnitWidth(s)
            && Utf16(ToLf(s)) == Utf16(ToLf(s[..n])) + Utf16(ToLf(s[n..]))
  {
    hide EncodeChar, UnitsOf;
    var n := UnitChars(s);
    EncodeSplit(s, n);
    if StartsCrLf(s) {
      assert s[..2] == "\r\n";
      CrLfUnit();
      Utf16Concat("\n", ToLf(s[2..]));
    } else {
      assert s[..1] == [s[0]];
      OneUnit(s[0]);
      Utf16Concat([s[0]], ToLf(s[1..]));
    }
  }

  lemma CrLfUnit()
    ensures |Encode("\r\n")| == 2 && ToLf("\r\n") == "\n" && |Utf16("\n")| == 1
  {
    var s := "\r\n";
    assert s[1..] == "\n" && "\n"[1..] == [];
    assert s[2..] == [] && ['\n'] + [] == ['\n'];
    assert Utf16([]) == [];
  }

  lemma OneUnit(c: char)
    ensures |Encode([c])| == |EncodeChar(c)| && ToLf([c]) == [c] && Utf16([c]) == UnitsOf(c)
  {
    hide EncodeChar, UnitsOf;
    assert [c][1..] == [] && [c] + [] == [c];
    assert EncodeChar(c) + [] == EncodeChar(c);
    assert UnitsOf(c) + [] == UnitsOf(c);
  }

  /** Bytes and UTF-16 units that the walk takes in one step, from whatever bytes. */
  function WalkStep(body: seq<byte>, at: nat): (r: (nat, nat))
    requires at < |body|
    ensures 1 <= r.0
  {
    if body[at] == 0x0D && ByteAt(body, at + 1) == 0x0A then (2, 1)
    else
      var (codePoint, width) := DecodeCodePoint(body, at);
      (width, if codePoint > 0xFFFF then 2 else 1)
  }

  /** The walk from byte `at`, reached after `chars` of the text's `length` units. */
  function Walk(body: seq<byte>, length: nat, at: nat, chars: nat, target: int): (index: nat)
    ensures index <= length
    decreases if at <= |body| then |body| - at else 0
  {
    if at >= |body| || chars >= length then length
    else
      var (width, units) := WalkStep(body, at);
      if target < at + width then chars else Walk(body, length, at + width, chars + units, target)
  }

  function Walked(body: seq<byte>, length: nat, target: int): (index: nat)
    ensures index <= length
  {
    if target <= 0 then 0 else Walk(body, length, 0, 0, target)
  }

  /** The walk over the native bytes, valid or not. */
  method OffsetToIndex(body: seq<byte>, bodyOffset: nat, text: seq<Unit>, target: int) returns (index: nat)
    ensures index == Walked(body, |text|, target - bodyOffset)
  {
    hide DecodeCodePoint;
    if target <= bodyOffset {
      return 0;
    }
    var nativeOffset, byteIndex, charIndex := bodyOffset, 0, 0;
    while byteIndex < |body| && charIndex < |text|
      invariant nativeOffset == bodyOffset + byteIndex
      invariant Walk(body, |text|, byteIndex, charIndex, target - bodyOffset)
                == Walked(body, |text|, target - bodyOffset)
      decreases if byteIndex <= |body| then |body| - byteIndex else 0
    {
      var width, charWidth := 0, 0;
      if body[byteIndex] == 0x0D && ByteAt(body, byteIndex + 1) == 0x0A {
        width, charWidth := 2, 1;
      } else {
        var decoded := DecodeCodePoint(body, byteIndex);
        width := decoded.1;
        charWidth := if decoded.0 > 0xFFFF then 2 else 1;
      }
      if target <= nativeOffset {
        return charIndex;
      }
      if target < nativeOffset + width {
        return charIndex;
      }
      nativeOffset := nativeOffset + width;
      byteIndex := byteIndex + width;
      charIndex := charIndex + charWidth;
    }
    return |text|;
  }

  /** Even on invalid bytes a larger offset gives no smaller index. */
  lemma {:induction false} WalkMonotone(body: seq<byte>, length: nat, at: nat, chars: nat, t: int, u: int)
    requires t <= u && chars <= length
    ensures chars <= Walk(body, length, at, chars, t) <= Walk(body, length, at, chars, u)
    decreases if at <= |body| then |body| - at else 0
  {
    hide WalkStep;
    if at < |body| && chars < length {
      var (width, units) := WalkStep(body, at);
      if t >= at + width {
        if chars + units <= length {
          WalkMonotone(body, length, at + width, chars + units, t, u);
        }
      } else if u >= at + width {
        WalkAhead(body, length, at + width, chars + units, u);
      }
    }
  }

  lemma {:induction false} WalkAhead(body: seq<byte>, length: nat, at: nat, chars: nat, t: int)
    ensures Walk(body, length, at, chars, t) >= if chars <= length then chars else length
    decreases if at <= |body| then |body| - at else 0
  {
    hide WalkStep;
    if at < |body| && chars < length {
      var (width, units) := WalkStep(body, at);
      WalkAhead(body, length, at + width, chars + units, t);
    }
  }

  lemma WalkedMonotone(body: seq<byte>, length: nat, t: int, u: int)
    requires t <= u
    ensures Walked(body, length, t) <= Walked(body, length, u)
  {
    WalkMonotone(body, length, 0, 0, t, u);
  }

  function Min(a: int, b: int): int {
    if a <= b then a else b
  }

  /** A step on valid bytes is a unit of their text. */
  lemma StepIsUnit(body: seq<byte>, at: nat, rest: string)
    requires at < |body| && body[at..] == Encode(rest)
    ensures rest != [] && WalkStep(body, at) == (UnitBytes(rest), UnitWidth(rest))
  {
    hide Encode, EncodeChar, UnitsOf, DecodeCodePoint;
    NotAtEnd(body, at, rest);
    CrLfBytes(body, at, rest);
    DecodesNext(body, at, rest);
    WidthOfUnits(rest[0]);
  }

  /** On valid bytes the walk follows the units of their text, up to the length of the text it is given. */
  lemma {:induction false} WalkIsIndex(body: seq<byte>, length: nat, at: nat, rest: string, chars: nat, target: int)
    requires at <= |body| && body[at..] == Encode(rest) && length <= chars + |Utf16(ToLf(rest))|
    ensures Walk(body, length, at, chars, target) == Min(length, chars + IndexAt(rest, target - at))
    decreases |rest|
  {
    hide Encode, ToLf, Utf16, UnitBytes, UnitWidth, WalkStep;
    if at == |body| {
      EndOfWalk(rest);
      NothingIsEmpty();
    } else if chars < length {
      StepIsUnit(body, at, rest);
      UnitSplit(rest);
      var n, width := UnitChars(rest), UnitBytes(rest);
      assert body[at + width..] == body[at..][width..] == Encode(rest[n..]);
      if target >= at + width {
        WalkIsIndex(body, length, at + width, rest[n..], chars + UnitWidth(rest), target);
      }
    }
  }

  lemma NothingAt(s: string, t: int)
    requires t <= 0
    ensures IndexAt(s, t) == 0
  {
  }

  lemma WalkedIsIndex(body: seq<byte>, length: nat, target: int)
    requires Valid(body) && length <= |Utf16(ToLf(Decode(body).value))|
    ensures Walked(body, length, target) == Min(length, IndexAt(Decode(body).value, target))
  {
    hide Encode, Decode, ToLf, Utf16, IndexAt, Walk;
    EncodeOfDecode(body);
    assert body[0..] == body;
    WalkIsIndex(body, length, 0, Decode(body).value, 0, target);
    if target <= 0 {
      NothingAt(Decode(body).value, target);
    }
  }

  lemma NotAtEnd(body: seq<byte>, index: nat, rest: string)
    requires index < |body| && body[index..] == Encode(rest)
    ensures rest != []
  {
    assert |body[index..]| > 0;
  }

  lemma EndOfWalk(rest: string)
    requires Encode(rest) == [] || |Utf16(ToLf(rest))| == 0
    ensures rest == []
  {
    if rest != [] {
      UnitSplit(rest);
    }
  }

  lemma WidthOfUnits(c: char)
    ensures |UnitsOf(c)| == if (c as int) > 0xFFFF then 2 else 1
  {
  }

  /** The two bytes of a CRLF stand where the text has one. */
  lemma CrLfBytes(body: seq<byte>, index: nat, rest: string)
    requires index < |body| && body[index..] == Encode(rest) && rest != []
    ensures body[index] == 0x0D && ByteAt(body, index + 1) == 0x0A <==> StartsCrLf(rest)
  {
    hide EncodeChar;
    FirstEncoded(rest, '\r');
    assert body[index..][0] == body[index];
    if rest[0] == '\r' {
      EncodeAscii('\r');
      var tail := Encode(rest[1..]);
      assert Encode(rest) == [0x0D] + tail;
      assert body[index..][1..] == tail && body[index + 1..] == tail;
      if |rest| > 1 {
        FirstEncoded(rest[1..], '\n');
        assert body[index + 1] == tail[0];
      } else {
        assert tail == [];
      }
    }
  }

  // ---- what the map means ---------------------------------------------------

  /** Position `k` does not fall between the two characters of a CRLF. */
  predicate SplitsNoCrLf(s: string, k: nat) {
    k <= |s| && !(0 < k < |s| && s[k - 1] == '\r' && s[k] == '\n')
  }

  lemma {:induction false} ToLfConcat(s: string, k: nat)
    requires SplitsNoCrLf(s, k)
    ensures ToLf(s) == ToLf(s[..k]) + ToLf(s[k..])
    decreases |s|
  {
    hide Utf16, ToLf, Encode, UnitBytes, UnitWidth;
    if k > 0 {
      var n := UnitChars(s);
      UnitOfPrefix(s, k);
      ToLfConcat(s[n..], k - n);
      UnitSplit(s);
      UnitSplit(s[..k]);
      SlicesOfPrefix(s, n, k);
      Regroup(ToLf(s[..n]), ToLf(s[n..k]), ToLf(s[k..]));
    } else {
      assert s[..0] == [] && s[0..] == s;
      NothingIsEmpty();
      assert [] + ToLf(s) == ToLf(s);
    }
  }

  lemma SlicesOfPrefix(s: string, n: nat, k: nat)
    requires n <= k <= |s|
    ensures s[..k][..n] == s[..n] && s[..k][n..] == s[n..k] == s[n..][..k - n] && s[n..][k - n..] == s[k..]
  {
  }

  lemma Regroup(a: string, b: string, c: string)
    ensures a + (b + c) == (a + b) + c
  {
  }

  lemma ToLfSplit(s: string, k: nat)
    requires SplitsNoCrLf(s, k)
    ensures Utf16(ToLf(s)) == Utf16(ToLf(s[..k])) + Utf16(ToLf(s[k..]))
  {
    hide Utf16, ToLf;
    ToLfConcat(s, k);
    Utf16Concat(ToLf(s[..k]), ToLf(s[k..]));
  }

  lemma UnitOfPrefix(s: string, k: nat)
    requires SplitsNoCrLf(s, k) && k > 0
    ensures UnitChars(s[..k]) == UnitChars(s) <= k
    ensures UnitBytes(s[..k]) == UnitBytes(s) && UnitWidth(s[..k]) == UnitWidth(s)
  {
    var p := s[..k];
    assert p[0] == s[0];
    assert |p| >= 2 ==> p[1] == s[1];
  }

  /** The offset of a boundary maps to the length of the normalised text before it. */
  lemma {:induction false} IndexOfBoundary(s: string, k: nat)
    requires SplitsNoCrLf(s, k)
    ensures IndexAt(s, |Encode(s[..k])|) == |Utf16(ToLf(s[..k]))|
    decreases |s|
  {
    hide Encode, EncodeChar, Utf16, UnitsOf, ToLf;
    var p := s[..k];
    if k > 0 {
      var n := UnitChars(s);
      UnitOfPrefix(s, k);
      IndexOfBoundary(s[n..], k - n);
      UnitSplit(p);
      assert p[..n] == s[..n] && p[n..] == s[n..][..k - n];
    } else {
      assert p == [];
      NothingIsEmpty();
    }
  }

  lemma NothingIsEmpty()
    ensures Encode([]) == [] && ToLf([]) == [] && Utf16(ToLf([])) == []
  {
  }

  /** The map never goes backwards. */
  lemma {:induction false} IndexMonotone(s: string, t: int, u: int)
    requires t <= u
    ensures IndexAt(s, t) <= IndexAt(s, u)
    decreases |s|
  {
    hide UnitBytes, UnitWidth, UnitChars;
    if s != [] && t >= UnitBytes(s) {
      IndexMonotone(s[UnitChars(s)..], t - UnitBytes(s), u - UnitBytes(s));
    }
  }

  // ---- spans ----------------------------------------------------------------

  function Max(a: int, b: int): int {
    if a >= b then a else b
  }

  /** A position of the document as an offset into its body; inside the mark it is the start of the body. */
  function BodyPosition(bytes: seq<byte>, at: nat): nat {
    Max(BaseOffset(bytes), at) - BaseOffset(bytes)
  }

  ghost function RangeOf(bytes: seq<byte>, span: Span): Span
    requires Valid(Body(bytes))
  {
    var s := Decode(Body(bytes)).value;
    var start, end := IndexAt(s, BodyPosition(bytes, span.start)), IndexAt(s, BodyPosition(bytes, span.end));
    Span(start, Max(start, end))
  }

  /** Valid UTF-8 with at most one byte-order mark. */
  predicate Displayable(bytes: seq<byte>) {
    Valid(Body(bytes)) && !HasSecondMark(bytes)
  }

  /** The UTF-16 units of the textarea's value. */
  function EditorUnits(bytes: seq<byte>): seq<Unit>
    requires Displayable(bytes)
  {
    Utf16(ToLf(Decode(Body(bytes)).value))
  }

  /** With no second mark, what is displayed is the whole body. */
  lemma DisplaysBody(bytes: seq<byte>)
    requires Displayable(bytes)
    ensures EditorTextOf(bytes) == Some(ToLf(Decode(Body(bytes)).value))
  {
    hide Decode, ToLf;
    var b := Body(bytes);
    if HasBom(b) {
      NoMarkTwice(bytes);
    }
    assert Body(b) == b;
  }

  /** The lossy `TextDecoder`: any text for invalid bytes, the strict decoding of valid ones. */
  type Lossy = seq<byte> -> string

  ghost predicate DecodesValid(lossy: Lossy) {
    forall b | TextDecode(b).Some? :: lossy(b) == TextDecode(b).value
  }

  /** The units of the text that is shown for the bytes, valid or not. */
  function ShownUnits(bytes: seq<byte>, lossy: Lossy): seq<Unit> {
    Utf16(ToLf(lossy(Body(bytes))))
  }

  function RangeIn(bytes: seq<byte>, span: Span, length: nat): Span {
    var start := Walked(Body(bytes), length, BodyPosition(bytes, span.start));
    var end := Walked(Body(bytes), length, BodyPosition(bytes, span.end));
    Span(start, Max(start, end))
  }

  method SpanToEditorRange(bytes: seq<byte>, span: Span, lossy: Lossy) returns (range: Span)
    ensures range == RangeIn(bytes, span, |ShownUnits(bytes, lossy)|)
    ensures range.start <= range.end <= |ShownUnits(bytes, lossy)|
  {
    hide ToLf, Utf16, HasBom, Walked;
    var body := Body(bytes);
    var bodyOffset := |bytes| - |body|;
    var text := Utf16(ToLf(lossy(Body(bytes))));
    var start := OffsetToIndex(body, bodyOffset, text, Max(bodyOffset, span.start));
    var end := OffsetToIndex(body, bodyOffset, text, Max(bodyOffset, span.end));
    range := Span(start, Max(start, end));
  }

  /** For a document that can be displayed the range is the one of its text. */
  lemma RangeIsRangeOf(bytes: seq<byte>, span: Span, lossy: Lossy)
    requires Displayable(bytes) && DecodesValid(lossy)
    ensures ShownUnits(bytes, lossy) == EditorUnits(bytes)
    ensures RangeIn(bytes, span, |ShownUnits(bytes, lossy)|) == RangeOf(bytes, span)
  {
    hide Decode, ToLf, Utf16, HasBom, HasSecondMark, IndexAt, Walked;
    DisplaysBody(bytes);
    var body := Body(bytes);
    assert TextDecode(body).Some?;
    var s := Decode(body).value;
    var length := |Utf16(ToLf(s))|;
    WalkedIsIndex(body, length, BodyPosition(bytes, span.start));
    WalkedIsIndex(body, length, BodyPosition(bytes, span.end));
    IndexInText(s, BodyPosition(bytes, span.start));
    IndexInText(s, BodyPosition(bytes, span.end));
  }

  lemma {:induction false} IndexInText(s: string, t: int)
    ensures IndexAt(s, t) <= |Utf16(ToLf(s))|
    decreases |s|
  {
    hide UnitBytes, UnitWidth, ToLf, Utf16;
    if s != [] && t >= UnitBytes(s) {
      UnitSplit(s);
      IndexInText(s[UnitChars(s)..], t - UnitBytes(s));
    }
  }

  /** Where a second byte-order mark is dropped from the text, every range behind it is one unit late, as far as
      the text goes. */
  lemma SecondMarkShifts(bytes: seq<byte>, at: nat, lossy: Lossy)
    requires Valid(Body(bytes)) && HasSecondMark(bytes) && DecodesValid(lossy) && at >= 6
    ensures Valid(bytes[6..])
    ensures var text := Decode(bytes[6..]).value;
            && ShownUnits(bytes, lossy) == Utf16(ToLf(text))
            && Walked(Body(bytes), |Utf16(ToLf(text))|, BodyPosition(bytes, at))
               == Min(|Utf16(ToLf(text))|, 1 + IndexAt(text, at - 6))
  {
    hide Decode, ToLf, Utf16, IndexAt, Walked, Encode, HasBom;
    SecondMark(bytes);
    var text := Decode(bytes[6..]).value;
    MarkUnit(text);
    assert TextDecode(Body(bytes)) == Some(text);
    WalkedIsIndex(Body(bytes), |Utf16(ToLf(text))|, BodyPosition(bytes, at));
    IndexPastMark(text, at - 3);
  }

  const MARK: char := '\U{FEFF}'

  lemma SecondMark(bytes: seq<byte>)
    requires Valid(Body(bytes)) && HasSecondMark(bytes)
    ensures |bytes| >= 6 && BaseOffset(bytes) == 3 && Body(Body(bytes)) == bytes[6..] && Valid(bytes[6..])
    ensures Decode(Body(bytes)).value == [MARK] + Decode(bytes[6..]).value
  {
    hide Decode, Encode, EncodeChar;
    var b := Body(bytes);
    InnerValid(b);
    MarkSplit(b);
    assert Body(b) == bytes[6..];
    var text := Decode(bytes[6..]).value;
    EncodeOfDecode(bytes[6..]);
    EncodeMark();
    EncodeOne(MARK);
    EncodeConcat([MARK], text);
    DecodeOfEncode([MARK] + text);
  }

  /** The mark is one unit of three bytes in front of the text. */
  lemma MarkUnit(text: string)
    ensures UnitChars([MARK] + text) == 1 && UnitBytes([MARK] + text) == 3 && UnitWidth([MARK] + text) == 1
    ensures |Utf16(ToLf([MARK] + text))| == 1 + |Utf16(ToLf(text))|
  {
    hide Utf16, ToLf, Encode;
    var marked := [MARK] + text;
    EncodeMark();
    UnitSplit(marked);
    assert marked[1..] == text;
  }

  lemma IndexPastMark(text: string, t: int)
    requires t >= 3
    ensures IndexAt([MARK] + text, t) == 1 + IndexAt(text, t - 3)
  {
    hide UnitBytes, UnitWidth, UnitChars;
    MarkUnit(text);
    assert ([MARK] + text)[1..] == text;
  }

  /** A code-point boundary of the body that does not split a CRLF. */
  predicate Boundary(body: seq<byte>, i: nat) {
    && i <= |body| && Valid(body[..i])
    && !(0 < i < |body| && body[i - 1] == CR && body[i] == LF)
  }

  lemma {:induction false} EncodedPrefix(p: string, s: string)
    requires Encode(p) <= Encode(s)
    ensures p <= s
  {
    hide EncodeChar, DecodeChar, Width;
    if p != [] {
      var e := EncodeChar(p[0]);
      var rest := Encode(s)[|e|..];
      assert Encode(p) == e + Encode(p[1..]);
      assert Encode(s) == e + rest;
      DecodeCharOfEncode(p[0], rest);
      assert s != [];
      DecodeCharOfEncode(s[0], Encode(s[1..]));
      assert Encode(s) == e + Encode(s[1..]);
      assert rest == Encode(s[1..]);
      EncodedPrefix(p[1..], s[1..]);
      assert p == [p[0]] + p[1..] && s == [s[0]] + s[1..];
    }
  }

  /** A boundary of the bytes is a boundary of the text. */
  lemma BoundaryOfText(body: seq<byte>, i: nat)
    requires Valid(body) && Boundary(body, i)
    ensures var s := Decode(body).value;
            var k := |Decode(body[..i]).value|;
            && SplitsNoCrLf(s, k) && s[..k] == Decode(body[..i]).value
            && body[..i] == Encode(s[..k]) && body[i..] == Encode(s[k..])
  {
    hide Decode, Encode;
    var s, p := Decode(body).value, Decode(body[..i]).value;
    EncodeOfDecode(body);
    EncodeOfDecode(body[..i]);
    EncodedPrefix(p, s);
    var k := |p|;
    assert s[..k] == p;
    EncodeSplit(s, k);
    assert body[i..] == Encode(s[k..]);
    if 0 < k < |s| && s[k - 1] == '\r' && s[k] == '\n' {
      LastEncoded(p, '\r');
      FirstEncoded(s[k..], '\n');
      assert body[..i][i - 1] == body[i - 1] && body[i..][0] == body[i];
    }
  }

  lemma DecodePart(s: string, j: nat, k: nat, b: seq<byte>)
    requires j <= k <= |s| && b == Encode(s)
    ensures |Encode(s[..j])| <= |Encode(s[..k])| <= |b|
    ensures b[|Encode(s[..j])|..|Encode(s[..k])|] == Encode(s[j..k])
  {
    hide Encode;
    EncodeSplit(s, k);
    EncodeSplit(s[..k], j);
    assert s[..k][..j] == s[..j] && s[..k][j..] == s[j..k];
  }

  /** THE SPAN THEOREM, on a body: a span on boundaries maps to the range of UTF-16 units whose text is the
      normalised decoding of exactly those bytes. */
  lemma PartIsText(body: seq<byte>, a: nat, b: nat)
    requires Valid(body) && a <= b && Boundary(body, a) && Boundary(body, b)
    ensures var s := Decode(body).value;
            var (start, end) := (IndexAt(s, a), IndexAt(s, b));
            && start <= end <= |Utf16(ToLf(s))| && Valid(body[a..b])
            && Utf16(ToLf(s))[..start] == Utf16(ToLf(Decode(body[..a]).value))
            && Utf16(ToLf(s))[..end] == Utf16(ToLf(Decode(body[..b]).value))
            && Utf16(ToLf(s))[start..end] == Utf16(ToLf(Decode(body[a..b]).value))
  {
    hide Decode, Encode, Utf16, ToLf, IndexAt;
    var s := Decode(body).value;
    var p, q := Decode(body[..a]).value, Decode(body[..b]).value;
    var j, k := |p|, |q|;
    EncodeOfDecode(body);
    BoundaryOfText(body, a);
    BoundaryOfText(body, b);
    PrefixOrder(s, j, k, a, b);
    DecodePart(s, j, k, body);
    DecodeOfEncode(s[j..k]);
    IndexOfBoundary(s, j);
    IndexOfBoundary(s, k);
    ToLfSplit(s, j);
    ToLfSplit(s, k);
    assert s[..k][..j] == s[..j] && s[..k][j..] == s[j..k];
    ToLfSplit(s[..k], j);
  }

  lemma PrefixOrder(s: string, j: nat, k: nat, a: nat, b: nat)
    requires j <= |s| && k <= |s| && |Encode(s[..j])| == a <= b == |Encode(s[..k])|
    ensures j <= k
  {
    if k < j {
      EncodeGrows(s, k, j);
    }
  }

  lemma EncodeGrows(s: string, k: nat, j: nat)
    requires k < j <= |s|
    ensures |Encode(s[..k])| < |Encode(s[..j])|
  {
    hide EncodeChar;
    EncodeSplit(s[..j], k);
    assert s[..j][..k] == s[..k];
    var m := s[..j][k..];
    assert |Encode(m)| >= |EncodeChar(m[0])|;
  }

  /** The range of a document's span holds the text of the span; where the span starts inside the mark, of
      its part in the body. */
  lemma SpanIsText(bytes: seq<byte>, span: Span)
    requires Displayable(bytes) && span.start <= span.end <= |bytes|
    requires Boundary(Body(bytes), BodyPosition(bytes, span.start))
             && Boundary(Body(bytes), BodyPosition(bytes, span.end))
    ensures var r := RangeOf(bytes, span);
            var part := bytes[Max(BaseOffset(bytes), span.start)..Max(BaseOffset(bytes), span.end)];
            && r.start <= r.end <= |EditorUnits(bytes)| && Valid(part)
            && EditorUnits(bytes)[r.start..r.end] == Utf16(ToLf(Decode(part).value))
  {
    hide Decode, Utf16, ToLf, IndexAt, HasSecondMark, HasBom;
    var base := BaseOffset(bytes);
    var a, b := BodyPosition(bytes, span.start), BodyPosition(bytes, span.end);
    PartIsText(Body(bytes), a, b);
    BodyPart(bytes, a, b);
    assert Max(base, span.start) == base + a && Max(base, span.end) == base + b;
  }

  lemma BodyPart(bytes: seq<byte>, a: nat, b: nat)
    requires a <= b <= |Body(bytes)|
    ensures Body(bytes)[a..b] == bytes[BaseOffset(bytes) + a..BaseOffset(bytes) + b]
  {
    hide HasBom;
  }

  // ---- lines ----------------------------------------------------------------

  lemma {:induction false} FeedsConcat(x: seq<Unit>, y: seq<Unit>)
    ensures Feeds(x + y, |x + y|) == Feeds(x, |x|) + Feeds(y, |y|)
    decreases |y|
  {
    if y == [] {
      assert x + y == x;
    } else {
      var front := y[..|y| - 1];
      FeedsConcat(x, front);
      FeedsPrefix(x + y, |x + y| - 1);
      FeedsPrefix(y, |y| - 1);
      assert (x + y)[..|x + y| - 1] == x + front;
    }
  }

  lemma {:induction false} FeedsPrefix(x: seq<Unit>, n: nat)
    requires n <= |x|
    ensures Feeds(x[..n], n) == Feeds(x, n)
    decreases n
  {
    if n > 0 {
      FeedsPrefix(x, n - 1);
      FeedsPrefix(x[..n], n - 1);
      assert x[..n][..n - 1] == x[..n - 1];
    }
  }

  lemma FeedsOfChar(c: char)
    ensures Feeds(UnitsOf(c), |UnitsOf(c)|) == if c == '\n' then 1 else 0
  {
    var u := UnitsOf(c);
    assert Feeds(u, 1) == Feeds(u, 0) + if u[0] == NEWLINE then 1 else 0;
  }

  lemma CountOfChar(c: char)
    ensures RevisionDiff.CountLf(EncodeChar(c)) == if c == '\n' then 1 else 0
  {
    if c == '\n' {
      assert EncodeChar(c) == [LF] && [LF][1..] == [];
    } else {
      AsciiHead(c, '\n');
      RevisionDiff.CountLfNone(EncodeChar(c));
    }
  }

  /** Normalising keeps the number of line feeds, and so does going from bytes to UTF-16. */
  lemma {:induction false} FeedsAreCounted(s: string)
    ensures var t := Utf16(ToLf(s)); Feeds(t, |t|) == RevisionDiff.CountLf(Encode(s))
    decreases |s|
  {
    hide Encode, EncodeChar, Utf16, UnitsOf, ToLf, Feeds;
    if s == [] {
      NothingIsEmpty();
      assert Feeds([], 0) == 0 by {
        NoFeeds();
      }
    } else {
      var n := UnitChars(s);
      UnitSplit(s);
      FeedsAreCounted(s[n..]);
      FeedsConcat(Utf16(ToLf(s[..n])), Utf16(ToLf(s[n..])));
      RevisionDiff.CountLfConcat(Encode(s[..n]), Encode(s[n..]));
      if StartsCrLf(s) {
        assert s[..2] == "\r\n";
        CrLfCounts();
      } else {
        assert s[..1] == [s[0]];
        OneUnit(s[0]);
        EncodeOne(s[0]);
        FeedsOfChar(s[0]);
        CountOfChar(s[0]);
      }
    }
  }

  lemma NoFeeds()
    ensures Feeds([], 0) == 0
  {
  }

  lemma CrLfCounts()
    ensures RevisionDiff.CountLf(Encode("\r\n")) == 1
    ensures var t := Utf16(ToLf("\r\n")); Feeds(t, |t|) == 1
  {
    hide EncodeChar, UnitsOf;
    var s := "\r\n";
    EncodeConcat("\r", "\n");
    assert s == "\r" + "\n";
    EncodeOne('\r');
    EncodeOne('\n');
    CountOfChar('\r');
    CountOfChar('\n');
    RevisionDiff.CountLfConcat(EncodeChar('\r'), EncodeChar('\n'));
    CrLfUnit();
    OneUnit('\n');
    FeedsOfChar('\n');
  }

  /** The line of a boundary is one more than the number of line feeds before it in the native bytes,
      whatever line endings they belong to. */
  lemma LineOfBoundary(body: seq<byte>, i: nat)
    requires Valid(body) && Boundary(body, i)
    ensures var s := Decode(body).value; LineOf(Utf16(ToLf(s)), IndexAt(s, i)) == 1 + RevisionDiff.CountLf(body[..i])
  {
    hide Decode, Encode, Utf16, ToLf, IndexAt, Feeds;
    PartIsText(body, i, i);
    EncodeOfDecode(body[..i]);
    var p := Decode(body[..i]).value;
    FeedsAreCounted(p);
    FeedsPrefix(Utf16(ToLf(Decode(body).value)), IndexAt(Decode(body).value, i));
    assert |Utf16(ToLf(p))| == IndexAt(Decode(body).value, i);
  }

  /** The last unit before a boundary is a line feed exactly when the last byte before it is. */
  lemma LastUnit(p: string)
    requires p != []
    ensures var t := Utf16(ToLf(p)); t != [] && (t[|t| - 1] == NEWLINE <==> Encode(p)[|Encode(p)| - 1] == LF)
  {
    hide Encode, EncodeChar, Utf16, ToLf;
    var k := |p| - 1;
    var c := p[k];
    LastEncoded(p, '\n');
    if k > 0 && p[k - 1] == '\r' && c == '\n' {
      assert SplitsNoCrLf(p, k - 1);
      assert p[k - 1..] == "\r\n";
      ToLfSplit(p, k - 1);
      CrLfUnit();
      OneUnit('\n');
    } else {
      assert p[k..] == [c];
      ToLfSplit(p, k);
      OneUnit(c);
    }
    LastOfChar(c);
  }

  lemma LastOfChar(c: char)
    ensures var u := UnitsOf(c); u[|u| - 1] == NEWLINE <==> c == '\n'
    ensures var e := EncodeChar(c); e != []
  {
  }

  /** The lines the editor marks for a non-empty span: from the line feeds before its first byte to the line
      feeds before its last one. */
  lemma SpanLines(bytes: seq<byte>, span: Span)
    requires Displayable(bytes) && BaseOffset(bytes) <= span.start < span.end <= |bytes|
    requires Boundary(Body(bytes), BodyPosition(bytes, span.start))
             && Boundary(Body(bytes), BodyPosition(bytes, span.end))
    ensures var r := RangeOf(bytes, span);
            var text := EditorUnits(bytes);
            && r.start < r.end
            && LineOf(text, r.start) == 1 + RevisionDiff.CountLf(bytes[..span.start])
            && LineOf(text, LastIndex(r.start, r.end)) == 1 + RevisionDiff.CountLf(bytes[..span.end - 1])
  {
    hide Decode, Encode, Utf16, ToLf, IndexAt, Feeds, Boundary, HasSecondMark, HasBom, LineOf, RevisionDiff.CountLf;
    var body, base := Body(bytes), BaseOffset(bytes);
    var a, b := span.start - base, span.end - base;
    var s := Decode(body).value;
    LineOfBoundary(body, a);
    LineOfBoundary(body, b);
    MarkHasNoFeed(bytes, a);
    MarkHasNoFeed(bytes, b - 1);
    LastLine(body, a, b);
  }

  lemma MarkHasNoFeed(bytes: seq<byte>, i: nat)
    requires i <= |Body(bytes)|
    ensures RevisionDiff.CountLf(bytes[..BaseOffset(bytes) + i]) == RevisionDiff.CountLf(Body(bytes)[..i])
  {
    var base := BaseOffset(bytes);
    assert bytes[..base + i] == bytes[..base] + Body(bytes)[..i];
    RevisionDiff.CountLfConcat(bytes[..base], Body(bytes)[..i]);
    assert base == 3 ==> bytes[0] == 0xEF && bytes[1] == 0xBB && bytes[2] == 0xBF;
    RevisionDiff.CountLfNone(bytes[..base]);
  }

  /** One unit and one byte before a boundary the count of line feeds is the same. */
  lemma LastLine(body: seq<byte>, a: nat, b: nat)
    requires Valid(body) && a < b && Boundary(body, a) && Boundary(body, b)
    ensures var s := Decode(body).value;
            var text := Utf16(ToLf(s));
            && IndexAt(s, a) < IndexAt(s, b)
            && LineOf(text, LastIndex(IndexAt(s, a), IndexAt(s, b))) == 1 + RevisionDiff.CountLf(body[..b - 1])
  {
    hide Decode, Encode, Utf16, ToLf, IndexAt, Feeds, RevisionDiff.CountLf;
    var s, q := Decode(body).value, Decode(body[..b]).value;
    var text, t := Utf16(ToLf(s)), Utf16(ToLf(q));
    PartIsText(body, a, b);
    EncodeOfDecode(body[..b]);
    NotEmptyText(body, a, b);
    assert q != [] by {
      NothingIsEmpty();
    }
    LastUnit(q);
    FeedsAreCounted(q);
    FeedsBack(t);
    CountBack(body[..b]);
    assert body[..b][..b - 1] == body[..b - 1];
    FeedsPrefix(text, |t|);
    FeedsPrefix(text, |t| - 1);
    FeedsPrefix(t, |t| - 1);
    assert text[..|t|] == t && t[..|t| - 1] == text[..|t| - 1];
  }

  lemma FeedsBack(t: seq<Unit>)
    requires t != []
    ensures Feeds(t, |t|) == Feeds(t, |t| - 1) + if t[|t| - 1] == NEWLINE then 1 else 0
  {
  }

  lemma CountBack(b: seq<byte>)
    requires b != []
    ensures RevisionDiff.CountLf(b) == RevisionDiff.CountLf(b[..|b| - 1]) + if b[|b| - 1] == LF then 1 else 0
  {
    var k := |b| - 1;
    RevisionDiff.CountLfConcat(b[..k], [b[k]]);
    assert b == b[..k] + [b[k]] && [b[k]][1..] == [];
  }

  /** A non-empty part has text. */
  lemma NotEmptyText(body: seq<byte>, a: nat, b: nat)
    requires Valid(body) && a < b && Boundary(body, a) && Boundary(body, b)
    ensures IndexAt(Decode(body).value, a) < IndexAt(Decode(body).value, b)
  {
    hide Decode, Encode, Utf16, ToLf, IndexAt;
    PartIsText(body, a, b);
    EncodeOfDecode(body[a..b]);
    var m := Decode(body[a..b]).value;
    if m == [] {
      NothingIsEmpty();
    } else {
      LastUnit(m);
    }
  }
}
