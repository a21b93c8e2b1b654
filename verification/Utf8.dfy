/** UTF-8 as section 4 of RFC 3629 defines it: the encoder, the decoder with its exact table of
    well-formed sequences, and the proof that the two are inverse to each other. */
module Utf8 {
  import opened Wrappers

  type byte = b: int | 0 <= b < 256

  function EncodeChar(c: char): (r: seq<byte>)
    ensures 1 <= |r| <= 4
  {
    var n := c as int;
    if n < 0x80 then [n]
    else if n < 0x800 then [0xC0 + n / 64, 0x80 + n % 64]
    else if n < 0x1_0000 then [0xE0 + n / 4096, 0x80 + n / 64 % 64, 0x80 + n % 64]
    else [0xF0 + n / 262144, 0x80 + n / 4096 % 64, 0x80 + n / 64 % 64, 0x80 + n % 64]
  }

  function Encode(s: string): seq<byte> {
    if s == [] then [] else EncodeChar(s[0]) + Encode(s[1..])
  }

  predicate Tail(b: byte) {
    0x80 <= b < 0xC0
  }

  /** The width of the well-formed sequence at the start of `b`, or 0 when there is none. */
  function Width(b: seq<byte>): (w: nat)
    ensures w <= |b|
  {
    if |b| >= 1 && b[0] < 0x80 then 1
    else if |b| >= 2 && 0xC2 <= b[0] < 0xE0 && Tail(b[1]) then 2
    else if |b| >= 3 && 0xE0 <= b[0] < 0xF0 && Tail(b[1]) && Tail(b[2])
            && (b[0] == 0xE0 ==> b[1] >= 0xA0) && (b[0] == 0xED ==> b[1] < 0xA0) then 3
    else if |b| >= 4 && 0xF0 <= b[0] < 0xF5 && Tail(b[1]) && Tail(b[2]) && Tail(b[3])
            && (b[0] == 0xF0 ==> b[1] >= 0x90) && (b[0] == 0xF4 ==> b[1] < 0x90) then 4
    else 0
  }

  /** The code point that a well-formed sequence of width `w` stands for: the payload bits of the
      first byte, then six bits from each tail byte. */
  function CodePoint(b: seq<byte>, w: nat): int
    requires 1 <= w <= 4 && w <= |b|
  {
    var b0: int := b[0];
    if w == 1 then b0
    else
      var b1: int := b[1];
      if w == 2 then (b0 - 0xC0) * 64 + (b1 - 0x80)
      else
        var b2: int := b[2];
        if w == 3 then (b0 - 0xE0) * 4096 + (b1 - 0x80) * 64 + (b2 - 0x80)
        else
          var b3: int := b[3];
          (b0 - 0xF0) * 262144 + (b1 - 0x80) * 4096 + (b2 - 0x80) * 64 + (b3 - 0x80)
  }

  /** A well-formed sequence never encodes a surrogate or a value past U+10FFFF. */
  lemma CodePointIsScalar(b: seq<byte>)
    requires Width(b) > 0
    ensures var n := CodePoint(b, Width(b)); 0 <= n < 0xD800 || 0xE000 <= n < 0x11_0000
  {
  }

  function DecodeChar(b: seq<byte>): Option<char> {
    var w := Width(b);
    if w == 0 then None
    else
      CodePointIsScalar(b);
      Some(CodePoint(b, w) as char)
  }

  /** The base-64 digits of a number put it together again. */
  lemma Digits(n: nat)
    ensures n == n / 64 * 64 + n % 64
    ensures n / 64 == n / 4096 * 64 + n / 64 % 64
    ensures n / 4096 == n / 262144 * 64 + n / 4096 % 64
  {
  }

  lemma DigitsUnique(a: nat, b: nat, c: nat, d: nat)
    requires b < 64 && c < 64 && d < 64
    ensures var n := a * 262144 + b * 4096 + c * 64 + d;
            n % 64 == d && n / 64 == a * 4096 + b * 64 + c && n / 64 % 64 == c
            && n / 4096 == a * 64 + b && n / 4096 % 64 == b && n / 262144 == a
  {
  }

  lemma DecodeCharOfEncode(c: char, rest: seq<byte>)
    ensures Width(EncodeChar(c) + rest) == |EncodeChar(c)|
    ensures DecodeChar(EncodeChar(c) + rest) == Some(c)
  {
    var n := c as int;
    Digits(n);
    var b := EncodeChar(c) + rest;
    assert b[0] == EncodeChar(c)[0];
    assert |EncodeChar(c)| > 1 ==> b[1] == EncodeChar(c)[1];
    assert |EncodeChar(c)| > 2 ==> b[2] == EncodeChar(c)[2];
    assert |EncodeChar(c)| > 3 ==> b[3] == EncodeChar(c)[3];
    assert CodePoint(b, |EncodeChar(c)|) == n;
  }

  lemma EncodeCharOfDecode(b: seq<byte>)
    requires Width(b) > 0
    ensures DecodeChar(b).Some?
    ensures EncodeChar(DecodeChar(b).value) == b[..Width(b)]
  {
    CodePointIsScalar(b);
    CodePointRange(b);
    var n := CodePoint(b, Width(b));
    assert DecodeChar(b) == Some(n as char);
    CodePointBytes(b);
  }

  /** Each width has its own range of code points. */
  lemma CodePointRange(b: seq<byte>)
    requires Width(b) > 0
    ensures var n := CodePoint(b, Width(b));
            Width(b) == if n < 0x80 then 1 else if n < 0x800 then 2 else if n < 0x1_0000 then 3 else 4
  {
  }

  /** The bytes are the digits of the code point behind their markers. */
  lemma CodePointBytes(b: seq<byte>)
    requires Width(b) > 0
    ensures var n := CodePoint(b, Width(b));
            b[..Width(b)] == match Width(b)
                             case 1 => [n]
                             case 2 => [0xC0 + n / 64, 0x80 + n % 64]
                             case 3 => [0xE0 + n / 4096, 0x80 + n / 64 % 64, 0x80 + n % 64]
                             case _ => [0xF0 + n / 262144, 0x80 + n / 4096 % 64, 0x80 + n / 64 % 64, 0x80 + n % 64]
  {
    var w := Width(b);
    WidthBytes(b);
    hide Width;
    if w == 2 {
      DigitsUnique(0, 0, b[0] - 0xC0, b[1] - 0x80);
    } else if w == 3 {
      DigitsUnique(0, b[0] - 0xE0, b[1] - 0x80, b[2] - 0x80);
    } else if w == 4 {
      DigitsUnique(b[0] - 0xF0, b[1] - 0x80, b[2] - 0x80, b[3] - 0x80);
    }
  }

  lemma WidthBytes(b: seq<byte>)
    requires Width(b) > 0
    ensures Width(b) <= 4
    ensures forall i | 1 <= i < Width(b) :: Tail(b[i])
    ensures Width(b) == 2 ==> b[0] >= 0xC0
    ensures Width(b) == 3 ==> b[0] >= 0xE0
    ensures Width(b) == 4 ==> b[0] >= 0xF0
  {
  }

  function Decode(b: seq<byte>): Option<string> {
    if b == [] then Some([])
    else
      match DecodeChar(b)
      case None => None
      case Some(c) =>
        match Decode(b[Width(b)..])
        case None => None
        case Some(rest) => Some([c] + rest)
  }

  predicate Valid(b: seq<byte>) {
    Decode(b).Some?
  }

  lemma {:induction false} EncodeConcat(a: string, b: string)
    ensures Encode(a + b) == Encode(a) + Encode(b)
  {
    hide EncodeChar;
    if a == [] {
      assert a + b == b;
    } else {
      assert (a + b)[0] == a[0] && (a + b)[1..] == a[1..] + b;
      EncodeConcat(a[1..], b);
      Regroup(EncodeChar(a[0]), Encode(a[1..]), Encode(b));
    }
  }

  lemma Regroup(a: seq<byte>, b: seq<byte>, c: seq<byte>)
    ensures a + (b + c) == (a + b) + c
  {
  }

  lemma EncodeSplit(s: string, k: nat)
    requires k <= |s|
    ensures Encode(s) == Encode(s[..k]) + Encode(s[k..])
  {
    hide Encode;
    EncodeConcat(s[..k], s[k..]);
    assert s[..k] + s[k..] == s;
  }

  lemma {:induction false} DecodeOfEncode(s: string)
    ensures Decode(Encode(s)) == Some(s)
  {
    if s != [] {
      var b := Encode(s);
      DecodeCharOfEncode(s[0], Encode(s[1..]));
      assert b[Width(b)..] == Encode(s[1..]);
      DecodeOfEncode(s[1..]);
      assert [s[0]] + s[1..] == s;
    }
  }

  lemma {:induction false} EncodeOfDecode(b: seq<byte>)
    requires Valid(b)
    ensures Encode(Decode(b).value) == b
  {
    hide EncodeChar, CodePoint;
    if b != [] {
      EncodeCharOfDecode(b);
      EncodeOfDecode(b[Width(b)..]);
      assert b == b[..Width(b)] + b[Width(b)..];
    }
  }

  lemma ValidConcat(a: seq<byte>, b: seq<byte>)
    requires Valid(a) && Valid(b)
    ensures Valid(a + b)
    ensures Decode(a + b).value == Decode(a).value + Decode(b).value
  {
    var s, t := Decode(a).value, Decode(b).value;
    EncodeOfDecode(a);
    EncodeOfDecode(b);
    EncodeConcat(s, t);
    DecodeOfEncode(s + t);
  }

  lemma EncodeAscii(c: char)
    ensures c as int < 0x80 ==> EncodeChar(c) == [c as int]
    ensures c as int >= 0x80 ==> forall k :: 0 <= k < |EncodeChar(c)| ==> EncodeChar(c)[k] >= 0x80
  {
  }

  /** ASCII characters are their own byte, and no other character has ASCII bytes. */
  lemma {:induction false} AsciiIn(s: string, c: char)
    requires (c as int) < 0x80
    ensures (c as int) in Encode(s) <==> c in s
  {
    hide EncodeChar;
    if s != [] {
      EncodeAscii(c);
      EncodeAscii(s[0]);
      AsciiIn(s[1..], c);
      assert Encode(s) == EncodeChar(s[0]) + Encode(s[1..]);
      assert c in s <==> c == s[0] || c in s[1..];
      AsciiHead(s[0], c);
    }
  }

  lemma AsciiHead(h: char, c: char)
    requires (c as int) < 0x80
    ensures (c as int) in EncodeChar(h) <==> h == c
  {
    if (h as int) < 0x80 {
      assert EncodeChar(h) == [h as int];
    } else {
      EncodeAscii(h);
    }
  }

  lemma LastEncoded(s: string, c: char)
    requires s != [] && (c as int) < 0x80
    ensures var b := Encode(s); b != [] && (b[|b| - 1] == c as int <==> s[|s| - 1] == c)
  {
    hide EncodeChar;
    var k := |s| - 1;
    var last := s[k];
    EncodeSplit(s, k);
    assert s[k..] == [last];
    assert Encode([last]) == EncodeChar(last) by {
      assert [last][1..] == [] && EncodeChar(last) + [] == EncodeChar(last);
    }
    EncodeAscii(last);
    AsciiHead(last, c);
  }

  lemma FirstEncoded(s: string, c: char)
    requires s != [] && (c as int) < 0x80
    ensures var b := Encode(s); b != [] && (b[0] == c as int <==> s[0] == c)
  {
    hide EncodeChar;
    EncodeAscii(c);
    EncodeAscii(s[0]);
    assert Encode(s)[0] == EncodeChar(s[0])[0];
  }
}
