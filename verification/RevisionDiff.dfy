/** The line tokens of the service's diff (`diff.rs`): splitting a source into them in one pass, losing nothing, and
    counting them without splitting. */
module RevisionDiff {
  import opened Wrappers
  import Utf8
  import opened Document

  type byte = Utf8.byte

  const MAX_INPUT_BYTES: nat := 8 * 1024 * 1024
  const MAX_INPUT_LINES: nat := 200_000
  const MAX_OUTPUT_LINES: nat := 10_000

  datatype DiffError = TooLarge | InvalidUtf8

  // ---- line tokens ----------------------------------------------------------

  /** One line's text without its terminator, and the terminator. */
  datatype Token = Token(text: seq<byte>, ending: LineEnding)

  datatype ParsedSource = ParsedSource(lines: seq<Token>, hasBom: bool, ending: LineEnding, trailingNewline: bool)

  /** The position of the first line feed, or the length when there is none. */
  function FirstLf(b: seq<byte>): (k: nat)
    ensures k <= |b|
    ensures k < |b| ==> b[k] == LF
    ensures forall i | 0 <= i < k :: b[i] != LF
  {
    if b == [] || b[0] == LF then 0 else 1 + FirstLf(b[1..])
  }

  /** The line up to the first line feed. */
  function FirstToken(b: seq<byte>): Token {
    var k := FirstLf(b);
    if k == |b| then Token(b, NoEnding)
    else if k > 0 && b[k - 1] == CR then Token(b[..k - 1], CrLf)
    else Token(b[..k], Lf)
  }

  function Tokens(b: seq<byte>): seq<Token>
    decreases |b|
  {
    if b == [] then []
    else
      var k := FirstLf(b);
      [FirstToken(b)] + if k == |b| then [] else Tokens(b[k + 1..])
  }

  function Terminator(ending: LineEnding): seq<byte> {
    match ending
    case Lf => [LF]
    case CrLf => [CR, LF]
    case _ => []
  }

  function Join(tokens: seq<Token>): seq<byte> {
    if tokens == [] then [] else tokens[0].text + Terminator(tokens[0].ending) + Join(tokens[1..])
  }

  predicate TokenOk(t: Token, last: bool) {
    && LF !in t.text
    && t.ending != Mixed
    && (t.ending == NoEnding ==> last && t.text != [])
    && (t.ending == Lf && t.text != [] ==> t.text[|t.text| - 1] != CR)
  }

  lemma TokensStep(b: seq<byte>)
    requires FirstLf(b) < |b|
    ensures Tokens(b) == [FirstToken(b)] + Tokens(b[FirstLf(b) + 1..])
    ensures b == FirstToken(b).text + Terminator(FirstToken(b).ending) + b[FirstLf(b) + 1..]
    ensures TokenOk(FirstToken(b), false)
  {
    hide FirstLf, FirstToken, TokenOk;
    FirstTokenText(b);
    FirstTokenOk(b);
  }

  lemma FirstTokenText(b: seq<byte>)
    requires FirstLf(b) < |b|
    ensures b == FirstToken(b).text + Terminator(FirstToken(b).ending) + b[FirstLf(b) + 1..]
  {
    hide FirstLf;
    var k := FirstLf(b);
    if k > 0 && b[k - 1] == CR {
      assert FirstToken(b) == Token(b[..k - 1], CrLf) && Terminator(CrLf) == [CR, LF];
      hide FirstToken, Terminator;
      CrLfSplit(b, k);
    } else {
      assert FirstToken(b) == Token(b[..k], Lf) && Terminator(Lf) == [LF];
      hide FirstToken, Terminator;
      LfSplit(b, k);
    }
  }

  lemma LfSplit(b: seq<byte>, k: nat)
    requires k < |b| && b[k] == LF
    ensures b == b[..k] + [LF] + b[k + 1..]
  {
  }

  lemma FirstTokenOk(b: seq<byte>)
    requires FirstLf(b) < |b|
    ensures TokenOk(FirstToken(b), false)
  {
    hide FirstLf;
    var k := FirstLf(b);
    assert forall i | 0 <= i < k :: b[..k][i] == b[i];
    if k > 0 {
      assert forall i | 0 <= i < k - 1 :: b[..k - 1][i] == b[i];
    }
  }

  lemma CrLfSplit(b: seq<byte>, k: nat)
    requires 0 < k < |b| && b[k - 1] == CR && b[k] == LF
    ensures b == b[..k - 1] + [CR, LF] + b[k + 1..]
  {
  }

  /** Splitting loses nothing. */
  lemma {:induction false} TokensLossless(b: seq<byte>)
    ensures Join(Tokens(b)) == b
    decreases |b|
  {
    if b != [] {
      var k := FirstLf(b);
      if k < |b| {
        TokensStep(b);
        TokensLossless(b[k + 1..]);
        assert Tokens(b)[1..] == Tokens(b[k + 1..]);
      } else {
        assert Join([Token(b, NoEnding)]) == b + [] + Join([]);
      }
    }
  }

  /** Every token is one line, and only the last may lack a terminator. */
  lemma {:induction false} TokensOk(b: seq<byte>)
    ensures forall i | 0 <= i < |Tokens(b)| :: TokenOk(Tokens(b)[i], i == |Tokens(b)| - 1)
    ensures |Tokens(b)| <= |b|
    decreases |b|
  {
    if b != [] {
      var k := FirstLf(b);
      if k < |b| {
        TokensStep(b);
        TokensOk(b[k + 1..]);
        var rest := Tokens(b[k + 1..]);
        hide TokenOk, Tokens;
        forall i | 0 <= i < |Tokens(b)|
          ensures TokenOk(Tokens(b)[i], i == |Tokens(b)| - 1)
        {
          if i > 0 {
            assert Tokens(b)[i] == rest[i - 1];
          } else {
            LastToo(FirstToken(b), 0 == |Tokens(b)| - 1);
          }
        }
      }
    }
  }

  lemma LastToo(t: Token, last: bool)
    requires TokenOk(t, false)
    ensures TokenOk(t, last)
  {
  }

  lemma JoinInjective(a: seq<byte>, b: seq<byte>)
    requires Tokens(a) == Tokens(b)
    ensures a == b
  {
    TokensLossless(a);
    TokensLossless(b);
  }

  // ---- the fast line count --------------------------------------------------

  function CountLf(b: seq<byte>): nat {
    if b == [] then 0 else (if b[0] == LF then 1 else 0) + CountLf(b[1..])
  }

  function LogicalLineCount(body: seq<byte>): nat {
    if body == [] || body[|body| - 1] == LF then CountLf(body) else CountLf(body) + 1
  }

  lemma {:induction false} CountLfConcat(x: seq<byte>, y: seq<byte>)
    ensures CountLf(x + y) == CountLf(x) + CountLf(y)
  {
    if x == [] {
      assert x + y == y;
    } else {
      CountLfConcat(x[1..], y);
      assert (x + y)[1..] == x[1..] + y;
    }
  }

  lemma {:induction false} CountLfNone(b: seq<byte>)
    requires forall i | 0 <= i < |b| :: b[i] != LF
    ensures CountLf(b) == 0
  {
    if b != [] {
      CountLfNone(b[1..]);
    }
  }

  /** One line feed, at the end of the first line. */
  lemma CountFirstLine(b: seq<byte>)
    requires FirstLf(b) < |b|
    ensures CountLf(b) == 1 + CountLf(b[FirstLf(b) + 1..])
  {
    hide FirstLf;
    var k := FirstLf(b);
    var rest := b[k + 1..];
    CountLfNone(b[..k]);
    CountLfConcat(b[..k], [LF]);
    CountLfConcat(b[..k] + [LF], rest);
    LfSplit(b, k);
    assert CountLf([LF]) == 1 by {
      assert [LF][1..] == [];
    }
  }

  /** Counting terminators before splitting gives the number of tokens that splitting would make. */
  lemma {:induction false} FastCountIsRight(b: seq<byte>)
    ensures LogicalLineCount(b) == |Tokens(b)|
    decreases |b|
  {
    hide CountLf, FirstLf, Tokens, LogicalLineCount;
    var k := FirstLf(b);
    if k < |b| {
      FastCountIsRight(b[k + 1..]);
      OneLineMore(b);
    } else {
      OnlyLine(b);
    }
  }

  lemma OneLineMore(b: seq<byte>)
    requires FirstLf(b) < |b|
    ensures var rest := b[FirstLf(b) + 1..];
            LogicalLineCount(b) == 1 + LogicalLineCount(rest) && |Tokens(b)| == 1 + |Tokens(rest)|
  {
    hide CountLf, FirstLf, Tokens;
    var rest := b[FirstLf(b) + 1..];
    CountFirstLine(b);
    TokensStep(b);
    NoLines();
    assert rest != [] ==> rest[|rest| - 1] == b[|b| - 1];
  }

  lemma OnlyLine(b: seq<byte>)
    requires FirstLf(b) == |b|
    ensures LogicalLineCount(b) == |Tokens(b)|
  {
    hide FirstLf, FirstToken, CountLf;
    CountLfNone(b);
  }

  lemma NoLines()
    ensures CountLf([]) == 0 && Tokens([]) == []
  {
  }

  // ---- splitting in one pass ------------------------------------------------

  /** The byte-order mark changes neither which line endings occur nor how the document ends. */
  lemma BodyEndings(source: seq<byte>)
    ensures LineEndingOf(Body(source)) == LineEndingOf(source)
  {
    var b := Body(source);
    var base := BaseOffset(source);
    assert base == 3 ==> source[0] == 0xEF && source[1] == 0xBB && source[2] == 0xBF;
    forall i | CrLfAt(source, i)
      ensures i >= base && CrLfAt(b, i - base)
    {
    }
    forall i | CrLfAt(b, i)
      ensures CrLfAt(source, i + base)
    {
    }
    forall i | LoneLfAt(source, i)
      ensures i >= base && LoneLfAt(b, i - base)
    {
    }
    forall i | LoneLfAt(b, i)
      ensures LoneLfAt(source, i + base)
    {
    }
  }

  lemma FirstLfAt(b: seq<byte>, start: nat, index: nat)
    requires start <= index < |b| && b[index] == LF && forall i | start <= i < index :: b[i] != LF
    ensures FirstLf(b[start..]) == index - start
  {
    var rest := b[start..];
    assert forall i | 0 <= i < |rest| :: rest[i] == b[start + i];
  }

  /** What the loop pushes when it meets the line feed that ends a line. */
  lemma PushedToken(b: seq<byte>, start: nat, index: nat)
    requires start <= index < |b| && b[index] == LF && forall i | start <= i < index :: b[i] != LF
    ensures var crlf := index > start && b[index - 1] == CR;
            var end := if crlf then index - 1 else index;
            Tokens(b[start..]) == [Token(b[start..end], if crlf then CrLf else Lf)] + Tokens(b[index + 1..])
  {
    hide Tokens, FirstLf, TokenOk, FirstToken;
    var rest := b[start..];
    var k := index - start;
    FirstLfAt(b, start, index);
    TokensStep(rest);
    assert rest[k + 1..] == b[index + 1..];
    TokenAt(b, start, index);
  }

  lemma TokenAt(b: seq<byte>, start: nat, index: nat)
    requires start <= index < |b| && FirstLf(b[start..]) == index - start
    ensures var crlf := index > start && b[index - 1] == CR;
            FirstToken(b[start..]) == Token(b[start..if crlf then index - 1 else index], if crlf then CrLf else Lf)
  {
    hide FirstLf;
    var rest, k := b[start..], index - start;
    assert k > 0 ==> rest[k - 1] == b[index - 1];
    assert rest[..k] == b[start..index];
    assert k > 0 ==> rest[..k - 1] == b[start..index - 1];
  }

  lemma LastToken(b: seq<byte>, start: nat)
    requires start < |b| && forall i | start <= i < |b| :: b[i] != LF
    ensures Tokens(b[start..]) == [Token(b[start..], NoEnding)]
  {
    var rest := b[start..];
    assert forall i | 0 <= i < |rest| :: rest[i] == b[start + i];
    assert FirstLf(rest) == |rest|;
  }

  /** Cutting a valid text right before an ASCII byte gives two valid texts. */
  lemma {:induction false} CutBeforeAscii(s: string, k: nat)
    requires k < |Utf8.Encode(s)| && Utf8.Encode(s)[k] < 0x80
    ensures Utf8.Valid(Utf8.Encode(s)[..k]) && Utf8.Valid(Utf8.Encode(s)[k..])
  {
    hide Utf8.EncodeChar, Utf8.Valid;
    var c := Utf8.EncodeChar(s[0]);
    var rest := Utf8.Encode(s[1..]);
    OneIsValid(s[0]);
    WholeIsValid(s);
    if k == 0 {
      assert Utf8.Encode(s)[..k] == [] && Utf8.Encode(s)[k..] == Utf8.Encode(s);
      WholeIsValid([]);
    } else {
      Utf8.EncodeAscii(s[0]);
      assert k >= |c|;
      CutBeforeAscii(s[1..], k - |c|);
      CutLater(c, rest, k);
      Utf8.ValidConcat(c, rest[..k - |c|]);
    }
  }

  lemma CutLater(c: seq<byte>, rest: seq<byte>, k: nat)
    requires |c| <= k <= |c + rest|
    ensures (c + rest)[..k] == c + rest[..k - |c|] && (c + rest)[k..] == rest[k - |c|..]
  {
  }

  lemma WholeIsValid(s: string)
    ensures Utf8.Valid(Utf8.Encode(s))
  {
    Utf8.DecodeOfEncode(s);
  }

  lemma OneIsValid(c: char)
    ensures Utf8.Valid(Utf8.EncodeChar(c))
  {
    WholeIsValid([c]);
    assert [c][1..] == [] && Utf8.EncodeChar(c) + [] == Utf8.EncodeChar(c);
  }

  lemma SliceValid(b: seq<byte>, i: nat, j: nat)
    requires Utf8.Valid(b) && i <= j <= |b|
    requires i < |b| ==> b[i] < 0x80 || i == 0 || b[i - 1] < 0x80
    requires j < |b| ==> b[j] < 0x80
    ensures Utf8.Valid(b[i..j])
  {
    Utf8.EncodeOfDecode(b);
    if j < |b| {
      CutBeforeAscii(Utf8.Decode(b).value, j);
    } else {
      assert b[..j] == b;
    }
    var head := b[..j];
    Utf8.EncodeOfDecode(head);
    assert head[i..] == b[i..j];
    if i == 0 {
      assert head[i..] == head;
    } else if i == j {
      assert head[i..] == [];
    } else if b[i] < 0x80 {
      CutBeforeAscii(Utf8.Decode(head).value, i);
    } else {
      CutBeforeAscii(Utf8.Decode(head).value, i - 1);
      var tail := head[i - 1..];
      assert Utf8.Width(tail) == 1;
      assert tail[1..] == head[i..];
    }
  }

  lemma LineValid(b: seq<byte>, start: nat, index: nat)
    requires Utf8.Valid(b) && start <= index < |b| && b[index] == LF
    requires start == 0 || b[start - 1] == LF
    ensures Utf8.Valid(b[start..index])
    ensures index > start && b[index - 1] == CR ==> Utf8.Valid(b[start..index - 1])
  {
    hide Utf8.Valid;
    SliceValid(b, start, index);
    if index > start && b[index - 1] == CR {
      SliceValid(b, start, index - 1);
    }
  }

  lemma NoTokens(b: seq<byte>, start: nat)
    requires start <= |b|
    ensures start == |b| ==> Tokens(b[start..]) == []
  {
  }

  /** The lines before `start` have been split off. */
  predicate SplitAt(body: seq<byte>, lines: seq<Token>, start: nat) {
    && start <= |body| && (0 < start ==> body[start - 1] == LF)
    && lines + Tokens(body[start..]) == Tokens(body)
  }

  lemma SplitNone(body: seq<byte>)
    ensures SplitAt(body, [], 0)
  {
    hide Tokens;
    assert body[0..] == body && [] + Tokens(body) == Tokens(body);
  }

  /** What the loop pushes splits off one more line, and is valid. */
  lemma PushLine(body: seq<byte>, lines: seq<Token>, start: nat, index: nat)
    requires Utf8.Valid(body) && SplitAt(body, lines, start)
    requires start <= index < |body| && body[index] == LF && forall i | start <= i < index :: body[i] != LF
    ensures var crlf := index > start && body[index - 1] == CR;
            var end := if crlf then index - 1 else index;
            && Utf8.Valid(body[start..end])
            && SplitAt(body, lines + [Token(body[start..end], if crlf then CrLf else Lf)], index + 1)
  {
    hide Utf8.Valid, Tokens;
    LineValid(body, start, index);
    PushedToken(body, start, index);
    var crlf := index > start && body[index - 1] == CR;
    var token := Token(body[start..if crlf then index - 1 else index], if crlf then CrLf else Lf);
    assert lines + ([token] + Tokens(body[index + 1..])) == (lines + [token]) + Tokens(body[index + 1..]);
  }

  lemma PushLast(body: seq<byte>, lines: seq<Token>, start: nat)
    requires Utf8.Valid(body) && SplitAt(body, lines, start) && forall i | start <= i < |body| :: body[i] != LF
    ensures if start < |body| then Utf8.Valid(body[start..]) && lines + [Token(body[start..], NoEnding)] == Tokens(body)
            else lines == Tokens(body)
  {
    hide Utf8.Valid, Tokens;
    if start < |body| {
      LastToken(body, start);
      SliceValid(body, start, |body|);
      assert body[start..|body|] == body[start..];
    } else {
      NoTokens(body, start);
      assert lines + [] == lines;
    }
  }

  method ParseSource(source: seq<byte>) returns (r: Result<ParsedSource, DiffError>)
    ensures r == if Utf8.Valid(Body(source))
                 then Ok(ParsedSource(Tokens(Body(source)), HasBom(source), LineEndingOf(source),
                                      TrailingNewline(source)))
                 else Err(InvalidUtf8)
  {
    hide Utf8.Valid, Tokens, HasBom, LineEndingOf, CrLfBefore, LoneLfBefore, Body, TrailingNewline, SplitAt;
    var body := Body(source);
    if !Utf8.Valid(body) {
      return Err(InvalidUtf8);
    }
    NothingBefore(body);
    SplitNone(body);
    var lines: seq<Token> := [];
    var start, lf, crlf := 0, 0, 0;
    for index := 0 to |body|
      invariant 0 <= start <= index
      invariant forall i | start <= i < index :: body[i] != LF
      invariant 0 < start ==> body[start - 1] == LF
      invariant SplitAt(body, lines, start)
      invariant 0 <= lf && 0 <= crlf
      invariant lf > 0 <==> LoneLfBefore(body, index)
      invariant crlf > 0 <==> CrLfBefore(body, index)
    {
      EndingsStep(body, index);
      if body[index] != LF {
        continue;
      }
      PushLine(body, lines, start, index);
      if index > start && body[index - 1] == CR {
        crlf := crlf + 1;
        // The code checks each text again; the check cannot fail.
        assert Utf8.Valid(body[start..index - 1]);
        lines := lines + [Token(body[start..index - 1], CrLf)];
      } else {
        lf := lf + 1;
        assert Utf8.Valid(body[start..index]);
        lines := lines + [Token(body[start..index], Lf)];
      }
      start := index + 1;
    }
    PushLast(body, lines, start);
    if start < |body| {
      assert Utf8.Valid(body[start..]);
      lines := lines + [Token(body[start..], NoEnding)];
    }
    var ending;
    if lf == 0 && crlf == 0 {
      ending := NoEnding;
    } else if lf == 0 {
      ending := CrLf;
    } else if crlf == 0 {
      ending := Lf;
    } else {
      ending := Mixed;
    }
    BodyEndings(source);
    EndingByCounts(body, lf, crlf);
    assert lines == Tokens(body);
    return Ok(ParsedSource(lines, HasBom(source), ending, TrailingNewline(source)));
  }
}
