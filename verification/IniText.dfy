/** The text layer of the INI-like targets (`common.rs`): trimming, splitting into lines, and what a
    single line is, with the proof that replacing a value never turns the line into something else. */
module IniText {
  // ---- trimming -------------------------------------------------------------

  /** The Unicode White_Space property, which `str::trim` uses. */
  predicate IsSpace(c: char) {
    var n := c as int;
    0x09 <= n <= 0x0D || n == 0x20 || n == 0x85 || n == 0xA0 || n == 0x1680 || 0x2000 <= n <= 0x200A
    || n == 0x2028 || n == 0x2029 || n == 0x202F || n == 0x205F || n == 0x3000
  }

  function TrimStart(s: string): (r: string)
    ensures |r| <= |s|
  {
    if s != [] && IsSpace(s[0]) then TrimStart(s[1..]) else s
  }

  function TrimEnd(s: string): (r: string)
    ensures |r| <= |s|
  {
    if s != [] && IsSpace(s[|s| - 1]) then TrimEnd(s[..|s| - 1]) else s
  }

  function Trim(s: string): string {
    TrimEnd(TrimStart(s))
  }

  predicate AllSpace(s: string) {
    forall i | 0 <= i < |s| :: IsSpace(s[i])
  }

  /** `s` starts and ends with something other than white space. */
  predicate Trimmed(s: string) {
    s != [] && !IsSpace(s[0]) && !IsSpace(s[|s| - 1])
  }

  lemma {:induction false} TrimStartSkips(a: string, s: string)
    requires AllSpace(a)
    ensures TrimStart(a + s) == TrimStart(s)
  {
    hide IsSpace;
    if a == [] {
      assert a + s == s;
    } else {
      assert (a + s)[0] == a[0] && (a + s)[1..] == a[1..] + s;
      TrimStartSkips(a[1..], s);
    }
  }

  lemma {:induction false} TrimEndSkips(s: string, z: string)
    requires AllSpace(z)
    ensures TrimEnd(s + z) == TrimEnd(s)
  {
    hide IsSpace;
    if z == [] {
      assert s + z == s;
    } else {
      var y := z[..|z| - 1];
      assert (s + z)[|s + z| - 1] == z[|z| - 1] && (s + z)[..|s + z| - 1] == s + y;
      TrimEndSkips(s, y);
    }
  }

  lemma FrontSplit(s: string, n: nat)
    requires n < |s|
    ensures s[..|s| - n] == [s[0]] + s[1..][..|s[1..]| - n] && s == [s[0]] + s[1..]
  {
  }

  lemma SpaceCons(c: char, a: string)
    requires IsSpace(c) && AllSpace(a)
    ensures AllSpace([c] + a)
  {
    hide IsSpace;
  }

  /** What is trimmed off the front is white space, and what is left starts with something else. */
  lemma {:induction false} TrimStartParts(s: string)
    ensures var a := s[..|s| - |TrimStart(s)|];
            AllSpace(a) && s == a + TrimStart(s)
    ensures TrimStart(s) != [] ==> !IsSpace(TrimStart(s)[0])
  {
    hide IsSpace;
    if s != [] && IsSpace(s[0]) {
      hide AllSpace;
      TrimStartParts(s[1..]);
      var rest := TrimStart(s[1..]);
      var a := s[1..][..|s[1..]| - |rest|];
      FrontSplit(s, |rest|);
      SpaceCons(s[0], a);
      assert s == [s[0]] + (a + rest);
    } else {
      assert s == [] + s;
    }
  }

  lemma BackSplit(s: string, n: nat)
    requires n < |s|
    ensures s[n..] == s[..|s| - 1][n..] + [s[|s| - 1]] && s == s[..|s| - 1] + [s[|s| - 1]]
  {
  }

  lemma SpaceSnoc(z: string, c: char)
    requires IsSpace(c) && AllSpace(z)
    ensures AllSpace(z + [c])
  {
    hide IsSpace;
  }

  lemma {:induction false} TrimEndParts(s: string)
    ensures var z := s[|TrimEnd(s)|..];
            AllSpace(z) && s == TrimEnd(s) + z
    ensures TrimEnd(s) != [] ==> !IsSpace(TrimEnd(s)[|TrimEnd(s)| - 1])
  {
    hide IsSpace;
    if s != [] && IsSpace(s[|s| - 1]) {
      hide AllSpace;
      var y := s[..|s| - 1];
      TrimEndParts(y);
      var front := TrimEnd(y);
      var z := y[|front|..];
      BackSplit(s, |front|);
      SpaceSnoc(z, s[|s| - 1]);
      assert s == front + (z + [s[|s| - 1]]);
    } else {
      assert s == s + [];
    }
  }

  lemma TrimOfParts(a: string, m: string, z: string)
    requires AllSpace(a) && AllSpace(z) && Trimmed(m)
    ensures TrimStart(a + m + z) == m + z && TrimEnd(m + z) == m && TrimStart(m) == m && TrimEnd(m) == m
  {
    hide IsSpace;
    assert a + m + z == a + (m + z);
    TrimStartSkips(a, m + z);
    TrimEndSkips(m, z);
  }

  lemma TrimAllSpace(a: string)
    requires AllSpace(a)
    ensures TrimStart(a) == [] && TrimEnd(a) == []
  {
    assert a + [] == a && [] + a == a;
    TrimStartSkips(a, []);
    TrimEndSkips([], a);
  }

  /** Trimming the end keeps a first character that is not white space. */
  lemma TrimEndKeepsFirst(t: string)
    requires t != [] && !IsSpace(t[0])
    ensures TrimEnd(t) != [] && TrimEnd(t)[0] == t[0]
  {
    hide IsSpace, TrimEnd;
    TrimEndParts(t);
    assert t[|TrimEnd(t)|..] != t;
  }

  /** Any text is white space, or a trimmed text between white space. */
  lemma TrimParts(s: string) returns (a: string, z: string)
    ensures AllSpace(a) && AllSpace(z)
    ensures s == a + Trim(s) + z
    ensures Trim(s) == [] ==> AllSpace(s) && TrimStart(s) == []
    ensures Trim(s) != [] ==> Trimmed(Trim(s)) && a == s[..|s| - |TrimStart(s)|]
  {
    hide IsSpace, TrimStart, TrimEnd;
    var t := TrimStart(s);
    a := s[..|s| - |t|];
    z := t[|Trim(s)|..];
    TrimStartParts(s);
    TrimEndParts(t);
    if t != [] {
      TrimEndKeepsFirst(t);
    }
    assert s == a + (Trim(s) + z);
  }

  lemma TrimIsTrimmed(s: string)
    ensures Trim(s) == [] || Trimmed(Trim(s))
    ensures Trimmed(s) ==> Trim(s) == s
  {
    var a, z := TrimParts(s);
    if Trimmed(s) {
      assert [] + s + [] == s && s + [] == s;
      TrimOfParts([], s, []);
    }
  }

  // ---- lines ----------------------------------------------------------------

  /** The length of the first line with its line feed. */
  function LineLength(text: string): (k: nat)
    requires text != []
    ensures 1 <= k <= |text|
    ensures k < |text| ==> text[k - 1] == '\n'
    ensures forall i | 0 <= i < k - 1 :: text[i] != '\n'
  {
    if text[0] == '\n' || |text| == 1 then 1 else 1 + LineLength(text[1..])
  }

  /** Every line keeps its line feed; an empty text has no lines. */
  function Lines(text: string): seq<string> {
    if text == [] then [] else [text[..LineLength(text)]] + Lines(text[LineLength(text)..])
  }

  function Concat(lines: seq<string>): string {
    if lines == [] then [] else lines[0] + Concat(lines[1..])
  }

  predicate IsLine(line: string, last: bool) {
    && line != []
    && (forall i | 0 <= i < |line| - 1 :: line[i] != '\n')
    && (last || line[|line| - 1] == '\n')
  }

  predicate AreLines(lines: seq<string>) {
    forall i | 0 <= i < |lines| :: IsLine(lines[i], i == |lines| - 1)
  }

  lemma {:induction false} LinesLossless(text: string)
    ensures Concat(Lines(text)) == text
  {
    hide LineLength;
    if text != [] {
      var k := LineLength(text);
      LinesLossless(text[k..]);
      assert Lines(text)[1..] == Lines(text[k..]);
      assert text == text[..k] + text[k..];
    }
  }

  lemma {:induction false} LinesAreLines(text: string)
    ensures AreLines(Lines(text))
  {
    if text != [] {
      var k := LineLength(text);
      LinesAreLines(text[k..]);
      var lines, rest := Lines(text), Lines(text[k..]);
      forall i | 0 <= i < |lines|
        ensures IsLine(lines[i], i == |lines| - 1)
      {
        if i > 0 {
          assert lines[i] == rest[i - 1];
        } else if rest != [] {
          assert k < |text|;
        }
      }
    }
  }

  lemma LineLengthOf(line: string, rest: string)
    requires IsLine(line, rest == [])
    ensures LineLength(line + rest) == |line|
  {
    hide LineLength;
    var text := line + rest;
    var k := LineLength(text);
    assert forall i | 0 <= i < |line| :: text[i] == line[i];
    assert text[|line| - 1] == line[|line| - 1];
    assert text[k - 1] == '\n' || k == |text|;
  }

  lemma {:induction false} ConcatEmpty(lines: seq<string>)
    requires AreLines(lines)
    ensures Concat(lines) == [] <==> lines == []
  {
    if lines != [] {
      assert IsLine(lines[0], 0 == |lines| - 1);
    }
  }

  /** There is only one way to cut a text into lines. */
  lemma {:induction false} LinesUnique(lines: seq<string>)
    requires AreLines(lines)
    ensures Lines(Concat(lines)) == lines
  {
    hide IsLine, LineLength;
    if lines != [] {
      var rest := lines[1..];
      RestAreLines(lines);
      LineNotEmpty(lines[0], 0 == |lines| - 1);
      ConcatEmpty(rest);
      LineLengthOf(lines[0], Concat(rest));
      LinesUnique(rest);
      FirstLine(lines[0], Concat(rest));
      assert lines == [lines[0]] + rest;
    }
  }

  lemma RestAreLines(lines: seq<string>)
    requires AreLines(lines) && lines != []
    ensures IsLine(lines[0], 0 == |lines| - 1) && AreLines(lines[1..])
  {
    hide IsLine;
    var rest := lines[1..];
    forall i | 0 <= i < |rest|
      ensures IsLine(rest[i], i == |rest| - 1)
    {
      assert rest[i] == lines[i + 1];
    }
  }

  lemma FirstLine(line: string, rest: string)
    requires line != [] && LineLength(line + rest) == |line|
    ensures Lines(line + rest) == [line] + Lines(rest)
  {
    hide LineLength;
    var text := line + rest;
    assert text[..|line|] == line && text[|line|..] == rest;
  }

  lemma LineNotEmpty(line: string, last: bool)
    requires IsLine(line, last)
    ensures line != []
  {
  }

  /** The line without its line feed and then without one carriage return. */
  function StripLf(line: string): string {
    if line != [] && line[|line| - 1] == '\n' then line[..|line| - 1] else line
  }

  function StripCr(line: string): string {
    if line != [] && line[|line| - 1] == '\r' then line[..|line| - 1] else line
  }

  function Content(line: string): (c: string)
    ensures |c| <= |line| && c == line[..|c|]
  {
    StripCr(StripLf(line))
  }

  // ---- what a line is -------------------------------------------------------

  /** An assignment's value starts at index `at` of the content. */
  datatype LineKind = Ignored | Header(name: string) | Assignment(key: string, at: nat, value: string)

  function Find(s: string, c: char): (k: nat)
    ensures k <= |s|
    ensures k < |s| ==> s[k] == c
    ensures forall i | 0 <= i < k :: s[i] != c
  {
    if s == [] || s[0] == c then 0 else 1 + Find(s[1..], c)
  }

  predicate IsSafeKeyChar(c: char) {
    'a' <= c <= 'z' || 'A' <= c <= 'Z' || '0' <= c <= '9' || c == '_' || c == '-' || c == '.'
  }

  predicate IsSafeKey(key: string) {
    key != [] && forall i | 0 <= i < |key| :: IsSafeKeyChar(key[i])
  }

  predicate IsComment(trimmed: string) {
    trimmed == [] || trimmed[0] == '#' || trimmed[0] == ';' || "//" <= trimmed
  }

  predicate IsHeader(trimmed: string) {
    trimmed != [] && trimmed[0] == '[' && trimmed[|trimmed| - 1] == ']'
  }

  function ValueStart(content: string, equal: nat): (at: nat)
    requires equal < |content|
    ensures equal < at <= |content|
  {
    var after := content[equal + 1..];
    equal + 1 + |after| - |TrimStart(after)|
  }

  function Classify(content: string): (k: LineKind)
    ensures k.Assignment? ==> k.at + |k.value| <= |content|
  {
    var trimmed := Trim(content);
    if IsComment(trimmed) then Ignored
    else if IsHeader(trimmed) then Header(Trim(trimmed[1..|trimmed| - 1]))
    else
      var equal := Find(content, '=');
      if equal == |content| || !IsSafeKey(Trim(content[..equal])) then Ignored
      else
        var at := ValueStart(content, equal);
        Assignment(Trim(content[..equal]), at, TrimEnd(content[at..]))
  }

  /** A safe key before the first equals sign already decides that the line is an assignment. */
  lemma AssignmentByKey(content: string)
    requires var equal := Find(content, '='); equal < |content| && IsSafeKey(Trim(content[..equal]))
    ensures var equal := Find(content, '=');
            var at := ValueStart(content, equal);
            Classify(content) == Assignment(Trim(content[..equal]), at, TrimEnd(content[at..]))
  {
    hide Find, ValueStart, Trim, TrimEnd, IsComment, IsHeader;
    var equal := Find(content, '=');
    FirstOfTrim(content[..equal], content[equal..]);
    assert content == content[..equal] + content[equal..];
    NeitherCommentNorHeader(Trim(content), Trim(content[..equal]));
  }

  lemma NeitherCommentNorHeader(trimmed: string, key: string)
    requires IsSafeKey(key) && trimmed != [] && trimmed[0] == key[0]
    ensures !IsComment(trimmed) && !IsHeader(trimmed)
  {
    assert IsSafeKeyChar(key[0]);
    assert "//"[0] == '/';
  }

  /** Text after a part that is not all white space does not change the first character of the whole. */
  lemma FirstOfTrim(x: string, y: string)
    requires Trim(x) != []
    ensures Trim(x + y) != [] && Trim(x + y)[0] == Trim(x)[0]
  {
    hide IsSpace;
    var a, z := TrimParts(x);
    var m := Trim(x);
    var rest := m + (z + y);
    assert x + y == a + rest;
    TrimStartSkips(a, rest);
    assert rest[0] == m[0];
    TrimEndParts(rest);
    var t := TrimEnd(rest);
    assert t != [] by {
      assert !IsSpace(rest[0]);
    }
    assert rest[0] == t[0];
  }

  /** White space after the equals sign, the value, white space. */
  lemma AssignmentParts(content: string)
    requires Classify(content).Assignment?
    ensures var k := Classify(content);
            var equal := Find(content, '=');
            && equal < k.at <= k.at + |k.value| <= |content|
            && k.key == Trim(content[..equal]) && IsSafeKey(k.key)
            && AllSpace(content[equal + 1..k.at])
            && content[k.at..k.at + |k.value|] == k.value
            && AllSpace(content[k.at + |k.value|..])
            && (k.value == [] || Trimmed(k.value))
            && (k.value == [] ==> k.at == |content|)
  {
    hide Find, IsSpace, IsSafeKey, IsComment, IsHeader, TrimStart, TrimEnd, ValueStart;
    ValueParts(content, Find(content, '='));
  }

  lemma ValueParts(content: string, equal: nat)
    requires equal < |content|
    ensures var at := ValueStart(content, equal);
            var value := TrimEnd(content[at..]);
            && AllSpace(content[equal + 1..at])
            && content[at..at + |value|] == value
            && AllSpace(content[at + |value|..])
            && (value == [] || Trimmed(value))
            && (value == [] ==> at == |content|)
  {
    hide IsSpace, TrimStart, TrimEnd;
    var after := content[equal + 1..];
    var at := ValueStart(content, equal);
    var value := TrimEnd(content[at..]);
    TrimStartParts(after);
    assert content[equal + 1..at] == after[..|after| - |TrimStart(after)|];
    assert content[at..] == TrimStart(after);
    TrimEndParts(content[at..]);
    assert content[at..][..|value|] == value && content[at..][|value|..] == content[at + |value|..];
    assert value == [] ==> content[at + |value|..] == content[at..];
  }

  // ---- replacing a value ----------------------------------------------------

  /** A replacement that the edit accepts: not empty and on one line. */
  predicate SafeReplacement(r: string) {
    r != [] && '\r' !in r && '\n' !in r
  }

  function Replaced(s: string, k: LineKind, r: string): string
    requires k.Assignment? && k.at + |k.value| <= |s|
  {
    s[..k.at] + r + s[k.at + |k.value|..]
  }

  lemma {:induction false} FindAfter(x: string, y: string, c: char)
    requires Find(x, c) < |x|
    ensures Find(x + y, c) == Find(x, c)
  {
    if x[0] != c {
      assert (x + y)[0] == x[0] && (x + y)[1..] == x[1..] + y;
      FindAfter(x[1..], y, c);
    }
  }

  lemma {:induction false} FindPrefix(s: string, n: nat, c: char)
    requires Find(s, c) < n <= |s|
    ensures Find(s[..n], c) == Find(s, c)
  {
    if s[0] != c {
      assert s[..n][0] == s[0] && s[..n][1..] == s[1..][..n - 1];
      FindPrefix(s[1..], n - 1, c);
    }
  }

  lemma SpliceParts(s: string, equal: nat, k: LineKind, r: string)
    requires k.Assignment? && equal < k.at && k.at + |k.value| <= |s|
    ensures var t := Replaced(s, k, r);
            && t == s[..k.at] + (r + s[k.at + |k.value|..])
            && t[..equal] == s[..equal]
            && t[equal + 1..] == s[equal + 1..k.at] + (r + s[k.at + |k.value|..])
  {
  }

  /** The value that the replaced line has, and where it starts. */
  lemma ValueAfter(space: string, r: string, tail: string)
    requires AllSpace(space) && AllSpace(tail)
    ensures var after := space + (r + tail);
            var value := TrimStart(after);
            && TrimEnd(value) == Trim(r)
            && (Trim(r) != [] ==> |after| - |value| == |space| + (|r| - |TrimStart(r)|))
            && (Trim(r) == [] ==> value == [])
  {
    hide IsSpace, TrimStart, TrimEnd;
    var after := space + (r + tail);
    TrimStartSkips(space, r + tail);
    var a, z := TrimParts(r);
    if Trim(r) == [] {
      assert AllSpace(r + tail) by {
        SpaceConcat(r, tail);
      }
      TrimAllSpace(r + tail);
      TrimAllSpace([]);
    } else {
      var m := Trim(r);
      assert r + tail == a + m + (z + tail);
      SpaceConcat(z, tail);
      TrimOfParts(a, m, z + tail);
    }
  }

  lemma SpaceConcat(a: string, b: string)
    requires AllSpace(a) && AllSpace(b)
    ensures AllSpace(a + b)
  {
    hide IsSpace;
  }

  /** THE CONTEXT LEMMA. Whatever text replaces the value, the content is an assignment to the same
      key, and its value is the trimmed replacement. */
  lemma ReplacedContent(content: string, r: string)
    requires Classify(content).Assignment?
    ensures var k := Classify(content);
            var k' := Classify(Replaced(content, k, r));
            && k'.Assignment? && k'.key == k.key && k'.value == Trim(r)
            && (Trim(r) != [] ==> k'.at == k.at + (|r| - |TrimStart(r)|))
  {
    hide Classify, IsSpace, IsSafeKey, Trim, TrimStart, TrimEnd, Find;
    var k := Classify(content);
    var equal := Find(content, '=');
    AssignmentParts(content);
    var tail := content[k.at + |k.value|..];
    var space := content[equal + 1..k.at];
    var t := Replaced(content, k, r);
    SpliceParts(content, equal, k, r);
    FindPrefix(content, k.at, '=');
    FindAfter(content[..k.at], r + tail, '=');
    AssignmentByKey(t);
    ValueAfter(space, r, tail);
    var at := ValueStart(t, equal);
    assert t[at..] == TrimStart(t[equal + 1..]) by {
      TrimStartParts(t[equal + 1..]);
      assert t[equal + 1..][at - (equal + 1)..] == t[at..];
    }
  }

  /** The terminator stays where it was. */
  lemma ReplacedLine(line: string, last: bool, r: string)
    requires IsLine(line, last) && Classify(Content(line)).Assignment? && SafeReplacement(r)
    ensures var k := Classify(Content(line));
            var t := Replaced(line, k, r);
            IsLine(t, last) && Content(t) == Replaced(Content(line), k, r)
  {
    hide Classify, Content, IsLine, SafeReplacement;
    var content := Content(line);
    var k := Classify(content);
    var end := k.at + |k.value|;
    ReplacedIsLine(line, last, k.at, end, r);
    ReplacedStripped(line, k.at, end, r);
  }

  lemma ReplacedIsLine(line: string, last: bool, at: nat, end: nat, r: string)
    requires at <= end <= |Content(line)| && IsLine(line, last) && SafeReplacement(r)
    ensures IsLine(line[..at] + r + line[end..], last)
  {
    var t := line[..at] + r + line[end..];
    assert line != [];
    forall i | 0 <= i < |t| - 1
      ensures t[i] != '\n'
    {
      if i < at {
        assert t[i] == line[i];
      } else if i < at + |r| {
        assert t[i] == r[i - at];
      } else {
        assert t[i] == line[i - at - |r| + end];
      }
    }
    if !last {
      assert end < |line|;
      assert t[|t| - 1] == line[|line| - 1];
    }
  }

  lemma ReplacedStripped(line: string, at: nat, end: nat, r: string)
    requires at <= end <= |Content(line)| && SafeReplacement(r)
    ensures var c := Content(line); Content(line[..at] + r + line[end..]) == c[..at] + r + c[end..]
  {
    var c := Content(line);
    var eol := line[|c|..];
    var t := c[..at] + r + c[end..];
    assert line[..at] == c[..at];
    assert line == c + eol;
    assert line[..at] + r + line[end..] == t + eol;
    assert t[|t| - 1] == if end < |c| then c[|c| - 1] else r[|r| - 1];
    EolIs(line);
    ContentOf(t, eol);
  }

  predicate IsEol(eol: string) {
    eol == [] || eol == "\n" || eol == "\r" || eol == "\r\n"
  }

  /** Nothing more of the terminator could be stripped. */
  predicate EolTaken(c: string, eol: string) {
    && (eol == [] ==> c == [] || (c[|c| - 1] != '\r' && c[|c| - 1] != '\n'))
    && (eol == "\n" ==> c == [] || c[|c| - 1] != '\r')
  }

  lemma EolIs(line: string)
    ensures var c := Content(line); IsEol(line[|c|..]) && EolTaken(c, line[|c|..])
  {
    var c := Content(line);
    var eol := line[|c|..];
    if |eol| == 1 {
      assert eol == [eol[0]];
    } else if |eol| == 2 {
      assert eol == [eol[0], eol[1]];
    }
  }

  lemma ContentOf(c: string, eol: string)
    requires IsEol(eol) && EolTaken(c, eol)
    ensures Content(c + eol) == c
  {
    var line := c + eol;
    if eol == "\r\n" {
      assert line[..|line| - 1] == c + "\r";
      assert (c + "\r")[..|c|] == c;
    } else if eol == [] {
      assert line == c;
    } else {
      assert line[..|line| - 1] == c;
    }
  }
}
