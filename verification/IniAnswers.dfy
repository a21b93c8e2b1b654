/** Which INI values are edited, and what the other edits are answered (`common.rs`): what a line must look like to be
    a header or an assignment, which header a line is under, and every answer of an edit in these terms. */
module IniAnswers {
  import opened Wrappers
  import opened Utf8
  import opened Document
  import opened IniText
  import opened Ini
  import IniEdit
  import IniEdits
  import Path

  // ---- characters -----------------------------------------------------------

  const SPACES := "\t\n\U{B}\U{C}\r \U{85}\U{A0}\U{1680}\U{2000}\U{2001}\U{2002}\U{2003}\U{2004}\U{2005}\U{2006}" +
                  "\U{2007}\U{2008}\U{2009}\U{200A}\U{2028}\U{2029}\U{202F}\U{205F}\U{3000}"
  const UPPER := "ABCDEFGHIJKLMNOPQRSTUVWXYZ"
  const LOWER := "abcdefghijklmnopqrstuvwxyz"
  const DIGITS := "0123456789"

  predicate IsKeyChar(c: char) {
    c in UPPER || c in LOWER || c in DIGITS || c in "_-."
  }

  lemma SpaceMeans(c: char)
    ensures IsSpace(c) <==> c in SPACES
  {
  }

  lemma LetterAt(i: nat)
    requires i < 26
    ensures UPPER[i] as int == 'A' as int + i && LOWER[i] as int == 'a' as int + i
  {
  }

  lemma LetterMeans(c: char)
    ensures 'A' <= c <= 'Z' <==> c in UPPER
    ensures 'a' <= c <= 'z' <==> c in LOWER
  {
    hide UPPER, LOWER;
    LetterCount();
    forall i: nat | i < 26
      ensures UPPER[i] as int == 'A' as int + i && LOWER[i] as int == 'a' as int + i
    {
      LetterAt(i);
    }
    if 'A' <= c <= 'Z' {
      assert UPPER[c as int - 'A' as int] == c;
    } else if 'a' <= c <= 'z' {
      assert LOWER[c as int - 'a' as int] == c;
    }
  }

  lemma LetterCount()
    ensures |UPPER| == |LOWER| == 26
  {
  }

  lemma DigitMeans(c: char)
    ensures '0' <= c <= '9' <==> c in DIGITS
  {
  }

  lemma KeyCharMeans(c: char)
    ensures IsSafeKeyChar(c) <==> IsKeyChar(c)
  {
    hide UPPER, LOWER, DIGITS;
    LetterMeans(c);
    DigitMeans(c);
  }

  predicate IsLowerOf(c: char, d: char) {
    if c in UPPER then exists i | 0 <= i < |UPPER| && i < |LOWER| :: UPPER[i] == c && LOWER[i] == d else d == c
  }

  /** Equal but for the case of ASCII letters. */
  ghost predicate SameLetter(a: char, b: char) {
    exists d :: IsLowerOf(a, d) && IsLowerOf(b, d)
  }

  lemma LowerIs(c: char, d: char)
    ensures IsLowerOf(c, d) <==> d == Lower(c)
  {
    hide UPPER, LOWER;
    LetterMeans(c);
    LetterCount();
    forall i: nat | i < 26
      ensures UPPER[i] as int == 'A' as int + i && LOWER[i] as int == 'a' as int + i
    {
      LetterAt(i);
    }
  }

  lemma LowerMeans(a: char, b: char)
    ensures Lower(a) == Lower(b) <==> SameLetter(a, b)
  {
    hide Lower, IsLowerOf;
    LowerIs(a, Lower(a));
    LowerIs(b, Lower(a));
    if d :| IsLowerOf(a, d) && IsLowerOf(b, d) {
      LowerIs(a, d);
      LowerIs(b, d);
    }
  }

  // ---- lines ----------------------------------------------------------------

  /** White space, brackets around the name, white space. */
  ghost predicate ReadsHeader(content: string, name: string) {
    exists a, inner, z ::
      content == a + (("[" + inner + "]") + z) && AllSpace(a) && AllSpace(z) && name == Trim(inner)
  }

  predicate IsKey(key: string) {
    key != [] && forall i | 0 <= i < |key| :: IsKeyChar(key[i])
  }

  /** The key, an equals sign and the value, each with white space around it; `at` is where the value starts, behind
      all white space when there is none. */
  predicate AssignmentOf(content: string, a: string, key: string, b: string, c: string, value: string, z: string) {
    && content == (a + (key + b)) + ("=" + (c + (value + z)))
    && AllSpace(a) && AllSpace(b) && AllSpace(c) && AllSpace(z) && IsKey(key)
    && if value == [] then z == [] else Trimmed(value)
  }

  ghost predicate ReadsAssignment(content: string, key: string, at: nat, value: string) {
    exists a, b, c, z ::
      AssignmentOf(content, a, key, b, c, value, z) && at == |a| + |key| + |b| + 1 + |c|
  }

  lemma KeyMeans(key: string)
    ensures IsSafeKey(key) <==> IsKey(key)
    ensures IsKey(key) ==> Trimmed(key) && '=' !in key
  {
    hide IsKeyChar, IsSafeKeyChar, IsSpace;
    forall i | 0 <= i < |key|
      ensures IsSafeKeyChar(key[i]) <==> IsKeyChar(key[i])
      ensures IsSafeKeyChar(key[i]) ==> !IsSpace(key[i]) && key[i] != '='
    {
      KeyCharMeans(key[i]);
      SafeChar(key[i]);
    }
  }

  lemma SafeChar(c: char)
    ensures IsSafeKeyChar(c) ==> !IsSpace(c) && c != '='
  {
  }

  lemma HeaderMeans(content: string, name: string)
    ensures Classify(content) == Header(name) <==> ReadsHeader(content, name)
  {
    hide IsSpace, TrimStart, TrimEnd, Find, ValueStart, IsSafeKey, Trim, AllSpace;
    if Classify(content) == Header(name) {
      var a, z := TrimParts(content);
      var m := Trim(content);
      HeaderLength(m);
      var inner := m[1..|m| - 1];
      assert m == "[" + inner + "]";
      assert content == a + (m + z);
    }
    if a, inner, z :| content == a + (("[" + inner + "]") + z) && AllSpace(a) && AllSpace(z) && name == Trim(inner) {
      BracketsTrimmed(inner);
      var m := "[" + inner + "]";
      TrimOfParts(a, m, z);
      assert content == a + m + z;
      assert Trim(content) == m by {
        TrimTwice(content, m, z);
      }
      assert m[1..|m| - 1] == inner;
    }
  }

  lemma TrimTwice(s: string, m: string, z: string)
    requires TrimStart(s) == m + z && TrimEnd(m + z) == m
    ensures Trim(s) == m
  {
  }

  lemma BracketsTrimmed(inner: string)
    ensures var m := "[" + inner + "]"; Trimmed(m) && !IsComment(m) && IsHeader(m)
  {
    var m := "[" + inner + "]";
    assert m[0] == '[' && m[|m| - 1] == ']';
    assert "//"[0] == '/';
  }

  lemma AssignmentMeans(content: string, key: string, at: nat, value: string)
    ensures Classify(content) == Assignment(key, at, value) <==> ReadsAssignment(content, key, at, value)
  {
    hide Classify, AssignmentOf;
    if Classify(content) == Assignment(key, at, value) {
      AssignmentRead(content);
    }
    if a, b, c, z :| AssignmentOf(content, a, key, b, c, value, z) && at == |a| + |key| + |b| + 1 + |c| {
      AssignmentWritten(content, a, key, b, c, value, z);
    }
  }

  lemma AssignmentRead(content: string)
    requires Classify(content).Assignment?
    ensures var k := Classify(content); ReadsAssignment(content, k.key, k.at, k.value)
  {
    hide IsSpace, Classify, Find, Trim, TrimStart, AllSpace, IsKey;
    AssignmentParts(content);
    var k, equal := Classify(content), Find(content, '=');
    var a, b := TrimParts(content[..equal]);
    KeyMeans(k.key);
    var c, z := content[equal + 1..k.at], content[k.at + |k.value|..];
    assert content == content[..equal] + ("=" + (c + (k.value + z)));
    assert content[..equal] == a + (k.key + b);
    assert AssignmentOf(content, a, k.key, b, c, k.value, z);
  }

  lemma AssignmentWritten(content: string, a: string, key: string, b: string, c: string, value: string, z: string)
    requires AssignmentOf(content, a, key, b, c, value, z)
    ensures Classify(content) == Assignment(key, |a| + |key| + |b| + 1 + |c|, value)
  {
    hide IsSpace, Classify, Find, Trim, TrimStart, TrimEnd, AllSpace, IsKey, IsSafeKey;
    var before, after := a + (key + b), c + (value + z);
    var equal := |before|;
    KeyMeans(key);
    NoEquals(a);
    NoEquals(b);
    assert content[..equal] == before && content[equal] == '=' && content[equal + 1..] == after;
    TrimOfParts(a, key, b);
    assert before == a + key + b;
    TrimTwice(before, key, b);
    FoundAt(content, equal);
    AssignmentByKey(content);
    ValueOf(c, value, z);
    assert content[equal + 1 + |c|..] == after[|c|..] == value + z;
  }

  lemma NoEquals(s: string)
    requires AllSpace(s)
    ensures '=' !in s
  {
  }

  lemma FoundAt(content: string, equal: nat)
    requires equal < |content| && content[equal] == '=' && '=' !in content[..equal]
    ensures Find(content, '=') == equal
  {
    hide Find;
    assert forall i | 0 <= i < equal :: content[..equal][i] == content[i];
    var k := Find(content, '=');
  }

  lemma ValueOf(c: string, value: string, z: string)
    requires AllSpace(c) && AllSpace(z) && if value == [] then z == [] else Trimmed(value)
    ensures |c + (value + z)| - |TrimStart(c + (value + z))| == |c| && TrimEnd(value + z) == value
  {
    hide IsSpace, TrimStart, TrimEnd, AllSpace;
    TrimStartSkips(c, value + z);
    if value == [] {
      NothingIsSpace();
      TrimAllSpace([]);
    } else {
      NothingIsSpace();
      TrimOfParts([], value, z);
      assert [] + value + z == value + z;
    }
  }

  // ---- sections -------------------------------------------------------------

  ghost predicate SameName(a: string, b: string, caseSensitive: bool) {
    if caseSensitive then a == b else |a| == |b| && forall i | 0 <= i < |a| :: SameLetter(a[i], b[i])
  }

  /** `s` is the first of the editable sections that is called `name`. */
  ghost predicate Selects(options: Options, name: string, s: string) {
    exists i | 0 <= i < |options.editable| ::
      && options.editable[i] == s && SameName(s, name, options.caseSensitive)
      && forall j | 0 <= j < i :: !SameName(options.editable[j], name, options.caseSensitive)
  }

  lemma SameMeans(a: string, b: string)
    ensures EqIgnoreAsciiCase(a, b) <==> SameName(a, b, false)
  {
    hide Lower, SameLetter;
    if |a| == |b| {
      forall i | 0 <= i < |a|
        ensures Lower(a[i]) == Lower(b[i]) <==> SameLetter(a[i], b[i])
      {
        LowerMeans(a[i], b[i]);
      }
    }
  }

  lemma {:induction false} MatchMeans(editable: seq<string>, caseSensitive: bool, name: string, s: string)
    ensures FirstMatch(editable, caseSensitive, name) == Some(s)
       <==> Selects(Options(editable, caseSensitive), name, s)
  {
    hide EqIgnoreAsciiCase, SameName;
    if editable != [] {
      var rest := editable[1..];
      assert forall i | 0 <= i < |rest| :: rest[i] == editable[i + 1];
      MatchMeans(rest, caseSensitive, name, s);
      SameMeans(editable[0], name);
      assert SameName(editable[0], name, true) <==> editable[0] == name by {
        SameExactly(editable[0], name);
      }
      if i :| 0 <= i < |rest| && rest[i] == s && SameName(s, name, caseSensitive)
              && forall j | 0 <= j < i :: !SameName(rest[j], name, caseSensitive) {
        assert editable[i + 1] == s;
        assert forall j | 1 <= j < i + 1 :: editable[j] == rest[j - 1];
      }
    }
  }

  lemma SameExactly(a: string, b: string)
    ensures SameName(a, b, true) <==> a == b
  {
  }

  lemma NothingIsSpace()
    ensures AllSpace([])
  {
  }

  ghost predicate IsHeaderLine(content: string) {
    exists name :: ReadsHeader(content, name)
  }

  /** The last header before line `k` is called `name`. */
  ghost predicate Under(lines: seq<string>, k: nat, name: string)
    requires k <= |lines|
  {
    exists h | 0 <= h < k :: ReadsHeader(Content(lines[h]), name)
      && forall j | h < j < k :: !IsHeaderLine(Content(lines[j]))
  }

  /** Line `k` is in the editable section `s`. */
  ghost predicate InSection(lines: seq<string>, k: nat, options: Options, s: string)
    requires k <= |lines|
  {
    exists name :: Under(lines, k, name) && Selects(options, name, s)
  }

  lemma NameMeans(content: string)
    ensures Classify(content).Header? <==> IsHeaderLine(content)
    ensures Classify(content).Header? ==>
              ReadsHeader(content, Classify(content).name)
              && forall name | ReadsHeader(content, name) :: name == Classify(content).name
  {
    hide Classify, ReadsHeader;
    if Classify(content).Header? {
      HeaderMeans(content, Classify(content).name);
    }
    forall name | ReadsHeader(content, name)
      ensures Classify(content) == Header(name)
    {
      HeaderMeans(content, name);
    }
  }

  lemma {:induction false} SectionMeans(lines: seq<string>, k: nat, options: Options, s: string)
    requires k <= |lines|
    ensures SectionBefore(lines, k, options) == Some(s) <==> InSection(lines, k, options, s)
  {
    hide Classify, Content, ReadsHeader, Selects, IsHeaderLine;
    if k > 0 {
      var content := Content(lines[k - 1]);
      NameMeans(content);
      SectionMeans(lines, k - 1, options, s);
      if Classify(content).Header? {
        var name := Classify(content).name;
        MatchMeans(options.editable, options.caseSensitive, name, s);
        assert options == Options(options.editable, options.caseSensitive);
        assert Under(lines, k, name);
        UnderHeader(lines, k, name);
      } else {
        UnderOther(lines, k);
      }
    }
  }

  /** Right behind a header. */
  lemma UnderHeader(lines: seq<string>, k: nat, name: string)
    requires 0 < k <= |lines| && IsHeaderLine(Content(lines[k - 1]))
    requires var content := Content(lines[k - 1]); forall other | ReadsHeader(content, other) :: other == name
    ensures forall other | Under(lines, k, other) :: other == name
  {
    hide Content, ReadsHeader, IsHeaderLine;
  }

  /** Behind any other line. */
  lemma UnderOther(lines: seq<string>, k: nat)
    requires 0 < k <= |lines| && !IsHeaderLine(Content(lines[k - 1]))
    ensures forall name :: Under(lines, k, name) <==> Under(lines, k - 1, name)
  {
    hide Content, ReadsHeader;
    forall name
      ensures Under(lines, k, name) <==> Under(lines, k - 1, name)
    {
      if Under(lines, k, name) {
        var h: nat :| h < k && ReadsHeader(Content(lines[h]), name)
                      && forall j | h < j < k :: !IsHeaderLine(Content(lines[j]));
        assert h != k - 1;
      }
    }
  }

  // ---- fields ---------------------------------------------------------------

  /** Line `k` gives the key of the section a value. */
  ghost predicate Holds(lines: seq<string>, k: nat, options: Options, s: string, key: string)
    requires k < |lines|
  {
    InSection(lines, k, options, s) && exists at: nat, value :: ReadsAssignment(Content(lines[k]), key, at, value)
  }

  lemma HoldsMeans(lines: seq<string>, k: nat, base: nat, options: Options, s: string, key: string)
    requires k < |lines|
    ensures Holds(lines, k, options, s, key)
            <==> IsFieldLine(lines, k, options)
                 && FieldAt(lines, k, base, options).path == Path.FromSegments([s, key])
  {
    hide Classify, Content, InSection, ReadsAssignment, SectionBefore, Path.FromSegments, Encode;
    var kind := Classify(Content(lines[k]));
    SectionMeans(lines, k, options, s);
    if kind.Assignment? {
      AssignmentMeans(Content(lines[k]), kind.key, kind.at, kind.value);
      if SectionBefore(lines, k, options).Some? {
        SamePath([SectionBefore(lines, k, options).value, kind.key], [s, key]);
      }
    }
    if at: nat, value :| ReadsAssignment(Content(lines[k]), key, at, value) {
      AssignmentMeans(Content(lines[k]), key, at, value);
    }
  }

  lemma SamePath(a: seq<string>, b: seq<string>)
    ensures Path.FromSegments(a) == Path.FromSegments(b) <==> a == b
  {
    if Path.FromSegments(a) == Path.FromSegments(b) {
      Path.FromSegmentsInjective(a, b);
    }
  }

  lemma {:induction false} AllFieldLines(lines: seq<string>, n: nat, options: Options, k: nat)
    requires k < n <= |lines| && IsFieldLine(lines, k, options)
    ensures k in FieldLines(lines, n, options)
  {
    hide IsFieldLine;
    if k < n - 1 {
      AllFieldLines(lines, n - 1, options, k);
    }
  }

  lemma {:induction false} MatchCount(fields: seq<Field>, path: string)
    ensures |Matches(fields, path)| == 0 <==> forall i | 0 <= i < |fields| :: fields[i].path != path
    ensures |Matches(fields, path)| > 1
            <==> exists i, j | 0 <= i < j < |fields| :: fields[i].path == path == fields[j].path
  {
    if fields != [] {
      var rest := fields[1..];
      assert forall i | 0 <= i < |rest| :: rest[i] == fields[i + 1];
      MatchCount(rest, path);
      if i, j :| 0 <= i < j < |fields| && fields[i].path == path == fields[j].path {
        assert rest[j - 1].path == path;
        assert i > 0 ==> rest[i - 1].path == path;
      }
      if i, j :| 0 <= i < j < |rest| && rest[i].path == path == rest[j].path {
        assert fields[i + 1].path == path == fields[j + 1].path;
      }
      if i :| 0 <= i < |rest| && rest[i].path == path {
        assert fields[i + 1].path == path;
      }
    }
  }

  ghost predicate HeldTwice(lines: seq<string>, options: Options, s: string, key: string) {
    exists j, k | 0 <= j < k < |lines| :: Holds(lines, j, options, s, key) && Holds(lines, k, options, s, key)
  }

  /** How many fields have the path. */
  lemma FieldCount(lines: seq<string>, base: nat, options: Options, s: string, key: string)
    ensures var n := |Matches(FieldsBefore(lines, |lines|, base, options), Path.FromSegments([s, key]))|;
            && (n == 0 <==> forall k | 0 <= k < |lines| :: !Holds(lines, k, options, s, key))
            && (n > 1 <==> HeldTwice(lines, options, s, key))
  {
    hide FieldsBefore, FieldLines, FieldAt, IsFieldLine, Holds, Matches, Path.FromSegments;
    var ks, fields := FieldLines(lines, |lines|, options), FieldsBefore(lines, |lines|, base, options);
    var path := Path.FromSegments([s, key]);
    IniEdit.FieldsAreLines(lines, |lines|, base, options);
    MatchCount(fields, path);
    forall k: nat | k < |lines|
      ensures Holds(lines, k, options, s, key) ==> k in ks
      ensures k in ks ==> (Holds(lines, k, options, s, key) <==> FieldAt(lines, k, base, options).path == path)
    {
      HoldsMeans(lines, k, base, options, s, key);
      if Holds(lines, k, options, s, key) {
        AllFieldLines(lines, |lines|, options, k);
      } else if k in ks {
        var i :| 0 <= i < |ks| && ks[i] == k;
      }
    }
    Counted(lines, options, s, key, ks, fields, path);
  }

  lemma Counted(lines: seq<string>, options: Options, s: string, key: string, ks: seq<nat>, fields: seq<Field>,
      path: string)
    requires |fields| == |ks| && forall i | 0 <= i < |ks| :: ks[i] < |lines|
    requires forall i, j | 0 <= i < j < |ks| :: ks[i] < ks[j]
    requires forall i | 0 <= i < |ks| :: Holds(lines, ks[i], options, s, key) <==> fields[i].path == path
    requires forall k: nat | k < |lines| && Holds(lines, k, options, s, key) :: k in ks
    ensures (forall i | 0 <= i < |fields| :: fields[i].path != path)
            <==> forall k | 0 <= k < |lines| :: !Holds(lines, k, options, s, key)
    ensures (exists i, j | 0 <= i < j < |fields| :: fields[i].path == path == fields[j].path)
            <==> HeldTwice(lines, options, s, key)
  {
    hide Holds;
    if j, k :| 0 <= j < k < |lines| && Holds(lines, j, options, s, key) && Holds(lines, k, options, s, key) {
      var x :| 0 <= x < |ks| && ks[x] == j;
      var y :| 0 <= y < |ks| && ks[y] == k;
      assert x < y;
    }
    if i, j :| 0 <= i < j < |fields| && fields[i].path == path == fields[j].path {
      assert Holds(lines, ks[i], options, s, key) && Holds(lines, ks[j], options, s, key);
    }
  }

  // ---- sections that are opened twice ---------------------------------------

  ghost predicate OpenedTwice(lines: seq<string>, options: Options, s: string) {
    exists j, k | 0 <= j < k < |lines| :: OpensSection(lines, j, options, s) && OpensSection(lines, k, options, s)
  }

  /** Line `k` is a header of the section. */
  ghost predicate OpensSection(lines: seq<string>, k: nat, options: Options, s: string)
    requires k < |lines|
  {
    exists name :: ReadsHeader(Content(lines[k]), name) && Selects(options, name, s)
  }

  lemma {:induction false} LowerCaseMeans(a: string, b: string)
    ensures ToAsciiLowercase(a) == ToAsciiLowercase(b) <==> EqIgnoreAsciiCase(a, b)
  {
    hide Lower;
    if a != [] && b != [] {
      LowerCaseMeans(a[1..], b[1..]);
      var (x, y) := (ToAsciiLowercase(a), ToAsciiLowercase(b));
      assert x[0] == Lower(a[0]) && x[1..] == ToAsciiLowercase(a[1..]);
      assert y[0] == Lower(b[0]) && y[1..] == ToAsciiLowercase(b[1..]);
      assert forall i | 0 <= i < |a| - 1 :: a[1..][i] == a[i + 1];
      assert forall i | 0 <= i < |b| - 1 :: b[1..][i] == b[i + 1];
      if EqIgnoreAsciiCase(a, b) {
        assert Lower(a[0]) == Lower(b[0]);
        assert x == [x[0]] + x[1..] && y == [y[0]] + y[1..];
      }
    }
  }

  /** What matches is matched by itself, and sections of one normal form are one. */
  lemma {:induction false} FirstOfClass(editable: seq<string>, caseSensitive: bool, a: string, b: string)
    requires if caseSensitive then a == b else EqIgnoreAsciiCase(a, b)
    ensures FirstMatch(editable, caseSensitive, a) == FirstMatch(editable, caseSensitive, b)
  {
    hide Lower;
    if editable != [] {
      FirstOfClass(editable[1..], caseSensitive, a, b);
    }
  }

  lemma {:induction false} MatchedIsCalled(editable: seq<string>, caseSensitive: bool, name: string)
    ensures var m := FirstMatch(editable, caseSensitive, name);
            m.Some? ==> if caseSensitive then m.value == name else EqIgnoreAsciiCase(m.value, name)
  {
    hide EqIgnoreAsciiCase;
    if editable != [] {
      MatchedIsCalled(editable[1..], caseSensitive, name);
    }
  }

  lemma OneClass(options: Options, a: string, b: string)
    requires MatchingSection(a, options).Some? && MatchingSection(b, options).Some?
    ensures Normalize(MatchingSection(a, options).value, options)
            == Normalize(MatchingSection(b, options).value, options)
       <==> MatchingSection(a, options) == MatchingSection(b, options)
  {
    hide EqIgnoreAsciiCase, ToAsciiLowercase, FirstMatch;
    var (e, c) := (options.editable, options.caseSensitive);
    MatchedIsCalled(e, c, a);
    MatchedIsCalled(e, c, b);
    var x, y := MatchingSection(a, options).value, MatchingSection(b, options).value;
    FirstOfClass(e, c, x, a);
    FirstOfClass(e, c, y, b);
    LowerCaseMeans(x, y);
    if Normalize(x, options) == Normalize(y, options) {
      FirstOfClass(e, c, x, y);
    }
  }

  /** The name under which a duplicate section is told: in lower case when case does not matter. */
  lemma {:induction false} NormalMeans(section: string, options: Options)
    ensures var n := Normalize(section, options);
            if options.caseSensitive then n == section
            else |n| == |section| && forall i | 0 <= i < |n| :: IsLowerOf(section[i], n[i])
    decreases |section|
  {
    hide Lower, IsLowerOf;
    if section != [] && !options.caseSensitive {
      LowerIs(section[0], Lower(section[0]));
      NormalMeans(section[1..], options);
      var n := ToAsciiLowercase(section);
      forall i | 0 <= i < |n|
        ensures IsLowerOf(section[i], n[i])
      {
        if i > 0 {
          assert section[i] == section[1..][i - 1] && n[i] == n[1..][i - 1];
        }
      }
    }
  }

  lemma OpensMeans(lines: seq<string>, k: nat, options: Options, name: string, s: string)
    requires k < |lines| && MatchingSection(name, options) == Some(s)
    ensures Opens(lines, k, options) == Some(Normalize(s, options)) <==> OpensSection(lines, k, options, s)
  {
    hide Classify, Content, ReadsHeader, Selects, FirstMatch, Normalize;
    var content := Content(lines[k]);
    NameMeans(content);
    if Classify(content).Header? {
      var other := Classify(content).name;
      assert options == Options(options.editable, options.caseSensitive);
      MatchMeans(options.editable, options.caseSensitive, other, s);
      if MatchingSection(other, options).Some? {
        OneClass(options, other, name);
      }
    }
  }

  lemma DuplicatedMeans(lines: seq<string>, options: Options, name: string, s: string)
    requires MatchingSection(name, options) == Some(s)
    ensures Normalize(s, options) in Duplicates(lines, |lines|, options) <==> OpenedTwice(lines, options, s)
  {
    hide Opens, OpensSection, Duplicates, Normalize, FirstMatch;
    DuplicateMeans(lines, |lines|, Normalize(s, options), options);
    forall k: nat | k < |lines|
      ensures Opens(lines, k, options) == Some(Normalize(s, options)) <==> OpensSection(lines, k, options, s)
    {
      OpensMeans(lines, k, options, name, s);
    }
  }

  // ---- the answers ----------------------------------------------------------

  /** The source with other text in place of the value on line `k`. */
  function WithValue(source: seq<byte>, lines: seq<string>, k: nat, at: nat, value: string, r: string): seq<byte>
    requires k < |lines| && at + |value| <= |lines[k]|
  {
    var line := lines[k][..at] + r + lines[k][at + |value|..];
    source[..BaseOffset(source)] + Encode(Concat(lines[k := line]))
  }

  /** What the edit of the value of line `k` answers. */
  function ValueAnswer(source: seq<byte>, lines: seq<string>, k: nat, at: nat, value: string, r: string)
    : Result<seq<byte>, EditError>
    requires k < |lines| && at + |value| <= |lines[k]|
  {
    if '#' in value || ';' in value then Err(UnsupportedEdit)
    else if r == [] || '\r' in r || '\n' in r then Err(UnsafeValue)
    else Ok(WithValue(source, lines, k, at, value, r))
  }

  lemma ReadsWithin(lines: seq<string>, k: nat, key: string, at: nat, value: string)
    requires k < |lines| && ReadsAssignment(Content(lines[k]), key, at, value)
    ensures at + |value| <= |lines[k]|
  {
    hide Classify, ReadsAssignment;
    AssignmentMeans(Content(lines[k]), key, at, value);
  }

  /** What an edit under a selected section answers. */
  ghost predicate Answered(source: seq<byte>, path: string, r: string, options: Options, s: string, key: string,
      out: Result<seq<byte>, EditError>) {
    if DetectEncoding(source) == Unsupported then out == Err(ParseFailed)
    else
      var lines := TextLines(source);
      if OpenedTwice(lines, options, s) || HeldTwice(lines, options, s, key) then out == Err(AmbiguousField(path))
      else if forall k | 0 <= k < |lines| :: !Holds(lines, k, options, s, key) then out == Err(FieldNotFound(path))
      else
        exists k: nat, at: nat, value :: k < |lines| && InSection(lines, k, options, s)
          && ReadsAssignment(Content(lines[k]), key, at, value) && at + |value| <= |lines[k]|
          && out == ValueAnswer(source, lines, k, at, value, r)
  }

  /** THE ANSWERS OF AN EDIT. Only pointers of two segments whose first selects an editable section are edited. A
      section that two headers open, or a key that two of its lines hold, is ambiguous; a key that no line holds is not
      found. Otherwise the value of the one line is replaced, unless it contains a comment mark or the replacement is
      empty or more than one line. */
  lemma EditAnswers(source: seq<byte>, path: string, r: string, options: Options)
    requires Path.IsPointer(path)
    ensures Path.DecodedSegments(path).Some?
    ensures var (segments, out) := (Path.DecodedSegments(path).value, EditOutcome(source, path, r, options));
            && (|segments| != 2 || (forall s :: !Selects(options, segments[0], s)) ==> out == Err(UnsupportedEdit))
            && (|segments| == 2 ==>
                  forall s | Selects(options, segments[0], s) ::
                    Answered(source, path, r, options, s, segments[1], out))
  {
    hide EditOutcome, Selects, Answered, Path.IsPointer, Path.DecodedSegments, FirstMatch;
    Path.PointerRoundTrip(path);
    var segments := Path.DecodedSegments(path).value;
    if |segments| == 2 {
      forall s
        ensures MatchingSection(segments[0], options) == Some(s) <==> Selects(options, segments[0], s)
      {
        MatchMeans(options.editable, options.caseSensitive, segments[0], s);
        assert options == Options(options.editable, options.caseSensitive);
      }
      forall s | Selects(options, segments[0], s)
        ensures Answered(source, path, r, options, s, segments[1], EditOutcome(source, path, r, options))
      {
        SelectedAnswer(source, path, r, options, s);
      }
    }
    NothingSelected(source, path, r, options);
  }

  lemma NothingSelected(source: seq<byte>, path: string, r: string, options: Options)
    requires Path.DecodedSegments(path).Some?
    ensures var segments := Path.DecodedSegments(path).value;
            |segments| != 2 || MatchingSection(segments[0], options).None? ==>
              EditOutcome(source, path, r, options) == Err(UnsupportedEdit)
  {
    hide ParseOutcome, Path.DecodedSegments, FirstMatch;
  }

  lemma SelectedAnswer(source: seq<byte>, path: string, r: string, options: Options, s: string)
    requires var segments := Path.DecodedSegments(path);
             segments.Some? && |segments.value| == 2 && MatchingSection(segments.value[0], options) == Some(s)
    ensures Answered(source, path, r, options, s, Path.DecodedSegments(path).value[1],
                     EditOutcome(source, path, r, options))
  {
    hide Path.DecodedSegments, FirstMatch, DetectEncoding, TextLines, FieldsBefore, Duplicates, OpenedTwice, HeldTwice,
      Holds, Normalize, Path.FromSegments, Matches, NoCommentMark, SafeReplacement, Encode, Splice, InSection, Content,
      ReadsAssignment, Bytes, Within, ValueAnswer;
    var segments := Path.DecodedSegments(path).value;
    if DetectEncoding(source) != Unsupported {
      var lines, key := TextLines(source), segments[1];
      DuplicatedMeans(lines, options, segments[0], s);
      FieldCount(lines, BaseOffset(source), options, s, key);
      var fields := FieldsBefore(lines, |lines|, BaseOffset(source), options);
      var matches := Matches(fields, Path.FromSegments([s, key]));
      if |matches| == 1 {
        var k, at, value := TheField(source, options, s, key);
        OneAnswer(source, lines, options, s, k, at, value, r);
      }
    }
  }

  /** The one field with the path is that of a line that holds the key. */
  lemma TheField(source: seq<byte>, options: Options, s: string, key: string) returns (k: nat, at: nat, value: string)
    requires DetectEncoding(source) != Unsupported
    requires var lines := TextLines(source);
             |Matches(FieldsBefore(lines, |lines|, BaseOffset(source), options), Path.FromSegments([s, key]))| == 1
    ensures var lines := TextLines(source);
            && k < |lines| && IsFieldLine(lines, k, options) && InSection(lines, k, options, s)
            && ReadsAssignment(Content(lines[k]), key, at, value) && at + |value| <= |lines[k]|
            && Classify(Content(lines[k])) == Assignment(key, at, value)
            && Matches(FieldsBefore(lines, |lines|, BaseOffset(source), options), Path.FromSegments([s, key]))
               == [FieldAt(lines, k, BaseOffset(source), options)]
  {
    hide DetectEncoding, TextLines, FieldsBefore, FieldLines, FieldAt, IsFieldLine, Path.FromSegments, Matches,
      Classify, Content, InSection, ReadsAssignment;
    var lines, base := TextLines(source), BaseOffset(source);
    var fields, path := FieldsBefore(lines, |lines|, base, options), Path.FromSegments([s, key]);
    IniEdit.FieldsAreLines(lines, |lines|, base, options);
    IniEdit.UniqueMatch(fields, path);
    k := FieldLines(lines, |lines|, options)[IniEdit.IndexOf(fields, path)];
    HoldsMeans(lines, k, base, options, s, key);
    at, value :| ReadsAssignment(Content(lines[k]), key, at, value);
    AssignmentMeans(Content(lines[k]), key, at, value);
    ReadsWithin(lines, k, key, at, value);
  }

  lemma OneAnswer(source: seq<byte>, lines: seq<string>, options: Options, s: string, k: nat, at: nat, value: string,
      r: string)
    requires DetectEncoding(source) != Unsupported && lines == TextLines(source)
    requires k < |lines| && IsFieldLine(lines, k, options) && at + |value| <= |lines[k]|
    requires exists key :: Classify(Content(lines[k])) == Assignment(key, at, value)
    ensures var span := FieldAt(lines, k, BaseOffset(source), options).span;
            && Within(span, source)
            && ValueAnswer(source, lines, k, at, value, r)
               == (if !NoCommentMark(Bytes(span, source)) then Err(UnsupportedEdit)
                   else if !SafeReplacement(r) then Err(UnsafeValue)
                   else Ok(Splice(source, span.start, span.end, Encode(r))))
  {
    hide DetectEncoding, TextLines, IsFieldLine, FieldAt, Classify, Content, Encode, Splice, NoCommentMark, Concat;
    var key :| Classify(Content(lines[k])) == Assignment(key, at, value);
    IniEdit.SourceIsLines(source);
    ContentWithin(lines[k], at + |value|);
    IniEdit.SpanHoldsValue(source[..BaseOffset(source)], lines, k, options, r);
    IniEdits.MarksOf(Encode(value), value);
  }

  lemma ContentWithin(line: string, end: nat)
    ensures |Content(line)| <= |line|
  {
  }
}
