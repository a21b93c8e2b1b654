/** JSON Pointers as `path.rs` builds, checks and splits them (sections 3 and 4 of RFC 6901). */
module Path {
  import opened Wrappers

  /** What `ConfigPath::new` accepts: empty or slash-led, and every tilde starts `~0` or `~1`. */
  ghost predicate IsPointer(p: string) {
    (p == [] || p[0] == '/') && TildesEscape(p)
  }

  ghost predicate TildesEscape(s: string) {
    forall i | 0 <= i < |s| && s[i] == '~' :: i + 1 < |s| && s[i + 1] in {'0', '1'}
  }

  method New(value: string) returns (r: Result<string, string>)
    ensures r == if IsPointer(value) then Ok(value) else Err(value)
  {
    if value != [] && value[0] != '/' {
      return Err(value);
    }
    var cursor := 0;
    while cursor < |value|
      invariant 0 <= cursor <= |value|
      invariant forall i | 0 <= i < cursor && value[i] == '~' :: i + 1 < |value| && value[i + 1] in {'0', '1'}
    {
      if value[cursor] == '~' {
        if cursor + 1 < |value| && (value[cursor + 1] == '0' || value[cursor + 1] == '1') {
          cursor := cursor + 2;
        } else {
          return Err(value);
        }
      } else {
        cursor := cursor + 1;
      }
    }
    return Ok(value);
  }

  /** `str::replace` of one character by a text. */
  function ReplaceChar(s: string, from: char, to: string): string {
    if s == [] then []
    else (if s[0] == from then to else [s[0]]) + ReplaceChar(s[1..], from, to)
  }

  /** Two successive replacements: first every tilde, then every slash. */
  function Escape(segment: string): string {
    ReplaceChar(ReplaceChar(segment, '~', "~0"), '/', "~1")
  }

  /** The inverse, or None where the code has an `unreachable!` branch. */
  function Unescape(s: string): Option<string> {
    if s == [] then Some([])
    else if s[0] != '~' then
      match Unescape(s[1..])
      case None => None
      case Some(rest) => Some([s[0]] + rest)
    else if |s| == 1 || s[1] !in {'0', '1'} then None
    else
      match Unescape(s[2..])
      case None => None
      case Some(rest) => Some([if s[1] == '0' then '~' else '/'] + rest)
  }

  /** The code's character loop; its precondition is what makes the `unreachable!` branch dead. */
  method UnescapeSegment(segment: string) returns (output: string)
    requires TildesEscape(segment)
    ensures Unescape(segment) == Some(output)
  {
    hide Unescape, TildesEscape;
    UnescapeTotal(segment);
    output := [];
    assert segment[0..] == segment;
    var at := 0;
    while at < |segment|
      invariant 0 <= at <= |segment|
      invariant Unescape(segment[at..]).Some?
      invariant Unescape(segment).value == output + Unescape(segment[at..]).value
    {
      var character := segment[at];
      UnescapeStep(segment[at..]);
      assert segment[at..][1..] == segment[at + 1..];
      if character == '~' {
        assert segment[at..][2..] == segment[at + 2..];
        output := output + [if segment[at + 1] == '0' then '~' else '/'];
        at := at + 2;
      } else {
        output := output + [character];
        at := at + 1;
      }
    }
    UnescapeNothing();
    assert segment[at..] == [] && output + [] == output;
  }

  lemma UnescapeNothing()
    ensures Unescape([]) == Some([])
  {
  }

  lemma UnescapeStep(s: string)
    requires s != [] && Unescape(s).Some?
    ensures s[0] == '~' ==> |s| > 1 && Unescape(s[2..]).Some?
                            && Unescape(s).value == [if s[1] == '0' then '~' else '/'] + Unescape(s[2..]).value
    ensures s[0] != '~' ==> Unescape(s[1..]).Some? && Unescape(s).value == [s[0]] + Unescape(s[1..]).value
  {
  }

  lemma {:induction false} UnescapeTotal(s: string)
    requires TildesEscape(s)
    ensures Unescape(s).Some?
  {
    if s == [] {
    } else if s[0] != '~' {
      assert forall i | 0 <= i < |s[1..]| :: s[1..][i] == s[i + 1];
      UnescapeTotal(s[1..]);
    } else {
      assert s[1] in {'0', '1'};
      assert forall i | 0 <= i < |s[2..]| :: s[2..][i] == s[i + 2];
      UnescapeTotal(s[2..]);
    }
  }

  function FromSegments(segments: seq<string>): string {
    if segments == [] then []
    else "/" + Escape(segments[0]) + FromSegments(segments[1..])
  }

  method BuildPath(segments: seq<string>) returns (value: string)
    ensures value == FromSegments(segments)
  {
    hide Escape;
    value := [];
    for i := 0 to |segments|
      invariant value + FromSegments(segments[i..]) == FromSegments(segments)
    {
      assert segments[i..][0] == segments[i] && segments[i..][1..] == segments[i + 1..];
      value := value + "/";
      value := value + Escape(segments[i]);
    }
  }

  /** `str::split('/')`: always at least one piece. */
  function Split(s: string): (r: seq<string>)
    ensures |r| >= 1
  {
    if s == [] then [[]]
    else if s[0] == '/' then [[]] + Split(s[1..])
    else
      var rest := Split(s[1..]);
      [[s[0]] + rest[0]] + rest[1..]
  }

  function UnescapeAll(pieces: seq<string>): Option<seq<string>> {
    if pieces == [] then Some([])
    else
      match (Unescape(pieces[0]), UnescapeAll(pieces[1..]))
      case (Some(head), Some(tail)) => Some([head] + tail)
      case _ => None
  }

  /** `decoded_segments`; None only if the `unreachable!` branch were reached. */
  function DecodedSegments(p: string): Option<seq<string>> {
    if p == [] then Some([]) else UnescapeAll(Split(p[1..]))
  }

  // ---- escaping one segment -------------------------------------------------

  lemma {:induction false} UnescapeOfEscape(s: string)
    ensures '/' !in Escape(s)
    ensures TildesEscape(Escape(s))
    ensures Unescape(Escape(s)) == Some(s)
  {
    hide Escape;
    if s == [] {
      EscapeNothing();
    } else {
      UnescapeOfEscape(s[1..]);
      EscapeStep(s);
      assert [s[0]] + s[1..] == s;
      var head := if s[0] == '~' then "~0" else if s[0] == '/' then "~1" else [s[0]];
      var e := Escape(s);
      assert e == head + Escape(s[1..]);
      assert e[|head|..] == Escape(s[1..]);
      assert forall i | |head| <= i < |e| :: e[i] == Escape(s[1..])[i - |head|];
    }
  }

  lemma EscapeNothing()
    ensures Escape([]) == []
  {
  }

  /** The two passes act on each character of the input separately. */
  lemma EscapeStep(s: string)
    requires s != []
    ensures Escape(s) == (if s[0] == '~' then "~0" else if s[0] == '/' then "~1" else [s[0]]) + Escape(s[1..])
  {
    var once := ReplaceChar(s[1..], '~', "~0");
    if s[0] == '~' {
      var both := "~0" + once;
      assert both[1..] == "0" + once && both[1..][1..] == once;
      assert ReplaceChar("0" + once, '/', "~1") == "0" + ReplaceChar(once, '/', "~1");
    } else {
      var both := [s[0]] + once;
      assert both[1..] == once;
    }
  }

  lemma EscapeInjective(a: string, b: string)
    requires Escape(a) == Escape(b)
    ensures a == b
  {
    UnescapeOfEscape(a);
    UnescapeOfEscape(b);
  }

  lemma {:induction false} EscapeOfUnescape(s: string)
    requires TildesEscape(s) && '/' !in s
    ensures Unescape(s).Some? && Escape(Unescape(s).value) == s
  {
    UnescapeTotal(s);
    if s != [] {
      var step := if s[0] == '~' then 2 else 1;
      assert s[0] == '~' ==> |s| > 1 && s[1] in {'0', '1'};
      var rest := s[step..];
      assert forall i | 0 <= i < |rest| :: rest[i] == s[i + step];
      EscapeOfUnescape(rest);
      EscapeStep(Unescape(s).value);
      assert Unescape(s).value[1..] == Unescape(rest).value;
      assert s == s[..step] + rest;
    }
  }

  // ---- whole pointers -------------------------------------------------------

  lemma {:induction false} SplitJoin(head: string, tail: seq<string>)
    requires '/' !in head
    ensures Split(head + FromSegments(tail)) == [head] + (if tail == [] then [] else Split(FromSegments(tail)[1..]))
  {
    var s := head + FromSegments(tail);
    if head == [] {
      assert s == FromSegments(tail);
      if tail != [] {
        assert s[0] == '/';
      }
    } else {
      SplitJoin(head[1..], tail);
      assert s[1..] == head[1..] + FromSegments(tail);
      assert [head[0]] + head[1..] == head;
    }
  }

  /** Building a pointer and taking it apart gives the segments back, and `new` accepts it. */
  lemma {:induction false} SegmentsRoundTrip(segments: seq<string>)
    ensures IsPointer(FromSegments(segments))
    ensures DecodedSegments(FromSegments(segments)) == Some(segments)
  {
    hide Escape, Unescape, Split;
    if segments != [] {
      var rest := FromSegments(segments[1..]);
      SegmentsRoundTrip(segments[1..]);
      UnescapeOfEscape(segments[0]);
      var e := Escape(segments[0]);
      var p := FromSegments(segments);
      assert p[1..] == e + rest;
      SplitJoin(e, segments[1..]);
      assert segments == [segments[0]] + segments[1..];
      var tail := if segments[1..] == [] then [] else Split(rest[1..]);
      assert Split(p[1..])[0] == e && Split(p[1..])[1..] == tail;
      assert UnescapeAll(tail) == Some(segments[1..]) by {
        if segments[1..] != [] {
          assert rest != [];
        }
      }
      forall i | 0 <= i < |p| && p[i] == '~'
        ensures i + 1 < |p| && p[i + 1] in {'0', '1'}
      {
        if i <= |e| {
          assert e[i - 1] == '~';
        } else {
          assert rest[i - 1 - |e|] == '~';
        }
      }
    }
  }

  function FromPieces(pieces: seq<string>): string {
    if pieces == [] then [] else "/" + pieces[0] + FromPieces(pieces[1..])
  }

  lemma PiecesCons(head: string, rest: seq<string>)
    ensures FromPieces([head] + rest) == "/" + head + FromPieces(rest) && FromPieces([]) == []
  {
    assert ([head] + rest)[0] == head && ([head] + rest)[1..] == rest;
  }

  lemma {:induction false} PiecesOfSplit(s: string)
    ensures FromPieces(Split(s)) == "/" + s
  {
    hide FromPieces;
    if s == [] {
      PiecesCons([], []);
      assert [[]] + [] == Split(s);
    } else {
      var rest := Split(s[1..]);
      PiecesOfSplit(s[1..]);
      assert s == [s[0]] + s[1..];
      if s[0] == '/' {
        PiecesCons([], rest);
      } else {
        PiecesCons(rest[0], rest[1..]);
        PiecesCons([s[0]] + rest[0], rest[1..]);
        assert rest == [rest[0]] + rest[1..];
        SlashMoves(s[0], rest[0], FromPieces(rest[1..]), s[1..]);
      }
    }
  }

  lemma SlashMoves(c: char, x: string, y: string, s: string)
    requires "/" + x + y == "/" + s
    ensures "/" + ([c] + x) + y == "/" + ([c] + s)
  {
    assert s == ("/" + s)[1..] == ("/" + x + y)[1..] == x + y;
    assert "/" + ([c] + x) + y == "/" + ([c] + (x + y));
  }

  lemma {:induction false} SplitPieces(s: string)
    requires TildesEscape(s)
    ensures forall k | 0 <= k < |Split(s)| :: '/' !in Split(s)[k] && TildesEscape(Split(s)[k])
    ensures s != [] && s[0] != '/' ==> Split(s)[0] != [] && Split(s)[0][0] == s[0]
    ensures s != [] && s[0] in {'0', '1'} ==> Split(s)[0][0] == s[0]
  {
    if s != [] {
      assert forall i | 0 <= i < |s[1..]| :: s[1..][i] == s[i + 1];
      SplitPieces(s[1..]);
      if s[0] != '/' {
        var tail := Split(s[1..])[0];
        var piece := [s[0]] + tail;
        assert s[0] == '~' ==> s[1] in {'0', '1'} && tail[0] == s[1];
        forall i | 0 <= i < |piece| && piece[i] == '~'
          ensures i + 1 < |piece| && piece[i + 1] in {'0', '1'}
        {
          if i > 0 {
            assert tail[i - 1] == '~';
          }
        }
      }
    }
  }

  lemma {:induction false} SegmentsOfPieces(pieces: seq<string>)
    requires forall k | 0 <= k < |pieces| :: '/' !in pieces[k] && TildesEscape(pieces[k])
    ensures UnescapeAll(pieces).Some?
    ensures FromSegments(UnescapeAll(pieces).value) == FromPieces(pieces)
  {
    if pieces != [] {
      EscapeOfUnescape(pieces[0]);
      SegmentsOfPieces(pieces[1..]);
      assert UnescapeAll(pieces).value[1..] == UnescapeAll(pieces[1..]).value;
    }
  }

  /** Every accepted pointer is the one its decoded segments build, so the two functions are inverse
      bijections and `unreachable!` is never reached. */
  lemma PointerRoundTrip(p: string)
    requires IsPointer(p)
    ensures DecodedSegments(p).Some?
    ensures FromSegments(DecodedSegments(p).value) == p
  {
    if p != [] {
      assert forall i | 0 <= i < |p[1..]| :: p[1..][i] == p[i + 1];
      SplitPieces(p[1..]);
      SegmentsOfPieces(Split(p[1..]));
      PiecesOfSplit(p[1..]);
      assert p == "/" + p[1..];
    }
  }

  lemma FromSegmentsInjective(a: seq<string>, b: seq<string>)
    requires FromSegments(a) == FromSegments(b)
    ensures a == b
  {
    SegmentsRoundTrip(a);
    SegmentsRoundTrip(b);
  }

  /** `append_pointer`: the path of a child is the parent's segments with one more. */
  function Append(path: string, segment: string): string {
    path + "/" + Escape(segment)
  }

  lemma {:induction false} AppendSegment(segments: seq<string>, segment: string)
    ensures Append(FromSegments(segments), segment) == FromSegments(segments + [segment])
  {
    if segments == [] {
      assert FromSegments([segment]) == "/" + Escape(segment) + FromSegments([]);
      assert [segment][1..] == [];
    } else {
      AppendSegment(segments[1..], segment);
      var more := segments + [segment];
      assert more[0] == segments[0] && more[1..] == segments[1..] + [segment];
    }
  }
}
