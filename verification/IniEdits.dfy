/** Two INI edits in a row (`common.rs`): when a later edit of the same key overrides an earlier one, and why
    edits of distinct keys commute. */
module IniEdits {
  import opened Wrappers
  import opened Utf8
  import opened Document
  import opened IniText
  import opened Ini
  import opened IniEdit

  // ---- spans do not overlap -------------------------------------------------

  lemma {:induction false} OffsetsGrow(lines: seq<string>, i: nat, j: nat, base: nat)
    requires i <= j <= |lines|
    ensures Offset(lines, i, base) <= Offset(lines, j, base)
    decreases j
  {
    if i < j {
      OffsetsGrow(lines, i, j - 1, base);
    }
  }

  predicate SpansOrdered(fields: seq<Field>, size: nat) {
    && (forall i | 0 <= i < |fields| :: fields[i].span.start <= fields[i].span.end <= size)
    && (forall i, j | 0 <= i < j < |fields| :: fields[i].span.end < fields[j].span.start)
  }

  lemma FieldSpansOrdered(source: seq<byte>, options: Options)
    requires ParseOutcome(source, options).Ok?
    ensures SpansOrdered(ParseOutcome(source, options).value.fields, |source|)
  {
    hide Encode, TextLines, FieldsBefore, FieldLines, FieldAt, IsFieldLine, Classify, Content, Mark, FromLines,
      AreLines, Offset, DetectEncoding, Splice, Duplicates;
    var lines := TextLines(source);
    var base := BaseOffset(source);
    var fields := FieldsBefore(lines, |lines|, base, options);
    var ks := FieldLines(lines, |lines|, options);
    SourceIsLines(source);
    FieldsAreLines(lines, |lines|, base, options);
    forall i | 0 <= i < |fields|
      ensures fields[i].span.start <= fields[i].span.end <= |source|
      ensures Offset(lines, ks[i], base) < fields[i].span.start && fields[i].span.end <= Offset(lines, ks[i] + 1, base)
    {
      SpanHoldsValue(Mark(source), lines, ks[i], options, []);
    }
    forall i, j | 0 <= i < j < |fields|
      ensures fields[i].span.end < fields[j].span.start
    {
      OffsetsGrow(lines, ks[i] + 1, ks[j], base);
    }
  }

  // ---- the second edit ------------------------------------------------------

  /** The span an accepted edit replaces. */
  function Target(source: seq<byte>, path: string, options: Options): (span: Span)
    requires ParseOutcome(source, options).Ok? && Canonical(path, options).Some?
    requires IndexOf(ParseOutcome(source, options).value.fields, Canonical(path, options).value)
             < |ParseOutcome(source, options).value.fields|
  {
    var fields := ParseOutcome(source, options).value.fields;
    fields[IndexOf(fields, Canonical(path, options).value)].span
  }

  /** Everything but the replacement that an accepted edit depends on. */
  ghost predicate Editable(source: seq<byte>, path: string, options: Options) {
    && Canonical(path, options).Some? && ParseOutcome(source, options).Ok?
    && var p := ParseOutcome(source, options).value;
    && !SectionDuplicated(path, p.duplicates, options)
    && |Matches(p.fields, Canonical(path, options).value)| == 1
    && IndexOf(p.fields, Canonical(path, options).value) < |p.fields|
    && Within(Target(source, path, options), source)
    && NoCommentMark(Bytes(Target(source, path, options), source))
  }

  lemma OutcomeByTarget(source: seq<byte>, path: string, r: string, options: Options)
    ensures EditOutcome(source, path, r, options).Ok? <==> Editable(source, path, options) && SafeReplacement(r)
    ensures Editable(source, path, options) && SafeReplacement(r) ==>
              var span := Target(source, path, options);
              EditOutcome(source, path, r, options) == Ok(Splice(source, span.start, span.end, Encode(r)))
  {
    hide ParseOutcome, Canonical, SectionDuplicated, Matches, SafeReplacement, NoCommentMark, Encode, Splice;
    if Canonical(path, options).Some? && ParseOutcome(source, options).Ok? {
      var fields := ParseOutcome(source, options).value.fields;
      if |Matches(fields, Canonical(path, options).value)| == 1 {
        UniqueMatch(fields, Canonical(path, options).value);
      }
    }
  }

  /** After an edit, whether another path is editable depends only on its own value. */
  lemma EditableAfter(source: seq<byte>, path: string, r: string, other: string, options: Options)
    requires EditOutcome(source, path, r, options).Ok? && Editable(source, other, options)
    ensures var out := EditOutcome(source, path, r, options).value;
            var p := ParseOutcome(source, options).value.fields;
            && ParseOutcome(out, options).Ok?
            && var q := ParseOutcome(out, options).value.fields;
            && SamePaths(p, q)
            && IndexOf(q, Canonical(other, options).value) == IndexOf(p, Canonical(other, options).value) < |q|
            && (Within(Target(out, other, options), out) ==>
                  (Editable(out, other, options) <==> NoCommentMark(Bytes(Target(out, other, options), out))))
  {
    hide EditOutcome, Canonical, SectionDuplicated, Matches, NoCommentMark, Encode, Splice, ParseOutcome, LineEndingOf,
      HoldsTrimmed, IndexOf;
    ReparseAfterEdit(source, path, r, options);
    var out := EditOutcome(source, path, r, options).value;
    var p, q := ParseOutcome(source, options).value, ParseOutcome(out, options).value;
    MatchesByPath(p.fields, q.fields, Canonical(other, options).value);
  }

  // ---- the same key twice ---------------------------------------------------

  lemma MarksOf(b: seq<byte>, s: string)
    requires b == Encode(s)
    ensures NoCommentMark(b) <==> '#' !in s && ';' !in s
  {
    AsciiIn(s, '#');
    AsciiIn(s, ';');
  }

  /** Only text without surrounding white space encodes to as many bytes as it does trimmed. */
  lemma TrimmedBytes(s: string)
    requires s != []
    ensures |Encode(Trim(s))| <= |Encode(s)|
    ensures |Encode(Trim(s))| == |Encode(s)| <==> Trimmed(s)
  {
    hide Trim, TrimStart, EncodeChar;
    var a, z := TrimParts(s);
    TrimIsTrimmed(s);
    var t := Trim(s);
    assert s == a + (t + z);
    EncodeConcat(a, t + z);
    EncodeConcat(t, z);
    if Trimmed(s) {
    } else {
      assert a != [] || z != [];
    }
  }

  /** After an edit, the same key can be edited again exactly when the new text is free of comment marks;
      and then the second edit erases every trace of the first exactly when the first text was trimmed. */
  lemma LaterEditOverrides(source: seq<byte>, path: string, first: string, second: string, options: Options)
    requires EditOutcome(source, path, first, options).Ok? && SafeReplacement(second)
    ensures var once := EditOutcome(source, path, first, options).value;
            && (EditOutcome(once, path, second, options).Ok? <==> '#' !in Trim(first) && ';' !in Trim(first))
            && EditOutcome(source, path, second, options).Ok?
            && (EditOutcome(once, path, second, options).Ok? ==>
                  (EditOutcome(once, path, second, options) == EditOutcome(source, path, second, options)
                   <==> Trimmed(first)))
  {
    hide EditOutcome, Canonical, SectionDuplicated, Matches, NoCommentMark, Encode, ParseOutcome, LineEndingOf, Trim,
      TrimStart, IndexOf;
    OutcomeByTarget(source, path, first, options);
    OutcomeByTarget(source, path, second, options);
    ReparseAfterEdit(source, path, first, options);
    EditableAfter(source, path, first, path, options);
    var once := EditOutcome(source, path, first, options).value;
    OutcomeByTarget(once, path, second, options);
    var was, now := Target(source, path, options), Target(once, path, options);
    MarksOf(Bytes(now, once), Trim(first));
    NotEmpty(first);
    TrimmedBytes(first);
    if Trimmed(first) {
      TrimIsTrimmed(first);
      NoLead(first);
      assert now.start == was.start && now.end == was.start + |Encode(first)|;
      SpliceOver(source, was.start, was.end, Encode(first), Encode(second));
    }
  }

  lemma NotEmpty(r: string)
    requires SafeReplacement(r)
    ensures r != []
  {
  }

  lemma NoLead(s: string)
    requires Trimmed(s)
    ensures |Encode(s[..|s| - |TrimStart(s)|])| == 0
  {
  }

  // ---- distinct keys --------------------------------------------------------

  /** Where a part of the document goes when a disjoint part is replaced. */
  predicate Relocated(mine: Span, was: Span, now: Span, size: nat) {
    && (was.end < mine.start || mine.end < was.start)
    && (was.end < mine.start ==> now == was)
    && (mine.end < was.start ==>
          now.start == was.start - (mine.end - mine.start) + size
            && now.end == was.end - (mine.end - mine.start) + size)
  }

  lemma RelocatedBytes(s: seq<byte>, mine: Span, was: Span, now: Span, r: seq<byte>)
    requires Within(mine, s) && Within(was, s) && Relocated(mine, was, now, |r|)
    ensures var out := Splice(s, mine.start, mine.end, r); Within(now, out) && Bytes(now, out) == Bytes(was, s)
  {
    hide Splice;
    if was.end < mine.start {
      SplicesCommute(s, was.start, was.end, mine.start, mine.end, [], r);
    } else {
      SplicesCommute(s, mine.start, mine.end, was.start, was.end, r, []);
    }
  }

  lemma MovedSpan(p: seq<Field>, q: seq<Field>, m: nat, n: nat, size: nat, limit: nat)
    requires SpansOrdered(p, limit) && m < |p| && n < |p| && m != n
    requires Moved(p, q, m, size - (p[m].span.end - p[m].span.start))
    ensures Relocated(p[m].span, p[n].span, q[n].span, size)
  {
  }

  /** The target of another edit moves with the text around it and keeps its bytes. */
  lemma OtherTarget(source: seq<byte>, path: string, r: string, other: string, options: Options)
    requires EditOutcome(source, path, r, options).Ok? && Editable(source, other, options)
             && Editable(source, path, options)
    requires Canonical(path, options) != Canonical(other, options)
    ensures var out := EditOutcome(source, path, r, options).value;
            && Editable(out, other, options)
            && Relocated(Target(source, path, options), Target(source, other, options), Target(out, other, options),
                         |Encode(r)|)
  {
    hide EditOutcome, Canonical, SectionDuplicated, Matches, NoCommentMark, Encode, ParseOutcome, LineEndingOf,
      HoldsTrimmed, Splice, IndexOf, Moved, SpansOrdered, Relocated;
    OutcomeByTarget(source, path, r, options);
    ReparseAfterEdit(source, path, r, options);
    EditableAfter(source, path, r, other, options);
    FieldSpansOrdered(source, options);
    var out := EditOutcome(source, path, r, options).value;
    var p, q := ParseOutcome(source, options).value.fields, ParseOutcome(out, options).value.fields;
    DistinctIndexes(p, Canonical(path, options).value, Canonical(other, options).value);
    var m, n := IndexOf(p, Canonical(path, options).value), IndexOf(p, Canonical(other, options).value);
    MovedSpan(p, q, m, n, |Encode(r)|, |source|);
    RelocatedBytes(source, p[m].span, p[n].span, q[n].span, Encode(r));
  }

  lemma DistinctIndexes(fields: seq<Field>, a: string, b: string)
    requires a != b && IndexOf(fields, a) < |fields| && IndexOf(fields, b) < |fields|
    ensures IndexOf(fields, a) != IndexOf(fields, b)
  {
    MatchesAre(fields, a);
    MatchesAre(fields, b);
  }

  /** Edits of distinct keys commute: in either order both succeed and give the same bytes. */
  lemma EditsCommute(source: seq<byte>, path: string, r: string, other: string, t: string, options: Options)
    requires EditOutcome(source, path, r, options).Ok? && EditOutcome(source, other, t, options).Ok?
    requires Canonical(path, options) != Canonical(other, options)
    ensures var (one, two) := (EditOutcome(source, path, r, options).value,
                               EditOutcome(source, other, t, options).value);
            && EditOutcome(one, other, t, options).Ok?
            && EditOutcome(one, other, t, options) == EditOutcome(two, path, r, options)
  {
    hide EditOutcome, Canonical, Encode, ParseOutcome, Splice, Target, SafeReplacement, IndexOf, Matches,
      SectionDuplicated, NoCommentMark;
    var one, two := EditOutcome(source, path, r, options).value, EditOutcome(source, other, t, options).value;
    OutcomeByTarget(source, path, r, options);
    OutcomeByTarget(source, other, t, options);
    OtherTarget(source, path, r, other, options);
    OtherTarget(source, other, t, path, options);
    OutcomeByTarget(one, other, t, options);
    OutcomeByTarget(two, path, r, options);
    var mine, was := Target(source, path, options), Target(source, other, options);
    if mine.end < was.start {
      SplicesCommute(source, mine.start, mine.end, was.start, was.end, Encode(r), Encode(t));
    } else {
      SplicesCommute(source, was.start, was.end, mine.start, mine.end, Encode(t), Encode(r));
    }
  }
}
