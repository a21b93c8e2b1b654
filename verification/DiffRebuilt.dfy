/** What a diff is good for: from either of the two sources and the diff alone the other source is rebuilt, byte for
    byte, and every document field says of it what it is named for. */
module DiffRebuilt {
  import Utf8
  import opened Document
  import opened RevisionDiff
  import opened DiffHunks
  import opened DiffPatch

  // ---- endings --------------------------------------------------------------

  predicate HasEnding(tokens: seq<Token>, ending: LineEnding) {
    exists i | 0 <= i < |tokens| :: tokens[i].ending == ending
  }

  /** The class of a list of lines by the terminators in it. */
  function ClassOf(tokens: seq<Token>): LineEnding {
    if HasEnding(tokens, Lf) && HasEnding(tokens, CrLf) then Mixed
    else if HasEnding(tokens, Lf) then Lf
    else if HasEnding(tokens, CrLf) then CrLf
    else NoEnding
  }

  /** Before the first line feed there is no ending. */
  lemma NoneBefore(b: seq<byte>, i: nat)
    requires i < FirstLf(b)
    ensures !LoneLfAt(b, i) && !CrLfAt(b, i)
  {
  }

  /** Behind a line feed an ending is one of the rest. */
  lemma EndingBehind(b: seq<byte>, n: nat, rest: seq<byte>, i: nat)
    requires 0 < n <= |b| && b[n - 1] == LF && rest == b[n..]
    ensures LoneLfAt(b, n + i) <==> LoneLfAt(rest, i)
    ensures CrLfAt(b, n + i) <==> CrLfAt(rest, i)
  {
    if i < |rest| {
      assert rest[i] == b[n + i];
      if i > 0 {
        assert rest[i - 1] == b[n + i - 1];
      }
    }
  }

  lemma EndingAt(b: seq<byte>, i: nat)
    requires FirstLf(b) < |b|
    ensures i < FirstLf(b) ==> !LoneLfAt(b, i) && !CrLfAt(b, i)
    ensures var (n, rest) := (FirstLf(b) + 1, b[FirstLf(b) + 1..]);
            i >= n ==> (LoneLfAt(b, i) <==> LoneLfAt(rest, i - n)) && (CrLfAt(b, i) <==> CrLfAt(rest, i - n))
  {
    hide LoneLfAt, CrLfAt, FirstLf;
    var n := FirstLf(b) + 1;
    if i < n - 1 {
      NoneBefore(b, i);
    } else if i >= n {
      EndingBehind(b, n, b[n..], i - n);
    }
  }

  /** Endings behind the first line are those of the rest. */
  lemma EndingsSplit(b: seq<byte>)
    requires FirstLf(b) < |b|
    ensures SomeLoneLf(b) <==> LoneLfAt(b, FirstLf(b)) || SomeLoneLf(b[FirstLf(b) + 1..])
    ensures SomeCrLf(b) <==> CrLfAt(b, FirstLf(b)) || SomeCrLf(b[FirstLf(b) + 1..])
  {
    hide LoneLfAt, CrLfAt, FirstLf;
    var (k, rest) := (FirstLf(b), b[FirstLf(b) + 1..]);
    if i: nat :| LoneLfAt(b, i) {
      EndingAt(b, i);
    }
    if i: nat :| CrLfAt(b, i) {
      EndingAt(b, i);
    }
    if i: nat :| LoneLfAt(rest, i) {
      EndingAt(b, k + 1 + i);
    }
    if i: nat :| CrLfAt(rest, i) {
      EndingAt(b, k + 1 + i);
    }
  }

  lemma HasCons(t: Token, rest: seq<Token>, ending: LineEnding)
    ensures HasEnding([t] + rest, ending) <==> t.ending == ending || HasEnding(rest, ending)
  {
    assert ([t] + rest)[0] == t;
    forall i | 0 <= i < |rest|
      ensures rest[i] == ([t] + rest)[i + 1]
    {
    }
  }

  lemma {:induction false} EndingsOf(b: seq<byte>)
    ensures SomeLoneLf(b) <==> HasEnding(Tokens(b), Lf)
    ensures SomeCrLf(b) <==> HasEnding(Tokens(b), CrLf)
    decreases |b|
  {
    if b != [] {
      hide SomeLoneLf, SomeCrLf, HasEnding;
      var k := FirstLf(b);
      if k < |b| {
        EndingsSplit(b);
        EndingsOf(b[k + 1..]);
        HasCons(FirstToken(b), Tokens(b[k + 1..]), Lf);
        HasCons(FirstToken(b), Tokens(b[k + 1..]), CrLf);
      } else {
        NoFeed(b);
        NothingEnds();
        HasCons(FirstToken(b), [], Lf);
        HasCons(FirstToken(b), [], CrLf);
        assert Tokens(b) == [FirstToken(b)] + [];
      }
    } else {
      NoFeed(b);
    }
  }

  lemma NothingEnds()
    ensures !HasEnding([], Lf) && !HasEnding([], CrLf)
  {
  }

  lemma NoFeed(b: seq<byte>)
    requires FirstLf(b) == |b|
    ensures !SomeLoneLf(b) && !SomeCrLf(b)
  {
  }

  lemma ClassIs(source: seq<byte>)
    ensures LineEndingOf(source) == ClassOf(Tokens(Body(source)))
  {
    hide SomeLoneLf, SomeCrLf, HasEnding, HasBom;
    BodyEndings(source);
    EndingsOf(Body(source));
  }

  // ---- rebuilding -----------------------------------------------------------

  /** The bytes of a document of these lines. */
  function Rebuilt(document: DiffDocument, tokens: seq<Token>): seq<byte> {
    (if document.hasBom then [0xEF, 0xBB, 0xBF] else []) + Join(tokens)
  }

  /** The fields of a document say what they are named for of the source that is rebuilt. */
  predicate Describes(document: DiffDocument, tokens: seq<Token>, source: DiffSource) {
    && document.summary == source.summary && Rebuilt(document, tokens) == source.source
    && document.ending == ClassOf(tokens)
    && (document.trailingNewline <==> source.source != [] && source.source[|source.source| - 1] == 0x0A)
  }

  lemma DocumentDescribes(source: DiffSource)
    ensures Describes(DocumentOf(source), TokensOf(source), source)
  {
    hide Tokens, ClassOf, LineEndingOf;
    TokensLossless(Body(source.source));
    ClassIs(source.source);
    MarkAndBody(source.source);
  }

  lemma MarkAndBody(source: seq<byte>)
    ensures source == (if HasBom(source) then [0xEF, 0xBB, 0xBF] else []) + Body(source)
  {
  }

  /** FROM ONE SIDE THE OTHER. Applied to the lines of either source, the hunks of a diff give lines that, joined and
      behind the mark that the document field tells of, are the other source; and the other fields describe it. */
  lemma DiffRebuilds(from: DiffSource, to: DiffSource, ops: seq<Op>, groups: seq<seq<Op>>)
    requires ValidScript(ops, TokensOf(from), TokensOf(to)) && ValidGroups(groups, ops, TokensOf(from), TokensOf(to))
    requires SameIdentity(from, to) ==> from.source == to.source
    requires DiffOutcome(from, to, ops, groups).Ok?
    ensures var d := DiffOutcome(from, to, ops, groups).value;
            var there := ApplyHunks(d.hunks, true, Tokens(Body(from.source)), 0);
            var back := ApplyHunks(d.hunks, false, Tokens(Body(to.source)), 0);
            && there.Some? && Describes(d.to, there.value, to)
            && back.Some? && Describes(d.from, back.value, from)
            && (d.identical <==> from.summary.id == to.summary.id || from.summary.contentHash == to.summary.contentHash)
            && (d.identical ==> d.hunks == [] && d.additions == d.deletions == 0)
  {
    hide Tokens, ValidScript, GroupsFrom, GroupOk, Describes, Body, DocumentOf, HunksOf, LineTotal, Readable;
    DocumentDescribes(from);
    DocumentDescribes(to);
    if SameIdentity(from, to) {
      assert TokensOf(from)[0..] == TokensOf(from);
    } else {
      HunksArePatch(ops, groups, TokensOf(from), TokensOf(to));
    }
  }

  // ---- when there is a diff -------------------------------------------------

  function OutputLines(groups: seq<seq<Op>>): int {
    if groups == [] then 0 else GroupSize(groups[0]) + OutputLines(groups[1..])
  }

  /** A line for every line of an equal stretch, and one for every line that goes or comes. */
  function GroupSize(group: seq<Op>): int {
    if group == [] then 0
    else
      var op := group[0];
      (if op.tag.Equal? then op.o2 - op.o1 else (op.o2 - op.o1) + (op.n2 - op.n1)) + GroupSize(group[1..])
  }

  lemma {:induction false} GroupLength(group: seq<Op>, before: seq<Token>, after: seq<Token>)
    requires AllOk(group, before, after)
    ensures |GroupLines(group, before, after)| == GroupSize(group)
  {
    if group != [] {
      assert OpOk(group[0], before, after);
      forall i | 0 <= i < |group| - 1
        ensures OpOk(group[1..][i], before, after)
      {
        assert group[1..][i] == group[i + 1];
      }
      GroupLength(group[1..], before, after);
    }
  }

  lemma {:induction false} TotalIs(groups: seq<seq<Op>>, before: seq<Token>, after: seq<Token>)
    requires forall i | 0 <= i < |groups| :: GroupOk(groups[i], before, after)
    ensures LineTotal(HunksOf(groups, before, after)) == OutputLines(groups)
  {
    hide GroupOk, GroupSize, GroupLines;
    if groups != [] {
      forall i | 0 <= i < |groups| - 1
        ensures GroupOk(groups[1..][i], before, after)
      {
        assert groups[1..][i] == groups[i + 1];
      }
      TotalIs(groups[1..], before, after);
      HunkLength(groups[0], before, after);
      var hunks := HunksOf(groups, before, after);
      assert hunks[1..] == HunksOf(groups[1..], before, after);
    }
  }

  lemma HunkLength(group: seq<Op>, before: seq<Token>, after: seq<Token>)
    requires GroupOk(group, before, after)
    ensures |HunkOf(group, before, after).lines| == GroupSize(group)
  {
    hide Changes, EndOf, Contiguous, GroupLines;
    GroupLength(group, before, after);
  }

  /** WHEN THERE IS A DIFF. The call fails exactly beyond eight mebibytes or two hundred thousand lines of input or ten
      thousand lines of output, or for bytes that are no text, and says which. */
  lemma DiffAnswers(from: DiffSource, to: DiffSource, ops: seq<Op>, groups: seq<seq<Op>>)
    requires ValidScript(ops, TokensOf(from), TokensOf(to)) && ValidGroups(groups, ops, TokensOf(from), TokensOf(to))
    ensures var r := DiffOutcome(from, to, ops, groups);
            var bytes := |from.source| + |to.source|;
            var lines := LogicalLineCount(Body(from.source)) + LogicalLineCount(Body(to.source));
            var text := Utf8.Valid(Body(from.source)) && Utf8.Valid(Body(to.source));
            var same := from.summary.id == to.summary.id || from.summary.contentHash == to.summary.contentHash;
            && (r.Err? <==> bytes > 8388608 || !text || lines > 200000 || (!same && OutputLines(groups) > 10000))
            && (r.Err? ==> r.error == if bytes <= 8388608 && !text then InvalidUtf8 else TooLarge)
  {
    hide Tokens, ValidScript, GroupsFrom, GroupOk, HunksOf, Body, Utf8.Valid, LineTotal, OutputLines, DocumentOf,
      LogicalLineCount;
    FastCountIsRight(Body(from.source));
    FastCountIsRight(Body(to.source));
    GroupsAllOk(groups, 0, 0, TokensOf(from), TokensOf(to));
    TotalIs(groups, TokensOf(from), TokensOf(to));
  }
}
