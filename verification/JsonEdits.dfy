/** Two JSON edits in a row (`singbox.rs`): edits of separate nodes commute, and a later edit of a pointer
    erases an earlier one exactly when the earlier literal had no white space around it. */
module JsonEdits {
  import opened Wrappers
  import Utf8
  import opened Document
  import opened JsonGrammar
  import opened JsonStrict
  import opened JsonTree
  import opened JsonReplace
  import opened JsonEdit
  import opened Path

  // ---- pointers above pointers ----------------------------------------------

  /** One pointer is the other or leads on to it. */
  predicate Above(p: string, q: string) {
    p == q || p + "/" <= q
  }

  lemma {:induction false} FromSegmentsConcat(x: seq<string>, y: seq<string>)
    ensures FromSegments(x + y) == FromSegments(x) + FromSegments(y)
  {
    hide Escape;
    if x == [] {
      assert x + y == y;
    } else {
      assert (x + y)[0] == x[0] && (x + y)[1..] == x[1..] + y;
      FromSegmentsConcat(x[1..], y);
    }
  }

  /** An address below another has its segments first. */
  lemma {:induction false} SegmentsPrefix(v: Value, a: Address, c: Address)
    requires JsonTree.Valid(v, c) && a <= c
    ensures JsonTree.Valid(v, a) && Segments(v, c)[..|a|] == Segments(v, a)
    decreases |a|
  {
    hide Label;
    if a != [] {
      assert a[0] == c[0] && a[1..] <= c[1..];
      SegmentsPrefix(ItemAt(v.items, a[0]).value, a[1..], c[1..]);
    }
  }

  lemma BelowIsAbove(v: Value, a: Address, c: Address)
    requires JsonTree.Valid(v, c) && a <= c
    ensures JsonTree.Valid(v, a) && Above(Pointer(v, a), Pointer(v, c))
  {
    hide Escape, Segments;
    SegmentsPrefix(v, a, c);
    var s, rest := Segments(v, c), Segments(v, c)[|a|..];
    assert s == s[..|a|] + rest;
    FromSegmentsConcat(s[..|a|], rest);
    if rest == [] {
      assert FromSegments(rest) == [];
    } else {
      assert FromSegments(rest)[0] == '/';
      assert Pointer(v, a) + "/" == Pointer(v, c)[..|Pointer(v, a)| + 1];
    }
  }

  // ---- targets after an edit ------------------------------------------------

  /** Both documents agree on every node that is not at or below `a`. */
  ghost predicate SameElsewhere(t: Text, n: Text, a: Address) {
    && (forall c | !(a <= c) && JsonTree.Valid(t.root, c) ::
          JsonTree.Valid(n.root, c) && Pointer(n.root, c) == Pointer(t.root, c))
    && (forall c | !(a <= c) && JsonTree.Valid(n.root, c) :: JsonTree.Valid(t.root, c))
  }

  /** The edited node is again the only one with its pointer. */
  lemma SameTarget(t: Text, n: Text, a: Address, path: string)
    requires OnlyTarget(t, a, path) && SameElsewhere(t, n, a)
    requires JsonTree.Valid(n.root, a) && Pointer(n.root, a) == path
    ensures OnlyTarget(n, a, path)
  {
    hide JsonTree.Valid, Segments, FromSegments;
    forall c | IsTarget(n, c, path)
      ensures c == a
    {
      if a <= c {
        FromSegmentsInjective(Segments(n.root, c), Segments(n.root, a));
      } else {
        assert IsTarget(t, c, path);
      }
    }
  }

  /** A node that shares the segments of a node below `a` is itself below a node with the pointer of `a`. */
  lemma SharedPrefix(n: Text, a: Address, path: string, b: Address, c: Address)
    requires IsTarget(n, a, path) && JsonTree.Valid(n.root, b) && JsonTree.Valid(n.root, c) && a <= c
    requires Segments(n.root, c) == Segments(n.root, b)
    ensures |a| <= |b| && IsTarget(n, b[..|a|], path)
  {
    hide JsonTree.Valid, Segments, FromSegments;
    SegmentsPrefix(n.root, a, c);
    SegmentsPrefix(n.root, b[..|a|], b);
  }

  /** And so is every node that is neither above nor below it. */
  lemma OtherTarget(t: Text, n: Text, a: Address, path: string, b: Address, other: string)
    requires OnlyTarget(t, a, path) && OnlyTarget(n, a, path) && SameElsewhere(t, n, a)
    requires OnlyTarget(t, b, other) && !(a <= b)
    ensures OnlyTarget(n, b, other)
  {
    hide JsonTree.Valid, Segments, FromSegments;
    forall c | IsTarget(n, c, other)
      ensures c == b
    {
      if a <= c {
        FromSegmentsInjective(Segments(n.root, c), Segments(n.root, b));
        SharedPrefix(n, a, path, b, c);
      } else {
        assert IsTarget(t, c, other);
      }
    }
  }

  /** What an accepted edit replaces. */
  lemma EditAt(source: seq<byte>, path: string, replacement: string) returns (a: Address)
    requires Edit(source, path, replacement).Ok?
    ensures IsDocument(source) && IsLiteral(replacement) && OnlyTarget(Derivation(source), a, path)
    ensures var span := SpanOf(source, Derivation(source), a);
            && span.start <= span.end <= |source|
            && Edit(source, path, replacement) == Ok(Splice(source, span.start, span.end, Utf8.Encode(replacement)))
  {
    hide Utf8.Encode, Parse, Splice, OnlyTarget, Bytes, OffsetAt;
    a := FoundIsUnique(source, path);
    UniqueIsFound(source, path, a);
  }

  /** And conversely: the only node with a pointer can be replaced by any literal. */
  lemma EditAtTarget(source: seq<byte>, path: string, replacement: string, a: Address)
    requires IsDocument(source) && IsLiteral(replacement) && OnlyTarget(Derivation(source), a, path)
    ensures var span := SpanOf(source, Derivation(source), a);
            && span.start <= span.end <= |source|
            && Edit(source, path, replacement) == Ok(Splice(source, span.start, span.end, Utf8.Encode(replacement)))
  {
    hide Utf8.Encode, Parse, Splice, Bytes, OffsetAt, DocumentFields;
    UniqueIsFound(source, path, a);
    SpanHoldsNode(source, a);
  }

  /** The document after an edit, and what has become of another target. */
  lemma AfterEdit(source: seq<byte>, path: string, replacement: string, a: Address, b: Address, other: string)
    requires Edit(source, path, replacement).Ok? && OnlyTarget(Derivation(source), a, path)
    requires OnlyTarget(Derivation(source), b, other) && !(a <= b)
    ensures var out := Edit(source, path, replacement).value;
            && IsDocument(out) && OnlyTarget(Derivation(out), b, other)
            && ShiftedSpan(SpanOf(source, Derivation(source), b), SpanOf(source, Derivation(source), a),
                           |out| - |source|,
                           SpanOf(out, Derivation(out), b))
  {
    hide Edit, Parse, Utf8.Encode, DocumentFields, SpanOf, TreeOf, TreeReplace, Segments, FromSegments, JsonTree.Valid,
      NodeAt;
    var out := Edit(source, path, replacement).value;
    var e := EditMeaning(source, path, replacement, out);
    var t, n := Derivation(source), Derivation(out);
    assert IsTarget(t, e, path);
    SameTarget(t, n, a, path);
    OtherTarget(t, n, a, path, b, other);
  }

  /** Nodes on different branches have disjoint spans. */
  lemma SpansApart(source: seq<byte>, a: Address, b: Address)
    requires IsDocument(source) && JsonTree.Valid(Derivation(source).root, a)
             && JsonTree.Valid(Derivation(source).root, b)
    requires !(a <= b) && !(b <= a)
    ensures var (x, y) := (SpanOf(source, Derivation(source), a), SpanOf(source, Derivation(source), b));
            x.end < y.start || y.end < x.start
  {
    hide Parse, Bytes, OffsetAt, NodeAt, HasBom, DocumentFields, Before;
    AddressCases(a, b);
    if Before(a, b) {
      DisjointPlaces(Derivation(source).root, a, b);
    } else {
      DisjointPlaces(Derivation(source).root, b, a);
    }
  }

  /** EDITS COMMUTE. Edits at two pointers, neither above the other, succeed in either order and give the
      same bytes. */
  lemma EditsCommute(source: seq<byte>, p: string, r: string, q: string, s: string)
    requires Edit(source, p, r).Ok? && Edit(source, q, s).Ok? && !Above(p, q) && !Above(q, p)
    ensures Edit(Edit(source, p, r).value, q, s).Ok?
    ensures Edit(Edit(source, p, r).value, q, s) == Edit(Edit(source, q, s).value, p, r)
  {
    hide Edit, Parse, Utf8.Encode, DocumentFields, SpanOf, Splice, Above, IsLiteral;
    var a := EditAt(source, p, r);
    var b := EditAt(source, q, s);
    var t := Derivation(source);
    if a <= b {
      BelowIsAbove(t.root, a, b);
    }
    if b <= a {
      BelowIsAbove(t.root, b, a);
    }
    SpansApart(source, a, b);
    AfterEdit(source, p, r, a, b, q);
    AfterEdit(source, q, s, b, a, p);
    var one, two := Edit(source, p, r).value, Edit(source, q, s).value;
    EditAtTarget(one, q, s, b);
    EditAtTarget(two, p, r, a);
    var x, y := SpanOf(source, t, a), SpanOf(source, t, b);
    if x.end < y.start {
      SplicesCommute(source, x.start, x.end, y.start, y.end, Utf8.Encode(r), Utf8.Encode(s));
    } else {
      SplicesCommute(source, y.start, y.end, x.start, x.end, Utf8.Encode(s), Utf8.Encode(r));
    }
  }

  // ---- the same pointer twice -----------------------------------------------

  /** The literal neither starts nor ends with JSON white space. */
  predicate Bare(b: seq<byte>) {
    b != [] && !IsWs(b[0]) && !IsWs(b[|b| - 1])
  }

  /** The last byte of a value is never white space. */
  lemma LastOfValue(v: Value)
    requires ValueOk(v)
    ensures var b := Bytes(v); b != [] && !IsWs(b[|b| - 1])
  {
    match v
    case Num(number) => LastOfNumber(number);
    case Str(text) =>
    case Blank(kind, gap) =>
    case Full(kind, items) =>
    case _ =>
  }

  lemma LastOfNumber(n: Number)
    requires NumberOk(n)
    ensures var b := NumberBytes(n); b != [] && !IsWs(b[|b| - 1])
  {
  }

  lemma BareText(t: Text)
    requires JsonOk(t)
    ensures Bare(JsonBytes(t)) <==> t.lead == [] && t.trail == []
  {
    hide Bytes, ValueOk;
    FirstOfValue(t.root);
    LastOfValue(t.root);
    var b, v := JsonBytes(t), Bytes(t.root);
    assert b[0] == if t.lead == [] then v[0] else t.lead[0];
    assert b[|b| - 1] == if t.trail == [] then v[|v| - 1] else t.trail[|t.trail| - 1];
  }

  /** After an edit the same pointer can always be edited again, and the second edit erases every trace of the
      first exactly when the first literal had no white space around it. */
  lemma LaterEditOverrides(source: seq<byte>, path: string, first: string, second: string)
    requires Edit(source, path, first).Ok? && IsLiteral(second)
    ensures var once := Edit(source, path, first).value;
            && Edit(source, path, second).Ok? && Edit(once, path, second).Ok?
            && (Edit(once, path, second) == Edit(source, path, second) <==> Bare(Utf8.Encode(first)))
  {
    hide Edit, Parse, Utf8.Encode, DocumentFields, TreeOf, TreeReplace, Segments, FromSegments, JsonTree.Valid, NodeAt,
      OffsetAt, Bytes, JsonBytes, Bare, HasBom;
    var once := Edit(source, path, first).value;
    var a := EditAt(source, path, first);
    var e := EditMeaning(source, path, first, once);
    var t, n := Derivation(source), Derivation(once);
    assert IsTarget(t, e, path);
    SameTarget(t, n, a, path);
    EditAtTarget(source, path, second, a);
    EditAtTarget(once, path, second, a);
    var r := Parse(Utf8.Encode(first)).value;
    ParseSound(Utf8.Encode(first));
    BareText(r);
    var was, now := SpanOf(source, t, a), SpanOf(once, n, a);
    TextSize(r);
    if r.lead == [] && r.trail == [] {
      SpliceOver(source, was.start, was.end, Utf8.Encode(first), Utf8.Encode(second));
    }
  }

  lemma TextSize(t: Text)
    ensures |JsonBytes(t)| == |t.lead| + |Bytes(t.root)| + |t.trail|
  {
  }
}
