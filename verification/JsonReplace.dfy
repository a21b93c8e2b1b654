/** Replacing one node of a derivation: the result is again a derivation, its bytes are the old bytes
    with one span replaced, and every other node keeps its pointer and its span up to a shift. */
module JsonReplace {
  import opened Wrappers
  import opened Utf8
  import opened Document
  import opened JsonGrammar
  import opened JsonStrict
  import opened JsonTree

  // ---- where nodes are ------------------------------------------------------

  lemma {:induction false} ItemPlace(b: seq<byte>, i: nat, items: Items, k: nat)
    requires At(b, i, ItemsBytes(items)) && k < Count(items)
    ensures At(b, i + ItemStart(items, k), ItemBytes(ItemAt(items, k)))
    ensures ItemStart(items, k) + |ItemBytes(ItemAt(items, k))| <= |ItemsBytes(items)|
    decreases items
  {
    hide At, ItemBytes;
    if items.More? {
      At3(b, i, ItemBytes(items.item), [COMMA], ItemsBytes(items.rest));
      if k > 0 {
        ItemPlace(b, i + |ItemBytes(items.item)| + 1, items.rest, k - 1);
      }
    }
  }

  /** The bytes at a node's span are the bytes of that node. */
  lemma {:induction false} NodePlace(b: seq<byte>, i: nat, v: Value, a: Address)
    requires At(b, i, Bytes(v)) && JsonTree.Valid(v, a)
    ensures At(b, i + OffsetAt(v, a), Bytes(NodeAt(v, a)))
    ensures OffsetAt(v, a) + |Bytes(NodeAt(v, a))| <= |Bytes(v)|
    decreases |a|
  {
    hide At, ItemsBytes, HeadBytes;
    if a != [] {
      var item := ItemAt(v.items, a[0]);
      var at := i + 1 + ItemStart(v.items, a[0]);
      BracketsAt(b, i, v.kind, ItemsBytes(v.items));
      ItemPlace(b, i + 1, v.items, a[0]);
      At4(b, at, item.lead, HeadBytes(item.head), Bytes(item.value), item.trail);
      NodePlace(b, at + ValueStart(item), item.value, a[1..]);
    }
  }

  /** A descendant's span lies within its ancestor's. */
  lemma {:induction false} DescendantPlace(v: Value, a: Address, c: Address)
    requires JsonTree.Valid(v, a) && JsonTree.Valid(NodeAt(v, a), c)
    ensures JsonTree.Valid(v, a + c) && NodeAt(v, a + c) == NodeAt(NodeAt(v, a), c)
    ensures OffsetAt(v, a + c) == OffsetAt(v, a) + OffsetAt(NodeAt(v, a), c)
    ensures OffsetAt(v, a) <= OffsetAt(v, a + c)
    ensures OffsetAt(v, a + c) + |Bytes(NodeAt(v, a + c))| <= OffsetAt(v, a) + |Bytes(NodeAt(v, a))|
    decreases |a|
  {
    hide At, Bytes, ItemBytes, ValueStart;
    if a == [] {
      assert a + c == c;
      AtWhole(Bytes(v));
      NodePlace(Bytes(v), 0, v, c);
    } else {
      assert (a + c)[1..] == a[1..] + c;
      DescendantPlace(ItemAt(v.items, a[0]).value, a[1..], c);
    }
  }

  lemma AtWhole(b: seq<byte>)
    ensures At(b, 0, b)
  {
  }

  /** Of two different children, the earlier ends before the later starts. */
  lemma {:induction false} ItemsInOrder(items: Items, j: nat, k: nat)
    requires j < k < Count(items)
    ensures ItemStart(items, j) + |ItemBytes(ItemAt(items, j))| < ItemStart(items, k)
    decreases items
  {
    hide ItemBytes;
    if j > 0 {
      ItemsInOrder(items.rest, j - 1, k - 1);
    }
  }

  predicate Before(a: Address, c: Address)
    decreases |a|
  {
    a != [] && c != [] && (a[0] < c[0] || (a[0] == c[0] && Before(a[1..], c[1..])))
  }

  /** Two addresses are on one path, or one of them is before the other. */
  lemma {:induction false} AddressCases(a: Address, c: Address)
    ensures a <= c || c <= a || Before(a, c) || Before(c, a)
    decreases |a|
  {
    if a != [] && c != [] && a[0] == c[0] {
      AddressCases(a[1..], c[1..]);
      assert a == [a[0]] + a[1..] && c == [c[0]] + c[1..];
    }
  }

  /** Nodes that are not on one path have disjoint spans, in document order. */
  lemma {:induction false} DisjointPlaces(v: Value, a: Address, c: Address)
    requires JsonTree.Valid(v, a) && JsonTree.Valid(v, c) && Before(a, c)
    ensures OffsetAt(v, a) + |Bytes(NodeAt(v, a))| < OffsetAt(v, c)
    decreases |a|
  {
    hide At, Bytes, HeadBytes;
    var i, j := ItemAt(v.items, a[0]), ItemAt(v.items, c[0]);
    if a[0] == c[0] {
      DisjointPlaces(i.value, a[1..], c[1..]);
    } else {
      AtWhole(Bytes(i.value));
      NodePlace(Bytes(i.value), 0, i.value, a[1..]);
      ItemsInOrder(v.items, a[0], c[0]);
    }
  }

  // ---- the replacement ------------------------------------------------------

  /** The item with its value replaced by a JSON text, whose own outer white space joins the item's. */
  function PutText(item: Item, t: Text): Item {
    match item.head
    case Index => Item(item.lead + t.lead, Index, t.root, t.trail + item.trail)
    case Name(text, gap, lead) => Item(item.lead, Name(text, gap, lead + t.lead), t.root, t.trail + item.trail)
  }

  function SetItem(items: Items, k: nat, item: Item): Items
    requires k < Count(items)
  {
    if k > 0 then More(items.item, SetItem(items.rest, k - 1, item))
    else if items.More? then More(item, items.rest)
    else Last(item)
  }

  function ReplaceAt(v: Value, a: Address, t: Text): (r: Value)
    requires JsonTree.Valid(v, a) && a != []
    ensures r.Full? && r.kind == v.kind
    decreases |a|, 1
  {
    v.(items := SetItem(v.items, a[0], NextItem(ItemAt(v.items, a[0]), a, t)))
  }

  /** The item that holds the replaced node, afterwards. */
  function NextItem(item: Item, a: Address, t: Text): Item
    requires a != [] && JsonTree.Valid(item.value, a[1..])
    decreases |a|, 0
  {
    if |a| == 1 then PutText(item, t) else item.(value := ReplaceAt(item.value, a[1..], t))
  }

  lemma {:induction false} SetItemFacts(items: Items, k: nat, item: Item, kind: Kind)
    requires k < Count(items)
    ensures Count(SetItem(items, k, item)) == Count(items)
    ensures forall j | 0 <= j < Count(items) ::
              ItemAt(SetItem(items, k, item), j) == if j == k then item else ItemAt(items, j)
    ensures forall j | 0 <= j < Count(items) ::
              ItemStart(SetItem(items, k, item), j)
              == ItemStart(items, j) + if j > k then |ItemBytes(item)| - |ItemBytes(ItemAt(items, k))| else 0
    ensures ItemsOk(items, kind) && ItemOk(item, kind) ==> ItemsOk(SetItem(items, k, item), kind)
    decreases items
  {
    hide ItemBytes, ItemOk;
    if k > 0 {
      SetItemFacts(items.rest, k - 1, item, kind);
    } else {
      forall j | 0 <= j < Count(items)
        ensures ItemStart(SetItem(items, k, item), j)
                == ItemStart(items, j) + if j > k then |ItemBytes(item)| - |ItemBytes(items.item)| else 0
      {
      }
    }
  }

  lemma {:induction false} SetItemBytes(items: Items, k: nat, item: Item)
    requires k < Count(items)
    ensures ItemStart(items, k) + |ItemBytes(ItemAt(items, k))| <= |ItemsBytes(items)|
    ensures ItemsBytes(SetItem(items, k, item))
            == Splice(ItemsBytes(items), ItemStart(items, k), ItemStart(items, k) + |ItemBytes(ItemAt(items, k))|,
                      ItemBytes(item))
    decreases items
  {
    hide ItemBytes, Splice;
    var first := ItemBytes(items.item);
    if k == 0 {
      if items.More? {
        SpliceMiddle([], first, [COMMA] + ItemsBytes(items.rest), ItemBytes(item));
        assert [] + (first + ([COMMA] + ItemsBytes(items.rest))) == ItemsBytes(items);
        assert [] + (ItemBytes(item) + ([COMMA] + ItemsBytes(items.rest))) == ItemsBytes(SetItem(items, k, item));
      } else {
        SpliceMiddle([], first, [], ItemBytes(item));
        assert [] + (first + []) == first && [] + (ItemBytes(item) + []) == ItemBytes(item);
      }
    } else {
      SetItemBytes(items.rest, k - 1, item);
      var start := ItemStart(items.rest, k - 1);
      var end := start + |ItemBytes(ItemAt(items, k))|;
      SpliceRight(first + [COMMA], ItemsBytes(items.rest), start, end, ItemBytes(item));
      assert first + [COMMA] + ItemsBytes(items.rest) == ItemsBytes(items);
      assert first + [COMMA] + ItemsBytes(SetItem(items.rest, k - 1, item)) == ItemsBytes(SetItem(items, k, item));
    }
  }

  lemma PutTextBytes(item: Item, t: Text)
    ensures ItemBytes(PutText(item, t))
            == Splice(ItemBytes(item), ValueStart(item), ValueStart(item) + |Bytes(item.value)|, JsonBytes(t))
  {
    hide Bytes, Splice, StringBytes;
    var head := HeadBytes(item.head);
    SpliceMiddle(item.lead + head, Bytes(item.value), item.trail, JsonBytes(t));
    Regroup(item.lead, head, Bytes(item.value), item.trail);
    match item.head
    case Index =>
      RegroupIndex(item.lead, t.lead, Bytes(t.root), t.trail, item.trail);
    case Name(text, gap, lead) =>
      RegroupName(item.lead, StringBytes(text), gap, lead, t.lead, Bytes(t.root), t.trail, item.trail);
  }

  lemma Regroup(x: seq<byte>, y: seq<byte>, z: seq<byte>, w: seq<byte>)
    ensures x + y + (z + w) == x + (y + (z + w))
  {
  }

  lemma RegroupIndex(lead: seq<byte>, inner: seq<byte>, v: seq<byte>, after: seq<byte>, trail: seq<byte>)
    ensures lead + inner + ([] + (v + (after + trail))) == lead + [] + (inner + (v + after) + trail)
  {
  }

  lemma RegroupName(lead: seq<byte>, name: seq<byte>, gap: seq<byte>, space: seq<byte>, inner: seq<byte>, v: seq<byte>,
                    after: seq<byte>, trail: seq<byte>)
    ensures lead + (name + (gap + ([COLON] + (space + inner))) + (v + (after + trail)))
            == lead + (name + (gap + ([COLON] + space))) + (inner + (v + after) + trail)
  {
    var head := name + (gap + ([COLON] + space));
    assert name + (gap + ([COLON] + (space + inner))) == head + inner;
    assert head + inner + (v + (after + trail)) == head + (inner + (v + after) + trail);
  }

  lemma PutValueBytes(item: Item, v: Value, start: nat, end: nat, r: seq<byte>)
    requires start <= end <= |Bytes(item.value)| && Bytes(v) == Splice(Bytes(item.value), start, end, r)
    ensures ItemBytes(item.(value := v)) == Splice(ItemBytes(item), ValueStart(item) + start, ValueStart(item) + end, r)
  {
    hide Bytes, Splice, HeadBytes;
    var head := HeadBytes(item.head);
    SpliceWithin(item.lead + head, Bytes(item.value), item.trail, start, end, r);
    assert item.lead + head + (Bytes(item.value) + item.trail) == ItemBytes(item);
    assert item.lead + head + (Bytes(v) + item.trail) == ItemBytes(item.(value := v));
  }

  lemma SpliceSplice(b: seq<byte>, s: nat, e: nat, i: nat, j: nat, m: seq<byte>, r: seq<byte>)
    requires s <= e <= |b| && b[s..e] == m && i <= j <= |m|
    ensures Splice(b, s, e, Splice(m, i, j, r)) == Splice(b, s + i, s + j, r)
  {
    assert b == b[..s] + (m + b[e..]);
    SpliceWithin(b[..s], m, b[e..], i, j, r);
    SpliceMiddle(b[..s], m, b[e..], Splice(m, i, j, r));
  }

  /** The bytes of the new derivation are the old bytes with the node's span replaced by the text. */
  lemma {:induction false} ReplaceBytes(v: Value, a: Address, t: Text)
    requires JsonTree.Valid(v, a) && a != []
    ensures OffsetAt(v, a) + |Bytes(NodeAt(v, a))| <= |Bytes(v)|
    ensures Bytes(ReplaceAt(v, a, t))
            == Splice(Bytes(v), OffsetAt(v, a), OffsetAt(v, a) + |Bytes(NodeAt(v, a))|, JsonBytes(t))
    decreases |a|, 1
  {
    hide JsonBytes, ItemBytes, ItemsBytes, Splice, Bytes, NextItem, SetItem, ItemAt, ValueStart, ItemStart;
    var item := ItemAt(v.items, a[0]);
    var i := OffsetAt(item.value, a[1..]);
    NextItemBytes(item, a, t);
    ReplaceInItems(v, a[0], NextItem(item, a, t), ValueStart(item) + i, ValueStart(item) + i + |Bytes(NodeAt(v, a))|,
                   JsonBytes(t));
  }

  /** The same for the item in which the node is replaced. */
  lemma {:induction false} NextItemBytes(item: Item, a: Address, t: Text)
    requires a != [] && JsonTree.Valid(item.value, a[1..])
    ensures var from := ValueStart(item) + OffsetAt(item.value, a[1..]);
            var to := from + |Bytes(NodeAt(item.value, a[1..]))|;
            to <= |ItemBytes(item)| && ItemBytes(NextItem(item, a, t))
              == Splice(ItemBytes(item), from, to, JsonBytes(t))
    decreases |a|, 0
  {
    hide JsonBytes, ItemBytes, Bytes, Splice, At, ValueStart;
    AtWhole(Bytes(item.value));
    NodePlace(Bytes(item.value), 0, item.value, a[1..]);
    ItemSize(item);
    if |a| == 1 {
      PutTextBytes(item, t);
    } else {
      ReplaceBytes(item.value, a[1..], t);
      var i := OffsetAt(item.value, a[1..]);
      PutValueBytes(item, ReplaceAt(item.value, a[1..], t), i, i + |Bytes(NodeAt(item.value, a[1..]))|, JsonBytes(t));
    }
  }

  lemma ItemSize(item: Item)
    ensures ValueStart(item) + |Bytes(item.value)| <= |ItemBytes(item)|
  {
  }

  lemma ItemSlice(items: Items, k: nat)
    requires k < Count(items)
    ensures var s := ItemStart(items, k);
            var e := s + |ItemBytes(ItemAt(items, k))|;
            e <= |ItemsBytes(items)| && ItemsBytes(items)[s..e] == ItemBytes(ItemAt(items, k))
  {
    hide ItemsBytes, ItemBytes;
    AtWhole(ItemsBytes(items));
    ItemPlace(ItemsBytes(items), 0, items, k);
  }

  lemma ReplaceInside(items: Items, k: nat, next: Item, from: nat, to: nat, r: seq<byte>)
    requires k < Count(items) && from <= to <= |ItemBytes(ItemAt(items, k))|
    requires ItemBytes(next) == Splice(ItemBytes(ItemAt(items, k)), from, to, r)
    ensures ItemStart(items, k) + to <= |ItemsBytes(items)|
    ensures ItemsBytes(SetItem(items, k, next))
            == Splice(ItemsBytes(items), ItemStart(items, k) + from, ItemStart(items, k) + to, r)
  {
    hide ItemBytes, ItemsBytes, Splice;
    var s := ItemStart(items, k);
    ItemSlice(items, k);
    SetItemBytes(items, k, next);
    SpliceSplice(ItemsBytes(items), s, s + |ItemBytes(ItemAt(items, k))|, from, to, ItemBytes(ItemAt(items, k)), r);
  }

  lemma ReplaceInItems(v: Value, k: nat, next: Item, from: nat, to: nat, r: seq<byte>)
    requires v.Full? && k < Count(v.items) && from <= to <= |ItemBytes(ItemAt(v.items, k))|
    requires ItemBytes(next) == Splice(ItemBytes(ItemAt(v.items, k)), from, to, r)
    ensures var s := 1 + ItemStart(v.items, k);
            && s + to <= |Bytes(v)|
            && Bytes(v.(items := SetItem(v.items, k, next))) == Splice(Bytes(v), s + from, s + to, r)
  {
    hide ItemBytes, ItemsBytes, Splice, Open, Close, ItemAt, SetItem;
    var s := ItemStart(v.items, k);
    ReplaceInside(v.items, k, next, from, to, r);
    SpliceWithin([Open(v.kind)], ItemsBytes(v.items), [Close(v.kind)], s + from, s + to, r);
  }

  /** The new tree is a derivation again. */
  lemma {:induction false} ReplaceOk(v: Value, a: Address, t: Text)
    requires ValueOk(v) && JsonOk(t) && JsonTree.Valid(v, a) && a != []
    ensures ValueOk(ReplaceAt(v, a, t))
    decreases |a|
  {
    hide TextOk, AllWs, ItemsOk;
    var item := ItemAt(v.items, a[0]);
    ItemAtOk(v.items, v.kind, a[0]);
    assert ItemOk(NextItem(item, a, t), v.kind) by {
      if |a| == 1 {
        WsConcat(item.lead, t.lead);
        WsConcat(t.trail, item.trail);
        if item.head.Name? {
          WsConcat(item.head.lead, t.lead);
        }
      } else {
        ReplaceOk(item.value, a[1..], t);
      }
    }
    SetItemFacts(v.items, a[0], NextItem(item, a, t), v.kind);
  }

  lemma WsConcat(x: seq<byte>, y: seq<byte>)
    ensures AllWs(x) && AllWs(y) ==> AllWs(x + y)
  {
  }

  // ---- what happens to the nodes --------------------------------------------

  function Delta(v: Value, a: Address, t: Text): int
    requires JsonTree.Valid(v, a)
  {
    |JsonBytes(t)| - |Bytes(NodeAt(v, a))|
  }

  /** A node off the path to `a` is untouched: it keeps its pointer and its bytes, and moves by the
      length difference exactly when it comes later. A node above `a` grows by the difference. */
  lemma {:induction false} OtherNodes(v: Value, a: Address, t: Text, c: Address)
    requires JsonTree.Valid(v, a) && a != [] && !(a <= c)
    ensures var n := ReplaceAt(v, a, t);
            && (JsonTree.Valid(v, c) <==> JsonTree.Valid(n, c))
            && (JsonTree.Valid(v, c) ==> KeptNode(v, n, a, c, Delta(v, a, t)))
    decreases |a|
  {
    hide JsonBytes, Bytes, NextItem, SetItem, KeptNode, Delta;
    var n := ReplaceAt(v, a, t);
    if c == [] {
      RootGrows(v, a, t);
    } else {
      var item := ItemAt(v.items, a[0]);
      SetItemFacts(v.items, a[0], NextItem(item, a, t), v.kind);
      ItemGrows(v, a, t);
      if c[0] != a[0] {
        OtherItem(v, a, t, c);
      } else {
        SameHead(a, c);
        OtherNodes(item.value, a[1..], t, c[1..]);
        SameItem(v, a, t, c);
      }
    }
  }

  /** How the node at `c` of `v` is found again in `n`, in which the node at `a` is `delta` longer. */
  predicate KeptNode(v: Value, n: Value, a: Address, c: Address, delta: int)
    requires JsonTree.Valid(v, c) && JsonTree.Valid(n, c)
  {
    && Segments(n, c) == Segments(v, c)
    && OffsetAt(n, c) == OffsetAt(v, c) + (if Before(a, c) then delta else 0)
    && (if c <= a then |Bytes(NodeAt(n, c))| == |Bytes(NodeAt(v, c))| + delta else NodeAt(n, c) == NodeAt(v, c))
  }

  lemma SameHead(a: Address, c: Address)
    requires a != [] && c != [] && a[0] == c[0] && !(a <= c)
    ensures |a| > 1 && !(a[1..] <= c[1..])
  {
    assert a == [a[0]] + a[1..] && c == [c[0]] + c[1..];
  }

  lemma SpliceLength(b: seq<byte>, start: nat, end: nat, r: seq<byte>)
    requires start <= end <= |b|
    ensures |Splice(b, start, end, r)| == |b| - (end - start) + |r|
  {
  }

  lemma RootGrows(v: Value, a: Address, t: Text)
    requires JsonTree.Valid(v, a) && a != []
    ensures KeptNode(v, ReplaceAt(v, a, t), a, [], Delta(v, a, t))
  {
    hide JsonBytes, Bytes, Splice, ReplaceAt;
    ReplaceBytes(v, a, t);
    SpliceLength(Bytes(v), OffsetAt(v, a), OffsetAt(v, a) + |Bytes(NodeAt(v, a))|, JsonBytes(t));
  }

  lemma ItemGrows(v: Value, a: Address, t: Text)
    requires JsonTree.Valid(v, a) && a != []
    ensures var item := ItemAt(v.items, a[0]); |ItemBytes(NextItem(item, a, t))| == |ItemBytes(item)| + Delta(v, a, t)
  {
    hide JsonBytes, Bytes, Splice, NextItem, ItemBytes, ValueStart;
    var item := ItemAt(v.items, a[0]);
    NextItemBytes(item, a, t);
    var from := ValueStart(item) + OffsetAt(item.value, a[1..]);
    SpliceLength(ItemBytes(item), from, from + |Bytes(NodeAt(item.value, a[1..]))|, JsonBytes(t));
  }

  /** In another item than the changed one. */
  lemma OtherItem(v: Value, a: Address, t: Text, c: Address)
    requires JsonTree.Valid(v, a) && a != [] && c != [] && c[0] != a[0]
    requires var (next, item) := (NextItem(ItemAt(v.items, a[0]), a, t), ItemAt(v.items, a[0]));
             var items' := SetItem(v.items, a[0], next);
             && Count(items') == Count(v.items) && |ItemBytes(next)| == |ItemBytes(item)| + Delta(v, a, t)
             && (c[0] < Count(v.items) ==>
                   && ItemAt(items', c[0]) == ItemAt(v.items, c[0])
                   && ItemStart(items', c[0])
                      == ItemStart(v.items, c[0]) + if c[0] > a[0] then |ItemBytes(next)| - |ItemBytes(item)| else 0)
    ensures var n := ReplaceAt(v, a, t);
            && (JsonTree.Valid(v, c) <==> JsonTree.Valid(n, c))
            && (JsonTree.Valid(v, c) ==> KeptNode(v, n, a, c, Delta(v, a, t)))
  {
    hide JsonBytes, Bytes, NextItem, SetItem, ItemBytes, HeadBytes, Label, Delta, ValueStart;
  }

  /** In the changed item. */
  lemma SameItem(v: Value, a: Address, t: Text, c: Address)
    requires JsonTree.Valid(v, a) && |a| > 1 && c != [] && c[0] == a[0]
    requires var (next, item) := (NextItem(ItemAt(v.items, a[0]), a, t), ItemAt(v.items, a[0]));
             var items' := SetItem(v.items, a[0], next);
             Count(items') == Count(v.items) && ItemAt(items', a[0]) == next
               && ItemStart(items', a[0]) == ItemStart(v.items, a[0])
    requires var item := ItemAt(v.items, a[0]);
             var inner := ReplaceAt(item.value, a[1..], t);
             && (JsonTree.Valid(item.value, c[1..]) <==> JsonTree.Valid(inner, c[1..]))
             && (JsonTree.Valid(item.value, c[1..]) ==>
                   KeptNode(item.value, inner, a[1..], c[1..], Delta(item.value, a[1..], t)))
    ensures var n := ReplaceAt(v, a, t);
            && (JsonTree.Valid(v, c) <==> JsonTree.Valid(n, c))
            && (JsonTree.Valid(v, c) ==> KeptNode(v, n, a, c, Delta(v, a, t)))
  {
    hide JsonBytes, Bytes, SetItem, ItemBytes, HeadBytes, Label;
    assert a == [a[0]] + a[1..] && c == [c[0]] + c[1..];
    assert c <= a <==> c[1..] <= a[1..];
  }

  /** The node at `a` becomes the text's value; only the text's leading white space comes before it. */
  lemma {:induction false} NewNode(v: Value, a: Address, t: Text)
    requires JsonTree.Valid(v, a) && a != []
    ensures var n := ReplaceAt(v, a, t);
            && JsonTree.Valid(n, a) && NodeAt(n, a) == t.root
            && Segments(n, a) == Segments(v, a)
            && OffsetAt(n, a) == OffsetAt(v, a) + |t.lead|
    decreases |a|
  {
    hide Bytes, ItemBytes, ItemsOk, ItemOk, Splice, StringBytes;
    SetItemFacts(v.items, a[0], NextItem(ItemAt(v.items, a[0]), a, t), v.kind);
    if |a| > 1 {
      NewNode(ItemAt(v.items, a[0]).value, a[1..], t);
    }
  }

  // ---- the tree without white space -----------------------------------------

  /** The syntactic tree: kinds, ordered children with their keys, and scalars. */
  datatype Tree = Leaf(scalar: Value) | Branch(kind: Kind, children: seq<Child>)

  datatype Child = Child(key: Option<seq<Sym>>, tree: Tree)

  function TreeOf(v: Value): Tree
    decreases v
  {
    match v
    case Blank(kind, _) => Branch(kind, [])
    case Full(kind, items) => Branch(kind, Children(items))
    case _ => Leaf(v)
  }

  function Children(items: Items): (r: seq<Child>)
    ensures |r| == Count(items)
    decreases items
  {
    [Child(KeyOf(items.item.head), TreeOf(items.item.value))] + if items.More? then Children(items.rest) else []
  }

  function KeyOf(head: Head): Option<seq<Sym>> {
    if head.Index? then None else Some(head.text)
  }

  /** The tree with the node at `a` exchanged for `r`. */
  function TreeReplace(t: Tree, a: Address, r: Tree): Tree
    decreases |a|
  {
    if a == [] then r
    else if t.Leaf? || a[0] >= |t.children| then t
    else t.(children := t.children[a[0] := t.children[a[0]].(tree := TreeReplace(t.children[a[0]].tree, a[1..], r))])
  }

  lemma {:induction false} ChildrenAt(items: Items, k: nat)
    requires k < Count(items)
    ensures Children(items)[k] == Child(KeyOf(ItemAt(items, k).head), TreeOf(ItemAt(items, k).value))
    decreases items
  {
    if k > 0 {
      ChildrenAt(items.rest, k - 1);
    }
  }

  lemma {:induction false} ChildrenSet(items: Items, k: nat, item: Item)
    requires k < Count(items)
    ensures Children(SetItem(items, k, item)) == Children(items)[k := Child(KeyOf(item.head), TreeOf(item.value))]
    decreases items
  {
    if k > 0 {
      ChildrenSet(items.rest, k - 1, item);
    }
  }

  /** Replacing in the derivation exchanges exactly that node of the tree. */
  lemma {:induction false} ReplaceTree(v: Value, a: Address, t: Text)
    requires JsonTree.Valid(v, a) && a != []
    ensures TreeOf(ReplaceAt(v, a, t)) == TreeReplace(TreeOf(v), a, TreeOf(t.root))
    decreases |a|
  {
    var k := a[0];
    var item := ItemAt(v.items, k);
    ChildrenAt(v.items, k);
    ChildrenSet(v.items, k, NextItem(item, a, t));
    if |a| > 1 {
      ReplaceTree(item.value, a[1..], t);
    } else {
      assert TreeReplace(TreeOf(item.value), a[1..], TreeOf(t.root)) == TreeOf(t.root);
    }
  }
}
