/** The nodes of a derivation: their addresses, pointers (section 4 of RFC 6901) and byte spans, the
    fields a scanner should report, and the tree that is left when white space is forgotten. */
module JsonTree {
  import opened JsonGrammar
  import opened Path
  import opened Numerals

  // ---- keys -----------------------------------------------------------------

  /** The character a string symbol stands for (section 7 of RFC 8259); the null character for
      symbols that no string contains. */
  function SymChar(s: Sym): char {
    if !SymOk(s) then 0 as char
    else match s
    case Plain(c) => c
    case Short(letter) =>
      if letter == 0x62 then 8 as char
      else if letter == 0x66 then 12 as char
      else if letter == 0x6E then '\n'
      else if letter == 0x72 then '\r'
      else if letter == 0x74 then '\t'
      else letter as char
    case Unit(hex) => HexValue(hex) as char
    case Pair(high, low) => (0x1_0000 + (HexValue(high) - 0xD800) * 0x400 + (HexValue(low) - 0xDC00)) as char
  }

  function TextString(t: seq<Sym>): (s: string)
    ensures |s| == |t|
  {
    seq(|t|, k requires 0 <= k < |t| => SymChar(t[k]))
  }

  /** `usize::to_string`. */
  function Decimal(n: nat): string {
    (if n < 10 then [] else Decimal(n / 10)) + [(0x30 + n % 10) as char]
  }

  function Label(head: Head, index: nat): string {
    match head
    case Index => Decimal(index)
    case Name(text, _, _) => TextString(text)
  }

  // ---- children -------------------------------------------------------------

  function Count(items: Items): (n: nat)
    ensures n >= 1
  {
    match items
    case Last(_) => 1
    case More(_, rest) => 1 + Count(rest)
  }

  function ItemAt(items: Items, k: nat): (item: Item)
    requires k < Count(items)
    ensures item < items
  {
    if k == 0 then items.item else ItemAt(items.rest, k - 1)
  }

  /** Where item `k` starts, counted from the start of the items. */
  function ItemStart(items: Items, k: nat): nat
    requires k < Count(items)
  {
    if k == 0 then 0 else |ItemBytes(items.item)| + 1 + ItemStart(items.rest, k - 1)
  }

  lemma {:induction false} ItemAtOk(items: Items, kind: Kind, k: nat)
    requires ItemsOk(items, kind) && k < Count(items)
    ensures ItemOk(ItemAt(items, k), kind)
  {
    if k > 0 {
      ItemAtOk(items.rest, kind, k - 1);
    }
  }

  /** Where the value of an item starts, counted from the start of the item. */
  function ValueStart(item: Item): nat {
    |item.lead| + |HeadBytes(item.head)|
  }

  // ---- addresses: the path of child numbers from the root to a node ---------

  type Address = seq<nat>

  predicate Valid(v: Value, a: Address)
    decreases |a|
  {
    a == [] || (v.Full? && a[0] < Count(v.items) && Valid(ItemAt(v.items, a[0]).value, a[1..]))
  }

  function NodeAt(v: Value, a: Address): Value
    requires Valid(v, a)
    decreases |a|
  {
    if a == [] then v else NodeAt(ItemAt(v.items, a[0]).value, a[1..])
  }

  function OffsetAt(v: Value, a: Address): nat
    requires Valid(v, a)
    decreases |a|
  {
    if a == [] then 0
    else
      var item := ItemAt(v.items, a[0]);
      1 + ItemStart(v.items, a[0]) + ValueStart(item) + OffsetAt(item.value, a[1..])
  }

  function Segments(v: Value, a: Address): (s: seq<string>)
    requires Valid(v, a)
    ensures |s| == |a|
    decreases |a|
  {
    if a == [] then []
    else
      var item := ItemAt(v.items, a[0]);
      [Label(item.head, a[0])] + Segments(item.value, a[1..])
  }

  function Pointer(v: Value, a: Address): string
    requires Valid(v, a)
  {
    FromSegments(Segments(v, a))
  }

  /** All node addresses, children before their parent. */
  function PostOrder(v: Value): seq<Address>
    decreases v
  {
    (if v.Full? then ItemsPostOrder(v.items, 0) else []) + [[]]
  }

  function ItemsPostOrder(items: Items, k: nat): seq<Address>
    decreases items
  {
    Under(k, PostOrder(items.item.value)) + (if items.More? then ItemsPostOrder(items.rest, k + 1) else [])
  }

  function Under(k: nat, addresses: seq<Address>): (r: seq<Address>)
    ensures |r| == |addresses|
    ensures forall i | 0 <= i < |r| :: r[i] == [k] + addresses[i]
  {
    seq(|addresses|, i requires 0 <= i < |addresses| => [k] + addresses[i])
  }

  // ---- the fields a scan should report --------------------------------------

  datatype Field = Field(path: string, start: nat, end: nat)

  function ValueFields(v: Value, path: string, at: nat): seq<Field>
    decreases v
  {
    (if v.Full? then ItemsFields(v.items, path, 0, at + 1) else [])
    + (if path == [] then [] else [Field(path, at, at + |Bytes(v)|)])
  }

  function ItemsFields(items: Items, path: string, index: nat, at: nat): seq<Field>
    decreases items
  {
    var item := items.item;
    ValueFields(item.value, Append(path, Label(item.head, index)), at + ValueStart(item))
    + (if items.More? then ItemsFields(items.rest, path, index + 1, at + |ItemBytes(item)| + 1) else [])
  }

  // ---- one field per node, in post-order ------------------------------------

  function FieldOf(v: Value, a: Address, above: seq<string>, at: nat): Field
    requires Valid(v, a)
  {
    var start := at + OffsetAt(v, a);
    Field(FromSegments(above + Segments(v, a)), start, start + |Bytes(NodeAt(v, a))|)
  }

  /** Every address occurs exactly once in the post-order, and children come before their parent. */
  lemma {:induction false} PostOrderValid(v: Value)
    ensures forall i | 0 <= i < |PostOrder(v)| :: Valid(v, PostOrder(v)[i])
    ensures PostOrder(v)[|PostOrder(v)| - 1] == []
    ensures forall i | 0 <= i < |PostOrder(v)| - 1 :: PostOrder(v)[i] != []
    decreases v
  {
    if v.Full? {
      ItemsPostOrderValid(v.items, 0);
      var inner := ItemsPostOrder(v.items, 0);
      forall i | 0 <= i < |inner|
        ensures PostOrder(v)[i] == inner[i] && Valid(v, inner[i])
      {
      }
    }
  }

  /** The address of a node in the items, whose first number counts from `k`. */
  predicate ItemAddress(items: Items, k: nat, a: Address) {
    a != [] && k <= a[0] < k + Count(items) && Valid(ItemAt(items, a[0] - k).value, a[1..])
  }

  lemma FirstAddress(items: Items, k: nat, a: Address)
    requires Valid(items.item.value, a)
    ensures ItemAddress(items, k, [k] + a)
  {
    hide Valid;
    assert ([k] + a)[1..] == a;
  }

  lemma RestAddress(items: Items, k: nat, a: Address)
    requires items.More? && ItemAddress(items.rest, k + 1, a)
    ensures ItemAddress(items, k, a)
  {
    hide Valid;
    assert ItemAt(items, a[0] - k) == ItemAt(items.rest, a[0] - (k + 1));
  }

  /** The addresses of the first item's nodes come first. */
  lemma PostOrderSplit(items: Items, k: nat, i: nat)
    requires i < |ItemsPostOrder(items, k)|
    ensures var head := PostOrder(items.item.value);
            if i < |head| then ItemsPostOrder(items, k)[i] == [k] + head[i]
            else
              && items.More? && i - |head| < |ItemsPostOrder(items.rest, k + 1)|
              && ItemsPostOrder(items, k)[i] == ItemsPostOrder(items.rest, k + 1)[i - |head|]
  {
    hide PostOrder;
  }

  lemma {:induction false} ItemsPostOrderValid(items: Items, k: nat)
    ensures forall i | 0 <= i < |ItemsPostOrder(items, k)| :: ItemAddress(items, k, ItemsPostOrder(items, k)[i])
    decreases items
  {
    hide PostOrder, ItemsPostOrder, ItemAddress, Valid;
    var head := PostOrder(items.item.value);
    PostOrderValid(items.item.value);
    if items.More? {
      ItemsPostOrderValid(items.rest, k + 1);
    }
    forall i | 0 <= i < |ItemsPostOrder(items, k)|
      ensures ItemAddress(items, k, ItemsPostOrder(items, k)[i])
    {
      PostOrderSplit(items, k, i);
      if i < |head| {
        FirstAddress(items, k, head[i]);
      } else {
        RestAddress(items, k, ItemsPostOrder(items, k)[i]);
      }
    }
  }

  lemma {:induction false} PostOrderCovers(v: Value, a: Address)
    requires Valid(v, a)
    ensures a in PostOrder(v)
    decreases v
  {
    var order := PostOrder(v);
    if a == [] {
      assert order[|order| - 1] == [];
    } else {
      ItemsPostOrderCovers(v.items, 0, a);
    }
  }

  lemma {:induction false} ItemsPostOrderCovers(items: Items, k: nat, a: Address)
    requires ItemAddress(items, k, a)
    ensures a in ItemsPostOrder(items, k)
    decreases items
  {
    hide PostOrder, Valid;
    if a[0] == k {
      PostOrderCovers(items.item.value, a[1..]);
      assert a == [k] + a[1..];
      UnderHas(k, PostOrder(items.item.value), a[1..]);
    } else {
      assert ItemAt(items, a[0] - k) == ItemAt(items.rest, a[0] - (k + 1));
      ItemsPostOrderCovers(items.rest, k + 1, a);
    }
  }

  lemma UnderHas(k: nat, addresses: seq<Address>, a: Address)
    requires a in addresses
    ensures [k] + a in Under(k, addresses)
  {
    var i :| 0 <= i < |addresses| && addresses[i] == a;
    assert Under(k, addresses)[i] == [k] + a;
  }

  lemma {:induction false} PostOrderDistinct(v: Value, i: nat, j: nat)
    requires i < j < |PostOrder(v)|
    ensures PostOrder(v)[i] != PostOrder(v)[j]
    decreases v
  {
    PostOrderValid(v);
    if j < |PostOrder(v)| - 1 {
      ItemsPostOrderDistinct(v.items, 0, i, j);
    }
  }

  lemma {:induction false} ItemsPostOrderDistinct(items: Items, k: nat, i: nat, j: nat)
    requires i < j < |ItemsPostOrder(items, k)|
    ensures ItemsPostOrder(items, k)[i] != ItemsPostOrder(items, k)[j]
    decreases items
  {
    hide PostOrder, Valid;
    var head := PostOrder(items.item.value);
    if j < |head| {
      PostOrderDistinct(items.item.value, i, j);
      assert ([k] + head[i])[1..] == head[i] && ([k] + head[j])[1..] == head[j];
    } else if i >= |head| {
      ItemsPostOrderDistinct(items.rest, k + 1, i - |head|, j - |head|);
    } else {
      ItemsPostOrderValid(items.rest, k + 1);
      var later := ItemsPostOrder(items.rest, k + 1)[j - |head|];
      assert ItemAddress(items.rest, k + 1, later);
      assert later[0] > k && ([k] + head[i])[0] == k;
    }
  }

  lemma {:induction false} FieldsCount(v: Value, path: string, at: nat)
    ensures |ValueFields(v, path, at)| == |PostOrder(v)| - (if path == [] then 1 else 0)
    decreases v
  {
    hide Bytes, ItemsFields, ItemsPostOrder;
    if v.Full? {
      ItemsFieldsCount(v.items, path, 0, at + 1);
    }
  }

  lemma {:induction false} ItemsFieldsCount(items: Items, path: string, k: nat, at: nat)
    ensures |ItemsFields(items, path, k, at)| == |ItemsPostOrder(items, k)|
    decreases items
  {
    hide Bytes, ItemBytes, ValueStart, Label, Escape, FromSegments, ValueFields, PostOrder;
    FieldsCount(items.item.value, Append(path, Label(items.item.head, k)), at + ValueStart(items.item));
    if items.More? {
      ItemsFieldsCount(items.rest, path, k + 1, at + |ItemBytes(items.item)| + 1);
    }
  }

  /** The reported fields are the fields of the nodes in post-order; the root, whose path is empty,
      is the one node without a field. */
  lemma {:induction false} FieldIsPostOrder(v: Value, above: seq<string>, at: nat, i: nat)
    requires i < |PostOrder(v)| - (if above == [] then 1 else 0)
    ensures i < |ValueFields(v, FromSegments(above), at)| && Valid(v, PostOrder(v)[i])
    ensures ValueFields(v, FromSegments(above), at)[i] == FieldOf(v, PostOrder(v)[i], above, at)
    decreases v
  {
    hide Bytes, ItemBytes, Label, Escape, FromSegments, ItemStart, ItemsFields, ItemsPostOrder;
    FromSegmentsNonEmpty(above);
    FieldsCount(v, FromSegments(above), at);
    PostOrderValid(v);
    if i == |PostOrder(v)| - 1 {
      assert above + [] == above;
    } else {
      ItemsFieldIsPostOrder(v.items, above, 0, at + 1, i);
      var a := ItemsPostOrder(v.items, 0)[i];
      var item := ItemAt(v.items, a[0]);
      assert above + [Label(item.head, a[0])] + Segments(item.value, a[1..]) == above + Segments(v, a);
    }
  }

  /** `f` is the field of the node at `a`, whose first number counts items from `k`. */
  predicate FieldInItems(items: Items, above: seq<string>, k: nat, at: nat, a: Address, f: Field) {
    && a != [] && k <= a[0] < k + Count(items)
    && var item := ItemAt(items, a[0] - k);
       && Valid(item.value, a[1..])
       && f == FieldOf(item.value, a[1..], above + [Label(item.head, a[0])],
                       at + ItemStart(items, a[0] - k) + ValueStart(item))
  }

  lemma FieldInRest(items: Items, above: seq<string>, k: nat, at: nat, a: Address, f: Field)
    requires items.More? && FieldInItems(items.rest, above, k + 1, at + |ItemBytes(items.item)| + 1, a, f)
    ensures FieldInItems(items, above, k, at, a, f)
  {
    hide FieldOf, Label, ItemBytes, ValueStart, Valid;
    assert ItemAt(items.rest, a[0] - (k + 1)) == ItemAt(items, a[0] - k);
  }

  lemma FieldInFirst(items: Items, above: seq<string>, k: nat, at: nat, a: Address, f: Field)
    requires Valid(items.item.value, a)
    requires f == FieldOf(items.item.value, a, above + [Label(items.item.head, k)], at + ValueStart(items.item))
    ensures FieldInItems(items, above, k, at, [k] + a, f)
  {
    hide FieldOf, Label, ItemBytes, ValueStart, Valid;
    assert ([k] + a)[1..] == a;
  }

  /** And so do its fields. */
  lemma FieldsSplit(items: Items, path: string, k: nat, at: nat, i: nat)
    requires i < |ItemsFields(items, path, k, at)|
    ensures var item := items.item;
            var first := ValueFields(item.value, Append(path, Label(item.head, k)), at + ValueStart(item));
            var next := at + |ItemBytes(item)| + 1;
            if i < |first| then ItemsFields(items, path, k, at)[i] == first[i]
            else
              && items.More? && i - |first| < |ItemsFields(items.rest, path, k + 1, next)|
              && ItemsFields(items, path, k, at)[i] == ItemsFields(items.rest, path, k + 1, next)[i - |first|]
  {
    hide ValueFields, Label, ItemBytes, ValueStart;
  }

  lemma {:induction false} ItemsFieldIsPostOrder(items: Items, above: seq<string>, k: nat, at: nat, i: nat)
    requires i < |ItemsPostOrder(items, k)|
    ensures i < |ItemsFields(items, FromSegments(above), k, at)|
    ensures FieldInItems(items, above, k, at, ItemsPostOrder(items, k)[i],
                         ItemsFields(items, FromSegments(above), k, at)[i])
    decreases items
  {
    hide FieldOf, Valid, Label, Bytes, ItemBytes, Escape, FromSegments, ValueFields, PostOrder, ValueStart,
      FieldInItems, ItemsFields, ItemsPostOrder, Append;
    var first, path := items.item, FromSegments(above);
    var name := Label(first.head, k);
    var order := PostOrder(first.value);
    ItemsFieldsCount(items, path, k, at);
    AppendSegment(above, name);
    NeverRoot(above, name);
    FieldsCount(first.value, Append(path, name), at + ValueStart(first));
    PostOrderSplit(items, k, i);
    FieldsSplit(items, path, k, at, i);
    if i < |order| {
      FieldIsPostOrder(first.value, above + [name], at + ValueStart(first), i);
      FieldInFirst(items, above, k, at, order[i], ItemsFields(items, path, k, at)[i]);
    } else {
      ItemsFieldIsPostOrder(items.rest, above, k + 1, at + |ItemBytes(first)| + 1, i - |order|);
      FieldInRest(items, above, k, at, ItemsPostOrder(items, k)[i], ItemsFields(items, path, k, at)[i]);
    }
  }

  /** No child has the empty pointer. */
  lemma NeverRoot(above: seq<string>, name: string)
    ensures Append(FromSegments(above), name) != []
  {
  }

  lemma FromSegmentsNonEmpty(segments: seq<string>)
    ensures FromSegments(segments) == [] <==> segments == []
  {
  }

  // ---- documents without duplicate keys -------------------------------------

  ghost predicate LabelsDistinct(items: Items) {
    forall j, k | 0 <= j < k < Count(items) :: Label(ItemAt(items, j).head, j) != Label(ItemAt(items, k).head, k)
  }

  /** No object anywhere in the value has a key twice. */
  ghost predicate NoDuplicates(v: Value)
    decreases v
  {
    v.Full? ==>
      && (v.kind == Obj ==> LabelsDistinct(v.items))
      && forall k | 0 <= k < Count(v.items) :: NoDuplicates(ItemAt(v.items, k).value)
  }

  lemma {:induction false} DecimalValue(m: nat, n: nat)
    requires Decimal(m) == Decimal(n)
    ensures m == n
  {
    var x, y := Decimal(m), Decimal(n);
    assert x[|x| - 1] == y[|y| - 1] && x[..|x| - 1] == y[..|y| - 1];
    assert m % 10 == n % 10;
    var high, low := if m < 10 then [] else Decimal(m / 10), if n < 10 then [] else Decimal(n / 10);
    assert x[..|x| - 1] == high && y[..|y| - 1] == low;
    NotEmpty(m / 10);
    NotEmpty(n / 10);
    if m >= 10 {
      DecimalValue(m / 10, n / 10);
    }
  }

  /** The label of an element, read back, is its index. */
  lemma {:induction false} DecimalReads(n: nat)
    ensures IsShortest(Decimal(n)) && Reading(Decimal(n)) == n
  {
    hide IsDecimalDigit;
    LastDigit(n);
    var s := Decimal(n);
    ReadLast(0, s);
    if n >= 10 {
      DecimalReads(n / 10);
      var high := Decimal(n / 10);
      assert s[..|s| - 1] == high && s[0] == high[0];
      if high[0] == '0' {
        ReadLast(0, high);
        assert false;
      }
    }
  }

  lemma LastDigit(n: nat)
    ensures var c := (0x30 + n % 10) as char; IsDecimalDigit(c) && c as int - '0' as int == n % 10
  {
  }

  /** And there is no other numeral for it. */
  lemma {:induction false} DecimalOfReading(s: string)
    requires IsShortest(s)
    ensures Reading(s) >= 0 && Decimal(Reading(s)) == s
  {
    hide IsDecimalDigit;
    ReadingSign(s);
    ReadLast(0, s);
    DigitRange(s[|s| - 1]);
    if |s| > 1 {
      var high := s[..|s| - 1];
      ReadingSign(high);
      DecimalOfReading(high);
    }
  }

  lemma NotEmpty(n: nat)
    ensures Decimal(n) != []
  {
  }

  /** Two children of one container have different labels. */
  lemma SameLabel(v: Value, j: nat, k: nat)
    requires ValueOk(v) && NoDuplicates(v) && v.Full? && j < Count(v.items) && k < Count(v.items)
    requires Label(ItemAt(v.items, j).head, j) == Label(ItemAt(v.items, k).head, k)
    ensures j == k
  {
    ItemAtOk(v.items, v.kind, j);
    ItemAtOk(v.items, v.kind, k);
    if v.kind == Arr {
      DecimalValue(j, k);
    }
  }

  /** Without duplicate keys different nodes have different pointers. */
  lemma {:induction false} PointersDistinct(v: Value, a: Address, b: Address)
    requires ValueOk(v) && NoDuplicates(v) && Valid(v, a) && Valid(v, b) && Segments(v, a) == Segments(v, b)
    ensures a == b
    decreases |a|
  {
    if a != [] {
      hide NoDuplicates, Label;
      var (s, t) := (Segments(v, a), Segments(v, b));
      assert s[0] == t[0] && s[1..] == t[1..];
      SameLabel(v, a[0], b[0]);
      var child := ItemAt(v.items, a[0]).value;
      ChildFine(v, a[0]);
      assert s[1..] == Segments(child, a[1..]) && t[1..] == Segments(child, b[1..]);
      PointersDistinct(child, a[1..], b[1..]);
      assert a == [a[0]] + a[1..] && b == [b[0]] + b[1..];
    }
  }

  lemma ChildFine(v: Value, k: nat)
    requires ValueOk(v) && NoDuplicates(v) && v.Full? && k < Count(v.items)
    ensures ValueOk(ItemAt(v.items, k).value) && NoDuplicates(ItemAt(v.items, k).value)
  {
    ItemAtOk(v.items, v.kind, k);
  }
}
