/** The walk over a YAML event list (`mihomo.rs`): skipping a node, and collecting what the root mapping says
    under `mixed-port`; exact with respect to the trees that the events flatten. */
module YamlEvents {
  import opened Wrappers

  datatype Tag = Tag(handle: string, suffix: string)

  datatype Event =
    | Scalar(value: string, plain: bool, tag: Option<Tag>)
    | Alias
    | SequenceStart
    | SequenceEnd
    | MappingStart
    | MappingEnd
    | DocumentStart
    | Marker

  /** A node as a tree. */
  datatype Node =
    | ScalarNode(value: string, plain: bool, tag: Option<Tag>)
    | AliasNode
    | SequenceNode(items: seq<Node>)
    | MappingNode(pairs: seq<Pair>)

  datatype Pair = Pair(key: Node, value: Node)

  function Flatten(n: Node): (r: seq<Event>)
    ensures |r| >= 1
    decreases n, 1
  {
    match n
    case ScalarNode(value, plain, tag) => [Scalar(value, plain, tag)]
    case AliasNode => [Alias]
    case SequenceNode(items) => [SequenceStart] + FlattenItems(items) + [SequenceEnd]
    case MappingNode(pairs) => [MappingStart] + FlattenPairs(pairs) + [MappingEnd]
  }

  function FlattenItems(items: seq<Node>): seq<Event>
    decreases items, 0
  {
    if items == [] then [] else Flatten(items[0]) + FlattenItems(items[1..])
  }

  function FlattenPairs(pairs: seq<Pair>): seq<Event>
    decreases pairs, 0
  {
    if pairs == [] then [] else FlattenPair(pairs[0]) + FlattenPairs(pairs[1..])
  }

  function FlattenPair(pair: Pair): seq<Event>
    decreases pair, 2
  {
    Flatten(pair.key) + Flatten(pair.value)
  }

  // ---- skipping -------------------------------------------------------------

  const NO_NODE := "expected a YAML node"
  const NO_SEQUENCE_END := "sequence did not end"
  const NO_MAPPING_END := "mapping did not end"

  function Skip(events: seq<Event>, index: nat): (r: Result<nat, string>)
    ensures r.Ok? ==> index < r.value <= |events|
    decreases |events| - index, 0
  {
    if index >= |events| then Err(NO_NODE)
    else
      match events[index]
      case Scalar(_, _, _) => Ok(index + 1)
      case Alias => Ok(index + 1)
      case SequenceStart => SkipItems(events, index + 1)
      case MappingStart => SkipPairs(events, index + 1)
      case _ => Err(NO_NODE)
  }

  /** The rest of a sequence. */
  function SkipItems(events: seq<Event>, cursor: nat): (r: Result<nat, string>)
    ensures r.Ok? ==> cursor < r.value <= |events|
    decreases if cursor <= |events| then |events| - cursor else 0, 1
  {
    if cursor >= |events| then Err(NO_SEQUENCE_END)
    else if events[cursor] == SequenceEnd then Ok(cursor + 1)
    else
      match Skip(events, cursor)
      case Err(e) => Err(e)
      case Ok(next) => SkipItems(events, next)
  }

  /** The rest of a mapping. */
  function SkipPairs(events: seq<Event>, cursor: nat): (r: Result<nat, string>)
    ensures r.Ok? ==> cursor < r.value <= |events|
    decreases if cursor <= |events| then |events| - cursor else 0, 1
  {
    if cursor >= |events| then Err(NO_MAPPING_END)
    else if events[cursor] == MappingEnd then Ok(cursor + 1)
    else
      match Skip(events, cursor)
      case Err(e) => Err(e)
      case Ok(value) =>
        match Skip(events, value)
        case Err(e) => Err(e)
        case Ok(next) => SkipPairs(events, next)
  }

  method SkipYamlNode(events: seq<Event>, index: nat) returns (r: Result<nat, string>)
    ensures r == Skip(events, index)
    decreases if index <= |events| then |events| - index else 0
  {
    if index >= |events| {
      return Err(NO_NODE);
    }
    match events[index]
    case Scalar(_, _, _) => return Ok(index + 1);
    case Alias => return Ok(index + 1);
    case SequenceStart =>
      var cursor := index + 1;
      while true
        invariant index < cursor && Skip(events, index) == SkipItems(events, cursor)
        decreases |events| - cursor
      {
        if cursor >= |events| {
          return Err(NO_SEQUENCE_END);
        }
        if events[cursor] == SequenceEnd {
          return Ok(cursor + 1);
        }
        var item := SkipYamlNode(events, cursor);
        if item.Err? {
          return item;
        }
        cursor := item.value;
      }
    case MappingStart =>
      var cursor := index + 1;
      while true
        invariant index < cursor && Skip(events, index) == SkipPairs(events, cursor)
        decreases |events| - cursor
      {
        if cursor >= |events| {
          return Err(NO_MAPPING_END);
        }
        if events[cursor] == MappingEnd {
          return Ok(cursor + 1);
        }
        var key := SkipYamlNode(events, cursor);
        if key.Err? {
          return key;
        }
        var value := SkipYamlNode(events, key.value);
        if value.Err? {
          return value;
        }
        cursor := value.value;
      }
    case _ => return Err(NO_NODE);
  }

  // ---- exactly the trees ----------------------------------------------------

  /** `part` stands at `i`. */
  predicate At(events: seq<Event>, i: nat, part: seq<Event>) {
    i + |part| <= |events| && events[i..i + |part|] == part
  }

  lemma AtConcat(events: seq<Event>, i: nat, a: seq<Event>, b: seq<Event>)
    ensures At(events, i, a + b) <==> At(events, i, a) && At(events, i + |a|, b)
  {
    if At(events, i, a + b) {
      var m := events[i..i + |a + b|];
      assert m[..|a|] == a && m[|a|..] == b;
    }
    if At(events, i, a) && At(events, i + |a|, b) {
      assert events[i..i + |a + b|] == events[i..i + |a|] + events[i + |a|..i + |a| + |b|];
    }
  }

  lemma AtOne(events: seq<Event>, i: nat, e: Event)
    ensures At(events, i, [e]) <==> i < |events| && events[i] == e
  {
    if i < |events| {
      assert events[i..i + 1] == [events[i]];
    }
  }

  /** The tree of the node that was skipped. */
  function NodeAt(events: seq<Event>, index: nat): Node
    requires Skip(events, index).Ok?
    decreases |events| - index, 0
  {
    match events[index]
    case Scalar(value, plain, tag) => ScalarNode(value, plain, tag)
    case Alias => AliasNode
    case SequenceStart => SequenceNode(ItemsAt(events, index + 1))
    case MappingStart => MappingNode(PairsAt(events, index + 1))
  }

  function ItemsAt(events: seq<Event>, cursor: nat): seq<Node>
    requires SkipItems(events, cursor).Ok?
    decreases |events| - cursor, 1
  {
    if events[cursor] == SequenceEnd then []
    else [NodeAt(events, cursor)] + ItemsAt(events, Skip(events, cursor).value)
  }

  function PairsAt(events: seq<Event>, cursor: nat): seq<Pair>
    requires SkipPairs(events, cursor).Ok?
    decreases |events| - cursor, 1
  {
    if events[cursor] == MappingEnd then []
    else
      var value := Skip(events, cursor).value;
      [Pair(NodeAt(events, cursor), NodeAt(events, value))] + PairsAt(events, Skip(events, value).value)
  }

  /** What is skipped is the flattening of a node. */
  lemma {:induction false} SkipSound(events: seq<Event>, index: nat)
    requires Skip(events, index).Ok?
    ensures var n := NodeAt(events, index);
            At(events, index, Flatten(n)) && Skip(events, index).value == index + |Flatten(n)|
    decreases |events| - index, 0
  {
    hide At, SkipItems, SkipPairs, FlattenItems, FlattenPairs;
    AtOne(events, index, events[index]);
    match events[index]
    case Scalar(_, _, _) =>
    case Alias =>
    case SequenceStart =>
      ItemsSound(events, index + 1);
      var rest := FlattenItems(ItemsAt(events, index + 1)) + [SequenceEnd];
      AtConcat(events, index, [SequenceStart], rest);
      assert [SequenceStart] + rest == Flatten(NodeAt(events, index));
    case MappingStart =>
      PairsSound(events, index + 1);
      var rest := FlattenPairs(PairsAt(events, index + 1)) + [MappingEnd];
      AtConcat(events, index, [MappingStart], rest);
      assert [MappingStart] + rest == Flatten(NodeAt(events, index));
  }

  lemma {:induction false} ItemsSound(events: seq<Event>, cursor: nat)
    requires SkipItems(events, cursor).Ok?
    ensures var flat := FlattenItems(ItemsAt(events, cursor)) + [SequenceEnd];
            At(events, cursor, flat) && SkipItems(events, cursor).value == cursor + |flat|
    decreases |events| - cursor, 1
  {
    hide At;
    var items := ItemsAt(events, cursor);
    if events[cursor] == SequenceEnd {
      AtOne(events, cursor, SequenceEnd);
      assert FlattenItems([]) + [SequenceEnd] == [SequenceEnd];
    } else {
      var next := Skip(events, cursor).value;
      SkipSound(events, cursor);
      ItemsSound(events, next);
      var first, rest := Flatten(items[0]), FlattenItems(items[1..]) + [SequenceEnd];
      assert items[1..] == ItemsAt(events, next);
      AtConcat(events, cursor, first, rest);
      assert first + rest == FlattenItems(items) + [SequenceEnd];
    }
  }

  lemma {:induction false} PairsSound(events: seq<Event>, cursor: nat)
    requires SkipPairs(events, cursor).Ok?
    ensures var flat := FlattenPairs(PairsAt(events, cursor)) + [MappingEnd];
            At(events, cursor, flat) && SkipPairs(events, cursor).value == cursor + |flat|
    decreases |events| - cursor, 1
  {
    hide At, Flatten;
    var pairs := PairsAt(events, cursor);
    if events[cursor] == MappingEnd {
      AtOne(events, cursor, MappingEnd);
      assert FlattenPairs([]) + [MappingEnd] == [MappingEnd];
    } else {
      var value := Skip(events, cursor).value;
      var next := Skip(events, value).value;
      SkipSound(events, cursor);
      SkipSound(events, value);
      PairsSound(events, next);
      SkipPair(events, cursor);
      assert pairs[1..] == PairsAt(events, next);
      hide Skip, SkipPairs, PairsAt, NodeAt;
      var key, held, rest := Flatten(pairs[0].key), Flatten(pairs[0].value), FlattenPairs(pairs[1..]) + [MappingEnd];
      AtConcat(events, cursor, key, held);
      AtConcat(events, cursor, key + held, rest);
      assert key + held + rest == FlattenPairs(pairs) + [MappingEnd];
    }
  }

  /** The first event of a flattened node never ends anything. */
  lemma StartsNode(n: Node)
    ensures Flatten(n)[0] != SequenceEnd && Flatten(n)[0] != MappingEnd
  {
  }

  lemma AtHead(events: seq<Event>, i: nat, part: seq<Event>)
    requires part != [] && At(events, i, part)
    ensures i < |events| && events[i] == part[0]
  {
    assert events[i] == events[i..i + |part|][0];
  }

  /** Every flattened node is skipped to its end, and read back as itself. */
  lemma {:induction false} SkipComplete(events: seq<Event>, index: nat, n: Node)
    requires At(events, index, Flatten(n))
    ensures Skip(events, index) == Ok(index + |Flatten(n)|) && NodeAt(events, index) == n
    decreases n, 1
  {
    hide At, SkipItems, SkipPairs, FlattenItems, FlattenPairs;
    AtHead(events, index, Flatten(n));
    match n
    case ScalarNode(_, _, _) =>
    case AliasNode =>
    case SequenceNode(items) =>
      var rest := FlattenItems(items) + [SequenceEnd];
      assert Flatten(n) == [SequenceStart] + rest;
      AtConcat(events, index, [SequenceStart], rest);
      ItemsComplete(events, index + 1, items);
    case MappingNode(pairs) =>
      var rest := FlattenPairs(pairs) + [MappingEnd];
      assert Flatten(n) == [MappingStart] + rest;
      AtConcat(events, index, [MappingStart], rest);
      PairsComplete(events, index + 1, pairs);
  }

  lemma {:induction false} ItemsComplete(events: seq<Event>, cursor: nat, items: seq<Node>)
    requires At(events, cursor, FlattenItems(items) + [SequenceEnd])
    ensures SkipItems(events, cursor) == Ok(cursor + |FlattenItems(items)| + 1) && ItemsAt(events, cursor) == items
    decreases items, 0
  {
    hide At;
    var flat := FlattenItems(items) + [SequenceEnd];
    AtHead(events, cursor, flat);
    if items != [] {
      var first, rest := Flatten(items[0]), FlattenItems(items[1..]) + [SequenceEnd];
      assert flat == first + rest;
      StartsNode(items[0]);
      AtConcat(events, cursor, first, rest);
      SkipComplete(events, cursor, items[0]);
      ItemsComplete(events, cursor + |first|, items[1..]);
      assert items == [items[0]] + items[1..];
    }
  }

  lemma {:induction false} PairsComplete(events: seq<Event>, cursor: nat, pairs: seq<Pair>)
    requires At(events, cursor, FlattenPairs(pairs) + [MappingEnd])
    ensures SkipPairs(events, cursor) == Ok(cursor + |FlattenPairs(pairs)| + 1) && PairsAt(events, cursor) == pairs
    decreases pairs, 0
  {
    hide At, Flatten, FlattenPairs, FlattenPair, SkipPairs, Skip, NodeAt, PairsAt;
    var flat := FlattenPairs(pairs) + [MappingEnd];
    AtHead(events, cursor, flat);
    if pairs == [] {
      NoPairs(events, cursor);
    } else {
      var pair, rest := FlattenPair(pairs[0]), FlattenPairs(pairs[1..]) + [MappingEnd];
      FlatPairs(pairs);
      StartsNode(pairs[0].key);
      PairStart(pairs[0]);
      AtConcat(events, cursor, pair, rest);
      PairComplete(events, cursor, pairs[0]);
      PairsComplete(events, cursor + |pair|, pairs[1..]);
      SkipPair(events, cursor);
      assert pairs == [pairs[0]] + pairs[1..];
    }
  }

  lemma NoPairs(events: seq<Event>, cursor: nat)
    ensures FlattenPairs([]) == []
    ensures cursor < |events| && events[cursor] == MappingEnd ==>
              SkipPairs(events, cursor) == Ok(cursor + 1) && PairsAt(events, cursor) == []
  {
  }

  lemma FlatPairs(pairs: seq<Pair>)
    requires pairs != []
    ensures FlattenPairs(pairs) + [MappingEnd] == FlattenPair(pairs[0]) + (FlattenPairs(pairs[1..]) + [MappingEnd])
    ensures |FlattenPairs(pairs)| == |FlattenPair(pairs[0])| + |FlattenPairs(pairs[1..])|
  {
    hide FlattenPair;
  }

  lemma PairStart(pair: Pair)
    ensures FlattenPair(pair) != [] && FlattenPair(pair)[0] == Flatten(pair.key)[0]
  {
    hide Flatten;
  }

  /** One pair of a mapping is skipped before the rest. */
  lemma SkipPair(events: seq<Event>, cursor: nat)
    requires cursor < |events| && events[cursor] != MappingEnd && Skip(events, cursor).Ok?
    requires Skip(events, Skip(events, cursor).value).Ok?
    ensures var value := Skip(events, cursor).value;
            var next := Skip(events, value).value;
            && SkipPairs(events, cursor) == SkipPairs(events, next)
            && (SkipPairs(events, next).Ok? ==>
                  PairsAt(events, cursor) == [Pair(NodeAt(events, cursor), NodeAt(events, value))]
                    + PairsAt(events, next))
  {
    hide Skip, NodeAt;
  }

  lemma {:induction false} PairComplete(events: seq<Event>, cursor: nat, pair: Pair)
    requires At(events, cursor, FlattenPair(pair))
    ensures Skip(events, cursor) == Ok(cursor + |Flatten(pair.key)|) && NodeAt(events, cursor) == pair.key
    ensures var value := cursor + |Flatten(pair.key)|;
            Skip(events, value) == Ok(cursor + |FlattenPair(pair)|) && NodeAt(events, value) == pair.value
    decreases pair, 2
  {
    hide At;
    AtConcat(events, cursor, Flatten(pair.key), Flatten(pair.value));
    SkipComplete(events, cursor, pair.key);
    SkipComplete(events, cursor + |Flatten(pair.key)|, pair.value);
  }

  /** EXACT RECOGNITION. A skip from `i` ends at `j` exactly when the events from `i` to `j` are the
      flattening of a node, and then of only one. */
  lemma SkipIsExact(events: seq<Event>, i: nat, j: nat)
    ensures Skip(events, i) == Ok(j) <==> exists n :: At(events, i, Flatten(n)) && j == i + |Flatten(n)|
    ensures forall m, n | At(events, i, Flatten(m)) && At(events, i, Flatten(n)) :: m == n
  {
    hide Skip, At, Flatten, NodeAt;
    if Skip(events, i) == Ok(j) {
      SkipSound(events, i);
    }
    forall n | At(events, i, Flatten(n))
      ensures Skip(events, i) == Ok(i + |Flatten(n)|) && NodeAt(events, i) == n
    {
      SkipComplete(events, i, n);
    }
  }

  // ---- the root mapping -----------------------------------------------------

  datatype MixedPortValue = Integer(value: int) | Other

  /** Reading an integer: `i64::from_str` for a tagged scalar, the YAML library's core schema otherwise. */
  datatype Readers = Readers(parseI64: string -> Option<int>, fromYaml: string -> Option<int>)

  function Classify(e: Event, readers: Readers): MixedPortValue {
    if !e.Scalar? || !e.plain then Other
    else
      var integer := if e.tag.Some?
                     then (if e.tag.value == Tag("tag:yaml.org,2002:", "int") then readers.parseI64(e.value) else None)
                     else readers.fromYaml(e.value);
      match integer
      case Some(i) => Integer(i)
      case None => Other
  }

  predicate IsMixedPortKey(e: Event) {
    e.Scalar? && e.value == "mixed-port"
  }

  predicate IsPortKey(pair: Pair) {
    pair.key.ScalarNode? && pair.key.value == "mixed-port"
  }

  /** What a node is as a port: an integer only if it is a plain scalar that is read as one, under the core schema's
      integer tag as a number, without a tag as YAML resolves it. */
  function PortOf(n: Node, readers: Readers): MixedPortValue {
    match n
    case ScalarNode(value, true, None) => PortRead(readers.fromYaml(value))
    case ScalarNode(value, true, Some(tag)) =>
      if tag.handle + tag.suffix == "tag:yaml.org,2002:int" && |tag.suffix| == |"int"| then
        PortRead(readers.parseI64(value))
      else Other
    case _ => Other
  }

  function PortRead(read: Option<int>): MixedPortValue {
    match read
    case None => Other
    case Some(i) => Integer(i)
  }

  /** The values of the mapping's own `mixed-port` keys, in order. */
  function MixedPorts(pairs: seq<Pair>, readers: Readers): seq<MixedPortValue> {
    if pairs == [] then []
    else (if IsPortKey(pairs[0]) then [PortOf(pairs[0].value, readers)] else []) + MixedPorts(pairs[1..], readers)
  }

  /** A node is known by its first event. */
  lemma HeadTells(pair: Pair, readers: Readers)
    ensures IsMixedPortKey(Flatten(pair.key)[0]) == IsPortKey(pair)
    ensures Classify(Flatten(pair.value)[0], readers) == PortOf(pair.value, readers)
  {
    if pair.value.ScalarNode? && pair.value.tag.Some? {
      SameTag(pair.value.tag.value);
    }
  }

  lemma SameTag(tag: Tag)
    ensures tag == Tag("tag:yaml.org,2002:", "int")
            <==> tag.handle + tag.suffix == "tag:yaml.org,2002:int" && |tag.suffix| == |"int"|
  {
    var (h, s) := (tag.handle, tag.suffix);
    if h + s == "tag:yaml.org,2002:int" && |s| == |"int"| {
      assert "tag:yaml.org,2002:int" == "tag:yaml.org,2002:" + "int";
      assert h == (h + s)[..|h|] && s == (h + s)[|h|..];
    }
  }

  /** The collection from a cursor inside the mapping. */
  function Inspect(events: seq<Event>, cursor: nat, readers: Readers): Result<seq<MixedPortValue>, string>
    decreases if cursor <= |events| then |events| - cursor else 0
  {
    if cursor >= |events| then Err(NO_MAPPING_END)
    else if events[cursor] == MappingEnd then Ok([])
    else
      match Skip(events, cursor)
      case Err(e) => Err(e)
      case Ok(value) =>
        match Skip(events, value)
        case Err(e) => Err(e)
        case Ok(next) =>
          match Inspect(events, next, readers)
          case Err(e) => Err(e)
          case Ok(rest) => Ok((if IsMixedPortKey(events[cursor]) then [Classify(events[value], readers)] else [])
                              + rest)
  }

  method InspectTopLevelMixedPorts(events: seq<Event>, rootIndex: nat, readers: Readers)
      returns (r: Result<seq<MixedPortValue>, string>)
    ensures r == Inspect(events, rootIndex + 1, readers)
  {
    hide Skip, Classify, IsMixedPortKey;
    var cursor := rootIndex + 1;
    var values: seq<MixedPortValue> := [];
    assert forall rest: seq<MixedPortValue> :: [] + rest == rest;
    while true
      invariant Inspect(events, rootIndex + 1, readers) == (match Inspect(events, cursor, readers)
                                                            case Err(e) => Err(e)
                                                            case Ok(rest) => Ok(values + rest))
      decreases |events| - cursor
    {
      if cursor >= |events| {
        return Err(NO_MAPPING_END);
      }
      if events[cursor] == MappingEnd {
        assert values + [] == values;
        return Ok(values);
      }
      var isMixedPort := IsMixedPortKey(events[cursor]);
      var key := SkipYamlNode(events, cursor);
      if key.Err? {
        return Err(key.error);
      }
      ghost var before := values;
      var held := SkipYamlNode(events, key.value);
      if isMixedPort {
        var value := if key.value < |events| then Classify(events[key.value], readers) else Other;
        values := values + [value];
      }
      if held.Err? {
        return Err(held.error);
      }
      StepOut(events, cursor, key.value, held.value, before, values, readers);
      cursor := held.value;
    }
  }

  lemma StepOut(events: seq<Event>, cursor: nat, value: nat, next: nat, before: seq<MixedPortValue>,
      after: seq<MixedPortValue>, readers: Readers)
    requires cursor < |events| && events[cursor] != MappingEnd && Skip(events, cursor) == Ok(value)
             && Skip(events, value) == Ok(next)
    requires value < |events|
    requires after == if IsMixedPortKey(events[cursor]) then before + [Classify(events[value], readers)] else before
    ensures Inspect(events, next, readers).Ok? ==>
              && Inspect(events, cursor, readers).Ok?
              && before + Inspect(events, cursor, readers).value == after + Inspect(events, next, readers).value
    ensures Inspect(events, next, readers).Err? ==> Inspect(events, cursor, readers) == Inspect(events, next, readers)
  {
    hide Skip, Classify, IsMixedPortKey, Inspect;
    InspectPair(events, cursor, value, next, readers);
    match Inspect(events, next, readers)
    case Err(_) =>
    case Ok(rest) =>
      Regrouped(before, if IsMixedPortKey(events[cursor]) then [Classify(events[value], readers)] else [], rest);
  }

  lemma Regrouped(a: seq<MixedPortValue>, b: seq<MixedPortValue>, c: seq<MixedPortValue>)
    ensures a + (b + c) == (a + b) + c && (b == [] ==> a + b == a)
  {
  }

  lemma InspectPair(events: seq<Event>, cursor: nat, value: nat, next: nat, readers: Readers)
    requires cursor < |events| && events[cursor] != MappingEnd && Skip(events, cursor) == Ok(value)
             && Skip(events, value) == Ok(next)
    requires value < |events|
    ensures Inspect(events, cursor, readers)
            == match Inspect(events, next, readers)
               case Err(e) => Err(e)
               case Ok(rest) =>
                 Ok((if IsMixedPortKey(events[cursor]) then [Classify(events[value], readers)] else []) + rest)
  {
    hide Skip, Classify, IsMixedPortKey;
  }

  /** Inspection succeeds exactly when the mapping's pairs can be skipped, and returns the values of precisely
      its own `mixed-port` keys. */
  lemma {:induction false} InspectIsMixedPorts(events: seq<Event>, cursor: nat, readers: Readers)
    ensures Inspect(events, cursor, readers).Ok? <==> SkipPairs(events, cursor).Ok?
    ensures SkipPairs(events, cursor).Ok? ==>
            Inspect(events, cursor, readers) == Ok(MixedPorts(PairsAt(events, cursor), readers))
    decreases if cursor <= |events| then |events| - cursor else 0
  {
    hide Classify, IsMixedPortKey, IsPortKey, PortOf;
    if cursor < |events| && events[cursor] != MappingEnd && Skip(events, cursor).Ok?
      && Skip(events, Skip(events, cursor).value).Ok? {
      var value := Skip(events, cursor).value;
      var next := Skip(events, value).value;
      InspectIsMixedPorts(events, next, readers);
      SkipSound(events, cursor);
      SkipSound(events, value);
      AtHead(events, cursor, Flatten(NodeAt(events, cursor)));
      AtHead(events, value, Flatten(NodeAt(events, value)));
      HeadTells(Pair(NodeAt(events, cursor), NodeAt(events, value)), readers);
      if SkipPairs(events, next).Ok? {
        assert PairsAt(events, cursor)[1..] == PairsAt(events, next);
      }
    }
  }

  /** For a root mapping: the result is the values of the root's own `mixed-port` keys and nothing nested,
      and it fails exactly when no node starts at the root. */
  lemma RootMixedPorts(events: seq<Event>, root: nat, readers: Readers)
    requires root < |events| && events[root] == MappingStart
    ensures forall pairs | At(events, root, Flatten(MappingNode(pairs))) ::
              Inspect(events, root + 1, readers) == Ok(MixedPorts(pairs, readers))
    ensures Inspect(events, root + 1, readers).Ok? ==> exists pairs :: At(events, root, Flatten(MappingNode(pairs)))
  {
    hide Flatten, At, Inspect, MixedPorts;
    InspectIsMixedPorts(events, root + 1, readers);
    forall pairs | At(events, root, Flatten(MappingNode(pairs)))
      ensures Inspect(events, root + 1, readers) == Ok(MixedPorts(pairs, readers))
    {
      SkipComplete(events, root, MappingNode(pairs));
    }
    if SkipPairs(events, root + 1).Ok? {
      SkipSound(events, root);
      assert At(events, root, Flatten(MappingNode(PairsAt(events, root + 1))));
    }
  }
}
