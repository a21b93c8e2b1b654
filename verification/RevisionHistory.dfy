/** The browser's revision timeline (`RevisionHistory.tsx`): merging pages, reserving and releasing cursors,
    and the component that does so while responses arrive late, twice, or from a hostile server. */
module RevisionHistory {
  import opened Wrappers
  import opened RevisionPages

  // ---- merging --------------------------------------------------------------

  predicate HasId(items: seq<Item>, id: string) {
    exists i | 0 <= i < |items| :: items[i].summary.id == id
  }

  /** The items of `incoming` that are new, each once, in order. */
  function Additions(current: seq<Item>, incoming: seq<Item>): seq<Item>
    decreases |incoming|
  {
    if incoming == [] then []
    else
      var front, last := incoming[..|incoming| - 1], incoming[|incoming| - 1];
      var added := Additions(current, front);
      if HasId(current, last.summary.id) || HasId(added, last.summary.id) then added else added + [last]
  }

  method MergeRevisionItems(current: seq<Item>, incoming: seq<Item>) returns (merged: seq<Item>)
    ensures merged == current + Additions(current, incoming)
  {
    hide HasId;
    var seen: set<string> := set i | 0 <= i < |current| :: current[i].summary.id;
    var additions: seq<Item> := [];
    HasNone(current);
    for i := 0 to |incoming|
      invariant additions == Additions(current, incoming[..i])
      invariant forall id :: id in seen <==> HasId(current, id) || HasId(additions, id)
    {
      var revision := incoming[i];
      assert incoming[..i + 1][..i] == incoming[..i] && incoming[..i + 1][i] == revision;
      if revision.summary.id in seen {
        continue;
      }
      HasMore(additions, revision);
      seen := seen + {revision.summary.id};
      additions := additions + [revision];
    }
    assert incoming[..|incoming|] == incoming;
    merged := if |additions| == 0 then current else current + additions;
  }

  lemma HasNone(current: seq<Item>)
    ensures forall id ::
              id in (set i | 0 <= i < |current| :: current[i].summary.id) <==> HasId(current, id) || HasId([], id)
  {
  }

  lemma HasMore(items: seq<Item>, item: Item)
    ensures forall id :: HasId(items + [item], id) <==> HasId(items, id) || id == item.summary.id
  {
    var more := items + [item];
    forall id
      ensures HasId(more, id) <==> HasId(items, id) || id == item.summary.id
    {
      if HasId(items, id) {
        var i :| 0 <= i < |items| && items[i].summary.id == id;
        assert more[i].summary.id == id;
      }
      assert more[|items|] == item;
    }
  }

  predicate DistinctIds(items: seq<Item>) {
    forall i, j | 0 <= i < j < |items| :: items[i].summary.id != items[j].summary.id
  }

  lemma {:induction false} AdditionsDistinct(current: seq<Item>, incoming: seq<Item>)
    requires DistinctIds(current)
    ensures DistinctIds(current + Additions(current, incoming))
    decreases |incoming|
  {
    if incoming == [] {
      assert current + [] == current;
    } else {
      var front, last := incoming[..|incoming| - 1], incoming[|incoming| - 1];
      AdditionsDistinct(current, front);
      var added := Additions(current, front);
      if !(HasId(current, last.summary.id) || HasId(added, last.summary.id)) {
        AppendDistinct(current + added, last);
        assert current + (added + [last]) == current + added + [last];
      }
    }
  }

  lemma AppendDistinct(items: seq<Item>, item: Item)
    requires DistinctIds(items) && forall i | 0 <= i < |items| :: items[i].summary.id != item.summary.id
    ensures DistinctIds(items + [item])
  {
  }

  /** Nothing of a page is lost unless its id is already there. */
  lemma {:induction false} AdditionsComplete(current: seq<Item>, incoming: seq<Item>, id: string)
    ensures HasId(current + Additions(current, incoming), id) <==> HasId(current, id) || HasId(incoming, id)
    decreases |incoming|
  {
    if incoming == [] {
      assert current + [] == current;
    } else {
      var front, last := incoming[..|incoming| - 1], incoming[|incoming| - 1];
      AdditionsComplete(current, front, id);
      var added := Additions(current, front);
      HasMore(front, last);
      assert front + [last] == incoming;
      HasMore(current + added, last);
      assert current + (added + [last]) == current + added + [last];
      HasConcat(current, added, last.summary.id);
    }
  }

  lemma HasConcat(a: seq<Item>, b: seq<Item>, id: string)
    ensures HasId(a + b, id) <==> HasId(a, id) || HasId(b, id)
  {
    if HasId(a, id) {
      var i :| 0 <= i < |a| && a[i].summary.id == id;
      assert (a + b)[i] == a[i];
    }
    if HasId(b, id) {
      var i :| 0 <= i < |b| && b[i].summary.id == id;
      assert (a + b)[|a| + i] == b[i];
    }
  }

  // ---- the pagination state -------------------------------------------------

  datatype State = State(revisions: seq<Item>, nextCursor: Option<string>, seen: set<string>, requested: set<string>)

  datatype Reason = SameCursor | CursorCycle | CursorRepeated | CursorUnavailable

  datatype Transition = Accepted(state: State) | Refused(reason: Reason, state: State)

  const Fresh: State := State([], None, {}, {})

  function Begin(state: State, cursor: string): Transition {
    if state.nextCursor != Some(cursor) then Refused(CursorUnavailable, state)
    else if cursor in state.requested then Refused(CursorRepeated, state)
    else Accepted(state.(requested := state.requested + {cursor}))
  }

  function Release(state: State, cursor: string): State {
    state.(requested := state.requested - {cursor})
  }

  function Apply(state: State, requestCursor: Option<string>, page: Page): Transition {
    var requested := state.requested + if requestCursor.Some? then {requestCursor.value} else {};
    if page.nextCursor.Some? && page.nextCursor == requestCursor then
      Refused(SameCursor, state.(nextCursor := None, seen := state.seen + {page.nextCursor.value},
                                 requested := requested))
    else if page.nextCursor.Some? && page.nextCursor.value in state.seen then
      Refused(CursorCycle, state.(nextCursor := None, requested := requested))
    else
      var seen := state.seen + if page.nextCursor.Some? then {page.nextCursor.value} else {};
      Accepted(State(state.revisions + Additions(state.revisions, page.items), page.nextCursor, seen, requested))
  }

  method ApplyRevisionPage(state: State, requestCursor: Option<string>, page: Page) returns (t: Transition)
    ensures t == Apply(state, requestCursor, page)
  {
    hide Additions;
    var seenCursors, requestedCursors := state.seen, state.requested;
    if requestCursor.Some? {
      requestedCursors := requestedCursors + {requestCursor.value};
    }
    if page.nextCursor.Some? && page.nextCursor == requestCursor {
      seenCursors := seenCursors + {page.nextCursor.value};
      return Refused(SameCursor, state.(nextCursor := None, seen := seenCursors, requested := requestedCursors));
    }
    if page.nextCursor.Some? && page.nextCursor.value in seenCursors {
      return Refused(CursorCycle, state.(nextCursor := None, seen := seenCursors, requested := requestedCursors));
    }
    if page.nextCursor.Some? {
      seenCursors := seenCursors + {page.nextCursor.value};
    }
    var merged := MergeRevisionItems(state.revisions, page.items);
    t := Accepted(State(merged, page.nextCursor, seenCursors, requestedCursors));
  }

  // ---- the component --------------------------------------------------------

  /** A list request remembers the serial it was started with. */
  datatype Request = First(serial: nat) | More(serial: nat, cursor: string)

  datatype Response = Failed | Invalid | Paged(page: Page)

  datatype Component = Component(serial: nat, pagination: State, loadingMore: bool)

  const Unmounted: Component := Component(0, Fresh, false)

  function Reload(c: Component): (Component, Request) {
    (Component(c.serial + 1, Fresh, false), First(c.serial + 1))
  }

  function LoadMore(c: Component): (Component, Option<Request>) {
    if c.pagination.nextCursor.None? || c.loadingMore then (c, None)
    else
      var cursor := c.pagination.nextCursor.value;
      match Begin(c.pagination, cursor)
      case Refused(_, state) => (c.(pagination := state.(nextCursor := None)), None)
      case Accepted(state) => (Component(c.serial + 1, state, true), Some(More(c.serial + 1, cursor)))
  }

  function Receive(c: Component, request: Request, response: Response): Component {
    if c.serial != request.serial then c
    else
      match request
      case First(_) =>
        if !response.Paged? then c
        else
          (match Apply(Fresh, None, response.page)
           case Refused(_, _) => c
           case Accepted(state) => c.(pagination := state))
      case More(serial, cursor) =>
        match response
        case Invalid => Component(serial, c.pagination.(nextCursor := None), false)
        case Failed => Component(serial, Release(c.pagination, cursor), false)
        case Paged(page) => Component(serial, Apply(c.pagination, Some(cursor), page).state, false)
  }

  class Timeline {
    var listSerial: nat
    var pagination: State
    var loadingMore: bool

    function Snapshot(): Component
      reads this
    {
      Component(listSerial, pagination, loadingMore)
    }

    constructor ()
      ensures Snapshot() == Unmounted
    {
      listSerial, pagination, loadingMore := 0, Fresh, false;
    }

    /** The effect that runs when the project, the refresh key or the retry counter changes. */
    method StartEffect() returns (request: Request)
      modifies this
      ensures (Snapshot(), request) == Reload(old(Snapshot()))
    {
      var serial := listSerial + 1;
      listSerial := serial;
      pagination := Fresh;
      loadingMore := false;
      request := First(serial);
    }

    method StartLoadMore() returns (request: Option<Request>)
      modifies this
      ensures (Snapshot(), request) == LoadMore(old(Snapshot()))
    {
      if pagination.nextCursor.None? || loadingMore {
        return None;
      }
      var cursor := pagination.nextCursor.value;
      var started := Begin(pagination, cursor);
      if started.Refused? {
        pagination := started.state.(nextCursor := None);
        return None;
      }
      pagination := started.state;
      loadingMore := true;
      var serial := listSerial + 1;
      listSerial := serial;
      request := Some(More(serial, cursor));
    }

    method Resume(request: Request, response: Response)
      modifies this
      ensures Snapshot() == Receive(old(Snapshot()), request, response)
    {
      if listSerial != request.serial {
        return;
      }
      if request.First? {
        if response.Paged? {
          var transition := ApplyRevisionPage(Fresh, None, response.page);
          if transition.Accepted? {
            pagination := transition.state;
          }
        }
        return;
      }
      loadingMore := false;
      if response.Invalid? {
        pagination := pagination.(nextCursor := None);
        return;
      }
      if response.Failed? {
        pagination := Release(pagination, request.cursor);
        return;
      }
      var transition := ApplyRevisionPage(pagination, Some(request.cursor), response.page);
      pagination := transition.state;
    }
  }
}
