/** One page of a project's revision list, as it travels from the service to the browser, and the checks the
    browser makes on arrival (`httpApi.ts`). */
module RevisionPages {
  import opened Wrappers
  import opened DiffHunks
  import opened DiffClient

  datatype Item = Item(summary: Summary, isCurrent: bool, isServed: bool)

  datatype Page = Page(items: seq<Item>, nextCursor: Option<string>)

  function Ids(items: seq<Item>): seq<string> {
    if items == [] then [] else [items[0].summary.id] + Ids(items[1..])
  }

  lemma {:induction false} IdsAre(items: seq<Item>)
    ensures |Ids(items)| == |items| && forall i | 0 <= i < |items| :: Ids(items)[i] == items[i].summary.id
  {
    if items != [] {
      IdsAre(items[1..]);
      assert forall i | 1 <= i < |items| :: items[i] == items[1..][i - 1];
    }
  }

  predicate Distinct(ids: seq<string>) {
    forall i, j | 0 <= i < j < |ids| :: ids[i] != ids[j]
  }

  predicate AtMostOne(marks: seq<bool>) {
    forall i, j | 0 <= i < j < |marks| :: !(marks[i] && marks[j])
  }

  function Marks(items: seq<Item>, current: bool): (r: seq<bool>)
    ensures |r| == |items|
    ensures forall i | 0 <= i < |items| :: r[i] == if current then items[i].isCurrent else items[i].isServed
  {
    if items == [] then []
    else [if current then items[0].isCurrent else items[0].isServed] + Marks(items[1..], current)
  }

  predicate PageAccepted(page: Page, requestCursor: Option<string>) {
    && (page.nextCursor.Some? ==>
          && 0 < |page.nextCursor.value| <= MAX_ID_LENGTH
          && page.items != [] && page.nextCursor.value == page.items[|page.items| - 1].summary.id
          && page.nextCursor != requestCursor)
    && (forall i | 0 <= i < |page.items| :: SummaryAccepted(page.items[i].summary))
    && Distinct(Ids(page.items))
    && AtMostOne(Marks(page.items, true)) && AtMostOne(Marks(page.items, false))
  }

  function Count(marks: seq<bool>): nat {
    if marks == [] then 0 else Count(marks[..|marks| - 1]) + if marks[|marks| - 1] then 1 else 0
  }

  lemma {:induction false} CountZero(marks: seq<bool>)
    ensures Count(marks) == 0 <==> forall i | 0 <= i < |marks| :: !marks[i]
  {
    if marks != [] {
      var front := marks[..|marks| - 1];
      CountZero(front);
      assert forall i | 0 <= i < |front| :: front[i] == marks[i];
    }
  }

  lemma {:induction false} CountOne(marks: seq<bool>)
    ensures Count(marks) <= 1 <==> AtMostOne(marks)
  {
    if marks != [] {
      var front, k := marks[..|marks| - 1], |marks| - 1;
      assert forall i | 0 <= i < k :: front[i] == marks[i];
      CountOne(front);
      CountZero(front);
      if !AtMostOne(front) {
        var i, j :| 0 <= i < j < k && front[i] && front[j];
        assert marks[i] && marks[j];
      } else if marks[k] && Count(front) > 0 {
        var i :| 0 <= i < k && front[i];
        assert marks[i] && marks[k];
      }
    }
  }

  method DecodePage(page: Page, requestCursor: Option<string>) returns (ok: bool)
    ensures ok == PageAccepted(page, requestCursor)
  {
    hide SummaryAccepted, AtMostOne, Count, Ids;
    var items := page.items;
    IdsAre(items);
    if page.nextCursor.Some? && (|page.nextCursor.value| == 0 || |page.nextCursor.value| > MAX_ID_LENGTH) {
      return false;
    }
    for i := 0 to |items|
      invariant forall j | 0 <= j < i :: SummaryAccepted(items[j].summary)
    {
      if !SummaryAccepted(items[i].summary) {
        return false;
      }
    }
    var ids: set<string> := {};
    for i := 0 to |items|
      invariant forall j | 0 <= j < i :: items[j].summary.id in ids
      invariant forall id | id in ids :: exists j | 0 <= j < i :: items[j].summary.id == id
      invariant Distinct(Ids(items)[..i])
    {
      var id := items[i].summary.id;
      if id in ids {
        var j :| 0 <= j < i && items[j].summary.id == id;
        assert Ids(items)[j] == Ids(items)[i];
        return false;
      }
      assert Ids(items)[..i + 1] == Ids(items)[..i] + [id];
      ids := ids + {id};
    }
    assert Ids(items)[..|items|] == Ids(items);
    if page.nextCursor.Some? && (items == [] || page.nextCursor.value != items[|items| - 1].summary.id) {
      return false;
    }
    if page.nextCursor.Some? && page.nextCursor == requestCursor {
      return false;
    }
    CountOne(Marks(items, true));
    CountOne(Marks(items, false));
    var currentCount, servedCount := Count(Marks(items, true)), Count(Marks(items, false));
    if currentCount > 1 || servedCount > 1 {
      return false;
    }
    ok := !(items == [] && page.nextCursor.Some?);
  }
}
