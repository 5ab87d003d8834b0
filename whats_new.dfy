/**
 * The `whats_new` routine: one row (link, h1 text, dl text) per release
 * notes page that could be fetched, in listing order.
 */
module WhatsNew {
  import opened Wrappers
  import opened Results

  /** What is extracted from one release notes page. */
  datatype ReleasePage = ReleasePage(h1: string, dl: string)

  /**
   * A `li.toctree-l1` item of the listing: the resolved link of its first
   * anchor and the page fetched from it (None when the fetch failed).
   */
  datatype TocItem = TocItem(link: string, page: Option<ReleasePage>)

  const Header: Row := [Text("Ссылка на статью"), Text("Заголовок"), Text("Редактор, Автор")]

  /** Line 38: the row for an item whose page was fetched. */
  function ReleaseRow(link: string, p: ReleasePage): Row
  {
    [Text(link), Text(p.h1), Text(p.dl)]
  }

  /** The rows for the items, failed fetches skipped. */
  function ReleaseRows(items: seq<TocItem>): Table
  {
    if items == [] then []
    else
      var last := items[|items| - 1];
      ReleaseRows(items[..|items| - 1])
        + (match last.page case Some(p) => [ReleaseRow(last.link, p)] case None => [])
  }

  /** The number of items whose page was fetched. */
  function FetchedCount(items: seq<TocItem>): nat
  {
    |set i | 0 <= i < |items| && items[i].page.Some?|
  }

  function WhatsNewResult(listing: Option<seq<TocItem>>): Run<Table>
  {
    match listing
    case None => NoResult
    case Some(items) => Produced([Header] + ReleaseRows(items))
  }

  /** Lines 15-39: the loop that appends a row per fetched page and `continue`s past failures. */
  method WhatsNewRoutine(listing: Option<seq<TocItem>>) returns (r: Run<Table>)
    ensures r == WhatsNewResult(listing)
  {
    if listing.None? {
      return NoResult;
    }
    var items := listing.value;
    var results: Table := [Header];
    for k := 0 to |items|
      invariant results == [Header] + ReleaseRows(items[..k])
    {
      assert items[..k + 1][..k] == items[..k];
      var item := items[k];
      if item.page.None? {
        continue;
      }
      var p := item.page.value;
      results := results + [ReleaseRow(item.link, p)];
    }
    assert items[..|items|] == items;
    r := Produced(results);
  }

  lemma FetchedCountStep(items: seq<TocItem>)
    requires items != []
    ensures FetchedCount(items) == FetchedCount(items[..|items| - 1])
      + (if items[|items| - 1].page.Some? then 1 else 0)
  {
    var n := |items| - 1;
    var all := set i | 0 <= i < |items| && items[i].page.Some?;
    var before := set i | 0 <= i < n && items[..n][i].page.Some?;
    if items[n].page.Some? {
      assert all == before + {n};
    } else {
      assert all == before;
    }
  }

  /**
   * The rows are the fetched items, in order and with none skipped: there
   * are as many rows as fetched items, and the item at index j, if
   * fetched, gives the row whose position is the number of fetched items
   * before it. Every row has arity three.
   */
  lemma {:induction false} ReleaseRowsPositions(items: seq<TocItem>)
    ensures |ReleaseRows(items)| == FetchedCount(items)
    ensures forall j :: 0 <= j < |items| && items[j].page.Some? ==>
      FetchedCount(items[..j]) < |ReleaseRows(items)|
      && ReleaseRows(items)[FetchedCount(items[..j])] == ReleaseRow(items[j].link, items[j].page.value)
    ensures forall i :: 0 <= i < |ReleaseRows(items)| ==> |ReleaseRows(items)[i]| == 3
  {
    if items != [] {
      var n := |items| - 1;
      ReleaseRowsPositions(items[..n]);
      FetchedCountStep(items);
      forall j | 0 <= j < |items| && items[j].page.Some?
        ensures FetchedCount(items[..j]) < |ReleaseRows(items)|
        ensures ReleaseRows(items)[FetchedCount(items[..j])] == ReleaseRow(items[j].link, items[j].page.value)
      {
        if j < n {
          assert items[..n][..j] == items[..j];
          assert items[..n][j] == items[j];
        } else {
          assert items[..j] == items[..n];
        }
      }
    }
  }

  /** A produced table is rectangular with a header of three columns and one row per fetched item. */
  lemma WhatsNewShape(listing: Option<seq<TocItem>>)
    requires listing.Some?
    ensures var t := WhatsNewResult(listing).value;
      Rectangular(t) && t[0] == Header && |t| == FetchedCount(listing.value) + 1
  {
    ReleaseRowsPositions(listing.value);
  }
}
