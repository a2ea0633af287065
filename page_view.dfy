/**
  scripts/python/page_view.py: page-view rows summed per site URL. The CSV file is left out;
  its rows, with the "Page path", "Views" and "New users" columns already read as numbers,
  are the input.
*/
module PageViews {
  import opened Wrappers

  const BaseUrl: string := "https://kubernetes.io"

  /** `PageView`: the two counters of a URL. */
  datatype PageView = PageView(views: int, newUsers: int)

  const NoViews: PageView := PageView(0, 0)

  /** One CSV row. */
  datatype Row = Row(path: string, views: int, newUsers: int)

  /** `build_url`: the site URL of a page path, when the site has that URL. */
  function BuildUrl(path: string, existingUrls: set<string>, baseUrl: string): (r: Option<string>)
    ensures r.Some? <==> baseUrl + path in existingUrls
    ensures r.Some? ==> r.value == baseUrl + path && r.value in existingUrls
  {
    var url := baseUrl + path;
    if url !in existingUrls then None else Some(url)
  }

  /** The rows that count towards `url`. */
  predicate CountsFor(row: Row, existingUrls: set<string>, url: string) {
    BuildUrl(row.path, existingUrls, BaseUrl) == Some(url)
  }

  /** A row counts towards exactly one URL, the site's URL of its path, and only when the site has it. */
  lemma CountsForMeaning(row: Row, existingUrls: set<string>, url: string)
    ensures CountsFor(row, existingUrls, url) <==> url == BaseUrl + row.path && url in existingUrls
    ensures CountsFor(row, existingUrls, url) ==> forall other :: CountsFor(row, existingUrls, other) ==> other == url
  {
  }

  /** The sums over the rows that count towards `url`. */
  function Totals(rows: seq<Row>, existingUrls: set<string>, url: string): PageView
    decreases |rows|
  {
    if rows == [] then NoViews
    else
      var t := Totals(rows[..|rows| - 1], existingUrls, url);
      var last := rows[|rows| - 1];
      if CountsFor(last, existingUrls, url) then PageView(t.views + last.views, t.newUsers + last.newUsers) else t
  }

  /** Some row counts towards `url`. */
  predicate Seen(rows: seq<Row>, existingUrls: set<string>, url: string)
    decreases |rows|
  {
    rows != [] && (Seen(rows[..|rows| - 1], existingUrls, url) || CountsFor(rows[|rows| - 1], existingUrls, url))
  }

  /** The defaultdict read: a URL not in the summary has no views. */
  function Get(data: map<string, PageView>, url: string): PageView {
    if url in data then data[url] else NoViews
  }

  /** The summary after one more row. */
  lemma AddRow(rows: seq<Row>, i: nat, existingUrls: set<string>, data: map<string, PageView>)
    requires i < |rows|
    requires forall u :: Get(data, u) == Totals(rows[..i], existingUrls, u)
    requires forall u :: u in data <==> Seen(rows[..i], existingUrls, u)
    ensures var row := rows[i]; var url := BuildUrl(row.path, existingUrls, BaseUrl);
      var next := if url.None? then data
        else data[url.value := PageView(Get(data, url.value).views + row.views, Get(data, url.value).newUsers + row.newUsers)];
      && (forall u :: Get(next, u) == Totals(rows[..i + 1], existingUrls, u))
      && (forall u :: u in next <==> Seen(rows[..i + 1], existingUrls, u))
  {
    assert rows[..i + 1][..i] == rows[..i];
  }

  /**
    `summarize_view`: per URL the sums of the views and new users of its rows; rows whose URL
    the site does not have are skipped.
  */
  method SummarizeView(rows: seq<Row>, existingUrls: set<string>) returns (data: map<string, PageView>)
    ensures forall u :: Get(data, u) == Totals(rows, existingUrls, u)
    ensures forall u :: u in data <==> Seen(rows, existingUrls, u)
  {
    data := map[];
    var i := 0;
    while i < |rows|
      invariant 0 <= i <= |rows|
      invariant forall u :: Get(data, u) == Totals(rows[..i], existingUrls, u)
      invariant forall u :: u in data <==> Seen(rows[..i], existingUrls, u)
    {
      AddRow(rows, i, existingUrls, data);
      var row := rows[i];
      var url := BuildUrl(row.path, existingUrls, BaseUrl);
      if url.None? {
        i := i + 1;
        continue;
      }
      var u := url.value;
      var current := Get(data, u);
      data := data[u := PageView(current.views + row.views, current.newUsers + row.newUsers)];
      i := i + 1;
    }
    assert rows[..i] == rows;
  }

  /** Only the site's own URLs are ever counted, so every key of the summary is one of them. */
  lemma {:induction false} SeenIsExisting(rows: seq<Row>, existingUrls: set<string>, url: string)
    ensures Seen(rows, existingUrls, url) ==> url in existingUrls
    ensures Seen(rows, existingUrls, url) <==> exists k :: 0 <= k < |rows| && CountsFor(rows[k], existingUrls, url)
    decreases |rows|
  {
    if rows != [] {
      var init := rows[..|rows| - 1];
      SeenIsExisting(init, existingUrls, url);
      forall k | 0 <= k < |init| ensures init[k] == rows[k] {}
      if exists k :: 0 <= k < |rows| && CountsFor(rows[k], existingUrls, url) {
        var k :| 0 <= k < |rows| && CountsFor(rows[k], existingUrls, url);
        if k < |init| {
          assert CountsFor(init[k], existingUrls, url);
        }
      }
    }
  }

  /** A URL no row counts towards reads as zero views and zero new users. */
  lemma {:induction false} UnseenIsZero(rows: seq<Row>, existingUrls: set<string>, url: string)
    requires !Seen(rows, existingUrls, url)
    ensures Totals(rows, existingUrls, url) == NoViews
    decreases |rows|
  {
    if rows != [] {
      UnseenIsZero(rows[..|rows| - 1], existingUrls, url);
    }
  }

  /** A row whose URL the site does not have changes no total. */
  lemma SkippedRowChangesNothing(rows: seq<Row>, row: Row, existingUrls: set<string>, url: string)
    requires BaseUrl + row.path !in existingUrls
    ensures Totals(rows + [row], existingUrls, url) == Totals(rows, existingUrls, url)
  {
    assert (rows + [row])[..|rows|] == rows;
  }

  /** The totals of two batches of rows add up: the sums do not depend on how the rows are split. */
  lemma {:induction false} TotalsConcat(a: seq<Row>, b: seq<Row>, existingUrls: set<string>, url: string)
    ensures Totals(a + b, existingUrls, url).views == Totals(a, existingUrls, url).views + Totals(b, existingUrls, url).views
    ensures Totals(a + b, existingUrls, url).newUsers == Totals(a, existingUrls, url).newUsers + Totals(b, existingUrls, url).newUsers
    decreases |b|
  {
    if b == [] {
      assert a + b == a;
    } else {
      var init := b[..|b| - 1];
      TotalsConcat(a, init, existingUrls, url);
      assert (a + b)[..|a + b| - 1] == a + init;
    }
  }
}
