/**
 Paging a database's tables by row offset, and what one table created or dropped between two pages
 does to the list shown.
 */
module SqlPaging {

  const DETAIL_LIMIT := 200

  datatype Row = Row(schema: string, table: string, columns: nat, size: string)

  datatype Listing = Listing(items: seq<Row>, more: bool, cursor: nat)

  function Min(a: nat, b: nat): nat {
    if a < b then a else b
  }

  /** How many rows n pages show. */
  function Span(n: nat): nat {
    n * DETAIL_LIMIT
  }

  /** The ordered catalogue read with LIMIT and OFFSET, one row past the page. */
  function Window(catalogue: seq<Row>, offset: nat): seq<Row> {
    catalogue[Min(offset, |catalogue|)..Min(offset + DETAIL_LIMIT + 1, |catalogue|)]
  }

  function PageAt(catalogue: seq<Row>, offset: nat): Listing {
    if |catalogue| > offset + DETAIL_LIMIT
    then Listing(catalogue[offset..offset + DETAIL_LIMIT], true, offset + DETAIL_LIMIT)
    else Listing(catalogue[Min(offset, |catalogue|)..], false, 0)
  }

  method TablesPage(rows: seq<Row>, offset: nat, ghost catalogue: seq<Row>) returns (page: Listing)
    requires rows == Window(catalogue, offset)
    ensures page == PageAt(catalogue, offset)
  {
    var items: seq<Row> := [];
    for i := 0 to |rows|
      invariant items == rows[..i]
    {
      items := items + [rows[i]];
    }
    assert items == rows;
    assert |rows| > DETAIL_LIMIT ==> rows == catalogue[offset..offset + DETAIL_LIMIT + 1];
    page := Listing(items, false, 0);
    if |items| > DETAIL_LIMIT {
      assert items[..DETAIL_LIMIT] == catalogue[offset..offset + DETAIL_LIMIT];
      page := Listing(items[..DETAIL_LIMIT], true, offset + DETAIL_LIMIT);
    }
  }

  /** The rows shown when each page reads the catalogue as it then stands. */
  function Shown(catalogues: seq<seq<Row>>, offset: nat): seq<Row>
    decreases |catalogues|
  {
    if catalogues == [] then []
    else
      var page := PageAt(catalogues[0], offset);
      page.items + if page.more then Shown(catalogues[1..], page.cursor) else []
  }

  predicate Ends(catalogues: seq<seq<Row>>, offset: nat)
    decreases |catalogues|
  {
    catalogues != [] &&
    var page := PageAt(catalogues[0], offset);
    page.more ==> Ends(catalogues[1..], page.cursor)
  }

  function Copies(c: seq<Row>, n: nat): seq<seq<Row>> {
    seq(n, _ => c)
  }

  lemma NextPageShown(c: seq<Row>, rest: seq<seq<Row>>, offset: nat)
    requires |c| > offset + DETAIL_LIMIT
    ensures Shown([c] + rest, offset) == c[offset..offset + DETAIL_LIMIT] + Shown(rest, offset + DETAIL_LIMIT)
    ensures Ends([c] + rest, offset) == Ends(rest, offset + DETAIL_LIMIT)
  {
    assert ([c] + rest)[1..] == rest;
  }

  lemma LastPageShown(c: seq<Row>, rest: seq<seq<Row>>, offset: nat)
    requires offset <= |c| <= offset + DETAIL_LIMIT
    ensures Shown([c] + rest, offset) == c[offset..] && Ends([c] + rest, offset)
  {
    assert c[offset..] + [] == c[offset..];
  }

  lemma JoinSlices(c: seq<Row>, i: nat, j: nat, k: nat)
    requires i <= j <= k <= |c|
    ensures c[i..j] + c[j..k] == c[i..k]
  {
  }

  lemma CopiesStep(c: seq<Row>, n: nat)
    requires n > 0
    ensures Copies(c, n) == [c] + Copies(c, n - 1)
  {
  }

  lemma NoPages(c: seq<Row>, offset: nat)
    ensures Shown(Copies(c, 0), offset) == [] && !Ends(Copies(c, 0), offset)
  {
  }

  /** A catalogue that does not change: the pages join to its rows from the offset on. */
  lemma {:induction false} StaticShown(c: seq<Row>, n: nat, offset: nat)
    requires offset <= |c|
    ensures Shown(Copies(c, n), offset) == c[offset..Min(offset + Span(n), |c|)]
    decreases n
  {
    hide Shown, Ends, Copies, PageAt;
    if n == 0 {
      NoPages(c, offset);
    } else {
      CopiesStep(c, n);
      if |c| > offset + DETAIL_LIMIT {
        NextPageShown(c, Copies(c, n - 1), offset);
        StaticShown(c, n - 1, offset + DETAIL_LIMIT);
        JoinSlices(c, offset, offset + DETAIL_LIMIT, Min(offset + Span(n), |c|));
      } else {
        LastPageShown(c, Copies(c, n - 1), offset);
      }
    }
  }

  /** A catalogue that does not change has a next page exactly while rows are left. */
  lemma {:induction false} StaticEnds(c: seq<Row>, n: nat, offset: nat)
    requires offset <= |c|
    ensures Ends(Copies(c, n), offset) <==> n > 0 && |c| <= offset + Span(n)
    decreases n
  {
    hide Shown, Ends, Copies, PageAt;
    if n == 0 {
      NoPages(c, offset);
    } else {
      CopiesStep(c, n);
      if |c| > offset + DETAIL_LIMIT {
        NextPageShown(c, Copies(c, n - 1), offset);
        StaticEnds(c, n - 1, offset + DETAIL_LIMIT);
      } else {
        LastPageShown(c, Copies(c, n - 1), offset);
      }
    }
  }

  /** j pages of one catalogue and then the rest from another. */
  lemma {:induction false} ChangedShown(c: seq<Row>, d: seq<Row>, j: nat, n: nat, offset: nat)
    requires offset + Span(j) < |c| && offset + Span(j) <= |d|
    requires n > 0 && |d| <= offset + Span(j + n)
    ensures Shown(Copies(c, j) + Copies(d, n), offset) ==
      c[offset..offset + Span(j)] + d[offset + Span(j)..]
    decreases j
  {
    if j == 0 {
      assert Copies(c, 0) + Copies(d, n) == Copies(d, n);
      StaticShown(d, n, offset);
      assert c[offset..offset] + d[offset..] == d[offset..] == d[offset..|d|];
    } else {
      hide Shown, Copies;
      var edge, m := offset + DETAIL_LIMIT, offset + Span(j);
      CopiesStep(c, j);
      assert Copies(c, j) + Copies(d, n) == [c] + (Copies(c, j - 1) + Copies(d, n));
      NextPageShown(c, Copies(c, j - 1) + Copies(d, n), offset);
      ChangedShown(c, d, j - 1, n, edge);
      assert c[offset..edge] + (c[edge..m] + d[m..]) == c[offset..m] + d[m..];
    }
  }

  lemma SplitAtInserted(c: seq<Row>, at: nat, row: Row, edge: nat)
    requires at <= |c| && 0 < edge < |c|
    ensures var d := c[..at] + [row] + c[at..];
      c[..edge] + d[edge..] == if at < edge then c[..edge] + [c[edge - 1]] + c[edge..] else d
  {
    var d := c[..at] + [row] + c[at..];
    if at < edge {
      assert d[edge..] == [c[edge - 1]] + c[edge..];
    } else {
      assert d[..edge] == c[..edge];
      assert d == d[..edge] + d[edge..];
    }
  }

  lemma SplitAtRemoved(c: seq<Row>, at: nat, edge: nat)
    requires at < |c| && 0 < edge < |c|
    ensures var d := c[..at] + c[at + 1..];
      c[..edge] + d[edge..] == if at < edge then c[..edge] + c[edge + 1..] else d
  {
    var d := c[..at] + c[at + 1..];
    if at < edge {
      assert d[edge..] == c[edge + 1..];
    } else {
      assert d[..edge] == c[..edge];
      assert d == d[..edge] + d[edge..];
    }
  }

  /** A table created while j pages have been shown: before the pages' edge it repeats the one row
      at the edge and is not shown itself; after the edge everything is shown once. */
  lemma CreatedBetweenPages(c: seq<Row>, at: nat, row: Row, j: nat, n: nat)
    requires at <= |c| && 0 < Span(j) < |c| && n > 0 && |c| < Span(j + n)
    ensures var edge, d := Span(j), c[..at] + [row] + c[at..];
      Shown(Copies(c, j) + Copies(d, n), 0) ==
        if at < edge then c[..edge] + [c[edge - 1]] + c[edge..] else d
  {
    hide Shown;
    var edge, d := Span(j), c[..at] + [row] + c[at..];
    ChangedShown(c, d, j, n, 0);
    assert c[0..edge] == c[..edge];
    SplitAtInserted(c, at, row, edge);
  }

  /** A table dropped while j pages have been shown: before the edge it makes the list skip the one
      row at the edge; after the edge nothing is skipped. */
  lemma DroppedBetweenPages(c: seq<Row>, at: nat, j: nat, n: nat)
    requires at < |c| && 0 < Span(j) < |c| && n > 0 && |c| <= Span(j + n)
    ensures var edge, d := Span(j), c[..at] + c[at + 1..];
      Shown(Copies(c, j) + Copies(d, n), 0) ==
        if at < edge then c[..edge] + c[edge + 1..] else d
  {
    hide Shown;
    var edge, d := Span(j), c[..at] + c[at + 1..];
    ChangedShown(c, d, j, n, 0);
    assert c[0..edge] == c[..edge];
    SplitAtRemoved(c, at, edge);
  }
}
