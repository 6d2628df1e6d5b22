/**
 Paging a Bigtable table's rows by key. The cursor is the last key shown, and the next page starts
 at that key with a zero byte appended.
 */
module BigtablePaging {
  import opened ByteOrder

  const DETAIL_LIMIT := 200

  datatype Listing = Listing(items: seq<string>, more: bool, cursor: string)

  function Start(after: string): string {
    if after == "" then "" else after + ['\U{0000}']
  }

  /** The rows of an infinite range: the keys not below start, in byte order. */
  ghost function RowsFrom(table: set<string>, start: string): seq<string> {
    Sorted(set k | k in table && !Less(k, start))
  }

  /** The page read from a stream of rows: one row more than it shows is read, to see whether
      there is a next page. */
  function PageOf(rows: seq<string>): Listing {
    if |rows| > DETAIL_LIMIT then Listing(rows[..DETAIL_LIMIT], true, rows[DETAIL_LIMIT - 1])
    else Listing(rows, false, "")
  }

  method RowsPage(rows: seq<string>) returns (page: Listing)
    ensures page == PageOf(rows)
  {
    var items: seq<string> := [];
    var i := 0;
    var reading := true;
    while reading && i < |rows|
      invariant 0 <= i <= |rows| && items == rows[..i]
      invariant reading == (i <= DETAIL_LIMIT)
    {
      items := items + [rows[i]];
      i := i + 1;
      reading := |items| <= DETAIL_LIMIT;
    }
    page := Listing(items, false, "");
    if |items| > DETAIL_LIMIT {
      items := items[..DETAIL_LIMIT];
      page := Listing(items, true, items[|items| - 1]);
    }
  }

  // ---- The successor key ----

  /** Appending a zero byte gives the least key above: nothing lies between. */
  lemma {:induction false} SuccessorIsLeast(after: string, k: string)
    ensures Less(after, k) <==> !Less(k, after + ['\U{0000}'])
  {
    var next := after + ['\U{0000}'];
    if after == "" {
      assert next == ['\U{0000}'];
    } else if k != "" && k[0] == after[0] {
      assert next[1..] == after[1..] + ['\U{0000}'];
      SuccessorIsLeast(after[1..], k[1..]);
    }
  }

  predicate Above(after: string, k: string) {
    after == "" || Less(after, k)
  }

  lemma RowsFromAreAbove(table: set<string>, after: string)
    ensures Increasing(RowsFrom(table, Start(after)))
    ensures forall k :: k in RowsFrom(table, Start(after)) <==> k in table && Above(after, k)
  {
    forall k
      ensures k in RowsFrom(table, Start(after)) <==> k in table && Above(after, k)
    {
      if after != "" {
        SuccessorIsLeast(after, k);
      }
    }
  }

  // ---- A table read page by page while it changes ----

  ghost function Page(table: set<string>, after: string): Listing {
    PageOf(RowsFrom(table, Start(after)))
  }

  /** The keys shown when each page reads the table as it then stands. */
  ghost function Shown(tables: seq<set<string>>, after: string): seq<string>
    decreases |tables|
  {
    if tables == [] then []
    else
      var page := Page(tables[0], after);
      page.items + if page.more then Shown(tables[1..], page.cursor) else []
  }

  /** The reading has come to a page with no next one. */
  ghost predicate Ends(tables: seq<set<string>>, after: string)
    decreases |tables|
  {
    tables != [] &&
    var page := Page(tables[0], after);
    page.more ==> Ends(tables[1..], page.cursor)
  }

  /** The cursor splits the rows read: what the page shows, and what is left. */
  lemma CursorSplits(rows: seq<string>)
    requires Increasing(rows) && |rows| > DETAIL_LIMIT
    ensures rows == PageOf(rows).items + rows[DETAIL_LIMIT..]
    ensures forall k :: k in PageOf(rows).items ==> AtMost(k, PageOf(rows).cursor)
    ensures forall k :: k in rows[DETAIL_LIMIT..] ==> Less(PageOf(rows).cursor, k)
    ensures PageOf(rows).cursor in rows && Less("", PageOf(rows).cursor)
  {
    assert Less(rows[0], rows[DETAIL_LIMIT - 1]);
    var items := rows[..DETAIL_LIMIT];
    forall k | k in items
      ensures AtMost(k, rows[DETAIL_LIMIT - 1])
    {
      var i :| 0 <= i < DETAIL_LIMIT && items[i] == k;
      assert i == DETAIL_LIMIT - 1 || Less(rows[i], rows[DETAIL_LIMIT - 1]);
    }
  }

  /** A page's keys are above the cursor it was read from, and what it does not show is above its
      own cursor. */
  lemma PageBounds(table: set<string>, after: string)
    ensures Increasing(Page(table, after).items)
    ensures forall k :: k in Page(table, after).items ==> k in table && Above(after, k)
    ensures Page(table, after).more ==> Less("", Page(table, after).cursor) && Above(after, Page(table, after).cursor)
    ensures Page(table, after).more ==> forall k :: k in Page(table, after).items ==> AtMost(k, Page(table, after).cursor)
    ensures forall k :: k in table && Above(after, k) ==>
      k in Page(table, after).items || (Page(table, after).more && Less(Page(table, after).cursor, k))
  {
    hide RowsFrom;
    var rows := RowsFrom(table, Start(after));
    RowsFromAreAbove(table, after);
    if |rows| > DETAIL_LIMIT {
      CursorSplits(rows);
    }
  }

  /** Whatever is inserted or deleted between pages, keys are shown in strictly increasing order,
      so none twice. */
  lemma {:induction false} ShownIncreases(tables: seq<set<string>>, after: string)
    ensures Increasing(Shown(tables, after))
    ensures forall k :: k in Shown(tables, after) ==> Above(after, k)
    decreases |tables|
  {
    if tables != [] {
      var page := Page(tables[0], after);
      PageBounds(tables[0], after);
      if page.more {
        var rest := Shown(tables[1..], page.cursor);
        ShownIncreases(tables[1..], page.cursor);
        forall x, y | x in page.items && y in rest
          ensures Less(x, y)
        {
          if x != page.cursor {
            LessTransitive(x, page.cursor, y);
          }
        }
        forall y | y in rest
          ensures Above(after, y)
        {
          if after != "" {
            LessTransitive(after, page.cursor, y);
          }
        }
        IncreasingAppend(page.items, rest);
      }
    }
  }

  lemma IncreasingAppend(a: seq<string>, b: seq<string>)
    requires Increasing(a) && Increasing(b)
    requires forall x, y :: x in a && y in b ==> Less(x, y)
    ensures Increasing(a + b)
  {
    var s := a + b;
    forall i, j | 0 <= i < j < |s|
      ensures Less(s[i], s[j])
    {
      if i < |a| <= j {
        assert s[i] in a && s[j] in b;
      }
    }
  }

  /** A row that is there at every page is shown, whatever else changes meanwhile. */
  lemma {:induction false} PresentRowIsShown(tables: seq<set<string>>, after: string, k: string)
    requires Ends(tables, after) && Above(after, k)
    requires forall i :: 0 <= i < |tables| ==> k in tables[i]
    ensures k in Shown(tables, after)
    decreases |tables|
  {
    var page := Page(tables[0], after);
    PageBounds(tables[0], after);
    if k !in page.items {
      PresentRowIsShown(tables[1..], page.cursor, k);
    }
  }

  /** Only rows that were there are shown. */
  lemma {:induction false} ShownRowWasPresent(tables: seq<set<string>>, after: string, k: string)
    requires k in Shown(tables, after)
    ensures exists i :: 0 <= i < |tables| && k in tables[i]
    decreases |tables|
  {
    var page := Page(tables[0], after);
    PageBounds(tables[0], after);
    if k in page.items {
      assert k in tables[0];
    } else {
      ShownRowWasPresent(tables[1..], page.cursor, k);
      var i :| 0 <= i < |tables[1..]| && k in tables[1..][i];
      assert k in tables[i + 1];
    }
  }

  /** The rows of a table that does not change, in key order and each once. */
  lemma StaticTableIsShownWhole(tables: seq<set<string>>, table: set<string>)
    requires Ends(tables, "") && forall i :: 0 <= i < |tables| ==> tables[i] == table
    ensures Shown(tables, "") == Sorted(table)
  {
    ShownIncreases(tables, "");
    forall k
      ensures k in Shown(tables, "") <==> k in Sorted(table)
    {
      if k in table {
        PresentRowIsShown(tables, "", k);
      }
      if k in Shown(tables, "") {
        ShownRowWasPresent(tables, "", k);
      }
    }
    IncreasingIsUnique(Shown(tables, ""), Sorted(table));
  }

  lemma {:induction false} IncreasingIsUnique(a: seq<string>, b: seq<string>)
    requires Increasing(a) && Increasing(b)
    requires forall k :: k in a <==> k in b
    ensures a == b
  {
    HeadIsMember(a);
    HeadIsMember(b);
    if a != [] && b != [] {
      forall i | 0 < i < |a| ensures Less(a[0], a[i]) {}
      forall i | 0 < i < |b| ensures Less(b[0], b[i]) {}
      if a[0] != b[0] {
        LessAsymmetric(a[0], b[0]);
      }
      var a', b' := a[1..], b[1..];
      assert a == [a[0]] + a' && b == [b[0]] + b';
      LessIrreflexive(a[0]);
      assert a[0] !in a' && b[0] !in b';
      forall k
        ensures k in a' <==> k in b'
      {
        assert k in a <==> k == a[0] || k in a';
        assert k in b <==> k == b[0] || k in b';
      }
      IncreasingIsUnique(a', b');
    }
  }

  lemma HeadIsMember(a: seq<string>)
    ensures a == [] || a[0] in a
  {
  }

  /** How many rows n pages show. */
  function Span(n: nat): nat {
    n * DETAIL_LIMIT
  }

  /** A table that does not change is read to its end by exactly as many pages as it fills. */
  lemma {:induction false} StaticTableEnds(table: set<string>, n: nat, after: string)
    ensures Ends(seq(n, _ => table), after) <==> n > 0 && |RowsFrom(table, Start(after))| <= Span(n)
    decreases n
  {
    if n > 0 {
      var tables := seq(n, _ => table);
      var rows := RowsFrom(table, Start(after));
      var page := Page(table, after);
      assert tables[1..] == seq(n - 1, _ => table);
      if page.more {
        NextRows(table, after);
        StaticTableEnds(table, n - 1, page.cursor);
      }
    }
  }

  /** On a static table the next page's rows are those the page left. */
  lemma NextRows(table: set<string>, after: string)
    requires Page(table, after).more
    ensures RowsFrom(table, Start(Page(table, after).cursor)) == RowsFrom(table, Start(after))[DETAIL_LIMIT..]
  {
    hide RowsFrom;
    var rows := RowsFrom(table, Start(after));
    var cursor := Page(table, after).cursor;
    var rest, next := rows[DETAIL_LIMIT..], RowsFrom(table, Start(cursor));
    RowsFromAreAbove(table, after);
    RowsFromAreAbove(table, cursor);
    CursorSplits(rows);
    forall k
      ensures k in rest <==> k in next
    {
      if Less(cursor, k) {
        LessAsymmetric(cursor, k);
        if after != "" {
          LessTransitive(after, cursor, k);
        }
      }
    }
    IncreasingIsUnique(rest, next);
  }
}
