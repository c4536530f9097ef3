/** The row structure of create_csv_data: a fixed header row, then one row per
    entry in input order, each written by a csv writer with delimiter ';'.
    Time formatting, HTML-to-text and the writer's quoting of one field are
    parameters: `formatDate` renders an instant as "%Y-%m-%d %H:%M:%S" in UTC+3,
    `getText` is BeautifulSoup's get_text, `quote` is QUOTE_MINIMAL on one field. */
module Csv {
  import opened Text
  import opened Feeds

  const Header: seq<string> := ["Date", "Title", "Description", "Link"]

  /** The data row of one entry: date, title text, description text, link. */
  function DataRow(e: Entry, formatDate: int -> string, getText: string -> string): seq<string>
    requires e.published.Some?
  {
    [formatDate(e.published.value), getText(e.title), getText(e.summary), e.link]
  }

  /** writerow: the quoted fields joined by ';', then the writer's default line
      terminator "\r\n". */
  function Line(row: seq<string>, quote: string -> string): string {
    Join(seq(|row|, k requires 0 <= k < |row| => quote(row[k])), ';') + "\r\n"
  }

  predicate AllTimestamped(entries: seq<Entry>) {
    forall k :: 0 <= k < |entries| ==> entries[k].published.Some?
  }

  /** The data rows of `entries`, in their order. */
  function Rows(entries: seq<Entry>, formatDate: int -> string, getText: string -> string): seq<seq<string>>
    requires AllTimestamped(entries)
  {
    if entries == [] then []
    else Rows(entries[..|entries| - 1], formatDate, getText)
         + [DataRow(entries[|entries| - 1], formatDate, getText)]
  }

  function Table(entries: seq<Entry>, formatDate: int -> string, getText: string -> string): seq<seq<string>>
    requires AllTimestamped(entries)
  {
    [Header] + Rows(entries, formatDate, getText)
  }

  /** The text the writer leaves in its buffer after writing `rows`. */
  function Render(rows: seq<seq<string>>, quote: string -> string): string {
    if rows == [] then ""
    else Render(rows[..|rows| - 1], quote) + Line(rows[|rows| - 1], quote)
  }

  /** create_csv_data. The text is produced only when every entry has a
      publication instant; the source raises on the first entry without one, so
      that case gives None. */
  method CreateCsvData(entries: seq<Entry>, formatDate: int -> string, getText: string -> string,
                       quote: string -> string)
    returns (csv: Option<string>)
    ensures csv.Some? <==> AllTimestamped(entries)
    ensures csv.Some? ==> csv.value == Render(Table(entries, formatDate, getText), quote)
  {
    var output := Line(Header, quote);
    assert output == Render(Table([], formatDate, getText), quote) by {
      assert Table([], formatDate, getText) == [Header];
      RenderSnoc([], Header, quote);
    }
    for i := 0 to |entries|
      invariant AllTimestamped(entries[..i])
      invariant output == Render(Table(entries[..i], formatDate, getText), quote)
    {
      var entry := entries[i];
      if entry.published.None? {
        return None;
      }
      var row := DataRow(entry, formatDate, getText);
      TableSnoc(entries, i);
      RenderSnoc(Table(entries[..i], formatDate, getText), row, quote);
      output := output + Line(row, quote);
    }
    assert entries[..|entries|] == entries;
    csv := Some(output);
  }

  /** Writing one more row appends its line. */
  lemma RenderSnoc(rows: seq<seq<string>>, row: seq<string>, quote: string -> string)
    ensures Render(rows + [row], quote) == Render(rows, quote) + Line(row, quote)
  {
    assert (rows + [row])[..|rows|] == rows;
  }

  /** The table of one more entry has that entry's row appended. */
  lemma TableSnoc(entries: seq<Entry>, i: nat)
    requires i < |entries| && AllTimestamped(entries[..i]) && entries[i].published.Some?
    ensures AllTimestamped(entries[..i + 1])
    ensures forall formatDate: int -> string, getText: string -> string ::
              Table(entries[..i + 1], formatDate, getText)
              == Table(entries[..i], formatDate, getText) + [DataRow(entries[i], formatDate, getText)]
  {
    var prefix := entries[..i + 1];
    assert prefix[..i] == entries[..i];
    assert AllTimestamped(prefix) by {
      forall k | 0 <= k < |prefix| ensures prefix[k].published.Some? {
        if k < i { assert prefix[k] == entries[..i][k]; }
      }
    }
  }

  /** The table has the header and then exactly one row per entry, in order
      (so N entries give N + 1 rows), each with the fields date, title,
      description, link. */
  lemma {:induction false} TableShape(entries: seq<Entry>, formatDate: int -> string, getText: string -> string)
    requires AllTimestamped(entries)
    ensures |Table(entries, formatDate, getText)| == |entries| + 1
    ensures Table(entries, formatDate, getText)[0] == Header
    ensures forall k :: 0 <= k < |entries| ==>
              Table(entries, formatDate, getText)[k + 1] == DataRow(entries[k], formatDate, getText)
  {
    RowsShape(entries, formatDate, getText);
  }

  lemma {:induction false} RowsShape(entries: seq<Entry>, formatDate: int -> string, getText: string -> string)
    requires AllTimestamped(entries)
    ensures |Rows(entries, formatDate, getText)| == |entries|
    ensures forall k :: 0 <= k < |entries| ==>
              Rows(entries, formatDate, getText)[k] == DataRow(entries[k], formatDate, getText)
  {
    if entries != [] {
      var init := entries[..|entries| - 1];
      assert AllTimestamped(init) by {
        forall k | 0 <= k < |init| ensures init[k].published.Some? {
          assert init[k] == entries[k];
        }
      }
      RowsShape(init, formatDate, getText);
    }
  }

  /** Writing two runs of rows writes the first's lines, then the second's. */
  lemma {:induction false} RenderAppend(a: seq<seq<string>>, b: seq<seq<string>>, quote: string -> string)
    ensures Render(a + b, quote) == Render(a, quote) + Render(b, quote)
    decreases |b|
  {
    if b == [] {
      assert a + b == a;
    } else {
      var b', last := b[..|b| - 1], b[|b| - 1];
      assert a + b == (a + b') + [last];
      assert b == b' + [last];
      RenderAppend(a, b', quote);
      RenderSnoc(a + b', last, quote);
      RenderSnoc(b', last, quote);
    }
  }

  /** The header line, when quoting leaves the four plain header words alone. */
  lemma HeaderLine(quote: string -> string)
    requires forall f :: f in Header ==> quote(f) == f
    ensures Line(Header, quote) == "Date;Title;Description;Link\r\n"
  {
    var quoted := seq(|Header|, k requires 0 <= k < |Header| => quote(Header[k]));
    assert quoted == Header by {
      assert quote(Header[0]) == Header[0] && quote(Header[1]) == Header[1];
      assert quote(Header[2]) == Header[2] && quote(Header[3]) == Header[3];
    }
    HeaderJoin();
  }

  lemma HeaderJoin()
    ensures Join(Header, ';') == "Date;Title;Description;Link"
  {
    var h := Header;
    assert h[1..] == ["Title", "Description", "Link"];
    assert h[1..][1..] == ["Description", "Link"];
    assert h[1..][1..][1..] == ["Link"];
    var last := Join(["Link"], ';');
    assert last == "Link";
    var two := Join(["Description", "Link"], ';');
    assert two == "Description" + ";" + last;
    var three := Join(["Title", "Description", "Link"], ';');
    assert three == "Title" + ";" + two;
    assert Join(h, ';') == "Date" + ";" + three;
    assert "Date" + ";" + ("Title" + ";" + ("Description" + ";" + "Link")) == "Date;Title;Description;Link";
  }

  /** With a quoting that leaves the four plain header words alone, as minimal
      quoting does, the text opens with the line "Date;Title;Description;Link",
      and the rest is the entries' lines. */
  lemma CsvOpensWithHeader(entries: seq<Entry>, formatDate: int -> string, getText: string -> string,
                           quote: string -> string)
    requires AllTimestamped(entries)
    requires forall f :: f in Header ==> quote(f) == f
    ensures Render(Table(entries, formatDate, getText), quote)
            == "Date;Title;Description;Link\r\n" + Render(Rows(entries, formatDate, getText), quote)
  {
    RenderAppend([Header], Rows(entries, formatDate, getText), quote);
    assert [Header][..0] == [];
    assert Render([Header], quote) == Line(Header, quote);
    HeaderLine(quote);
  }
}
