/**
 * The two extractors: the list of supported table names read from the links
 * of the overview page (`get_supported_tables`) and the field schema read
 * from the last table on a table's reference page (`parseTableDetails`).
 * HTTP and HTML parsing are abstracted: a page is its status code and the
 * elements the parser would have returned, in document order.
 */
module Scrape {
  import opened Wrappers
  import opened Strings

  /** The HTTP status code both extractors accept. */
  const StatusOk: int := 200

  // ---------------------------------------------------------------------
  // Table-name extraction

  /** An `<a>` element that has an `href` attribute: that attribute and the element's text. */
  datatype Anchor = Anchor(href: string, text: string)

  /** The link points at a table page: its href is non-empty and starts with the filter. */
  predicate LinksToTable(a: Anchor, filter: string)
  {
    a.href != "" && filter <= a.href
  }

  /** The texts of the anchors that link to a table page, in document order, duplicates kept. */
  function TableLinks(links: seq<Anchor>, filter: string): (r: seq<string>)
    ensures |r| <= |links|
  {
    if links == [] then []
    else (if LinksToTable(links[0], filter) then [links[0].text] else []) + TableLinks(links[1..], filter)
  }

  /** Extraction distributes over concatenation: the result keeps the document's order. */
  lemma {:induction false} TableLinksAppend(a: seq<Anchor>, b: seq<Anchor>, filter: string)
    ensures TableLinks(a + b, filter) == TableLinks(a, filter) + TableLinks(b, filter)
    decreases |a|
  {
    if a == [] {
      assert a + b == b;
    } else {
      var ab := a + b;
      assert ab[0] == a[0] && ab[1..] == a[1..] + b;
      TableLinksAppend(a[1..], b, filter);
      var head := if LinksToTable(a[0], filter) then [a[0].text] else [];
      assert TableLinks(ab, filter) == head + TableLinks(a[1..] + b, filter);
      assert TableLinks(a, filter) == head + TableLinks(a[1..], filter);
      assert head + (TableLinks(a[1..], filter) + TableLinks(b, filter))
          == (head + TableLinks(a[1..], filter)) + TableLinks(b, filter);
    }
  }

  /** A name is extracted exactly when some anchor with that text links to a table page. */
  lemma {:induction false} TableLinksMembers(links: seq<Anchor>, filter: string, t: string)
    ensures t in TableLinks(links, filter) <==>
            exists i :: 0 <= i < |links| && LinksToTable(links[i], filter) && links[i].text == t
    decreases |links|
  {
    if links != [] {
      TableLinksMembers(links[1..], filter, t);
      if exists i :: 0 <= i < |links| && LinksToTable(links[i], filter) && links[i].text == t {
        var i :| 0 <= i < |links| && LinksToTable(links[i], filter) && links[i].text == t;
        if i > 0 {
          assert links[1..][i - 1] == links[i];
        }
      }
      if exists i :: 0 <= i < |links| - 1 && LinksToTable(links[1..][i], filter) && links[1..][i].text == t {
        var i :| 0 <= i < |links| - 1 && LinksToTable(links[1..][i], filter) && links[1..][i].text == t;
        assert links[i + 1] == links[1..][i];
      }
    }
  }

  /** `get_supported_tables`: `None` unless the page was fetched with status 200. */
  method GetSupportedTables(status: int, links: seq<Anchor>, filter: string) returns (r: Option<seq<string>>)
    ensures r == if status == StatusOk then Some(TableLinks(links, filter)) else None
  {
    if status == StatusOk {
      var supportedTables: seq<string> := [];
      for i := 0 to |links|
        invariant supportedTables == TableLinks(links[..i], filter)
      {
        var href := links[i].href;
        if href != "" && filter <= href {
          supportedTables := supportedTables + [links[i].text];
        }
        assert links[..i + 1] == links[..i] + [links[i]];
        TableLinksAppend(links[..i], [links[i]], filter);
      }
      assert links[..|links|] == links;
      r := Some(supportedTables);
    } else {
      r := None;
    }
  }

  // ---------------------------------------------------------------------
  // Schema extraction

  /** A `<tr>` element: its whole text and the texts of its `<td>` cells, in order. */
  datatype Row = Row(text: string, cells: seq<string>)

  /** A fetched reference page: the status code and its `<table>` elements, each as its rows. */
  datatype Page = Page(status: int, tables: seq<seq<Row>>)

  /** One column of a table's schema. */
  datatype Field = Field(name: string, dataType: string)

  /** Rows for internal fields: the stripped row text starts with `_` or with `TenantId`. */
  predicate Reserved(row: Row)
  {
    var s := Strip(row.text);
    "_" <= s || "TenantId" <= s
  }

  /** Indentation in front of a row's text does not change whether the row is reserved. */
  lemma ReservedIgnoresIndent(p: string, row: Row)
    requires forall i :: 0 <= i < |p| ==> IsSpace(p[i])
    ensures Reserved(Row(p + row.text, row.cells)) == Reserved(row)
  {
    StripStartPadding(p, row.text);
  }

  /** The row's `<td>` texts without the last one (the description column). */
  function Cells(row: Row): (c: seq<string>)
    ensures |c| == if row.cells == [] then 0 else |row.cells| - 1
    ensures forall i :: 0 <= i < |c| ==> c[i] == row.cells[i]
  {
    if row.cells == [] then [] else row.cells[..|row.cells| - 1]
  }

  /** A row that is read for a field but has too few cells: it makes the whole schema fail. */
  predicate Malformed(row: Row)
  {
    !Reserved(row) && |Cells(row)| < 2
  }

  /** Both parts present, or the failure of either. */
  function Join(a: Option<seq<Field>>, b: Option<seq<Field>>): Option<seq<Field>>
  {
    if a.Some? && b.Some? then Some(a.value + b.value) else None
  }

  /** The fields given by the rows after the header, or `None` if any kept row is malformed. */
  function BodyFields(body: seq<Row>): (r: Option<seq<Field>>)
    ensures r.Some? ==> |r.value| <= |body|
  {
    if body == [] then Some([])
    else if Reserved(body[0]) then BodyFields(body[1..])
    else if |Cells(body[0])| < 2 then None
    else Join(Some([Field(Cells(body[0])[0], Cells(body[0])[1])]), BodyFields(body[1..]))
  }

  /** The rows of the last table on the page, where the schema is, without the header row. */
  function SchemaRows(page: Page): (r: seq<Row>)
    requires page.tables != []
    ensures |r| == if page.tables[|page.tables| - 1] == [] then 0 else |page.tables[|page.tables| - 1]| - 1
    ensures forall i :: 0 <= i < |r| ==> r[i] == page.tables[|page.tables| - 1][i + 1]
  {
    var rows := page.tables[|page.tables| - 1];
    if rows == [] then [] else rows[1..]
  }

  /** The schema of a page: `None` on a failed fetch, on a page without tables and on a malformed row. */
  function TableDetails(page: Page): (r: Option<seq<Field>>)
    ensures r.Some? ==> page.status == StatusOk && page.tables != [] && |r.value| <= |SchemaRows(page)|
  {
    if page.status != StatusOk || page.tables == [] then None
    else BodyFields(SchemaRows(page))
  }

  /** The rows a schema is read from: every non-reserved row, in order (reference definition). */
  function Kept(body: seq<Row>): (r: seq<Row>)
    ensures |r| <= |body|
  {
    if body == [] then []
    else (if Reserved(body[0]) then [] else [body[0]]) + Kept(body[1..])
  }

  /** The rows kept are exactly the non-reserved ones. */
  lemma {:induction false} KeptMembers(body: seq<Row>, row: Row)
    ensures row in Kept(body) <==> row in body && !Reserved(row)
    decreases |body|
  {
    if body != [] {
      KeptMembers(body[1..], row);
      assert body == [body[0]] + body[1..];
    }
  }

  /** Row-by-row reading: the rows of `a + b` fail if either part fails, else their fields concatenate. */
  lemma {:induction false} BodyFieldsAppend(a: seq<Row>, b: seq<Row>)
    ensures BodyFields(a + b) == Join(BodyFields(a), BodyFields(b))
    decreases |a|
  {
    if a == [] {
      assert a + b == b;
      if BodyFields(b).Some? {
        assert [] + BodyFields(b).value == BodyFields(b).value;
      }
    } else {
      var ab := a + b;
      assert ab[0] == a[0] && ab[1..] == a[1..] + b;
      BodyFieldsAppend(a[1..], b);
      if Reserved(a[0]) {
        assert BodyFields(ab) == BodyFields(a[1..] + b);
      } else if |Cells(a[0])| < 2 {
        assert BodyFields(ab) == None;
      } else {
        var f := [Field(Cells(a[0])[0], Cells(a[0])[1])];
        assert BodyFields(ab) == Join(Some(f), BodyFields(a[1..] + b));
        assert BodyFields(a) == Join(Some(f), BodyFields(a[1..]));
        if BodyFields(a[1..]).Some? && BodyFields(b).Some? {
          assert f + (BodyFields(a[1..]).value + BodyFields(b).value)
              == (f + BodyFields(a[1..]).value) + BodyFields(b).value;
        }
      }
    }
  }

  /** All or nothing: the schema is absent exactly when some non-reserved row lacks two cells. */
  lemma {:induction false} BodyFieldsNone(body: seq<Row>)
    ensures BodyFields(body).None? <==> exists i :: 0 <= i < |body| && Malformed(body[i])
    decreases |body|
  {
    if body != [] {
      BodyFieldsNone(body[1..]);
      if exists i :: 0 <= i < |body| && Malformed(body[i]) {
        var i :| 0 <= i < |body| && Malformed(body[i]);
        if i > 0 {
          assert body[1..][i - 1] == body[i];
        }
      }
      if exists i :: 0 <= i < |body| - 1 && Malformed(body[1..][i]) {
        var i :| 0 <= i < |body| - 1 && Malformed(body[1..][i]);
        assert body[i + 1] == body[1..][i];
      }
    }
  }

  /** A schema that is read gives one field per kept row, in row order, from its first two cells. */
  lemma {:induction false} BodyFieldsFromKept(body: seq<Row>, fields: seq<Field>)
    requires BodyFields(body) == Some(fields)
    ensures |fields| == |Kept(body)|
    ensures forall j :: 0 <= j < |fields| ==>
              |Cells(Kept(body)[j])| >= 2 && fields[j] == Field(Cells(Kept(body)[j])[0], Cells(Kept(body)[j])[1])
    decreases |body|
  {
    if body != [] {
      if Reserved(body[0]) {
        assert BodyFields(body) == BodyFields(body[1..]);
        assert Kept(body) == [] + Kept(body[1..]) == Kept(body[1..]);
        BodyFieldsFromKept(body[1..], fields);
      } else {
        assert |Cells(body[0])| >= 2;
        var rest := BodyFields(body[1..]).value;
        BodyFieldsFromKept(body[1..], rest);
        var kept := Kept(body);
        assert kept == [body[0]] + Kept(body[1..]);
        assert fields == [Field(Cells(body[0])[0], Cells(body[0])[1])] + rest;
        forall j | 0 <= j < |fields|
          ensures |Cells(kept[j])| >= 2 && fields[j] == Field(Cells(kept[j])[0], Cells(kept[j])[1])
        {
          if j > 0 {
            assert kept[j] == Kept(body[1..])[j - 1];
            assert fields[j] == rest[j - 1];
          }
        }
      }
    }
  }

  /** `parseTableDetails` gives `None` exactly on a failed fetch, a page without tables, or a malformed row after the header. */
  lemma TableDetailsNone(page: Page)
    ensures TableDetails(page).None? <==>
            page.status != StatusOk || page.tables == [] ||
            exists i :: 0 <= i < |SchemaRows(page)| && Malformed(SchemaRows(page)[i])
  {
    if page.status == StatusOk && page.tables != [] {
      BodyFieldsNone(SchemaRows(page));
    }
  }

  /** Reading one more row: the outcome for `body[..i + 1]` given the outcome for `body[..i]`. */
  lemma BodyFieldsStep(body: seq<Row>, i: nat)
    requires i < |body|
    ensures BodyFields(body[..i + 1]) ==
            if Reserved(body[i]) then BodyFields(body[..i])
            else if |Cells(body[i])| < 2 then None
            else Join(BodyFields(body[..i]), Some([Field(Cells(body[i])[0], Cells(body[i])[1])]))
  {
    var row := body[i];
    assert body[..i + 1] == body[..i] + [row];
    BodyFieldsAppend(body[..i], [row]);
    assert [row][1..] == [];
    if BodyFields(body[..i]).Some? {
      var acc := BodyFields(body[..i]).value;
      assert acc + [] == acc;
      if !Reserved(row) && |Cells(row)| >= 2 {
        var f := [Field(Cells(row)[0], Cells(row)[1])];
        assert f + [] == f;
      }
    }
  }

  /** A failure in the first rows is a failure of the whole table. */
  lemma BodyFieldsPrefixNone(body: seq<Row>, n: nat)
    requires n <= |body| && BodyFields(body[..n]).None?
    ensures BodyFields(body).None?
  {
    assert body == body[..n] + body[n..];
    BodyFieldsAppend(body[..n], body[n..]);
  }

  /** The row loop of `parseTableDetails`: every row after the header, in order. */
  method ReadFields(body: seq<Row>) returns (r: Option<seq<Field>>)
    ensures r == BodyFields(body)
  {
    var tableDict: seq<Field> := [];
    for i := 0 to |body|
      invariant BodyFields(body[..i]) == Some(tableDict)
    {
      var row := body[i];
      var text := Strip(row.text);
      BodyFieldsStep(body, i);
      if !("_" <= text || "TenantId" <= text) {
        var cells := if row.cells == [] then [] else row.cells[..|row.cells| - 1];
        assert cells == Cells(row);
        if |cells| < 2 {
          // `cells[0]` or `cells[1]` raises IndexError
          BodyFieldsPrefixNone(body, i + 1);
          return None;
        }
        tableDict := tableDict + [Field(cells[0], cells[1])];
      }
    }
    assert body[..|body|] == body;
    r := Some(tableDict);
  }

  /** `parseTableDetails` over a fetched page. */
  method ParseTableDetails(page: Page) returns (r: Option<seq<Field>>)
    ensures r == TableDetails(page)
  {
    if page.status == StatusOk {
      if page.tables == [] {
        // `find_all('table')[-1]` raises IndexError
        return None;
      }
      var rows := page.tables[|page.tables| - 1];
      // `rows[1:]`: every row after the header
      r := ReadFields(if rows == [] then [] else rows[1..]);
    } else {
      r := None;
    }
  }
}
