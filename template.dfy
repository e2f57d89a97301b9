/**
 * The deployment template (a data collection rule, "DCR") and its assembly:
 * `dataFlow`, the skeleton produced by `loadDCRTemplate`, and `buildDCR`.
 * Only the two collections the tool fills in are modelled; the rest of the
 * template is carried along unchanged as `rest`.
 */
module Template {
  import opened Wrappers
  import opened Strings
  import opened Scrape

  const StreamPrefix: string := "Custom-"
  const OutputPrefix: string := "Microsoft-"
  const Destination: string := "logAnalyticsWorkspace"
  const Transform: string := "source"

  /** A stream declaration: `{"columns": ...}`, where the columns may be `null` when the schema could not be read. */
  datatype StreamDecl = StreamDecl(columns: Option<seq<Field>>)

  /** A data flow from one input stream to one output table. */
  datatype Flow = Flow(streams: seq<string>, destinations: seq<string>, transformKql: string, outputStream: string)

  /** The template: everything it holds besides the two variable collections, the stream declarations and the data flows. */
  datatype Dcr = Dcr(rest: string, streamDeclarations: map<string, StreamDecl>, dataFlows: seq<Flow>)

  /** The stream identifier under which a table is declared. */
  function StreamKey(table: string): string
  {
    StreamPrefix + table
  }

  /** The table a flow routes, provided the flow has the shape `dataFlow` gives it. */
  function FlowTable(f: Flow): Option<string>
  {
    if |f.streams| == 1 && |StreamPrefix| <= |f.streams[0]| && f.streams[0][..|StreamPrefix|] == StreamPrefix then
      var table := f.streams[0][|StreamPrefix|..];
      if f.destinations == [Destination] && f.transformKql == Transform && f.outputStream == OutputPrefix + table
      then Some(table)
      else None
    else None
  }

  /** `dataFlow`: the flow reading `Custom-<table>` and writing `Microsoft-<table>` through the workspace destination. */
  function DataFlow(table: string): (f: Flow)
    ensures FlowTable(f) == Some(table)
  {
    var f := Flow([StreamKey(table)], [Destination], Transform, OutputPrefix + table);
    assert f.streams[0][|StreamPrefix|..] == table;
    f
  }

  /** A flow names a table only if it is that table's flow: `FlowTable` inverts `DataFlow`. */
  lemma FlowTableInverse(f: Flow, table: string)
    requires FlowTable(f) == Some(table)
    ensures f == DataFlow(table)
  {
    assert f.streams == [f.streams[0]];
    assert f.streams[0] == f.streams[0][..|StreamPrefix|] + f.streams[0][|StreamPrefix|..];
  }

  /** Both variable collections are empty. */
  predicate Cleared(d: Dcr)
  {
    d.streamDeclarations == map[] && d.dataFlows == []
  }

  /**
   * Declarations and flows are in step: one flow per declaration, every
   * flow reads a single declared stream, and no two flows read the same one.
   */
  predicate Paired(d: Dcr)
  {
    && |d.dataFlows| == |d.streamDeclarations|
    && (forall i :: 0 <= i < |d.dataFlows| ==>
          |d.dataFlows[i].streams| == 1 && d.dataFlows[i].streams[0] in d.streamDeclarations)
    && (forall i, j :: 0 <= i < j < |d.dataFlows| ==> d.dataFlows[i].streams != d.dataFlows[j].streams)
  }

  /** `loadDCRTemplate` once the page text has been parsed into `document`: `None` on a failed fetch, else the document with its two collections emptied. */
  function LoadTemplate(status: int, document: Dcr): (r: Option<Dcr>)
    ensures r.Some? <==> status == StatusOk
    ensures r.Some? ==> Cleared(r.value) && Paired(r.value) && r.value.rest == document.rest
  {
    if status == StatusOk then Some(document.(streamDeclarations := map[], dataFlows := [])) else None
  }

  /** The entry of `supported` that request `t` may insert: a case-insensitive match whose key is not yet declared. */
  predicate Insertable(decls: map<string, StreamDecl>, supported: seq<string>, t: string, i: nat)
    requires i < |supported|
  {
    Lower(supported[i]) == Lower(t) && StreamKey(supported[i]) !in decls
  }

  /** The inner search of `buildDCR` from position `i` on: the first insertable entry, if any. */
  function MatchFrom(decls: map<string, StreamDecl>, supported: seq<string>, t: string, i: nat): (r: Option<nat>)
    requires i <= |supported|
    ensures r.Some? ==> i <= r.value < |supported| && Insertable(decls, supported, t, r.value)
    ensures r.Some? ==> forall j :: i <= j < r.value ==> !Insertable(decls, supported, t, j)
    ensures r.None? ==> forall j :: i <= j < |supported| ==> !Insertable(decls, supported, t, j)
    decreases |supported| - i
  {
    if i == |supported| then None
    else if Insertable(decls, supported, t, i) then Some(i)
    else MatchFrom(decls, supported, t, i + 1)
  }

  /** One request handled by `buildDCR`: insert the schema and the flow of the first insertable entry. */
  function AddStream(d: Dcr, supported: seq<string>, t: string, fetch: string -> Page): (r: Dcr)
    ensures r.rest == d.rest && d.streamDeclarations.Keys <= r.streamDeclarations.Keys
    ensures |d.dataFlows| <= |r.dataFlows| <= |d.dataFlows| + 1
  {
    match MatchFrom(d.streamDeclarations, supported, t, 0)
    case None => d
    case Some(i) =>
      var canonical := supported[i];
      d.(streamDeclarations := d.streamDeclarations[StreamKey(canonical) := StreamDecl(TableDetails(fetch(canonical)))],
         dataFlows := d.dataFlows + [DataFlow(canonical)])
  }

  /** `buildDCR`: the requests handled one after the other, in order, on a copy of the template. */
  function Build(d: Dcr, supported: seq<string>, requested: seq<string>, fetch: string -> Page): (r: Dcr)
    ensures r.rest == d.rest && |d.dataFlows| <= |r.dataFlows| <= |d.dataFlows| + |requested|
    decreases |requested|
  {
    if requested == [] then d
    else Build(AddStream(d, supported, requested[0], fetch), supported, requested[1..], fetch)
  }

  /** `buildDCR` on the template `template`, with `fetch` standing for the reference-page downloads. */
  method BuildDcr(template: Dcr, supported: seq<string>, tablesForDcr: seq<string>, fetch: string -> Page)
    returns (dcr: Dcr)
    ensures dcr == Build(template, supported, tablesForDcr, fetch)
  {
    // `deepcopy`: a datatype value shares nothing that could be changed through it
    dcr := template;
    var lowerSupportedTables := seq(|supported|, i requires 0 <= i < |supported| => Lower(supported[i]));
    for k := 0 to |tablesForDcr|
      invariant Build(dcr, supported, tablesForDcr[k..], fetch) == Build(template, supported, tablesForDcr, fetch)
    {
      var table := tablesForDcr[k];
      assert tablesForDcr[k..][1..] == tablesForDcr[k + 1..];
      ghost var before := dcr;
      var index := 0;
      while index < |lowerSupportedTables|
        invariant 0 <= index <= |supported|
        invariant dcr == before
        invariant MatchFrom(before.streamDeclarations, supported, table, index)
               == MatchFrom(before.streamDeclarations, supported, table, 0)
      {
        var item := lowerSupportedTables[index];
        LowerIdempotent(supported[index]);
        if Lower(item) == Lower(table) && StreamKey(supported[index]) !in dcr.streamDeclarations {
          var columns := ParseTableDetails(fetch(supported[index]));
          dcr := dcr.(streamDeclarations := dcr.streamDeclarations[StreamKey(supported[index]) := StreamDecl(columns)],
                      dataFlows := dcr.dataFlows + [DataFlow(supported[index])]);
          break;
        }
        index := index + 1;
      }
      assert dcr == AddStream(before, supported, table, fetch);
    }
  }

  // ---------------------------------------------------------------------
  // Properties of the assembly

  /** A request changes the template exactly when some case-insensitive match is not declared yet. */
  lemma AddStreamChanges(d: Dcr, supported: seq<string>, t: string, fetch: string -> Page)
    ensures AddStream(d, supported, t, fetch) != d <==>
            exists i :: 0 <= i < |supported| && Insertable(d.streamDeclarations, supported, t, i)
  {
    var m := MatchFrom(d.streamDeclarations, supported, t, 0);
    if m.Some? {
      assert |AddStream(d, supported, t, fetch).dataFlows| == |d.dataFlows| + 1;
    }
  }

  /** A request with no case-insensitive match among the supported tables adds nothing. */
  lemma UnknownTableSkipped(d: Dcr, supported: seq<string>, t: string, fetch: string -> Page)
    requires forall i :: 0 <= i < |supported| ==> Lower(supported[i]) != Lower(t)
    ensures AddStream(d, supported, t, fetch) == d
  {
    AddStreamChanges(d, supported, t, fetch);
  }

  /** One request keeps declarations and flows in step. */
  lemma AddStreamPaired(d: Dcr, supported: seq<string>, t: string, fetch: string -> Page)
    requires Paired(d)
    ensures Paired(AddStream(d, supported, t, fetch))
  {
    var m := MatchFrom(d.streamDeclarations, supported, t, 0);
    if m.Some? {
      var r := AddStream(d, supported, t, fetch);
      var key := StreamKey(supported[m.value]);
      assert key !in d.streamDeclarations;
      assert r.dataFlows[|d.dataFlows|].streams == [key];
      forall i, j | 0 <= i < j < |r.dataFlows|
        ensures r.dataFlows[i].streams != r.dataFlows[j].streams
      {
        if j == |d.dataFlows| {
          assert r.dataFlows[i] == d.dataFlows[i];
          assert d.dataFlows[i].streams[0] in d.streamDeclarations;
        }
      }
    }
  }

  /** `buildDCR` keeps declarations and flows in step; started from the cleared skeleton, it never declares a stream twice and adds one flow per declaration. */
  lemma {:induction false} BuildPaired(d: Dcr, supported: seq<string>, requested: seq<string>, fetch: string -> Page)
    requires Paired(d)
    ensures Paired(Build(d, supported, requested, fetch))
    decreases |requested|
  {
    if requested != [] {
      AddStreamPaired(d, supported, requested[0], fetch);
      BuildPaired(AddStream(d, supported, requested[0], fetch), supported, requested[1..], fetch);
    }
  }

  /** `buildDCR` only adds: the rest of the template, the existing declarations and the existing flows, in order, are kept. */
  lemma {:induction false} BuildExtends(d: Dcr, supported: seq<string>, requested: seq<string>, fetch: string -> Page)
    ensures Build(d, supported, requested, fetch).rest == d.rest
    ensures |d.dataFlows| <= |Build(d, supported, requested, fetch).dataFlows|
    ensures Build(d, supported, requested, fetch).dataFlows[..|d.dataFlows|] == d.dataFlows
    ensures forall k :: k in d.streamDeclarations ==>
              k in Build(d, supported, requested, fetch).streamDeclarations &&
              Build(d, supported, requested, fetch).streamDeclarations[k] == d.streamDeclarations[k]
    decreases |requested|
  {
    if requested != [] {
      var d' := AddStream(d, supported, requested[0], fetch);
      BuildExtends(d', supported, requested[1..], fetch);
      var r := Build(d, supported, requested, fetch);
      assert r.dataFlows[..|d.dataFlows|] == r.dataFlows[..|d'.dataFlows|][..|d.dataFlows|];
    }
  }

  /** Requests are handled in order: building for `a + b` is building for `a` and then for `b`. */
  lemma {:induction false} BuildConcat(d: Dcr, supported: seq<string>, a: seq<string>, b: seq<string>, fetch: string -> Page)
    ensures Build(d, supported, a + b, fetch) == Build(Build(d, supported, a, fetch), supported, b, fetch)
    decreases |a|
  {
    if a == [] {
      assert a + b == b;
    } else {
      assert (a + b)[0] == a[0] && (a + b)[1..] == a[1..] + b;
      BuildConcat(AddStream(d, supported, a[0], fetch), supported, a[1..], b, fetch);
    }
  }

  /** The entry a new key or flow comes from: a supported table, spelled as in `supported`, that matches request `j` case-insensitively. */
  predicate Canonical(supported: seq<string>, requested: seq<string>, i: int, j: int)
  {
    0 <= i < |supported| && 0 <= j < |requested| && Lower(supported[i]) == Lower(requested[j])
  }

  /** A declaration `buildDCR` may add for `requested`: that of a supported table matching a request, under its canonical key, with its schema. */
  ghost predicate DeclOrigin(supported: seq<string>, requested: seq<string>, fetch: string -> Page, k: string, decl: StreamDecl)
  {
    exists i, j :: Canonical(supported, requested, i, j) && k == StreamKey(supported[i]) &&
                   decl == StreamDecl(TableDetails(fetch(supported[i])))
  }

  /** A flow `buildDCR` may add for `requested`: that of a supported table matching a request, spelled as in `supported`. */
  ghost predicate FlowOrigin(supported: seq<string>, requested: seq<string>, f: Flow)
  {
    exists i, j :: Canonical(supported, requested, i, j) && f == DataFlow(supported[i])
  }

  /** Origins found for the later requests are origins for the whole request list. */
  lemma OriginsOfTail(supported: seq<string>, requested: seq<string>, fetch: string -> Page, k: string, decl: StreamDecl, f: Flow)
    requires requested != []
    ensures DeclOrigin(supported, requested[1..], fetch, k, decl) ==> DeclOrigin(supported, requested, fetch, k, decl)
    ensures FlowOrigin(supported, requested[1..], f) ==> FlowOrigin(supported, requested, f)
  {
    var tail := requested[1..];
    if DeclOrigin(supported, tail, fetch, k, decl) {
      var i, j :| Canonical(supported, tail, i, j) && k == StreamKey(supported[i]) &&
                  decl == StreamDecl(TableDetails(fetch(supported[i])));
      assert Canonical(supported, requested, i, j + 1);
    }
    if FlowOrigin(supported, tail, f) {
      var i, j :| Canonical(supported, tail, i, j) && f == DataFlow(supported[i]);
      assert Canonical(supported, requested, i, j + 1);
    }
  }

  /**
   * Every declaration and every flow that `buildDCR` adds is that of a supported
   * table, with the spelling of the supported list, matching a request
   * case-insensitively; the declaration holds that table's schema.
   */
  lemma {:induction false} BuildProvenance(d: Dcr, supported: seq<string>, requested: seq<string>, fetch: string -> Page)
    ensures var r := Build(d, supported, requested, fetch);
            forall k :: k in r.streamDeclarations && k !in d.streamDeclarations ==>
              DeclOrigin(supported, requested, fetch, k, r.streamDeclarations[k])
    ensures var r := Build(d, supported, requested, fetch);
            forall n :: |d.dataFlows| <= n < |r.dataFlows| ==> FlowOrigin(supported, requested, r.dataFlows[n])
    decreases |requested|
  {
    if requested != [] {
      var d' := AddStream(d, supported, requested[0], fetch);
      var tail := requested[1..];
      BuildProvenance(d', supported, tail, fetch);
      BuildExtends(d', supported, tail, fetch);
      var r := Build(d', supported, tail, fetch);
      var mm := MatchFrom(d.streamDeclarations, supported, requested[0], 0);
      forall k | k in r.streamDeclarations && k !in d.streamDeclarations
        ensures DeclOrigin(supported, requested, fetch, k, r.streamDeclarations[k])
      {
        if k in d'.streamDeclarations {
          assert Canonical(supported, requested, mm.value, 0);
        } else {
          OriginsOfTail(supported, requested, fetch, k, r.streamDeclarations[k], DataFlow(k));
        }
      }
      forall n | |d.dataFlows| <= n < |r.dataFlows|
        ensures FlowOrigin(supported, requested, r.dataFlows[n])
      {
        if n < |d'.dataFlows| {
          assert mm.Some?;
          assert d'.dataFlows == d.dataFlows + [DataFlow(supported[mm.value])];
          assert r.dataFlows[n] == r.dataFlows[..|d'.dataFlows|][n] == d'.dataFlows[n];
          assert Canonical(supported, requested, mm.value, 0);
        } else {
          OriginsOfTail(supported, requested, fetch, "", StreamDecl(None), r.dataFlows[n]);
        }
      }
    }
  }

  /** Once every case-insensitive match of every request is declared, further requests change nothing. */
  lemma {:induction false} BuildSaturated(d: Dcr, supported: seq<string>, requested: seq<string>, fetch: string -> Page)
    requires forall i, j :: Canonical(supported, requested, i, j) ==> StreamKey(supported[i]) in d.streamDeclarations
    ensures Build(d, supported, requested, fetch) == d
    decreases |requested|
  {
    if requested != [] {
      forall i | 0 <= i < |supported| && Insertable(d.streamDeclarations, supported, requested[0], i)
        ensures false
      {
        assert Canonical(supported, requested, i, 0);
      }
      AddStreamChanges(d, supported, requested[0], fetch);
      forall i, j | Canonical(supported, requested[1..], i, j)
        ensures StreamKey(supported[i]) in d.streamDeclarations
      {
        assert Canonical(supported, requested, i, j + 1);
      }
      BuildSaturated(d, supported, requested[1..], fetch);
    }
  }

  /** Request `t` is covered by `decls` when one of its case-insensitive matches in `supported` is declared. */
  ghost predicate Covered(decls: map<string, StreamDecl>, supported: seq<string>, t: string)
  {
    exists c :: 0 <= c < |supported| && Lower(supported[c]) == Lower(t) && StreamKey(supported[c]) in decls
  }

  /** After one request with a supported match, some match of it is declared: the one just added, or one declared before. */
  lemma AddStreamCovers(d: Dcr, supported: seq<string>, t: string, i: nat, fetch: string -> Page)
    requires i < |supported| && Lower(supported[i]) == Lower(t)
    ensures Covered(AddStream(d, supported, t, fetch).streamDeclarations, supported, t)
  {
    var r := AddStream(d, supported, t, fetch);
    match MatchFrom(d.streamDeclarations, supported, t, 0)
    case None =>
      assert !Insertable(d.streamDeclarations, supported, t, i);
      assert StreamKey(supported[i]) in r.streamDeclarations;
    case Some(c) =>
      assert Lower(supported[c]) == Lower(t) && StreamKey(supported[c]) in r.streamDeclarations;
  }

  /** Every request that has a case-insensitive match in `supported` ends with some match of it declared. */
  lemma {:induction false} BuildCovers(d: Dcr, supported: seq<string>, requested: seq<string>, fetch: string -> Page)
    ensures forall i, j :: Canonical(supported, requested, i, j) ==>
              Covered(Build(d, supported, requested, fetch).streamDeclarations, supported, requested[j])
    decreases |requested|
  {
    if requested != [] {
      var d' := AddStream(d, supported, requested[0], fetch);
      var tail := requested[1..];
      var r := Build(d, supported, requested, fetch);
      assert r == Build(d', supported, tail, fetch);
      BuildCovers(d', supported, tail, fetch);
      BuildExtends(d', supported, tail, fetch);
      forall i, j | Canonical(supported, requested, i, j)
        ensures Covered(r.streamDeclarations, supported, requested[j])
      {
        if j == 0 {
          AddStreamCovers(d, supported, requested[0], i, fetch);
          var c :| 0 <= c < |supported| && Lower(supported[c]) == Lower(requested[0]) && StreamKey(supported[c]) in d'.streamDeclarations;
          assert StreamKey(supported[c]) in r.streamDeclarations;
        } else {
          assert Canonical(supported, tail, i, j - 1);
          assert tail[j - 1] == requested[j];
        }
      }
    }
  }

  /**
   * Requests that are all case variants of one supported table, which the
   * supported list spells one way only, give exactly one declaration and one
   * flow, under the supported spelling.
   */
  lemma CaseVariantsAddOnce(d: Dcr, supported: seq<string>, requested: seq<string>, c: nat, fetch: string -> Page)
    requires c < |supported|
    requires forall i :: 0 <= i < |supported| && Lower(supported[i]) == Lower(supported[c]) ==> i == c
    requires forall j :: 0 <= j < |requested| ==> Lower(requested[j]) == Lower(supported[c])
    requires requested != [] && StreamKey(supported[c]) !in d.streamDeclarations
    ensures Build(d, supported, requested, fetch) ==
            d.(streamDeclarations := d.streamDeclarations[StreamKey(supported[c]) := StreamDecl(TableDetails(fetch(supported[c])))],
               dataFlows := d.dataFlows + [DataFlow(supported[c])])
  {
    var m := MatchFrom(d.streamDeclarations, supported, requested[0], 0);
    assert Insertable(d.streamDeclarations, supported, requested[0], c);
    assert m == Some(c);
    var d' := AddStream(d, supported, requested[0], fetch);
    forall i, j | Canonical(supported, requested[1..], i, j)
      ensures StreamKey(supported[i]) in d'.streamDeclarations
    {
      assert requested[1..][j] == requested[j + 1];
      assert i == c;
    }
    BuildSaturated(d', supported, requested[1..], fetch);
  }

  /**
   * Building for one supported table on the cleared skeleton (what option E
   * does for every table) gives one declaration and one flow, for the first
   * entry of the supported list that matches the table case-insensitively.
   */
  lemma SingleTableBuild(d: Dcr, supported: seq<string>, i: nat, fetch: string -> Page)
    requires Cleared(d) && i < |supported|
    ensures var r := Build(d, supported, [supported[i]], fetch);
            exists c :: 0 <= c <= i && Lower(supported[c]) == Lower(supported[i]) &&
                        (forall c' :: 0 <= c' < c ==> Lower(supported[c']) != Lower(supported[i])) &&
                        r.rest == d.rest && r.dataFlows == [DataFlow(supported[c])] &&
                        r.streamDeclarations == map[StreamKey(supported[c]) := StreamDecl(TableDetails(fetch(supported[c])))]
  {
    var m := MatchFrom(d.streamDeclarations, supported, supported[i], 0);
    assert Insertable(d.streamDeclarations, supported, supported[i], i);
    var c := m.value;
    assert c <= i;
    assert [supported[i]][1..] == [];
    var r := Build(d, supported, [supported[i]], fetch);
    assert r == Build(AddStream(d, supported, supported[i], fetch), supported, [], fetch);
    assert r == AddStream(d, supported, supported[i], fetch);
    assert r.dataFlows == [] + [DataFlow(supported[c])] == [DataFlow(supported[c])];
    assert r.streamDeclarations == map[StreamKey(supported[c]) := StreamDecl(TableDetails(fetch(supported[c])))];
    forall c' | 0 <= c' < c
      ensures Lower(supported[c']) != Lower(supported[i])
    {
      assert !Insertable(d.streamDeclarations, supported, supported[i], c');
    }
  }

  /** A template with one stream declaration and one flow. */
  predicate SingleTable(d: Dcr)
  {
    |d.dataFlows| == 1 && |d.streamDeclarations| == 1
  }

  /** On the cleared skeleton a single-table build holds one declaration and one flow. */
  lemma SingleTableCounts(d: Dcr, supported: seq<string>, i: nat, fetch: string -> Page)
    requires Cleared(d) && i < |supported|
    ensures SingleTable(Build(d, supported, [supported[i]], fetch))
  {
    SingleTableBuild(d, supported, i, fetch);
  }

  /** The single-table build of the end-to-end example: `Syslog` among `Syslog` and `SecurityEvent`. */
  lemma SyslogScenario(d: Dcr, fetch: string -> Page)
    requires Cleared(d)
    ensures var r := Build(d, ["Syslog", "SecurityEvent"], ["Syslog"], fetch);
            r.streamDeclarations.Keys == {"Custom-Syslog"} && |r.dataFlows| == 1 &&
            r.streamDeclarations["Custom-Syslog"] == StreamDecl(TableDetails(fetch("Syslog"))) &&
            r.dataFlows[0].streams == ["Custom-Syslog"] && r.dataFlows[0].outputStream == "Microsoft-Syslog"
  {
    var supported := ["Syslog", "SecurityEvent"];
    assert Insertable(d.streamDeclarations, supported, "Syslog", 0);
    assert MatchFrom(d.streamDeclarations, supported, "Syslog", 0) == Some(0);
    assert ["Syslog"][1..] == [];
    var r := Build(d, supported, ["Syslog"], fetch);
    assert r == AddStream(d, supported, "Syslog", fetch);
    assert r.dataFlows == [] + [DataFlow("Syslog")];
    assert r.streamDeclarations == map[][StreamKey("Syslog") := StreamDecl(TableDetails(fetch("Syslog")))];
    assert StreamKey("Syslog") == "Custom-Syslog";
    assert DataFlow("Syslog").outputStream == "Microsoft-Syslog";
  }

  /** `SYSLOG`, `syslog` and `Syslog` requested against `Syslog` and `SecurityEvent` resolve to one `Syslog` pair. */
  lemma CaseVariantScenario(d: Dcr, fetch: string -> Page)
    requires Cleared(d)
    ensures var r := Build(d, ["Syslog", "SecurityEvent"], ["SYSLOG", "syslog", "Syslog"], fetch);
            r.streamDeclarations.Keys == {"Custom-Syslog"} && r.dataFlows == [DataFlow("Syslog")]
  {
    var supported := ["Syslog", "SecurityEvent"];
    var requested := ["SYSLOG", "syslog", "Syslog"];
    assert Lower(supported[1])[1] != Lower(supported[0])[1];
    forall j | 0 <= j < |requested|
      ensures Lower(requested[j]) == Lower(supported[0])
    {
      assert forall n :: 0 <= n < 6 ==> Lower(requested[j])[n] == Lower(supported[0])[n];
    }
    CaseVariantsAddOnce(d, supported, requested, 0, fetch);
    var r := Build(d, supported, requested, fetch);
    assert r.dataFlows == [] + [DataFlow("Syslog")];
    assert r.streamDeclarations == map[][StreamKey("Syslog") := StreamDecl(TableDetails(fetch("Syslog")))];
    assert r.streamDeclarations.Keys == {StreamKey("Syslog")};
    assert StreamKey("Syslog") == "Custom-Syslog";
  }

  /**
   * The inner search does not stop at a match that is already declared: with
   * `Syslog` and `SYSLOG` both supported, requesting `syslog` twice declares
   * both spellings.
   */
  lemma DeclaredMatchDoesNotStopSearch(d: Dcr, fetch: string -> Page)
    requires Cleared(d)
    ensures Build(d, ["Syslog", "SYSLOG"], ["syslog", "syslog"], fetch).dataFlows == [DataFlow("Syslog"), DataFlow("SYSLOG")]
  {
    var supported := ["Syslog", "SYSLOG"];
    var requested := ["syslog", "syslog"];
    assert forall n :: 0 <= n < 6 ==> Lower(supported[0])[n] == Lower(requested[0])[n];
    assert forall n :: 0 <= n < 6 ==> Lower(supported[1])[n] == Lower(requested[0])[n];
    assert Insertable(d.streamDeclarations, supported, requested[0], 0);
    var d1 := AddStream(d, supported, requested[0], fetch);
    assert d1.dataFlows == [DataFlow("Syslog")];
    assert StreamKey("SYSLOG")[8] != StreamKey("Syslog")[8];
    assert !Insertable(d1.streamDeclarations, supported, requested[1], 0);
    assert Insertable(d1.streamDeclarations, supported, requested[1], 1);
    assert requested[1..][1..] == [];
  }
}
