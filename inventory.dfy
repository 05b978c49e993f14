/** The orchestration in `main` of get_records.py, without its console
    output: for each public zone, in order, fetch the zone's A and CNAME
    record sets, skip the zone when there are none, and otherwise emit the
    rows `process_records` returns. An exception from `process_records`
    ends the run; the rows of earlier zones have already been emitted. */
module Inventory {
  import opened Results
  import opened IpClassifier
  import opened DnsResolver
  import opened Route53
  import opened RecordProcessing

  /** The rows emitted, and the exception that ended the run, if any. */
  datatype Report = Report(rows: seq<Row>, failure: Option<Error>)

  /** The rows emitted by earlier zones, followed by a later report. */
  function After(rows: seq<Row>, rest: Report): Report {
    Report(rows + rest.rows, rest.failure)
  }

  /** The zone loop of `main` over the given zone ids; `pagesOf` stands for
      the paginated record listing of each zone. */
  function RunZones(t: Table, ids: seq<string>, pagesOf: string -> seq<seq<RecordSet>>, fuel: nat): Report
    decreases |ids|
  {
    if ids == [] then Report([], None)
    else
      var records := KeepAAndCname(Flatten(pagesOf(ids[0])));
      if records == [] then RunZones(t, ids[1..], pagesOf, fuel)
      else
        KeptAreAOrCname(Flatten(pagesOf(ids[0])));
        match Processed(t, records, fuel)
        case Err(e) => Report([], Some(e))
        case Ok(rows) => After(rows, RunZones(t, ids[1..], pagesOf, fuel))
  }

  /** The whole run over the zones `list_hosted_zones` returned. */
  function Inventory(t: Table, zones: seq<HostedZone>, pagesOf: string -> seq<seq<RecordSet>>, fuel: nat): Report {
    RunZones(t, PublicZoneIds(zones), pagesOf, fuel)
  }

  /** One turn of the zone loop. */
  lemma RunZonesUnfold(t: Table, ids: seq<string>, pagesOf: string -> seq<seq<RecordSet>>, fuel: nat)
    requires ids != []
    ensures var records := KeepAAndCname(Flatten(pagesOf(ids[0])));
            && AllAOrCname(records)
            && (records == [] ==> RunZones(t, ids, pagesOf, fuel) == RunZones(t, ids[1..], pagesOf, fuel))
            && (records != [] && Processed(t, records, fuel).Err? ==>
                  RunZones(t, ids, pagesOf, fuel) == Report([], Some(Processed(t, records, fuel).error)))
            && (records != [] && Processed(t, records, fuel).Ok? ==>
                  RunZones(t, ids, pagesOf, fuel)
                  == After(Processed(t, records, fuel).value, RunZones(t, ids[1..], pagesOf, fuel)))
  {
    KeptAreAOrCname(Flatten(pagesOf(ids[0])));
  }

  /** A last zone whose record sets succeed with `rows` ends the run with
      those rows and no failure. */
  lemma RunZonesLastZone(t: Table, id: string, pagesOf: string -> seq<seq<RecordSet>>, fuel: nat, rows: seq<Row>)
    requires KeepAAndCname(Flatten(pagesOf(id))) != []
    ensures AllAOrCname(KeepAAndCname(Flatten(pagesOf(id))))
    ensures Processed(t, KeepAAndCname(Flatten(pagesOf(id))), fuel) == Ok(rows)
            ==> RunZones(t, [id], pagesOf, fuel) == Report(rows, None)
  {
    RunZonesUnfold(t, [id], pagesOf, fuel);
    assert [id][1..] == [];
    assert rows + [] == rows;
  }

  lemma AfterAfter(rows: seq<Row>, more: seq<Row>, rest: Report)
    ensures After(rows, After(more, rest)) == After(rows + more, rest)
  {
    assert rows + (more + rest.rows) == (rows + more) + rest.rows;
  }

  /** The printing loop of `main`: each row goes to the output after the
      rows already printed. */
  method EmitRows(printed: seq<Row>, rows: seq<Row>) returns (out: seq<Row>)
    ensures out == printed + rows
  {
    out := printed;
    for j := 0 to |rows|
      invariant out == printed + rows[..j]
    {
      out := out + [rows[j]];
    }
    assert rows[..|rows|] == rows;
  }

  /** `main` as a loop: the rows are appended zone by zone, as the source
      prints them. */
  method RunInventory(t: Table, zones: seq<HostedZone>, pagesOf: string -> seq<seq<RecordSet>>, fuel: nat)
    returns (report: Report)
    ensures report == Inventory(t, zones, pagesOf, fuel)
  {
    var publicZones := PublicZoneIds(zones);
    var printed: seq<Row> := [];
    ghost var whole := Inventory(t, zones, pagesOf, fuel);
    assert publicZones[0..] == publicZones;
    assert whole == After(printed, RunZones(t, publicZones[0..], pagesOf, fuel)) by {
      assert printed + whole.rows == whole.rows;
    }
    for i := 0 to |publicZones|
      invariant whole == After(printed, RunZones(t, publicZones[i..], pagesOf, fuel))
    {
      ghost var ids := publicZones[i..];
      RunZonesUnfold(t, ids, pagesOf, fuel);
      assert ids[1..] == publicZones[i + 1..];
      assert ids[0] == publicZones[i];
      var records := GetAAndCnameRecords(pagesOf(publicZones[i]));
      if records == [] {
        continue;
      }
      var publicRecords := ProcessRecords(t, records, fuel);
      if publicRecords.Err? {
        assert whole == Report(printed + [], Some(publicRecords.error));
        assert printed + [] == printed;
        return Report(printed, Some(publicRecords.error));
      }
      AfterAfter(printed, publicRecords.value, RunZones(t, publicZones[i + 1..], pagesOf, fuel));
      printed := EmitRows(printed, publicRecords.value);
    }
    assert publicZones[|publicZones|..] == [];
    assert printed + [] == printed;
    report := Report(printed, None);
  }

  /** Every row of a run is a public address paired with the Name of an A
      or CNAME record set of one of the zones visited. */
  lemma {:induction false} RunRowsArePublic(t: Table, ids: seq<string>, pagesOf: string -> seq<seq<RecordSet>>, fuel: nat, row: Row)
    requires row in RunZones(t, ids, pagesOf, fuel).rows
    ensures IsPublicIp(row.ip)
    ensures exists k, rec :: 0 <= k < |ids| && rec in Flatten(pagesOf(ids[k])) && IsAOrCname(rec) && rec.name == row.name
    decreases |ids|
  {
    var records := KeepAAndCname(Flatten(pagesOf(ids[0])));
    KeptAreAOrCname(Flatten(pagesOf(ids[0])));
    var rest := RunZones(t, ids[1..], pagesOf, fuel);
    if records != [] && Processed(t, records, fuel).Ok? && row in Processed(t, records, fuel).value {
      ProcessedRowsExactly(t, records, fuel, row);
      var i :| 0 <= i < |records| && row.name == records[i].name
               && Candidates(t, records[i], fuel).Ok?
               && row.ip in Candidates(t, records[i], fuel).value && IsPublicIp(row.ip);
      KeptExactly(Flatten(pagesOf(ids[0])), records[i]);
      assert records[i] in Flatten(pagesOf(ids[0]));
    } else {
      assert row in rest.rows;
      RunRowsArePublic(t, ids[1..], pagesOf, fuel, row);
      var k, rec :| 0 <= k < |ids[1..]| && rec in Flatten(pagesOf(ids[1..][k])) && IsAOrCname(rec) && rec.name == row.name;
      assert ids[1..][k] == ids[k + 1];
    }
  }

  /** No private address reaches the output of a run. */
  lemma InventoryEmitsOnlyPublic(t: Table, zones: seq<HostedZone>, pagesOf: string -> seq<seq<RecordSet>>, fuel: nat)
    ensures forall row :: row in Inventory(t, zones, pagesOf, fuel).rows ==> IsPublicIp(row.ip)
  {
    forall row | row in Inventory(t, zones, pagesOf, fuel).rows
      ensures IsPublicIp(row.ip)
    {
      RunRowsArePublic(t, PublicZoneIds(zones), pagesOf, fuel, row);
    }
  }

  // Two public zones, one with a plain A record set and one with a CNAME
  // record set whose target has a private and a public address.
  const WwwRecord := RecordSet("www.example.com", "A", Some(["93.184.216.34"]), None)
  const AppRecord := RecordSet("app.example.com", "CNAME", Some(["internal-alias.example.com"]), None)
  const ExampleTable: Table := map["internal-alias.example.com" := Entry(["10.0.0.5", "34.120.1.2"], [])]
  const ExampleZones := [HostedZone("/hostedzone/ZWWW", false), HostedZone("/hostedzone/ZAPP", false)]

  function ExamplePages(id: string): seq<seq<RecordSet>> {
    if id == "ZWWW" then [[WwwRecord]] else if id == "ZAPP" then [[AppRecord]] else []
  }

  lemma ExampleSegments()
    ensures LastSegment("/hostedzone/ZWWW") == "ZWWW"
    ensures LastSegment("/hostedzone/ZAPP") == "ZAPP"
  {
    SegmentAfterLastSlash("/hostedzone", "ZWWW");
    assert "/hostedzone" + "/" + "ZWWW" == "/hostedzone/ZWWW";
    SegmentAfterLastSlash("/hostedzone", "ZAPP");
    assert "/hostedzone" + "/" + "ZAPP" == "/hostedzone/ZAPP";
  }

  lemma ExampleZoneIds()
    ensures PublicZoneIds(ExampleZones) == ["ZWWW", "ZAPP"]
  {
    ExampleSegments();
    assert ExampleZones[..1] == [ExampleZones[0]] && ExampleZones[..1][..0] == [];
  }


  lemma ExampleFetch(rec: RecordSet)
    requires IsAOrCname(rec)
    ensures KeepAAndCname(Flatten([[rec]])) == [rec]
  {
    assert [[rec]][..0] == [] && [rec][..0] == [];
  }

  lemma ExampleWwwRows()
    ensures Processed(ExampleTable, [WwwRecord], 1) == Ok([Row("www.example.com", "93.184.216.34")])
  {
    MalformedIsPublic("93.184.216.34");
    assert PublicOnly(["93.184.216.34"]) == ["93.184.216.34"] by {
      assert ["93.184.216.34"][..0] == [];
    }
    assert [WwwRecord][..0] == [];
    assert RowsFor("www.example.com", ["93.184.216.34"]) == [Row("www.example.com", "93.184.216.34")];
    var none: seq<Row> := [];
    assert none + [Row("www.example.com", "93.184.216.34")] == [Row("www.example.com", "93.184.216.34")];
  }

  lemma ExampleAppRows()
    ensures Processed(ExampleTable, [AppRecord], 1) == Ok([Row("app.example.com", "34.120.1.2")])
  {
    MalformedIsPublic("34.120.1.2");
    PrivateByCharacters("10.0.0.5");
    var ips := ["10.0.0.5", "34.120.1.2"];
    LeafResolvesToOwnAnswers(ExampleTable, "internal-alias.example.com", 1);
    assert Candidates(ExampleTable, AppRecord, 1) == Ok(ips);
    assert PublicOnly(ips) == ["34.120.1.2"] by {
      assert ips[..1] == ["10.0.0.5"] && ["10.0.0.5"][..0] == [];
    }
    assert [AppRecord][..0] == [];
    assert RowsFor("app.example.com", ["34.120.1.2"]) == [Row("app.example.com", "34.120.1.2")];
    var none: seq<Row> := [];
    assert none + [Row("app.example.com", "34.120.1.2")] == [Row("app.example.com", "34.120.1.2")];
  }

  lemma ExampleSecondZone()
    ensures RunZones(ExampleTable, ["ZAPP"], ExamplePages, 1) == Report([Row("app.example.com", "34.120.1.2")], None)
  {
    assert ExamplePages("ZAPP") == [[AppRecord]];
    ExampleFetch(AppRecord);
    ExampleAppRows();
    RunZonesLastZone(ExampleTable, "ZAPP", ExamplePages, 1, [Row("app.example.com", "34.120.1.2")]);
  }

  lemma ExampleFirstZone()
    ensures RunZones(ExampleTable, ["ZWWW", "ZAPP"], ExamplePages, 1)
         == After([Row("www.example.com", "93.184.216.34")], RunZones(ExampleTable, ["ZAPP"], ExamplePages, 1))
  {
    assert ExamplePages("ZWWW") == [[WwwRecord]];
    ExampleFetch(WwwRecord);
    ExampleWwwRows();
    RunZonesUnfold(ExampleTable, ["ZWWW", "ZAPP"], ExamplePages, 1);
    assert ["ZWWW", "ZAPP"][1..] == ["ZAPP"];
  }

  /** The run emits the plain address, and of the CNAME target's two
      addresses only the public one. */
  lemma TwoZoneExample()
    ensures Inventory(ExampleTable, ExampleZones, ExamplePages, 1)
         == Report([Row("www.example.com", "93.184.216.34"), Row("app.example.com", "34.120.1.2")], None)
  {
    ExampleZoneIds();
    ExampleSecondZone();
    ExampleFirstZone();
  }
}
