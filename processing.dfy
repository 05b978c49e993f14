/** `process_records` of get_records.py: for each A or CNAME record set,
    in order, find the candidate addresses (the literal values of a plain A
    set, the resolution of an alias A set's DNS name, the resolution of
    the first value of a CNAME set), keep the public ones and emit one
    (Name, IP) row per survivor. An exception raised for one record set
    ends the whole call; the model returns it as an `Err`. */
module RecordProcessing {
  import opened Results
  import opened IpClassifier
  import opened DnsResolver
  import opened Route53
  import opened Sequences

  /** The exceptions `process_records` lets escape: a missing
      `ResourceRecords` key, an empty CNAME value list, and the
      interpreter's recursion limit reached while resolving. */
  datatype Error = KeyError(key: string) | IndexError | RecursionError

  /** One emitted `{'Name': name, 'IP': ip}` entry. */
  datatype Row = Row(name: string, ip: string)

  /** A resolution cut short by the recursion limit is a RecursionError. */
  function FromResolution(res: Option<seq<string>>): Result<seq<string>, Error> {
    match res
    case Some(ips) => Ok(ips)
    case None => Err(RecursionError)
  }

  /** `resolved_ips` for one record set: the dispatch on Type, on the
      presence of AliasTarget, and on the first ResourceRecords value. */
  function Candidates(t: Table, rec: RecordSet, fuel: nat): Result<seq<string>, Error>
    requires IsAOrCname(rec)
  {
    if rec.rtype == "A" then
      if rec.aliasTarget.Some? then FromResolution(Resolve(t, rec.aliasTarget.value, fuel))
      else if rec.resourceRecords.Some? then Ok(rec.resourceRecords.value)
      else Err(KeyError("ResourceRecords"))
    else if rec.resourceRecords.None? then Err(KeyError("ResourceRecords"))
    else if rec.resourceRecords.value == [] then Err(IndexError)
    else FromResolution(Resolve(t, rec.resourceRecords.value[0], fuel))
  }

  /** `public_ips`, the comprehension keeping the public candidates in
      their order. */
  function PublicOnly(ips: seq<string>): (pub: seq<string>)
    ensures |pub| <= |ips|
    ensures forall ip :: ip in pub <==> ip in ips && IsPublicIp(ip)
  {
    if ips == [] then []
    else
      var init := ips[..|ips| - 1];
      var ip := ips[|ips| - 1];
      assert forall x :: x in ips <==> x in init || x == ip;
      PublicOnly(init) + (if IsPublicIp(ip) then [ip] else [])
  }

  /** One row per address, all with the record set's name. */
  function RowsFor(name: string, ips: seq<string>): seq<Row> {
    seq(|ips|, i requires 0 <= i < |ips| => Row(name, ips[i]))
  }

  /** The outcome of `process_records(records)`: the rows of every record
      set in order, or the first exception raised. */
  function Processed(t: Table, records: seq<RecordSet>, fuel: nat): Result<seq<Row>, Error>
    requires AllAOrCname(records)
    decreases |records|
  {
    if records == [] then Ok([])
    else
      var rec := records[|records| - 1];
      match Processed(t, records[..|records| - 1], fuel)
      case Err(e) => Err(e)
      case Ok(before) =>
        match Candidates(t, rec, fuel)
        case Err(e) => Err(e)
        case Ok(ips) => Ok(before + RowsFor(rec.name, PublicOnly(ips)))
  }

  /** Processing one more record set appends its rows, or stops with its
      exception. */
  lemma ProcessedStep(t: Table, records: seq<RecordSet>, i: nat, fuel: nat)
    requires AllAOrCname(records) && i < |records|
    ensures AllAOrCname(records[..i]) && AllAOrCname(records[..i + 1])
    ensures Processed(t, records[..i + 1], fuel)
         == match Processed(t, records[..i], fuel)
            case Err(e) => Err(e)
            case Ok(before) =>
              match Candidates(t, records[i], fuel)
              case Err(e) => Err(e)
              case Ok(ips) => Ok(before + RowsFor(records[i].name, PublicOnly(ips)))
  {
    assert records[..i + 1][..i] == records[..i];
  }

  /** Once a prefix of the record sets fails, processing the rest changes
      nothing: the first exception is the one raised. */
  lemma {:induction false} ProcessedKeepsError(t: Table, records: seq<RecordSet>, k: nat, fuel: nat)
    requires AllAOrCname(records) && k <= |records|
    ensures AllAOrCname(records[..k])
    ensures Processed(t, records[..k], fuel).Err? ==> Processed(t, records, fuel) == Processed(t, records[..k], fuel)
    decreases |records| - k
  {
    if k < |records| {
      ProcessedStep(t, records, k, fuel);
      ProcessedKeepsError(t, records, k + 1, fuel);
    }
    assert records[..|records|] == records;
  }

  /** The dispatch in the body of `process_records` that computes
      `resolved_ips`, calling the resolver where the record set points at
      a name. */
  method ResolvedIps(t: Table, record: RecordSet, fuel: nat) returns (r: Result<seq<string>, Error>)
    requires IsAOrCname(record)
    ensures r == Candidates(t, record, fuel)
  {
    if record.rtype == "A" {
      if record.aliasTarget.Some? {
        var res := ResolveDns(t, record.aliasTarget.value, fuel);
        if res.None? {
          return Err(RecursionError);
        }
        r := Ok(res.value);
      } else {
        if record.resourceRecords.None? {
          return Err(KeyError("ResourceRecords"));
        }
        r := Ok(record.resourceRecords.value);
      }
    } else {
      if record.resourceRecords.None? {
        return Err(KeyError("ResourceRecords"));
      }
      if record.resourceRecords.value == [] {
        return Err(IndexError);
      }
      var res := ResolveDns(t, record.resourceRecords.value[0], fuel);
      if res.None? {
        return Err(RecursionError);
      }
      r := Ok(res.value);
    }
  }

  /** The inner loop of `process_records`: one `{'Name': name, 'IP': ip}`
      entry appended per public address, in order. */
  method AppendRows(results: seq<Row>, name: string, ips: seq<string>) returns (out: seq<Row>)
    ensures out == results + RowsFor(name, ips)
  {
    out := results;
    for j := 0 to |ips|
      invariant out == results + RowsFor(name, ips[..j])
    {
      assert RowsFor(name, ips[..j + 1]) == RowsFor(name, ips[..j]) + [Row(name, ips[j])];
      out := out + [Row(name, ips[j])];
    }
    assert ips[..|ips|] == ips;
  }

  /** `process_records`: a loop over the record sets that appends, for
      each, one row per public candidate. */
  method ProcessRecords(t: Table, records: seq<RecordSet>, fuel: nat) returns (r: Result<seq<Row>, Error>)
    requires AllAOrCname(records)
    ensures r == Processed(t, records, fuel)
  {
    var results: seq<Row> := [];
    for i := 0 to |records|
      invariant AllAOrCname(records[..i])
      invariant Processed(t, records[..i], fuel) == Ok(results)
    {
      var record := records[i];
      var name := record.name;
      ProcessedStep(t, records, i, fuel);
      var resolved := ResolvedIps(t, record, fuel);
      if resolved.Err? {
        ProcessedKeepsError(t, records, i + 1, fuel);
        return Err(resolved.error);
      }
      var publicIps := PublicOnly(resolved.value);
      if publicIps != [] {
        results := AppendRows(results, name, publicIps);
      } else {
        assert results == results + RowsFor(name, publicIps);
      }
    }
    assert records[..|records|] == records;
    r := Ok(results);
  }

  lemma RowsForMembership(name: string, ips: seq<string>, row: Row)
    ensures row in RowsFor(name, ips) <==> row.name == name && row.ip in ips
  {
    if row.name == name && row.ip in ips {
      var k :| 0 <= k < |ips| && ips[k] == row.ip;
      assert RowsFor(name, ips)[k] == row;
    }
  }

  /** `process_records` returns normally exactly when no record set
      raises. */
  lemma {:induction false} ProcessedSucceedsIff(t: Table, records: seq<RecordSet>, fuel: nat)
    requires AllAOrCname(records)
    ensures Processed(t, records, fuel).Ok?
        <==> forall i :: 0 <= i < |records| ==> Candidates(t, records[i], fuel).Ok?
    decreases |records|
  {
    if records != [] {
      var init := records[..|records| - 1];
      assert forall i :: 0 <= i < |init| ==> init[i] == records[i];
      ProcessedSucceedsIff(t, init, fuel);
    }
  }

  /** The exception raised is that of the first record set that raises. */
  lemma {:induction false} ProcessedFirstError(t: Table, records: seq<RecordSet>, fuel: nat)
    requires AllAOrCname(records) && Processed(t, records, fuel).Err?
    ensures exists i :: && 0 <= i < |records|
                        && Candidates(t, records[i], fuel) == Err(Processed(t, records, fuel).error)
                        && forall j :: 0 <= j < i ==> Candidates(t, records[j], fuel).Ok?
    decreases |records|
  {
    var init := records[..|records| - 1];
    assert forall i :: 0 <= i < |init| ==> init[i] == records[i];
    if Processed(t, init, fuel).Err? {
      ProcessedFirstError(t, init, fuel);
      var i :| && 0 <= i < |init|
               && Candidates(t, init[i], fuel) == Err(Processed(t, init, fuel).error)
               && forall j :: 0 <= j < i ==> Candidates(t, init[j], fuel).Ok?;
      assert Candidates(t, records[i], fuel) == Err(Processed(t, records, fuel).error);
    } else {
      ProcessedSucceedsIff(t, init, fuel);
      var i := |records| - 1;
      assert Candidates(t, records[i], fuel) == Err(Processed(t, records, fuel).error);
    }
  }

  /** The rows emitted are exactly the pairs of a record set's Name with
      one of its public candidates. */
  lemma {:induction false} ProcessedRowsExactly(t: Table, records: seq<RecordSet>, fuel: nat, row: Row)
    requires AllAOrCname(records) && Processed(t, records, fuel).Ok?
    ensures row in Processed(t, records, fuel).value
        <==> exists i :: && 0 <= i < |records| && row.name == records[i].name
                         && Candidates(t, records[i], fuel).Ok?
                         && row.ip in Candidates(t, records[i], fuel).value
                         && IsPublicIp(row.ip)
    decreases |records|
  {
    if records != [] {
      var init := records[..|records| - 1];
      var last := |records| - 1;
      assert forall i :: 0 <= i < |init| ==> init[i] == records[i];
      ProcessedRowsExactly(t, init, fuel, row);
      RowsForMembership(records[last].name, PublicOnly(Candidates(t, records[last], fuel).value), row);
    }
  }

  /** No private address is ever emitted. */
  lemma NoPrivateAddressEmitted(t: Table, records: seq<RecordSet>, fuel: nat)
    requires AllAOrCname(records) && Processed(t, records, fuel).Ok?
    ensures forall row :: row in Processed(t, records, fuel).value ==> IsPublicIp(row.ip)
  {
    forall row | row in Processed(t, records, fuel).value
      ensures IsPublicIp(row.ip)
    {
      ProcessedRowsExactly(t, records, fuel, row);
    }
  }

  /** What one record set contributes on its own: its rows, or its
      exception. */
  function Emitted(t: Table, rec: RecordSet, fuel: nat): Result<seq<Row>, Error>
    requires IsAOrCname(rec)
  {
    match Candidates(t, rec, fuel)
    case Err(e) => Err(e)
    case Ok(ips) => Ok(RowsFor(rec.name, PublicOnly(ips)))
  }

  /** The contribution of each record set, in order. */
  function EmittedEach(t: Table, records: seq<RecordSet>, fuel: nat): (outs: seq<Result<seq<Row>, Error>>)
    requires AllAOrCname(records)
    ensures |outs| == |records|
  {
    seq(|records|, i requires 0 <= i < |records| => Emitted(t, records[i], fuel))
  }

  lemma EmittedEachConcat(t: Table, a: seq<RecordSet>, b: seq<RecordSet>, fuel: nat)
    requires AllAOrCname(a) && AllAOrCname(b)
    ensures AllAOrCname(a + b)
    ensures EmittedEach(t, a + b, fuel) == EmittedEach(t, a, fuel) + EmittedEach(t, b, fuel)
  {
    assert AllAOrCname(a + b);
    var x, y := EmittedEach(t, a, fuel), EmittedEach(t, b, fuel);
    forall i | 0 <= i < |a + b|
      ensures EmittedEach(t, a + b, fuel)[i] == (x + y)[i]
    {
      if i < |a| {
        assert (a + b)[i] == a[i];
      } else {
        assert (a + b)[i] == b[i - |a|];
      }
    }
  }

  /** Contributions joined in order: all the rows, or the first error. */
  function Join<T, E>(outs: seq<Result<seq<T>, E>>): Result<seq<T>, E>
    decreases |outs|
  {
    if outs == [] then Ok([])
    else
      match Join(outs[..|outs| - 1])
      case Err(e) => Err(e)
      case Ok(before) =>
        match outs[|outs| - 1]
        case Err(e) => Err(e)
        case Ok(rows) => Ok(before + rows)
  }

  /** `Processed` joins the contributions of the record sets. */
  lemma {:induction false} ProcessedJoins(t: Table, records: seq<RecordSet>, fuel: nat)
    requires AllAOrCname(records)
    ensures Processed(t, records, fuel) == Join(EmittedEach(t, records, fuel))
    decreases |records|
  {
    if records != [] {
      var init := records[..|records| - 1];
      assert AllAOrCname(init);
      ProcessedJoins(t, init, fuel);
      assert EmittedEach(t, records, fuel)[..|records| - 1] == EmittedEach(t, init, fuel);
    }
  }

  /** Joining a concatenation: the first error of the first part, else the
      first of the second, else the rows of both in order. */
  lemma {:induction false} JoinConcat<T, E>(x: seq<Result<seq<T>, E>>, y: seq<Result<seq<T>, E>>)
    ensures Join(x).Err? ==> Join(x + y) == Join(x)
    ensures Join(x).Ok? && Join(y).Err? ==> Join(x + y) == Join(y)
    ensures Join(x).Ok? && Join(y).Ok? ==> Join(x + y) == Ok(Join(x).value + Join(y).value)
    decreases |y|
  {
    if y == [] {
      assert x + y == x;
      if Join(x).Ok? {
        assert Join(x).value + [] == Join(x).value;
      }
    } else {
      var init := y[..|y| - 1];
      assert (x + y)[..|x + y| - 1] == x + init;
      assert (x + y)[|x + y| - 1] == y[|y| - 1];
      JoinConcat(x, init);
      if Join(x).Ok? && Join(init).Ok? && y[|y| - 1].Ok? {
        AppendAssociates(Join(x).value, Join(init).value, y[|y| - 1].value);
      }
    }
  }

  /** Record sets are processed independently and in order: the rows of a
      concatenation are the rows of each part, one after the other, and
      its exception is the first part's, else the second's. */
  lemma ProcessedConcat(t: Table, a: seq<RecordSet>, b: seq<RecordSet>, fuel: nat)
    requires AllAOrCname(a) && AllAOrCname(b)
    ensures AllAOrCname(a + b)
    ensures Processed(t, a, fuel).Err? ==> Processed(t, a + b, fuel) == Processed(t, a, fuel)
    ensures Processed(t, a, fuel).Ok? && Processed(t, b, fuel).Err?
            ==> Processed(t, a + b, fuel) == Processed(t, b, fuel)
    ensures Processed(t, a, fuel).Ok? && Processed(t, b, fuel).Ok?
            ==> Processed(t, a + b, fuel) == Ok(Processed(t, a, fuel).value + Processed(t, b, fuel).value)
  {
    assert AllAOrCname(a + b);
    ProcessedJoins(t, a, fuel);
    ProcessedJoins(t, b, fuel);
    ProcessedJoins(t, a + b, fuel);
    EmittedEachConcat(t, a, b, fuel);
    JoinConcat(EmittedEach(t, a, fuel), EmittedEach(t, b, fuel));
  }

  /** A record set none of whose candidates is public emits nothing. */
  lemma NoPublicCandidateEmitsNothing(t: Table, rec: RecordSet, fuel: nat)
    requires IsAOrCname(rec) && Candidates(t, rec, fuel).Ok?
    requires forall ip :: ip in Candidates(t, rec, fuel).value ==> !IsPublicIp(ip)
    ensures AllAOrCname([rec]) && Processed(t, [rec], fuel) == Ok([])
  {
    var pub := PublicOnly(Candidates(t, rec, fuel).value);
    assert [rec][..0] == [];
    PublicOnlyEmptyIff(Candidates(t, rec, fuel).value);
    assert RowsFor(rec.name, pub) == [];
    var empty: seq<Row> := [];
    assert empty + empty == [];
  }

  /** The public filter keeps the survivors in candidate order, duplicates
      included: it distributes over concatenation and keeps a single
      address exactly when it is public. */
  lemma {:induction false} PublicOnlyDistributes(a: seq<string>, b: seq<string>)
    ensures PublicOnly(a + b) == PublicOnly(a) + PublicOnly(b)
    ensures forall ip :: PublicOnly([ip]) == if IsPublicIp(ip) then [ip] else []
    decreases |b|
  {
    forall ip
      ensures PublicOnly([ip]) == if IsPublicIp(ip) then [ip] else []
    {
      assert [ip][..0] == [];
    }
    if b != [] {
      var init := b[..|b| - 1];
      assert (a + b)[..|a + b| - 1] == a + init;
      assert (a + b)[|a + b| - 1] == b[|b| - 1];
      PublicOnlyDistributes(a, init);
      AppendAssociates(PublicOnly(a), PublicOnly(init), if IsPublicIp(b[|b| - 1]) then [b[|b| - 1]] else []);
    } else {
      assert a + b == a;
      assert PublicOnly(a) + [] == PublicOnly(a);
    }
  }

  /** Nothing survives the filter exactly when no candidate is public. */
  lemma {:induction false} PublicOnlyEmptyIff(ips: seq<string>)
    ensures PublicOnly(ips) == [] <==> forall ip :: ip in ips ==> !IsPublicIp(ip)
    decreases |ips|
  {
    if ips != [] {
      var init := ips[..|ips| - 1];
      PublicOnlyEmptyIff(init);
      assert ips == init + [ips[|ips| - 1]];
    }
  }

  /** A plain A record set needs no DNS: its values pass through whatever
      the server holds. */
  lemma LiteralAPassesThrough(t: Table, rec: RecordSet, fuel: nat, vs: seq<string>)
    requires rec.rtype == "A" && rec.aliasTarget.None? && rec.resourceRecords == Some(vs)
    ensures Candidates(t, rec, fuel) == Ok(vs)
  {
  }

  /** An alias A record set yields the resolution of its DNS name. */
  lemma AliasResolvesDnsName(t: Table, rec: RecordSet, fuel: nat)
    requires rec.rtype == "A" && rec.aliasTarget.Some?
    ensures Candidates(t, rec, fuel).Ok? <==> Resolve(t, rec.aliasTarget.value, fuel).Some?
    ensures Candidates(t, rec, fuel).Ok? ==> Candidates(t, rec, fuel).value == Resolve(t, rec.aliasTarget.value, fuel).value
  {
  }

  /** A CNAME record set yields the resolution of its first value, and
      only of that one: the later values may be anything. */
  lemma CnameUsesFirstValueOnly(t: Table, rec: RecordSet, fuel: nat, later: seq<string>)
    requires rec.rtype == "CNAME" && rec.resourceRecords.Some? && rec.resourceRecords.value != []
    ensures Candidates(t, rec, fuel) == FromResolution(Resolve(t, rec.resourceRecords.value[0], fuel))
    ensures Candidates(t, rec, fuel)
         == Candidates(t, rec.(resourceRecords := Some([rec.resourceRecords.value[0]] + later)), fuel)
  {
  }

  /** A plain A record set without the ResourceRecords key raises
      KeyError. A CNAME record set is read at its first ResourceRecords
      value whether or not it is an alias, so one without the key raises
      KeyError and one with an empty value list raises IndexError. */
  lemma MalformedRecordSetsRaise(t: Table, rec: RecordSet, fuel: nat)
    requires IsAOrCname(rec)
    ensures rec.rtype == "A" && rec.aliasTarget.None? && rec.resourceRecords.None?
            ==> Candidates(t, rec, fuel) == Err(KeyError("ResourceRecords"))
    ensures rec.rtype == "CNAME" && rec.resourceRecords.None?
            ==> Candidates(t, rec, fuel) == Err(KeyError("ResourceRecords"))
    ensures rec.rtype == "CNAME" && rec.resourceRecords == Some([])
            ==> Candidates(t, rec, fuel) == Err(IndexError)
  {
  }


  /** An alias whose target resolves to one private and one public
      address emits exactly the public one. */
  lemma AliasDropsPrivateAddress(name: string, dnsName: string)
    ensures var t := map[dnsName := Entry(["10.1.2.3", "203.0.113.10"], [])];
            var rec := RecordSet(name, "A", None, Some(dnsName));
            AllAOrCname([rec]) && Processed(t, [rec], 1) == Ok([Row(name, "203.0.113.10")])
  {
    var t := map[dnsName := Entry(["10.1.2.3", "203.0.113.10"], [])];
    var rec := RecordSet(name, "A", None, Some(dnsName));
    assert Contribution(t, dnsName, A) == ["10.1.2.3", "203.0.113.10"];
    assert Contribution(t, dnsName, CNAME) == [];
    ResolveUnfold(t, dnsName, 1);
    assert ResolveEach(t, [], 0) == Some([]);
    var ips := ["10.1.2.3", "203.0.113.10"];
    assert ips + [] == ips;
    assert Resolve(t, dnsName, 1) == Some(["10.1.2.3", "203.0.113.10"]);
    PrivateByCharacters("10.1.2.3");
    MalformedIsPublic("203.0.113.10");
    assert ips[..1] == ["10.1.2.3"];
    assert ["10.1.2.3"][..0] == [];
    assert PublicOnly(ips) == ["203.0.113.10"];
    assert [rec][..0] == [];
    assert Candidates(t, rec, 1) == Ok(ips);
    assert RowsFor(name, ["203.0.113.10"]) == [Row(name, "203.0.113.10")];
    var none: seq<Row> := [];
    assert none + [Row(name, "203.0.113.10")] == [Row(name, "203.0.113.10")];
  }
}
