/** The data returned by the two Route 53 calls of get_records.py, and the
    two pure selection steps the fetch helpers apply to it:
    `get_public_hosted_zones` keeps the zones that are not private and
    takes the last `/`-separated segment of each Id;
    `get_a_and_cname_records` keeps the record sets of type A or CNAME
    from every page, in page order. The calls themselves are network I/O
    and are not modelled: their results are parameters. */
module Route53 {
  import opened Results
  import opened Sequences

  /** One entry of `HostedZones`: its Id and `Config.PrivateZone`. */
  datatype HostedZone = HostedZone(id: string, privateZone: bool)

  /** One entry of `ResourceRecordSets`: Name, Type, the `Value` of each
      entry of ResourceRecords when that key is present, and
      `AliasTarget.DNSName` when the set is an alias. */
  datatype RecordSet = RecordSet(
    name: string,
    rtype: string,
    resourceRecords: Option<seq<string>>,
    aliasTarget: Option<string>)

  predicate IsAOrCname(r: RecordSet) {
    r.rtype == "A" || r.rtype == "CNAME"
  }

  predicate AllAOrCname(records: seq<RecordSet>) {
    forall i :: 0 <= i < |records| ==> IsAOrCname(records[i])
  }

  /** `s.split('/')[-1]`: what follows the last `/`, or all of `s` when
      it has none. */
  function LastSegment(s: string): (r: string)
    ensures |r| <= |s| && r == s[|s| - |r|..]
    ensures '/' !in r
    ensures |r| < |s| ==> s[|s| - |r| - 1] == '/'
  {
    if s == [] then []
    else if s[|s| - 1] == '/' then []
    else LastSegment(s[..|s| - 1]) + [s[|s| - 1]]
  }

  /** The zone step of `get_public_hosted_zones`, a comprehension over the
      listed zones. */
  function PublicZoneIds(zones: seq<HostedZone>): (ids: seq<string>)
    ensures |ids| <= |zones|
  {
    if zones == [] then []
    else
      var z := zones[|zones| - 1];
      PublicZoneIds(zones[..|zones| - 1]) + (if z.privateZone then [] else [LastSegment(z.id)])
  }

  /** A single zone yields its last Id segment exactly when it is not
      private. */
  lemma PublicZoneIdsSingle(z: HostedZone)
    ensures PublicZoneIds([z]) == if z.privateZone then [] else [LastSegment(z.id)]
  {
    assert [z][..0] == [];
  }

  /** The zone step keeps the zones' order, duplicates included: it
      distributes over concatenation, and `PublicZoneIdsSingle` gives
      what each zone contributes. */
  lemma {:induction false} PublicZonesDistribute(a: seq<HostedZone>, b: seq<HostedZone>)
    ensures PublicZoneIds(a + b) == PublicZoneIds(a) + PublicZoneIds(b)
    decreases |b|
  {
    if b != [] {
      var init := b[..|b| - 1];
      var z := b[|b| - 1];
      assert (a + b)[..|a + b| - 1] == a + init;
      assert (a + b)[|a + b| - 1] == z;
      PublicZonesDistribute(a, init);
      AppendAssociates(PublicZoneIds(a), PublicZoneIds(init), if z.privateZone then [] else [LastSegment(z.id)]);
    } else {
      assert a + b == a;
      assert PublicZoneIds(a) + [] == PublicZoneIds(a);
    }
  }

  /** The zone step keeps exactly the zones that are not private, each
      reduced to the last segment of its Id, and no more of them than
      were listed. */
  lemma {:induction false} PublicZonesExactly(zones: seq<HostedZone>, id: string)
    ensures |PublicZoneIds(zones)| <= |zones|
    ensures id in PublicZoneIds(zones) <==> exists z :: z in zones && !z.privateZone && id == LastSegment(z.id)
    decreases |zones|
  {
    if zones != [] {
      var init := zones[..|zones| - 1];
      var last := zones[|zones| - 1];
      PublicZonesExactly(init, id);
      assert forall y :: y in zones <==> y in init || y == last;
    }
  }

  /** The record-type test of `get_a_and_cname_records`, over a list. */
  function KeepAAndCname(rs: seq<RecordSet>): seq<RecordSet> {
    if rs == [] then []
    else
      var r := rs[|rs| - 1];
      KeepAAndCname(rs[..|rs| - 1]) + (if IsAOrCname(r) then [r] else [])
  }

  /** The record sets of all pages, in page order. */
  function Flatten(pages: seq<seq<RecordSet>>): seq<RecordSet> {
    if pages == [] then [] else Flatten(pages[..|pages| - 1]) + pages[|pages| - 1]
  }

  /** Filtering preserves order: it distributes over concatenation. */
  lemma {:induction false} KeepDistributes(a: seq<RecordSet>, b: seq<RecordSet>)
    ensures KeepAAndCname(a + b) == KeepAAndCname(a) + KeepAAndCname(b)
    decreases |b|
  {
    if b != [] {
      var init := b[..|b| - 1];
      assert (a + b)[..|a + b| - 1] == a + init;
      KeepDistributes(a, init);
    } else {
      assert a + b == a;
    }
  }

  /** The record sets of a listing without a single A or CNAME set are all
      dropped, and a listing of only A and CNAME sets is kept whole. */
  lemma {:induction false} KeepAllOrNothing(rs: seq<RecordSet>)
    ensures (forall i :: 0 <= i < |rs| ==> IsAOrCname(rs[i])) ==> KeepAAndCname(rs) == rs
    ensures (forall i :: 0 <= i < |rs| ==> !IsAOrCname(rs[i])) ==> KeepAAndCname(rs) == []
    decreases |rs|
  {
    if rs != [] {
      var init := rs[..|rs| - 1];
      assert forall i :: 0 <= i < |init| ==> init[i] == rs[i];
      KeepAllOrNothing(init);
      assert rs == init + [rs[|rs| - 1]];
    }
  }

  /** What the filter keeps is fit for `process_records`. */
  lemma KeptAreAOrCname(rs: seq<RecordSet>)
    ensures AllAOrCname(KeepAAndCname(rs))
  {
    forall i | 0 <= i < |KeepAAndCname(rs)|
      ensures IsAOrCname(KeepAAndCname(rs)[i])
    {
      KeptExactly(rs, KeepAAndCname(rs)[i]);
    }
  }

  /** Appending one record set keeps it exactly when it is A or CNAME. */
  lemma KeepSnoc(rs: seq<RecordSet>, r: RecordSet)
    ensures KeepAAndCname(rs + [r]) == KeepAAndCname(rs) + (if IsAOrCname(r) then [r] else [])
  {
    assert (rs + [r])[..|rs|] == rs;
  }

  lemma FlattenSnoc(pages: seq<seq<RecordSet>>, i: nat)
    requires i < |pages|
    ensures Flatten(pages[..i + 1]) == Flatten(pages[..i]) + pages[i]
  {
    assert pages[..i + 1][..i] == pages[..i];
  }

  /** The inner loop of `get_a_and_cname_records`: the A and CNAME record
      sets of one page appended, in order, to those already kept. */
  method AppendKept(records: seq<RecordSet>, page: seq<RecordSet>) returns (out: seq<RecordSet>)
    ensures out == records + KeepAAndCname(page)
  {
    out := records;
    for j := 0 to |page|
      invariant out == records + KeepAAndCname(page[..j])
    {
      var record := page[j];
      KeepSnoc(page[..j], record);
      assert page[..j + 1] == page[..j] + [record];
      if record.rtype == "A" || record.rtype == "CNAME" {
        AppendAssociates(records, KeepAAndCname(page[..j]), [record]);
        out := out + [record];
      } else {
        assert KeepAAndCname(page[..j] + [record]) == KeepAAndCname(page[..j]) + [];
      }
    }
    assert page[..|page|] == page;
  }

  /** `get_a_and_cname_records`: the A and CNAME record sets of every page,
      in page order and, within a page, in listing order. */
  method GetAAndCnameRecords(pages: seq<seq<RecordSet>>) returns (records: seq<RecordSet>)
    ensures records == KeepAAndCname(Flatten(pages))
  {
    records := [];
    for i := 0 to |pages|
      invariant records == KeepAAndCname(Flatten(pages[..i]))
    {
      FlattenSnoc(pages, i);
      KeepDistributes(Flatten(pages[..i]), pages[i]);
      records := AppendKept(records, pages[i]);
    }
    assert pages[..|pages|] == pages;
  }


  /** The records `get_a_and_cname_records` returns are exactly the A and
      CNAME record sets of its pages. */
  lemma FetchedExactly(pages: seq<seq<RecordSet>>, r: RecordSet)
    ensures r in KeepAAndCname(Flatten(pages)) <==> r in Flatten(pages) && IsAOrCname(r)
  {
    KeptExactly(Flatten(pages), r);
  }

  /** The filter keeps exactly the A and CNAME record sets, and no more of
      them than the listing has. */
  lemma {:induction false} KeptExactly(rs: seq<RecordSet>, r: RecordSet)
    ensures |KeepAAndCname(rs)| <= |rs|
    ensures r in KeepAAndCname(rs) <==> r in rs && IsAOrCname(r)
    decreases |rs|
  {
    if rs != [] {
      var init := rs[..|rs| - 1];
      KeptExactly(init, r);
      assert rs == init + [rs[|rs| - 1]];
    }
  }

  /** A string without `/` is its own last segment. */
  lemma NoSlashKeptWhole(s: string)
    requires '/' !in s
    ensures LastSegment(s) == s
  {
  }

  /** Whatever precedes the last `/` is dropped: the Id
      `/hostedzone/<zone>` yields `<zone>`. */
  lemma SegmentAfterLastSlash(prefix: string, tail: string)
    requires '/' !in tail
    ensures LastSegment(prefix + "/" + tail) == tail
  {
    var s := prefix + "/" + tail;
    assert s[|s| - |tail|..] == tail;
    assert s[|s| - |tail| - 1] == '/';
  }

  /** An Id ending in `/` yields the empty string. */
  lemma TrailingSlashYieldsEmpty(s: string)
    requires s != [] && s[|s| - 1] == '/'
    ensures LastSegment(s) == ""
  {
  }
}
