# Route 53 public-address inventory, modelled in Dafny

`get_records.py` lists every public hosted zone of an AWS account. It
fetches each zone's A and CNAME record sets, turns every record set into
candidate IPv4 addresses, keeps the public ones and prints one
`name,public_ip` line per surviving address. This project models that
pipeline and proves its properties:

- **`is_public_ip`** (`classifier.dfy`, module `IpClassifier`). The three
  anchored patterns `^10\.`, `^172\.(1[6-9]|2[0-9]|3[01])\.` and
  `^192\.168\.` are written as prefix and character checks. An address is
  private exactly when it starts with one of the RFC 1918 prefixes of
  section 3 of RFC 1918, trailing dot included. Every other string is
  public, malformed ones too.
- **`resolve_dns_with_dnspython`** (`resolver.dfy`, module `DnsResolver`).
  - The DNS server is an immutable table from a name to its A answers and
    its CNAME targets. A name absent from the table is NXDOMAIN and an
    empty answer list is NoAnswer; both contribute nothing.
  - `Resolve` is the specification: the name's A answers, then the
    resolutions of its CNAME targets in order.
  - `ResolveDns` and `FollowCnames` are the loops of the source, proved
    equal to it.
  - The source recursion has no depth or cycle guard. A `fuel` count of
    nested calls stands for the interpreter's recursion limit, and running
    out of it yields `None`, the model's `RecursionError`.
  - Proved about resolution: every returned address is an A answer at the
    end of a CNAME chain, and every such answer is returned. Extra fuel
    never changes a successful result. A name on a CNAME cycle, or one
    whose chain leads into a cycle, never resolves. On an acyclic
    (ranked) table, enough fuel always resolves and the result is then
    independent of the fuel.
- **The two selection steps of the fetch helpers** (`route53.dfy`, module
  `Route53`).
  - `PublicZoneIds` keeps the non-private zones and takes the part of each
    Id after its last `/`.
  - `GetAAndCnameRecords` is the nested page loop that keeps A and CNAME
    record sets in page order, proved equal to `KeepAAndCname(Flatten(pages))`.
- **`process_records`** (`processing.dfy`, module `RecordProcessing`).
  - `Candidates` is the dispatch: a plain A set's values, an alias A set's
    resolved DNS name, or the resolution of a CNAME set's first value.
  - `Processed` is the specification: rows in record order, then
    candidate order, or the first exception.
  - `ProcessRecords` is the loop, proved equal to `Processed`.
  - The exceptions the source lets escape are modelled as `Err` values,
    not excluded by preconditions:
    - `KeyError('ResourceRecords')` for a plain A set without that key, and
      for any CNAME set without it, alias or not;
    - `IndexError` for a CNAME set with an empty value list;
    - `RecursionError` when resolution runs out of fuel.
- **`main`'s zone loop** (`inventory.dfy`, module `Inventory`).
  - `RunInventory` walks the public zone ids, skips zones without A or
    CNAME record sets and collects the rows that would be printed.
  - An exception from `process_records` ends the run. The rows printed
    before it are kept, and the failure is recorded in the `Report`.
  - `pagesOf` stands for the paginated Route 53 listing of a zone.

`results.dfy` holds the `Option` and `Result` datatypes, and `sequences.dfy`
the associativity of sequence concatenation that the order proofs use.

Behaviour of the code that the model keeps as it is:

- Only NoAnswer and NXDOMAIN are caught. Any other exception ends the
  run. The model ends it the same way for the exceptions it models:
  `KeyError`, `IndexError` and `RecursionError`.
- The resolver recurses without a depth bound or a visited set. A cyclic
  CNAME chain therefore resolves only until the recursion limit, for a
  name on the cycle (`CycleNeverResolves`) and for a name that leads into
  it (`ChainIntoCycleNeverResolves`).
- Everything runs in sequence. Zones are visited in listing order, record
  sets in page order, and addresses in candidate order. The model proves
  each of these orders: `PublicZonesDistribute`, `KeepDistributes`,
  `ProcessedConcat` and `PublicOnlyDistributes`.

## Model

A row also covers the specification functions that its member is proved
equal to or stated against:

- `ResolveDns` covers `Resolve`, `ResolveEach` and `Contribution`;
- `ResolvedIps` covers `Candidates`;
- `ProcessRecords` covers `Processed`;
- `GetAAndCnameRecords` covers `KeepAAndCname` and `Flatten`;
- `RunInventory` covers `RunZones` and `Inventory`;
- `AnyMatches` covers `Matches`.

| member | source | states |
|---|---|---|
| IpClassifier.IsPublicIp | get_records.py:9-19 | false exactly when the string starts with `10.`, with `172.` plus a two-digit number from 16 to 31 plus `.`, or with `192.168.` |
| IpClassifier.AnyMatches | get_records.py:16-19 | the pattern loop with early return yields true exactly when some pattern of the list matches |
| IpClassifier.SecondOctetAgreesWithRange | get_records.py:13 | the alternation `1[6-9]\|2[0-9]\|3[01]` followed by a dot accepts exactly the two-digit spellings of 16 .. 31 |
| IpClassifier.PrivateByCharacters | get_records.py:11-19 | the same classification stated character by character, for every string |
| IpClassifier.ClassifiesPrivateAddresses | get_records.py:12-14 | 10.0.0.1 and 192.168.1.1 are private |
| IpClassifier.ClassifiesPrivateBlockEnds | get_records.py:13 | 172.16.5.5 and 172.31.255.255, the ends of the 172 block, are private |
| IpClassifier.ClassifiesPublicAddresses | get_records.py:16-19 | 8.8.8.8 and 1.1.1.1 are public |
| IpClassifier.NearMissesArePublic | get_records.py:12-14 | each prefix needs its dot and the 172 block stops at 16 and 31: 100.0.0.1, 172.160.0.1, 1921.68.0.1, 172.15.0.1 and 172.32.0.1 are public, while the bare `10.` is private |
| IpClassifier.MalformedIsPublic | get_records.py:16-19 | any string that is empty or does not start with `1` is public, malformed or not |
| DnsResolver.Query | get_records.py:26-30 | a query answers NXDOMAIN exactly for names absent from the table, NoAnswer exactly for a known name whose list for that type is empty, and otherwise that non-empty list |
| DnsResolver.ResolveDns | get_records.py:22-41 | the resolver's loops return exactly `Resolve`: the name's A answers, then the resolution of every CNAME target, or the recursion error |
| DnsResolver.FollowCnames | get_records.py:32-39 | the CNAME loop appends the resolutions of the targets in order to the addresses already collected, or fails when one of them does |
| DnsResolver.ResolveUnfold | get_records.py:26-37 | with fuel left, resolving a name gives its A answers followed by the concatenated resolutions of its CNAME targets |
| DnsResolver.ResolveEachSucceedsIff | get_records.py:35-37 | following a list of targets succeeds exactly when every target resolves |
| DnsResolver.ResolveEachIncludes | get_records.py:35-37 | every address of every target's resolution is in the combined result |
| DnsResolver.ResolveEachOrigin | get_records.py:35-37 | every address of the combined result comes from the resolution of some target |
| DnsResolver.ResolveFuelMonotone | get_records.py:37 | a resolution that succeeds with some fuel gives the same result with any larger fuel |
| DnsResolver.ResolveEachFuelMonotone | get_records.py:35-37 | the same for a list of targets |
| DnsResolver.ResolveSound | get_records.py:26-37 | every returned address is an A answer of the last name of a CNAME chain that starts at the queried name |
| DnsResolver.ResolveSoundThroughCname | get_records.py:32-37 | an address reached through one of the name's CNAME targets lies at the end of a CNAME chain from the name |
| DnsResolver.ResolveComplete | get_records.py:26-37 | every A answer at the end of a CNAME chain from the name is returned when resolution succeeds |
| DnsResolver.ResolvedExactlyReachable | get_records.py:26-37 | on success, an address is returned exactly when it is an A answer of some name reachable by a CNAME chain |
| DnsResolver.OwnAnswersFirst | get_records.py:26-28 | the name's own A answers, in response order, form a prefix of the result |
| DnsResolver.NoRecordsResolveEmpty | get_records.py:24-41 | a name with neither A nor CNAME records, or unknown to the server, resolves to the empty list without error |
| DnsResolver.LeafResolvesToOwnAnswers | get_records.py:26-39 | a name without CNAME targets resolves to exactly its A answers |
| DnsResolver.CnameOnlyFollowsTarget | get_records.py:29-39 | a name with no A answer and one CNAME target resolves to what its target resolves to, so a missing A answer does not stop CNAME following |
| DnsResolver.ChainConsumesFuel | get_records.py:37 | each CNAME hop consumes one nested call: a successful resolution is at least as deep as any chain from the name |
| DnsResolver.CycleNeverResolves | get_records.py:37 | a name on a CNAME cycle never resolves, whatever the fuel, since the recursion has no cycle guard |
| DnsResolver.ChainIntoCycleNeverResolves | get_records.py:37 | a name whose CNAME chain leads into a cycle never resolves, whatever the fuel |
| DnsResolver.SelfCnameNeverResolves | get_records.py:37 | a name that is its own CNAME target never resolves |
| DnsResolver.RankedResolves | get_records.py:26-37 | on an acyclic (ranked) table, fuel above the name's rank always suffices |
| DnsResolver.ResolveFuelIndependent | get_records.py:26-37 | on an acyclic table with enough fuel, adding fuel does not change the result |
| DnsResolver.DirectAddressExample | get_records.py:26-28 | a name with the single A record 203.0.113.10 resolves to exactly that address |
| DnsResolver.TwoHopChainExample | get_records.py:34-37 | a CNAME to a second name holding 198.51.100.5 resolves to exactly that address |
| Route53.LastSegment | get_records.py:46 | `split('/')[-1]`: the result is a suffix of the Id without `/`, preceded by a `/` whenever it is shorter than the Id |
| Route53.PublicZoneIds | get_records.py:46 | the comprehension yields at most one id per listed zone |
| Route53.PublicZoneIdsSingle | get_records.py:46 | one zone yields the last segment of its Id when it is not private, and nothing when it is |
| Route53.PublicZonesDistribute | get_records.py:46 | the zone step keeps the listing order and duplicates: it distributes over concatenation |
| Route53.PublicZonesExactly | get_records.py:46 | an id is kept exactly when it is the last segment of a listed zone that is not private, and no more ids than zones are kept |
| Route53.NoSlashKeptWhole | get_records.py:46 | an Id without `/` is kept whole |
| Route53.SegmentAfterLastSlash | get_records.py:46 | `/hostedzone/Z…` yields the part after the last `/` |
| Route53.TrailingSlashYieldsEmpty | get_records.py:46 | an Id ending in `/` yields the empty string |
| Route53.GetAAndCnameRecords | get_records.py:50-57 | the page loop returns the A and CNAME record sets of all pages, in page order and then record order |
| Route53.AppendKept | get_records.py:54-56 | the inner loop appends the A and CNAME record sets of one page, in order, after those already kept |
| Route53.KeptExactly | get_records.py:55-56 | a record set is kept exactly when it is present and its Type is A or CNAME, and no more are kept than listed |
| Route53.FetchedExactly | get_records.py:53-56 | the same over all pages |
| Route53.KeepDistributes | get_records.py:53-56 | filtering preserves order: it distributes over concatenation |
| Route53.KeepAllOrNothing | get_records.py:55 | a list of only A/CNAME sets is kept whole, and a list without any is dropped whole |
| Route53.KeptAreAOrCname | get_records.py:55 | every kept record set is A or CNAME, which `process_records` needs |
| RecordProcessing.PublicOnly | get_records.py:82 | the comprehension keeps exactly the public candidates and never adds any |
| RecordProcessing.PublicOnlyDistributes | get_records.py:82 | the public filter keeps candidate order and duplicates: it distributes over concatenation, and it keeps a single address exactly when that address is public |
| RecordProcessing.PublicOnlyEmptyIff | get_records.py:82-83 | nothing survives exactly when no candidate is public |
| RecordProcessing.ResolvedIps | get_records.py:66-79 | the dispatch computes `Candidates`: the literal values, the alias resolution, the first CNAME value's resolution, or the exception |
| RecordProcessing.AppendRows | get_records.py:83-85 | the inner loop appends one (Name, IP) row per public address, in order |
| RecordProcessing.ProcessRecords | get_records.py:60-87 | the record loop returns exactly `Processed`: all rows in record order, or the first exception |
| RecordProcessing.ProcessedKeepsError | get_records.py:62-79 | once a record set raises, the rest of the list changes nothing |
| RecordProcessing.RowsForMembership | get_records.py:84-85 | a row is emitted for a record set exactly when it carries the set's Name and one of the addresses |
| RecordProcessing.ProcessedSucceedsIff | get_records.py:62-87 | `process_records` returns normally exactly when no record set's dispatch raises |
| RecordProcessing.ProcessedFirstError | get_records.py:62-79 | the exception raised is that of the first record set that raises, all earlier ones succeeding |
| RecordProcessing.ProcessedRowsExactly | get_records.py:62-85 | a row is emitted exactly when it pairs some record set's Name with one of its public candidates |
| RecordProcessing.NoPrivateAddressEmitted | get_records.py:82-85 | no emitted row carries a private address |
| RecordProcessing.ProcessedJoins | get_records.py:62-85 | processing the list is joining, in order, what each record set contributes alone |
| RecordProcessing.ProcessedConcat | get_records.py:62-85 | record sets are processed independently and in order: rows of a concatenation are the rows of each part in turn, and the exception is the first part's, else the second's |
| RecordProcessing.NoPublicCandidateEmitsNothing | get_records.py:82-85 | a record set none of whose candidates is public contributes no row |
| RecordProcessing.LiteralAPassesThrough | get_records.py:72-74 | a plain A record set yields its values without any DNS lookup |
| RecordProcessing.AliasResolvesDnsName | get_records.py:68-71 | an alias A record set yields the resolution of its DNS name, and fails exactly when it does |
| RecordProcessing.CnameUsesFirstValueOnly | get_records.py:77-79 | a CNAME record set yields the resolution of its first value, or the recursion error, whatever the later values are |
| RecordProcessing.MalformedRecordSetsRaise | get_records.py:67-79 | a plain A set without ResourceRecords, or any CNAME set without it, alias or not, raises KeyError; a CNAME set with an empty value list raises IndexError |
| RecordProcessing.AliasDropsPrivateAddress | get_records.py:68-85 | an alias resolving to 10.1.2.3 and 203.0.113.10 emits only the public address |
| Inventory.EmitRows | get_records.py:100-101 | the print loop outputs the rows in order after those already printed |
| Inventory.RunInventory | get_records.py:90-101 | `main`'s zone loop produces exactly `Inventory`: the rows of each public zone in order, skipping zones without records and stopping at the first exception |
| Inventory.RunZonesUnfold | get_records.py:94-101 | one turn of the zone loop: skip an empty zone, stop on an exception, or print the rows and go on |
| Inventory.RunRowsArePublic | get_records.py:93-101 | every printed address is public, and its name is that of an A or CNAME record set of one of the zones |
| Inventory.InventoryEmitsOnlyPublic | get_records.py:90-101 | the run never prints a private address |
| Inventory.TwoZoneExample | get_records.py:90-101 | two zones, a plain A set and a CNAME whose target holds a private and a public address, print exactly the two public rows |

## Left out

- Route 53 calls (`list_hosted_zones` and the `list_resource_record_sets`
  paginator) are network I/O. Their results are parameters: the zone list
  and the `pagesOf` listing.
- dnspython queries are network I/O. They are replaced by the immutable
  name table. Whatever a real server answers, including server-side
  chasing of a CNAME when asked for A records, is whatever the table holds.
- `to_text()` on a CNAME target yields an absolute name with a trailing
  dot. The model looks targets up in the table as they are given.
- Timeouts, server failures and other DNS or AWS exceptions escape the
  source uncaught. They are not modelled.
- Printing: the header line and the `name,ip` formatting are left out.
  `Report.rows` holds the rows in print order. Names or addresses
  containing a comma would corrupt a line, since nothing is escaped.
- The regular expression engine is not modelled. The three patterns are
  written as prefix and character predicates.
- Record sets of other types never reach `process_records`, which the
  type filter guarantees. In the source they would reuse an unbound or
  stale `resolved_ips`, so `ProcessRecords` requires A or CNAME sets only.
- DnsResolver.Resolve: fuel counts only nested resolver calls. It stands
  in for Python's recursion limit, whose exact depth also depends on the
  caller's stack.
