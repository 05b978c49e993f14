/** The name resolver of get_records.py, `resolve_dns_with_dnspython`:
    collect a name's A answers, then resolve every CNAME target of the name
    and append what each yields. The DNS server is a fixed table; a
    NoAnswer or NXDOMAIN reply contributes nothing. The source has no
    depth or cycle guard, so the only bound on its recursion is the Python
    interpreter's recursion limit, here the `fuel` parameter: when it runs
    out the call fails (an uncaught RecursionError) and the model returns
    None. */
module DnsResolver {
  import opened Results

  datatype RdType = A | CNAME

  /** What the server holds for one name: its A answers and its CNAME
      targets, each in response order. */
  datatype Entry = Entry(addresses: seq<string>, targets: seq<string>)

  /** The DNS server: a name absent from the table does not exist. */
  type Table = map<string, Entry>

  /** The three outcomes of `dns.resolver.resolve(name, rdtype)` that the
      source distinguishes. */
  datatype Answer = Answer(rrset: seq<string>) | NoAnswer | NxDomain

  /** One query to the server: NXDOMAIN for an unknown name, NoAnswer for
      a known name without records of the type, the records otherwise. */
  function Query(t: Table, name: string, rdtype: RdType): (r: Answer)
    ensures r.NxDomain? <==> name !in t
    ensures r.Answer? ==> r.rrset != []
    ensures r.Answer? ==> r.rrset == (if rdtype == A then t[name].addresses else t[name].targets)
    ensures r.NoAnswer? <==> name in t && (if rdtype == A then t[name].addresses else t[name].targets) == []
  {
    if name !in t then NxDomain
    else
      var rrset := if rdtype == A then t[name].addresses else t[name].targets;
      if rrset == [] then NoAnswer else Answer(rrset)
  }

  /** What one query adds to the result: its records, or nothing when the
      server replies NoAnswer or NXDOMAIN. */
  function Contribution(t: Table, name: string, rdtype: RdType): seq<string> {
    match Query(t, name, rdtype)
    case Answer(rrset) => rrset
    case _ => []
  }

  /** The result of `resolve_dns_with_dnspython(name)` with `fuel` nested
      calls left: the name's A answers followed by the resolutions of its
      CNAME targets. */
  function Resolve(t: Table, name: string, fuel: nat): Option<seq<string>>
    decreases fuel, 0
  {
    if fuel == 0 then None
    else
      match ResolveEach(t, Contribution(t, name, CNAME), fuel - 1)
      case None => None
      case Some(tail) => Some(Contribution(t, name, A) + tail)
  }

  /** The resolutions of `targets`, concatenated in order; None as soon
      as one of them fails. */
  function ResolveEach(t: Table, targets: seq<string>, fuel: nat): Option<seq<string>>
    decreases fuel, 1, |targets|
  {
    if targets == [] then Some([])
    else
      match ResolveEach(t, targets[..|targets| - 1], fuel)
      case None => None
      case Some(init) =>
        match Resolve(t, targets[|targets| - 1], fuel)
        case None => None
        case Some(last) => Some(init + last)
  }

  /** `resolve_dns_with_dnspython`, step by step: a loop appending the A
      answers, then the CNAME targets followed by `FollowCnames`. */
  method ResolveDns(t: Table, name: string, fuel: nat) returns (r: Option<seq<string>>)
    ensures r == Resolve(t, name, fuel)
    decreases fuel, 0
  {
    if fuel == 0 {
      return None;
    }
    var ips: seq<string> := [];
    var answer := Query(t, name, A);
    if answer.Answer? {
      for i := 0 to |answer.rrset|
        invariant ips == answer.rrset[..i]
      {
        ips := ips + [answer.rrset[i]];
      }
    }
    assert ips == Contribution(t, name, A);
    var cnameAnswer := Query(t, name, CNAME);
    if cnameAnswer.Answer? {
      r := FollowCnames(t, ips, cnameAnswer.rrset, fuel - 1);
    } else {
      assert ResolveEach(t, [], fuel - 1) == Some([]) && ips + [] == ips;
      r := Some(ips);
    }
    ResolveUnfold(t, name, fuel);
  }

  /** The CNAME loop of `resolve_dns_with_dnspython`: append the
      recursive result of each target to `ips`, in order; the first
      failure ends the call. */
  method FollowCnames(t: Table, ips: seq<string>, targets: seq<string>, fuel: nat) returns (r: Option<seq<string>>)
    ensures r == match ResolveEach(t, targets, fuel)
                 case None => None
                 case Some(tail) => Some(ips + tail)
    decreases fuel, 1
  {
    var acc := ips;
    for i := 0 to |targets|
      invariant ResolveEach(t, targets[..i], fuel).Some?
      invariant acc == ips + ResolveEach(t, targets[..i], fuel).value
    {
      var sub := ResolveDns(t, targets[i], fuel);
      if sub.None? {
        ResolveEachSucceedsIff(t, targets, fuel);
        return None;
      }
      ResolveEachStep(t, targets, i, fuel);
      acc := acc + sub.value;
    }
    assert targets[..|targets|] == targets;
    r := Some(acc);
  }

  /** One level of `Resolve`: the name's own A answers, then its targets. */
  lemma ResolveUnfold(t: Table, name: string, fuel: nat)
    requires fuel > 0
    ensures var tail := ResolveEach(t, Contribution(t, name, CNAME), fuel - 1);
            Resolve(t, name, fuel) == if tail.Some? then Some(Contribution(t, name, A) + tail.value) else None
  {
  }

  /** Resolving one more target appends its resolution. */
  lemma ResolveEachStep(t: Table, targets: seq<string>, i: nat, fuel: nat)
    requires i < |targets|
    requires ResolveEach(t, targets[..i], fuel).Some? && Resolve(t, targets[i], fuel).Some?
    ensures ResolveEach(t, targets[..i + 1], fuel)
         == Some(ResolveEach(t, targets[..i], fuel).value + Resolve(t, targets[i], fuel).value)
  {
    assert targets[..i + 1][..i] == targets[..i];
  }

  /** Resolving a list of targets succeeds exactly when resolving each of
      them does. */
  lemma {:induction false} ResolveEachSucceedsIff(t: Table, targets: seq<string>, fuel: nat)
    ensures ResolveEach(t, targets, fuel).Some?
        <==> forall i :: 0 <= i < |targets| ==> Resolve(t, targets[i], fuel).Some?
    decreases |targets|
  {
    if targets != [] {
      var init := targets[..|targets| - 1];
      ResolveEachSucceedsIff(t, init, fuel);
      assert forall i :: 0 <= i < |init| ==> init[i] == targets[i];
    }
  }

  /** Every address of a target's resolution is in the resolution of a
      list holding that target. */
  lemma {:induction false} ResolveEachIncludes(t: Table, targets: seq<string>, fuel: nat, i: nat)
    requires i < |targets| && ResolveEach(t, targets, fuel).Some?
    ensures Resolve(t, targets[i], fuel).Some?
    ensures forall ip :: ip in Resolve(t, targets[i], fuel).value ==> ip in ResolveEach(t, targets, fuel).value
    decreases |targets|
  {
    var init := targets[..|targets| - 1];
    if i < |init| {
      assert init[i] == targets[i];
      ResolveEachIncludes(t, init, fuel, i);
    }
  }

  /** Every address of a list's resolution comes from the resolution of
      one of its targets. */
  lemma {:induction false} ResolveEachOrigin(t: Table, targets: seq<string>, fuel: nat, ip: string)
    requires ResolveEach(t, targets, fuel).Some? && ip in ResolveEach(t, targets, fuel).value
    ensures exists i :: 0 <= i < |targets| && Resolve(t, targets[i], fuel).Some?
                        && ip in Resolve(t, targets[i], fuel).value
    decreases |targets|
  {
    var init := targets[..|targets| - 1];
    var last := |targets| - 1;
    if ip !in Resolve(t, targets[last], fuel).value {
      ResolveEachOrigin(t, init, fuel, ip);
      var i :| 0 <= i < |init| && Resolve(t, init[i], fuel).Some? && ip in Resolve(t, init[i], fuel).value;
      assert init[i] == targets[i];
    }
  }

  /** Fuel only decides whether resolution finishes: a result obtained
      with some fuel is obtained unchanged with more. */
  lemma {:induction false} ResolveFuelMonotone(t: Table, name: string, fuel: nat, more: nat)
    requires fuel <= more && Resolve(t, name, fuel).Some?
    ensures Resolve(t, name, more) == Resolve(t, name, fuel)
    decreases fuel, 0
  {
    ResolveEachFuelMonotone(t, Contribution(t, name, CNAME), fuel - 1, more - 1);
  }

  /** The same for a list of targets. */
  lemma {:induction false} ResolveEachFuelMonotone(t: Table, targets: seq<string>, fuel: nat, more: nat)
    requires fuel <= more && ResolveEach(t, targets, fuel).Some?
    ensures ResolveEach(t, targets, more) == ResolveEach(t, targets, fuel)
    decreases fuel, 1, |targets|
  {
    if targets != [] {
      ResolveEachFuelMonotone(t, targets[..|targets| - 1], fuel, more);
      ResolveFuelMonotone(t, targets[|targets| - 1], fuel, more);
    }
  }

  function Last(path: seq<string>): string
    requires path != []
  {
    path[|path| - 1]
  }

  /** `path` is a CNAME chain: each name after the first is a CNAME target
      of the one before it. */
  ghost predicate IsCnameChain(t: Table, path: seq<string>)
    decreases |path|
  {
    && |path| >= 1
    && (|path| > 1 ==> path[1] in Contribution(t, path[0], CNAME) && IsCnameChain(t, path[1..]))
  }

  /** A CNAME hop in front of a chain makes a longer chain. */
  lemma ChainCons(t: Table, name: string, rest: seq<string>)
    requires IsCnameChain(t, rest) && rest[0] in Contribution(t, name, CNAME)
    ensures IsCnameChain(t, [name] + rest) && ([name] + rest)[0] == name && Last([name] + rest) == Last(rest)
  {
    assert ([name] + rest)[1..] == rest;
  }

  /** Soundness: every address a successful resolution of `name` returns
      is an A answer of a name reached from `name` by a CNAME chain. */
  lemma {:induction false} ResolveSound(t: Table, name: string, fuel: nat, ip: string)
    requires Resolve(t, name, fuel).Some? && ip in Resolve(t, name, fuel).value
    ensures exists path :: IsCnameChain(t, path) && path[0] == name
                           && ip in Contribution(t, Last(path), A)
    decreases fuel, 1
  {
    ResolveUnfold(t, name, fuel);
    if ip in Contribution(t, name, A) {
      assert IsCnameChain(t, [name]);
    } else {
      ResolveSoundThroughCname(t, name, fuel, ip);
    }
  }

  /** An address found through one of `name`'s CNAME targets lies at the
      end of a chain from `name`. */
  lemma {:induction false} ResolveSoundThroughCname(t: Table, name: string, fuel: nat, ip: string)
    requires fuel > 0
    requires ResolveEach(t, Contribution(t, name, CNAME), fuel - 1).Some?
    requires ip in ResolveEach(t, Contribution(t, name, CNAME), fuel - 1).value
    ensures exists path :: IsCnameChain(t, path) && path[0] == name
                           && ip in Contribution(t, Last(path), A)
    decreases fuel, 0
  {
    var targets := Contribution(t, name, CNAME);
    ResolveEachOrigin(t, targets, fuel - 1, ip);
    var i :| 0 <= i < |targets| && Resolve(t, targets[i], fuel - 1).Some?
             && ip in Resolve(t, targets[i], fuel - 1).value;
    ResolveSound(t, targets[i], fuel - 1, ip);
    var rest :| IsCnameChain(t, rest) && rest[0] == targets[i]
                && ip in Contribution(t, Last(rest), A);
    ChainCons(t, name, rest);
  }


  /** Completeness: when the resolution of the head of a CNAME chain
      succeeds, it contains every A answer of the chain's last name. */
  lemma {:induction false} ResolveComplete(t: Table, path: seq<string>, fuel: nat, ip: string)
    requires IsCnameChain(t, path) && Resolve(t, path[0], fuel).Some?
    requires ip in Contribution(t, Last(path), A)
    ensures ip in Resolve(t, path[0], fuel).value
    decreases |path|
  {
    if |path| > 1 {
      var targets := Contribution(t, path[0], CNAME);
      assert path[1] in targets;
      var i :| 0 <= i < |targets| && targets[i] == path[1];
      ResolveEachIncludes(t, targets, fuel - 1, i);
      var rest := path[1..];
      ResolveComplete(t, rest, fuel - 1, ip);
    }
  }

  /** Together: a successful resolution of `name` holds exactly the A
      answers of the names its CNAME chains reach. */
  lemma ResolvedExactlyReachable(t: Table, name: string, fuel: nat, ip: string)
    requires Resolve(t, name, fuel).Some?
    ensures ip in Resolve(t, name, fuel).value
        <==> exists path :: IsCnameChain(t, path) && path[0] == name
                            && ip in Contribution(t, Last(path), A)
  {
    if ip in Resolve(t, name, fuel).value {
      ResolveSound(t, name, fuel, ip);
    }
    if path :| IsCnameChain(t, path) && path[0] == name && ip in Contribution(t, Last(path), A) {
      ResolveComplete(t, path, fuel, ip);
    }
  }

  /** The A answers of the name itself come first, in response order. */
  lemma OwnAnswersFirst(t: Table, name: string, fuel: nat)
    requires Resolve(t, name, fuel).Some?
    ensures Contribution(t, name, A) <= Resolve(t, name, fuel).value
  {
  }

  /** A name with neither A nor CNAME records, known or not, resolves to
      the empty list with one unit of fuel. */
  lemma NoRecordsResolveEmpty(t: Table, name: string, fuel: nat)
    requires fuel >= 1
    requires name !in t || (t[name].addresses == [] && t[name].targets == [])
    ensures Resolve(t, name, fuel) == Some([])
  {
    assert ResolveEach(t, [], fuel - 1) == Some([]);
    assert Contribution(t, name, A) + [] == [];
  }

  /** A name without CNAME records resolves to its own A answers. */
  lemma LeafResolvesToOwnAnswers(t: Table, name: string, fuel: nat)
    requires name in t && t[name].targets == [] && fuel >= 1
    ensures Resolve(t, name, fuel) == Some(t[name].addresses)
  {
    assert Contribution(t, name, CNAME) == [];
    assert ResolveEach(t, [], fuel - 1) == Some([]);
    assert Contribution(t, name, A) + [] == t[name].addresses;
  }

  /** A missing A answer does not stop CNAME following: a name whose only
      record is a CNAME to `target` resolves as `target` does. */
  lemma {:induction false} CnameOnlyFollowsTarget(t: Table, name: string, target: string, fuel: nat)
    requires name in t && t[name].addresses == [] && t[name].targets == [target]
    requires fuel >= 1
    ensures Resolve(t, name, fuel) == Resolve(t, target, fuel - 1)
  {
    assert [target][..0] == [];
    assert ResolveEach(t, [], fuel - 1) == Some([]);
    match Resolve(t, target, fuel - 1)
    case None =>
    case Some(v) => assert [] + v == v;
  }

  /** Resolving the head of a CNAME chain descends the whole chain, one
      unit of fuel per hop. */
  lemma {:induction false} ChainConsumesFuel(t: Table, path: seq<string>, fuel: nat)
    requires IsCnameChain(t, path) && Resolve(t, path[0], fuel).Some?
    ensures |path| <= fuel
    ensures Resolve(t, Last(path), fuel - (|path| - 1)).Some?
    decreases |path|
  {
    if |path| > 1 {
      var targets := Contribution(t, path[0], CNAME);
      assert path[1] in targets;
      var i :| 0 <= i < |targets| && targets[i] == path[1];
      ResolveEachIncludes(t, targets, fuel - 1, i);
      var rest := path[1..];
      ChainConsumesFuel(t, rest, fuel - 1);
    }
  }

  /** No guard, no result: a name that a CNAME chain leads back to never
      resolves, whatever the fuel (the source recurses until the
      interpreter gives up). */
  lemma {:induction false} CycleNeverResolves(t: Table, path: seq<string>, fuel: nat)
    requires IsCnameChain(t, path) && |path| >= 2 && path[0] == Last(path)
    ensures Resolve(t, path[0], fuel).None?
    decreases fuel
  {
    if Resolve(t, path[0], fuel).Some? {
      ChainConsumesFuel(t, path, fuel);
      CycleNeverResolves(t, path, fuel - (|path| - 1));
    }
  }

  /** A name whose CNAME chain leads into a cycle never resolves either:
      resolving it would mean resolving the cycle's names with the fuel
      left at the end of the chain. */
  lemma ChainIntoCycleNeverResolves(t: Table, lead: seq<string>, cycle: seq<string>, fuel: nat)
    requires IsCnameChain(t, lead) && IsCnameChain(t, cycle)
    requires |cycle| >= 2 && cycle[0] == Last(cycle) && Last(lead) == cycle[0]
    ensures Resolve(t, lead[0], fuel).None?
  {
    if Resolve(t, lead[0], fuel).Some? {
      ChainConsumesFuel(t, lead, fuel);
      CycleNeverResolves(t, cycle, fuel - (|lead| - 1));
    }
  }

  /** The commonest cycle: a name that is its own CNAME target. */
  lemma SelfCnameNeverResolves(t: Table, name: string, fuel: nat)
    requires name in Contribution(t, name, CNAME)
    ensures Resolve(t, name, fuel).None?
  {
    CycleNeverResolves(t, [name, name], fuel);
  }

  /** `rank` witnesses that the table's CNAME graph is acyclic: every
      CNAME target ranks strictly below the name that points to it. */
  ghost predicate Ranked(t: Table, rank: map<string, nat>) {
    forall n :: n in t ==> n in rank && forall x :: x in t[n].targets ==> x in rank && rank[x] < rank[n]
  }

  function Height(rank: map<string, nat>, name: string): nat {
    if name in rank then rank[name] else 0
  }

  /** On an acyclic table, fuel above the name's rank always suffices. */
  lemma {:induction false} RankedResolves(t: Table, rank: map<string, nat>, name: string, fuel: nat)
    requires Ranked(t, rank) && fuel > Height(rank, name)
    ensures Resolve(t, name, fuel).Some?
    decreases fuel
  {
    var targets := Contribution(t, name, CNAME);
    forall i | 0 <= i < |targets|
      ensures Resolve(t, targets[i], fuel - 1).Some?
    {
      assert targets[i] in t[name].targets;
      RankedResolves(t, rank, targets[i], fuel - 1);
    }
    ResolveEachSucceedsIff(t, targets, fuel - 1);
  }

  /** On an acyclic table the result does not depend on the fuel, once
      there is enough of it. */
  lemma ResolveFuelIndependent(t: Table, rank: map<string, nat>, name: string, fuel: nat, more: nat)
    requires Ranked(t, rank) && Height(rank, name) < fuel <= more
    ensures Resolve(t, name, more) == Resolve(t, name, fuel) != None
  {
    RankedResolves(t, rank, name, fuel);
    ResolveFuelMonotone(t, name, fuel, more);
  }

  /** A name with one A record resolves to that address. */
  lemma DirectAddressExample(name: string)
    ensures Resolve(map[name := Entry(["203.0.113.10"], [])], name, 1) == Some(["203.0.113.10"])
  {
    LeafResolvesToOwnAnswers(map[name := Entry(["203.0.113.10"], [])], name, 1);
  }

  /** A chain of two names is followed to the second name's address. */
  lemma TwoHopChainExample(first: string, second: string)
    requires first != second
    ensures var t := map[first := Entry([], [second]), second := Entry(["198.51.100.5"], [])];
            Resolve(t, first, 2) == Some(["198.51.100.5"])
  {
    var t := map[first := Entry([], [second]), second := Entry(["198.51.100.5"], [])];
    CnameOnlyFollowsTarget(t, first, second, 2);
    LeafResolvesToOwnAnswers(t, second, 1);
  }
}
