/** The IP classifier of get_records.py: `is_public_ip` decides whether a
    dotted-quad string is public by testing it against three anchored
    patterns for the private ranges of section 3 of RFC 1918
    (10.0.0.0/8, 172.16.0.0/12 and 192.168.0.0/16). Nothing is parsed:
    a string that matches none of the patterns, malformed or not, is public. */
module IpClassifier {

  /** `p` is a prefix of `s`. */
  predicate StartsWith(s: string, p: string) {
    |p| <= |s| && s[..|p|] == p
  }

  /** The three patterns, in the order the source tries them. */
  datatype PrivatePattern =
    | Prefix10        // ^10\.
    | Prefix172Block  // ^172\.(1[6-9]|2[0-9]|3[01])\.
    | Prefix192168    // ^192\.168\.

  const PrivatePatterns: seq<PrivatePattern> := [Prefix10, Prefix172Block, Prefix192168]

  predicate IsDigit(c: char) {
    '0' <= c <= '9'
  }

  /** The two characters `hi lo` spell one of 16 .. 31:
      `1[6-9]`, `2[0-9]` or `3[01]`. */
  predicate OctetSixteenToThirtyOne(hi: char, lo: char) {
    || (hi == '1' && '6' <= lo <= '9')
    || (hi == '2' && IsDigit(lo))
    || (hi == '3' && (lo == '0' || lo == '1'))
  }

  /** `re.match(pattern, ip)` for one of the three patterns: an anchored
      match at the start of the string, each `\.` a literal dot. */
  predicate Matches(p: PrivatePattern, ip: string) {
    match p
    case Prefix10 => StartsWith(ip, "10.")
    case Prefix172Block =>
      && StartsWith(ip, "172.")
      && |ip| >= 7
      && OctetSixteenToThirtyOne(ip[4], ip[5])
      && ip[6] == '.'
    case Prefix192168 => StartsWith(ip, "192.168.")
  }

  /** Some pattern of `ps` matches `ip`; the source's loop with its early return. */
  function AnyMatches(ps: seq<PrivatePattern>, ip: string): (r: bool)
    ensures r <==> exists i :: 0 <= i < |ps| && Matches(ps[i], ip)
  {
    if ps == [] then false
    else Matches(ps[0], ip) || AnyMatches(ps[1..], ip)
  }

  /** The two-digit decimal spelling of `n`. */
  function TwoDigits(n: nat): (s: string)
    requires 10 <= n <= 99
    ensures |s| == 2 && IsDigit(s[0]) && IsDigit(s[1])
  {
    [('0' as int + n / 10) as char, ('0' as int + n % 10) as char]
  }

  /** Reference definition of "private", stated by ranges rather than by
      characters: the string starts with `10.`, with `192.168.`, or with
      `172.` followed by the decimal spelling of a number from 16 to 31
      and a dot. */
  ghost predicate InPrivatePrefix(ip: string) {
    || StartsWith(ip, "10.")
    || (exists n: nat :: 16 <= n <= 31 && StartsWith(ip, "172." + TwoDigits(n) + "."))
    || StartsWith(ip, "192.168.")
  }

  /** `is_public_ip`: false exactly when `ip` starts with one of the three
      private prefixes, true for every other string. */
  function IsPublicIp(ip: string): (r: bool)
    ensures !r <==> InPrivatePrefix(ip)
  {
    var r := !AnyMatches(PrivatePatterns, ip);
    assert PrivatePatterns[0] == Prefix10 && PrivatePatterns[1] == Prefix172Block
      && PrivatePatterns[2] == Prefix192168;
    SecondOctetAgreesWithRange(ip);
    r
  }

  /** The character test of the 172 pattern and the numeric range agree. */
  lemma {:induction false} SecondOctetAgreesWithRange(ip: string)
    ensures Matches(Prefix172Block, ip)
        <==> exists n: nat :: 16 <= n <= 31 && StartsWith(ip, "172." + TwoDigits(n) + ".")
  {
    if Matches(Prefix172Block, ip) {
      var n: nat := (ip[4] as int - '0' as int) * 10 + (ip[5] as int - '0' as int);
      assert 16 <= n <= 31;
      var p := "172." + TwoDigits(n) + ".";
      assert ip[..7] == p;
    }
    if n: nat :| 16 <= n <= 31 && StartsWith(ip, "172." + TwoDigits(n) + ".") {
      var p := "172." + TwoDigits(n) + ".";
      assert ip[..4] == p[..4] == "172.";
      assert ip[4] == p[4] && ip[5] == p[5] && ip[6] == p[6];
    }
  }

  /** The three patterns spelled out character by character, as the
      regular expressions read. */
  lemma {:induction false} PrivateByCharacters(ip: string)
    ensures !IsPublicIp(ip) <==>
      || (|ip| >= 3 && ip[0] == '1' && ip[1] == '0' && ip[2] == '.')
      || (&& |ip| >= 7 && ip[0] == '1' && ip[1] == '7' && ip[2] == '2' && ip[3] == '.'
          && OctetSixteenToThirtyOne(ip[4], ip[5]) && ip[6] == '.')
      || (&& |ip| >= 8 && ip[0] == '1' && ip[1] == '9' && ip[2] == '2' && ip[3] == '.'
          && ip[4] == '1' && ip[5] == '6' && ip[6] == '8' && ip[7] == '.')
  {
    assert PrivatePatterns[0] == Prefix10 && PrivatePatterns[1] == Prefix172Block
      && PrivatePatterns[2] == Prefix192168;
    if |ip| >= 3 {
      assert StartsWith(ip, "10.") <==> ip[0] == '1' && ip[1] == '0' && ip[2] == '.' by {
        if StartsWith(ip, "10.") { assert ip[..3][0] == ip[0] && ip[..3][1] == ip[1] && ip[..3][2] == ip[2]; }
        if ip[0] == '1' && ip[1] == '0' && ip[2] == '.' { assert ip[..3] == "10."; }
      }
    }
    if |ip| >= 4 {
      assert StartsWith(ip, "172.") <==> ip[0] == '1' && ip[1] == '7' && ip[2] == '2' && ip[3] == '.' by {
        if StartsWith(ip, "172.") { assert ip[..4][0] == ip[0] && ip[..4][1] == ip[1] && ip[..4][2] == ip[2] && ip[..4][3] == ip[3]; }
        if ip[0] == '1' && ip[1] == '7' && ip[2] == '2' && ip[3] == '.' { assert ip[..4] == "172."; }
      }
    }
    if |ip| >= 8 {
      var p := "192.168.";
      assert StartsWith(ip, p) <==> forall k :: 0 <= k < 8 ==> ip[k] == p[k] by {
        if StartsWith(ip, p) { assert forall k :: 0 <= k < 8 ==> ip[..8][k] == ip[k]; }
        if forall k :: 0 <= k < 8 ==> ip[k] == p[k] { assert ip[..8] == p; }
      }
    }
  }

  /** Addresses inside the first and last ranges RFC 1918 reserves are
      private. */
  lemma ClassifiesPrivateAddresses()
    ensures !IsPublicIp("10.0.0.1") && !IsPublicIp("192.168.1.1")
  {
    PrivateByCharacters("10.0.0.1");
    PrivateByCharacters("192.168.1.1");
  }

  /** Both ends of 172.16.0.0/12 are private. */
  lemma ClassifiesPrivateBlockEnds()
    ensures !IsPublicIp("172.16.5.5") && !IsPublicIp("172.31.255.255")
  {
    PrivateByCharacters("172.16.5.5");
    PrivateByCharacters("172.31.255.255");
  }

  /** Well-known public resolvers are public. */
  lemma ClassifiesPublicAddresses()
    ensures IsPublicIp("8.8.8.8") && IsPublicIp("1.1.1.1")
  {
    PrivateByCharacters("8.8.8.8");
    PrivateByCharacters("1.1.1.1");
  }

  /** Near misses are public: every private prefix ends with its dot, so
      a longer first or second octet does not match, nor does a second
      octet just outside 16 .. 31; the bare prefix `10.` is private. */
  lemma NearMissesArePublic()
    ensures IsPublicIp("100.0.0.1") && IsPublicIp("172.160.0.1") && IsPublicIp("1921.68.0.1")
    ensures IsPublicIp("172.15.0.1") && IsPublicIp("172.32.0.1")
    ensures !IsPublicIp("10.")
  {
    PrivateByCharacters("100.0.0.1");
    PrivateByCharacters("172.160.0.1");
    PrivateByCharacters("1921.68.0.1");
    PrivateByCharacters("172.15.0.1");
    PrivateByCharacters("172.32.0.1");
    PrivateByCharacters("10.");
  }

  /** No validation: a string that does not begin with the digit 1 cannot
      match any pattern and is public, whatever else it holds. */
  lemma MalformedIsPublic(ip: string)
    requires ip == [] || ip[0] != '1'
    ensures IsPublicIp(ip)
  {
    PrivateByCharacters(ip);
  }
}
