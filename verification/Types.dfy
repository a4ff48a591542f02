/** Value types shared by the route-computation core and the test wrapper:
    prefixes, prefix entries and databases, and the string order that the
    C++ code gets from `std::string::operator<`. */
module Types {

  datatype Option<+T> = None | Some(value: T)

  /** Largest value of the 64-bit unsigned link-state metric. */
  const MAX_METRIC: nat := 0xFFFF_FFFF_FFFF_FFFF

  /** An MPLS label, held in a signed 32-bit integer (`int32_t`). */
  newtype Label = x: int | -0x8000_0000 <= x < 0x8000_0000

  /** An IP prefix: the address bytes (4 for IPv4, 16 for IPv6) and its length. */
  datatype IpPrefix = IpPrefix(addr: seq<bv8>, prefixLength: int)

  /** A prefix is IPv4 when its address holds exactly four bytes. */
  predicate IsV4(p: IpPrefix) { |p.addr| == 4 }

  datatype PrefixType = Loopback | Default | Bgp | PrefixAllocator | Breeze | Rib

  datatype ForwardingType = Ip | SrMpls

  datatype ForwardingAlgorithm = SpEcmp | Ksp2EdEcmp

  /** One advertised prefix. `hasMetricVector` says whether the optional BGP
      metric vector is present; its contents are not modelled. */
  datatype PrefixEntry = PrefixEntry(
    prefix: IpPrefix,
    prefixType: PrefixType,
    forwardingType: ForwardingType,
    forwardingAlgorithm: ForwardingAlgorithm,
    hasMetricVector: bool,
    minNexthop: Option<int>)

  datatype PrefixDatabase = PrefixDatabase(
    thisNodeName: string,
    prefixEntries: seq<PrefixEntry>,
    deletePrefix: bool)

  /** Lexicographic strict order on strings, as `std::string::operator<`. */
  predicate LexLess(a: string, b: string)
  {
    if |a| == 0 then |b| > 0
    else if |b| == 0 then false
    else if a[0] != b[0] then a[0] < b[0]
    else LexLess(a[1..], b[1..])
  }

  lemma {:induction false} LexLessIrreflexive(a: string)
    ensures !LexLess(a, a)
  {
    if |a| > 0 { LexLessIrreflexive(a[1..]); }
  }

  lemma {:induction false} LexLessTotal(a: string, b: string)
    ensures a == b || LexLess(a, b) || LexLess(b, a)
  {
    if |a| > 0 && |b| > 0 && a[0] == b[0] {
      LexLessTotal(a[1..], b[1..]);
      if a[1..] == b[1..] {
        assert a == [a[0]] + a[1..] && b == [b[0]] + b[1..];
      }
    }
  }

  lemma {:induction false} LexLessTransitive(a: string, b: string, c: string)
    requires LexLess(a, b) && LexLess(b, c)
    ensures LexLess(a, c)
  {
    if |a| > 0 && |b| > 0 && |c| > 0 && a[0] == b[0] && b[0] == c[0] {
      LexLessTransitive(a[1..], b[1..], c[1..]);
    }
  }

  lemma LexLessAsymmetric(a: string, b: string)
    requires LexLess(a, b)
    ensures !LexLess(b, a)
  {
    if LexLess(b, a) {
      LexLessTransitive(a, b, a);
      LexLessIrreflexive(a);
    }
  }
}
