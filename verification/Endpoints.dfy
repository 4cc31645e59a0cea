/** Port ranges, nets with port ranges, and the sets of endpoints they stand for. */
module Endpoints {
  import opened Cidr
  import opened Slices

  /** An unsigned 16-bit integer. */
  type Port = p: nat | p < 0x1_0000

  datatype PortRange = PortRange(from: Port, to: Port) {
    predicate IsAny() { this == ANY_PORT }

    predicate Overlap(other: PortRange) { from <= other.to && to >= other.from }

    predicate Contains(port: Port) { from <= port && to >= port }

    function Merge(other: PortRange): PortRange {
      PortRange(if from < other.from then from else other.from, if to > other.to then to else other.to)
    }
  }

  const ANY_PORT := PortRange(1, 65534)

  datatype NetWithPortRange = NetWithPortRange(net: Net, ports: PortRange) {

    predicate Overlap(other: NetWithPortRange) {
      || (ports.Overlap(other.ports) && InNet(net, other.net.ip))
      || (other.ports.Overlap(ports) && InNet(other.net, net.ip))
    }

    /** Asks only whether the other net's base address is inside. */
    predicate Contains(other: NetWithPortRange) {
      ports.Contains(other.ports.to) && ports.Contains(other.ports.from) && InNet(net, other.net.ip)
    }

    function Compare(b: NetWithPortRange): int {
      var c := CompareBits(net.ip, b.net.ip);
      if c != 0 then c
      else if ports.from < b.ports.from then -1
      else if ports.from > b.ports.from then 1
      else if ports.to < b.ports.to then -1
      else if ports.to > b.ports.to then 1
      else 0
    }

    function Merge(b: NetWithPortRange): NetWithPortRange {
      NetWithPortRange(Cidr.Merge(net, b.net), ports.Merge(b.ports))
    }

    /** The meaning of an entry: the endpoints it matches. */
    predicate Matches(e: Endpoint) {
      InNet(net, e.address) && ports.Contains(e.port)
    }
  }

  datatype Endpoint = Endpoint(address: Bits, port: Port)

  /** A parsed entry: base address masked, port range in 1..65534 and not empty. */
  ghost predicate Valid(n: NetWithPortRange) {
    Canonical(n.net) && 1 <= n.ports.from <= n.ports.to <= 65534
  }

  ghost predicate AllValid(s: seq<NetWithPortRange>) {
    forall n :: n in s ==> Valid(n)
  }

  /** Entries as the parser makes them: valid, with IPv4 and IPv6 addresses. */
  ghost predicate Parsed(s: seq<NetWithPortRange>) {
    AllValid(s) && forall n :: n in s ==> |n.net.ip| == 32 || |n.net.ip| == 128
  }

  /** Some entry of the list matches the endpoint. */
  ghost predicate Matched(s: seq<NetWithPortRange>, e: Endpoint) {
    exists n :: n in s && n.Matches(e)
  }

  ghost predicate Includes(a: NetWithPortRange, b: NetWithPortRange) {
    forall e: Endpoint :: b.Matches(e) ==> a.Matches(e)
  }

  /** Two valid entries overlap exactly when some endpoint matches both. */
  lemma OverlapIsSharedEndpoint(a: NetWithPortRange, b: NetWithPortRange)
    requires Valid(a) && Valid(b)
    ensures a.Overlap(b) <==> exists e: Endpoint :: a.Matches(e) && b.Matches(e)
  {
    if a.Overlap(b) {
      var port := if a.ports.from < b.ports.from then b.ports.from else a.ports.from;
      var e := Endpoint(if InNet(a.net, b.net.ip) then b.net.ip else a.net.ip, port);
      assert a.Matches(e) && b.Matches(e);
    }
    if e: Endpoint :| a.Matches(e) && b.Matches(e) {
      var k := Min(a.net.ones, b.net.ones);
      assert a.net.ip[..k] == a.net.ip[..a.net.ones][..k] == e.address[..k];
      assert b.net.ip[..k] == b.net.ip[..b.net.ones][..k] == e.address[..k];
    }
  }

  /** Set inclusion in terms of what the entries hold. */
  lemma InclusionIsContainmentOfWiderNet(a: NetWithPortRange, b: NetWithPortRange)
    requires Valid(a) && Valid(b)
    ensures Includes(a, b) <==> a.Contains(b) && a.net.ones <= b.net.ones
  {
    if a.Contains(b) && a.net.ones <= b.net.ones {
      forall e: Endpoint | b.Matches(e)
        ensures a.Matches(e)
      {
        assert e.address[..a.net.ones] == e.address[..b.net.ones][..a.net.ones]
            == b.net.ip[..b.net.ones][..a.net.ones];
      }
    }
    if Includes(a, b) {
      assert b.Matches(Endpoint(b.net.ip, b.ports.from)) && b.Matches(Endpoint(b.net.ip, b.ports.to));
      forall address | InNet(b.net, address)
        ensures InNet(a.net, address)
      {
        assert a.Matches(Endpoint(address, b.ports.from));
      }
      SubnetIsInclusion(b.net, a.net);
    }
  }

  /** `Contains` answers true for a net it does not hold only when both share their
      base address and the other one has the shorter mask. */
  lemma ContainsIsInclusionUnlessBaseShared(a: NetWithPortRange, b: NetWithPortRange)
    requires Valid(a) && Valid(b)
    ensures (a.Contains(b) <==> Includes(a, b))
       <==> !(a.net.ip == b.net.ip && b.net.ones < a.net.ones
              && a.ports.Contains(b.ports.from) && a.ports.Contains(b.ports.to))
  {
    InclusionIsContainmentOfWiderNet(a, b);
    if a.Contains(b) && b.net.ones < a.net.ones {
      assert forall i :: 0 <= i < a.net.ones ==>
        a.net.ip[i] == a.net.ip[..a.net.ones][i] == b.net.ip[..a.net.ones][i] == b.net.ip[i];
      assert a.net.ip == b.net.ip;
    }
  }

  /** The same failure as one pair of nets: 128.0.0.0/2 and 128.0.0.0/1. */
  lemma ContainsCanMissInclusion()
    ensures exists a, b :: Parsed([a, b]) && a.Contains(b) && !Includes(a, b)
  {
    var base := [true] + seq(31, _ => false);
    var a := NetWithPortRange(Net(base, 2), PortRange(80, 80));
    var b := NetWithPortRange(Net(base, 1), PortRange(80, 80));
    InclusionIsContainmentOfWiderNet(a, b);
    assert Parsed([a, b]) && a.Contains(b) && !Includes(a, b);
  }

  lemma CompareOrder(a: NetWithPortRange, b: NetWithPortRange)
    ensures a.Compare(b) < 0 <==> b.Compare(a) > 0
    ensures a.Compare(b) == 0 <==> a.net.ip == b.net.ip && a.ports == b.ports
  {
    CompareBitsOrder(a.net.ip, b.net.ip);
  }

  lemma CompareTransitive(a: NetWithPortRange, b: NetWithPortRange, c: NetWithPortRange)
    requires a.Compare(b) <= 0 && b.Compare(c) <= 0
    ensures a.Compare(c) <= 0
    ensures a.Compare(c) == 0 ==> a.Compare(b) == 0
  {
    CompareBitsOrder(a.net.ip, b.net.ip);
    CompareBitsOrder(b.net.ip, c.net.ip);
    CompareBitsOrder(a.net.ip, c.net.ip);
    CompareBitsTransitive(a.net.ip, b.net.ip, c.net.ip);
    if CompareBits(a.net.ip, c.net.ip) == 0 {
      CompareBitsTransitive(b.net.ip, c.net.ip, a.net.ip);
    }
  }

  function CompareNets(a: NetWithPortRange, b: NetWithPortRange): int { a.Compare(b) }

  lemma CompareIsTotalPreorder()
    ensures TotalPreorder(CompareNets)
  {
    forall a, b
      ensures CompareNets(a, b) <= 0 || CompareNets(b, a) <= 0
      ensures CompareNets(a, b) < 0 <==> CompareNets(b, a) > 0
    {
      CompareOrder(a, b);
      CompareOrder(b, a);
    }
    forall a, b, c | CompareNets(a, b) <= 0 && CompareNets(b, c) <= 0
      ensures CompareNets(a, c) <= 0
    {
      CompareTransitive(a, b, c);
    }
  }
}
