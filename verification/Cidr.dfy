/** CIDR prefixes as the `net` package represents them: an address of a fixed width
    and the number of leading mask bits. The width of an address (32 or 128) plays
    the role of its family; nothing below depends on the number. */
module Cidr {

  /** An address, most significant bit first. */
  type Bits = seq<bool>

  datatype RawNet = Net(ip: Bits, ones: nat)

  type Net = n: RawNet | n.ones <= |n.ip| witness Net([], 0)

  /** The base address carries no bit beyond the mask. */
  ghost predicate Canonical(n: Net) {
    forall i :: n.ones <= i < |n.ip| ==> !n.ip[i]
  }

  /** Address `ip` with all but its first `ones` bits cleared. */
  function Masked(ip: Bits, ones: nat): (m: Bits)
    requires ones <= |ip|
    ensures |m| == |ip| && m[..ones] == ip[..ones]
    ensures forall i :: ones <= i < |ip| ==> !m[i]
  {
    ip[..ones] + seq(|ip| - ones, _ => false)
  }

  /** Both addresses are compared under the net's mask; another width never matches. */
  predicate InNet(n: Net, address: Bits) {
    |address| == |n.ip| && address[..n.ones] == n.ip[..n.ones]
  }

  predicate IsUnspecified(ip: Bits) {
    forall i :: 0 <= i < |ip| ==> !ip[i]
  }

  /** `a` lies inside `b`, read off the prefixes. */
  predicate Subnet(a: Net, b: Net) {
    |a.ip| == |b.ip| && b.ones <= a.ones && a.ip[..b.ones] == b.ip[..b.ones]
  }

  /** Reading the prefixes is the same as comparing the sets of addresses. */
  lemma SubnetIsInclusion(a: Net, b: Net)
    ensures Subnet(a, b) <==> forall address :: InNet(a, address) ==> InNet(b, address)
  {
    if Subnet(a, b) {
      forall address | InNet(a, address)
        ensures InNet(b, address)
      {
        assert address[..b.ones] == address[..a.ones][..b.ones] == a.ip[..a.ones][..b.ones];
      }
    } else if |a.ip| != |b.ip| || b.ones <= a.ones {
      assert InNet(a, a.ip);
      assert !InNet(b, a.ip);
    } else {
      var other := a.ip[a.ones := !b.ip[a.ones]];
      assert InNet(a, other);
      assert other[..b.ones][a.ones] != b.ip[..b.ones][a.ones];
      assert !InNet(b, other);
    }
  }

  lemma SubnetAntisymmetric(a: Net, b: Net)
    requires Canonical(a) && Canonical(b) && Subnet(a, b) && Subnet(b, a)
    ensures a == b
  {
  }

  lemma SubnetTransitive(a: Net, b: Net, c: Net)
    requires Subnet(a, b) && Subnet(b, c)
    ensures Subnet(a, c)
  {
  }

  /** How many leading bits, at most `bound`, the two addresses share. */
  function CommonBits(a: Bits, b: Bits, bound: nat): (k: nat)
    requires bound <= |a| && bound <= |b|
    ensures k <= bound && a[..k] == b[..k]
    ensures forall i {:trigger a[..i]} {:trigger b[..i]} :: k < i <= bound ==> a[..i] != b[..i]
  {
    if a[..bound] == b[..bound] then bound else CommonBits(a, b, bound - 1)
  }

  function Min(x: nat, y: nat): nat { if x < y then x else y }

  function AnyNet(size: nat): Net { Net(seq(size, _ => false), 0) }

  /** The merge of two nets. In the IPv4-mapped form an IPv4 net and an IPv6 net share zero bits
      only, unless the IPv6 net starts with 80 zero bits and a one. Of such a merge only the
      unspecified base is modelled, which is all its callers look at; the source's mask is as
      long as the shared zero bits. */
  function Merge(a: Net, b: Net): (m: Net)
    ensures |a.ip| != |b.ip| ==> IsUnspecified(m.ip)
  {
    if |a.ip| != |b.ip| then AnyNet(if |a.ip| < |b.ip| then |b.ip| else |a.ip|)
    else
      var k := CommonBits(a.ip, b.ip, Min(a.ones, b.ones));
      Net(Masked(a.ip, k), k)
  }

  /** The source's descending search for the longest common mask, ending in the any-net. */
  method MergeIPNet(a: Net, b: Net) returns (m: Net)
    ensures m == Merge(a, b)
  {
    var size := if |a.ip| < |b.ip| then |b.ip| else |a.ip|;
    if |a.ip| != |b.ip| {
      return AnyNet(size);
    }
    var ones := Min(a.ones, b.ones);
    var i := ones;
    while i > 0
      invariant 0 <= i <= ones
      invariant CommonBits(a.ip, b.ip, ones) == CommonBits(a.ip, b.ip, i)
    {
      var ip := Masked(a.ip, i);
      var other := Masked(b.ip, i);
      if ip == other {
        assert a.ip[..i] == ip[..i] == other[..i] == b.ip[..i];
        return Net(ip, i);
      }
      assert a.ip[..i] == b.ip[..i] ==> ip == other;
      i := i - 1;
    }
    assert Masked(a.ip, 0) == AnyNet(size).ip;
    return AnyNet(size);
  }

  /** The merge is a canonical net around both arguments, and nothing smaller is. */
  lemma MergeIsJoin(a: Net, b: Net)
    requires |a.ip| == |b.ip|
    ensures Canonical(Merge(a, b))
    ensures Subnet(a, Merge(a, b)) && Subnet(b, Merge(a, b))
    ensures forall c: Net :: Subnet(a, c) && Subnet(b, c) ==> Subnet(Merge(a, b), c)
  {
  }

  lemma MergeCommutes(a: Net, b: Net)
    requires |a.ip| == |b.ip|
    ensures Merge(a, b) == Merge(b, a)
  {
  }

  lemma MergeAssociates(a: Net, b: Net, c: Net)
    requires |a.ip| == |b.ip| == |c.ip|
    ensures Merge(Merge(a, b), c) == Merge(a, Merge(b, c))
  {
    var ab, bc := Merge(a, b), Merge(b, c);
    var l, r := Merge(ab, c), Merge(a, bc);
    MergeIsJoin(a, b);
    MergeIsJoin(b, c);
    MergeIsJoin(ab, c);
    MergeIsJoin(a, bc);
    SubnetTransitive(a, ab, l);
    SubnetTransitive(b, ab, l);
    SubnetTransitive(b, bc, r);
    SubnetTransitive(c, bc, r);
    SubnetAntisymmetric(l, r);
  }

  lemma MergeIdempotent(a: Net)
    requires Canonical(a)
    ensures Merge(a, a) == a
  {
  }

  /** The main law in terms of addresses: among all nets, the merge is the least
      one that holds every address of both arguments. */
  lemma MergeIsLeastCover(a: Net, b: Net, c: Net)
    requires |a.ip| == |b.ip|
    ensures (forall address :: InNet(a, address) || InNet(b, address) ==> InNet(c, address))
       <==> (forall address :: InNet(Merge(a, b), address) ==> InNet(c, address))
  {
    var m := Merge(a, b);
    MergeIsJoin(a, b);
    SubnetIsInclusion(a, c);
    SubnetIsInclusion(b, c);
    SubnetIsInclusion(a, m);
    SubnetIsInclusion(b, m);
    SubnetIsInclusion(m, c);
  }

  /** Byte-wise comparison of base addresses. */
  function CompareBits(a: Bits, b: Bits): (c: int) {
    if a == [] then (if b == [] then 0 else -1)
    else if b == [] then 1
    else if a[0] == b[0] then CompareBits(a[1..], b[1..])
    else if a[0] then 1 else -1
  }

  lemma {:induction false} CompareBitsOrder(a: Bits, b: Bits)
    ensures CompareBits(a, b) == -CompareBits(b, a)
    ensures CompareBits(a, b) == 0 <==> a == b
  {
    if a != [] && b != [] && a[0] == b[0] {
      CompareBitsOrder(a[1..], b[1..]);
      assert a == [a[0]] + a[1..] && b == [b[0]] + b[1..];
    }
  }

  lemma {:induction false} FirstDifferingBit(a: Bits, b: Bits, k: nat)
    requires k < |a| && k < |b| && a[..k] == b[..k] && a[k] != b[k]
    ensures CompareBits(a, b) == if a[k] then 1 else -1
  {
    if k > 0 {
      assert a[0] == a[..k][0] == b[..k][0] == b[0];
      assert a[1..][..k-1] == a[..k][1..] == b[..k][1..] == b[1..][..k-1];
      FirstDifferingBit(a[1..], b[1..], k - 1);
    }
  }

  lemma {:induction false} CompareBitsTransitive(a: Bits, b: Bits, c: Bits)
    requires CompareBits(a, b) <= 0 && CompareBits(b, c) <= 0
    ensures CompareBits(a, c) <= 0
  {
    if a != [] && b != [] && c != [] && a[0] == b[0] == c[0] {
      CompareBitsTransitive(a[1..], b[1..], c[1..]);
    }
  }

  /** Addresses between two addresses with a common prefix have that prefix too. */
  lemma {:induction false} PrefixesAreContiguous(a: Bits, b: Bits, c: Bits, k: nat)
    requires |a| == |b| == |c| && k <= |a| && a[..k] == c[..k]
    requires CompareBits(a, b) <= 0 && CompareBits(b, c) <= 0
    ensures b[..k] == a[..k]
  {
    if k > 0 {
      assert a[0] == a[..k][0] == c[..k][0] == c[0];
      assert a[1..][..k-1] == a[..k][1..] == c[..k][1..] == c[1..][..k-1];
      PrefixesAreContiguous(a[1..], b[1..], c[1..], k - 1);
      assert a[..k] == [a[0]] + a[1..][..k-1];
      assert b[..k] == [b[0]] + b[1..][..k-1];
    }
  }

  /** The base of a canonical net is its smallest address. */
  lemma {:induction false} BaseIsLeast(base: Bits, address: Bits, ones: nat)
    requires |base| == |address| && ones <= |base| && base[..ones] == address[..ones]
    requires forall i :: ones <= i < |base| ==> !base[i]
    ensures CompareBits(base, address) <= 0
  {
    if base != [] {
      if ones > 0 {
        assert base[0] == base[..ones][0] == address[..ones][0] == address[0];
        assert base[1..][..ones-1] == base[..ones][1..] == address[..ones][1..] == address[1..][..ones-1];
        BaseIsLeast(base[1..], address[1..], ones - 1);
      } else if base[0] == address[0] {
        BaseIsLeast(base[1..], address[1..], 0);
      }
    }
  }
}
