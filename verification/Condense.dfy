/** Condensing a list of nets by merging neighbours, longest common prefix first. */
module Condense {
  import opened Cidr
  import opened Slices
  import opened Endpoints

  // What condensing is about

  ghost predicate StrictlyWider(a: NetWithPortRange, b: NetWithPortRange) {
    a.ports == b.ports && Subnet(b.net, a.net) && a.net.ones < b.net.ones
  }

  ghost predicate NoneWider(s: seq<NetWithPortRange>, t: seq<NetWithPortRange>) {
    forall a, b :: a in s && b in t ==> !StrictlyWider(a, b)
  }

  /** No port range is empty or strictly inside another. */
  ghost predicate PortFlat(s: seq<NetWithPortRange>) {
    && (forall a :: a in s ==> a.ports.from <= a.ports.to)
    && (forall a, b :: a in s && b in s && a.ports.Contains(b.ports.from) && a.ports.Contains(b.ports.to)
          ==> a.ports == b.ports)
  }

  /** Within one port range no net is strictly inside another either. */
  ghost predicate Flat(s: seq<NetWithPortRange>) {
    PortFlat(s) && NoneWider(s, s)
  }

  /** `Contains` takes `w` for inside `c`, although its mask is shorter. */
  ghost predicate Hides(c: NetWithPortRange, w: NetWithPortRange) {
    c.ports == w.ports && c.Contains(w) && w.net.ones < c.net.ones
  }

  /** No join of two entries hides an entry. */
  ghost predicate Sound(s: seq<NetWithPortRange>) {
    PortFlat(s) && forall c, w :: JoinOfTwo(s, c) && w in s ==> !Hides(c, w)
  }

  /** The entries of each port range are of one family and come in the order of their base
      addresses. */
  ghost predicate OrderedWithinPorts(s: seq<NetWithPortRange>) {
    forall i, j :: 0 <= i < j < |s| && s[i].ports == s[j].ports ==>
      |s[i].net.ip| == |s[j].net.ip| && CompareBits(s[i].net.ip, s[j].net.ip) <= 0
  }

  /** No entry lies strictly inside a later one. */
  ghost predicate WiderFirst(s: seq<NetWithPortRange>) {
    forall i, j :: 0 <= i < j < |s| ==> !StrictlyWider(s[j], s[i])
  }

  ghost predicate CoveredBy(s: seq<NetWithPortRange>, n: NetWithPortRange) {
    exists r :: r in s && r.ports == n.ports && Subnet(n.net, r.net)
  }

  /** Two entries of the list that a merge with a non-zero base could still replace. */
  ghost predicate Mergeable(s: seq<NetWithPortRange>, a: NetWithPortRange, b: NetWithPortRange) {
    && multiset{a, b} <= multiset(s)
    && a.ports == b.ports && |a.net.ip| == |b.net.ip| && !IsUnspecified(Merge(a.net, b.net).ip)
  }

  /** Nothing wider than the join of two given entries. */
  ghost predicate JoinOfTwo(s: seq<NetWithPortRange>, n: NetWithPortRange) {
    exists a, b :: a in s && b in s && IsMerge(n, a, b)
  }

  /** An entry of the list, or a join of two with a non-zero base. */
  ghost predicate FromInput(s: seq<NetWithPortRange>, n: NetWithPortRange) {
    n in s || (JoinOfTwo(s, n) && !IsUnspecified(n.net.ip))
  }

  ghost predicate IsMerge(n: NetWithPortRange, a: NetWithPortRange, b: NetWithPortRange) {
    a.ports == b.ports == n.ports && |a.net.ip| == |b.net.ip| && n.net == Merge(a.net, b.net)
  }

  // Candidates

  function ComparePrefixLen(a: NetWithPortRange, b: NetWithPortRange): int { b.net.ones - a.net.ones }

  /** The next entry with the port range of entry `i`. */
  function NextOfPorts(s: seq<NetWithPortRange>, i: nat, j: nat): (r: nat)
    requires i < j <= |s|
    ensures j <= r <= |s|
    ensures forall k :: j <= k < r ==> s[k].ports != s[i].ports
    ensures r < |s| ==> s[r].ports == s[i].ports
    decreases |s| - j
  {
    if j == |s| || s[j].ports == s[i].ports then j else NextOfPorts(s, i, j + 1)
  }

  function Candidate(s: seq<NetWithPortRange>, i: nat): Option<NetWithPortRange>
    requires i < |s|
  {
    var j := NextOfPorts(s, i, i + 1);
    if j < |s| && !IsUnspecified(Merge(s[i].net, s[j].net).ip) then Some(s[i].Merge(s[j])) else None
  }

  /** The merge of one of the first `n` entries with its next neighbour. */
  ghost predicate IsCandidate(s: seq<NetWithPortRange>, n: nat, c: NetWithPortRange)
    requires n <= |s|
  {
    exists k :: 0 <= k < n && Candidate(s, k) == Some(c)
  }

  /** The queue holds exactly the candidates of the first `n` entries. */
  ghost predicate QueuesNeighbours(s: seq<NetWithPortRange>, n: nat, queue: seq<NetWithPortRange>)
    requires n <= |s|
  {
    forall c :: c in queue <==> IsCandidate(s, n, c)
  }

  /** Every possible merge of two entries is the merge of an entry with its next neighbour. */
  ghost predicate NeighboursSuffice(s: seq<NetWithPortRange>) {
    forall a, b :: Mergeable(s, a, b) ==> IsCandidate(s, |s|, a.Merge(b))
  }

  /** No entry has a candidate. */
  ghost predicate NoCandidate(s: seq<NetWithPortRange>) {
    NoCandidateIn(s, 0, |s|)
  }

  /** No entry at these positions has a merge with its next entry of the same ports. */
  ghost predicate NoCandidateIn(s: seq<NetWithPortRange>, lo: int, hi: int) {
    forall i :: 0 <= i < |s| && lo <= i < hi ==> Candidate(s, i) == None
  }

  /** The candidates at these positions are queued. */
  ghost predicate QueuedIn(s: seq<NetWithPortRange>, lo: int, hi: int, queue: seq<NetWithPortRange>) {
    forall i :: 0 <= i < |s| && lo <= i < hi && Candidate(s, i).Some? ==> Candidate(s, i).value in queue
  }

  ghost predicate ProperPorts(s: seq<NetWithPortRange>) {
    forall n :: n in s ==> n.ports.from <= n.ports.to
  }

  ghost predicate MergeOfPair(s: seq<NetWithPortRange>, c: NetWithPortRange) {
    !IsUnspecified(c.net.ip) && exists i, j :: 0 <= i < j < |s| && IsMerge(c, s[i], s[j])
  }

  method GetNextMatchingCandidate(result: seq<NetWithPortRange>, i: nat) returns (c: Option<NetWithPortRange>)
    requires i < |result|
    ensures c == Candidate(result, i)
    ensures c.Some? ==> MergeOfPair(result, c.value)
  {
    var a := result[i];
    var j := i + 1;
    while j < |result|
      invariant i < j <= |result| && NextOfPorts(result, i, i + 1) == NextOfPorts(result, i, j)
    {
      var b := result[j];
      if a.ports == b.ports {
        var net := MergeIPNet(a.net, b.net);
        var merged := NetWithPortRange(net, a.ports.Merge(b.ports));
        if !IsUnspecified(merged.net.ip) {
          return Some(merged);
        }
        return None;
      }
      j := j + 1;
    }
    return None;
  }

  lemma PrefixLenIsTotalPreorder()
    ensures TotalPreorder(ComparePrefixLen)
  {
  }

  // Coverage: a queued candidate never hides a kept entry

  function AbsorbedBy(c: NetWithPortRange): NetWithPortRange -> bool { n => c.Contains(n) }

  ghost predicate PortsOf(s: seq<NetWithPortRange>, ports: PortRange) {
    exists n :: n in s && n.ports == ports
  }

  /** What every round keeps, whatever the input: the input's port ranges, entries of the
      input or joins of two of them, and a canonical queue of such joins, longest prefix first. */
  ghost predicate Shape(input: seq<NetWithPortRange>, result: seq<NetWithPortRange>, queue: seq<NetWithPortRange>) {
    && (forall n :: n in result + queue ==> PortsOf(input, n.ports))
    && (forall n :: n in result ==> FromInput(input, n))
    && (forall c :: c in queue ==> Canonical(c.net) && JoinOfTwo(input, c) && !IsUnspecified(c.net.ip))
    && Sorted(queue, ComparePrefixLen)
  }

  /** What was inserted into the result is not wider than anything in the list. */
  ghost predicate NoJoinWider(input: seq<NetWithPortRange>, result: seq<NetWithPortRange>, s: seq<NetWithPortRange>) {
    forall w, x :: w in result && w !in input && x in s ==> !StrictlyWider(w, x)
  }

  /** What every round keeps on sound input. */
  ghost predicate Covering(input: seq<NetWithPortRange>, result: seq<NetWithPortRange>, queue: seq<NetWithPortRange>) {
    && NoJoinWider(input, result, result) && NoJoinWider(input, result, queue)
    && forall n :: n in input ==> CoveredBy(result, n)
  }

  ghost predicate Complete(result: seq<NetWithPortRange>, queue: seq<NetWithPortRange>) {
    forall a, b :: Mergeable(result, a, b) ==> a.Merge(b) in queue
  }

  lemma FlatIsSound(s: seq<NetWithPortRange>)
    requires Flat(s)
    ensures Sound(s)
  {
    forall c, w | JoinOfTwo(s, c) && w in s
      ensures !Hides(c, w)
    {
      var a, b :| a in s && b in s && IsMerge(c, a, b);
      MergeIsJoin(a.net, b.net);
      if Hides(c, w) {
        HiddenIsWider(c, w);
        SubnetTransitive(a.net, c.net, w.net);
        assert StrictlyWider(w, a);
      }
    }
  }

  lemma HiddenIsWider(c: NetWithPortRange, w: NetWithPortRange)
    requires Hides(c, w)
    ensures StrictlyWider(w, c)
  {
    assert w.net.ip[..w.net.ones] == w.net.ip[..c.net.ones][..w.net.ones] == c.net.ip[..c.net.ones][..w.net.ones];
  }

  lemma MergeNotInsideJoin(input: seq<NetWithPortRange>, result: seq<NetWithPortRange>, c: NetWithPortRange)
    requires NoJoinWider(input, result, result) && MergeOfPair(result, c)
    ensures NoJoinWider(input, result, [c])
  {
    var i, j :| 0 <= i < j < |result| && IsMerge(c, result[i], result[j]);
    MergeIsJoin(result[i].net, result[j].net);
    forall a | a in result && a !in input
      ensures !StrictlyWider(a, c)
    {
      assert !StrictlyWider(a, result[i]);
      if StrictlyWider(a, c) { SubnetTransitive(result[i].net, c.net, a.net); }
    }
  }

  /** On sound input an absorbed entry lies inside the absorbing candidate. */
  lemma AbsorbedIsInside(input: seq<NetWithPortRange>, result: seq<NetWithPortRange>,
                         c: NetWithPortRange, n: NetWithPortRange)
    requires Sound(input) && PortsOf(input, c.ports) && PortsOf(input, n.ports) && JoinOfTwo(input, c)
    requires n in result && NoJoinWider(input, result, [c]) && c.Contains(n)
    ensures n.ports == c.ports && Subnet(n.net, c.net)
  {
    assert c in [c];
    if n.net.ones < c.net.ones { HiddenIsWider(c, n); }
  }

  /** The candidate is not wider than what it leaves or what is queued behind it. */
  lemma RoundKeepsNoJoinWider(input: seq<NetWithPortRange>, result: seq<NetWithPortRange>,
                              queue: seq<NetWithPortRange>, i: nat)
    requires Sorted(queue, ComparePrefixLen) && queue != [] && queue[0].ports.from <= queue[0].ports.to
    requires NoJoinWider(input, result, result) && NoJoinWider(input, result, queue)
    requires i <= |DeleteFunc(result, AbsorbedBy(queue[0]))|
    ensures var next := Insert(DeleteFunc(result, AbsorbedBy(queue[0])), i, queue[0]);
      NoJoinWider(input, next, next) && NoJoinWider(input, next, queue[1..])
  {
    hide Sorted, Insert, DeleteFunc;
    var c := queue[0];
    var kept := DeleteFunc(result, AbsorbedBy(c));
    var next := Insert(kept, i, c);
    InsertMembers(kept, i, c);
    KeptIsNotAbsorbed(result, c);
    assert c in queue;
    forall x | x in next
      ensures !StrictlyWider(c, x)
    {
      if StrictlyWider(c, x) { WiderContains(c, x); }
    }
    forall x | x in queue[1..]
      ensures x in queue && !StrictlyWider(c, x)
    {
      FirstIsLongest(queue, x);
    }
  }

  lemma KeptIsNotAbsorbed(result: seq<NetWithPortRange>, c: NetWithPortRange)
    ensures forall x :: x in DeleteFunc(result, AbsorbedBy(c)) <==> x in result && !c.Contains(x)
  {
  }

  lemma WiderContains(c: NetWithPortRange, x: NetWithPortRange)
    requires StrictlyWider(c, x) && c.ports.from <= c.ports.to
    ensures c.Contains(x)
  {
  }

  lemma FirstIsLongest(queue: seq<NetWithPortRange>, x: NetWithPortRange)
    requires Sorted(queue, ComparePrefixLen) && queue != [] && x in queue[1..]
    ensures x in queue && x.net.ones <= queue[0].net.ones
  {
    var k :| 0 <= k < |queue| - 1 && queue[1..][k] == x;
    assert ComparePrefixLen(queue[0], queue[k + 1]) <= 0;
  }

  lemma RoundKeepsCovered(input: seq<NetWithPortRange>, result: seq<NetWithPortRange>, c: NetWithPortRange, i: nat,
                          n: NetWithPortRange)
    requires Sound(input) && JoinOfTwo(input, c) && NoJoinWider(input, result, [c]) && CoveredBy(result, n)
    requires PortsOf(input, c.ports) && forall m :: m in result ==> PortsOf(input, m.ports)
    requires i <= |DeleteFunc(result, AbsorbedBy(c))|
    ensures CoveredBy(Insert(DeleteFunc(result, AbsorbedBy(c)), i, c), n)
  {
    hide Insert, DeleteFunc, Sound, PortsOf, JoinOfTwo, NoJoinWider;
    InsertMembers(DeleteFunc(result, AbsorbedBy(c)), i, c);
    KeptIsNotAbsorbed(result, c);
    var r :| r in result && r.ports == n.ports && Subnet(n.net, r.net);
    if c.Contains(r) {
      AbsorbedIsInside(input, result, c, r);
      SubnetTransitive(n.net, r.net, c.net);
    }
  }

  lemma RoundKeepsCovering(input: seq<NetWithPortRange>, result: seq<NetWithPortRange>, queue: seq<NetWithPortRange>, i: nat)
    requires Sound(input) && Shape(input, result, queue) && Covering(input, result, queue)
    requires queue != [] && i <= |DeleteFunc(result, AbsorbedBy(queue[0]))|
    ensures Covering(input, Insert(DeleteFunc(result, AbsorbedBy(queue[0])), i, queue[0]), queue[1..])
  {
    hide Sound, Sorted, Insert, DeleteFunc, CoveredBy, PortsOf, JoinOfTwo;
    var c := queue[0];
    QueuedFacts(input, result, queue);
    EmptyPortsExcluded(input, c);
    RoundKeepsNoJoinWider(input, result, queue, i);
    forall n | n in input
      ensures CoveredBy(Insert(DeleteFunc(result, AbsorbedBy(c)), i, c), n)
    {
      RoundKeepsCovered(input, result, c, i, n);
    }
  }

  lemma QueuedFacts(input: seq<NetWithPortRange>, result: seq<NetWithPortRange>, queue: seq<NetWithPortRange>)
    requires queue != [] && Shape(input, result, queue) && NoJoinWider(input, result, queue)
    ensures JoinOfTwo(input, queue[0]) && Canonical(queue[0].net) && PortsOf(input, queue[0].ports)
    ensures NoJoinWider(input, result, [queue[0]]) && forall m :: m in result ==> PortsOf(input, m.ports)
  {
    assert queue[0] in queue && queue[0] in result + queue;
    forall m | m in result
      ensures PortsOf(input, m.ports)
    {
      assert m in result + queue;
    }
  }

  lemma InsertMembers<T(!new)>(s: seq<T>, i: nat, x: T)
    requires i <= |s|
    ensures forall y :: y in Insert(s, i, x) <==> y == x || y in s
  {
    forall y
      ensures y in Insert(s, i, x) <==> y in multiset(s) + multiset{x}
    {
      assert y in Insert(s, i, x) <==> y in multiset(Insert(s, i, x));
    }
    forall y
      ensures y in s <==> y in multiset(s)
    {
    }
  }

  // Completeness: every remaining merge stays queued

  /** Merging with the absorbing candidate is merging with an entry it absorbed. */
  lemma MergeThroughAbsorbed(c: Net, r: Net, n: Net)
    requires |n.ip| == |c.ip| && Subnet(r, c) && !Subnet(n, c)
    ensures Merge(n, c) == Merge(n, r) && Merge(n, c).ones < c.ones
  {
    MergeIsJoin(n, c);
    MergeIsJoin(n, r);
    var m, w := Merge(n, c), Merge(n, r);
    SubnetTransitive(r, c, m);
    assert Subnet(w, m);
    if w.ones >= c.ones {
      SubnetTransitive(n, w, Net(r.ip, c.ones));
    }
    assert c.ip[..w.ones] == c.ip[..c.ones][..w.ones] == r.ip[..c.ones][..w.ones] == r.ip[..w.ones];
    assert Subnet(c, w);
    SubnetAntisymmetric(m, w);
  }

  /** A merge the new entry makes possible was already possible with what it absorbed. */
  lemma MergeWithAbsorberIsQueued(input: seq<NetWithPortRange>, result: seq<NetWithPortRange>, queue: seq<NetWithPortRange>,
                                  n: NetWithPortRange)
    requires Sound(input) && Shape(input, result, queue) && Covering(input, result, queue) && Complete(result, queue)
    requires queue != [] && |DeleteFunc(result, AbsorbedBy(queue[0]))| < |result|
    requires n in DeleteFunc(result, AbsorbedBy(queue[0])) && n.ports == queue[0].ports
    requires |n.net.ip| == |queue[0].net.ip| && !IsUnspecified(Merge(n.net, queue[0].net).ip)
    ensures n.Merge(queue[0]) in queue[1..]
  {
    var c := queue[0];
    assert c in queue && c in result + queue && n in result + queue;
    var r := SomeDeleted(result, AbsorbedBy(c));
    QueuedFacts(input, result, queue);
    AbsorbedIsInside(input, result, c, r);
    EmptyPortsExcluded(input, c);
    MergeThroughAbsorbed(c.net, r.net, n.net);
    TwoMembers(result, n, r);
    assert Mergeable(result, n, r);
    var k :| 0 <= k < |queue| && queue[k] == n.Merge(r);
    assert k != 0;
    assert queue[1..][k - 1] == queue[k];
  }

  lemma EmptyPortsExcluded(input: seq<NetWithPortRange>, n: NetWithPortRange)
    requires Sound(input) && PortsOf(input, n.ports)
    ensures n.ports.from <= n.ports.to
  {
  }

  lemma TwoMembers<T>(s: seq<T>, a: T, b: T)
    requires a in s && b in s && a != b
    ensures multiset{a, b} <= multiset(s)
  {
  }

  lemma {:induction false} SomeDeleted<T(!new)>(s: seq<T>, del: T -> bool) returns (x: T)
    requires |DeleteFunc(s, del)| < |s|
    ensures x in s && del(x)
  {
    var k := |s| - 1;
    if del(s[k]) {
      x := s[k];
    } else {
      x := SomeDeleted(s[..k], del);
    }
  }

  lemma PairAfterInsert<T(!new)>(s: seq<T>, i: nat, c: T, a: T, b: T)
    requires i <= |s| && c !in s && multiset{a, b} <= multiset(Insert(s, i, c))
    ensures (a == c && b in s) || (b == c && a in s) || (a != c && b != c && multiset{a, b} <= multiset(s))
  {
    var m := multiset(s) + multiset{c};
    assert m[c] == 1;
    assert a in multiset{a, b} && b in multiset{a, b};
    assert a in m && b in m;
    assert a == c && b == c ==> multiset{a, b}[c] == 2;
  }

  /** A merge of two entries the round leaves alone is not the one it took from the queue. */
  lemma MergeOfKeptStaysQueued(result: seq<NetWithPortRange>, queue: seq<NetWithPortRange>, kept: seq<NetWithPortRange>,
                               a: NetWithPortRange, b: NetWithPortRange)
    requires Complete(result, queue) && queue != [] && queue[0].ports.from <= queue[0].ports.to
    requires kept == DeleteFunc(result, AbsorbedBy(queue[0])) && a in kept && Mergeable(result, a, b)
    ensures a.Merge(b) in queue[1..]
  {
  }

  lemma QueuedHasPorts(input: seq<NetWithPortRange>, result: seq<NetWithPortRange>, queue: seq<NetWithPortRange>)
    requires Sound(input) && Shape(input, result, queue) && queue != []
    ensures queue[0].ports.from <= queue[0].ports.to
    ensures queue[0] !in DeleteFunc(result, AbsorbedBy(queue[0]))
  {
    assert queue[0] in queue && queue[0] in result + queue;
    EmptyPortsExcluded(input, queue[0]);
    KeptIsNotAbsorbed(result, queue[0]);
    assert queue[0].Contains(queue[0]);
  }

  lemma MergeableBefore(result: seq<NetWithPortRange>, kept: seq<NetWithPortRange>, a: NetWithPortRange, b: NetWithPortRange)
    requires multiset(kept) <= multiset(result) && multiset{a, b} <= multiset(kept)
    requires a.ports == b.ports && |a.net.ip| == |b.net.ip| && !IsUnspecified(Merge(a.net, b.net).ip)
    ensures a in kept && Mergeable(result, a, b)
  {
    assert a in multiset{a, b};
  }

  lemma RoundKeepsComplete(input: seq<NetWithPortRange>, result: seq<NetWithPortRange>, queue: seq<NetWithPortRange>, i: nat)
    requires Sound(input) && Shape(input, result, queue) && Covering(input, result, queue) && Complete(result, queue)
    requires queue != [] && i <= |DeleteFunc(result, AbsorbedBy(queue[0]))| < |result|
    ensures Complete(Insert(DeleteFunc(result, AbsorbedBy(queue[0])), i, queue[0]), queue[1..])
  {
    hide Sound, Shape, Covering, Insert, DeleteFunc, IsUnspecified, Merge;
    var c := queue[0];
    var kept := DeleteFunc(result, AbsorbedBy(c));
    var next := Insert(kept, i, c);
    QueuedHasPorts(input, result, queue);
    DeleteFuncKeepsCounts(result, AbsorbedBy(c));
    forall a, b | Mergeable(next, a, b)
      ensures a.Merge(b) in queue[1..]
    {
      PairAfterInsert(kept, i, c, a, b);
      MergeCommutes(a.net, b.net);
      if a == c {
        MergeWithAbsorberIsQueued(input, result, queue, b);
      } else if b == c {
        MergeWithAbsorberIsQueued(input, result, queue, a);
      } else {
        MergeableBefore(result, kept, a, b);
        MergeOfKeptStaysQueued(result, queue, kept, a, b);
      }
    }
  }

  // The initial queue

  lemma ShorterPrefix(a: Bits, b: Bits, n: nat, k: nat)
    requires k <= n <= |a| && n <= |b| && a[..n] == b[..n]
    ensures a[..k] == b[..k]
  {
  }

  lemma MergeAtLeast(a: Net, b: Net, k: nat)
    requires |a.ip| == |b.ip| && k <= a.ones && k <= b.ones && a.ip[..k] == b.ip[..k]
    ensures Merge(a, b).ones >= k
  {
  }

  /** In order, the merge of two entries is the merge over one of the steps between them. */
  lemma MergeOverStep(a: Net, b: Net, c: Net)
    requires |a.ip| == |b.ip| == |c.ip| && CompareBits(a.ip, b.ip) <= 0 && CompareBits(b.ip, c.ip) <= 0
    requires !(Subnet(a, b) && b.ones < a.ones)
    ensures Merge(a, c) == Merge(a, b) || Merge(a, c) == Merge(b, c)
  {
    var m, l, r := Merge(a, c), Merge(a, b), Merge(b, c);
    MergeIsJoin(a, b);
    MergeIsJoin(b, c);
    MergeIsJoin(a, c);
    PrefixesAreContiguous(a.ip, b.ip, c.ip, m.ones);
    if b.ones < m.ones { ShorterPrefix(a.ip, b.ip, m.ones, b.ones); }
    assert Subnet(b, m);
    if l.ones > m.ones && r.ones > m.ones {
      ShorterPrefix(a.ip, b.ip, l.ones, m.ones + 1);
      ShorterPrefix(b.ip, c.ip, r.ones, m.ones + 1);
      MergeAtLeast(a, c, m.ones + 1);
    }
    if l.ones <= m.ones {
      SubnetAntisymmetric(l, m);
    } else {
      SubnetAntisymmetric(r, m);
    }
  }

  lemma {:induction false} MergeIsOfNeighbours(s: seq<NetWithPortRange>, i: nat, j: nat)
    requires WiderFirst(s) && OrderedWithinPorts(s)
    requires i < j < |s| && s[i].ports == s[j].ports && !IsUnspecified(Merge(s[i].net, s[j].net).ip)
    ensures IsCandidate(s, |s|, s[i].Merge(s[j]))
    decreases j - i
  {
    var n := NextOfPorts(s, i, i + 1);
    if n < j {
      assert !StrictlyWider(s[n], s[i]);
      MergeOverStep(s[i].net, s[n].net, s[j].net);
      if Merge(s[i].net, s[j].net) == Merge(s[n].net, s[j].net) {
        MergeIsOfNeighbours(s, n, j);
      } else {
        assert Candidate(s, i) == Some(s[i].Merge(s[j]));
      }
    } else {
      assert Candidate(s, i) == Some(s[i].Merge(s[j]));
    }
  }

  /** In the order of the base addresses, within each port range, neighbours suffice. */
  lemma OrderedNeighboursSuffice(s: seq<NetWithPortRange>)
    requires WiderFirst(s) && OrderedWithinPorts(s)
    ensures NeighboursSuffice(s)
  {
    hide Candidate;
    forall a, b | Mergeable(s, a, b)
      ensures IsCandidate(s, |s|, a.Merge(b))
    {
      var i, j := TwoPositions(s, a, b);
      MergeCommutes(a.net, b.net);
      if i < j {
        MergeIsOfNeighbours(s, i, j);
      } else {
        MergeIsOfNeighbours(s, j, i);
      }
    }
  }

  /** What is queued at first holds every possible merge exactly when neighbours suffice. */
  lemma InitialQueueIsComplete(s: seq<NetWithPortRange>, queue: seq<NetWithPortRange>)
    requires QueuesNeighbours(s, |s|, queue)
    ensures Complete(s, queue) <==> NeighboursSuffice(s)
  {
  }

  lemma TwoPositions<T>(s: seq<T>, a: T, b: T) returns (i: nat, j: nat)
    requires multiset{a, b} <= multiset(s)
    ensures i < |s| && j < |s| && i != j && s[i] == a && s[j] == b
  {
    assert a in multiset{a, b} && b in multiset{a, b};
    i :| 0 <= i < |s| && s[i] == a;
    if a != b {
      j :| 0 <= j < |s| && s[j] == b;
    } else {
      assert multiset{a, b}[a] == 2;
      j := AnotherPosition(s, i);
    }
  }

  lemma AnotherPosition<T>(s: seq<T>, i: nat) returns (j: nat)
    requires i < |s| && multiset(s)[s[i]] >= 2
    ensures j < |s| && j != i && s[j] == s[i]
  {
    var before, after := s[..i], s[i+1..];
    assert s == before + [s[i]] + after;
    assert multiset(before)[s[i]] + multiset(after)[s[i]] >= 1;
    if s[i] in before {
      j :| 0 <= j < |before| && before[j] == s[i];
    } else {
      assert s[i] in after;
      var k :| 0 <= k < |after| && after[k] == s[i];
      j := i + 1 + k;
    }
  }

  // Termination

  function Total<T>(s: seq<T>, f: T -> nat): nat {
    if s == [] then 0 else f(s[0]) + Total(s[1..], f)
  }

  lemma {:induction false} TotalInsert<T>(s: seq<T>, i: nat, x: T, f: T -> nat)
    requires i <= |s|
    ensures Total(s[..i] + [x] + s[i..], f) == Total(s, f) + f(x)
  {
    var r := s[..i] + [x] + s[i..];
    if i == 0 {
      assert r[1..] == s;
    } else {
      TotalInsert(s[1..], i - 1, x, f);
      assert r[1..] == s[1..][..i-1] + [x] + s[1..][i-1..];
    }
  }

  lemma {:induction false} TotalAgree<T>(s: seq<T>, f: T -> nat, g: T -> nat)
    requires forall x :: x in s ==> f(x) == g(x)
    ensures Total(s, f) == Total(s, g)
  {
    if s != [] { TotalAgree(s[1..], f, g); }
  }

  lemma {:induction false} NoneDeleted<T(!new)>(s: seq<T>, del: T -> bool)
    requires |DeleteFunc(s, del)| == |s|
    ensures DeleteFunc(s, del) == s && forall x :: x in s ==> !del(x)
  {
    if s != [] {
      NoneDeleted(s[..|s|-1], del);
      assert s == s[..|s|-1] + [s[|s|-1]];
    }
  }

  lemma {:induction false} OneDeleted<T(!new)>(s: seq<T>, del: T -> bool) returns (k: nat)
    requires |DeleteFunc(s, del)| == |s| - 1
    ensures k < |s| && del(s[k]) && DeleteFunc(s, del) == s[..k] + s[k+1..]
  {
    var n := |s| - 1;
    if del(s[n]) {
      NoneDeleted(s[..n], del);
      k := n;
    } else {
      k := OneDeleted(s[..n], del);
      TakenOutBeforeLast(s, k);
    }
  }

  lemma TakenOutBeforeLast<T>(s: seq<T>, k: nat)
    requires k < |s| - 1
    ensures var n := |s| - 1;
      s[..n][k] == s[k] && s[..n][..k] + s[..n][k+1..] + [s[n]] == s[..k] + s[k+1..]
  {
  }

  function OneBits(ip: Bits): nat {
    if ip == [] then 0 else (if ip[0] then 1 else 0) + OneBits(ip[1..])
  }

  /** Entries only ever move to lower base addresses and wider port ranges. */
  function Weight(n: NetWithPortRange): nat {
    OneBits(n.net.ip) + n.ports.from + (0xffff - n.ports.to)
  }

  lemma {:induction false} BaseHasFewestOnes(base: Bits, ip: Bits, ones: nat)
    requires |base| == |ip| && ones <= |ip| && base[..ones] == ip[..ones]
    requires forall i :: ones <= i < |base| ==> !base[i]
    ensures OneBits(base) <= OneBits(ip)
    ensures OneBits(base) == OneBits(ip) ==> base == ip
  {
    if base != [] {
      if ones > 0 {
        assert base[0] == base[..ones][0] == ip[..ones][0] == ip[0];
        assert base[1..][..ones-1] == base[..ones][1..] == ip[..ones][1..] == ip[1..][..ones-1];
        BaseHasFewestOnes(base[1..], ip[1..], ones - 1);
      } else {
        BaseHasFewestOnes(base[1..], ip[1..], 0);
      }
      assert base == [base[0]] + base[1..] && ip == [ip[0]] + ip[1..];
    }
  }

  lemma AbsorbingLowersWeight(c: NetWithPortRange, n: NetWithPortRange)
    requires Canonical(c.net) && c.Contains(n)
    ensures Weight(c) <= Weight(n)
    ensures Weight(c) == Weight(n) ==> c.net.ip == n.net.ip && c.ports == n.ports
  {
    BaseHasFewestOnes(c.net.ip, n.net.ip, c.net.ones);
  }

  function IfAbsorbed(c: NetWithPortRange): NetWithPortRange -> nat {
    (n: NetWithPortRange) => if c.Contains(n) then 1 else 0
  }

  /** A queued candidate with a proper port range that absorbs fewer than two entries. */
  function IfStale(result: seq<NetWithPortRange>): NetWithPortRange -> nat {
    (c: NetWithPortRange) => if c.ports.from <= c.ports.to && Total(result, IfAbsorbed(c)) < 2 then 1 else 0
  }

  lemma {:induction false} TotalAtLeast<T>(s: seq<T>, f: T -> nat, i: nat, j: nat)
    requires i < j < |s|
    ensures Total(s, f) >= f(s[i]) + f(s[j])
  {
    if i > 0 {
      TotalAtLeast(s[1..], f, i - 1, j - 1);
    } else {
      TotalAtLeastOne(s[1..], f, j - 1);
    }
  }

  lemma {:induction false} TotalAtLeastOne<T>(s: seq<T>, f: T -> nat, j: nat)
    requires j < |s|
    ensures Total(s, f) >= f(s[j])
  {
    if j > 0 { TotalAtLeastOne(s[1..], f, j - 1); }
  }

  lemma MergeAbsorbsBoth(a: NetWithPortRange, b: NetWithPortRange)
    requires a.ports == b.ports && |a.net.ip| == |b.net.ip| && a.ports.from <= a.ports.to
    ensures a.Merge(b).Contains(a) && a.Merge(b).Contains(b)
  {
  }

  /** A merge of two entries absorbs at least both of them. */
  lemma FreshIsNotStale(result: seq<NetWithPortRange>, c: NetWithPortRange)
    requires MergeOfPair(result, c)
    ensures IfStale(result)(c) == 0
  {
    if c.ports.from <= c.ports.to {
      var i: nat, j: nat :| i < j < |result| && IsMerge(c, result[i], result[j]);
      assert c == result[i].Merge(result[j]);
      MergeAbsorbsBoth(result[i], result[j]);
      TotalAtLeast(result, IfAbsorbed(c), i, j);
    }
  }

  lemma {:induction false} NothingAbsorbed(s: seq<NetWithPortRange>, c: NetWithPortRange)
    requires forall n :: n in s ==> !c.Contains(n)
    ensures Total(s, IfAbsorbed(c)) == 0
  {
    if s != [] { NothingAbsorbed(s[1..], c); }
  }

  /** Swapping an entry for one of the same base address and port range changes no
      absorption, and the candidate that did it was stale. */
  lemma EqualSwapUsesStale(kept: seq<NetWithPortRange>, k: nat, n: NetWithPortRange, i: nat, queue: seq<NetWithPortRange>)
    requires k <= |kept| && i <= |kept| && queue != []
    requires queue[0].Contains(n) && n.net.ip == queue[0].net.ip && n.ports == queue[0].ports
    requires forall m :: m in kept ==> !queue[0].Contains(m)
    ensures Total(queue[1..], IfStale(kept[..i] + [queue[0]] + kept[i..]))
          < Total(queue, IfStale(kept[..k] + [n] + kept[k..]))
  {
    var c := queue[0];
    var result, next := kept[..k] + [n] + kept[k..], kept[..i] + [c] + kept[i..];
    forall d | d in queue
      ensures Total(next, IfAbsorbed(d)) == Total(result, IfAbsorbed(d))
    {
      TotalInsert(kept, k, n, IfAbsorbed(d));
      TotalInsert(kept, i, c, IfAbsorbed(d));
    }
    TotalAgree(queue[1..], IfStale(next), IfStale(result));
    NothingAbsorbed(kept, c);
    TotalInsert(kept, k, n, IfAbsorbed(c));
    assert IfStale(result)(c) == 1;
  }

  lemma SwapWeights(kept: seq<NetWithPortRange>, k: nat, n: NetWithPortRange, i: nat, c: NetWithPortRange)
    requires k <= |kept| && i <= |kept|
    ensures Total(kept[..i] + [c] + kept[i..], Weight) - Weight(c)
         == Total(kept[..k] + [n] + kept[k..], Weight) - Weight(n)
  {
    TotalInsert(kept, k, n, Weight);
    TotalInsert(kept, i, c, Weight);
  }

  /** A round that swaps one entry for the candidate lowers the total weight, or leaves
      every candidate absorbing what it did and removes a stale one. */
  lemma SwapMakesProgress(result: seq<NetWithPortRange>, queue: seq<NetWithPortRange>, i: nat)
    requires queue != [] && Canonical(queue[0].net)
    requires i <= |DeleteFunc(result, AbsorbedBy(queue[0]))| == |result| - 1
    ensures var next := Insert(DeleteFunc(result, AbsorbedBy(queue[0])), i, queue[0]);
      || Total(next, Weight) < Total(result, Weight)
      || (Total(next, Weight) == Total(result, Weight)
          && Total(queue[1..], IfStale(next)) < Total(queue, IfStale(result)))
  {
    hide Total, Weight, IfStale, DeleteFunc;
    var c := queue[0];
    var kept := DeleteFunc(result, AbsorbedBy(c));
    var k := OneDeleted(result, AbsorbedBy(c));
    var n := result[k];
    assert result == kept[..k] + [n] + kept[k..];
    AbsorbingLowersWeight(c, n);
    SwapWeights(kept, k, n, i, c);
    if Weight(c) == Weight(n) {
      EqualSwapUsesStale(kept, k, n, i, queue);
    }
  }

  // Nothing grows beyond joins of the input

  /** The join of two joins is the join of two of the four. */
  lemma MergeOfMerges(a: Net, b: Net, c: Net, d: Net)
    requires |a.ip| == |b.ip| == |c.ip| == |d.ip|
    ensures Merge(Merge(a, b), Merge(c, d)) in {Merge(a, b), Merge(c, d), Merge(a, c)}
  {
    var l, r := Merge(a, b), Merge(c, d);
    var m, x := Merge(l, r), Merge(a, c);
    MergeIsJoin(a, b);
    MergeIsJoin(c, d);
    MergeIsJoin(l, r);
    MergeIsJoin(a, c);
    SubnetTransitive(a, l, m);
    SubnetTransitive(c, r, m);
    if l.ones <= m.ones {
      SubnetAntisymmetric(l, m);
    } else if r.ones <= m.ones {
      SubnetAntisymmetric(r, m);
    } else {
      assert Subnet(x, m);
      if x.ones > m.ones {
        ShorterPrefix(a.ip, l.ip, l.ones, m.ones + 1);
        ShorterPrefix(c.ip, r.ip, r.ones, m.ones + 1);
        ShorterPrefix(a.ip, c.ip, x.ones, m.ones + 1);
      }
      SubnetAntisymmetric(x, m);
    }
  }

  lemma MergeMasksFirst(a: Net, b: Net)
    requires |a.ip| == |b.ip|
    ensures Merge(Merge(a, a), Merge(b, b)) == Merge(a, b)
  {
    var x, y := Merge(a, a), Merge(b, b);
    MergeIsJoin(a, b);
    MergeIsJoin(a, a);
    MergeIsJoin(b, b);
    MergeIsJoin(x, y);
    SubnetTransitive(a, x, Merge(x, y));
    SubnetTransitive(b, y, Merge(x, y));
    SubnetAntisymmetric(Merge(a, b), Merge(x, y));
  }

  lemma JoinedFrom(input: seq<NetWithPortRange>, x: NetWithPortRange) returns (a: NetWithPortRange, b: NetWithPortRange)
    requires FromInput(input, x)
    ensures a in input && b in input && a.ports == b.ports == x.ports && |a.net.ip| == |b.net.ip| == |x.net.ip|
    ensures Merge(a.net, b.net) == Merge(x.net, x.net)
  {
    if x in input {
      a, b := x, x;
    } else {
      a, b :| a in input && b in input && IsMerge(x, a, b);
      MergeIsJoin(a.net, b.net);
      MergeIdempotent(x.net);
    }
  }

  lemma PairIsJoin(input: seq<NetWithPortRange>, x: NetWithPortRange, y: NetWithPortRange, c: NetWithPortRange)
    requires FromInput(input, x) && FromInput(input, y) && IsMerge(c, x, y)
    ensures JoinOfTwo(input, c)
  {
    var a, b := JoinedFrom(input, x);
    var d, e := JoinedFrom(input, y);
    MergeMasksFirst(x.net, y.net);
    MergeOfMerges(a.net, b.net, d.net, e.net);
    assert IsMerge(c, a, b) || IsMerge(c, d, e) || IsMerge(c, a, d);
  }

  // The rounds together

  ghost predicate LoopState(input: seq<NetWithPortRange>, result: seq<NetWithPortRange>, queue: seq<NetWithPortRange>) {
    && Shape(input, result, queue)
    && (Sound(input) ==> Covering(input, result, queue))
    && (Sound(input) && NeighboursSuffice(input) ==> Complete(result, queue))
  }

  lemma StartState(input: seq<NetWithPortRange>)
    ensures Shape(input, input, []) && Covering(input, input, [])
  {
  }

  lemma PushKeepsShape(input: seq<NetWithPortRange>, result: seq<NetWithPortRange>, queue: seq<NetWithPortRange>,
                       i: nat, c: NetWithPortRange)
    requires i <= |queue| && Sorted(Insert(queue, i, c), ComparePrefixLen)
    requires MergeOfPair(result, c) && Shape(input, result, queue)
    ensures Shape(input, result, Insert(queue, i, c))
  {
    InsertMembers(queue, i, c);
    var j: nat, k: nat :| j < k < |result| && IsMerge(c, result[j], result[k]);
    MergeIsJoin(result[j].net, result[k].net);
    PairIsJoin(input, result[j], result[k], c);
    assert result[j] in result + queue;
    forall n | n in result + Insert(queue, i, c)
      ensures n in result + queue || n == c
    {
    }
  }

  lemma PushKeepsCovering(input: seq<NetWithPortRange>, result: seq<NetWithPortRange>, queue: seq<NetWithPortRange>,
                          i: nat, c: NetWithPortRange)
    requires i <= |queue| && MergeOfPair(result, c) && Covering(input, result, queue)
    ensures Covering(input, result, Insert(queue, i, c))
  {
    InsertMembers(queue, i, c);
    MergeNotInsideJoin(input, result, c);
    assert c in [c];
  }

  lemma LongerQueueIsComplete(result: seq<NetWithPortRange>, queue: seq<NetWithPortRange>, longer: seq<NetWithPortRange>)
    requires Complete(result, queue) && forall c :: c in queue ==> c in longer
    ensures Complete(result, longer)
  {
  }

  lemma FreshAddsNoStale(result: seq<NetWithPortRange>, queue: seq<NetWithPortRange>, i: nat, c: NetWithPortRange)
    requires i <= |queue| && MergeOfPair(result, c)
    ensures Total(Insert(queue, i, c), IfStale(result)) == Total(queue, IfStale(result))
  {
    FreshIsNotStale(result, c);
    TotalInsert(queue, i, c, IfStale(result));
  }

  lemma RoundKeepsShape(input: seq<NetWithPortRange>, result: seq<NetWithPortRange>, queue: seq<NetWithPortRange>, i: nat)
    requires Shape(input, result, queue)
    requires queue != [] && i <= |DeleteFunc(result, AbsorbedBy(queue[0]))|
    ensures Shape(input, Insert(DeleteFunc(result, AbsorbedBy(queue[0])), i, queue[0]), queue[1..])
  {
    var kept := DeleteFunc(result, AbsorbedBy(queue[0]));
    var next := Insert(kept, i, queue[0]);
    InsertMembers(kept, i, queue[0]);
    assert forall n :: n in next + queue[1..] ==> n in result + queue;
    assert forall n :: n in queue[1..] ==> n in queue;
    forall j, k | 0 <= j < k < |queue[1..]|
      ensures ComparePrefixLen(queue[1..][j], queue[1..][k]) <= 0
    {
      assert ComparePrefixLen(queue[j + 1], queue[k + 1]) <= 0;
    }
  }

  lemma RoundKeeps(input: seq<NetWithPortRange>, result: seq<NetWithPortRange>, queue: seq<NetWithPortRange>, i: nat)
    requires LoopState(input, result, queue)
    requires queue != [] && i <= |DeleteFunc(result, AbsorbedBy(queue[0]))| < |result|
    ensures LoopState(input, Insert(DeleteFunc(result, AbsorbedBy(queue[0])), i, queue[0]), queue[1..])
  {
    RoundKeepsShape(input, result, queue, i);
    if Sound(input) { RoundKeepsCovering(input, result, queue, i); }
    if Sound(input) && NeighboursSuffice(input) { RoundKeepsComplete(input, result, queue, i); }
  }

  lemma DropKeepsComplete(input: seq<NetWithPortRange>, result: seq<NetWithPortRange>, queue: seq<NetWithPortRange>)
    requires Sound(input) && Shape(input, result, queue) && Complete(result, queue)
    requires queue != [] && forall n :: n in result ==> !queue[0].Contains(n)
    ensures Complete(result, queue[1..])
  {
    forall a, b | Mergeable(result, a, b)
      ensures a.Merge(b) in queue[1..]
    {
      assert a in multiset{a, b};
      assert a in result && a in result + queue;
      EmptyPortsExcluded(input, a);
      MergeAbsorbsBoth(a, b);
      var k :| 0 <= k < |queue| && queue[k] == a.Merge(b);
      assert k != 0;
      assert queue[1..][k - 1] == queue[k];
    }
  }

  lemma DropKeepsRest(input: seq<NetWithPortRange>, result: seq<NetWithPortRange>, queue: seq<NetWithPortRange>)
    requires queue != [] && Shape(input, result, queue)
    ensures Shape(input, result, queue[1..])
    ensures Covering(input, result, queue) ==> Covering(input, result, queue[1..])
    ensures Total(queue[1..], IfStale(result)) <= Total(queue, IfStale(result))
  {
    assert forall n :: n in queue[1..] ==> n in queue;
    assert forall n :: n in result + queue[1..] ==> n in result + queue;
    forall j, k | 0 <= j < k < |queue[1..]|
      ensures ComparePrefixLen(queue[1..][j], queue[1..][k]) <= 0
    {
      assert ComparePrefixLen(queue[j + 1], queue[k + 1]) <= 0;
    }
  }

  /** A candidate that absorbs nothing can be dropped. */
  lemma DropKeeps(input: seq<NetWithPortRange>, result: seq<NetWithPortRange>, queue: seq<NetWithPortRange>)
    requires LoopState(input, result, queue)
    requires queue != [] && |DeleteFunc(result, AbsorbedBy(queue[0]))| == |result|
    ensures LoopState(input, result, queue[1..])
    ensures Total(queue[1..], IfStale(result)) <= Total(queue, IfStale(result))
  {
    NoneDeleted(result, AbsorbedBy(queue[0]));
    assert forall n :: n in result ==> !AbsorbedBy(queue[0])(n);
    DropKeepsRest(input, result, queue);
    if Sound(input) && NeighboursSuffice(input) { DropKeepsComplete(input, result, queue); }
  }

  // The algorithm

  /** Queueing a merge of two entries of the result. */
  method Enqueue(ghost input: seq<NetWithPortRange>, ghost result: seq<NetWithPortRange>,
                 candidates: seq<NetWithPortRange>, c: NetWithPortRange) returns (longer: seq<NetWithPortRange>)
    requires MergeOfPair(result, c) && Shape(input, result, candidates)
    ensures forall d :: d in longer <==> d == c || d in candidates
    ensures Shape(input, result, longer)
    ensures Covering(input, result, candidates) ==> Covering(input, result, longer)
    ensures Total(longer, IfStale(result)) == Total(candidates, IfStale(result))
  {
    PrefixLenIsTotalPreorder();
    var k;
    longer, k := InsertSorted(candidates, c, ComparePrefixLen);
    InsertMembers(candidates, k, c);
    PushKeepsShape(input, result, candidates, k, c);
    if Covering(input, result, candidates) { PushKeepsCovering(input, result, candidates, k, c); }
    FreshAddsNoStale(result, candidates, k, c);
  }

  lemma QueuesNone(s: seq<NetWithPortRange>)
    ensures QueuesNeighbours(s, 0, [])
  {
  }

  lemma QueuesNext(s: seq<NetWithPortRange>, n: nat, queue: seq<NetWithPortRange>, longer: seq<NetWithPortRange>)
    requires n < |s| && QueuesNeighbours(s, n, queue)
    requires forall c :: c in longer <==> c in queue || Candidate(s, n) == Some(c)
    ensures QueuesNeighbours(s, n + 1, longer)
  {
    hide Candidate;
  }

  lemma QueuesAll(s: seq<NetWithPortRange>, n: nat, queue: seq<NetWithPortRange>)
    requires |s| - 1 <= n <= |s| && QueuesNeighbours(s, n, queue)
    ensures QueuesNeighbours(s, |s|, queue)
  {
    if n < |s| {
      assert Candidate(s, n) == None;
      QueuesNext(s, n, queue, queue);
    }
  }

  method InitialCandidates(result: seq<NetWithPortRange>) returns (candidates: seq<NetWithPortRange>)
    ensures LoopState(result, result, candidates) && QueuesNeighbours(result, |result|, candidates)
  {
    hide Shape, Covering, Complete, Sound, NeighboursSuffice, QueuesNeighbours, Candidate, NoJoinWider;
    StartState(result);
    candidates := [];
    assert result + [] == result;
    QueuesNone(result);
    var i := 0;
    while i < |result| - 1
      invariant 0 <= i <= |result|
      invariant Shape(result, result, candidates)
      invariant Covering(result, result, candidates)
      invariant QueuesNeighbours(result, i, candidates)
      decreases |result| - i
    {
      var c := GetNextMatchingCandidate(result, i);
      ghost var before := candidates;
      if c.Some? {
        candidates := Enqueue(result, result, candidates, c.value);
      }
      QueuesNext(result, i, before, candidates);
      i := i + 1;
    }
    QueuesAll(result, i, candidates);
    InitialQueueIsComplete(result, candidates);
  }

  lemma SortedQueueKeeps(input: seq<NetWithPortRange>, result: seq<NetWithPortRange>,
                         queue: seq<NetWithPortRange>, sorted: seq<NetWithPortRange>)
    requires LoopState(input, result, queue) && Sorted(sorted, ComparePrefixLen) && multiset(sorted) == multiset(queue)
    ensures LoopState(input, result, sorted)
  {
    assert forall n :: n in sorted <==> n in multiset(sorted);
    assert forall n :: n in queue <==> n in multiset(queue);
    assert forall n :: n in result + sorted <==> n in result + queue;
  }

  /** Every round that absorbs something makes progress, flat input or not. */
  lemma RoundMakesProgress(result: seq<NetWithPortRange>, queue: seq<NetWithPortRange>, i: nat)
    requires queue != [] && Canonical(queue[0].net)
    requires i <= |DeleteFunc(result, AbsorbedBy(queue[0]))| < |result|
    ensures var next := Insert(DeleteFunc(result, AbsorbedBy(queue[0])), i, queue[0]);
      || |next| < |result|
      || (|next| == |result| && Total(next, Weight) < Total(result, Weight))
      || (|next| == |result| && Total(next, Weight) == Total(result, Weight)
          && Total(queue[1..], IfStale(next)) < Total(queue, IfStale(result)))
  {
    if |DeleteFunc(result, AbsorbedBy(queue[0]))| == |result| - 1 {
      SwapMakesProgress(result, queue, i);
    }
  }

  lemma CoveredMatchesMore(input: seq<NetWithPortRange>, result: seq<NetWithPortRange>, e: Endpoint)
    requires (forall n :: n in input ==> CoveredBy(result, n)) && Matched(input, e)
    ensures Matched(result, e)
  {
    var n :| n in input && n.Matches(e);
    assert CoveredBy(result, n);
    var r :| r in result && r.ports == n.ports && Subnet(n.net, r.net);
    SubnetIsInclusion(n.net, r.net);
  }

  lemma StateMeans(input: seq<NetWithPortRange>, result: seq<NetWithPortRange>, queue: seq<NetWithPortRange>)
    requires LoopState(input, result, queue)
    ensures queue != [] ==> Canonical(queue[0].net)
    ensures Sound(input) ==> forall e: Endpoint :: Matched(input, e) ==> Matched(result, e)
    ensures Sound(input) && NeighboursSuffice(input) && queue == [] ==> forall a, b :: !Mergeable(result, a, b)
    ensures forall n :: n in result ==> FromInput(input, n)
  {
    hide Sound, NoJoinWider, Mergeable, Matched, CoveredBy, NeighboursSuffice;
    forall e: Endpoint | Sound(input) && Matched(input, e)
      ensures Matched(result, e)
    {
      CoveredMatchesMore(input, result, e);
    }
  }

  /** A join of two input entries replaces at least one entry, all those it contains; it goes
      where the binary search puts it. */
  ghost predicate OneRound(input: seq<NetWithPortRange>, before: seq<NetWithPortRange>, after: seq<NetWithPortRange>,
                           i: nat) {
    exists c :: RoundBy(before, c, i, after) && JoinOfTwo(input, c) && !IsUnspecified(c.net.ip)
  }

  ghost predicate RoundBy(before: seq<NetWithPortRange>, c: NetWithPortRange, i: nat, after: seq<NetWithPortRange>) {
    var kept := DeleteFunc(before, AbsorbedBy(c));
    i == SearchIndex(kept, c, CompareNets) <= |kept| < |before| && after == Insert(kept, i, c)
  }

  /** Where candidates have been queued last: everywhere, or around the entry inserted last. */
  datatype Progress = Untouched | InsertedAt(i: nat)

  function From(p: Progress): int { if p.Untouched? then 0 else p.i - 1 }

  function To(p: Progress, size: nat): int { if p.Untouched? then size else p.i + 1 }

  /** How the list came about: unchanged so far, or by a last round from one over the limit. */
  ghost predicate CameFrom(input: seq<NetWithPortRange>, last: seq<NetWithPortRange>, result: seq<NetWithPortRange>,
                           p: Progress) {
    match p
    case Untouched => result == last == input
    case InsertedAt(i) => OneRound(input, last, result, i)
  }

  /** The rounds went on as long as they could: neither the entry inserted last nor the one
      before it has a merge left to offer; if nothing was inserted, no entry has. */
  ghost predicate Exhausted(result: seq<NetWithPortRange>, p: Progress) {
    NoCandidateIn(result, From(p), To(p, |result|))
  }

  lemma {:induction false} SomeAbsorbed(s: seq<NetWithPortRange>, c: NetWithPortRange)
    requires Total(s, IfAbsorbed(c)) > 0
    ensures exists n :: n in s && c.Contains(n)
  {
    if c.Contains(s[0]) {
      assert s[0] in s;
    } else {
      SomeAbsorbed(s[1..], c);
      var n :| n in s[1..] && c.Contains(n);
      assert n in s;
    }
  }

  lemma CandidateIsMergeOfPair(s: seq<NetWithPortRange>, i: nat)
    requires i < |s| && Candidate(s, i).Some?
    ensures MergeOfPair(s, Candidate(s, i).value)
  {
    var j := NextOfPorts(s, i, i + 1);
    var c := s[i].Merge(s[j]);
    assert IsMerge(c, s[i], s[j]);
  }

  /** A candidate that absorbs nothing was not queued for the list as it is: a fresh one
      absorbs two entries. */
  lemma DropKeepsFresh(input: seq<NetWithPortRange>, result: seq<NetWithPortRange>, queue: seq<NetWithPortRange>,
                       lo: int, hi: int)
    requires queue != [] && ProperPorts(result) && QueuedIn(result, lo, hi, queue)
    requires forall n :: n in result ==> !queue[0].Contains(n)
    ensures QueuedIn(result, lo, hi, queue[1..])
  {
    forall i | 0 <= i < |result| && lo <= i < hi && Candidate(result, i).Some?
      ensures Candidate(result, i).value in queue[1..]
    {
      var c := Candidate(result, i).value;
      CandidateIsMergeOfPair(result, i);
      FreshIsNotStale(result, c);
      PairHasPorts(result, c);
      SomeAbsorbed(result, c);
      var k :| 0 <= k < |queue| && queue[k] == c;
      assert queue[1..][k - 1] == c;
    }
  }

  lemma PairHasPorts(result: seq<NetWithPortRange>, c: NetWithPortRange)
    requires ProperPorts(result) && MergeOfPair(result, c)
    ensures c.ports.from <= c.ports.to
  {
    var j, k :| 0 <= j < k < |result| && IsMerge(c, result[j], result[k]);
    assert result[j] in result;
  }

  lemma PortsStayProper(input: seq<NetWithPortRange>, result: seq<NetWithPortRange>, queue: seq<NetWithPortRange>)
    requires Shape(input, result, queue) && ProperPorts(input)
    ensures ProperPorts(result)
  {
    forall n | n in result
      ensures n.ports.from <= n.ports.to
    {
      assert n in result + queue;
    }
  }

  lemma NothingQueuedLeft(result: seq<NetWithPortRange>, lo: int, hi: int)
    requires QueuedIn(result, lo, hi, [])
    ensures NoCandidateIn(result, lo, hi)
  {
  }

  lemma QueuedIsJoin(input: seq<NetWithPortRange>, result: seq<NetWithPortRange>, queue: seq<NetWithPortRange>)
    requires LoopState(input, result, queue) && queue != []
    ensures JoinOfTwo(input, queue[0]) && !IsUnspecified(queue[0].net.ip)
  {
  }

  lemma NothingToQueue(s: seq<NetWithPortRange>, queue: seq<NetWithPortRange>)
    requires NoCandidate(s) && QueuesNeighbours(s, |s|, queue)
    ensures queue == []
  {
    if queue != [] {
      HasMember(queue);
    }
  }

  lemma HasMember<T>(s: seq<T>)
    requires s != []
    ensures exists x :: x in s
  {
    assert s[0] in s;
  }

  /** The merging rounds, on a copy of the caller's list in the caller's order. The list
      before the round that inserted something last, `last`, was still over the limit. */
  method CondenseCopy(input: seq<NetWithPortRange>, limit: int)
      returns (result: seq<NetWithPortRange>, ghost last: seq<NetWithPortRange>, ghost p: Progress)
    requires |input| > limit
    ensures |result| <= |input| && |last| > limit && CameFrom(input, last, result, p)
    ensures |result| > limit && ProperPorts(input) ==> Exhausted(result, p)
    ensures NoCandidate(input) ==> result == input
    ensures Sound(input) ==> forall e: Endpoint :: Matched(input, e) ==> Matched(result, e)
    ensures Sound(input) && NeighboursSuffice(input) ==>
      |result| <= limit || forall a, b :: !Mergeable(result, a, b)
    ensures forall n :: n in result ==> FromInput(input, n)
    ensures Sorted(input, CompareNets) ==> Sorted(result, CompareNets)
  {
    hide Shape, Covering, Complete, Sound, NeighboursSuffice, LoopState, Mergeable, Matched, OneRound, QueuedIn,
      NoCandidateIn, Candidate, Sorted;
    result, last, p := input, input, Untouched;
    var candidates := InitialCandidates(result);
    if NoCandidate(input) { NothingToQueue(input, candidates); }
    var sorted := SortCandidates(input, result, candidates);
    InitiallyQueued(result, candidates, sorted);
    candidates := sorted;
    while true
      invariant LoopState(input, result, candidates) && |result| <= |input|
      invariant |last| > limit && CameFrom(input, last, result, p)
      invariant NoCandidate(input) ==> candidates == [] && result == input
      invariant ProperPorts(input) ==> QueuedIn(result, From(p), To(p, |result|), candidates)
      invariant Sorted(input, CompareNets) ==> Sorted(result, CompareNets)
      decreases |result|, Total(result, Weight), Total(candidates, IfStale(result)), |candidates|
    {
      StateMeans(input, result, candidates);
      if |result| <= limit || candidates == [] {
        if candidates == [] && ProperPorts(input) { NothingQueuedLeft(result, From(p), To(p, |result|)); }
        return;
      }
      ghost var before, queued := result, candidates;
      ghost var absorbed, i;
      result, candidates, absorbed, i := Round(input, result, candidates);
      if absorbed {
        last, p := before, InsertedAt(i);
      } else if ProperPorts(input) {
        DropKeepsFresh(input, result, queued, From(p), To(p, |result|));
      }
    }
  }

  method SortCandidates(ghost input: seq<NetWithPortRange>, ghost result: seq<NetWithPortRange>,
                        candidates: seq<NetWithPortRange>) returns (sorted: seq<NetWithPortRange>)
    requires LoopState(input, result, candidates)
    ensures LoopState(input, result, sorted) && |sorted| == |candidates| && forall c :: c in candidates ==> c in sorted
  {
    PrefixLenIsTotalPreorder();
    sorted := SortFunc(candidates, ComparePrefixLen);
    SortedQueueKeeps(input, result, candidates, sorted);
    assert |sorted| == |multiset(sorted)| == |multiset(candidates)| == |candidates|;
    assert forall c :: c in candidates ==> c in multiset(candidates);
  }

  /** One round: the longest prefix in the queue replaces what it contains. What the inserted
      entry and the one before it can be merged to is queued then. */
  method Round(ghost input: seq<NetWithPortRange>, result: seq<NetWithPortRange>, candidates: seq<NetWithPortRange>)
      returns (next: seq<NetWithPortRange>, queue: seq<NetWithPortRange>, ghost absorbed: bool, ghost at: nat)
    requires LoopState(input, result, candidates) && candidates != []
    ensures LoopState(input, next, queue) && |next| <= |result|
    ensures absorbed ==> OneRound(input, result, next, at) && QueuedIn(next, at - 1, at + 1, queue)
    ensures !absorbed ==>
      next == result && queue == candidates[1..] && forall n :: n in result ==> !candidates[0].Contains(n)
    ensures ProperPorts(input) ==> ProperPorts(result)
    ensures Sorted(result, CompareNets) ==> Sorted(next, CompareNets)
    ensures |next| == |result| ==> Total(next, Weight) <= Total(result, Weight)
    ensures |next| == |result| && Total(next, Weight) == Total(result, Weight) ==>
      || Total(queue, IfStale(next)) < Total(candidates, IfStale(result))
      || (Total(queue, IfStale(next)) == Total(candidates, IfStale(result)) && |queue| < |candidates|)
  {
    if ProperPorts(input) { PortsStayProper(input, result, candidates); }
    hide Shape, Covering, Complete, Sound, NeighboursSuffice, Mergeable, Matched, ProperPorts, Candidate, Sorted;
    StateMeans(input, result, candidates);
    var longestPrefix := candidates[0];
    queue := candidates[1..];
    next := DeleteFunc(result, AbsorbedBy(longestPrefix));
    absorbed, at := |next| < |result|, 0;
    if |next| == |result| {
      NoneDeleted(result, AbsorbedBy(longestPrefix));
      assert forall n :: n in result ==> !AbsorbedBy(longestPrefix)(n);
      DropKeeps(input, result, candidates);
      return;
    }
    CompareIsTotalPreorder();
    if Sorted(result, CompareNets) { DeletingKeepsSorted(result, AbsorbedBy(longestPrefix), CompareNets); }
    var i;
    next, i := InsertSorted(next, longestPrefix, CompareNets);
    at := i;
    QueuedIsJoin(input, result, candidates);
    assert RoundBy(result, longestPrefix, i, next);
    assert OneRound(input, result, next, i);
    RoundKeeps(input, result, candidates, i);
    RoundMakesProgress(result, candidates, i);
    StateMeans(input, next, queue);
    queue := QueueFresh(input, next, i, queue);
  }

  /** The candidates of the inserted entry and of the one before it. */
  method QueueFresh(ghost input: seq<NetWithPortRange>, next: seq<NetWithPortRange>, i: nat,
                    candidates: seq<NetWithPortRange>)
      returns (queue: seq<NetWithPortRange>)
    requires LoopState(input, next, candidates)
    ensures LoopState(input, next, queue) && QueuedIn(next, i - 1, i + 1, queue)
    ensures Total(queue, IfStale(next)) == Total(candidates, IfStale(next))
  {
    hide Shape, Covering, Complete, Sound, NeighboursSuffice, Candidate;
    queue := candidates;
    var j := if i > 0 then i - 1 else 0;
    while j <= i && j <= |next| - 1
      invariant LoopState(input, next, queue) && Total(queue, IfStale(next)) == Total(candidates, IfStale(next))
      invariant QueuedIn(next, i - 1, j, queue)
    {
      var c := GetNextMatchingCandidate(next, j);
      ghost var before := queue;
      if c.Some? {
        queue := Enqueue(input, next, queue, c.value);
        if Complete(next, before) { LongerQueueIsComplete(next, before, queue); }
      }
      QueuedOneMore(next, i - 1, j, before, queue);
      j := j + 1;
    }
    QueuedToTheEnd(next, i, j, queue);
  }

  lemma InitiallyQueued(s: seq<NetWithPortRange>, queue: seq<NetWithPortRange>, sorted: seq<NetWithPortRange>)
    requires QueuesNeighbours(s, |s|, queue) && forall c :: c in queue ==> c in sorted
    ensures QueuedIn(s, 0, |s|, sorted)
  {
    forall i | 0 <= i < |s| && Candidate(s, i).Some?
      ensures Candidate(s, i).value in sorted
    {
      assert IsCandidate(s, |s|, Candidate(s, i).value);
    }
  }

  lemma QueuedOneMore(s: seq<NetWithPortRange>, lo: int, j: nat, queue: seq<NetWithPortRange>, longer: seq<NetWithPortRange>)
    requires j < |s| && QueuedIn(s, lo, j, queue) && forall c :: c in queue ==> c in longer
    requires Candidate(s, j).Some? ==> Candidate(s, j).value in longer
    ensures QueuedIn(s, lo, j + 1, longer)
  {
  }

  lemma QueuedToTheEnd(s: seq<NetWithPortRange>, i: nat, j: nat, queue: seq<NetWithPortRange>)
    requires QueuedIn(s, i - 1, j, queue) && (j > i || j >= |s|)
    ensures QueuedIn(s, i - 1, i + 1, queue)
  {
  }

  lemma {:induction false} DeletingKeepsSorted<T(!new)>(s: seq<T>, del: T -> bool, cmp: (T, T) -> int)
    requires Sorted(s, cmp)
    ensures Sorted(DeleteFunc(s, del), cmp)
  {
    if s != [] {
      var rest, last := s[..|s|-1], s[|s|-1];
      assert forall i :: 0 <= i < |rest| ==> rest[i] == s[i];
      DeletingKeepsSorted(rest, del, cmp);
      forall x | x in rest
        ensures cmp(x, last) <= 0
      {
        var k :| 0 <= k < |rest| && rest[k] == x;
        assert s[k] == x;
      }
      AppendedIsSorted(DeleteFunc(rest, del), last, cmp);
    }
  }

  lemma AppendedIsSorted<T(!new)>(s: seq<T>, x: T, cmp: (T, T) -> int)
    requires Sorted(s, cmp) && forall y :: y in s ==> cmp(y, x) <= 0
    ensures Sorted(s + [x], cmp)
  {
  }

  /** Condenses the list to at most `limit` entries where merging allows it. The caller's
      list is sorted only after the result was copied from it. */
  method CondenseNetWithPortRange(nwps: array<NetWithPortRange>, limit: int)
      returns (result: seq<NetWithPortRange>, ghost last: seq<NetWithPortRange>, ghost p: Progress)
    modifies nwps
    ensures nwps.Length <= limit ==> nwps[..] == old(nwps[..]) && result == old(nwps[..])
    ensures nwps.Length > limit ==> Sorted(nwps[..], CompareNets) && multiset(nwps[..]) == multiset(old(nwps[..]))
    ensures |result| <= nwps.Length && CameFrom(old(nwps[..]), last, result, p)
    ensures nwps.Length > limit ==> |last| > limit
    ensures |result| > limit && ProperPorts(old(nwps[..])) ==> Exhausted(result, p)
    ensures NoCandidate(old(nwps[..])) ==> result == old(nwps[..])
    ensures Sound(old(nwps[..])) ==> forall e: Endpoint :: Matched(old(nwps[..]), e) ==> Matched(result, e)
    ensures Sound(old(nwps[..])) && NeighboursSuffice(old(nwps[..])) ==>
      |result| <= limit || forall a, b :: !Mergeable(result, a, b)
    ensures forall n :: n in result ==> FromInput(old(nwps[..]), n)
    ensures Sorted(old(nwps[..]), CompareNets) ==> Sorted(result, CompareNets)
  {
    if nwps.Length <= limit {
      StartState(nwps[..]);
      return nwps[..], nwps[..], Untouched;
    }
    var copy := nwps[..];
    CompareIsTotalPreorder();
    SortInPlace(nwps, CompareNets);
    result, last, p := CondenseCopy(copy, limit);
  }

  // What the conditions are for

  function Entry(ip: Bits, ones: nat): NetWithPortRange
    requires ones <= |ip|
  {
    NetWithPortRange(Net(ip, ones), PortRange(80, 80))
  }

  /** An address of the given width that starts with the given bits. */
  function Address(start: Bits, width: nat): (ip: Bits)
    requires |start| <= width
    ensures |ip| == width && ip[..|start|] == start && forall i :: |start| <= i < width ==> !ip[i]
  {
    start + seq(width - |start|, _ => false)
  }

  lemma NoCommonFirstBit(a: Net, b: Net)
    requires |a.ip| == |b.ip| > 0 && a.ip[0] != b.ip[0]
    ensures IsUnspecified(Merge(a, b).ip)
  {
  }

  /** Two entries could merge, but nothing is ever queued: over the limit, the list is
      returned as it is. */
  ghost predicate MissesMerge(s: seq<NetWithPortRange>) {
    Sound(s) && NoCandidate(s) && exists a, b :: Mergeable(s, a, b)
  }

  /** With nothing queued the list stays as it is, and neighbours suffice exactly when no
      merge is possible in it. */
  lemma NeighboursSufficeIffNoneMissed(s: seq<NetWithPortRange>)
    requires Sound(s) && NoCandidate(s)
    ensures NeighboursSuffice(s) <==> !MissesMerge(s)
  {
    hide Sound, Mergeable, Candidate;
    assert forall c :: !IsCandidate(s, |s|, c);
  }

  /** Out of order, a merge can be missed: 192.0.0.0, 64.0.0.0, 128.0.0.0. No entry shares a
      bit with the next one, but the first and the last could merge. */
  lemma UnorderedInputMissesMerge()
    ensures exists s :: Parsed(s) && MissesMerge(s)
  {
    hide Sound, Mergeable, Candidate, Merge, IsUnspecified, Address;
    var a, y := Entry(Address([true, true], 32), 32), Entry(Address([false, true], 32), 32);
    var b := Entry(Address([true], 32), 32);
    var s := [a, y, b];
    FirstBit([true, true], 32);
    FirstBit([false, true], 32);
    FirstBit([true], 32);
    NoCommonFirstBit(a.net, y.net);
    NoCommonFirstBit(y.net, b.net);
    assert Address([true, true], 32)[..2][1] != Address([true], 32)[1];
    assert a.net.ip != b.net.ip;
    ApartInMiddle(s);
    assert Parsed(s) && MissesMerge(s);
  }

  lemma FirstBit(start: Bits, width: nat)
    requires 0 < |start| <= width
    ensures Address(start, width)[0] == start[0]
  {
  }

  /** Three hosts, the middle one sharing nothing with the others. */
  lemma ApartInMiddle(s: seq<NetWithPortRange>)
    requires |s| == 3 && (forall n :: n in s ==> n.net.ones == |n.net.ip| && n.ports == PortRange(80, 80))
    requires IsUnspecified(Merge(s[0].net, s[1].net).ip) && IsUnspecified(Merge(s[1].net, s[2].net).ip)
    requires |s[0].net.ip| == |s[2].net.ip| > 0 && s[0].net.ip[0] && s[2].net.ip[0] && s[0] != s[2]
    ensures MissesMerge(s)
  {
    hide Sound, Mergeable, Candidate, Merge, IsUnspecified;
    assert s[0] in s && s[1] in s && s[2] in s;
    CanMerge(s, s[0], s[2]);
    HostsAreSound(s);
    NothingQueued(s);
  }

  /** Sorting is not enough when families mix: a000:: between 128.0.0.0 and 192.0.0.0 keeps
      them from being neighbours. */
  lemma MixedFamiliesMissMerge()
    ensures exists s :: Parsed(s) && MissesMerge(s) && Sorted(s, CompareNets)
  {
    hide Sound, Mergeable, Candidate, Merge, IsUnspecified, Address;
    var a, y := Entry(Address([true], 32), 32), Entry(Address([true, false, true], 128), 128);
    var b := Entry(Address([true, true], 32), 32);
    var s := [a, y, b];
    MergeOfFamilies(a.net, y.net);
    MergeOfFamilies(y.net, b.net);
    FirstBit([true], 32);
    FirstBit([true, true], 32);
    InOrder(a, y, b);
    ApartInMiddle(s);
    assert Parsed(s) && MissesMerge(s) && Sorted(s, CompareNets);
  }

  lemma MergeOfFamilies(a: Net, b: Net)
    requires |a.ip| != |b.ip|
    ensures IsUnspecified(Merge(a, b).ip)
  {
  }

  lemma InOrder(a: NetWithPortRange, y: NetWithPortRange, b: NetWithPortRange)
    requires a == Entry(Address([true], 32), 32) && y == Entry(Address([true, false, true], 128), 128)
    requires b == Entry(Address([true, true], 32), 32)
    ensures Sorted([a, y, b], CompareNets) && a != b
  {
    var p, q, r := a.net.ip, y.net.ip, b.net.ip;
    assert q[..3][0] && !q[..3][1] && q[..3][2];
    assert r[..2][0] && r[..2][1];
    FirstDifferingBit(p, q, 2);
    FirstDifferingBit(q, r, 1);
    FirstDifferingBit(p, r, 1);
  }

  lemma NothingQueued(s: seq<NetWithPortRange>)
    requires |s| == 3 && s[0].ports == s[1].ports == s[2].ports
    requires IsUnspecified(Merge(s[0].net, s[1].net).ip) && IsUnspecified(Merge(s[1].net, s[2].net).ip)
    ensures NoCandidate(s)
  {
  }

  lemma HostsAreSound(s: seq<NetWithPortRange>)
    requires forall n :: n in s ==> n.net.ones == |n.net.ip| && n.ports == PortRange(80, 80)
    ensures Sound(s)
  {
    FlatIsSound(s);
  }

  lemma CanMerge(s: seq<NetWithPortRange>, a: NetWithPortRange, b: NetWithPortRange)
    requires a in s && b in s && a != b && a.ports == b.ports && a.net.ones > 0 && b.net.ones > 0
    requires |a.net.ip| == |b.net.ip| && a.net.ip[0] && b.net.ip[0]
    ensures Mergeable(s, a, b)
  {
    assert a.net.ip[..1] == [true] == b.net.ip[..1];
    MergeAtLeast(a.net, b.net, 1);
    var m := Merge(a.net, b.net);
    assert m.ip[..m.ones][0] == a.net.ip[..m.ones][0];
    TwoMembers(s, a, b);
  }

  /** The candidate a first round takes, whatever the order of the queue. */
  ghost predicate QueuedLongest(s: seq<NetWithPortRange>, c: NetWithPortRange) {
    && IsCandidate(s, |s|, c)
    && (forall d :: IsCandidate(s, |s|, d) && d != c ==> d.net.ones < c.net.ones)
  }

  /** The first round leaves one entry, which does not match `e`. With a limit of one or two
      of the three entries, that is the result. */
  ghost predicate RoundLoses(s: seq<NetWithPortRange>, c: NetWithPortRange, e: Endpoint) {
    && |s| == 3 && QueuedLongest(s, c) && RoundBy(s, c, 0, [c])
    && Matched(s, e) && !Matched([c], e)
  }

  /** With one net inside another, a round can delete the wider one for its base address:
      128.0.0.0/1 goes when the merge 128.0.0.0/2 of 128.0.0.0/3 and 160.0.0.0/3 is taken. */
  lemma NestedInputLosesEndpoints()
    ensures exists s, c, e :: Parsed(s) && !Sound(s) && RoundLoses(s, c, e)
  {
    hide Candidate, DeleteFunc, Merge, QueuedLongest, Matched, Sound, Address;
    var low, high := Address([true], 32), Address([true, false, true], 32);
    var w, a, b := Entry(low, 1), Entry(low, 3), Entry(high, 3);
    var s, c, e := [w, a, b], a.Merge(b), Endpoint(Address([true, true], 32), 80);
    MergeHasTwoBits(a.net, b.net);
    assert c == Entry(low, 2);
    FirstBit([true], 32);
    MiddleMergesLongest(s);
    NestedFacts(s, c, e);
    assert Parsed(s);
    assert RoundLoses(s, c, e);
  }

  lemma NestedFacts(s: seq<NetWithPortRange>, c: NetWithPortRange, e: Endpoint)
    requires s == [Entry(Address([true], 32), 1), Entry(Address([true], 32), 3), Entry(Address([true, false, true], 32), 3)]
    requires c == Entry(Address([true], 32), 2) && e == Endpoint(Address([true, true], 32), 80)
    requires c == s[1].Merge(s[2])
    ensures !Sound(s) && Matched(s, e) && !Matched([c], e) && RoundBy(s, c, 0, [c])
  {
    var w, a := s[0], s[1];
    assert e.address[..1] == [true] == w.net.ip[..1] == a.net.ip[..1];
    assert w in s && a in s && s[2] in s;
    assert IsMerge(c, a, s[2]) && JoinOfTwo(s, c);
    assert c.net.ip[..2] == [true, false] == s[2].net.ip[..2];
    AllAbsorbed(s, c);
    assert !c.Matches(e) by { assert e.address[..2][1] != c.net.ip[..2][1]; }
  }

  /** One net inside another does no harm when no join has the wider one's base under a longer
      mask: 128.0.0.0/1 with 192.0.0.0/2. */
  lemma NestedCanBeSound()
    ensures exists s :: Parsed(s) && !Flat(s) && Sound(s)
  {
    hide Flat, Sound;
    var w, x := Entry(Address([true], 32), 1), Entry(Address([true, true], 32), 2);
    NestedIsSound(w, x);
    assert Parsed([w, x]);
  }

  lemma NestedIsSound(w: NetWithPortRange, x: NetWithPortRange)
    requires w == Entry(Address([true], 32), 1) && x == Entry(Address([true, true], 32), 2)
    ensures !Flat([w, x]) && Sound([w, x])
  {
    var s := [w, x];
    assert x.net.ip[..1] == x.net.ip[..2][..1] == [true] == w.net.ip[..1];
    assert w in s && x in s && StrictlyWider(w, x);
    assert x.net.ip[..2][1] && !w.net.ip[..2][1];
    forall c, n | JoinOfTwo(s, c) && n in s
      ensures !Hides(c, n)
    {
      var a, b :| a in s && b in s && IsMerge(c, a, b);
      MergeIsJoin(a.net, b.net);
      MergeIdempotent(x.net);
    }
  }

  lemma MiddleMergesLongest(s: seq<NetWithPortRange>)
    requires |s| == 3 && s[0].ports == s[1].ports == s[2].ports && |s[0].net.ip| == |s[1].net.ip|
    requires s[0].net.ones < Merge(s[1].net, s[2].net).ones && !IsUnspecified(Merge(s[1].net, s[2].net).ip)
    ensures QueuedLongest(s, s[1].Merge(s[2]))
  {
    assert Candidate(s, 1) == Some(s[1].Merge(s[2])) && Candidate(s, 2) == None;
  }

  lemma MergeHasTwoBits(a: Net, b: Net)
    requires a == Net(Address([true], 32), 3) && b == Net(Address([true, false, true], 32), 3)
    ensures Merge(a, b) == Net(a.ip, 2)
  {
    assert b.ip[..3] == [true, false, true];
    assert a.ip[..2] == [true, false] == b.ip[..3][..2] == b.ip[..2];
    MergeAtLeast(a, b, 2);
    assert a.ip[..3][2] != b.ip[..3][2];
    var m := Merge(a, b);
    assert m.ip[..2] == a.ip[..2];
    assert forall i :: 0 <= i < 32 ==> m.ip[i] == a.ip[i];
    assert m.ip == a.ip;
  }

  lemma {:induction false} AllAbsorbed(s: seq<NetWithPortRange>, c: NetWithPortRange)
    requires forall n :: n in s ==> c.Contains(n)
    ensures DeleteFunc(s, AbsorbedBy(c)) == []
  {
    if s != [] { AllAbsorbed(s[..|s|-1], c); }
  }
}
