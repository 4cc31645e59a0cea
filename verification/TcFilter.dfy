/** Compiling a filter into prioritised u32 rules, and what the kernel makes of them. */
module TcFilter {
  import opened Cidr
  import opened Endpoints
  import opened Filters
  import opened PortMask
  import opened Slices

  /** A packet, seen as its two endpoints. */
  datatype Packet = Packet(src: Endpoint, dst: Endpoint)

  /** The classes 1:1 and 1:3 of the root qdisc. */
  datatype Flow = ExcludeClass | IncludeClass

  /** `match ip src NET match ip sport VALUE MASK`, or the same with dst and dport. */
  datatype Matcher = Matcher(isSrc: bool, net: Net, port: Block) {
    predicate Matches(p: Packet) {
      var e := if isSrc then p.src else p.dst;
      InNet(net, e.address) && port.Matches(e.port)
    }
  }

  datatype Rule = Rule(prio: nat, matcher: Matcher, flow: Flow)

  lemma PortWidth()
    ensures Pow2(16) == 0x1_0000
  {
    assert Pow2(4) == 16;
    assert Pow2(8) == 256;
    assert Pow2(12) == 4096;
  }

  function PortMasks(r: PortRange): seq<Block> {
    PortWidth();
    Masks(16, r.from, r.to)
  }

  function MatchersFor(net: Net, masks: seq<Block>): (ms: seq<Matcher>)
    ensures |ms| == 2 * |masks|
  {
    if masks == [] then [] else
      var last := masks[|masks|-1];
      MatchersFor(net, masks[..|masks|-1]) + [Matcher(true, net, last), Matcher(false, net, last)]
  }

  function Matchers(n: NetWithPortRange): seq<Matcher> {
    MatchersFor(n.net, PortMasks(n.ports))
  }

  function AllMatchers(s: seq<NetWithPortRange>): seq<Matcher> {
    if s == [] then [] else AllMatchers(s[..|s|-1]) + Matchers(s[|s|-1])
  }

  function Numbered(ms: seq<Matcher>, flow: Flow, prio: nat): (rules: seq<Rule>)
    ensures |rules| == |ms|
  {
    seq(|ms|, i requires 0 <= i < |ms| => Rule(prio + 1 + i, ms[i], flow))
  }

  /** The rules of a filter: excludes first. */
  function FilterRules(f: Filter): seq<Rule> {
    Numbered(AllMatchers(f.excluded), ExcludeClass, 0)
    + Numbered(AllMatchers(f.included), IncludeClass, |AllMatchers(f.excluded)|)
  }

  // The generators

  method GetMatchers(nwp: NetWithPortRange) returns (matchers: seq<Matcher>)
    ensures matchers == Matchers(nwp)
  {
    PortWidth();
    var masks := GetMask(16, nwp.ports.from, nwp.ports.to);
    matchers := [];
    for i := 0 to |masks|
      invariant matchers == MatchersFor(nwp.net, masks[..i])
    {
      matchers := matchers + [Matcher(true, nwp.net, masks[i])];
      matchers := matchers + [Matcher(false, nwp.net, masks[i])];
      assert masks[..i+1][..i] == masks[..i];
    }
    assert masks[..|masks|] == masks;
  }

  lemma NumberedNext(ms: seq<Matcher>, m: Matcher, flow: Flow, prio: nat)
    ensures Numbered(ms + [m], flow, prio) == Numbered(ms, flow, prio) + [Rule(prio + 1 + |ms|, m, flow)]
  {
  }

  lemma AllMatchersNext(s: seq<NetWithPortRange>, i: nat)
    requires i < |s|
    ensures AllMatchers(s[..i+1]) == AllMatchers(s[..i]) + Matchers(s[i])
  {
    assert s[..i+1][..i] == s[..i];
  }

  method TcCommandsForNets(nwps: seq<NetWithPortRange>, flow: Flow, start: nat) returns (cmds: seq<Rule>)
    ensures cmds == Numbered(AllMatchers(nwps), flow, start)
  {
    hide Numbered, Matchers;
    cmds := [];
    var prio := start;
    assert Numbered([], flow, start) == [];
    for i := 0 to |nwps|
      invariant cmds == Numbered(AllMatchers(nwps[..i]), flow, start) && prio == start + |cmds|
    {
      var matchers := GetMatchers(nwps[i]);
      ghost var before := AllMatchers(nwps[..i]);
      assert before + matchers[..0] == before;
      for j := 0 to |matchers|
        invariant cmds == Numbered(before + matchers[..j], flow, start) && prio == start + |cmds|
      {
        prio := prio + 1;
        cmds := cmds + [Rule(prio, matchers[j], flow)];
        NumberedNext(before + matchers[..j], matchers[j], flow, start);
        assert before + matchers[..j+1] == before + matchers[..j] + [matchers[j]];
      }
      assert matchers[..|matchers|] == matchers;
      AllMatchersNext(nwps, i);
    }
    assert nwps[..|nwps|] == nwps;
  }

  method TcCommandsForFilter(f: Filter) returns (cmds: seq<Rule>)
    ensures cmds == FilterRules(f)
  {
    cmds := TcCommandsForNets(f.excluded, ExcludeClass, 0);
    var rest := TcCommandsForNets(f.included, IncludeClass, |cmds|);
    cmds := cmds + rest;
  }

  // What the kernel makes of the rules

  /** The matching rule of lowest priority decides. */
  ghost predicate Decides(rules: seq<Rule>, p: Packet, r: Rule) {
    r in rules && r.matcher.Matches(p) && forall q :: q in rules && q.matcher.Matches(p) ==> r.prio <= q.prio
  }

  ghost predicate SentTo(rules: seq<Rule>, p: Packet, flow: Flow) {
    exists r :: Decides(rules, p, r) && r.flow == flow
  }

  /** Some entry matches one of the packet's endpoints. */
  ghost predicate Touches(s: seq<NetWithPortRange>, p: Packet) {
    Matched(s, p.src) || Matched(s, p.dst)
  }

  /** The packets an encoding of the filter is meant to select. */
  ghost predicate Affected(f: Filter, p: Packet) {
    Touches(f.included, p) && !Touches(f.excluded, p)
  }

  /** Ports 0 and 65535 are outside every parsed range, but the any-port rule takes them. */
  ghost predicate OrdinaryPorts(p: Packet) {
    1 <= p.src.port <= 65534 && 1 <= p.dst.port <= 65534
  }

  ghost predicate AnyMatch(ms: seq<Matcher>, p: Packet) {
    exists m :: m in ms && m.Matches(p)
  }

  lemma {:induction false} HitsSome(masks: seq<Block>, port: nat)
    ensures Hits(masks, port) > 0 <==> exists b :: b in masks && b.Matches(port)
  {
    if masks != [] {
      HitsSome(masks[1..], port);
      assert masks == [masks[0]] + masks[1..];
    }
  }

  lemma MasksSelectRange(r: PortRange, port: Port)
    requires 1 <= r.from <= r.to <= 65534 && 1 <= port <= 65534
    ensures (exists b :: b in PortMasks(r) && b.Matches(port)) <==> r.Contains(port)
  {
    PortWidth();
    HitsSome(PortMasks(r), port);
    if r.from == 1 && r.to == 65534 {
      assert Block(0, 0) in PortMasks(r) && Block(0, 0).Matches(port);
    } else {
      MasksPartitionRange(16, r.from, r.to);
    }
  }

  lemma {:induction false} MatchersForMembers(net: Net, masks: seq<Block>)
    ensures forall m :: m in MatchersFor(net, masks) <==> m.net == net && m.port in masks
  {
    if masks != [] {
      MatchersForMembers(net, masks[..|masks|-1]);
      assert masks == masks[..|masks|-1] + [masks[|masks|-1]];
      forall m
        ensures m in MatchersFor(net, masks) <==> m.net == net && m.port in masks
      {
        if m.net == net && m.port == masks[|masks|-1] {
          assert m == Matcher(m.isSrc, net, masks[|masks|-1]);
        }
      }
    }
  }

  lemma EntryMatchersMeanEntry(n: NetWithPortRange, p: Packet)
    requires Valid(n) && OrdinaryPorts(p)
    ensures AnyMatch(Matchers(n), p) <==> n.Matches(p.src) || n.Matches(p.dst)
  {
    MatchersForMembers(n.net, PortMasks(n.ports));
    MasksSelectRange(n.ports, p.src.port);
    MasksSelectRange(n.ports, p.dst.port);
    if b :| b in PortMasks(n.ports) && b.Matches(p.src.port) && n.Matches(p.src) {
      assert Matcher(true, n.net, b) in Matchers(n) && Matcher(true, n.net, b).Matches(p);
    } else if b :| b in PortMasks(n.ports) && b.Matches(p.dst.port) && n.Matches(p.dst) {
      assert Matcher(false, n.net, b) in Matchers(n) && Matcher(false, n.net, b).Matches(p);
    }
  }

  lemma {:induction false} MatchersMeanEntries(s: seq<NetWithPortRange>, p: Packet)
    requires AllValid(s) && OrdinaryPorts(p)
    ensures AnyMatch(AllMatchers(s), p) <==> Touches(s, p)
  {
    if s != [] {
      var rest, last := s[..|s|-1], s[|s|-1];
      MatchersMeanEntries(rest, p);
      EntryMatchersMeanEntry(last, p);
      assert s == rest + [last];
      assert forall m :: m in AllMatchers(s) <==> m in AllMatchers(rest) || m in Matchers(last);
      assert Touches(s, p) <==> Touches(rest, p) || last.Matches(p.src) || last.Matches(p.dst) by {
        assert forall n :: n in s <==> n in rest || n == last;
      }
    }
  }

  /** Priorities are 1..N in order, and every exclude comes before every include. */
  lemma RulesArePrioritised(f: Filter)
    ensures var rules := FilterRules(f);
      && (forall i :: 0 <= i < |rules| ==> rules[i].prio == i + 1)
      && (forall r, q :: r in rules && q in rules && r.flow == ExcludeClass && q.flow == IncludeClass ==> r.prio < q.prio)
  {
  }

  lemma {:induction false} FirstMatch(ms: seq<Matcher>, p: Packet) returns (i: nat)
    requires AnyMatch(ms, p)
    ensures i < |ms| && ms[i].Matches(p) && forall k :: 0 <= k < i ==> !ms[k].Matches(p)
  {
    i := 0;
    while !ms[i].Matches(p)
      invariant i < |ms| && forall k :: 0 <= k < i ==> !ms[k].Matches(p)
      decreases |ms| - i
    {
      if i + 1 == |ms| {
        var m :| m in ms && m.Matches(p);
        var k :| 0 <= k < |ms| && ms[k] == m;
      }
      i := i + 1;
    }
  }

  lemma RulesFollowMatchers(f: Filter, p: Packet)
    ensures SentTo(FilterRules(f), p, ExcludeClass) <==> AnyMatch(AllMatchers(f.excluded), p)
    ensures SentTo(FilterRules(f), p, IncludeClass)
       <==> AnyMatch(AllMatchers(f.included), p) && !AnyMatch(AllMatchers(f.excluded), p)
  {
    var excludes, includes, rules := AllMatchers(f.excluded), AllMatchers(f.included), FilterRules(f);
    forall i | 0 <= i < |rules|
      ensures rules[i].matcher == if i < |excludes| then excludes[i] else includes[i - |excludes|]
      ensures rules[i].flow == if i < |excludes| then ExcludeClass else IncludeClass
      ensures rules[i].prio == i + 1
    {
    }
    if AnyMatch(excludes, p) {
      var i := FirstMatch(excludes, p);
      assert Decides(rules, p, rules[i]);
    } else if AnyMatch(includes, p) {
      var i := FirstMatch(includes, p);
      assert Decides(rules, p, rules[|excludes| + i]);
    }
  }

  /** The compiled rules select exactly the packets the filter is meant to affect. */
  lemma TcFilterIsCorrect(f: Filter, p: Packet)
    requires AllValid(f.included) && AllValid(f.excluded) && OrdinaryPorts(p)
    ensures SentTo(FilterRules(f), p, IncludeClass) <==> Affected(f, p)
    ensures SentTo(FilterRules(f), p, ExcludeClass) <==> Touches(f.excluded, p)
  {
    RulesFollowMatchers(f, p);
    MatchersMeanEntries(f.included, p);
    MatchersMeanEntries(f.excluded, p);
  }

  // Different optimised filters have different rules

  lemma MatchersNameNet(n: NetWithPortRange)
    requires Valid(n)
    ensures Matchers(n) != [] && Matchers(n)[0].net == n.net
  {
    MasksSelectRange(n.ports, n.ports.from);
    MatchersForMembers(n.net, PortMasks(n.ports));
    assert Matchers(n)[0] in Matchers(n);
  }

  /** Where the matchers of entry `k` begin. */
  lemma {:induction false} MatchersOfEntry(s: seq<NetWithPortRange>, k: nat)
    requires AllValid(s) && k < |s|
    ensures var i := |AllMatchers(s[..k])|;
      i < |AllMatchers(s)| && AllMatchers(s)[i].net == s[k].net
  {
    hide Matchers, Valid;
    var rest, last := s[..|s|-1], s[|s|-1];
    if k < |rest| {
      MatchersOfEntry(rest, k);
      assert rest[..k] == s[..k];
    } else {
      MatchersNameNet(last);
    }
  }

  lemma DifferentResultsDifferentMatchers(out: seq<NetWithPortRange>, other: seq<NetWithPortRange>, s: seq<NetWithPortRange>)
    requires AllValid(s) && KeepsMaximal(out, s) && KeepsMaximal(other, s) && out != other
    ensures AllMatchers(out) != AllMatchers(other)
  {
    hide AllMatchers;
    var k := ResultsDifferInTie(out, other, s);
    MatchersOfEntry(out, k);
    MatchersOfEntry(other, k);
  }

  lemma RulesDetermineMatchers(g: Filter, h: Filter)
    requires FilterRules(g) == FilterRules(h)
    ensures AllMatchers(g.excluded) == AllMatchers(h.excluded) && AllMatchers(g.included) == AllMatchers(h.included)
  {
    hide AllMatchers;
    FewerExcludes(g, h);
    FewerExcludes(h, g);
    var n, rules := |AllMatchers(g.excluded)|, FilterRules(g);
    forall i | 0 <= i < n
      ensures AllMatchers(g.excluded)[i] == rules[i].matcher == AllMatchers(h.excluded)[i]
    {
    }
    forall i | 0 <= i < |AllMatchers(g.included)|
      ensures AllMatchers(g.included)[i] == rules[n + i].matcher == AllMatchers(h.included)[i]
    {
    }
  }

  lemma FewerExcludes(g: Filter, h: Filter)
    requires FilterRules(g) == FilterRules(h)
    ensures |AllMatchers(g.excluded)| <= |AllMatchers(h.excluded)|
  {
    hide AllMatchers;
    var n, rules := |AllMatchers(h.excluded)|, FilterRules(h);
    assert forall i :: 0 <= i < |AllMatchers(g.excluded)| ==> FilterRules(g)[i].flow == ExcludeClass;
    assert n < |rules| ==> rules[n].flow == IncludeClass;
  }

  /** Two forms that one filter may optimise to are compiled to the same rules only if they
      are the same. */
  lemma DifferentFormsDifferentRules(f: Filter, g: Filter, h: Filter)
    requires ValidFilter(f) && OptimizesTo(f, g) && OptimizesTo(f, h) && g != h
    ensures FilterRules(g) != FilterRules(h)
  {
    hide Deduplicated, KeepsMaximal, AllMatchers, FilterRules, Unneeded;
    DeduplicatedSelects(g.included, f.included);
    DeduplicatedSelects(h.included, f.included);
    DeduplicatedSelects(g.excluded, Needed(f.excluded, g.included));
    DeduplicatedSelects(h.excluded, Needed(f.excluded, h.included));
    if g.included != h.included {
      DifferentResultsDifferentMatchers(g.included, h.included, f.included);
    } else {
      DifferentResultsDifferentMatchers(g.excluded, h.excluded, Needed(f.excluded, g.included));
    }
    if FilterRules(g) == FilterRules(h) { RulesDetermineMatchers(g, h); }
  }

  // The optimised filter against the given one

  /** Some exclude that overlaps an include touches the packet. */
  ghost predicate NeededExcludeTouches(f: Filter, p: Packet) {
    exists n :: n in f.excluded && OverlapsSome(f.included, n) && (n.Matches(p.src) || n.Matches(p.dst))
  }

  lemma OptimizedExcludesTouch(f: Filter, g: Filter, p: Packet)
    requires SafeFilter(f) && OptimizesTo(f, g)
    ensures Touches(g.included, p) <==> Touches(f.included, p)
    ensures Touches(g.excluded, p) <==> NeededExcludeTouches(f, p)
  {
    OptimizedKeepsNeededExcludes(f, g, p.src);
    OptimizedKeepsNeededExcludes(f, g, p.dst);
  }

  /** The compiled optimised filter agrees with the given filter on a packet, except
      exactly when an include and an exclude touch the packet and no exclude touching it
      overlaps an include. */
  lemma CompiledAgreesWithGivenFilter(f: Filter, g: Filter, p: Packet)
    requires SafeFilter(f) && OptimizesTo(f, g) && OrdinaryPorts(p)
    ensures (SentTo(FilterRules(g), p, IncludeClass) <==> Affected(f, p))
       <==> !(Touches(f.included, p) && Touches(f.excluded, p) && !NeededExcludeTouches(f, p))
  {
    hide SafeCover, OptimizesTo, SentTo, NeededExcludeTouches;
    OptimizedSelects(f, g);
    TcFilterIsCorrect(g, p);
    OptimizedExcludesTouch(f, g, p);
  }

  /** With only one endpoint known to the filter, the compiled rules follow its meaning there. */
  lemma CompiledFollowsOneEndpoint(f: Filter, g: Filter, p: Packet, known: Endpoint, other: Endpoint)
    requires SafeFilter(f) && OptimizesTo(f, g) && OrdinaryPorts(p)
    requires p == Packet(known, other) || p == Packet(other, known)
    requires !Matched(f.included, other) && !Matched(f.excluded, other)
    ensures SentTo(FilterRules(g), p, IncludeClass) <==> Selected(f, known)
  {
    CompiledAgreesWithGivenFilter(f, g, p);
    OptimizedExcludesTouch(f, g, p);
    OptimizedKeepsNeededExcludes(f, g, known);
    OptimizedKeepsNeededExcludes(f, g, other);
  }

  ghost predicate SelectsTooMuch(f: Filter, g: Filter, p: Packet) {
    OptimizesTo(f, g) && OrdinaryPorts(p) && SentTo(FilterRules(g), p, IncludeClass) && !Affected(f, p)
  }

  /** With both endpoints known the two can differ: one in an include, the other in an
      exclude that overlaps no include. */
  lemma DroppedExcludeCanChangePacket()
    ensures exists f: Filter, g, p :: Parsed(f.included + f.excluded) && WellFormed(f) && SelectsTooMuch(f, g, p)
  {
    hide WellFormed, SelectsTooMuch, Valid, NetWithPortRange.Matches, NetWithPortRange.Overlap;
    var here, there, p := TwoHosts();
    var f, g := Filter([here], [there]), Filter([here], []);
    ExcludeIsDropped(f, g, here, there, p);
    assert Parsed(f.included + f.excluded);
  }

  /** 128.0.0.0/32 and 0.0.0.0/32, and a packet between them. */
  lemma TwoHosts() returns (here: NetWithPortRange, there: NetWithPortRange, p: Packet)
    ensures Valid(here) && Valid(there) && !here.Overlap(there) && |here.net.ip| == |there.net.ip| == 32
    ensures here.Matches(p.src) && there.Matches(p.dst) && OrdinaryPorts(p)
  {
    var a, b := [true] + seq(31, _ => false), seq(32, _ => false);
    here := NetWithPortRange(Net(a, 32), PortRange(80, 80));
    there := NetWithPortRange(Net(b, 32), PortRange(80, 80));
    p := Packet(Endpoint(a, 80), Endpoint(b, 80));
    assert a[..32][0] != b[..32][0];
  }

  lemma ExcludeIsDropped(f: Filter, g: Filter, here: NetWithPortRange, there: NetWithPortRange, p: Packet)
    requires Valid(here) && Valid(there) && !here.Overlap(there)
    requires f == Filter([here], [there]) && g == Filter([here], [])
    requires here.Matches(p.src) && there.Matches(p.dst) && OrdinaryPorts(p)
    ensures WellFormed(f) && SelectsTooMuch(f, g, p)
  {
    hide WellFormed, SafeFilter, OptimizesTo, FilterRules, SentTo, Valid, NetWithPortRange.Matches,
      NetWithPortRange.Overlap, OverlapsSome;
    HostsApart(f, g, here, there);
    WellFormedIsSafe(f);
    assert here in f.included && there in f.excluded;
    CompiledAgreesWithGivenFilter(f, g, p);
  }

  lemma HostsApart(f: Filter, g: Filter, here: NetWithPortRange, there: NetWithPortRange)
    requires Valid(here) && Valid(there) && !here.Overlap(there)
    requires f == Filter([here], [there]) && g == Filter([here], [])
    ensures WellFormed(f) && OptimizesTo(f, g) && !OverlapsSome(f.included, there)
  {
    assert Unneeded([here])(there);
    assert Needed([there], [here]) == [];
    assert [here][..0] == [] && FoldAll([]) == [] && FoldAll([here]) == [here];
    assert IsSortOf([here], [here]) && IsSortOf([], []);
  }
}
