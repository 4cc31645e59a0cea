/** What the delay attack's batches do to the qdiscs and filters of the interfaces. */
module TcKernel {
  import opened Slices
  import opened Endpoints
  import opened Filters
  import opened TcFilter
  import opened DelayCommands
  import Iptables

  // An interface and the commands

  /** No root qdisc, one that was there or that the kernel attached, or the attack's prio. */
  datatype Root = NoRoot | OtherRoot | PrioRoot

  datatype LinkFilter =
    | U32(rule: Rule)
    | Fw(ipv6: bool, prio: nat, mark: nat, flow: Flow)
  {
    function Prio(): nat { if U32? then rule.prio else prio }

    function Target(): Flow { if U32? then rule.flow else flow }

    predicate Matches(p: Iptables.Tcp, m: nat) {
      match this
      case U32(r) => r.matcher.Matches(p.ends)
      case Fw(v6, _, wanted, _) => v6 == (Iptables.Family(p) == 128) && m == wanted
    }
  }

  /** Under the attack's root: the classes that carry a netem qdisc, and the filters. */
  datatype Link = Link(root: Root, netem: set<Flow>, filters: set<LinkFilter>)

  function Bare(root: Root): Link { Link(root, {}, {}) }

  function FilterOf(c: Command): LinkFilter
    requires c.FwFilter? || c.U32Filter?
  {
    if c.U32Filter? then U32(c.rule) else Fw(c.ipv6, c.prio, c.mark, c.flow)
  }

  /** One command on its interface; None when tc reports an error. Only `replace` puts a root in
      the place of another; qdiscs and filters need the attack's root, and none of them exists
      twice. */
  function Exec(c: Command, l: Link): Option<Link> {
    match c
    case RootQdisc(VerbReplace, _) => Some(if l.root == PrioRoot then l else Bare(PrioRoot))
    case RootQdisc(VerbAdd, _) => if l.root == NoRoot then Some(Bare(PrioRoot)) else None
    case RootQdisc(VerbDel, _) => if l.root == PrioRoot then Some(Bare(NoRoot)) else None
    case NetemQdisc(verb, _, parent) =>
      if l.root != PrioRoot || (verb == VerbAdd && parent in l.netem) || (verb == VerbDel && parent !in l.netem) then None
      else Some(l.(netem := if verb == VerbDel then l.netem - {parent} else l.netem + {parent}))
    case _ =>
      var f := FilterOf(c);
      if l.root != PrioRoot || (c.verb == VerbAdd && f in l.filters) || (c.verb == VerbDel && f !in l.filters) then None
      else Some(l.(filters := if c.verb == VerbDel then l.filters - {f} else l.filters + {f}))
  }

  type Links = map<string, Link>

  /** The interfaces, and the commands that failed: tc goes on after an error. */
  datatype Outcome = Outcome(links: Links, failed: seq<Command>)

  function ExecOne(c: Command, s: Outcome): Outcome {
    if c.dev !in s.links then s.(failed := s.failed + [c])
    else match Exec(c, s.links[c.dev])
      case None => s.(failed := s.failed + [c])
      case Some(l) => s.(links := s.links[c.dev := l])
  }

  function ExecBatch(cmds: seq<Command>, s: Outcome): Outcome {
    if cmds == [] then s else ExecBatch(cmds[1..], ExecOne(cmds[0], s))
  }

  // What happens to a packet

  /** The matching filter of lowest priority decides. */
  ghost predicate Deciding(l: Link, p: Iptables.Tcp, mark: nat, f: LinkFilter) {
    f in l.filters && f.Matches(p, mark) && forall h :: h in l.filters && h.Matches(p, mark) ==> f.Prio() <= h.Prio()
  }

  /** The class the root sends the packet to: without a filter its priomap chooses the first. */
  ghost predicate SentToClass(l: Link, p: Iptables.Tcp, mark: nat, flow: Flow) {
    || (exists f :: Deciding(l, p, mark, f) && f.Target() == flow)
    || (flow == ExcludeClass && forall f :: !Deciding(l, p, mark, f))
  }

  /** The packet passes a netem qdisc on its way out. */
  ghost predicate Delayed(l: Link, p: Iptables.Tcp, mark: nat) {
    l.root == PrioRoot && exists flow :: flow in l.netem && SentToClass(l, p, mark, flow)
  }

  // One interface's part of the batch

  lemma {:induction false} BatchConcat(a: seq<Command>, b: seq<Command>, s: Outcome)
    ensures ExecBatch(a + b, s) == ExecBatch(b, ExecBatch(a, s))
  {
    if a == [] {
      assert a + b == b;
    } else {
      assert (a + b)[1..] == a[1..] + b;
      BatchConcat(a[1..], b, ExecOne(a[0], s));
    }
  }

  function FiltersOf(rules: seq<Rule>): set<LinkFilter> { set r | r in rules :: U32(r) }

  /** The filters of an applied interface. */
  function AppliedFilters(g: Filter, pshOnly: bool): set<LinkFilter> {
    if pshOnly then {Fw(false, 1, Iptables.DELAY_MARK, IncludeClass), Fw(true, 2, Iptables.DELAY_MARK, IncludeClass)}
    else FiltersOf(FilterRules(g))
  }

  function Applied(g: Filter, pshOnly: bool): Link { Link(PrioRoot, {IncludeClass}, AppliedFilters(g, pshOnly)) }

  lemma FiltersNext(rules: seq<Rule>, n: nat)
    requires n < |rules|
    ensures FiltersOf(rules[..n+1]) == FiltersOf(rules[..n]) + {U32(rules[n])}
  {
    assert rules[..n+1] == rules[..n] + [rules[n]];
  }

  /** Adding the rules one by one to an interface with the attack's root. */
  lemma {:induction false} RulesAdded(g: Filter, n: nat, dev: string, s: Outcome)
    requires n <= |FilterRules(g)| && dev in s.links && s.links[dev].root == PrioRoot
    ensures var r := ExecBatch(FilterCommands(ModeAdd, FilterRules(g)[..n], dev), s);
      && r.links == s.links[dev := s.links[dev].(filters := s.links[dev].filters + FiltersOf(FilterRules(g)[..n]))]
      && (s.links[dev].filters == {} ==> r.failed == s.failed)
  {
    var rules := FilterRules(g);
    hide FilterRules;
    if n == 0 {
      assert FiltersOf(rules[..0]) == {} && s.links[dev].filters + {} == s.links[dev].filters;
      assert s.links[dev := s.links[dev]] == s.links;
    } else {
      RulesAdded(g, n - 1, dev, s);
      AddedBefore(ModeAdd, rules, n - 1, dev);
      BatchConcat(FilterCommands(ModeAdd, rules[..n-1], dev), [U32Filter(VerbAdd, dev, rules[n-1])], s);
      FiltersNext(rules, n - 1);
      var before := ExecBatch(FilterCommands(ModeAdd, rules[..n-1], dev), s);
      OneCommand(U32Filter(VerbAdd, dev, rules[n-1]), before);
      NotYetAdded(g, n - 1);
      AddOne(s.links, before.links, dev, U32(rules[n-1]), FiltersOf(rules[..n-1]));
    }
  }

  lemma AddedBefore(mode: Mode, rules: seq<Rule>, n: nat, dev: string)
    requires n < |rules|
    ensures FilterCommands(mode, rules[..n+1], dev)
         == FilterCommands(mode, rules[..n], dev) + [U32Filter(ModeVerb(mode), dev, rules[n])]
  {
  }

  lemma OneCommand(c: Command, s: Outcome)
    ensures ExecBatch([c], s) == ExecOne(c, s)
  {
    assert [c][1..] == [];
  }

  lemma NotYetAdded(g: Filter, n: nat)
    requires n < |FilterRules(g)|
    ensures U32(FilterRules(g)[n]) !in FiltersOf(FilterRules(g)[..n])
  {
    var rules := FilterRules(g);
    RulesArePrioritised(g);
    hide FilterRules;
    assert forall i :: 0 <= i < n ==> rules[..n][i] == rules[i];
  }

  lemma AddOne(given: Links, before: Links, dev: string, f: LinkFilter, added: set<LinkFilter>)
    requires dev in given && before == given[dev := given[dev].(filters := given[dev].filters + added)]
    ensures before[dev := before[dev].(filters := before[dev].filters + {f})]
         == given[dev := given[dev].(filters := given[dev].filters + (added + {f}))]
    ensures f in before[dev].filters ==>
      given[dev := given[dev].(filters := given[dev].filters + (added + {f}))] == before
  {
    assert before[dev].filters + {f} == given[dev].filters + (added + {f});
    if f in before[dev].filters { assert before[dev].filters + {f} == before[dev].filters; }
  }

  lemma TwoCommands(a: Command, b: Command, s: Outcome)
    ensures ExecBatch([a, b], s) == ExecOne(b, ExecOne(a, s))
  {
    assert [a, b][1..] == [b];
    OneCommand(b, ExecOne(a, s));
  }

  lemma PshFiltersAdded(dev: string, s: Outcome)
    requires dev in s.links && s.links[dev].root == PrioRoot
    ensures var a, b := FwFilter(VerbAdd, dev, false, 1, Iptables.DELAY_MARK, IncludeClass),
                        FwFilter(VerbAdd, dev, true, 2, Iptables.DELAY_MARK, IncludeClass);
      var r, fs := ExecBatch([a, b], s), {FilterOf(a), FilterOf(b)};
      && r.links == s.links[dev := s.links[dev].(filters := s.links[dev].filters + fs)]
      && (s.links[dev].filters == {} ==> r.failed == s.failed)
  {
    var a, b := FwFilter(VerbAdd, dev, false, 1, Iptables.DELAY_MARK, IncludeClass),
                FwFilter(VerbAdd, dev, true, 2, Iptables.DELAY_MARK, IncludeClass);
    TwoCommands(a, b, s);
    var l := s.links[dev];
    assert l.filters + {FilterOf(a)} + {FilterOf(b)} == l.filters + {FilterOf(a), FilterOf(b)};
    assert FilterOf(a) in l.filters ==> l.filters + {FilterOf(a)} == l.filters;
    assert FilterOf(b) in l.filters + {FilterOf(a)} ==> l.filters + {FilterOf(a)} + {FilterOf(b)} == l.filters + {FilterOf(a)};
    assert s.links[dev := l] == s.links;
  }

  /** The filters of one interface added to its new root. */
  lemma FiltersAdded(g: Filter, dev: string, pshOnly: bool, cmds: seq<Command>, s: Outcome)
    requires InterfaceCommands(ModeAdd, g, dev, pshOnly)
      == [RootQdisc(VerbReplace, dev), NetemQdisc(VerbAdd, dev, IncludeClass)] + cmds
    requires dev in s.links && s.links[dev].root == PrioRoot
    ensures var r := ExecBatch(cmds, s);
      && r.links == s.links[dev := s.links[dev].(filters := s.links[dev].filters + AppliedFilters(g, pshOnly))]
      && (s.links[dev].filters == {} ==> r.failed == s.failed)
  {
    assert cmds == InterfaceCommands(ModeAdd, g, dev, pshOnly)[2..];
    if pshOnly {
      PshFiltersAdded(dev, s);
    } else {
      var rules := FilterRules(g);
      assert rules[..|rules|] == rules && cmds == FilterCommands(ModeAdd, rules, dev);
      RulesAdded(g, |rules|, dev, s);
    }
  }

  /** Root, netem and filters in this order, over any root that is not the attack's. */
  lemma InterfaceApplied(g: Filter, dev: string, pshOnly: bool, s: Outcome)
    requires dev in s.links && (s.links[dev].root != PrioRoot || s.links[dev] == Applied(g, pshOnly))
    ensures var r := ExecBatch(InterfaceCommands(ModeAdd, g, dev, pshOnly), s);
      && r.links == s.links[dev := Applied(g, pshOnly)]
      && (s.links[dev].root != PrioRoot ==> r.failed == s.failed)
  {
    hide FilterRules, AppliedFilters;
    var cmds := InterfaceCommands(ModeAdd, g, dev, pshOnly);
    var root, netem := RootQdisc(VerbReplace, dev), NetemQdisc(VerbAdd, dev, IncludeClass);
    assert cmds == [root, netem] + cmds[2..];
    hide InterfaceCommands;
    BatchConcat([root, netem], cmds[2..], s);
    TwoCommands(root, netem, s);
    var u := ExecOne(netem, ExecOne(root, s));
    var fs := AppliedFilters(g, pshOnly);
    if s.links[dev].root == PrioRoot {
      assert u.links == s.links;
      assert fs + fs == fs;
    } else {
      var bare := Bare(PrioRoot);
      assert bare.netem + {IncludeClass} == {IncludeClass};
      assert ExecOne(root, s) == s.(links := s.links[dev := bare]);
      var shaped := Link(PrioRoot, {IncludeClass}, {});
      assert s.links[dev := bare][dev := shaped] == s.links[dev := shaped];
      assert u == s.(links := s.links[dev := shaped]);
      assert {} + fs == fs;
    }
    FiltersAdded(g, dev, pshOnly, cmds[2..], u);
  }

  ghost predicate NoDuplicates(devs: seq<string>) {
    forall i, j :: 0 <= i < j < |devs| ==> devs[i] != devs[j]
  }

  /** Every interface of the batch is applied, every other one left alone. */
  ghost predicate AllApplied(before: Links, after: Links, g: Filter, devs: seq<string>, pshOnly: bool) {
    && after.Keys == before.Keys
    && forall d :: d in before ==> after[d] == if d in devs then Applied(g, pshOnly) else before[d]
  }

  ghost predicate Unattacked(links: Links, devs: seq<string>) {
    forall d :: d in devs ==> d in links && links[d].root != PrioRoot
  }

  lemma OneMoreApplied(before: Links, mid: Links, g: Filter, devs: seq<string>, last: string, pshOnly: bool)
    requires AllApplied(before, mid, g, devs, pshOnly) && last in before
    ensures AllApplied(before, mid[last := Applied(g, pshOnly)], g, devs + [last], pshOnly)
    ensures before[last].root != PrioRoot ==> mid[last].root != PrioRoot || mid[last] == Applied(g, pshOnly)
    ensures last !in devs ==> mid[last] == before[last]
  {
    hide Applied;
  }

  lemma NoDuplicatesBefore(devs: seq<string>, last: string)
    requires NoDuplicates(devs + [last])
    ensures NoDuplicates(devs) && last !in devs
  {
    var all := devs + [last];
    assert forall i :: 0 <= i < |devs| ==> devs[i] == all[i] != all[|devs|];
  }

  lemma {:induction false} BatchApplied(g: Filter, devs: seq<string>, pshOnly: bool, s: Outcome)
    requires Unattacked(s.links, devs)
    ensures var r := ExecBatch(Commands(ModeAdd, g, devs, pshOnly), s);
      && AllApplied(s.links, r.links, g, devs, pshOnly)
      && (NoDuplicates(devs) ==> r.failed == s.failed)
  {
    if devs != [] {
      hide InterfaceCommands, Applied, ExecBatch, AllApplied, NoDuplicates;
      var rest, last := devs[..|devs|-1], devs[|devs|-1];
      assert devs == rest + [last];
      BatchApplied(g, rest, pshOnly, s);
      BatchConcat(Commands(ModeAdd, g, rest, pshOnly), InterfaceCommands(ModeAdd, g, last, pshOnly), s);
      var u := ExecBatch(Commands(ModeAdd, g, rest, pshOnly), s);
      OneMoreApplied(s.links, u.links, g, rest, last, pshOnly);
      KeysApplied(s.links, u.links, g, rest, pshOnly);
      InterfaceApplied(g, last, pshOnly, u);
      if NoDuplicates(devs) { NoDuplicatesBefore(rest, last); }
    }
  }

  lemma KeysApplied(before: Links, after: Links, g: Filter, devs: seq<string>, pshOnly: bool)
    requires AllApplied(before, after, g, devs, pshOnly)
    ensures after.Keys == before.Keys
  {
  }

  // What the applied interfaces do to packets

  lemma RuleDecides(g: Filter, p: Iptables.Tcp, mark: nat, r: Rule)
    ensures Deciding(Applied(g, false), p, mark, U32(r)) <==> Decides(FilterRules(g), p.ends, r)
  {
    var l := Applied(g, false);
    if Deciding(l, p, mark, U32(r)) {
      forall q | q in FilterRules(g) && q.matcher.Matches(p.ends)
        ensures r.prio <= q.prio
      {
        assert U32(q) in l.filters && U32(q).Matches(p, mark);
      }
    }
  }

  lemma AppliedSends(g: Filter, p: Iptables.Tcp, mark: nat)
    ensures SentToClass(Applied(g, false), p, mark, IncludeClass) <==> SentTo(FilterRules(g), p.ends, IncludeClass)
  {
    hide FilterRules;
    var l := Applied(g, false);
    forall r
      ensures Deciding(l, p, mark, U32(r)) <==> Decides(FilterRules(g), p.ends, r)
    {
      RuleDecides(g, p, mark, r);
    }
    if f :| Deciding(l, p, mark, f) && f.Target() == IncludeClass {
      assert f == U32(f.rule);
    }
    if r :| Decides(FilterRules(g), p.ends, r) && r.flow == IncludeClass {
      assert Deciding(l, p, mark, U32(r)) && U32(r).Target() == IncludeClass;
    }
  }

  /** With the u32 rules, exactly the affected packets are delayed. */
  lemma AppliedDelaysAffected(g: Filter, p: Iptables.Tcp, mark: nat)
    requires ValidFilter(g) && OrdinaryPorts(p.ends)
    ensures Delayed(Applied(g, false), p, mark) <==> Affected(g, p.ends)
  {
    AppliedSends(g, p, mark);
    TcFilterIsCorrect(g, p.ends);
  }

  /** With the fw filters, exactly the marked packets are. */
  lemma AppliedDelaysMarked(g: Filter, p: Iptables.Tcp, mark: nat)
    ensures Delayed(Applied(g, true), p, mark) <==> mark == Iptables.DELAY_MARK
  {
    var l := Applied(g, true);
    var v6 := Iptables.Family(p) == 128;
    var f := Fw(v6, if v6 then 2 else 1, Iptables.DELAY_MARK, IncludeClass);
    if mark == Iptables.DELAY_MARK {
      assert Deciding(l, p, mark, f) && f.Target() == IncludeClass;
    }
  }

  /** What an accepted add batch does to the packets of its interfaces: with u32 rules the
      affected ones are delayed; with PSH only, behind the iptables chain, those with PSH that
      are affected, and those that carried the mark. */
  lemma ApplyDelaysAffected(g: Filter, devs: seq<string>, pshOnly: bool, links: Links, dev: string,
                            p: Iptables.Tcp, mark: nat)
    requires ValidFilter(g) && Batch(ModeAdd, g, devs, pshOnly).Ok? && Unattacked(links, devs) && dev in devs
    requires OrdinaryPorts(p.ends) && |p.ends.src.address| == |p.ends.dst.address|
    ensures var after := ExecBatch(Batch(ModeAdd, g, devs, pshOnly).cmds, Outcome(links, []));
      var marked := Iptables.Run(Iptables.DelayChain(g, Iptables.Family(p)), p, mark).mark;
      var unmarked := Iptables.Run(Iptables.DelayChain(g, Iptables.Family(p)), p, 0).mark;
      && dev in after.links
      && (!pshOnly ==> (Delayed(after.links[dev], p, mark) <==> Affected(g, p.ends)))
      && (pshOnly ==> (Delayed(after.links[dev], p, marked)
                       <==> (p.psh && Affected(g, p.ends)) || mark == Iptables.DELAY_MARK))
      && (pshOnly ==> (Delayed(after.links[dev], p, unmarked) <==> p.psh && Affected(g, p.ends)))
  {
    hide Delayed, Affected, Commands, PerInterface, Iptables.Run, Iptables.DelayChain;
    BatchApplied(g, devs, pshOnly, Outcome(links, []));
    if pshOnly {
      MarkedBefore(g, p, mark);
      MarkedBefore(g, p, 0);
      AppliedDelaysMarked(g, p, Iptables.Run(Iptables.DelayChain(g, Iptables.Family(p)), p, mark).mark);
      AppliedDelaysMarked(g, p, Iptables.Run(Iptables.DelayChain(g, Iptables.Family(p)), p, 0).mark);
    } else {
      AppliedDelaysAffected(g, p, mark);
    }
  }

  lemma MarkedBefore(g: Filter, p: Iptables.Tcp, mark: nat)
    requires OrdinaryPorts(p.ends) && |p.ends.src.address| == |p.ends.dst.address|
    ensures Iptables.Run(Iptables.DelayChain(g, Iptables.Family(p)), p, mark).mark == Iptables.DELAY_MARK
       <==> (p.psh && Affected(g, p.ends)) || mark == Iptables.DELAY_MARK
  {
    if p.psh {
      Iptables.MarkChainMarksAffected(Iptables.DelayStyle, g, Iptables.DELAY_MARK, p, mark);
    } else {
      Iptables.DelayNeedsPsh(g, p, mark);
    }
  }

  /** An accepted add batch leaves the other interfaces alone, and no command of it fails over
      whatever roots are there, if no interface is named twice. */
  lemma ApplyFailsNowhere(g: Filter, devs: seq<string>, pshOnly: bool, links: Links)
    requires Batch(ModeAdd, g, devs, pshOnly).Ok? && Unattacked(links, devs)
    ensures var after := ExecBatch(Batch(ModeAdd, g, devs, pshOnly).cmds, Outcome(links, []));
      && after.links.Keys == links.Keys && (forall d :: d in links && d !in devs ==> after.links[d] == links[d])
      && (NoDuplicates(devs) ==> after.failed == [])
  {
    hide Commands, PerInterface;
    BatchApplied(g, devs, pshOnly, Outcome(links, []));
  }

  // Reverting

  lemma ReverseConcat<T>(a: seq<T>, b: seq<T>)
    ensures Reverse(a + b) == Reverse(b) + Reverse(a)
  {
  }

  lemma {:induction false} RulesDeleted(g: Filter, n: nat, dev: string, s: Outcome)
    requires n <= |FilterRules(g)| && dev in s.links && s.links[dev].root == PrioRoot
    requires s.links[dev].filters == FiltersOf(FilterRules(g)[..n])
    ensures ExecBatch(Reverse(FilterCommands(ModeDelete, FilterRules(g)[..n], dev)), s)
         == s.(links := s.links[dev := s.links[dev].(filters := {})])
  {
    var rules := FilterRules(g);
    hide FilterRules;
    if n == 0 {
      assert FiltersOf(rules[..0]) == {};
      assert s.links[dev := s.links[dev]] == s.links;
    } else {
      var c := U32Filter(VerbDel, dev, rules[n-1]);
      AddedBefore(ModeDelete, rules, n - 1, dev);
      ReverseConcat(FilterCommands(ModeDelete, rules[..n-1], dev), [c]);
      assert Reverse([c]) == [c];
      BatchConcat([c], Reverse(FilterCommands(ModeDelete, rules[..n-1], dev)), s);
      OneCommand(c, s);
      FiltersNext(rules, n - 1);
      NotYetAdded(g, n - 1);
      var l := s.links[dev];
      assert l.filters - {U32(rules[n-1])} == FiltersOf(rules[..n-1]);
      var u := ExecOne(c, s);
      assert u == s.(links := s.links[dev := l.(filters := FiltersOf(rules[..n-1]))]);
      RulesDeleted(g, n - 1, dev, u);
    }
  }

  lemma PshFiltersDeleted(dev: string, s: Outcome)
    requires dev in s.links && s.links[dev].root == PrioRoot
    requires s.links[dev].filters
      == {Fw(false, 1, Iptables.DELAY_MARK, IncludeClass), Fw(true, 2, Iptables.DELAY_MARK, IncludeClass)}
    ensures ExecBatch([FwFilter(VerbDel, dev, true, 2, Iptables.DELAY_MARK, IncludeClass),
                       FwFilter(VerbDel, dev, false, 1, Iptables.DELAY_MARK, IncludeClass)], s)
         == s.(links := s.links[dev := s.links[dev].(filters := {})])
  {
    var a, b := FwFilter(VerbDel, dev, true, 2, Iptables.DELAY_MARK, IncludeClass),
                FwFilter(VerbDel, dev, false, 1, Iptables.DELAY_MARK, IncludeClass);
    TwoCommands(a, b, s);
    assert s.links[dev].filters - {FilterOf(a)} == {FilterOf(b)};
    assert {FilterOf(b)} - {FilterOf(b)} == {};
  }

  lemma FiltersDeleted(g: Filter, dev: string, pshOnly: bool, cmds: seq<Command>, s: Outcome)
    requires InterfaceCommands(ModeDelete, g, dev, pshOnly)
      == [RootQdisc(VerbDel, dev), NetemQdisc(VerbDel, dev, IncludeClass)] + cmds
    requires dev in s.links && s.links[dev].root == PrioRoot && s.links[dev].filters == AppliedFilters(g, pshOnly)
    ensures ExecBatch(Reverse(cmds), s) == s.(links := s.links[dev := s.links[dev].(filters := {})])
  {
    assert cmds == InterfaceCommands(ModeDelete, g, dev, pshOnly)[2..];
    if pshOnly {
      assert Reverse(cmds) == [FwFilter(VerbDel, dev, true, 2, Iptables.DELAY_MARK, IncludeClass),
                               FwFilter(VerbDel, dev, false, 1, Iptables.DELAY_MARK, IncludeClass)];
      PshFiltersDeleted(dev, s);
    } else {
      var rules := FilterRules(g);
      assert rules[..|rules|] == rules && cmds == FilterCommands(ModeDelete, rules, dev);
      RulesDeleted(g, |rules|, dev, s);
    }
  }

  lemma InterfaceReverted(g: Filter, dev: string, pshOnly: bool, s: Outcome)
    requires dev in s.links && s.links[dev] == Applied(g, pshOnly)
    ensures ExecBatch(Reverse(InterfaceCommands(ModeDelete, g, dev, pshOnly)), s) == s.(links := s.links[dev := Bare(NoRoot)])
  {
    hide FilterRules, AppliedFilters;
    var cmds := InterfaceCommands(ModeDelete, g, dev, pshOnly);
    var root, netem := RootQdisc(VerbDel, dev), NetemQdisc(VerbDel, dev, IncludeClass);
    assert cmds == [root, netem] + cmds[2..];
    hide InterfaceCommands;
    ReverseConcat([root, netem], cmds[2..]);
    assert Reverse([root, netem]) == [netem, root];
    BatchConcat(Reverse(cmds[2..]), [netem, root], s);
    FiltersDeleted(g, dev, pshOnly, cmds[2..], s);
    var u := ExecBatch(Reverse(cmds[2..]), s);
    TwoCommands(netem, root, u);
    assert ExecOne(netem, u).links[dev] == Bare(PrioRoot);
  }

  lemma {:induction false} BatchReverted(g: Filter, devs: seq<string>, pshOnly: bool, s: Outcome)
    requires NoDuplicates(devs) && forall d :: d in devs ==> d in s.links && s.links[d] == Applied(g, pshOnly)
    ensures var r := ExecBatch(Reverse(Commands(ModeDelete, g, devs, pshOnly)), s);
      && r.failed == s.failed && r.links.Keys == s.links.Keys
      && forall d :: d in s.links ==> r.links[d] == if d in devs then Bare(NoRoot) else s.links[d]
  {
    if devs != [] {
      hide InterfaceCommands, Applied, ExecBatch, Reverse;
      var rest, last := devs[..|devs|-1], devs[|devs|-1];
      assert devs == rest + [last];
      var mine := InterfaceCommands(ModeDelete, g, last, pshOnly);
      ReverseConcat(Commands(ModeDelete, g, rest, pshOnly), mine);
      BatchConcat(Reverse(mine), Reverse(Commands(ModeDelete, g, rest, pshOnly)), s);
      InterfaceReverted(g, last, pshOnly, s);
      BatchReverted(g, rest, pshOnly, ExecBatch(Reverse(mine), s));
    } else {
      assert Reverse(Commands(ModeDelete, g, devs, pshOnly)) == [];
    }
  }

  /** Applying and then reverting: no command of either batch fails, and afterwards no interface
      carries anything of the attack. The revert optimises the filter anew; it needs the same
      form, unless only PSH is wanted. */
  lemma ApplyThenRevertLeavesNothing(f: Filter, g: Filter, later: Filter, revert: Result, devs: seq<string>,
                                     pshOnly: bool, links: Links)
    requires ValidFilter(f) && OptimizesTo(f, g) && (pshOnly || Settled(f, g))
    requires SameEntries(f, later) && BatchOf(revert, ModeDelete, later, devs, pshOnly)
    requires Batch(ModeAdd, g, devs, pshOnly).Ok? && Unattacked(links, devs) && NoDuplicates(devs)
    ensures var applied := ExecBatch(Batch(ModeAdd, g, devs, pshOnly).cmds, Outcome(links, []));
      && applied.failed == [] && revert.Ok?
      && var after := ExecBatch(revert.cmds, applied);
        && after.failed == [] && after.links.Keys == links.Keys
        && forall d :: d in links ==> after.links[d] == if d in devs then Bare(NoRoot) else links[d]
  {
    hide Commands, PerInterface, OptimizesTo, Settled, SameEntries, ValidFilter, ExecBatch, Reverse;
    var h :| OptimizesTo(later, h) && revert == Batch(ModeDelete, h, devs, pshOnly);
    SameCommands(f, g, later, h, devs, pshOnly);
    BatchApplied(g, devs, pshOnly, Outcome(links, []));
    BatchReverted(g, devs, pshOnly, ExecBatch(Batch(ModeAdd, g, devs, pshOnly).cmds, Outcome(links, [])));
  }
}
