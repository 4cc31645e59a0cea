/** The iptables encodings of a filter: the delay attack's MARK chain, the tcp-reset
    filter chain, and the tcp-reset mangle and filter chain pair. */
module Iptables {
  import opened Cidr
  import opened Slices
  import opened Endpoints
  import opened Filters
  import opened TcFilter

  const DELAY_MARK := 0x1
  const RESET_MARK := 0x5B

  datatype Target = Return | Accept | Reject | SetMark(mark: nat)

  /** A TCP packet entering a chain. */
  datatype Tcp = Tcp(ends: Packet, psh: bool)

  datatype IpRule =
    | AddressRule(pshOnly: bool, isDst: bool, net: Net, ports: Option<PortRange>, target: Target)
    | MarkRule(mark: nat, target: Target)
  {
    predicate Matches(p: Tcp, mark: nat) {
      match this
      case MarkRule(m, _) => mark == m
      case AddressRule(pshOnly, isDst, net, ports, _) =>
        var e := if isDst then p.ends.dst else p.ends.src;
        (pshOnly ==> p.psh) && InNet(net, e.address) && (ports.Some? ==> ports.value.Contains(e.port))
    }
  }

  /** How a chain ends for a packet, and the packet's mark then. */
  datatype Verdict = Accepted | Rejected | BackToCaller

  datatype Outcome = Outcome(verdict: Verdict, mark: nat)

  /** Rules run in order; MARK goes on to the next rule. */
  function Run(chain: seq<IpRule>, p: Tcp, mark: nat): Outcome {
    if chain == [] then Outcome(BackToCaller, mark)
    else if !chain[0].Matches(p, mark) then Run(chain[1..], p, mark)
    else match chain[0].target
      case Return => Outcome(BackToCaller, mark)
      case Accept => Outcome(Accepted, mark)
      case Reject => Outcome(Rejected, mark)
      case SetMark(m) => Run(chain[1..], p, m)
  }

  // The generators

  /** The delay attack leaves out the ports of an any-port entry and asks for PSH; the
      tcp-reset attack writes every range. */
  datatype Style = DelayStyle | ResetStyle

  function RulePorts(style: Style, r: PortRange): Option<PortRange> {
    if style == DelayStyle && r.IsAny() then None else Some(r)
  }

  function EntryRule(style: Style, n: NetWithPortRange, isDst: bool, target: Target): IpRule {
    AddressRule(style == DelayStyle, isDst, n.net, RulePorts(style, n.ports), target)
  }

  /** Two rules for each entry of the family, destination first. */
  function EntryRules(style: Style, s: seq<NetWithPortRange>, family: nat, target: Target): seq<IpRule> {
    if s == [] then []
    else
      var last := s[|s|-1];
      EntryRules(style, s[..|s|-1], family, target)
      + if |last.net.ip| != family then []
        else [EntryRule(style, last, true, target), EntryRule(style, last, false, target)]
  }

  method WriteRules(style: Style, nwps: seq<NetWithPortRange>, family: nat, target: Target) returns (rules: seq<IpRule>)
    ensures rules == EntryRules(style, nwps, family, target)
  {
    rules := [];
    for i := 0 to |nwps|
      invariant rules == EntryRules(style, nwps[..i], family, target)
    {
      assert nwps[..i+1][..i] == nwps[..i];
      if |nwps[i].net.ip| == family {
        rules := rules + [EntryRule(style, nwps[i], true, target), EntryRule(style, nwps[i], false, target)];
      }
    }
    assert nwps[..|nwps|] == nwps;
  }

  /** A chain of the exclude rules followed by the include rules. */
  function Chain(style: Style, f: Filter, family: nat, onExclude: Target, onInclude: Target): seq<IpRule> {
    EntryRules(style, f.excluded, family, onExclude) + EntryRules(style, f.included, family, onInclude)
  }

  predicate AnyNetHasFamily(s: seq<NetWithPortRange>, family: nat) {
    exists i :: 0 <= i < |s| && |s[i].net.ip| == family
  }

  function DelayChain(f: Filter, family: nat): seq<IpRule> {
    Chain(DelayStyle, f, family, Return, SetMark(DELAY_MARK))
  }

  /** Without an include of the family there is no chain at all. */
  function ResetFilterChain(f: Filter, family: nat): seq<IpRule> {
    if AnyNetHasFamily(f.included, family) then Chain(ResetStyle, f, family, Accept, Reject) else []
  }

  function ResetMangleChain(f: Filter, family: nat): seq<IpRule> {
    if AnyNetHasFamily(f.included, family) then Chain(ResetStyle, f, family, Return, SetMark(RESET_MARK)) else []
  }

  function ResetMarkChain(f: Filter, family: nat): seq<IpRule> {
    if AnyNetHasFamily(f.included, family) then [MarkRule(RESET_MARK, Reject)] else []
  }

  // Which packets each encoding selects

  function Family(p: Tcp): nat { |p.ends.src.address| }

  ghost predicate DelayMarks(f: Filter, p: Tcp, mark: nat) {
    Run(DelayChain(f, Family(p)), p, mark).mark == DELAY_MARK
  }

  ghost predicate FilterResets(f: Filter, p: Tcp, mark: nat) {
    Run(ResetFilterChain(f, Family(p)), p, mark).verdict == Rejected
  }

  ghost predicate MangleResets(f: Filter, p: Tcp, mark: nat) {
    var marked := Run(ResetMangleChain(f, Family(p)), p, mark).mark;
    Run(ResetMarkChain(f, Family(p)), p, marked).verdict == Rejected
  }

  ghost predicate AnyRule(rules: seq<IpRule>, p: Tcp) {
    exists r :: r in rules && r.Matches(p, 0)
  }

  ghost predicate AllTo(rules: seq<IpRule>, target: Target) {
    forall r :: r in rules ==> r.AddressRule? && r.target == target
  }

  lemma {:induction false} RulesGoTo(style: Style, s: seq<NetWithPortRange>, family: nat, target: Target)
    ensures AllTo(EntryRules(style, s, family, target), target)
  {
    if s != [] { RulesGoTo(style, s[..|s|-1], family, target); }
  }

  lemma EntryRuleMeansEndpoint(style: Style, n: NetWithPortRange, isDst: bool, target: Target, p: Tcp)
    requires OrdinaryPorts(p.ends) && (style == DelayStyle ==> p.psh)
    ensures EntryRule(style, n, isDst, target).Matches(p, 0) <==> n.Matches(if isDst then p.ends.dst else p.ends.src)
  {
  }

  lemma {:induction false} RulesMeanEntries(style: Style, s: seq<NetWithPortRange>, target: Target, p: Tcp)
    requires OrdinaryPorts(p.ends) && (style == DelayStyle ==> p.psh)
    requires |p.ends.src.address| == |p.ends.dst.address|
    ensures AnyRule(EntryRules(style, s, Family(p), target), p) <==> Touches(s, p.ends)
  {
    if s != [] {
      var rest, last := s[..|s|-1], s[|s|-1];
      RulesMeanEntries(style, rest, target, p);
      EntryRuleMeansEndpoint(style, last, true, target, p);
      EntryRuleMeansEndpoint(style, last, false, target, p);
      var before, rules := EntryRules(style, rest, Family(p), target), EntryRules(style, s, Family(p), target);
      assert forall n :: n in s <==> n in rest || n == last;
      if |last.net.ip| == Family(p) {
        assert forall r :: r in rules <==>
          r in before || r == EntryRule(style, last, true, target) || r == EntryRule(style, last, false, target);
      }
    }
  }

  /** The exclude part of a chain decides the packets it matches and passes on the rest. */
  lemma {:induction false} RunTerminalPart(part: seq<IpRule>, rest: seq<IpRule>, target: Target, p: Tcp, mark: nat)
    requires AllTo(part, target) && !target.SetMark?
    ensures Run(part + rest, p, mark) == if AnyRule(part, p)
      then Outcome(if target == Reject then Rejected else if target == Accept then Accepted else BackToCaller, mark)
      else Run(rest, p, mark)
  {
    if part == [] {
      assert part + rest == rest;
    } else {
      assert (part + rest)[1..] == part[1..] + rest;
      assert part == [part[0]] + part[1..];
      assert part[0] in part && (part[0].Matches(p, mark) <==> part[0].Matches(p, 0));
      RunTerminalPart(part[1..], rest, target, p, mark);
    }
  }

  lemma {:induction false} RunMarkPart(part: seq<IpRule>, m: nat, p: Tcp, mark: nat)
    requires AllTo(part, SetMark(m))
    ensures Run(part, p, mark) == Outcome(BackToCaller, if AnyRule(part, p) then m else mark)
  {
    if part != [] {
      assert part == [part[0]] + part[1..];
      RunMarkPart(part[1..], m, p, if part[0].Matches(p, mark) then m else mark);
    }
  }

  lemma MarkChainMarksAffected(style: Style, f: Filter, m: nat, p: Tcp, mark: nat)
    requires OrdinaryPorts(p.ends) && (style == DelayStyle ==> p.psh)
    requires |p.ends.src.address| == |p.ends.dst.address|
    ensures Run(Chain(style, f, Family(p), Return, SetMark(m)), p, mark)
         == Outcome(BackToCaller, if Affected(f, p.ends) then m else mark)
  {
    var excludes := EntryRules(style, f.excluded, Family(p), Return);
    var includes := EntryRules(style, f.included, Family(p), SetMark(m));
    RulesGoTo(style, f.excluded, Family(p), Return);
    RulesGoTo(style, f.included, Family(p), SetMark(m));
    RulesMeanEntries(style, f.excluded, Return, p);
    RulesMeanEntries(style, f.included, SetMark(m), p);
    RunTerminalPart(excludes, includes, Return, p, mark);
    RunMarkPart(includes, m, p, mark);
  }

  lemma RejectChainRejectsAffected(f: Filter, p: Tcp, mark: nat)
    requires OrdinaryPorts(p.ends) && |p.ends.src.address| == |p.ends.dst.address|
    ensures Run(Chain(ResetStyle, f, Family(p), Accept, Reject), p, mark).verdict == Rejected <==> Affected(f, p.ends)
  {
    var excludes := EntryRules(ResetStyle, f.excluded, Family(p), Accept);
    var includes := EntryRules(ResetStyle, f.included, Family(p), Reject);
    RulesGoTo(ResetStyle, f.excluded, Family(p), Accept);
    RulesGoTo(ResetStyle, f.included, Family(p), Reject);
    RulesMeanEntries(ResetStyle, f.excluded, Accept, p);
    RulesMeanEntries(ResetStyle, f.included, Reject, p);
    RunTerminalPart(excludes, includes, Accept, p, mark);
    RunTerminalPart(includes, [], Reject, p, mark);
    assert includes + [] == includes;
  }

  lemma MarkedIsRejected(p: Tcp, mark: nat)
    ensures Run([MarkRule(RESET_MARK, Reject)], p, mark).verdict == Rejected <==> mark == RESET_MARK
  {
  }

  lemma NoFamilyNothingAffected(f: Filter, p: Tcp)
    requires |p.ends.src.address| == |p.ends.dst.address| && !AnyNetHasFamily(f.included, Family(p))
    ensures !Affected(f, p.ends)
  {
  }

  /** For TCP packets with ports in 1..65534, all four encodings of a filter select the same
      packets: those it is meant to affect. A packet that carries the attack's mark already is
      selected too, if there is a chain for its family; an unmarked one, or one with the mark of
      the other attack, is not. The delay attack's chain looks at packets with PSH only. */
  lemma EncodersAgree(f: Filter, p: Tcp, mark: nat)
    requires AllValid(f.included) && AllValid(f.excluded) && OrdinaryPorts(p.ends)
    requires |p.ends.src.address| == |p.ends.dst.address|
    ensures SentTo(FilterRules(f), p.ends, IncludeClass) <==> Affected(f, p.ends)
    ensures p.psh ==> (DelayMarks(f, p, mark) <==> Affected(f, p.ends) || mark == DELAY_MARK)
    ensures FilterResets(f, p, mark) <==> Affected(f, p.ends)
    ensures MangleResets(f, p, mark)
       <==> Affected(f, p.ends) || (mark == RESET_MARK && AnyNetHasFamily(f.included, Family(p)))
    ensures p.psh && (mark == 0 || mark == RESET_MARK) ==> (DelayMarks(f, p, mark) <==> Affected(f, p.ends))
    ensures mark == 0 || mark == DELAY_MARK ==> (MangleResets(f, p, mark) <==> Affected(f, p.ends))
  {
    TcFilterIsCorrect(f, p.ends);
    if p.psh { MarkChainMarksAffected(DelayStyle, f, DELAY_MARK, p, mark); }
    MarkChainMarksAffected(ResetStyle, f, RESET_MARK, p, mark);
    MarkedIsRejected(p, if Affected(f, p.ends) then RESET_MARK else mark);
    RejectChainRejectsAffected(f, p, mark);
    if !AnyNetHasFamily(f.included, Family(p)) { NoFamilyNothingAffected(f, p); }
  }

  /** Without PSH the delay attack's chain leaves every packet alone. */
  lemma {:induction false} DelayNeedsPsh(f: Filter, p: Tcp, mark: nat)
    requires !p.psh
    ensures Run(DelayChain(f, Family(p)), p, mark) == Outcome(BackToCaller, mark)
  {
    var excludes := EntryRules(DelayStyle, f.excluded, Family(p), Return);
    var includes := EntryRules(DelayStyle, f.included, Family(p), SetMark(DELAY_MARK));
    RulesGoTo(DelayStyle, f.excluded, Family(p), Return);
    RulesGoTo(DelayStyle, f.included, Family(p), SetMark(DELAY_MARK));
    OnlyPsh(f.excluded, Family(p), Return);
    OnlyPsh(f.included, Family(p), SetMark(DELAY_MARK));
    RunTerminalPart(excludes, includes, Return, p, mark);
    RunMarkPart(includes, DELAY_MARK, p, mark);
  }

  lemma {:induction false} OnlyPsh(s: seq<NetWithPortRange>, family: nat, target: Target)
    ensures forall r :: r in EntryRules(DelayStyle, s, family, target) ==> r.AddressRule? && r.pshOnly
  {
    if s != [] { OnlyPsh(s[..|s|-1], family, target); }
  }
}
