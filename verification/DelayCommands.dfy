/** The delay attack's batch of tc commands: its size limit, what the PSH-only batch selects,
    and the revert batch. */
module DelayCommands {
  import opened Cidr
  import opened Slices
  import opened Endpoints
  import opened Filters
  import opened PortMask
  import opened TcFilter
  import Iptables

  datatype Verb = VerbReplace | VerbAdd | VerbDel

  datatype Command =
    | RootQdisc(verb: Verb, dev: string)
    | NetemQdisc(verb: Verb, dev: string, parent: Flow)
    | FwFilter(verb: Verb, dev: string, ipv6: bool, prio: nat, mark: nat, flow: Flow)
    | U32Filter(verb: Verb, dev: string, rule: Rule)

  const MAX_TC_COMMANDS := 2048

  datatype Result = Ok(cmds: seq<Command>) | TooManyTcCommands(count: nat)

  function ModeVerb(mode: Mode): Verb { if mode == ModeAdd then VerbAdd else VerbDel }

  function RootQdiscVerb(mode: Mode): Verb { if mode == ModeAdd then VerbReplace else ModeVerb(mode) }

  function FilterCommands(mode: Mode, rules: seq<Rule>, dev: string): seq<Command> {
    seq(|rules|, i requires 0 <= i < |rules| => U32Filter(ModeVerb(mode), dev, rules[i]))
  }

  function InterfaceCommands(mode: Mode, f: Filter, dev: string, pshOnly: bool): seq<Command> {
    [RootQdisc(RootQdiscVerb(mode), dev), NetemQdisc(ModeVerb(mode), dev, IncludeClass)]
    + if pshOnly then
        [FwFilter(ModeVerb(mode), dev, false, 1, Iptables.DELAY_MARK, IncludeClass),
         FwFilter(ModeVerb(mode), dev, true, 2, Iptables.DELAY_MARK, IncludeClass)]
      else
        FilterCommands(mode, FilterRules(f), dev)
  }

  function Commands(mode: Mode, f: Filter, devs: seq<string>, pshOnly: bool): seq<Command> {
    if devs == [] then []
    else Commands(mode, f, devs[..|devs|-1], pshOnly) + InterfaceCommands(mode, f, devs[|devs|-1], pshOnly)
  }

  function Reverse<T>(s: seq<T>): (r: seq<T>)
    ensures |r| == |s|
  {
    seq(|s|, i requires 0 <= i < |s| => s[|s| - 1 - i])
  }

  function Ordered(mode: Mode, cmds: seq<Command>): seq<Command> {
    if mode == ModeDelete then Reverse(cmds) else cmds
  }

  method ReorderForMode(cmds: array<Command>, mode: Mode)
    modifies cmds
    ensures cmds[..] == Ordered(mode, old(cmds[..]))
  {
    if mode == ModeDelete {
      ghost var given := cmds[..];
      var i, j := 0, cmds.Length - 1;
      while i < j
        invariant 0 <= i <= j + 1 && i + j == cmds.Length - 1
        invariant forall k :: 0 <= k < i || j < k < cmds.Length ==> cmds[k] == Reverse(given)[k]
        invariant forall k :: i <= k <= j ==> cmds[k] == given[k]
      {
        cmds[i], cmds[j] := cmds[j], cmds[i];
        i, j := i + 1, j - 1;
      }
    }
  }

  /** How many commands one interface needs. */
  function PerInterface(f: Filter, pshOnly: bool): nat {
    if pshOnly then 4 else 2 + |FilterRules(f)|
  }

  lemma {:induction false} CommandCount(mode: Mode, f: Filter, devs: seq<string>, pshOnly: bool)
    ensures |Commands(mode, f, devs, pshOnly)| == |devs| * PerInterface(f, pshOnly)
  {
    if devs != [] {
      CommandCount(mode, f, devs[..|devs|-1], pshOnly);
      assert |devs| * PerInterface(f, pshOnly) == (|devs| - 1) * PerInterface(f, pshOnly) + PerInterface(f, pshOnly);
    }
  }

  lemma ExactQuotient(n: nat, k: nat)
    requires n > 0
    ensures (n * k) / n == k
  {
    var m := n * k;
    var q, r := m / n, m % n;
    assert m == n * q + r && 0 <= r < n;
    assert n * (k - q) == r;
    if k > q { Times(n, k - q); }
  }

  lemma {:induction false} Times(n: nat, d: nat)
    requires d > 0
    ensures n * d >= n
  {
  }

  method InterfaceBatch(mode: Mode, f: Filter, dev: string, pshOnly: bool, before: seq<Command>)
      returns (cmds: seq<Command>)
    ensures cmds == before + InterfaceCommands(mode, f, dev, pshOnly)
  {
    cmds := before;
    cmds := cmds + [RootQdisc(RootQdiscVerb(mode), dev)];
    cmds := cmds + [NetemQdisc(ModeVerb(mode), dev, IncludeClass)];
    if pshOnly {
      cmds := cmds + [FwFilter(ModeVerb(mode), dev, false, 1, Iptables.DELAY_MARK, IncludeClass)];
      cmds := cmds + [FwFilter(ModeVerb(mode), dev, true, 2, Iptables.DELAY_MARK, IncludeClass)];
    } else {
      var rules := TcCommandsForFilter(f);
      cmds := cmds + FilterCommands(mode, rules, dev);
    }
  }

  /** The batch of an optimised filter; the limit is per interface. */
  function Batch(mode: Mode, f: Filter, devs: seq<string>, pshOnly: bool): Result {
    if |devs| > 0 && PerInterface(f, pshOnly) > MAX_TC_COMMANDS
    then TooManyTcCommands(|devs| * PerInterface(f, pshOnly))
    else Ok(Ordered(mode, Commands(mode, f, devs, pshOnly)))
  }

  method CommandsFor(mode: Mode, f: Filter, devs: seq<string>, pshOnly: bool) returns (r: Result)
    ensures r == Batch(mode, f, devs, pshOnly)
  {
    hide InterfaceCommands, PerInterface;
    var cmds := [];
    for i := 0 to |devs|
      invariant cmds == Commands(mode, f, devs[..i], pshOnly)
    {
      assert devs[..i+1][..i] == devs[..i];
      cmds := InterfaceBatch(mode, f, devs[i], pshOnly, cmds);
    }
    assert devs[..|devs|] == devs;
    CommandCount(mode, f, devs, pshOnly);
    var batch := new Command[|cmds|](i requires 0 <= i < |cmds| => cmds[i]);
    assert batch[..] == cmds;
    ReorderForMode(batch, mode);
    if |devs| > 0 {
      ExactQuotient(|devs|, PerInterface(f, pshOnly));
      if |cmds| / |devs| > MAX_TC_COMMANDS {
        return TooManyTcCommands(|cmds|);
      }
    }
    return Ok(batch[..]);
  }

  // Small filters are never rejected

  lemma {:induction false} FewMatchers(s: seq<NetWithPortRange>)
    requires forall n :: n in s ==> n.ports.from >= 1
    ensures |AllMatchers(s)| <= 60 * |s|
  {
    if s != [] {
      var last := s[|s|-1];
      FewMatchers(s[..|s|-1]);
      PortWidth();
      MasksAtMost(16, last.ports.from, last.ports.to);
      assert |Matchers(last)| == 2 * |PortMasks(last.ports)|;
    }
  }

  lemma SmallFilterFits(f: Filter, pshOnly: bool)
    requires AllValid(f.included) && AllValid(f.excluded)
    requires |f.included| + |f.excluded| <= 34
    ensures PerInterface(f, pshOnly) <= MAX_TC_COMMANDS
  {
    FewMatchers(f.included);
    FewMatchers(f.excluded);
  }

  /** The batch is that of a filter the given one optimises to. */
  ghost predicate BatchOf(r: Result, mode: Mode, f: Filter, devs: seq<string>, pshOnly: bool) {
    exists g :: OptimizesTo(f, g) && r == Batch(mode, g, devs, pshOnly)
  }

  /** The whole of `tcCommands`. A filter of at most 34 entries is never rejected. */
  method TcCommands(mode: Mode, included: array<NetWithPortRange>, excluded: array<NetWithPortRange>,
                    interfaces: seq<string>, pshOnly: bool) returns (r: Result)
    modifies included
    ensures multiset(included[..]) == multiset(old(included[..]))
    ensures var f := Filter(old(included[..]), old(excluded[..]));
      && BatchOf(r, mode, f, interfaces, pshOnly)
      && (ValidFilter(f) && included.Length + excluded.Length <= 34 ==> r.Ok?)
  {
    hide OptimizesTo, PerInterface, Commands, AllValid;
    ghost var f := Filter(included[..], excluded[..]);
    var filter := OptimizeFilter(included, excluded);
    r := CommandsFor(mode, filter, interfaces, pshOnly);
    if ValidFilter(f) && included.Length + excluded.Length <= 34 {
      SmallFilterFits(filter, pshOnly);
    }
  }

  /** A batch is accepted exactly if it has at most 2048 commands for each interface, and
      otherwise rejected with their number. */
  lemma AcceptedIffFewCommands(mode: Mode, g: Filter, devs: seq<string>, pshOnly: bool)
    ensures var r, n := Batch(mode, g, devs, pshOnly), |Commands(mode, g, devs, pshOnly)|;
      (r.Ok? <==> n <= 2048 * |devs|) && (!r.Ok? ==> r.count == n)
  {
    hide Commands, PerInterface;
    CommandCount(mode, g, devs, pshOnly);
    var k := PerInterface(g, pshOnly);
    if k <= 2048 { TimesMonotone(|devs|, k, 2048); } else if devs != [] { TimesMonotone(|devs|, 2049, k); }
  }

  lemma TimesMonotone(n: nat, a: nat, b: nat)
    requires a <= b
    ensures n * a <= n * b
  {
    if a < b && n > 0 { Times(n, b - a); }
  }

  // What the PSH-only batch selects

  /** An fw filter of the interface and the packet's family names the packet's mark. */
  ghost predicate SentByMark(cmds: seq<Command>, dev: string, family: nat, mark: nat, flow: Flow) {
    exists c :: c in cmds && c.FwFilter? && c == FwFilter(VerbAdd, dev, family == 128, c.prio, mark, flow)
  }

  lemma {:induction false} FwFiltersOfBatch(f: Filter, devs: seq<string>, dev: string, family: nat, mark: nat)
    requires dev in devs
    ensures SentByMark(Commands(ModeAdd, f, devs, true), dev, family, mark, IncludeClass) <==> mark == Iptables.DELAY_MARK
  {
    OnlyMarkFilters(f, devs);
    if mark == Iptables.DELAY_MARK {
      HasMarkFilter(f, devs, dev, family == 128);
    }
  }

  lemma {:induction false} OnlyMarkFilters(f: Filter, devs: seq<string>)
    ensures forall c :: c in Commands(ModeAdd, f, devs, true) && c.FwFilter? ==> c.mark == Iptables.DELAY_MARK
  {
    if devs != [] { OnlyMarkFilters(f, devs[..|devs|-1]); }
  }

  lemma {:induction false} HasMarkFilter(f: Filter, devs: seq<string>, dev: string, ipv6: bool)
    requires dev in devs
    ensures FwFilter(VerbAdd, dev, ipv6, if ipv6 then 2 else 1, Iptables.DELAY_MARK, IncludeClass)
      in Commands(ModeAdd, f, devs, true)
  {
    var rest, last := devs[..|devs|-1], devs[|devs|-1];
    if dev != last {
      assert devs == rest + [last];
      HasMarkFilter(f, rest, dev, ipv6);
    } else {
      var cmds := InterfaceCommands(ModeAdd, f, last, true);
      assert cmds[if ipv6 then 3 else 2] in cmds;
    }
  }

  /** The PSH-only batch and the iptables chain together send a packet to the include class
      exactly if it has PSH and is affected, or carried the mark before. */
  lemma PshBatchSelects(f: Filter, g: Filter, devs: seq<string>, dev: string, p: Iptables.Tcp, mark: nat)
    requires dev in devs && OrdinaryPorts(p.ends) && |p.ends.src.address| == |p.ends.dst.address|
    ensures var marked := Iptables.Run(Iptables.DelayChain(g, Iptables.Family(p)), p, mark).mark;
      (SentByMark(Commands(ModeAdd, f, devs, true), dev, Iptables.Family(p), marked, IncludeClass)
       <==> (p.psh && Affected(g, p.ends)) || mark == Iptables.DELAY_MARK)
  {
    hide Commands, SentByMark, Affected;
    FwFiltersOfBatch(f, devs, dev, Iptables.Family(p),
                     Iptables.Run(Iptables.DelayChain(g, Iptables.Family(p)), p, mark).mark);
    if p.psh {
      Iptables.MarkChainMarksAffected(Iptables.DelayStyle, g, Iptables.DELAY_MARK, p, mark);
    } else {
      Iptables.DelayNeedsPsh(g, p, mark);
    }
  }

  // Revert mirrors apply

  function Undo(c: Command): Command { c.(verb := VerbDel) }

  lemma InterfaceCommandsUndo(f: Filter, dev: string, pshOnly: bool)
    ensures var add, del := InterfaceCommands(ModeAdd, f, dev, pshOnly), InterfaceCommands(ModeDelete, f, dev, pshOnly);
      |del| == |add| && forall i :: 0 <= i < |add| ==> del[i] == Undo(add[i])
  {
  }

  lemma {:induction false} DeleteCommandsUndo(f: Filter, devs: seq<string>, pshOnly: bool)
    ensures |Commands(ModeDelete, f, devs, pshOnly)| == |Commands(ModeAdd, f, devs, pshOnly)|
    ensures forall i :: 0 <= i < |Commands(ModeAdd, f, devs, pshOnly)| ==>
      Commands(ModeDelete, f, devs, pshOnly)[i] == Undo(Commands(ModeAdd, f, devs, pshOnly)[i])
  {
    if devs != [] {
      hide InterfaceCommands, Undo;
      DeleteCommandsUndo(f, devs[..|devs|-1], pshOnly);
      InterfaceCommandsUndo(f, devs[|devs|-1], pshOnly);
    }
  }

  /** Batch `del` undoes batch `add` command by command, last command first. */
  ghost predicate Mirrors(del: seq<Command>, add: seq<Command>) {
    |del| == |add| && forall i :: 0 <= i < |del| ==> del[i] == Undo(add[|add| - 1 - i])
  }

  lemma {:induction false} PshBatchIgnoresFilter(mode: Mode, g: Filter, h: Filter, devs: seq<string>)
    ensures Commands(mode, g, devs, true) == Commands(mode, h, devs, true)
  {
    if devs != [] { PshBatchIgnoresFilter(mode, g, h, devs[..|devs|-1]); }
  }

  lemma BatchesMirror(g: Filter, devs: seq<string>, pshOnly: bool)
    ensures Mirrors(Ordered(ModeDelete, Commands(ModeDelete, g, devs, pshOnly)),
                    Ordered(ModeAdd, Commands(ModeAdd, g, devs, pshOnly)))
  {
    hide Commands;
    DeleteCommandsUndo(g, devs, pshOnly);
  }

  lemma NoInterfaceNoCommands(mode: Mode, g: Filter, pshOnly: bool)
    ensures Commands(mode, g, [], pshOnly) == []
  {
  }

  /** The two filters differ, but not in the commands of the batch. */
  lemma SameCommands(f: Filter, g: Filter, later: Filter, h: Filter, devs: seq<string>, pshOnly: bool)
    requires ValidFilter(f) && OptimizesTo(f, g) && SameEntries(f, later) && OptimizesTo(later, h)
    requires pshOnly || devs == [] || Settled(f, g)
    ensures Commands(ModeDelete, g, devs, pshOnly) == Commands(ModeDelete, h, devs, pshOnly)
    ensures devs != [] ==> PerInterface(g, pshOnly) == PerInterface(h, pshOnly)
  {
    hide ValidFilter, SameEntries, OptimizesTo, Settled, Commands, FilterRules;
    if pshOnly {
      PshBatchIgnoresFilter(ModeDelete, g, h, devs);
    } else if devs == [] {
      NoInterfaceNoCommands(ModeDelete, g, pshOnly);
      NoInterfaceNoCommands(ModeDelete, h, pshOnly);
    } else {
      SettledFormIsTheOnlyOne(f, g, later, h);
    }
  }

  /** The revert batch removes what the apply batch installed, although the filter is optimised
      anew for it, its lists possibly in another order and the ties of the sort broken
      differently. When one is rejected, so is the other. */
  lemma RevertMirrors(f: Filter, g: Filter, later: Filter, revert: Result, devs: seq<string>, pshOnly: bool)
    requires ValidFilter(f) && OptimizesTo(f, g) && (pshOnly || devs == [] || Settled(f, g))
    requires SameEntries(f, later) && BatchOf(revert, ModeDelete, later, devs, pshOnly)
    ensures var apply := Batch(ModeAdd, g, devs, pshOnly);
      && (apply.Ok? <==> revert.Ok?)
      && (apply.Ok? ==> Mirrors(revert.cmds, apply.cmds))
  {
    hide ValidFilter, SameEntries, OptimizesTo, Settled, Commands, PerInterface, Mirrors, Ordered;
    var h :| OptimizesTo(later, h) && revert == Batch(ModeDelete, h, devs, pshOnly);
    SameCommands(f, g, later, h, devs, pshOnly);
    BatchesMirror(g, devs, pshOnly);
    assert Ordered(ModeDelete, Commands(ModeDelete, g, devs, pshOnly))
        == Ordered(ModeDelete, Commands(ModeDelete, h, devs, pshOnly));
  }

  lemma MirroredInOrder(del: seq<Command>, add: seq<Command>, j: nat)
    requires Mirrors(Reverse(del), add) && j < |add|
    ensures |del| == |add| && del[j] == Undo(add[j])
  {
    assert Reverse(del)[|del| - 1 - j] == del[j];
  }

  lemma RuleOfInterface(mode: Mode, g: Filter, dev: string, r: nat)
    requires r < |FilterRules(g)|
    ensures var cmds := InterfaceCommands(mode, g, dev, false);
      |cmds| == PerInterface(g, false) && cmds[2 + r] == U32Filter(ModeVerb(mode), dev, FilterRules(g)[r])
  {
    hide FilterRules;
  }

  lemma InSecondPart<T>(a: seq<T>, b: seq<T>, i: nat)
    requires i < |b|
    ensures |a| + i < |a + b| && (a + b)[|a| + i] == b[i]
  {
  }

  /** The rules of the last interface in a batch. */
  lemma RulesInBatch(mode: Mode, g: Filter, devs: seq<string>, r: nat)
    requires devs != [] && r < |FilterRules(g)|
    ensures var i, cmds := (|devs| - 1) * PerInterface(g, false) + (2 + r), Commands(mode, g, devs, false);
      0 <= i < |cmds| && cmds[i] == U32Filter(ModeVerb(mode), devs[|devs|-1], FilterRules(g)[r])
  {
    hide FilterRules, InterfaceCommands;
    assert 2 + r < PerInterface(g, false);
    hide PerInterface;
    CommandCount(mode, g, devs[..|devs|-1], false);
    RuleOfInterface(mode, g, devs[|devs|-1], r);
    InSecondPart(Commands(mode, g, devs[..|devs|-1], false), InterfaceCommands(mode, g, devs[|devs|-1], false), 2 + r);
  }

  /** A batch that undoes another one holds the same rules. */
  lemma MirroredRulesAgree(g: Filter, h: Filter, devs: seq<string>)
    requires devs != []
    requires Mirrors(Reverse(Commands(ModeDelete, h, devs, false)), Commands(ModeAdd, g, devs, false))
    ensures FilterRules(g) == FilterRules(h)
  {
    hide FilterRules, Mirrors, Commands;
    SameRuleCount(g, h, devs);
    forall r | 0 <= r < |FilterRules(g)|
      ensures FilterRules(g)[r] == FilterRules(h)[r]
    {
      MirroredRule(g, h, devs, r);
    }
  }

  lemma SameRuleCount(g: Filter, h: Filter, devs: seq<string>)
    requires devs != []
    requires Mirrors(Reverse(Commands(ModeDelete, h, devs, false)), Commands(ModeAdd, g, devs, false))
    ensures |FilterRules(g)| == |FilterRules(h)|
  {
    hide FilterRules, Mirrors, Commands;
    CommandCount(ModeAdd, g, devs, false);
    CommandCount(ModeDelete, h, devs, false);
    SameLength(Commands(ModeDelete, h, devs, false), Commands(ModeAdd, g, devs, false));
    ExactQuotient(|devs|, PerInterface(g, false));
    ExactQuotient(|devs|, PerInterface(h, false));
  }

  lemma MirroredRule(g: Filter, h: Filter, devs: seq<string>, r: nat)
    requires devs != [] && r < |FilterRules(g)| == |FilterRules(h)|
    requires Mirrors(Reverse(Commands(ModeDelete, h, devs, false)), Commands(ModeAdd, g, devs, false))
    ensures FilterRules(g)[r] == FilterRules(h)[r]
  {
    hide FilterRules, Mirrors, Commands;
    assert PerInterface(g, false) == PerInterface(h, false);
    hide PerInterface;
    RulesInBatch(ModeAdd, g, devs, r);
    RulesInBatch(ModeDelete, h, devs, r);
    MirroredInOrder(Commands(ModeDelete, h, devs, false), Commands(ModeAdd, g, devs, false),
                    (|devs| - 1) * PerInterface(g, false) + (2 + r));
  }

  lemma SameLength(del: seq<Command>, add: seq<Command>)
    requires Mirrors(Reverse(del), add)
    ensures |del| == |add|
  {
  }

  /** Whatever order the lists come in for the revert, and however the ties are broken then,
      its batch undoes the one applied. */
  ghost predicate AlwaysReverted(f: Filter, g: Filter, devs: seq<string>, pshOnly: bool) {
    forall later, revert :: SameEntries(f, later) && BatchOf(revert, ModeDelete, later, devs, pshOnly)
      ==> Undoes(revert, Batch(ModeAdd, g, devs, pshOnly))
  }

  ghost predicate Undoes(revert: Result, apply: Result) {
    apply.Ok? && revert.Ok? && Mirrors(revert.cmds, apply.cmds)
  }

  /** An applied batch is undone by every revert exactly when it does not depend on the filter,
      or no entry of the optimised filter ties with another entry. */
  lemma RevertMirrorsApply(f: Filter, g: Filter, devs: seq<string>, pshOnly: bool)
    requires ValidFilter(f) && OptimizesTo(f, g) && Batch(ModeAdd, g, devs, pshOnly).Ok?
    ensures AlwaysReverted(f, g, devs, pshOnly) <==> pshOnly || devs == [] || Settled(f, g)
  {
    hide ValidFilter, SameEntries, OptimizesTo, Settled, Commands, PerInterface, FilterRules, Mirrors, BatchOf, Batch;
    if pshOnly || devs == [] || Settled(f, g) {
      forall later, revert | SameEntries(f, later) && BatchOf(revert, ModeDelete, later, devs, pshOnly)
        ensures Undoes(revert, Batch(ModeAdd, g, devs, pshOnly))
      {
        RevertMirrors(f, g, later, revert, devs, pshOnly);
      }
    } else {
      var h := AnotherForm(f, g);
      NotUndone(f, g, h, devs);
    }
  }

  /** Another form of the filter makes a revert batch that does not undo the applied one. */
  lemma NotUndone(f: Filter, g: Filter, h: Filter, devs: seq<string>)
    requires ValidFilter(f) && OptimizesTo(f, g) && OptimizesTo(f, h) && g != h && devs != []
    ensures !AlwaysReverted(f, g, devs, false)
  {
    hide ValidFilter, OptimizesTo, Commands, FilterRules, Mirrors;
    var apply, revert := Batch(ModeAdd, g, devs, false), Batch(ModeDelete, h, devs, false);
    DifferentFormsDifferentRules(f, g, h);
    if Undoes(revert, apply) { MirroredRulesAgree(g, h, devs); }
    assert SameEntries(f, f) && BatchOf(revert, ModeDelete, f, devs, false);
  }

  /** A filter and an optimised form that fits, which a revert need not undo. */
  ghost predicate CanStayApplied(f: Filter, g: Filter, devs: seq<string>) {
    OptimizesTo(f, g) && Batch(ModeAdd, g, devs, false).Ok? && !AlwaysReverted(f, g, devs, false)
  }

  /** With a tie in the result, the tie can be broken one way on apply and the other on revert:
      128.0.0.0/1 and 128.0.0.0/2 again. */
  lemma TieCanBreakRevert()
    ensures exists f: Filter, g, devs :: Parsed(f.included + f.excluded) && CanStayApplied(f, g, devs)
  {
    hide AlwaysReverted, OptimizesTo, PerInterface, Valid;
    var a, b := TwoWidths();
    var f, g := Filter([a, b], []), Filter([a], []);
    FirstOfTieWins(a, b);
    SmallFilterFits(g, false);
    assert a in g.included && b in f.included && !Settled(f, g);
    RevertMirrorsApply(f, g, ["eth0"], false);
    assert Parsed(f.included + f.excluded) && CanStayApplied(f, g, ["eth0"]);
  }

  lemma TwoWidths() returns (a: NetWithPortRange, b: NetWithPortRange)
    ensures Valid(a) && Valid(b) && a.net.ip == b.net.ip && a.ports == b.ports
    ensures a != b && |a.net.ip| == 32
  {
    var base := [true] + seq(31, _ => false);
    a := NetWithPortRange(Net(base, 2), PortRange(80, 80));
    b := NetWithPortRange(Net(base, 1), PortRange(80, 80));
  }

  lemma FirstOfTieWins(a: NetWithPortRange, b: NetWithPortRange)
    requires Valid(a) && a.net.ip == b.net.ip && a.ports == b.ports
    ensures OptimizesTo(Filter([a, b], []), Filter([a], []))
  {
    FirstOfTwoWins(a, b);
    assert IsSortOf([a, b], [a, b]) && IsSortOf([], []);
    assert FoldAll([]) == [] && Needed([], [a]) == [];
  }
}
