/** The tcp-reset attack's add and delete scripts, run against an iptables state. */
module ResetScripts {
  import opened Slices
  import opened Endpoints
  import opened Filters
  import opened Iptables
  import opened TcFilter

  // An iptables state and its commands

  datatype ChainRule =
    | Jump(inIf: string, outIf: string, target: string)
    | Leaf(rule: IpRule)
    | Foreign(text: string, target: string)

  type Table = map<string, seq<ChainRule>>

  datatype Tables = Tables(filter: Table, mangle: Table)

  datatype Command =
    | NewChain(chain: string)
    | Append(chain: string, rule: ChainRule)
    | InsertFirst(chain: string, rule: ChainRule)
    | DeleteRule(chain: string, rule: ChainRule)
    | Flush(chain: string)
    | DeleteChain(chain: string)

  predicate GoesTo(r: ChainRule, chain: string) {
    !r.Leaf? && r.target == chain
  }

  predicate Referenced(t: Table, chain: string) {
    exists c, i :: c in t && 0 <= i < |t[c]| && GoesTo(t[c][i], chain)
  }

  function IndexOf(s: seq<ChainRule>, r: ChainRule): (i: nat)
    requires r in s
    ensures i < |s| && s[i] == r
  {
    if s[0] == r then 0 else 1 + IndexOf(s[1..], r)
  }

  function RemoveFirst(s: seq<ChainRule>, r: ChainRule): seq<ChainRule>
    requires r in s
  {
    var i := IndexOf(s, r);
    s[..i] + s[i+1..]
  }

  /** One command; None is the error that makes iptables-restore give up. */
  function Exec(cmd: Command, t: Table): Option<Table> {
    match cmd
    case NewChain(c) => Some(t[c := []])
    case Append(c, r) => if c in t && (r.Jump? ==> r.target in t) then Some(t[c := t[c] + [r]]) else None
    case InsertFirst(c, r) => if c in t && (r.Jump? ==> r.target in t) then Some(t[c := [r] + t[c]]) else None
    case DeleteRule(c, r) => if c in t && r in t[c] then Some(t[c := RemoveFirst(t[c], r)]) else None
    case Flush(c) => if c in t then Some(t[c := []]) else None
    case DeleteChain(c) => if c in t && t[c] == [] && !Referenced(t, c) then Some(t - {c}) else None
  }

  function ExecAll(cmds: seq<Command>, t: Table): Option<Table> {
    if cmds == [] then Some(t)
    else match Exec(cmds[0], t)
      case None => None
      case Some(u) => ExecAll(cmds[1..], u)
  }

  datatype Section = FilterSection(cmds: seq<Command>) | MangleSection(cmds: seq<Command>)

  /** A script commits one table after the other. */
  function ExecScript(script: seq<Section>, t: Tables): Option<Tables> {
    if script == [] then Some(t)
    else match script[0]
      case FilterSection(cmds) =>
        (match ExecAll(cmds, t.filter)
         case None => None
         case Some(u) => ExecScript(script[1..], t.(filter := u)))
      case MangleSection(cmds) =>
        (match ExecAll(cmds, t.mangle)
         case None => None
         case Some(u) => ExecScript(script[1..], t.(mangle := u)))
  }

  // The scripts

  const FILTER_CHAINS := ["OUTPUT", "INPUT", "FORWARD"]
  const MANGLE_CHAINS := ["OUTPUT", "PREROUTING", "FORWARD"]

  /** The options that matter to the scripts; the filter is handed to them separately. */
  datatype TcpResetOpts = TcpResetOpts(executionId: string, interfaces: seq<string>, prepend: bool, useMangleChain: bool)
  {
    function IdSuffix(): string {
      var id := if |executionId| > 12 then executionId[|executionId| - 12..] else executionId;
      if id == "" then "default" else id
    }

    function RstFilterChainName(): string { "SB_TCP_RST_" + IdSuffix() }

    function RstMangleChainName(): string { "SB_TCP_RST_M_" + IdSuffix() }

    function InterfacesOrAll(): seq<string> { if interfaces == [] then [""] else interfaces }
  }

  datatype JumpCmd = JumpAppend | JumpInsert | JumpDelete

  function AppendOrInsert(o: TcpResetOpts): JumpCmd { if o.prepend then JumpInsert else JumpAppend }

  datatype JumpRule = JumpRule(chain: string, rule: ChainRule) {
    function Command(cmd: JumpCmd): Command {
      match cmd
      case JumpAppend => Append(chain, rule)
      case JumpInsert => InsertFirst(chain, rule)
      case JumpDelete => DeleteRule(chain, rule)
    }
  }

  /** The jumps from one built-in chain: forwarded packets are caught on both sides. */
  function ChainJumps(ifc: string, chain: string, target: string): seq<JumpRule> {
    if chain == "INPUT" || chain == "PREROUTING" then [JumpRule(chain, Jump(ifc, "", target))]
    else if chain == "OUTPUT" then [JumpRule(chain, Jump("", ifc, target))]
    else if chain == "FORWARD" then
      [JumpRule(chain, Jump(ifc, "", target))] + if ifc != "" then [JumpRule(chain, Jump("", ifc, target))] else []
    else []
  }

  function InterfaceJumps(ifc: string, chains: seq<string>, target: string): seq<JumpRule> {
    if chains == [] then [] else
      InterfaceJumps(ifc, chains[..|chains|-1], target) + ChainJumps(ifc, chains[|chains|-1], target)
  }

  function Jumps(ifcs: seq<string>, chains: seq<string>, target: string): seq<JumpRule> {
    if ifcs == [] then [] else
      Jumps(ifcs[..|ifcs|-1], chains, target) + InterfaceJumps(ifcs[|ifcs|-1], chains, target)
  }

  /** Packets of the interface entering the built-in chain are sent to the target: those coming
      in on it, those going out on it, and forwarded ones on both sides. */
  predicate CatchesBoth(jumps: seq<JumpRule>, ifc: string, chain: string, target: string) {
    && (chain != "OUTPUT" ==> JumpRule(chain, Jump(ifc, "", target)) in jumps)
    && (chain == "OUTPUT" || chain == "FORWARD" ==> JumpRule(chain, Jump("", ifc, target)) in jumps)
  }

  lemma {:induction false} InterfaceIsCaught(ifc: string, chains: seq<string>, target: string)
    requires forall c :: c in chains ==> c in FILTER_CHAINS + MANGLE_CHAINS
    ensures forall c :: c in chains ==> CatchesBoth(InterfaceJumps(ifc, chains, target), ifc, c, target)
  {
    if chains != [] {
      InterfaceIsCaught(ifc, chains[..|chains|-1], target);
      assert chains == chains[..|chains|-1] + [chains[|chains|-1]];
    }
  }

  lemma CaughtInEither(a: seq<JumpRule>, b: seq<JumpRule>, ifc: string, chain: string, target: string)
    requires CatchesBoth(a, ifc, chain, target) || CatchesBoth(b, ifc, chain, target)
    ensures CatchesBoth(a + b, ifc, chain, target)
  {
  }

  /** Every interface is caught in every built-in chain. */
  lemma {:induction false} EveryInterfaceIsCaught(ifcs: seq<string>, chains: seq<string>, target: string)
    requires forall c :: c in chains ==> c in FILTER_CHAINS + MANGLE_CHAINS
    ensures forall ifc, c :: ifc in ifcs && c in chains ==> CatchesBoth(Jumps(ifcs, chains, target), ifc, c, target)
  {
    if ifcs != [] {
      hide CatchesBoth, InterfaceJumps;
      var rest, last := ifcs[..|ifcs|-1], ifcs[|ifcs|-1];
      EveryInterfaceIsCaught(rest, chains, target);
      InterfaceIsCaught(last, chains, target);
      forall ifc, c | ifc in ifcs && c in chains
        ensures CatchesBoth(Jumps(ifcs, chains, target), ifc, c, target)
      {
        assert ifc in rest || ifc == last;
        CaughtInEither(Jumps(rest, chains, target), InterfaceJumps(last, chains, target), ifc, c, target);
      }
    }
  }

  function JumpCommands(cmd: JumpCmd, jumps: seq<JumpRule>): seq<Command> {
    seq(|jumps|, i requires 0 <= i < |jumps| => jumps[i].Command(cmd))
  }

  lemma JumpCommandsConcat(cmd: JumpCmd, a: seq<JumpRule>, b: seq<JumpRule>)
    ensures JumpCommands(cmd, a + b) == JumpCommands(cmd, a) + JumpCommands(cmd, b)
  {
  }

  /** The switch over one built-in chain. */
  method ChainRules(ifc: string, cmd: JumpCmd, chain: string, target: string) returns (rules: seq<Command>)
    ensures rules == JumpCommands(cmd, ChainJumps(ifc, chain, target))
  {
    hide JumpRule.Command;
    rules := [];
    if chain == "INPUT" || chain == "PREROUTING" {
      rules := rules + [JumpRule(chain, Jump(ifc, "", target)).Command(cmd)];
    } else if chain == "OUTPUT" {
      rules := rules + [JumpRule(chain, Jump("", ifc, target)).Command(cmd)];
    } else if chain == "FORWARD" {
      rules := rules + [JumpRule(chain, Jump(ifc, "", target)).Command(cmd)];
      if ifc != "" {
        rules := rules + [JumpRule(chain, Jump("", ifc, target)).Command(cmd)];
      }
    }
  }

  method InterfaceJumpRules(ifc: string, cmd: JumpCmd, chains: seq<string>, target: string) returns (rules: seq<Command>)
    ensures rules == JumpCommands(cmd, InterfaceJumps(ifc, chains, target))
  {
    hide ChainJumps, JumpRule.Command;
    rules := [];
    for j := 0 to |chains|
      invariant rules == JumpCommands(cmd, InterfaceJumps(ifc, chains[..j], target))
    {
      assert chains[..j+1][..j] == chains[..j];
      var more := ChainRules(ifc, cmd, chains[j], target);
      rules := rules + more;
      JumpCommandsConcat(cmd, InterfaceJumps(ifc, chains[..j], target), ChainJumps(ifc, chains[j], target));
    }
    assert chains[..|chains|] == chains;
  }

  method ChainJumpRules(o: TcpResetOpts, cmd: JumpCmd, chains: seq<string>, target: string) returns (rules: seq<Command>)
    ensures rules == JumpCommands(cmd, Jumps(o.InterfacesOrAll(), chains, target))
  {
    var ifcs := o.InterfacesOrAll();
    rules := [];
    for i := 0 to |ifcs|
      invariant rules == JumpCommands(cmd, Jumps(ifcs[..i], chains, target))
    {
      assert ifcs[..i+1][..i] == ifcs[..i];
      var more := InterfaceJumpRules(ifcs[i], cmd, chains, target);
      rules := rules + more;
      JumpCommandsConcat(cmd, Jumps(ifcs[..i], chains, target), InterfaceJumps(ifcs[i], chains, target));
    }
    assert ifcs[..|ifcs|] == ifcs;
  }

  function BodyCommands(chain: string, rules: seq<IpRule>): seq<Command> {
    seq(|rules|, i requires 0 <= i < |rules| => Append(chain, Leaf(rules[i])))
  }

  function TableAddScript(o: TcpResetOpts, chain: string, chains: seq<string>, rules: seq<IpRule>): seq<Command> {
    [NewChain(chain)]
    + JumpCommands(AppendOrInsert(o), Jumps(o.InterfacesOrAll(), chains, chain))
    + BodyCommands(chain, rules)
  }

  function TableDeleteScript(o: TcpResetOpts, chain: string, chains: seq<string>): seq<Command> {
    JumpCommands(JumpDelete, Jumps(o.InterfacesOrAll(), chains, chain)) + [Flush(chain), DeleteChain(chain)]
  }

  /** The scripts of one address family and an optimised filter; nothing when no include has
      the family. */
  function FilterOnly(mode: Mode, o: TcpResetOpts, g: Filter, family: nat): seq<Section> {
    var chain := o.RstFilterChainName();
    if !AnyNetHasFamily(g.included, family) then []
    else if mode == ModeAdd then [FilterSection(TableAddScript(o, chain, FILTER_CHAINS, ResetFilterChain(g, family)))]
    else [FilterSection(TableDeleteScript(o, chain, FILTER_CHAINS))]
  }

  function MangleMark(mode: Mode, o: TcpResetOpts, g: Filter, family: nat): seq<Section> {
    var mangle, filter := o.RstMangleChainName(), o.RstFilterChainName();
    if !AnyNetHasFamily(g.included, family) then []
    else if mode == ModeAdd then
      [MangleSection(TableAddScript(o, mangle, MANGLE_CHAINS, ResetMangleChain(g, family))),
       FilterSection(TableAddScript(o, filter, FILTER_CHAINS, ResetMarkChain(g, family)))]
    else
      [MangleSection(TableDeleteScript(o, mangle, MANGLE_CHAINS)),
       FilterSection(TableDeleteScript(o, filter, FILTER_CHAINS))]
  }

  function ScriptFor(mode: Mode, o: TcpResetOpts, g: Filter, family: nat): seq<Section> {
    if o.useMangleChain then MangleMark(mode, o, g, family) else FilterOnly(mode, o, g, family)
  }

  /** The script is that of a filter the given one optimises to. */
  ghost predicate ScriptOf(script: seq<Section>, mode: Mode, o: TcpResetOpts, f: Filter, family: nat) {
    exists g :: OptimizesTo(f, g) && script == ScriptFor(mode, o, g, family)
  }

  method WriteTableAdd(o: TcpResetOpts, chain: string, chains: seq<string>, rules: seq<IpRule>)
      returns (cmds: seq<Command>)
    ensures cmds == TableAddScript(o, chain, chains, rules)
  {
    cmds := [NewChain(chain)];
    var jumps := ChainJumpRules(o, AppendOrInsert(o), chains, chain);
    cmds := cmds + jumps;
    cmds := cmds + BodyCommands(chain, rules);
  }

  method WriteTableDelete(o: TcpResetOpts, chain: string, chains: seq<string>) returns (cmds: seq<Command>)
    ensures cmds == TableDeleteScript(o, chain, chains)
  {
    cmds := ChainJumpRules(o, JumpDelete, chains, chain);
    cmds := cmds + [Flush(chain), DeleteChain(chain)];
  }

  method ChainBody(g: Filter, family: nat, onExclude: Target, onInclude: Target) returns (rules: seq<IpRule>)
    ensures rules == Chain(ResetStyle, g, family, onExclude, onInclude)
  {
    var excludes := WriteRules(ResetStyle, g.excluded, family, onExclude);
    var includes := WriteRules(ResetStyle, g.included, family, onInclude);
    rules := excludes + includes;
  }

  method FilterOnlyScript(mode: Mode, o: TcpResetOpts, included: array<NetWithPortRange>,
                          excluded: array<NetWithPortRange>, family: nat)
      returns (script: seq<Section>, ghost g: Filter)
    modifies included
    ensures multiset(included[..]) == multiset(old(included[..]))
    ensures OptimizesTo(Filter(old(included[..]), old(excluded[..])), g) && script == FilterOnly(mode, o, g, family)
  {
    hide OptimizesTo, TableAddScript, TableDeleteScript, TcpResetOpts.RstFilterChainName, AnyNetHasFamily;
    var filter := OptimizeFilter(included, excluded);
    g := filter;
    var chain := o.RstFilterChainName();
    if !AnyNetHasFamily(filter.included, family) {
      script := [];
    } else if mode == ModeAdd {
      var body := ChainBody(filter, family, Accept, Reject);
      var cmds := WriteTableAdd(o, chain, FILTER_CHAINS, body);
      script := [FilterSection(cmds)];
    } else {
      var cmds := WriteTableDelete(o, chain, FILTER_CHAINS);
      script := [FilterSection(cmds)];
    }
  }

  method MangleMarkScript(mode: Mode, o: TcpResetOpts, included: array<NetWithPortRange>,
                          excluded: array<NetWithPortRange>, family: nat)
      returns (script: seq<Section>, ghost g: Filter)
    modifies included
    ensures multiset(included[..]) == multiset(old(included[..]))
    ensures OptimizesTo(Filter(old(included[..]), old(excluded[..])), g) && script == MangleMark(mode, o, g, family)
  {
    hide OptimizesTo, TableAddScript, TableDeleteScript, TcpResetOpts.RstFilterChainName,
      TcpResetOpts.RstMangleChainName, AnyNetHasFamily;
    var filter := OptimizeFilter(included, excluded);
    g := filter;
    var filterChain, mangleChain := o.RstFilterChainName(), o.RstMangleChainName();
    if !AnyNetHasFamily(filter.included, family) {
      script := [];
    } else if mode == ModeAdd {
      var body := ChainBody(filter, family, Return, SetMark(RESET_MARK));
      var marks := WriteTableAdd(o, mangleChain, MANGLE_CHAINS, body);
      var rejects := WriteTableAdd(o, filterChain, FILTER_CHAINS, [MarkRule(RESET_MARK, Reject)]);
      script := [MangleSection(marks), FilterSection(rejects)];
    } else {
      var marks := WriteTableDelete(o, mangleChain, MANGLE_CHAINS);
      var rejects := WriteTableDelete(o, filterChain, FILTER_CHAINS);
      script := [MangleSection(marks), FilterSection(rejects)];
    }
  }

  /** The filter is optimised anew for each script. */
  method IptablesScript(mode: Mode, o: TcpResetOpts, included: array<NetWithPortRange>,
                        excluded: array<NetWithPortRange>, family: nat) returns (script: seq<Section>)
    modifies included
    ensures multiset(included[..]) == multiset(old(included[..]))
    ensures ScriptOf(script, mode, o, Filter(old(included[..]), old(excluded[..])), family)
  {
    hide OptimizesTo, FilterOnly, MangleMark;
    ghost var g;
    if o.useMangleChain {
      script, g := MangleMarkScript(mode, o, included, excluded, family);
    } else {
      script, g := FilterOnlyScript(mode, o, included, excluded, family);
    }
    assert script == ScriptFor(mode, o, g, family);
  }

  // What is left after adding and deleting

  /** The rules of a chain that do not go to `target`, and those that do. */
  function Others(s: seq<ChainRule>, target: string): seq<ChainRule> {
    if s == [] then [] else (if GoesTo(s[0], target) then [] else [s[0]]) + Others(s[1..], target)
  }

  function Ours(s: seq<ChainRule>, target: string): multiset<ChainRule> {
    if s == [] then multiset{}
    else (if GoesTo(s[0], target) then multiset{s[0]} else multiset{}) + Ours(s[1..], target)
  }

  /** The rules a list of jumps puts into one chain. */
  function RulesIn(jumps: seq<JumpRule>, chain: string): multiset<ChainRule> {
    if jumps == [] then multiset{}
    else RulesIn(jumps[1..], chain) + if jumps[0].chain == chain then multiset{jumps[0].rule} else multiset{}
  }

  /** Chain `s` is `given` with exactly the jumps to `target` in `added` mixed in. */
  ghost predicate Mixed(s: seq<ChainRule>, given: seq<ChainRule>, target: string, added: multiset<ChainRule>) {
    Others(s, target) == given && Ours(s, target) == added
  }

  /** Table `u` is `t` with the attack chain, holding `body`, and the jumps mixed in. */
  ghost predicate Attacked(u: Table, t: Table, target: string, jumps: seq<JumpRule>, body: seq<ChainRule>) {
    && u.Keys == t.Keys + {target} && u[target] == body
    && forall c :: c in t ==> Mixed(u[c], t[c], target, RulesIn(jumps, c))
  }

  /** The state does not know the attack chain, and has the built-in chains. */
  ghost predicate Unaware(t: Table, target: string, chains: seq<string>) {
    target !in t && !Referenced(t, target) && forall c :: c in chains ==> c in t
  }

  ghost predicate JumpsInto(jumps: seq<JumpRule>, chains: seq<string>, target: string) {
    forall j :: j in jumps ==> j.chain in chains && j.rule.Jump? && j.rule.target == target
  }

  lemma {:induction false} InterfaceJumpsInto(ifc: string, chains: seq<string>, target: string)
    ensures JumpsInto(InterfaceJumps(ifc, chains, target), chains, target)
  {
    if chains != [] {
      hide ChainJumps;
      var rest, last := chains[..|chains|-1], chains[|chains|-1];
      InterfaceJumpsInto(ifc, rest, target);
      ChainJumpsInto(ifc, last, target);
    }
  }

  lemma ChainJumpsInto(ifc: string, chain: string, target: string)
    ensures forall j :: j in ChainJumps(ifc, chain, target) ==> j.chain == chain && j.rule.Jump? && j.rule.target == target
  {
  }

  lemma {:induction false} JumpsGoInto(ifcs: seq<string>, chains: seq<string>, target: string)
    ensures JumpsInto(Jumps(ifcs, chains, target), chains, target)
  {
    if ifcs != [] {
      JumpsGoInto(ifcs[..|ifcs|-1], chains, target);
      InterfaceJumpsInto(ifcs[|ifcs|-1], chains, target);
    }
  }

  lemma HeadAndTail<T>(a: seq<T>, b: seq<T>)
    requires a != []
    ensures [a[0]] + a[1..] == a && [a[0]] + (a[1..] + b) == a + b
  {
  }

  lemma ConcatAssociates<T>(a: seq<T>, b: seq<T>, c: seq<T>)
    ensures a + b + c == a + (b + c)
  {
  }

  lemma ConsChain(r: ChainRule, s: seq<ChainRule>, target: string)
    ensures Others([r] + s, target) == (if GoesTo(r, target) then [] else [r]) + Others(s, target)
    ensures Ours([r] + s, target) == (if GoesTo(r, target) then multiset{r} else multiset{}) + Ours(s, target)
  {
  }

  lemma {:induction false} SplitOthers(a: seq<ChainRule>, b: seq<ChainRule>, target: string)
    ensures Others(a + b, target) == Others(a, target) + Others(b, target)
  {
    hide GoesTo;
    if a == [] {
      assert a + b == b;
    } else {
      hide Others;
      ConsChain(a[0], a[1..], target);
      ConsChain(a[0], a[1..] + b, target);
      SplitOthers(a[1..], b, target);
      HeadAndTail(a, b);
      var own := if GoesTo(a[0], target) then [] else [a[0]];
      ConcatAssociates(own, Others(a[1..], target), Others(b, target));
    }
  }

  lemma {:induction false} SplitOurs(a: seq<ChainRule>, b: seq<ChainRule>, target: string)
    ensures Ours(a + b, target) == Ours(a, target) + Ours(b, target)
  {
    hide GoesTo;
    if a == [] {
      assert a + b == b;
    } else {
      hide Ours;
      ConsChain(a[0], a[1..], target);
      ConsChain(a[0], a[1..] + b, target);
      SplitOurs(a[1..], b, target);
      HeadAndTail(a, b);
    }
  }

  lemma SplitChain(a: seq<ChainRule>, b: seq<ChainRule>, target: string)
    ensures Others(a + b, target) == Others(a, target) + Others(b, target)
    ensures Ours(a + b, target) == Ours(a, target) + Ours(b, target)
  {
    SplitOthers(a, b, target);
    SplitOurs(a, b, target);
  }

  lemma OneJump(r: ChainRule, target: string)
    requires GoesTo(r, target)
    ensures Others([r], target) == [] && Ours([r], target) == multiset{r}
  {
  }

  /** Mixing one more jump in, at either end. */
  lemma MixIn(s: seq<ChainRule>, given: seq<ChainRule>, target: string, added: multiset<ChainRule>, r: ChainRule)
    requires Mixed(s, given, target, added) && GoesTo(r, target)
    ensures Mixed(s + [r], given, target, added + multiset{r})
    ensures Mixed([r] + s, given, target, added + multiset{r})
  {
    OneJump(r, target);
    SplitChain(s, [r], target);
    SplitChain([r], s, target);
  }

  lemma {:induction false} OursAreIn(s: seq<ChainRule>, target: string)
    ensures forall r :: r in Ours(s, target) ==> r in s
  {
    if s != [] { OursAreIn(s[1..], target); }
  }

  /** Removing the first rule equal to a mixed-in jump leaves the given rules alone. */
  lemma MixOut(s: seq<ChainRule>, given: seq<ChainRule>, target: string, added: multiset<ChainRule>, r: ChainRule)
    requires Mixed(s, given, target, added + multiset{r}) && GoesTo(r, target)
    ensures r in s && Mixed(RemoveFirst(s, r), given, target, added)
  {
    hide Others, Ours, GoesTo, IndexOf;
    OursAreIn(s, target);
    assert r in Ours(s, target);
    var i := IndexOf(s, r);
    RemovedRule(s[..i], r, s[i+1..], target);
    assert s == s[..i] + ([r] + s[i+1..]);
    SameRest(Ours(s[..i] + s[i+1..], target), added, r);
  }

  lemma SameRest<T>(a: multiset<T>, b: multiset<T>, x: T)
    requires a + multiset{x} == b + multiset{x}
    ensures a == b
  {
    assert a == a + multiset{x} - multiset{x};
    assert b == b + multiset{x} - multiset{x};
  }

  lemma RemovedRule(a: seq<ChainRule>, r: ChainRule, b: seq<ChainRule>, target: string)
    requires GoesTo(r, target)
    ensures Others(a + ([r] + b), target) == Others(a + b, target)
    ensures Ours(a + ([r] + b), target) == Ours(a + b, target) + multiset{r}
  {
    hide Others, Ours, GoesTo;
    OneJump(r, target);
    SplitChain(a, [r] + b, target);
    SplitChain([r], b, target);
    SplitChain(a, b, target);
  }

  lemma {:induction false} NothingMixedIn(s: seq<ChainRule>, target: string)
    requires Ours(s, target) == multiset{}
    ensures Others(s, target) == s
  {
    if s != [] {
      NothingMixedIn(s[1..], target);
    }
  }

  lemma {:induction false} NoneOfOurs(s: seq<ChainRule>, target: string)
    requires forall i :: 0 <= i < |s| ==> !GoesTo(s[i], target)
    ensures Mixed(s, s, target, multiset{})
  {
    if s != [] { NoneOfOurs(s[1..], target); }
  }

  lemma {:induction false} RulesInNext(jumps: seq<JumpRule>, j: JumpRule, chain: string)
    ensures RulesIn(jumps + [j], chain)
         == RulesIn(jumps, chain) + if j.chain == chain then multiset{j.rule} else multiset{}
  {
    if jumps == [] {
      assert jumps + [j] == [j];
    } else {
      RulesInNext(jumps[1..], j, chain);
      assert (jumps + [j])[1..] == jumps[1..] + [j];
    }
  }

  lemma {:induction false} ExecAllConcat(a: seq<Command>, b: seq<Command>, t: Table)
    ensures ExecAll(a + b, t) == match ExecAll(a, t) { case None => None case Some(u) => ExecAll(b, u) }
  {
    if a == [] {
      assert a + b == b;
    } else {
      assert (a + b)[1..] == a[1..] + b;
      if Exec(a[0], t).Some? { ExecAllConcat(a[1..], b, Exec(a[0], t).value); }
    }
  }

  // Running the scripts

  lemma JumpAdded(u: Table, t: Table, target: string, done: seq<JumpRule>, j: JumpRule, cmd: JumpCmd,
                  body: seq<ChainRule>)
    requires cmd != JumpDelete && target !in t && j.chain in t && j.rule.Jump? && j.rule.target == target
    requires Attacked(u, t, target, done, body)
    ensures var r := Exec(j.Command(cmd), u);
      r.Some? && Attacked(r.value, t, target, done + [j], body)
  {
    hide Mixed, RulesIn;
    var next := Exec(j.Command(cmd), u).value;
    forall c | c in t
      ensures Mixed(next[c], t[c], target, RulesIn(done + [j], c))
    {
      RulesInNext(done, j, c);
      if c == j.chain { MixIn(u[c], t[c], target, RulesIn(done, c), j.rule); }
      assert RulesIn(done, c) + multiset{} == RulesIn(done, c);
    }
  }

  /** After the jumps are added, each chain holds its given rules and its jumps. */
  lemma {:induction false} JumpsAdded(u: Table, t: Table, target: string, done: seq<JumpRule>, jumps: seq<JumpRule>,
                                      cmd: JumpCmd, chains: seq<string>, body: seq<ChainRule>)
    requires cmd != JumpDelete && Unaware(t, target, chains) && Attacked(u, t, target, done, body)
    requires JumpsInto(jumps, chains, target)
    ensures var r := ExecAll(JumpCommands(cmd, jumps), u);
      r.Some? && Attacked(r.value, t, target, done + jumps, body)
    decreases |jumps|
  {
    hide Attacked, Exec, Referenced;
    if jumps == [] {
      assert done + jumps == done;
    } else {
      var j := jumps[0];
      assert j in jumps;
      JumpAdded(u, t, target, done, j, cmd, body);
      var next := Exec(j.Command(cmd), u).value;
      JumpsAdded(next, t, target, done + [j], jumps[1..], cmd, chains, body);
      assert JumpCommands(cmd, jumps)[1..] == JumpCommands(cmd, jumps[1..]);
      assert done + [j] + jumps[1..] == done + jumps;
    }
  }

  lemma RulesInHead(j: JumpRule, rest: seq<JumpRule>, chain: string)
    ensures RulesIn([j] + rest, chain)
         == RulesIn(rest, chain) + if j.chain == chain then multiset{j.rule} else multiset{}
  {
  }

  lemma JumpDeleted(u: Table, t: Table, target: string, j: JumpRule, rest: seq<JumpRule>, body: seq<ChainRule>)
    requires target !in t && j.chain in t && j.rule.Jump? && j.rule.target == target
    requires Attacked(u, t, target, [j] + rest, body)
    ensures var r := Exec(j.Command(JumpDelete), u);
      r.Some? && Attacked(r.value, t, target, rest, body)
  {
    hide Mixed, RemoveFirst, RulesIn;
    RulesInHead(j, rest, j.chain);
    assert Mixed(u[j.chain], t[j.chain], target, RulesIn([j] + rest, j.chain));
    MixOut(u[j.chain], t[j.chain], target, RulesIn(rest, j.chain), j.rule);
    var next := Exec(j.Command(JumpDelete), u).value;
    forall c | c in t
      ensures Mixed(next[c], t[c], target, RulesIn(rest, c))
    {
      RulesInHead(j, rest, c);
      assert RulesIn(rest, c) + multiset{} == RulesIn(rest, c);
      assert Mixed(u[c], t[c], target, RulesIn([j] + rest, c));
    }
  }

  /** Deleting the same jumps in the same order takes all of them out again. */
  lemma {:induction false} JumpsDeleted(u: Table, t: Table, target: string, jumps: seq<JumpRule>, chains: seq<string>,
                                        body: seq<ChainRule>)
    requires Unaware(t, target, chains) && Attacked(u, t, target, jumps, body) && JumpsInto(jumps, chains, target)
    ensures var r := ExecAll(JumpCommands(JumpDelete, jumps), u);
      r.Some? && Attacked(r.value, t, target, [], body)
    decreases |jumps|
  {
    hide Attacked, Exec, Referenced;
    if jumps != [] {
      var j := jumps[0];
      assert j in jumps && jumps == [j] + jumps[1..];
      JumpDeleted(u, t, target, j, jumps[1..], body);
      var next := Exec(j.Command(JumpDelete), u).value;
      JumpsDeleted(next, t, target, jumps[1..], chains, body);
      assert JumpCommands(JumpDelete, jumps)[1..] == JumpCommands(JumpDelete, jumps[1..]);
    }
  }

  /** The rules of the attack chain, as the chain holds them. */
  function Leaves(rules: seq<IpRule>): seq<ChainRule> {
    seq(|rules|, i requires 0 <= i < |rules| => Leaf(rules[i]))
  }

  /** The rules a packet meets in a chain, apart from jumps and foreign ones. */
  function RulesOf(s: seq<ChainRule>): seq<IpRule> {
    if s == [] then [] else (if s[0].Leaf? then [s[0].rule] else []) + RulesOf(s[1..])
  }

  lemma {:induction false} RulesOfLeaves(rules: seq<IpRule>)
    ensures RulesOf(Leaves(rules)) == rules
  {
    if rules != [] {
      RulesOfLeaves(rules[1..]);
      assert Leaves(rules)[1..] == Leaves(rules[1..]);
    }
  }

  /** The body is appended in order. */
  lemma {:induction false} BodyAdded(u: Table, target: string, rules: seq<IpRule>)
    requires target in u
    ensures ExecAll(BodyCommands(target, rules), u) == Some(u[target := u[target] + Leaves(rules)])
    decreases |rules|
  {
    if rules == [] {
      assert u[target] + Leaves(rules) == u[target];
      assert u[target := u[target]] == u;
    } else {
      var next := Exec(Append(target, Leaf(rules[0])), u).value;
      BodyAdded(next, target, rules[1..]);
      assert BodyCommands(target, rules)[1..] == BodyCommands(target, rules[1..]);
      assert u[target] + [Leaf(rules[0])] + Leaves(rules[1..]) == u[target] + Leaves(rules);
      assert next[target := u[target] + Leaves(rules)] == u[target := u[target] + Leaves(rules)];
    }
  }

  // Where the jumps end up

  /** The jumps into one chain, in order. */
  function JumpsOf(jumps: seq<JumpRule>, chain: string): seq<ChainRule> {
    if jumps == [] then [] else (if jumps[0].chain == chain then [jumps[0].rule] else []) + JumpsOf(jumps[1..], chain)
  }

  /** The same, last first. */
  function JumpsBackwards(jumps: seq<JumpRule>, chain: string): seq<ChainRule> {
    if jumps == [] then [] else JumpsBackwards(jumps[1..], chain) + if jumps[0].chain == chain then [jumps[0].rule] else []
  }

  /** Prepended jumps come before all the given rules, appended ones after. */
  function Placed(prepend: bool, given: seq<ChainRule>, jumps: seq<JumpRule>, chain: string): seq<ChainRule> {
    if prepend then JumpsBackwards(jumps, chain) + given else given + JumpsOf(jumps, chain)
  }

  lemma PlacedNext(prepend: bool, given: seq<ChainRule>, j: JumpRule, rest: seq<JumpRule>, chain: string)
    ensures Placed(prepend, given, [j] + rest, chain) == Placed(prepend,
      if j.chain != chain then given else if prepend then [j.rule] + given else given + [j.rule], rest, chain)
  {
    var jumps := [j] + rest;
    assert jumps[1..] == rest;
    if j.chain == chain {
      assert JumpsBackwards(rest, chain) + [j.rule] + given == JumpsBackwards(rest, chain) + ([j.rule] + given);
      assert given + ([j.rule] + JumpsOf(rest, chain)) == given + [j.rule] + JumpsOf(rest, chain);
    } else {
      assert JumpsBackwards(rest, chain) + [] == JumpsBackwards(rest, chain);
    }
  }

  function PlacingCmd(prepend: bool): JumpCmd { if prepend then JumpInsert else JumpAppend }

  lemma JumpExecuted(u: Table, j: JumpRule, prepend: bool, target: string) returns (next: Table)
    requires target in u && j.chain in u && j.rule.Jump? && j.rule.target == target
    ensures Exec(j.Command(PlacingCmd(prepend)), u) == Some(next) && next.Keys == u.Keys
    ensures forall c :: c in u ==>
      next[c] == if j.chain != c then u[c] else if prepend then [j.rule] + u[c] else u[c] + [j.rule]
  {
    next := Exec(j.Command(PlacingCmd(prepend)), u).value;
  }

  lemma NonePlaced(given: seq<ChainRule>, prepend: bool, chain: string)
    ensures Placed(prepend, given, [], chain) == given
  {
  }

  lemma RunsFirst(j: JumpRule, jumps: seq<JumpRule>, cmd: JumpCmd, u: Table, next: Table)
    requires jumps != [] && j == jumps[0] && Exec(j.Command(cmd), u) == Some(next)
    ensures ExecAll(JumpCommands(cmd, jumps), u) == ExecAll(JumpCommands(cmd, jumps[1..]), next)
  {
    assert JumpCommands(cmd, jumps)[1..] == JumpCommands(cmd, jumps[1..]);
  }

  lemma {:induction false} JumpsPlaced(u: Table, jumps: seq<JumpRule>, prepend: bool, target: string)
    requires target in u && forall j :: j in jumps ==> j.chain in u && j.rule.Jump? && j.rule.target == target
    ensures var r := ExecAll(JumpCommands(PlacingCmd(prepend), jumps), u);
      r.Some? && r.value.Keys == u.Keys && forall c :: c in u ==> r.value[c] == Placed(prepend, u[c], jumps, c)
    decreases |jumps|
  {
    hide Placed, Exec, JumpRule.Command, PlacingCmd;
    if jumps == [] {
      forall c | c in u
        ensures Placed(prepend, u[c], jumps, c) == u[c]
      {
        NonePlaced(u[c], prepend, c);
      }
    } else {
      hide ExecAll, JumpCommands;
      var j := jumps[0];
      assert j in jumps && jumps == [j] + jumps[1..];
      var next := JumpExecuted(u, j, prepend, target);
      RunsFirst(j, jumps, PlacingCmd(prepend), u, next);
      JumpsPlaced(next, jumps[1..], prepend, target);
      forall c | c in u
        ensures Placed(prepend, next[c], jumps[1..], c) == Placed(prepend, u[c], jumps, c)
      {
        PlacedNext(prepend, u[c], j, jumps[1..], c);
      }
    }
  }

  /** The attack chain holds the rules in order, and each given chain its jumps. */
  ghost predicate Laid(u: Table, t: Table, prepend: bool, chain: string, jumps: seq<JumpRule>, rules: seq<IpRule>) {
    && chain in u && u[chain] == Leaves(rules)
    && forall c :: c in t ==> c in u && u[c] == Placed(prepend, t[c], jumps, c)
  }

  lemma TableAttacked(o: TcpResetOpts, t: Table, chain: string, chains: seq<string>, rules: seq<IpRule>)
    requires Unaware(t, chain, chains)
    ensures var r, jumps := ExecAll(TableAddScript(o, chain, chains, rules), t), Jumps(o.InterfacesOrAll(), chains, chain);
      && r.Some? && Attacked(r.value, t, chain, jumps, Leaves(rules))
      && Laid(r.value, t, o.prepend, chain, jumps, rules)
  {
    hide Attacked, Laid, Referenced, Placed, Jumps, JumpsInto, ExecAll, BodyCommands;
    var jumps := Jumps(o.InterfacesOrAll(), chains, chain);
    var u := t[chain := []];
    StartsAttacked(t, chain, chains);
    JumpsGoInto(o.InterfacesOrAll(), chains, chain);
    JumpsAdded(u, t, chain, [], jumps, AppendOrInsert(o), chains, []);
    assert [] + jumps == jumps;
    var added := JumpCommands(AppendOrInsert(o), jumps);
    var v := ExecAll(added, u).value;
    JumpsLaid(o, t, chain, chains, jumps, v);
    BodyLaid(v, t, o.prepend, chain, jumps, rules);
    AddScriptRuns(t, chain, added, BodyCommands(chain, rules), u, v);
  }

  lemma JumpsLaid(o: TcpResetOpts, t: Table, chain: string, chains: seq<string>, jumps: seq<JumpRule>, v: Table)
    requires Unaware(t, chain, chains) && JumpsInto(jumps, chains, chain)
    requires ExecAll(JumpCommands(AppendOrInsert(o), jumps), t[chain := []]) == Some(v)
    ensures forall c :: c in t ==> c in v && v[c] == Placed(o.prepend, t[c], jumps, c)
  {
    hide Placed, ExecAll, Referenced;
    var u := t[chain := []];
    assert AppendOrInsert(o) == PlacingCmd(o.prepend);
    forall j | j in jumps
      ensures j.chain in u && j.rule.Jump? && j.rule.target == chain
    {
      assert j.chain in chains;
    }
    JumpsPlaced(u, jumps, o.prepend, chain);
    assert forall c :: c in t ==> c != chain && u[c] == t[c];
  }

  lemma BodyLaid(v: Table, t: Table, prepend: bool, chain: string, jumps: seq<JumpRule>, rules: seq<IpRule>)
    requires chain !in t && Attacked(v, t, chain, jumps, [])
    requires forall c :: c in t ==> c in v && v[c] == Placed(prepend, t[c], jumps, c)
    ensures var r := ExecAll(BodyCommands(chain, rules), v);
      r.Some? && Attacked(r.value, t, chain, jumps, Leaves(rules)) && Laid(r.value, t, prepend, chain, jumps, rules)
  {
    hide Mixed, Placed, ExecAll;
    BodyAdded(v, chain, rules);
    assert [] + Leaves(rules) == Leaves(rules);
  }

  lemma AddScriptRuns(t: Table, chain: string, added: seq<Command>, body: seq<Command>, u: Table, v: Table)
    requires u == t[chain := []] && ExecAll(added, u) == Some(v)
    ensures ExecAll([NewChain(chain)] + added + body, t) == ExecAll(body, v)
  {
    ExecAllConcat([NewChain(chain)] + added, body, t);
    ExecAllConcat([NewChain(chain)], added, t);
    assert ExecAll([NewChain(chain)], t) == Some(u);
  }

  lemma StartsAttacked(t: Table, chain: string, chains: seq<string>)
    requires Unaware(t, chain, chains)
    ensures Attacked(t[chain := []], t, chain, [], [])
  {
    forall c | c in t
      ensures Mixed(t[chain := []][c], t[c], chain, RulesIn([], c))
    {
      NoneOfOurs(t[c], chain);
    }
  }

  lemma FlushAndDelete(v: Table, t: Table, chain: string)
    requires chain !in t && !Referenced(t, chain)
    requires v.Keys == t.Keys + {chain} && forall c :: c in t ==> v[c] == t[c]
    ensures ExecAll([Flush(chain), DeleteChain(chain)], v) == Some(t)
  {
    var w := v[chain := []];
    assert !Referenced(w, chain);
    assert w - {chain} == t;
    var cmds := [Flush(chain), DeleteChain(chain)];
    assert cmds[1..] == [DeleteChain(chain)] && cmds[1..][1..] == [];
    assert ExecAll(cmds[1..], w) == Some(t);
  }

  lemma TableRestored(o: TcpResetOpts, u: Table, t: Table, chain: string, chains: seq<string>, body: seq<ChainRule>)
    requires Unaware(t, chain, chains) && Attacked(u, t, chain, Jumps(o.InterfacesOrAll(), chains, chain), body)
    ensures ExecAll(TableDeleteScript(o, chain, chains), u) == Some(t)
  {
    hide ExecAll, Referenced, Jumps, JumpsInto;
    var jumps := Jumps(o.InterfacesOrAll(), chains, chain);
    JumpsGoInto(o.InterfacesOrAll(), chains, chain);
    JumpsDeleted(u, t, chain, jumps, chains, body);
    var v := ExecAll(JumpCommands(JumpDelete, jumps), u).value;
    forall c | c in t
      ensures v[c] == t[c]
    {
      NothingMixedIn(v[c], chain);
    }
    FlushAndDelete(v, t, chain);
    ExecAllConcat(JumpCommands(JumpDelete, jumps), [Flush(chain), DeleteChain(chain)], u);
  }

  lemma RoundTrip(o: TcpResetOpts, t: Table, chain: string, chains: seq<string>, rules: seq<IpRule>) returns (u: Table)
    requires Unaware(t, chain, chains)
    ensures ExecAll(TableAddScript(o, chain, chains, rules), t) == Some(u)
    ensures Laid(u, t, o.prepend, chain, Jumps(o.InterfacesOrAll(), chains, chain), rules)
    ensures ExecAll(TableDeleteScript(o, chain, chains), u) == Some(t)
  {
    TableAttacked(o, t, chain, chains, rules);
    u := ExecAll(TableAddScript(o, chain, chains, rules), t).value;
    TableRestored(o, u, t, chain, chains, Leaves(rules));
  }

  lemma OneSection(cmds: seq<Command>, t: Tables, u: Table)
    requires ExecAll(cmds, t.filter) == Some(u)
    ensures ExecScript([FilterSection(cmds)], t) == Some(t.(filter := u))
  {
  }

  lemma TwoSections(a: seq<Command>, b: seq<Command>, t: Tables, u: Table, v: Table)
    requires ExecAll(a, t.mangle) == Some(u) && ExecAll(b, t.filter) == Some(v)
    ensures ExecScript([MangleSection(a), FilterSection(b)], t) == Some(Tables(v, u))
  {
    var script := [MangleSection(a), FilterSection(b)];
    assert script[1..] == [FilterSection(b)];
    OneSection(b, t.(mangle := u), v);
  }

  /** Optimising keeps the families of the includes, on any list. */
  lemma OptimizedKeepsFamilies(f: Filter, g: Filter, family: nat)
    requires ValidFilter(f) && OptimizesTo(f, g)
    ensures AnyNetHasFamily(g.included, family) <==> AnyNetHasFamily(f.included, family)
  {
    DeduplicatedSelects(g.included, f.included);
    if i :| 0 <= i < |f.included| && |f.included[i].net.ip| == family {
      var j := AbsorberOf(g.included, f.included, f.included[i]);
      assert |g.included[j].net.ip| == family;
    }
    if j :| 0 <= j < |g.included| && |g.included[j].net.ip| == family {
      assert g.included[j] in f.included;
      var i :| 0 <= i < |f.included| && f.included[i] == g.included[j];
    }
  }

  lemma SameEntriesSameFamilies(f: Filter, h: Filter, family: nat)
    requires SameEntries(f, h) && AnyNetHasFamily(f.included, family)
    ensures AnyNetHasFamily(h.included, family)
  {
    var i :| 0 <= i < |f.included| && |f.included[i].net.ip| == family;
    assert f.included[i] in h.included;
    var j :| 0 <= j < |h.included| && h.included[j] == f.included[i];
  }

  /** Both modes write a script for the same families. */
  lemma BothModesAgreeOnFamily(f: Filter, g: Filter, later: Filter, h: Filter, family: nat)
    requires ValidFilter(f) && SameEntries(f, later) && OptimizesTo(f, g) && OptimizesTo(later, h)
    ensures AnyNetHasFamily(g.included, family) <==> AnyNetHasFamily(h.included, family)
  {
    hide OptimizesTo, AnyNetHasFamily;
    OptimizedKeepsFamilies(f, g, family);
    OptimizedKeepsFamilies(later, h, family);
    if AnyNetHasFamily(f.included, family) { SameEntriesSameFamilies(f, later, family); }
    if AnyNetHasFamily(later.included, family) { SameEntriesSameFamilies(later, f, family); }
  }

  lemma OptimisedAddThenDelete(o: TcpResetOpts, g: Filter, h: Filter, family: nat, t: Tables)
    requires AnyNetHasFamily(g.included, family) <==> AnyNetHasFamily(h.included, family)
    requires Unaware(t.filter, o.RstFilterChainName(), FILTER_CHAINS)
    requires o.useMangleChain ==> Unaware(t.mangle, o.RstMangleChainName(), MANGLE_CHAINS)
    ensures var added := ExecScript(ScriptFor(ModeAdd, o, g, family), t);
      added.Some? && ExecScript(ScriptFor(ModeDelete, o, h, family), added.value) == Some(t)
  {
    hide ExecAll, Exec, Attacked, Unaware, TableAddScript, TableDeleteScript, TcpResetOpts.RstFilterChainName,
      TcpResetOpts.RstMangleChainName, ResetMangleChain, ResetMarkChain, ResetFilterChain;
    var f, m := o.RstFilterChainName(), o.RstMangleChainName();
    if AnyNetHasFamily(g.included, family) {
      if o.useMangleChain {
        var um := RoundTrip(o, t.mangle, m, MANGLE_CHAINS, ResetMangleChain(g, family));
        var uf := RoundTrip(o, t.filter, f, FILTER_CHAINS, ResetMarkChain(g, family));
        TwoSections(TableAddScript(o, m, MANGLE_CHAINS, ResetMangleChain(g, family)),
                    TableAddScript(o, f, FILTER_CHAINS, ResetMarkChain(g, family)), t, um, uf);
        TwoSections(TableDeleteScript(o, m, MANGLE_CHAINS), TableDeleteScript(o, f, FILTER_CHAINS),
                    Tables(uf, um), t.mangle, t.filter);
      } else {
        var uf := RoundTrip(o, t.filter, f, FILTER_CHAINS, ResetFilterChain(g, family));
        OneSection(TableAddScript(o, f, FILTER_CHAINS, ResetFilterChain(g, family)), t, uf);
        OneSection(TableDeleteScript(o, f, FILTER_CHAINS), t.(filter := uf), t.filter);
      }
    }
  }

  /** Adding the attack and deleting it again is the identity on every state that does not
      mention the attack's chains: append or prepend, filter-only or mangle, any interface
      list with repeats, either family, and any valid filter. The delete script optimises the
      filter anew, its lists possibly in another order and its ties broken differently. No
      command of either script fails; in particular each chain is empty and unreferenced when
      it is deleted. */
  lemma AddThenDeleteIsIdentity(add: seq<Section>, del: seq<Section>, o: TcpResetOpts, f: Filter, later: Filter,
                                family: nat, t: Tables)
    requires ValidFilter(f) && SameEntries(f, later)
    requires ScriptOf(add, ModeAdd, o, f, family) && ScriptOf(del, ModeDelete, o, later, family)
    requires Unaware(t.filter, o.RstFilterChainName(), FILTER_CHAINS)
    requires o.useMangleChain ==> Unaware(t.mangle, o.RstMangleChainName(), MANGLE_CHAINS)
    ensures var added := ExecScript(add, t);
      added.Some? && ExecScript(del, added.value) == Some(t)
  {
    hide ScriptFor, Unaware, ExecScript, OptimizesTo, ValidFilter, SameEntries,
      TcpResetOpts.RstFilterChainName, TcpResetOpts.RstMangleChainName;
    var g :| OptimizesTo(f, g) && add == ScriptFor(ModeAdd, o, g, family);
    var h :| OptimizesTo(later, h) && del == ScriptFor(ModeDelete, o, h, family);
    BothModesAgreeOnFamily(f, g, later, h, family);
    OptimisedAddThenDelete(o, g, h, family, t);
  }

  // What the executed scripts do to a packet

  /** The way of a packet through the host: out of an interface, into one, or both. */
  datatype Path = Outgoing(dev: string) | Incoming(dev: string) | Forwarded(inDev: string, outDev: string)

  function InDev(path: Path): Option<string> {
    match path case Outgoing(_) => None case Incoming(d) => Some(d) case Forwarded(d, _) => Some(d)
  }

  function OutDev(path: Path): Option<string> {
    match path case Outgoing(d) => Some(d) case Incoming(_) => None case Forwarded(_, d) => Some(d)
  }

  /** The built-in chain of each table that is about packets on this way. */
  function FilterHook(path: Path): string {
    match path case Outgoing(_) => "OUTPUT" case Incoming(_) => "INPUT" case Forwarded(_, _) => "FORWARD"
  }

  function MangleHook(path: Path): string {
    match path case Outgoing(_) => "OUTPUT" case Incoming(_) => "PREROUTING" case Forwarded(_, _) => "FORWARD"
  }

  /** The packet uses one of the interfaces to be attacked; all of them if none is named. */
  predicate Uses(o: TcpResetOpts, path: Path) {
    || o.interfaces == [] || "" in o.interfaces
    || (InDev(path).Some? && InDev(path).value in o.interfaces)
    || (OutDev(path).Some? && OutDev(path).value in o.interfaces)
  }

  predicate IsOn(path: Path, ifc: string) {
    ifc == "" || InDev(path) == Some(ifc) || OutDev(path) == Some(ifc)
  }

  predicate JumpMatches(r: ChainRule, path: Path, target: string) {
    && r.Jump? && r.target == target
    && (r.inIf != "" ==> InDev(path) == Some(r.inIf)) && (r.outIf != "" ==> OutDev(path) == Some(r.outIf))
  }

  /** The built-in chain sends the packet to the attack chain. */
  ghost predicate Reaches(t: Table, hook: string, path: Path, target: string) {
    hook in t && target in t && exists r :: r in t[hook] && JumpMatches(r, path, target)
  }

  /** The packet's mark when it has been through the mangle table. */
  ghost function MarkAfterMangle(t: Tables, o: TcpResetOpts, path: Path, p: Tcp, mark: nat): nat {
    var chain := o.RstMangleChainName();
    if o.useMangleChain && Reaches(t.mangle, MangleHook(path), path, chain)
    then Run(RulesOf(t.mangle[chain]), p, mark).mark else mark
  }

  /** The packet is reset in the filter table. */
  ghost predicate Resets(t: Tables, o: TcpResetOpts, path: Path, p: Tcp, mark: nat) {
    var chain := o.RstFilterChainName();
    && Reaches(t.filter, FilterHook(path), path, chain)
    && Run(RulesOf(t.filter[chain]), p, MarkAfterMangle(t, o, path, p, mark)).verdict == Rejected
  }

  lemma {:induction false} JumpsOfMembers(jumps: seq<JumpRule>, chain: string, r: ChainRule)
    ensures r in JumpsOf(jumps, chain) <==> JumpRule(chain, r) in jumps
    ensures r in JumpsBackwards(jumps, chain) <==> JumpRule(chain, r) in jumps
  {
    if jumps != [] {
      JumpsOfMembers(jumps[1..], chain, r);
      assert jumps == [jumps[0]] + jumps[1..];
    }
  }

  lemma {:induction false} InterfaceJumpsOnly(ifc: string, chains: seq<string>, target: string)
    ensures forall j :: j in InterfaceJumps(ifc, chains, target) ==> j in ChainJumps(ifc, j.chain, target)
  {
    if chains != [] {
      hide ChainJumps;
      InterfaceJumpsOnly(ifc, chains[..|chains|-1], target);
      ChainJumpsInto(ifc, chains[|chains|-1], target);
    }
  }

  lemma {:induction false} JumpsOnly(ifcs: seq<string>, chains: seq<string>, target: string)
    ensures forall j :: j in Jumps(ifcs, chains, target) ==> exists ifc :: ifc in ifcs && j in ChainJumps(ifc, j.chain, target)
  {
    if ifcs != [] {
      hide ChainJumps, InterfaceJumps;
      var rest, last := ifcs[..|ifcs|-1], ifcs[|ifcs|-1];
      JumpsOnly(rest, chains, target);
      InterfaceJumpsOnly(last, chains, target);
      assert last in ifcs;
      forall j | j in Jumps(ifcs, chains, target)
        ensures exists ifc :: ifc in ifcs && j in ChainJumps(ifc, j.chain, target)
      {
        if j in Jumps(rest, chains, target) {
          var ifc :| ifc in rest && j in ChainJumps(ifc, j.chain, target);
          assert ifc in ifcs;
        }
      }
    }
  }

  /** A jump of the packet's hook matches it exactly if it is for an interface it uses. */
  lemma HookJumpMatches(ifc: string, hook: string, path: Path, target: string)
    requires hook == FilterHook(path) || hook == MangleHook(path)
    ensures (exists r :: JumpRule(hook, r) in ChainJumps(ifc, hook, target) && JumpMatches(r, path, target))
       <==> IsOn(path, ifc)
  {
    var i, o := Jump(ifc, "", target), Jump("", ifc, target);
    assert hook != "OUTPUT" ==> JumpRule(hook, i) in ChainJumps(ifc, hook, target);
    assert hook == "OUTPUT" ==> JumpRule(hook, o) in ChainJumps(ifc, hook, target);
    assert hook == "FORWARD" && ifc != "" ==> JumpRule(hook, o) in ChainJumps(ifc, hook, target);
    assert ifc == "" ==> JumpMatches(i, path, target) && JumpMatches(o, path, target);
    assert InDev(path) == Some(ifc) ==> JumpMatches(i, path, target);
    assert OutDev(path) == Some(ifc) ==> JumpMatches(o, path, target);
  }

  lemma UsesSome(o: TcpResetOpts, path: Path)
    ensures Uses(o, path) <==> exists ifc :: ifc in o.InterfacesOrAll() && IsOn(path, ifc)
  {
    var ifcs := o.InterfacesOrAll();
    if Uses(o, path) {
      if o.interfaces == [] || "" in o.interfaces {
        assert "" in ifcs && IsOn(path, "");
      } else if InDev(path).Some? && InDev(path).value in ifcs {
        assert IsOn(path, InDev(path).value);
      } else {
        assert IsOn(path, OutDev(path).value);
      }
    }
  }

  /** The executed table sends a packet to the attack chain exactly if it uses an attacked
      interface. */
  lemma LaidReaches(o: TcpResetOpts, u: Table, t: Table, chain: string, chains: seq<string>, rules: seq<IpRule>,
                    path: Path, hook: string)
    requires Unaware(t, chain, chains) && hook in chains
    requires forall c :: c in chains ==> c in FILTER_CHAINS + MANGLE_CHAINS
    requires hook == FilterHook(path) || hook == MangleHook(path)
    requires Laid(u, t, o.prepend, chain, Jumps(o.InterfacesOrAll(), chains, chain), rules)
    ensures Reaches(u, hook, path, chain) <==> Uses(o, path)
  {
    hide ChainJumps, Jumps, Uses, JumpMatches, Leaves, TcpResetOpts.InterfacesOrAll;
    var ifcs := o.InterfacesOrAll();
    var jumps := Jumps(ifcs, chains, chain);
    UsesSome(o, path);
    if Reaches(u, hook, path, chain) {
      var r :| r in u[hook] && JumpMatches(r, path, chain);
      GivenDoNotJump(t, chain, hook, r, path);
      JumpsOfMembers(jumps, hook, r);
      JumpsOnly(ifcs, chains, chain);
      var ifc :| ifc in ifcs && JumpRule(hook, r) in ChainJumps(ifc, hook, chain);
      HookJumpMatches(ifc, hook, path, chain);
    }
    if Uses(o, path) {
      var ifc :| ifc in ifcs && IsOn(path, ifc);
      HookJumpMatches(ifc, hook, path, chain);
      var r :| JumpRule(hook, r) in ChainJumps(ifc, hook, chain) && JumpMatches(r, path, chain);
      AllJumpsLaid(ifcs, chains, chain, ifc, hook, r);
      JumpsOfMembers(jumps, hook, r);
      assert r in u[hook];
    }
  }

  lemma GivenDoNotJump(t: Table, chain: string, hook: string, r: ChainRule, path: Path)
    requires !Referenced(t, chain) && hook in t && JumpMatches(r, path, chain)
    ensures r !in t[hook]
  {
    assert forall i :: 0 <= i < |t[hook]| ==> !GoesTo(t[hook][i], chain);
  }

  lemma AllJumpsLaid(ifcs: seq<string>, chains: seq<string>, target: string, ifc: string, hook: string, r: ChainRule)
    requires ifc in ifcs && hook in chains && JumpRule(hook, r) in ChainJumps(ifc, hook, target)
    requires forall c :: c in chains ==> c in FILTER_CHAINS + MANGLE_CHAINS
    ensures JumpRule(hook, r) in Jumps(ifcs, chains, target)
  {
    hide Jumps;
    EveryInterfaceIsCaught(ifcs, chains, target);
    assert CatchesBoth(Jumps(ifcs, chains, target), ifc, hook, target);
  }

  lemma AttackChainRejects(g: Filter, p: Tcp, mark: nat)
    requires ValidFilter(g) && OrdinaryPorts(p.ends) && |p.ends.src.address| == |p.ends.dst.address|
    requires AnyNetHasFamily(g.included, Family(p))
    ensures Run(RulesOf(Leaves(ResetFilterChain(g, Family(p)))), p, mark).verdict == Rejected <==> Affected(g, p.ends)
    ensures Run(RulesOf(Leaves(ResetMangleChain(g, Family(p)))), p, mark).mark
         == if Affected(g, p.ends) then RESET_MARK else mark
    ensures Run(RulesOf(Leaves(ResetMarkChain(g, Family(p)))), p, mark).verdict == Rejected <==> mark == RESET_MARK
  {
    RulesOfLeaves(ResetFilterChain(g, Family(p)));
    RulesOfLeaves(ResetMangleChain(g, Family(p)));
    RulesOfLeaves(ResetMarkChain(g, Family(p)));
    RejectChainRejectsAffected(g, p, mark);
    MarkChainMarksAffected(ResetStyle, g, RESET_MARK, p, mark);
    MarkedIsRejected(p, mark);
  }

  ghost predicate FilterHooks(t: Table) { "OUTPUT" in t && "INPUT" in t && "FORWARD" in t }

  ghost predicate MangleHooks(t: Table) { "OUTPUT" in t && "PREROUTING" in t && "FORWARD" in t }

  /** What an attack on the state must be able to rely on. */
  ghost predicate Attackable(o: TcpResetOpts, t: Tables) {
    && FilterHooks(t.filter) && o.RstFilterChainName() !in t.filter && !Referenced(t.filter, o.RstFilterChainName())
    && (o.useMangleChain ==>
          MangleHooks(t.mangle) && o.RstMangleChainName() !in t.mangle && !Referenced(t.mangle, o.RstMangleChainName()))
  }

  lemma AttackableIsUnaware(o: TcpResetOpts, t: Tables)
    requires Attackable(o, t)
    ensures Unaware(t.filter, o.RstFilterChainName(), FILTER_CHAINS)
    ensures o.useMangleChain ==> Unaware(t.mangle, o.RstMangleChainName(), MANGLE_CHAINS)
  {
    hide Referenced, TcpResetOpts.RstFilterChainName, TcpResetOpts.RstMangleChainName;
  }

  /** What the add script leaves: both tables laid out, or the state as it was. */
  lemma AddScriptLays(o: TcpResetOpts, g: Filter, family: nat, t: Tables) returns (u: Tables)
    requires Attackable(o, t)
    ensures ExecScript(ScriptFor(ModeAdd, o, g, family), t) == Some(u)
    ensures !AnyNetHasFamily(g.included, family) ==> u == t
    ensures var f, m, ifcs := o.RstFilterChainName(), o.RstMangleChainName(), o.InterfacesOrAll();
      AnyNetHasFamily(g.included, family) ==>
        && Laid(u.filter, t.filter, o.prepend, f, Jumps(ifcs, FILTER_CHAINS, f),
                if o.useMangleChain then ResetMarkChain(g, family) else ResetFilterChain(g, family))
        && (if o.useMangleChain
            then Laid(u.mangle, t.mangle, o.prepend, m, Jumps(ifcs, MANGLE_CHAINS, m), ResetMangleChain(g, family))
            else u.mangle == t.mangle)
  {
    AttackableIsUnaware(o, t);
    hide ExecAll, Exec, Attacked, Unaware, Laid, TableAddScript, TableDeleteScript, TcpResetOpts.RstFilterChainName,
      TcpResetOpts.RstMangleChainName, ResetMangleChain, ResetMarkChain, ResetFilterChain, Referenced;
    var f, m := o.RstFilterChainName(), o.RstMangleChainName();
    u := t;
    if AnyNetHasFamily(g.included, family) {
      if o.useMangleChain {
        var um := RoundTrip(o, t.mangle, m, MANGLE_CHAINS, ResetMangleChain(g, family));
        var uf := RoundTrip(o, t.filter, f, FILTER_CHAINS, ResetMarkChain(g, family));
        TwoSections(TableAddScript(o, m, MANGLE_CHAINS, ResetMangleChain(g, family)),
                    TableAddScript(o, f, FILTER_CHAINS, ResetMarkChain(g, family)), t, um, uf);
        u := Tables(uf, um);
      } else {
        var uf := RoundTrip(o, t.filter, f, FILTER_CHAINS, ResetFilterChain(g, family));
        OneSection(TableAddScript(o, f, FILTER_CHAINS, ResetFilterChain(g, family)), t, uf);
        u := t.(filter := uf);
      }
    }
  }

  /** The attack chains of the executed state, run on the packets of the attacked interfaces,
      reset exactly the affected packets; in mangle mode also those that carried the mark. */
  lemma AttackResetsAffected(o: TcpResetOpts, g: Filter, t: Tables, path: Path, p: Tcp, mark: nat)
    requires ValidFilter(g) && Attackable(o, t)
    requires OrdinaryPorts(p.ends) && |p.ends.src.address| == |p.ends.dst.address|
    ensures var added := ExecScript(ScriptFor(ModeAdd, o, g, Family(p)), t);
      var marked := o.useMangleChain && mark == RESET_MARK && AnyNetHasFamily(g.included, Family(p));
      && added.Some?
      && (Resets(added.value, o, path, p, mark) <==> Uses(o, path) && (Affected(g, p.ends) || marked))
      && (Resets(added.value, o, path, p, 0) <==> Uses(o, path) && Affected(g, p.ends))
  {
    var u := AddScriptLays(o, g, Family(p), t);
    AttackableIsUnaware(o, t);
    if AnyNetHasFamily(g.included, Family(p)) {
      LaidResets(o, g, t, u, path, p, mark);
      LaidResets(o, g, t, u, path, p, 0);
    } else {
      NoFamilyNothingAffected(g, p);
    }
  }

  lemma LaidResets(o: TcpResetOpts, g: Filter, t: Tables, u: Tables, path: Path, p: Tcp, mark: nat)
    requires ValidFilter(g) && Attackable(o, t) && AnyNetHasFamily(g.included, Family(p))
    requires OrdinaryPorts(p.ends) && |p.ends.src.address| == |p.ends.dst.address|
    requires var f, m, ifcs := o.RstFilterChainName(), o.RstMangleChainName(), o.InterfacesOrAll();
      && Laid(u.filter, t.filter, o.prepend, f, Jumps(ifcs, FILTER_CHAINS, f),
              if o.useMangleChain then ResetMarkChain(g, Family(p)) else ResetFilterChain(g, Family(p)))
      && (o.useMangleChain ==>
            Laid(u.mangle, t.mangle, o.prepend, m, Jumps(ifcs, MANGLE_CHAINS, m), ResetMangleChain(g, Family(p))))
    ensures Resets(u, o, path, p, mark)
      <==> Uses(o, path) && (Affected(g, p.ends) || (o.useMangleChain && mark == RESET_MARK))
  {
    AttackableIsUnaware(o, t);
    var f, m, ifcs := o.RstFilterChainName(), o.RstMangleChainName(), o.InterfacesOrAll();
    LaidReaches(o, u.filter, t.filter, f, FILTER_CHAINS,
                if o.useMangleChain then ResetMarkChain(g, Family(p)) else ResetFilterChain(g, Family(p)),
                path, FilterHook(path));
    AttackChainRejects(g, p, mark);
    AttackChainRejects(g, p, MarkAfterMangle(u, o, path, p, mark));
    if o.useMangleChain {
      LaidReaches(o, u.mangle, t.mangle, m, MANGLE_CHAINS, ResetMangleChain(g, Family(p)), path, MangleHook(path));
    }
  }

  // Chain names

  /** The end of an execution's identifier that goes into the names of its chains. */
  function Tail(id: string): string { if |id| > 12 then id[|id| - 12..] else id }

  /** Executions whose identifiers end differently have different chains, and every name fits
      the 28 characters a chain name may have. */
  lemma ChainNamesTellApart(o: TcpResetOpts, q: TcpResetOpts)
    ensures |o.RstFilterChainName()| <= 28 && |o.RstMangleChainName()| <= 28
    ensures o.executionId != "" && q.executionId != "" && Tail(o.executionId) != Tail(q.executionId)
      ==> o.RstFilterChainName() != q.RstFilterChainName() && o.RstMangleChainName() != q.RstMangleChainName()
  {
    if o.IdSuffix() != q.IdSuffix() {
      SamePrefix("SB_TCP_RST_", o.IdSuffix(), q.IdSuffix());
      SamePrefix("SB_TCP_RST_M_", o.IdSuffix(), q.IdSuffix());
    }
  }

  lemma SamePrefix(prefix: string, a: string, b: string)
    requires a != b
    ensures prefix + a != prefix + b
  {
    assert (prefix + a)[|prefix|..] == a && (prefix + b)[|prefix|..] == b;
  }
}
