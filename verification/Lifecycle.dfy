/** Starts, HTTP stops, status requests and heartbeat timeouts of executions, interleaved
    in atomic steps: each access to the monitor map or to the stop events is one step, and
    so is stopping a monitor and running a user callback. */
module Lifecycle {
  import opened Slices
  import opened StopEvents

  type Monitor = nat
  type Call = nat

  datatype Request = StatusRequest | StopRequest

  /** What a call does once it has released a monitor. */
  datatype After = Finish | ThenCheck(e: ExecutionId)

  /** Where an in-flight call is. */
  datatype Pc =
    | Installing(e: ExecutionId, m: Monitor)     // start: monitor created, not yet in the map
    | Taking(e: ExecutionId, after: After)       // about to load and delete the map entry
    | Releasing(m: Monitor, after: After)        // took a monitor out of the map, about to stop it
    | Checking(e: ExecutionId, request: Request) // about to look for a stop event
    | Calling(e: ExecutionId, request: Request)  // found none, about to run the user callback
    | Marking(e: ExecutionId, reason: string)    // timeout or signal: about to record the stop event
    | Stopping(e: ExecutionId)                   // recorded, about to run the user's Stop

  datatype Action =
    | BeginStart(e: ExecutionId)
    | BeginStop(e: ExecutionId)
    | BeginStatus(e: ExecutionId)
    | BeginStopAction(e: ExecutionId, reason: string)
    | Advance(call: Call, ok: bool)
    | MonitorEnds(m: Monitor)

  /** What happened, for stating properties of whole runs. */
  datatype Entry =
    | Began(call: Call, a: Action)
    | Marked(call: Call, event: StopEvent)
    | Passed(call: Call, e: ExecutionId)
    | Refused(call: Call, event: StopEvent)
    | Called(call: Call, e: ExecutionId, request: Request)
    | UserStop(call: Call, e: ExecutionId, ok: bool)
    | Took(call: Call, e: ExecutionId, m: Monitor)       // out of the map
    | Installed(call: Call, e: ExecutionId, m: Monitor)  // into the map
    | Ended(m: Monitor)                                  // by itself

  datatype State = State(
    events: seq<StopEvent>,
    monitors: map<ExecutionId, Monitor>,
    created: nat,
    stopped: set<Monitor>,
    calls: map<Call, Pc>,
    nextCall: nat,
    log: seq<Entry>)

  const INIT := State([], map[], 0, {}, map[], 0, [])

  function Begin(s: State, a: Action, pc: Pc): State {
    s.(calls := s.calls[s.nextCall := pc], nextCall := s.nextCall + 1, log := s.log + [Began(s.nextCall, a)])
  }

  function Goto(s: State, c: Call, pc: Pc): State { s.(calls := s.calls[c := pc]) }

  function End(s: State, c: Call): State { s.(calls := s.calls - {c}) }

  function Continue(s: State, c: Call, after: After): State {
    match after
    case Finish => End(s, c)
    case ThenCheck(e) => Goto(s, c, Checking(e, StopRequest))
  }

  /** The next step of one call. `ok` says whether a user callback succeeds. */
  function Step(s: State, c: Call, pc: Pc, ok: bool): State {
    match pc
    case Installing(e, m) =>
      var prev := if e in s.monitors then [Took(c, e, s.monitors[e])] else [];
      var swapped := s.(monitors := s.monitors[e := m], log := s.log + prev + [Installed(c, e, m)]);
      if e in s.monitors then Goto(swapped, c, Releasing(s.monitors[e], Finish)) else End(swapped, c)
    case Taking(e, after) =>
      if e in s.monitors
      then
        var taken := s.(monitors := s.monitors - {e}, log := s.log + [Took(c, e, s.monitors[e])]);
        Goto(taken, c, Releasing(s.monitors[e], after))
      else Continue(s, c, after)
    case Releasing(m, after) => Continue(s.(stopped := s.stopped + {m}), c, after)
    case Checking(e, request) =>
      var found := FirstOf(s.events, e);
      if found.Some? then End(s.(log := s.log + [Refused(c, found.value)]), c)
      else Goto(s.(log := s.log + [Passed(c, e)]), c, Calling(e, request))
    case Calling(e, request) => End(s.(log := s.log + [Called(c, e, request)]), c)
    case Marking(e, reason) =>
      var event := StopEvent(e, reason);
      Goto(s.(events := Pushed(s.events, event), log := s.log + [Marked(c, event)]), c, Stopping(e))
    case Stopping(e) =>
      var called := s.(log := s.log + [UserStop(c, e, ok)]);
      if ok then Goto(called, c, Taking(e, Finish)) else End(called, c)
  }

  function Next(s: State, a: Action): Option<State> {
    match a
    case BeginStart(e) => Some(Begin(s.(created := s.created + 1), a, Installing(e, s.created)))
    case BeginStop(e) => Some(Begin(s, a, Taking(e, ThenCheck(e))))
    case BeginStatus(e) => Some(Begin(s, a, Checking(e, StatusRequest)))
    case BeginStopAction(e, reason) => Some(Begin(s, a, Marking(e, reason)))
    case Advance(c, ok) => if c in s.calls then Some(Step(s, c, s.calls[c], ok)) else None
    case MonitorEnds(m) => if m < s.created then Some(s.(stopped := s.stopped + {m}, log := s.log + [Ended(m)])) else None
  }

  function Execute(s: State, actions: seq<Action>): Option<State> {
    if actions == [] then Some(s)
    else match Execute(s, actions[..|actions|-1])
      case None => None
      case Some(t) => Next(t, actions[|actions|-1])
  }

  // Every monitor is accounted for

  /** The call will install the monitor or stop it. */
  ghost predicate Owns(s: State, c: Call, m: Monitor) {
    c in s.calls && (s.calls[c].Installing? || s.calls[c].Releasing?) && s.calls[c].m == m
  }

  ghost predicate InMap(s: State, m: Monitor) {
    exists e :: e in s.monitors && s.monitors[e] == m
  }

  ghost predicate Owned(s: State, m: Monitor) {
    exists c :: Owns(s, c, m)
  }

  ghost predicate Located(s: State, m: Monitor) {
    InMap(s, m) || m in s.stopped || Owned(s, m)
  }

  /** Each monitor is in the map, stopped, or owned by a call; no monitor is owned twice,
      or owned and in the map, or in the map under two executions. */
  ghost predicate Accounted(s: State) {
    && (forall m: Monitor :: m < s.created ==> Located(s, m))
    && (forall e :: e in s.monitors ==> s.monitors[e] < s.created)
    && (forall e, f :: e in s.monitors && f in s.monitors && e != f ==> s.monitors[e] != s.monitors[f])
    && (forall c, m: Monitor :: Owns(s, c, m) ==> m < s.created && !InMap(s, m))
    && (forall c, d, m: Monitor :: Owns(s, c, m) && Owns(s, d, m) ==> c == d)
    && (forall c :: c in s.calls ==> c < s.nextCall)
  }

  /** A step that moves no monitor. */
  lemma SameOwners(s: State, t: State)
    requires Accounted(s) && t.created == s.created && t.monitors == s.monitors && s.stopped <= t.stopped
    requires forall c, m: Monitor :: Owns(t, c, m) <==> Owns(s, c, m)
    requires forall c :: c in t.calls ==> c < t.nextCall
    ensures Accounted(t)
  {
    forall m: Monitor | m < t.created
      ensures Located(t, m)
    {
      assert Located(s, m);
      if Owned(s, m) {
        var c :| Owns(s, c, m);
        assert Owns(t, c, m);
      } else if InMap(s, m) {
        var e :| e in s.monitors && s.monitors[e] == m;
        assert e in t.monitors && t.monitors[e] == m;
      }
    }
    forall c, m: Monitor | Owns(t, c, m)
      ensures !InMap(t, m)
    {
      assert Owns(s, c, m);
    }
  }

  lemma InstallOwners(s: State, c: Call, ok: bool, d: Call, m: Monitor)
    requires Accounted(s) && c in s.calls && s.calls[c].Installing?
    requires Owns(Step(s, c, s.calls[c], ok), d, m)
    ensures m < s.created && !InMap(Step(s, c, s.calls[c], ok), m)
    ensures if d == c then s.calls[c].e in s.monitors && m == s.monitors[s.calls[c].e] else Owns(s, d, m)
  {
    assert Owns(s, c, s.calls[c].m);
    if d != c { assert Owns(s, d, m); }
  }

  lemma InstallLocates(s: State, c: Call, ok: bool, m: Monitor)
    requires Accounted(s) && c in s.calls && s.calls[c].Installing? && m < s.created
    ensures Located(Step(s, c, s.calls[c], ok), m)
  {
    var e, t := s.calls[c].e, Step(s, c, s.calls[c], ok);
    assert e in t.monitors && t.monitors[e] == s.calls[c].m;
    assert e in s.monitors ==> Owns(t, c, s.monitors[e]);
    assert Located(s, m);
    if InMap(s, m) {
      var f :| f in s.monitors && s.monitors[f] == m;
      if f != e { assert f in t.monitors && t.monitors[f] == m; }
    } else if Owned(s, m) {
      var d :| Owns(s, d, m);
      if d != c { assert Owns(t, d, m); }
    }
  }

  lemma InstallKeepsAccounted(s: State, c: Call, ok: bool)
    requires Accounted(s) && c in s.calls && s.calls[c].Installing?
    ensures Accounted(Step(s, c, s.calls[c], ok))
  {
    var e, t := s.calls[c].e, Step(s, c, s.calls[c], ok);
    assert Owns(s, c, s.calls[c].m);
    hide Located, InMap;
    forall d, m: Monitor | Owns(t, d, m)
      ensures m < t.created && !InMap(t, m)
      ensures if d == c then e in s.monitors && m == s.monitors[e] else Owns(s, d, m)
    {
      InstallOwners(s, c, ok, d, m);
    }
    forall m: Monitor | m < t.created
      ensures Located(t, m)
    {
      InstallLocates(s, c, ok, m);
    }
    InstallMapApart(s, c, ok);
  }

  lemma InstallMapApart(s: State, c: Call, ok: bool)
    requires Accounted(s) && c in s.calls && s.calls[c].Installing?
    ensures var t := Step(s, c, s.calls[c], ok);
      && (forall e :: e in t.monitors ==> t.monitors[e] < t.created)
      && (forall e, f :: e in t.monitors && f in t.monitors && e != f ==> t.monitors[e] != t.monitors[f])
  {
    assert Owns(s, c, s.calls[c].m);
    forall f | f in s.monitors
      ensures s.monitors[f] != s.calls[c].m
    {
      assert InMap(s, s.monitors[f]);
    }
  }

  lemma TakeKeepsAccounted(s: State, c: Call, ok: bool)
    requires Accounted(s) && c in s.calls && s.calls[c].Taking? && s.calls[c].e in s.monitors
    ensures Accounted(Step(s, c, s.calls[c], ok))
  {
    var e, t := s.calls[c].e, Step(s, c, s.calls[c], ok);
    var n := s.monitors[e];
    assert Owns(t, c, n);
    forall d, m: Monitor | Owns(t, d, m)
      ensures m < t.created && !InMap(t, m)
      ensures if d == c then m == n else Owns(s, d, m)
    {
      if d != c {
        assert Owns(s, d, m);
        assert !InMap(s, m);
      }
    }
    forall m: Monitor | m < t.created
      ensures Located(t, m)
    {
      assert Located(s, m);
      if InMap(s, m) {
        var f :| f in s.monitors && s.monitors[f] == m;
        if f != e { assert f in t.monitors && t.monitors[f] == m; }
      } else if Owned(s, m) {
        var d :| Owns(s, d, m);
        if d != c { assert Owns(t, d, m); }
      }
    }
  }

  lemma ReleaseKeepsAccounted(s: State, c: Call, ok: bool)
    requires Accounted(s) && c in s.calls && s.calls[c].Releasing?
    ensures Accounted(Step(s, c, s.calls[c], ok))
  {
    var t := Step(s, c, s.calls[c], ok);
    forall d, m: Monitor | Owns(t, d, m)
      ensures Owns(s, d, m) && d != c && !InMap(t, m)
    {
      assert Owns(s, d, m);
      assert !InMap(s, m);
    }
    forall m: Monitor | m < t.created
      ensures Located(t, m)
    {
      assert Located(s, m);
      if InMap(s, m) {
        var f :| f in s.monitors && s.monitors[f] == m;
        assert f in t.monitors && t.monitors[f] == m;
      } else if Owned(s, m) {
        var d :| Owns(s, d, m);
        if d != c { assert Owns(t, d, m); }
      }
    }
  }

  lemma StepKeepsAccounted(s: State, c: Call, ok: bool)
    requires Accounted(s) && c in s.calls
    ensures Accounted(Step(s, c, s.calls[c], ok))
  {
    match s.calls[c]
    case Installing(_, _) => InstallKeepsAccounted(s, c, ok);
    case Releasing(_, _) => ReleaseKeepsAccounted(s, c, ok);
    case Taking(e, _) =>
      if e in s.monitors { TakeKeepsAccounted(s, c, ok); } else { SameOwners(s, Step(s, c, s.calls[c], ok)); }
    case _ => SameOwners(s, Step(s, c, s.calls[c], ok));
  }

  lemma BeginKeepsAccounted(s: State, a: Action)
    requires Accounted(s) && a.BeginStart?
    ensures Accounted(Next(s, a).value)
  {
    var t := Next(s, a).value;
    assert Owns(t, s.nextCall, s.created);
    forall c, m: Monitor | Owns(t, c, m)
      ensures m < t.created && !InMap(t, m)
      ensures if c == s.nextCall then m == s.created else Owns(s, c, m)
    {
      if c != s.nextCall {
        assert Owns(s, c, m);
        assert !InMap(s, m);
      }
    }
    forall m: Monitor | m < t.created
      ensures Located(t, m)
    {
      if m < s.created {
        assert Located(s, m);
        if Owned(s, m) {
          var d :| Owns(s, d, m);
          assert Owns(t, d, m);
        } else if InMap(s, m) {
          var e :| e in s.monitors && s.monitors[e] == m;
          assert e in t.monitors && t.monitors[e] == m;
        }
      }
    }
  }

  lemma NextKeepsAccounted(s: State, a: Action)
    requires Accounted(s) && Next(s, a).Some?
    ensures Accounted(Next(s, a).value)
  {
    if a.Advance? {
      StepKeepsAccounted(s, a.call, a.ok);
    } else if a.BeginStart? {
      BeginKeepsAccounted(s, a);
    } else {
      SameOwners(s, Next(s, a).value);
    }
  }

  /** In every interleaving of starts, stops, status requests and timeouts, each monitor
      ever created is in the map, stopped, or owned by exactly one in-flight call. */
  lemma {:induction false} EveryMonitorIsAccounted(actions: seq<Action>)
    requires Execute(INIT, actions).Some?
    ensures Accounted(Execute(INIT, actions).value)
    decreases |actions|
  {
    if actions != [] {
      EveryMonitorIsAccounted(actions[..|actions|-1]);
      NextKeepsAccounted(Execute(INIT, actions[..|actions|-1]).value, actions[|actions|-1]);
    }
  }

  /** When no call is in flight, the running monitors are exactly those in the map that have
      not stopped, at most one for each execution. */
  lemma NoMonitorLeaks(actions: seq<Action>)
    requires Execute(INIT, actions).Some? && Execute(INIT, actions).value.calls == map[]
    ensures var s := Execute(INIT, actions).value;
      && (forall m: Monitor :: (m < s.created && m !in s.stopped) <==> (InMap(s, m) && m !in s.stopped))
      && (forall e, f :: e in s.monitors && f in s.monitors && s.monitors[e] == s.monitors[f] ==> e == f)
  {
    EveryMonitorIsAccounted(actions);
    var s := Execute(INIT, actions).value;
    forall m: Monitor | m < s.created
      ensures InMap(s, m) || m in s.stopped
    {
      assert Located(s, m);
    }
  }

  // What a stop does to the heartbeat monitor

  /** The monitor is out of the map for good: no call is about to put it in. */
  ghost predicate Left(s: State, m: Monitor) {
    !InMap(s, m) && forall c :: c in s.calls && s.calls[c].Installing? ==> s.calls[c].m != m
  }

  /** The monitor is where it was, under `e`, or has left the map. */
  ghost predicate StaysOrLeft(s: State, e: ExecutionId, m: Monitor) {
    (e in s.monitors && s.monitors[e] == m) || Left(s, m)
  }

  ghost predicate InstallersApart(s: State) {
    forall c :: c in s.calls && s.calls[c].Installing? ==> s.calls[c].m < s.created && !InMap(s, s.calls[c].m)
  }

  lemma AccountedInstallers(s: State)
    requires Accounted(s)
    ensures InstallersApart(s) && forall c :: c in s.calls ==> c < s.nextCall
    ensures forall e, f :: e in s.monitors && f in s.monitors && e != f ==> s.monitors[e] != s.monitors[f]
  {
    forall c | c in s.calls && s.calls[c].Installing?
      ensures s.calls[c].m < s.created && !InMap(s, s.calls[c].m)
    {
      assert Owns(s, c, s.calls[c].m);
    }
  }

  lemma StepLeft(s: State, c: Call, ok: bool, m: Monitor)
    requires c in s.calls && Left(s, m)
    ensures Left(Step(s, c, s.calls[c], ok), m)
  {
  }

  lemma StepStays(s: State, c: Call, ok: bool, e: ExecutionId, m: Monitor)
    requires InstallersApart(s) && c in s.calls && e in s.monitors && s.monitors[e] == m
    requires forall f, g :: f in s.monitors && g in s.monitors && f != g ==> s.monitors[f] != s.monitors[g]
    ensures StaysOrLeft(Step(s, c, s.calls[c], ok), e, m)
    ensures s.calls[c].Taking? && s.calls[c].e == e ==> Left(Step(s, c, s.calls[c], ok), m)
  {
    assert InMap(s, m);
  }

  lemma NextStaysOrLeft(s: State, a: Action, e: ExecutionId, m: Monitor)
    requires Accounted(s) && Next(s, a).Some? && m < s.created && StaysOrLeft(s, e, m)
    ensures StaysOrLeft(Next(s, a).value, e, m)
    ensures Left(s, m) ==> Left(Next(s, a).value, m)
    ensures a.Advance? && s.calls[a.call].Taking? && s.calls[a.call].e == e ==> Left(Next(s, a).value, m)
  {
    AccountedInstallers(s);
    hide Accounted, Step;
    if a.Advance? {
      if Left(s, m) { StepLeft(s, a.call, a.ok, m); } else { StepStays(s, a.call, a.ok, e, m); }
    }
  }

  /** Call `c` has yet to get at the monitor of its execution. */
  predicate BeforeTaking(s: State, c: Call) {
    c in s.calls && (s.calls[c].Taking? || s.calls[c].Marking? || s.calls[c].Stopping?)
  }

  /** The stop that call `c` began with will take the monitor of `e`, unless that has left the
      map, or the user's Stop failed in a stop by the extension. */
  ghost predicate WillTake(s: State, asked: Action, c: Call, e: ExecutionId, m: Monitor) {
    && c < s.nextCall && m < s.created && StaysOrLeft(s, e, m)
    && match asked
       case BeginStop(_) => Left(s, m) || (c in s.calls && s.calls[c].Taking? && s.calls[c].e == e)
       case _ => Left(s, m) || UserStop(c, e, false) in s.log || (BeforeTaking(s, c) && s.calls[c].e == e)
  }

  lemma StepWillTake(s: State, asked: Action, c: Call, ok: bool, e: ExecutionId, m: Monitor)
    requires c in s.calls && WillTake(s, asked, c, e, m) && !Left(s, m)
    ensures var t := Step(s, c, s.calls[c], ok);
      (s.calls[c].Taking? && s.calls[c].e == e) || UserStop(c, e, false) in t.log
      || (BeforeTaking(t, c) && t.calls[c].e == e)
    ensures asked.BeginStop? ==> s.calls[c].Taking? && s.calls[c].e == e
  {
    hide Left, StaysOrLeft;
  }

  lemma NextWillTake(s: State, a: Action, asked: Action, c: Call, e: ExecutionId, m: Monitor)
    requires Accounted(s) && Next(s, a).Some? && WillTake(s, asked, c, e, m)
    ensures WillTake(Next(s, a).value, asked, c, e, m)
  {
    NextStaysOrLeft(s, a, e, m);
    AccountedInstallers(s);
    OthersStay(s, a, c);
    hide Accounted, Left, StaysOrLeft, Step;
    if a.Advance? && a.call == c && !Left(s, m) { StepWillTake(s, asked, c, a.ok, e, m); }
  }

  /** An action does not touch what it is not about. */
  lemma OthersStay(s: State, a: Action, c: Call)
    requires Next(s, a).Some? && c < s.nextCall
    ensures var t := Next(s, a).value;
      && s.log <= t.log && s.nextCall <= t.nextCall && s.created <= t.created
      && (!(a.Advance? && a.call == c) ==> (c in t.calls <==> c in s.calls) && (c in s.calls ==> t.calls[c] == s.calls[c]))
  {
    hide FirstOf, Pushed;
    if a.Advance? {
      StepOthersStay(s, a.call, a.ok);
      hide Step;
    }
  }

  lemma StepOthersStay(s: State, c: Call, ok: bool)
    requires c in s.calls
    ensures var t := Step(s, c, s.calls[c], ok);
      && s.log <= t.log && s.nextCall == t.nextCall && s.created == t.created
      && t.calls == (if c in t.calls then s.calls[c := t.calls[c]] else s.calls - {c})
  {
    hide FirstOf, Pushed;
  }

  lemma {:induction false} RunWillTake(actions: seq<Action>, k: nat, asked: Action, c: Call, e: ExecutionId, m: Monitor)
    requires k <= |actions| && Execute(INIT, actions).Some? && Execute(INIT, actions[..k]).Some?
    requires WillTake(Execute(INIT, actions[..k]).value, asked, c, e, m)
    ensures WillTake(Execute(INIT, actions).value, asked, c, e, m)
    decreases |actions|
  {
    if k < |actions| {
      var before := actions[..|actions|-1];
      assert before[..k] == actions[..k];
      RunWillTake(before, k, asked, c, e, m);
      EveryMonitorIsAccounted(before);
      NextWillTake(Execute(INIT, before).value, actions[|actions|-1], asked, c, e, m);
    } else {
      assert actions[..k] == actions;
    }
  }

  lemma {:induction false} RunHasPrefix(actions: seq<Action>, k: nat)
    requires k <= |actions| && Execute(INIT, actions).Some?
    ensures Execute(INIT, actions[..k]).Some?
    decreases |actions|
  {
    if k < |actions| {
      assert actions[..|actions|-1][..k] == actions[..k];
      RunHasPrefix(actions[..|actions|-1], k);
    } else {
      assert actions[..k] == actions;
    }
  }

  /** Stopped, or taken by some call that is about to stop it. */
  ghost predicate StoppedOrReleased(s: State, m: Monitor) {
    m in s.stopped || exists c :: c in s.calls && s.calls[c].Releasing? && s.calls[c].m == m
  }

  lemma LeftIsReleased(s: State, m: Monitor)
    requires Accounted(s) && m < s.created && Left(s, m)
    ensures StoppedOrReleased(s, m)
  {
    assert Located(s, m);
    if Owned(s, m) {
      var c :| Owns(s, c, m);
    }
  }

  /** Past taking it, the stop that call `c` began with has had monitor `m` stopped, or some
      call is about to stop it. */
  ghost predicate StopDone(s: State, c: Call, m: Monitor) {
    && (!BeforeTaking(s, c) ==> StoppedOrReleased(s, m))
    && (s.calls == map[] ==> m in s.stopped)
  }

  /** A stop, by request or by the extension itself, that finds a monitor of its execution in
      the map has it stopped, in every run; only a stop by the extension whose user Stop failed
      need not. */
  lemma StopStopsTheMonitor(actions: seq<Action>, k: nat, e: ExecutionId)
    requires Execute(INIT, actions).Some? && k < |actions|
    requires actions[k] == BeginStop(e) || (actions[k].BeginStopAction? && actions[k].e == e)
    requires Execute(INIT, actions[..k]).Some? && e in Execute(INIT, actions[..k]).value.monitors
    ensures var before, s := Execute(INIT, actions[..k]).value, Execute(INIT, actions).value;
      var c, m := before.nextCall, before.monitors[e];
      StopDone(s, c, m) || (actions[k].BeginStopAction? && UserStop(c, e, false) in s.log)
  {
    var before := Execute(INIT, actions[..k]).value;
    var c, m := before.nextCall, before.monitors[e];
    EveryMonitorIsAccounted(actions[..k]);
    RunHasPrefix(actions, k + 1);
    assert actions[..k+1][..k] == actions[..k];
    RunWillTake(actions, k + 1, actions[k], c, e, m);
    EveryMonitorIsAccounted(actions);
    var s := Execute(INIT, actions).value;
    if Left(s, m) { LeftIsReleased(s, m); }
  }

  // What calls do goes back to how they began

  function BeginOf(request: Request, e: ExecutionId): Action {
    if request == StopRequest then BeginStop(e) else BeginStatus(e)
  }

  /** The history that brings a call where it is. */
  ghost predicate Entitled(log: seq<Entry>, c: Call, pc: Pc) {
    match pc
    case Installing(e, _) => Began(c, BeginStart(e)) in log
    case Taking(e, Finish) => UserStop(c, e, true) in log
    case Taking(e, ThenCheck(f)) => f == e && Began(c, BeginStop(e)) in log
    case Releasing(_, Finish) => true
    case Releasing(_, ThenCheck(e)) => Began(c, BeginStop(e)) in log
    case Checking(e, request) => Began(c, BeginOf(request, e)) in log
    case Calling(e, request) => Began(c, BeginOf(request, e)) in log
    case Marking(e, reason) => Began(c, BeginStopAction(e, reason)) in log
    case Stopping(e) => exists event :: Marked(c, event) in log && event.executionId == e
  }

  /** What may be logged after a history. */
  ghost predicate Justified(log: seq<Entry>, entry: Entry) {
    match entry
    case Called(c, e, request) => Began(c, BeginOf(request, e)) in log
    case Marked(c, event) => Began(c, BeginStopAction(event.executionId, event.reason)) in log
    case Took(c, e, _) => Began(c, BeginStart(e)) in log || Began(c, BeginStop(e)) in log || UserStop(c, e, true) in log
    case Installed(c, e, _) => Began(c, BeginStart(e)) in log
    case UserStop(c, e, _) => exists event :: Marked(c, event) in log && event.executionId == e
    case _ => true
  }

  ghost predicate AllEntitled(s: State) {
    && (forall c :: c in s.calls ==> Entitled(s.log, c, s.calls[c]))
    && (forall j :: 0 <= j < |s.log| ==> Justified(s.log[..j], s.log[j]))
  }

  lemma StaysEntitled(log: seq<Entry>, entry: Entry, c: Call, pc: Pc)
    requires Entitled(log, c, pc)
    ensures Entitled(log + [entry], c, pc)
  {
    if pc.Stopping? {
      var event :| Marked(c, event) in log && event.executionId == pc.e;
      assert Marked(c, event) in log + [entry];
    }
  }

  lemma LoggingKeepsEntitled(s: State, t: State, c: Call, entry: Entry)
    requires AllEntitled(s) && t.log == s.log + [entry] && Justified(s.log, entry)
    requires forall d :: d in t.calls && d != c ==> d in s.calls && t.calls[d] == s.calls[d]
    requires c in t.calls ==> Entitled(t.log, c, t.calls[c]) || (c in s.calls && t.calls[c] == s.calls[c])
    ensures AllEntitled(t)
  {
    hide Entitled, Justified;
    forall d | d in t.calls
      ensures Entitled(t.log, d, t.calls[d])
    {
      if d in s.calls && t.calls[d] == s.calls[d] { StaysEntitled(s.log, entry, d, s.calls[d]); }
    }
    forall j | 0 <= j < |t.log|
      ensures Justified(t.log[..j], t.log[j])
    {
      assert t.log[..j] == s.log[..j];
    }
  }

  lemma InstallKeepsEntitled(s: State, c: Call, ok: bool)
    requires AllEntitled(s) && c in s.calls && s.calls[c].Installing?
    ensures AllEntitled(Step(s, c, s.calls[c], ok))
  {
    var e, m, t := s.calls[c].e, s.calls[c].m, Step(s, c, s.calls[c], ok);
    assert Entitled(s.log, c, s.calls[c]);
    hide AllEntitled;
    if e in s.monitors {
      var taken := s.(log := s.log + [Took(c, e, s.monitors[e])]);
      StaysEntitled(s.log, Took(c, e, s.monitors[e]), c, s.calls[c]);
      LoggingKeepsEntitled(s, taken, c, Took(c, e, s.monitors[e]));
      LoggingKeepsEntitled(taken, t, c, Installed(c, e, m));
    } else {
      assert s.log + [] == s.log;
      LoggingKeepsEntitled(s, t, c, Installed(c, e, m));
    }
  }

  lemma StepKeepsEntitled(s: State, c: Call, ok: bool)
    requires AllEntitled(s) && c in s.calls
    ensures AllEntitled(Step(s, c, s.calls[c], ok))
  {
    var t := Step(s, c, s.calls[c], ok);
    assert Entitled(s.log, c, s.calls[c]);
    hide AllEntitled;
    match s.calls[c]
    case Installing(_, _) => InstallKeepsEntitled(s, c, ok);
    case Taking(e, _) =>
      if e in s.monitors {
        LoggingKeepsEntitled(s, t, c, Took(c, e, s.monitors[e]));
      } else {
        EndingKeepsEntitled(s, t, c);
      }
    case Releasing(_, _) => EndingKeepsEntitled(s, t, c);
    case Checking(e, _) =>
      FirstOfFinds(s.events, e);
      if FirstOf(s.events, e).None? {
        StaysEntitled(s.log, Passed(c, e), c, s.calls[c]);
        LoggingKeepsEntitled(s, t, c, Passed(c, e));
      } else {
        LoggingKeepsEntitled(s, t, c, Refused(c, FirstOf(s.events, e).value));
      }
    case Calling(e, request) => LoggingKeepsEntitled(s, t, c, Called(c, e, request));
    case Marking(e, reason) =>
      assert Marked(c, StopEvent(e, reason)) in t.log;
      LoggingKeepsEntitled(s, t, c, Marked(c, StopEvent(e, reason)));
    case Stopping(e) =>
      assert UserStop(c, e, ok) in t.log;
      LoggingKeepsEntitled(s, t, c, UserStop(c, e, ok));
  }

  lemma EndingKeepsEntitled(s: State, t: State, c: Call)
    requires AllEntitled(s) && t.log == s.log
    requires forall d :: d in t.calls && d != c ==> d in s.calls && t.calls[d] == s.calls[d]
    requires c in t.calls ==> Entitled(t.log, c, t.calls[c])
    ensures AllEntitled(t)
  {
  }

  lemma NextKeepsEntitled(s: State, a: Action)
    requires AllEntitled(s) && Next(s, a).Some?
    ensures AllEntitled(Next(s, a).value)
  {
    if a.Advance? {
      StepKeepsEntitled(s, a.call, a.ok);
    } else if a.MonitorEnds? {
      LoggingKeepsEntitled(s, Next(s, a).value, s.nextCall, Ended(a.m));
    } else {
      var t := Next(s, a).value;
      assert Began(s.nextCall, a) in t.log;
      LoggingKeepsEntitled(s, t, s.nextCall, Began(s.nextCall, a));
    }
  }

  lemma {:induction false} EveryRunIsEntitled(actions: seq<Action>)
    requires Execute(INIT, actions).Some?
    ensures AllEntitled(Execute(INIT, actions).value)
    decreases |actions|
  {
    if actions != [] {
      EveryRunIsEntitled(actions[..|actions|-1]);
      NextKeepsEntitled(Execute(INIT, actions[..|actions|-1]).value, actions[|actions|-1]);
    }
  }

  /** Over every run, the user's Status runs only for a status request and the user's Stop
      only for a stop request or, once the stop event with the given reason is recorded, for a
      stop by the extension. Only starts, stop requests, and stops by the extension whose user
      Stop succeeded get at a monitor in the map. */
  lemma CallsDoWhatTheyBeganFor(actions: seq<Action>)
    requires Execute(INIT, actions).Some?
    ensures var s := Execute(INIT, actions).value;
      && (forall j :: 0 <= j < |s.log| ==> Justified(s.log[..j], s.log[j]))
      && (forall c :: c in s.calls && s.calls[c].Installing? ==> Began(c, BeginStart(s.calls[c].e)) in s.log)
      && (forall c :: c in s.calls && s.calls[c].Taking? ==>
            Began(c, BeginStop(s.calls[c].e)) in s.log || UserStop(c, s.calls[c].e, true) in s.log)
  {
    EveryRunIsEntitled(actions);
    var s := Execute(INIT, actions).value;
    forall c | c in s.calls
      ensures Entitled(s.log, c, s.calls[c])
    {
    }
  }

  // Every call does all it began for

  /** Where a call that began with `a` may be. */
  ghost predicate Expected(log: seq<Entry>, c: Call, a: Action, pc: Pc) {
    match a
    case BeginStart(e) =>
      (pc.Installing? && pc.e == e) || (pc.Releasing? && pc.after == Finish && exists m :: Installed(c, e, m) in log)
    case BeginStop(e) =>
      pc == Taking(e, ThenCheck(e)) || (pc.Releasing? && pc.after == ThenCheck(e))
      || pc == Checking(e, StopRequest) || pc == Calling(e, StopRequest)
    case BeginStatus(e) => pc == Checking(e, StatusRequest) || pc == Calling(e, StatusRequest)
    case BeginStopAction(e, reason) =>
      pc == Marking(e, reason)
      || (Marked(c, StopEvent(e, reason)) in log
          && (pc == Stopping(e)
              || (UserStop(c, e, true) in log && (pc == Taking(e, Finish) || (pc.Releasing? && pc.after == Finish)))))
    case _ => false
  }

  /** The user's callback ran, or the request was refused with the event that stopped it. */
  ghost predicate Answered(log: seq<Entry>, c: Call, e: ExecutionId, request: Request) {
    Called(c, e, request) in log || exists event :: Refused(c, event) in log && event.executionId == e
  }

  /** What a call that began with `a` has done when it ends. */
  ghost predicate Done(log: seq<Entry>, c: Call, a: Action) {
    match a
    case BeginStart(e) => exists m :: Installed(c, e, m) in log
    case BeginStop(e) => Answered(log, c, e, StopRequest)
    case BeginStatus(e) => Answered(log, c, e, StatusRequest)
    case BeginStopAction(e, reason) =>
      Marked(c, StopEvent(e, reason)) in log && (UserStop(c, e, true) in log || UserStop(c, e, false) in log)
    case _ => true
  }

  ghost predicate OnTrack(s: State, c: Call, a: Action) {
    c < s.nextCall && if c in s.calls then Expected(s.log, c, a, s.calls[c]) else Done(s.log, c, a)
  }

  ghost predicate Progressing(s: State) {
    forall c, a :: Began(c, a) in s.log ==> OnTrack(s, c, a)
  }

  lemma DoneStays(log: seq<Entry>, longer: seq<Entry>, c: Call, a: Action)
    requires log <= longer && Done(log, c, a)
    ensures Done(longer, c, a)
  {
    assert forall x :: x in log ==> x in longer;
  }

  lemma ExpectedStays(log: seq<Entry>, longer: seq<Entry>, c: Call, a: Action, pc: Pc)
    requires log <= longer && Expected(log, c, a, pc)
    ensures Expected(longer, c, a, pc)
  {
    assert forall x :: x in log ==> x in longer;
  }

  lemma StepOnTrack(s: State, c: Call, ok: bool, a: Action)
    requires c in s.calls && OnTrack(s, c, a)
    ensures OnTrack(Step(s, c, s.calls[c], ok), c, a)
  {
    var pc, t := s.calls[c], Step(s, c, s.calls[c], ok);
    ExpectedStays(s.log, t.log, c, a, pc);
    match pc
    case Installing(e, m) => assert Installed(c, e, m) in t.log;
    case Checking(e, _) => FirstOfFinds(s.events, e);
    case Calling(e, request) => assert Called(c, e, request) in t.log;
    case Marking(e, reason) => assert Marked(c, StopEvent(e, reason)) in t.log;
    case Stopping(e) => assert UserStop(c, e, ok) in t.log;
    case _ =>
  }

  lemma StepBeginsNothing(s: State, c: Call, ok: bool)
    requires c in s.calls
    ensures s.log <= Step(s, c, s.calls[c], ok).log
    ensures forall d, a :: Began(d, a) in Step(s, c, s.calls[c], ok).log ==> Began(d, a) in s.log
  {
  }

  lemma NextKeepsProgressing(s: State, a: Action)
    requires Progressing(s) && Next(s, a).Some? && forall c :: c in s.calls ==> c < s.nextCall
    ensures Progressing(Next(s, a).value)
  {
    var t := Next(s, a).value;
    forall c: Call, b | Began(c, b) in t.log
      ensures OnTrack(t, c, b)
    {
      if c < s.nextCall { OthersStay(s, a, c); }
      if a.Advance? {
        StepBeginsNothing(s, a.call, a.ok);
        if c == a.call {
          StepOnTrack(s, c, a.ok, b);
        } else {
          StaysOnTrack(s, t, c, b);
        }
      } else if Began(c, b) in s.log {
        StaysOnTrack(s, t, c, b);
      }
    }
  }

  lemma StaysOnTrack(s: State, t: State, c: Call, a: Action)
    requires OnTrack(s, c, a) && s.log <= t.log && s.nextCall <= t.nextCall
    requires c in t.calls <==> c in s.calls
    requires c in s.calls ==> t.calls[c] == s.calls[c]
    ensures OnTrack(t, c, a)
  {
    if c in s.calls { ExpectedStays(s.log, t.log, c, a, s.calls[c]); } else { DoneStays(s.log, t.log, c, a); }
  }

  /** Over every run, a call that has ended did what it began for: a start installed a monitor,
      a request was answered by the
      user's callback or refused with the stop event, a stop by the extension recorded its event
      and ran the user's Stop. */
  lemma {:induction false} CallsFinishWhatTheyBegan(actions: seq<Action>)
    requires Execute(INIT, actions).Some?
    ensures var s := Execute(INIT, actions).value;
      Progressing(s) && forall c, a :: Began(c, a) in s.log && c !in s.calls ==> Done(s.log, c, a)
    decreases |actions|
  {
    if actions != [] {
      var before := actions[..|actions|-1];
      CallsFinishWhatTheyBegan(before);
      EveryMonitorIsAccounted(before);
      NextKeepsProgressing(Execute(INIT, before).value, actions[|actions|-1]);
    }
  }

  /** Every call begun is on record. */
  lemma {:induction false} EveryCallBegan(actions: seq<Action>, k: nat)
    requires Execute(INIT, actions).Some? && k < |actions| && Execute(INIT, actions[..k]).Some?
    requires !actions[k].Advance? && !actions[k].MonitorEnds?
    ensures Began(Execute(INIT, actions[..k]).value.nextCall, actions[k]) in Execute(INIT, actions).value.log
    decreases |actions|
  {
    var before, a := actions[..|actions|-1], actions[|actions|-1];
    var s := Execute(INIT, before).value;
    if k < |before| {
      assert before[..k] == actions[..k];
      EveryCallBegan(before, k);
      LogOnlyGrows(s, a);
    } else {
      assert actions[..k] == before;
    }
  }

  lemma LogOnlyGrows(s: State, a: Action)
    requires Next(s, a).Some?
    ensures s.log <= Next(s, a).value.log
  {
  }

  // The map against its history

  /** The map that the installing and taking so far leaves. */
  function MonitorsOf(log: seq<Entry>): map<ExecutionId, Monitor> {
    if log == [] then map[] else AfterEntry(MonitorsOf(log[..|log|-1]), log[|log|-1])
  }

  function AfterEntry(monitors: map<ExecutionId, Monitor>, entry: Entry): map<ExecutionId, Monitor> {
    match entry
    case Installed(_, e, m) => monitors[e := m]
    case Took(_, e, _) => monitors - {e}
    case _ => monitors
  }

  /** What the map and the set of stopped monitors go back to. */
  ghost predicate Recorded(s: State) {
    && s.monitors == MonitorsOf(s.log)
    && (forall m :: m in s.stopped ==> Ended(m) in s.log || WasTaken(s.log, m))
    && (forall c :: c in s.calls && s.calls[c].Releasing? ==> WasTaken(s.log, s.calls[c].m))
  }

  ghost predicate WasTaken(log: seq<Entry>, m: Monitor) {
    exists c, e :: Took(c, e, m) in log
  }

  lemma MonitorsNext(log: seq<Entry>, entry: Entry)
    ensures MonitorsOf(log + [entry]) == AfterEntry(MonitorsOf(log), entry)
  {
    assert (log + [entry])[..|log|] == log;
  }

  lemma StepKeepsMap(s: State, c: Call, ok: bool)
    requires s.monitors == MonitorsOf(s.log) && c in s.calls
    ensures var t := Step(s, c, s.calls[c], ok); t.monitors == MonitorsOf(t.log)
  {
    hide MonitorsOf, FirstOf, Pushed;
    var t := Step(s, c, s.calls[c], ok);
    match s.calls[c]
    case Installing(e, m) =>
      var prev := if e in s.monitors then [Took(c, e, s.monitors[e])] else [];
      if prev != [] { MonitorsNext(s.log, prev[0]); } else { assert s.log + prev == s.log; }
      MonitorsNext(s.log + prev, Installed(c, e, m));
    case Taking(e, _) => if e in s.monitors { MonitorsNext(s.log, Took(c, e, s.monitors[e])); }
    case Checking(e, _) =>
      MonitorsNext(s.log, if FirstOf(s.events, e).None? then Passed(c, e) else Refused(c, FirstOf(s.events, e).value));
    case Calling(e, request) => MonitorsNext(s.log, Called(c, e, request));
    case Marking(e, reason) => MonitorsNext(s.log, Marked(c, StopEvent(e, reason)));
    case Stopping(e) => MonitorsNext(s.log, UserStop(c, e, ok));
    case Releasing(_, _) =>
  }

  /** What a step adds to the stopped monitors and to those about to be stopped was taken. */
  lemma StepTakes(s: State, c: Call, ok: bool)
    requires c in s.calls && (s.calls[c].Installing? || s.calls[c].Taking?) && s.calls[c].e in s.monitors
    ensures WasTaken(Step(s, c, s.calls[c], ok).log, s.monitors[s.calls[c].e])
  {
    var pc, t := s.calls[c], Step(s, c, s.calls[c], ok);
    assert t.log[|s.log|] == Took(c, pc.e, s.monitors[pc.e]);
  }

  lemma StepReleases(s: State, c: Call, ok: bool)
    requires c in s.calls
    ensures var pc, t := s.calls[c], Step(s, c, s.calls[c], ok);
      && s.log <= t.log
      && t.stopped == (if pc.Releasing? then s.stopped + {pc.m} else s.stopped)
      && (forall d :: d in t.calls && t.calls[d].Releasing? ==>
            (d in s.calls && t.calls[d] == s.calls[d])
            || ((pc.Installing? || pc.Taking?) && pc.e in s.monitors && t.calls[d].m == s.monitors[pc.e]))
  {
    hide FirstOf, Pushed;
  }

  lemma StepKeepsRecorded(s: State, c: Call, ok: bool)
    requires Recorded(s) && c in s.calls
    ensures Recorded(Step(s, c, s.calls[c], ok))
  {
    StepKeepsMap(s, c, ok);
    StepReleases(s, c, ok);
    var t, pc := Step(s, c, s.calls[c], ok), s.calls[c];
    if (pc.Installing? || pc.Taking?) && pc.e in s.monitors { StepTakes(s, c, ok); }
    TakenStays(s.log, t.log);
    hide WasTaken, MonitorsOf, Step;
  }

  lemma TakenStays(log: seq<Entry>, longer: seq<Entry>)
    requires log <= longer
    ensures forall m :: WasTaken(log, m) ==> WasTaken(longer, m)
    ensures forall m: Monitor :: Ended(m) in log ==> Ended(m) in longer
  {
    assert forall x :: x in log ==> x in longer;
    forall m | WasTaken(log, m)
      ensures WasTaken(longer, m)
    {
      var c, e :| Took(c, e, m) in log;
    }
  }

  lemma NextKeepsRecorded(s: State, a: Action)
    requires Recorded(s) && Next(s, a).Some?
    ensures Recorded(Next(s, a).value)
  {
    hide WasTaken, MonitorsOf, Step;
    if a.Advance? {
      StepKeepsRecorded(s, a.call, a.ok);
    } else {
      var entry := if a.MonitorEnds? then Ended(a.m) else Began(s.nextCall, a);
      MonitorsNext(s.log, entry);
      TakenStays(s.log, s.log + [entry]);
      assert entry in s.log + [entry];
    }
  }

  /** Over every run the map holds, for each execution, the monitor installed last unless it was
      taken since; and only monitors that were taken, or ended by themselves, are stopped. */
  lemma {:induction false} MapFollowsHistory(actions: seq<Action>)
    requires Execute(INIT, actions).Some?
    ensures Recorded(Execute(INIT, actions).value)
    decreases |actions|
  {
    if actions != [] {
      MapFollowsHistory(actions[..|actions|-1]);
      NextKeepsRecorded(Execute(INIT, actions[..|actions|-1]).value, actions[|actions|-1]);
    }
  }

  // The stop-event gate

  function Marks(log: seq<Entry>): seq<StopEvent> {
    if log == [] then []
    else
      var last := log[|log|-1];
      Marks(log[..|log|-1]) + if last.Marked? then [last.event] else []
  }

  /** Every check that passed did so with no recent mark of its execution, and none was refused
      but for a recent mark; callbacks run only after a check of their own call passed. */
  ghost predicate LogGated(log: seq<Entry>) {
    && (forall j :: 0 <= j < |log| && log[j].Passed? ==> !RecentlyStopped(Marks(log[..j]), log[j].e))
    && (forall j :: 0 <= j < |log| && log[j].Refused? ==> log[j].event in Recent(Marks(log[..j])))
    && (forall j :: 0 <= j < |log| && log[j].Called? ==> Passed(log[j].call, log[j].e) in log[..j])
  }

  /** The list of stop events is what the marks so far leave in it. */
  ghost predicate Gated(s: State) {
    && s.events == Buffer(Marks(s.log)) && LogGated(s.log)
    && (forall c :: c in s.calls && s.calls[c].Calling? ==> Passed(c, s.calls[c].e) in s.log)
  }

  lemma LogGrows(log: seq<Entry>, entry: Entry)
    requires LogGated(log)
    requires entry.Passed? ==> !RecentlyStopped(Marks(log), entry.e)
    requires entry.Refused? ==> entry.event in Recent(Marks(log))
    requires entry.Called? ==> Passed(entry.call, entry.e) in log
    ensures LogGated(log + [entry])
    ensures Marks(log + [entry]) == if entry.Marked? then Marks(log) + [entry.event] else Marks(log)
    ensures entry in log + [entry]
  {
    var longer := log + [entry];
    assert longer[..|log|] == log && longer[|log|] == entry;
    forall j | 0 <= j < |log|
      ensures longer[..j] == log[..j] && longer[j] == log[j]
    {
    }
  }

  lemma StepKeepsGated(s: State, c: Call, ok: bool)
    requires Gated(s) && c in s.calls
    ensures Gated(Step(s, c, s.calls[c], ok))
  {
    hide Buffer, Marks, LogGated, Pushed, FirstOf, RecentlyStopped, Recent;
    match s.calls[c]
    case Checking(e, request) =>
      GateIsRecentlyStopped(Marks(s.log), e);
      BufferIsRecent(Marks(s.log));
      FirstOfFinds(s.events, e);
      if FirstOf(s.events, e).None? {
        LogGrows(s.log, Passed(c, e));
      } else {
        LogGrows(s.log, Refused(c, FirstOf(s.events, e).value));
      }
    case Calling(e, request) => LogGrows(s.log, Called(c, e, request));
    case Installing(e, m) =>
      var prev := if e in s.monitors then [Took(c, e, s.monitors[e])] else [];
      if prev != [] { LogGrows(s.log, prev[0]); } else { assert s.log + prev == s.log; }
      LogGrows(s.log + prev, Installed(c, e, m));
    case Taking(e, _) =>
      if e in s.monitors { LogGrows(s.log, Took(c, e, s.monitors[e])); }
    case Stopping(e) => LogGrows(s.log, UserStop(c, e, ok));
    case Marking(e, reason) =>
      LogGrows(s.log, Marked(c, StopEvent(e, reason)));
      BufferNext(Marks(s.log), StopEvent(e, reason));
    case _ =>
  }

  lemma NextKeepsGated(s: State, a: Action)
    requires Gated(s) && Next(s, a).Some?
    ensures Gated(Next(s, a).value)
  {
    hide Buffer, Marks, LogGated, Step;
    if a.Advance? {
      StepKeepsGated(s, a.call, a.ok);
    } else {
      LogGrows(s.log, if a.MonitorEnds? then Ended(a.m) else Began(s.nextCall, a));
    }
  }

  lemma BufferNext(history: seq<StopEvent>, e: StopEvent)
    ensures Buffer(history + [e]) == Pushed(Buffer(history), e)
  {
  }

  lemma {:induction false} EveryRunIsGated(actions: seq<Action>)
    requires Execute(INIT, actions).Some?
    ensures Gated(Execute(INIT, actions).value)
    decreases |actions|
  {
    if actions != [] {
      EveryRunIsGated(actions[..|actions|-1]);
      NextKeepsGated(Execute(INIT, actions[..|actions|-1]).value, actions[|actions|-1]);
    }
  }

  /** Over every run the list holds exactly the last 101 marks, in order. */
  lemma ListHoldsRecentMarks(actions: seq<Action>)
    requires Execute(INIT, actions).Some?
    ensures var s := Execute(INIT, actions).value; s.events == Recent(Marks(s.log))
  {
    EveryRunIsGated(actions);
    BufferIsRecent(Marks(Execute(INIT, actions).value.log));
  }

  lemma {:induction false} MarksExtend(log: seq<Entry>, i: nat, j: nat)
    requires i < j <= |log| && log[i].Marked?
    ensures var m := |Marks(log[..i])|; m < |Marks(log[..j])| && Marks(log[..j])[m] == log[i].event
    decreases j
  {
    assert log[..j][..j-1] == log[..j-1];
    if j > i + 1 { MarksExtend(log, i, j - 1); }
  }

  /** Once an execution is marked as stopped, and while at most 100 further events occur, no
      status or stop request whose check runs after the mark reaches the action's own Status
      or Stop: a check that does pass has more than 100 other events since the mark. */
  lemma StoppedExecutionsStayGated(actions: seq<Action>, i: nat, j: nat)
    requires Execute(INIT, actions).Some?
    requires var log := Execute(INIT, actions).value.log;
      i < j < |log| && log[i].Marked? && log[j].Passed? && log[j].e == log[i].event.executionId
    ensures var log := Execute(INIT, actions).value.log;
      |Marks(log[..j])| - |Marks(log[..i])| - 1 > 100
  {
    EveryRunIsGated(actions);
    var log := Execute(INIT, actions).value.log;
    MarksExtend(log, i, j);
    assert !RecentlyStopped(Marks(log[..j]), log[j].e);
  }

  /** A callback of a request runs only after its own check passed. */
  lemma CallbacksFollowTheirCheck(actions: seq<Action>, j: nat)
    requires Execute(INIT, actions).Some?
    requires j < |Execute(INIT, actions).value.log| && Execute(INIT, actions).value.log[j].Called?
    ensures var log := Execute(INIT, actions).value.log;
      exists i :: 0 <= i < j && log[i] == Passed(log[j].call, log[j].e)
  {
    EveryRunIsGated(actions);
    var log := Execute(INIT, actions).value.log;
    assert Passed(log[j].call, log[j].e) in log[..j];
    var i :| 0 <= i < j && log[..j][i] == Passed(log[j].call, log[j].e);
    assert log[i] == Passed(log[j].call, log[j].e);
  }

  /** In any reachable state a check lets a request through exactly when its execution is not
      among the last 101 marks. */
  lemma CheckPassesIffNotRecentlyStopped(actions: seq<Action>, c: Call, ok: bool)
    requires Execute(INIT, actions).Some?
    requires var s := Execute(INIT, actions).value; c in s.calls && s.calls[c].Checking?
    ensures var s := Execute(INIT, actions).value;
      var t := Step(s, c, s.calls[c], ok);
      if RecentlyStopped(Marks(s.log), s.calls[c].e) then c !in t.calls
      else c in t.calls && t.calls[c] == Calling(s.calls[c].e, s.calls[c].request)
  {
    EveryRunIsGated(actions);
    var s := Execute(INIT, actions).value;
    GateIsRecentlyStopped(Marks(s.log), s.calls[c].e);
  }
}
