/** The bounded list of stop events that status and stop requests consult. */
module StopEvents {
  import opened Slices

  type ExecutionId = nat

  datatype StopEvent = StopEvent(executionId: ExecutionId, reason: string)

  /** Appending an event, dropping the oldest of more than a hundred. */
  function Pushed(events: seq<StopEvent>, e: StopEvent): seq<StopEvent> {
    (if |events| > 100 then events[1..] else events) + [e]
  }

  /** The list after a history of events. */
  function Buffer(history: seq<StopEvent>): seq<StopEvent> {
    if history == [] then [] else Pushed(Buffer(history[..|history|-1]), history[|history|-1])
  }

  function Recent(history: seq<StopEvent>): seq<StopEvent> {
    if |history| <= 101 then history else history[|history| - 101..]
  }

  /** The list holds exactly the last 101 events, in order. */
  lemma {:induction false} BufferIsRecent(history: seq<StopEvent>)
    ensures Buffer(history) == Recent(history)
  {
    if history != [] {
      var n := |history| - 1;
      BufferIsRecent(history[..n]);
      assert history == history[..n] + [history[n]];
    }
  }

  function FirstOf(events: seq<StopEvent>, id: ExecutionId): Option<StopEvent> {
    if events == [] then None
    else if events[0].executionId == id then Some(events[0])
    else FirstOf(events[1..], id)
  }

  predicate IsFirst(events: seq<StopEvent>, k: nat, id: ExecutionId) {
    k < |events| && events[k].executionId == id && forall j :: 0 <= j < k ==> events[j].executionId != id
  }

  /** The event found is the first of the list for the execution. */
  lemma {:induction false} FirstOfFinds(events: seq<StopEvent>, id: ExecutionId)
    ensures FirstOf(events, id).Some? <==> exists k :: 0 <= k < |events| && events[k].executionId == id
    ensures FirstOf(events, id).Some? ==> FirstOf(events, id).value in events && FirstOf(events, id).value.executionId == id
    ensures forall k: nat :: IsFirst(events, k, id) ==> FirstOf(events, id) == Some(events[k])
  {
    if events != [] {
      FirstOfFinds(events[1..], id);
      assert events == [events[0]] + events[1..];
      forall k: nat | IsFirst(events, k, id)
        ensures FirstOf(events, id) == Some(events[k])
      {
        if k > 0 {
          assert events[0].executionId != id;
          assert IsFirst(events[1..], k - 1, id) by {
            assert forall j :: 0 <= j < k - 1 ==> events[1..][j] == events[j + 1];
          }
        }
      }
    }
  }

  /** Some of the last 101 events of the history stops the execution. */
  ghost predicate RecentlyStopped(history: seq<StopEvent>, id: ExecutionId) {
    exists k :: 0 <= k < |history| && k >= |history| - 101 && history[k].executionId == id
  }

  /** The gate is closed exactly for the executions among the last 101 events. */
  lemma GateIsRecentlyStopped(history: seq<StopEvent>, id: ExecutionId)
    ensures FirstOf(Buffer(history), id).Some? <==> RecentlyStopped(history, id)
  {
    BufferIsRecent(history);
    FirstOfFinds(Buffer(history), id);
    hide Buffer, FirstOf;
    var recent := Recent(history);
    var drop := |history| - |recent|;
    forall k | 0 <= k < |recent|
      ensures recent[k] == history[k + drop]
    {
    }
    if k :| 0 <= k < |history| && k >= |history| - 101 && history[k].executionId == id {
      assert recent[k - drop] == history[k];
    }
  }

  /** The list as the package keeps it. */
  class StopEventLog {
    var stopEvents: seq<StopEvent>
    ghost var history: seq<StopEvent>

    ghost predicate Valid()
      reads this
    {
      stopEvents == Buffer(history)
    }

    constructor ()
      ensures Valid() && history == []
    {
      stopEvents, history := [], [];
    }

    method MarkAsStopped(executionId: ExecutionId, reason: string)
      requires Valid()
      modifies this
      ensures Valid() && history == old(history) + [StopEvent(executionId, reason)]
      ensures stopEvents == Recent(history)
    {
      if |stopEvents| > 100 {
        stopEvents := stopEvents[1..];
      }
      stopEvents := stopEvents + [StopEvent(executionId, reason)];
      history := history + [StopEvent(executionId, reason)];
      assert history[..|history|-1] == old(history);
      BufferIsRecent(history);
    }

    method GetStopEvent(executionId: ExecutionId) returns (found: Option<StopEvent>)
      requires Valid()
      ensures found == FirstOf(stopEvents, executionId)
      ensures found.Some? <==> RecentlyStopped(history, executionId)
      ensures found.Some? ==> found.value in Recent(history) && found.value.executionId == executionId
    {
      GateIsRecentlyStopped(history, executionId);
      BufferIsRecent(history);
      FirstOfFinds(stopEvents, executionId);
      for i := 0 to |stopEvents|
        invariant FirstOf(stopEvents, executionId) == FirstOf(stopEvents[i..], executionId)
      {
        if stopEvents[i].executionId == executionId {
          return Some(stopEvents[i]);
        }
      }
      return None;
    }
  }
}
