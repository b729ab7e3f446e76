/** DataStreamRequest: each piece of data is handed to every stream closure, and the completions of the streams wait
    until no stream closure is still at work. */
module DataStreams {

  import opened Sequences

  /** Identifies a stream's completion. */
  type Completion = nat

  /** responseStream without a serializer goes straight to its queue; with one it is parsed first. */
  datatype Stream = Direct | Parsing

  /** How far a call of a stream closure has got: not begun, on the serialization queue, back on the underlying queue,
      on the caller's queue, and called but still counted. */
  datatype Stage = Scheduled(stream: Stream) | Serializing | Parsed | OnQueue | Called

  /** One call of a stream closure; calls are numbered in the order they are scheduled. */
  datatype Call = Call(number: nat, stage: Stage)

  datatype StreamMutableState = StreamMutableState(
    streams: seq<Stream>,
    numberOfExecutingStreams: int,
    enqueuedCompletionEvents: seq<Completion>)

  // ---------------------------------------------------------------------------------------------
  // The lock bodies as functions
  // ---------------------------------------------------------------------------------------------

  /** didReceive(data:) */
  function Receive(m: StreamMutableState): StreamMutableState {
    m.(numberOfExecutingStreams := m.numberOfExecutingStreams + |m.streams|)
  }

  /** The completions updateAndCompleteIfPossible dispatches. */
  function Released(m: StreamMutableState): seq<Completion> {
    if m.numberOfExecutingStreams - 1 == 0 then m.enqueuedCompletionEvents else []
  }

  /** updateAndCompleteIfPossible */
  function Update(m: StreamMutableState): StreamMutableState {
    m.(numberOfExecutingStreams := m.numberOfExecutingStreams - 1,
       enqueuedCompletionEvents := if m.numberOfExecutingStreams - 1 == 0 then [] else m.enqueuedCompletionEvents)
  }

  /** The completion of appendStreamCompletion */
  function Complete(m: StreamMutableState, c: Completion): StreamMutableState {
    if m.numberOfExecutingStreams == 0 then m
    else m.(enqueuedCompletionEvents := m.enqueuedCompletionEvents + [c])
  }

  // ---------------------------------------------------------------------------------------------
  // The class
  // ---------------------------------------------------------------------------------------------

  class DataStreamRequest {
    var streams: seq<Stream>
    var numberOfExecutingStreams: int
    var enqueuedCompletionEvents: seq<Completion>

    ghost function Value(): StreamMutableState
      reads this
    {
      StreamMutableState(streams, numberOfExecutingStreams, enqueuedCompletionEvents)
    }

    constructor ()
      ensures Value() == StreamMutableState([], 0, [])
    {
      streams, numberOfExecutingStreams, enqueuedCompletionEvents := [], 0, [];
    }

    /** responseStream: the parser is added */
    method AddStream(stream: Stream)
      modifies this
      ensures Value() == old(Value()).(streams := old(streams) + [stream])
    {
      streams := streams + [stream];
    }

    /** didReceive(data:); the closures to call */
    method DidReceive() returns (localStreams: seq<Stream>)
      modifies this
      ensures localStreams == old(streams) && Value() == Receive(old(Value()))
    {
      numberOfExecutingStreams := numberOfExecutingStreams + |streams|;
      localStreams := streams;
    }

    /** updateAndCompleteIfPossible; the completion events dispatched */
    method UpdateAndCompleteIfPossible() returns (completionEvents: seq<Completion>)
      modifies this
      ensures completionEvents == Released(old(Value())) && Value() == Update(old(Value()))
    {
      numberOfExecutingStreams := numberOfExecutingStreams - 1;
      if numberOfExecutingStreams != 0 || enqueuedCompletionEvents == [] {
        return [];
      }
      completionEvents := enqueuedCompletionEvents;
      enqueuedCompletionEvents := [];
    }

    /** The completion closure of appendStreamCompletion; whether it enqueues the completion at once */
    method CompleteStream(c: Completion) returns (now: bool)
      modifies this
      ensures now == (old(numberOfExecutingStreams) == 0) && Value() == Complete(old(Value()), c)
    {
      if numberOfExecutingStreams != 0 {
        enqueuedCompletionEvents := enqueuedCompletionEvents + [c];
        return false;
      }
      return true;
    }
  }

  // ---------------------------------------------------------------------------------------------
  // Runs
  // ---------------------------------------------------------------------------------------------

  /** A request and its surroundings: the calls of stream closures not yet finished, the dispatched blocks of
      completion events, and the history: how many calls were ever scheduled, completions that arrived, those released,
      how many calls had been scheduled when each was, and those enqueued on the caller's queue. */
  datatype System = System(
    m: StreamMutableState,
    calls: seq<Call>,
    blocks: seq<seq<Completion>>,
    scheduled: nat,
    arrived: seq<Completion>,
    released: seq<Completion>,
    scheduledAtRelease: seq<nat>,
    delivered: seq<Completion>)

  datatype Event =
    | DoAddStream(stream: Stream)
    | DoReceive
    // One step of one call
    | Advance(call: nat)
    // A stream's completion closure is called
    | DoComplete(completion: Completion)
    // One completion event of a dispatched block
    | RunBlock(block: nat)

  predicate Enabled(s: System, e: Event) {
    match e
    case Advance(i) => i < |s.calls|
    case RunBlock(i) => i < |s.blocks|
    case _ => true
  }

  function Schedule(streams: seq<Stream>, first: nat): (r: seq<Call>)
    ensures |r| == |streams|
    ensures forall c | c in r :: first <= c.number < first + |streams|
  {
    if streams == [] then [] else [Call(first, Scheduled(streams[0]))] + Schedule(streams[1..], first + 1)
  }

  /** As many copies of a number as completions were released. */
  function Stamps(events: seq<Completion>, scheduled: nat): (r: seq<nat>)
    ensures |r| == |events| && forall n | n in r :: n == scheduled
  {
    if events == [] then [] else [scheduled] + Stamps(events[1..], scheduled)
  }

  /** The stages of the parsers, up to the call of the closure. */
  function NextStage(stage: Stage): Stage
    requires !stage.Called?
  {
    match stage
    case Scheduled(Direct) => OnQueue
    case Scheduled(Parsing) => Serializing
    case Serializing => Parsed
    case Parsed => OnQueue
    case OnQueue => Called
  }

  function Next(s: System, e: Event): System
    requires Enabled(s, e)
  {
    match e
    case DoAddStream(stream) => s.(m := s.m.(streams := s.m.streams + [stream]))
    case DoReceive =>
      s.(m := Receive(s.m), calls := s.calls + Schedule(s.m.streams, s.scheduled),
         scheduled := s.scheduled + |s.m.streams|)
    case Advance(i) =>
      if !s.calls[i].stage.Called? then
        s.(calls := s.calls[i := s.calls[i].(stage := NextStage(s.calls[i].stage))])
      else
        var events := Released(s.m);
        s.(m := Update(s.m), calls := Without(s.calls, i), released := s.released + events,
           scheduledAtRelease := s.scheduledAtRelease + Stamps(events, s.scheduled),
           blocks := if events == [] then s.blocks else s.blocks + [events])
    case DoComplete(c) =>
      var s1 := s.(m := Complete(s.m, c), arrived := s.arrived + [c]);
      if s.m.numberOfExecutingStreams == 0 then
        s1.(released := s.released + [c], scheduledAtRelease := s.scheduledAtRelease + [s.scheduled],
            delivered := s.delivered + [c])
      else s1
    case RunBlock(i) =>
      if s.blocks[i] == [] then s.(blocks := Without(s.blocks, i))
      else s.(blocks := s.blocks[i := s.blocks[i][1..]], delivered := s.delivered + [s.blocks[i][0]])
  }

  const INITIAL := System(StreamMutableState([], 0, []), [], [], 0, [], [], [], [])

  predicate IsRun(s: System, events: seq<Event>)
    decreases |events|
  {
    events == [] || (Enabled(s, events[0]) && IsRun(Next(s, events[0]), events[1..]))
  }

  function After(s: System, events: seq<Event>): System
    requires IsRun(s, events)
    decreases |events|
  {
    if events == [] then s else After(Next(s, events[0]), events[1..])
  }

  // ---------------------------------------------------------------------------------------------
  // The invariant
  // ---------------------------------------------------------------------------------------------

  /** The counter counts the calls not yet finished; completions wait only while there are some; and released and
      waiting completions are those that arrived, in order. */
  predicate Counted(s: System) {
    && s.m.numberOfExecutingStreams == |s.calls|
    && (s.calls == [] ==> s.m.enqueuedCompletionEvents == [])
    && s.arrived == s.released + s.m.enqueuedCompletionEvents
  }

  /** How often a completion is in the dispatched blocks. */
  function InBlocks(blocks: seq<seq<Completion>>, c: Completion): nat {
    if blocks == [] then 0 else multiset(blocks[0])[c] + InBlocks(blocks[1..], c)
  }

  /** What was released is in a block, or on its caller's queue. */
  predicate Delivering(s: System, c: Completion) {
    multiset(s.released)[c] == InBlocks(s.blocks, c) + multiset(s.delivered)[c]
  }

  lemma {:induction false} InBlocksAppend(blocks: seq<seq<Completion>>, block: seq<Completion>, c: Completion)
    ensures InBlocks(blocks + [block], c) == InBlocks(blocks, c) + multiset(block)[c]
  {
    if blocks == [] {
      assert blocks + [block] == [block] && [block][1..] == [];
    } else {
      assert (blocks + [block])[1..] == blocks[1..] + [block];
      InBlocksAppend(blocks[1..], block, c);
    }
  }

  lemma {:induction false} InBlocksUpdate(blocks: seq<seq<Completion>>, i: nat, block: seq<Completion>, c: Completion)
    requires i < |blocks|
    ensures InBlocks(blocks[i := block], c) + multiset(blocks[i])[c] == InBlocks(blocks, c) + multiset(block)[c]
    ensures InBlocks(Without(blocks, i), c) + multiset(blocks[i])[c] == InBlocks(blocks, c)
  {
    if i == 0 {
      assert blocks[i := block][1..] == blocks[1..] && Without(blocks, i) == blocks[1..];
    } else {
      assert blocks[i := block][1..] == blocks[1..][i - 1 := block];
      assert Without(blocks, i)[1..] == Without(blocks[1..], i - 1);
      InBlocksUpdate(blocks[1..], i - 1, block, c);
    }
  }

  /** Every step keeps the counter exact; and a step that releases completions releases all that wait, when no call
      of a stream closure is outstanding. */
  lemma {:induction false} StepCounted(s: System, e: Event)
    requires Enabled(s, e) && Counted(s)
    ensures var t := Next(s, e);
            && Counted(t)
            && (t.released != s.released ==> t.calls == [] && t.m.enqueuedCompletionEvents == [])
            && s.released <= t.released
  {
    hide Schedule, Without;
    if e.DoComplete? && s.m.numberOfExecutingStreams == 0 {
      assert s.arrived == s.released;
    }
  }

  lemma {:induction false} StepDelivers(s: System, e: Event, c: Completion)
    requires Enabled(s, e) && Delivering(s, c)
    ensures Delivering(Next(s, e), c)
  {
    match e
    case Advance(i) =>
      if s.calls[i].stage.Called? {
        InBlocksAppend(s.blocks, Released(s.m), c);
      }
    case RunBlock(i) =>
      if s.blocks[i] == [] {
        InBlocksUpdate(s.blocks, i, [], c);
      } else {
        assert s.blocks[i] == [s.blocks[i][0]] + s.blocks[i][1..];
        InBlocksUpdate(s.blocks, i, s.blocks[i][1..], c);
      }
    case _ =>
  }

  lemma {:induction false} RunCounted(s: System, events: seq<Event>, c: Completion)
    requires IsRun(s, events) && Counted(s) && Delivering(s, c)
    ensures Counted(After(s, events)) && Delivering(After(s, events), c)
    decreases |events|
  {
    hide Enabled, Next, Counted, Delivering;
    if events != [] {
      StepCounted(s, events[0]);
      StepDelivers(s, events[0], c);
      RunCounted(Next(s, events[0]), events[1..], c);
    }
  }

  /** In every reachable state the counter is the number of calls scheduled and not finished, so it is never negative;
      completions wait only while it is positive; what was released are the first completions that arrived, in order;
      each was released once, and is in one block or delivered. */
  lemma {:induction false} EveryRun(events: seq<Event>, c: Completion)
    requires IsRun(INITIAL, events)
    ensures var s := After(INITIAL, events);
            && s.m.numberOfExecutingStreams == |s.calls|
            && (s.m.enqueuedCompletionEvents != [] ==> s.m.numberOfExecutingStreams > 0)
            && s.released <= s.arrived
            && (s.calls == [] ==> s.released == s.arrived)
            && multiset(s.released)[c] == InBlocks(s.blocks, c) + multiset(s.delivered)[c]
            && (s.calls == [] && s.blocks == [] ==> multiset(s.delivered)[c] == multiset(s.arrived)[c])
  {
    hide Enabled, Next;
    RunCounted(INITIAL, events, c);
  }

  // ---------------------------------------------------------------------------------------------
  // Delivery
  // ---------------------------------------------------------------------------------------------

  /** Every call still outstanding was scheduled after every release. */
  ghost predicate CallsAreLater(s: System) {
    && |s.scheduledAtRelease| == |s.released|
    && (forall c | c in s.calls :: c.number < s.scheduled)
    && (forall n | n in s.scheduledAtRelease :: n <= s.scheduled)
    && (forall c, n | c in s.calls && n in s.scheduledAtRelease :: n <= c.number)
  }

  lemma {:induction false} StepLater(s: System, e: Event)
    requires Enabled(s, e) && Counted(s) && CallsAreLater(s)
    ensures CallsAreLater(Next(s, e))
  {
    hide Schedule, Stamps, Released, Update, Receive, Complete, Without;
    StepCounted(s, e);
    match e
    case Advance(i) =>
      WithoutKeeps(s.calls, i);
      assert s.calls[i] in s.calls;
    case _ =>
  }

  lemma {:induction false} RunLater(s: System, events: seq<Event>)
    requires IsRun(s, events) && Counted(s) && CallsAreLater(s)
    ensures CallsAreLater(After(s, events))
    decreases |events|
  {
    hide Enabled, Next, Counted, CallsAreLater;
    if events != [] {
      StepCounted(s, events[0]);
      StepLater(s, events[0]);
      RunLater(Next(s, events[0]), events[1..]);
    }
  }

  /** Over every run: a completion is released, and so delivered, only after every call of a stream closure that was
      scheduled before its release has finished. A call still outstanding was scheduled later. */
  lemma {:induction false} EarlierCallsAreFinished(events: seq<Event>, call: Call, k: nat)
    requires IsRun(INITIAL, events)
    requires call in After(INITIAL, events).calls && k < |After(INITIAL, events).released|
    ensures var s := After(INITIAL, events);
            k < |s.scheduledAtRelease| && s.scheduledAtRelease[k] <= call.number < s.scheduled
  {
    hide Enabled, Next;
    RunLater(INITIAL, events);
    var s := After(INITIAL, events);
    assert s.scheduledAtRelease[k] in s.scheduledAtRelease;
  }

  /** Completions wait for the calls of stream closures. */
  predicate Quiet(s: System) {
    s.calls != [] ==> s.released == []
  }

  /** So they do in every state of a run. */
  predicate AlwaysQuiet(s: System, events: seq<Event>)
    requires IsRun(s, events)
    decreases |events|
  {
    Quiet(s) && (events == [] || AlwaysQuiet(Next(s, events[0]), events[1..]))
  }

  /** No stream closure is called with data received once a completion has been released. */
  predicate NoLateData(s: System, events: seq<Event>)
    requires IsRun(s, events)
    decreases |events|
  {
    events == []
    || ((events[0].DoReceive? && s.m.streams != [] ==> s.released == []) && NoLateData(Next(s, events[0]), events[1..]))
  }

  lemma {:induction false} StepQuiet(s: System, e: Event)
    requires Enabled(s, e) && Counted(s) && Quiet(s)
    ensures Quiet(Next(s, e)) <==> (e.DoReceive? && s.m.streams != [] ==> s.released == [])
  {
    hide Schedule, Without, Stamps;
    StepCounted(s, e);
  }

  lemma {:induction false} RunQuiet(s: System, events: seq<Event>)
    requires IsRun(s, events) && Counted(s) && Quiet(s)
    ensures AlwaysQuiet(s, events) <==> NoLateData(s, events)
    decreases |events|
  {
    hide Enabled, Next, Counted, Quiet;
    if events != [] {
      StepQuiet(s, events[0]);
      StepCounted(s, events[0]);
      if Quiet(Next(s, events[0])) {
        RunQuiet(Next(s, events[0]), events[1..]);
      } else {
        assert !AlwaysQuiet(Next(s, events[0]), events[1..]);
      }
    }
  }

  /** In every state of a run no completion has been released while a call of a stream closure is outstanding, if and
      only if no stream closure is given data received after a release. */
  lemma {:induction false} CompletionsComeLast(events: seq<Event>)
    requires IsRun(INITIAL, events)
    ensures AlwaysQuiet(INITIAL, events) <==> NoLateData(INITIAL, events)
    ensures NoLateData(INITIAL, events) && After(INITIAL, events).delivered != [] ==> After(INITIAL, events).calls == []
  {
    hide Enabled, Next;
    RunQuiet(INITIAL, events);
    if NoLateData(INITIAL, events) {
      QuietAtEnd(INITIAL, events);
      DeliveredWasReleased(INITIAL, events);
    }
  }

  lemma {:induction false} QuietAtEnd(s: System, events: seq<Event>)
    requires IsRun(s, events) && AlwaysQuiet(s, events)
    ensures Quiet(After(s, events))
    decreases |events|
  {
    hide Enabled, Next, Quiet;
    if events != [] {
      QuietAtEnd(Next(s, events[0]), events[1..]);
    }
  }

  lemma {:induction false} DeliveredWasReleased(s: System, events: seq<Event>)
    requires IsRun(s, events) && (s.released == [] ==> s.blocks == [] && s.delivered == [])
    ensures After(s, events).released == [] ==> After(s, events).blocks == [] && After(s, events).delivered == []
    decreases |events|
  {
    if events != [] {
      StepReleases(s, events[0]);
      hide Enabled, Next;
      DeliveredWasReleased(Next(s, events[0]), events[1..]);
    }
  }

  lemma {:induction false} StepReleases(s: System, e: Event)
    requires Enabled(s, e) && (s.released == [] ==> s.blocks == [] && s.delivered == [])
    ensures Next(s, e).released == [] ==> Next(s, e).blocks == [] && Next(s, e).delivered == []
  {
    hide Schedule, Without, Stamps;
  }

  /** A run with such data. */
  function LateRun(c: Completion): seq<Event> {
    [DoAddStream(Direct), DoReceive, DoComplete(c), Advance(0), Advance(0), Advance(0), DoReceive, RunBlock(0)]
  }

  /** The system after k steps of it. */
  function LateState(c: Completion, k: nat): System {
    var m := StreamMutableState([Direct], 0, []);
    var busy, waiting := m.(numberOfExecutingStreams := 1), StreamMutableState([Direct], 1, [c]);
    var s := System(m, [], [], 0, [], [], [], []);
    if k == 0 then INITIAL
    else if k == 1 then s
    else if k == 2 then s.(m := busy, calls := [Call(0, Scheduled(Direct))], scheduled := 1)
    else if k <= 5 then
      var stage := if k == 3 then Scheduled(Direct) else if k == 4 then OnQueue else Called;
      s.(m := waiting, calls := [Call(0, stage)], scheduled := 1, arrived := [c])
    else
      var t := s.(scheduled := 1, blocks := [[c]], arrived := [c], released := [c], scheduledAtRelease := [1]);
      if k == 6 then t
      else
        var u := t.(m := busy, calls := [Call(1, Scheduled(Direct))], scheduled := 2);
        if k == 7 then u else u.(blocks := [[]], delivered := [c])
  }

  lemma {:induction false} LateStep(c: Completion, k: nat)
    requires k < 8
    ensures Enabled(LateState(c, k), LateRun(c)[k])
    ensures Next(LateState(c, k), LateRun(c)[k]) == LateState(c, k + 1)
  {
    if k == 1 || k == 6 {
      assert Schedule([Direct], LateState(c, k).scheduled) == [Call(LateState(c, k).scheduled, Scheduled(Direct))];
    } else if k == 5 {
      assert Stamps([c], 1) == [1];
      assert Without(LateState(c, k).calls, 0) == [];
    } else if k == 7 {
      assert [c][1..] == [];
    }
  }

  lemma {:induction false} LateRuns(c: Completion, k: nat)
    requires k <= 8
    ensures var s, rest := LateState(c, k), LateRun(c)[k..];
            IsRun(s, rest) && After(s, rest) == LateState(c, 8)
    decreases 8 - k
  {
    hide Enabled, Next, LateState;
    if k < 8 {
      LateStep(c, k);
      assert LateRun(c)[k..][1..] == LateRun(c)[k + 1..];
      LateRuns(c, k + 1);
    }
  }

  /** The dispatched block does not look at the counter again: the completion is delivered while a call is
      outstanding. */
  lemma {:induction false} LateDataIsNotAwaited(c: Completion)
    ensures IsRun(INITIAL, LateRun(c))
    ensures After(INITIAL, LateRun(c)).delivered == [c] && After(INITIAL, LateRun(c)).calls != []
  {
    LateRuns(c, 0);
    assert LateRun(c)[0..] == LateRun(c);
  }
}
