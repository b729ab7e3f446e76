/** RequestTaskMap and the part of Session that uses it: a task's completion runs once its metrics have been gathered
    and it has completed, in whichever order these two arrive. */
module TaskMap {

  import opened Wrappers

  type Task = nat

  type Request = nat

  /** A closure passed with a task's completion. */
  type Completion = nat

  datatype Events = Events(completed: bool, metricsGathered: bool)

  /** None stands for fatalError. */
  type Outcome = Option<bool>

  datatype Maps = Maps(
    tasksToRequests: map<Task, Request>,
    requestsToTasks: map<Request, Task>,
    taskEvents: map<Task, Events>)

  // ---------------------------------------------------------------------------------------------
  // The operations on the maps, as functions
  // ---------------------------------------------------------------------------------------------

  function Associate(m: Maps, request: Request, task: Task): Maps {
    Maps(m.tasksToRequests[task := request], m.requestsToTasks[request := task],
         m.taskEvents[task := Events(false, false)])
  }

  function Remove(m: Maps, request: Request, task: Task): Maps {
    Maps(m.tasksToRequests - {task}, m.requestsToTasks - {request}, m.taskEvents - {task})
  }

  /** The maps afterwards, and whether the task was removed; None is fatalError. */
  function AfterMetrics(m: Maps, task: Task): Option<(Maps, bool)> {
    if task !in m.taskEvents || m.taskEvents[task].metricsGathered then None
    else if !m.taskEvents[task].completed then
      Some((m.(taskEvents := m.taskEvents[task := Events(false, true)]), false))
    else if task !in m.tasksToRequests then None
    else Some((Remove(m, m.tasksToRequests[task], task), true))
  }

  function AfterCompletion(m: Maps, task: Task): Option<(Maps, bool)> {
    if task !in m.taskEvents || m.taskEvents[task].completed then None
    else if !m.taskEvents[task].metricsGathered then
      Some((m.(taskEvents := m.taskEvents[task := Events(true, false)]), false))
    else if task !in m.tasksToRequests then None
    else Some((Remove(m, m.tasksToRequests[task], task), true))
  }

  /** The map and the completions of a session: those waiting for metrics, and those run so far, in order. */
  datatype State = State(maps: Maps, waitingCompletions: map<Task, Completion>, ran: seq<Completion>)

  function DidGatherMetrics(s: State, task: Task): Option<State> {
    match AfterMetrics(s.maps, task)
    case None => None
    case Some((m, false)) => Some(s.(maps := m))
    case Some((m, true)) =>
      Some(State(m, s.waitingCompletions - {task},
                 s.ran + if task in s.waitingCompletions then [s.waitingCompletions[task]] else []))
  }

  function DidComplete(s: State, task: Task, completion: Completion): Option<State> {
    match AfterCompletion(s.maps, task)
    case None => None
    case Some((m, true)) => Some(s.(maps := m, ran := s.ran + [completion]))
    case Some((m, false)) => Some(s.(maps := m, waitingCompletions := s.waitingCompletions[task := completion]))
  }

  // ---------------------------------------------------------------------------------------------
  // The classes
  // ---------------------------------------------------------------------------------------------

  class RequestTaskMap {
    var tasksToRequests: map<Task, Request>
    var requestsToTasks: map<Request, Task>
    var taskEvents: map<Task, Events>

    ghost function Value(): Maps
      reads this
    {
      Maps(tasksToRequests, requestsToTasks, taskEvents)
    }

    constructor ()
      ensures Value() == Maps(map[], map[], map[])
    {
      tasksToRequests, requestsToTasks, taskEvents := map[], map[], map[];
    }

    /** subscript(_ request:), set; false stands for fatalError. */
    method SetTask(request: Request, newValue: Option<Task>) returns (ok: bool)
      modifies this
      ensures ok == (newValue.Some? || request in old(requestsToTasks))
      ensures Value() == if newValue.Some? then Associate(old(Value()), request, newValue.value)
                         else if ok then Remove(old(Value()), request, old(requestsToTasks)[request])
                         else old(Value())
    {
      if newValue.None? {
        if request !in requestsToTasks {
          return false;
        }
        var task := requestsToTasks[request];
        requestsToTasks := requestsToTasks - {request};
        tasksToRequests := tasksToRequests - {task};
        taskEvents := taskEvents - {task};
        return true;
      }
      requestsToTasks := requestsToTasks[request := newValue.value];
      tasksToRequests := tasksToRequests[newValue.value := request];
      taskEvents := taskEvents[newValue.value := Events(false, false)];
      return true;
    }

    /** subscript(_ task:), set; false stands for fatalError. */
    method SetRequest(task: Task, newValue: Option<Request>) returns (ok: bool)
      modifies this
      ensures ok == (newValue.Some? || task in old(tasksToRequests))
      ensures Value() == if newValue.Some? then Associate(old(Value()), newValue.value, task)
                         else if ok then Remove(old(Value()), old(tasksToRequests)[task], task)
                         else old(Value())
    {
      if newValue.None? {
        if task !in tasksToRequests {
          return false;
        }
        var request := tasksToRequests[task];
        tasksToRequests := tasksToRequests - {task};
        requestsToTasks := requestsToTasks - {request};
        taskEvents := taskEvents - {task};
        return true;
      }
      tasksToRequests := tasksToRequests[task := newValue.value];
      requestsToTasks := requestsToTasks[newValue.value := task];
      taskEvents := taskEvents[task := Events(false, false)];
      return true;
    }

    /** disassociateIfNecessaryAfterGatheringMetricsForTask */
    method DisassociateAfterMetrics(task: Task) returns (r: Outcome)
      modifies this
      ensures var after := AfterMetrics(old(Value()), task);
              if after.None? then r.None? && Value() == old(Value())
              else Value() == after.value.0 && r == Some(after.value.1)
    {
      if task !in taskEvents {
        return None;
      }
      var events := taskEvents[task];
      if events.metricsGathered {
        return None;
      } else if !events.completed {
        taskEvents := taskEvents[task := Events(false, true)];
        return Some(false);
      } else {
        var ok := SetRequest(task, None);
        return if ok then Some(true) else None;
      }
    }

    /** disassociateIfNecessaryAfterCompletingTask, on platforms that gather metrics */
    method DisassociateAfterCompletion(task: Task) returns (r: Outcome)
      modifies this
      ensures var after := AfterCompletion(old(Value()), task);
              if after.None? then r.None? && Value() == old(Value())
              else Value() == after.value.0 && r == Some(after.value.1)
    {
      if task !in taskEvents {
        return None;
      }
      var events := taskEvents[task];
      if events.completed {
        return None;
      } else if !events.metricsGathered {
        taskEvents := taskEvents[task := Events(true, false)];
        return Some(false);
      } else {
        var ok := SetRequest(task, None);
        return if ok then Some(true) else None;
      }
    }
  }

  class Session {
    const requestTaskMap: RequestTaskMap
    var waitingCompletions: map<Task, Completion>
    var ran: seq<Completion>

    ghost function Value(): State
      reads this, requestTaskMap
    {
      State(requestTaskMap.Value(), waitingCompletions, ran)
    }

    constructor ()
      ensures Value() == State(Maps(map[], map[], map[]), map[], []) && fresh(requestTaskMap)
    {
      requestTaskMap := new RequestTaskMap();
      waitingCompletions, ran := map[], [];
    }

    /** The insertion in didCreateURLRequest and didReceiveResumeData */
    method DidCreateTask(request: Request, task: Task)
      modifies requestTaskMap
      ensures Value() == old(Value()).(maps := Associate(old(Value()).maps, request, task))
    {
      var _ := requestTaskMap.SetTask(request, Some(task));
    }

    /** didGatherMetricsForTask; false stands for fatalError. */
    method DidGatherMetricsForTask(task: Task) returns (ok: bool)
      modifies this, requestTaskMap
      ensures ok == DidGatherMetrics(old(Value()), task).Some?
      ensures ok ==> Value() == DidGatherMetrics(old(Value()), task).value
    {
      var didDisassociate := requestTaskMap.DisassociateAfterMetrics(task);
      if didDisassociate.None? {
        return false;
      }
      if didDisassociate.value {
        if task in waitingCompletions {
          ran := ran + [waitingCompletions[task]];
        }
        waitingCompletions := waitingCompletions - {task};
      }
      return true;
    }

    /** didCompleteTask; false stands for fatalError. */
    method DidCompleteTask(task: Task, completion: Completion) returns (ok: bool)
      modifies this, requestTaskMap
      ensures ok == DidComplete(old(Value()), task, completion).Some?
      ensures ok ==> Value() == DidComplete(old(Value()), task, completion).value
    {
      var didDisassociate := requestTaskMap.DisassociateAfterCompletion(task);
      if didDisassociate.None? {
        return false;
      }
      if didDisassociate.value {
        ran := ran + [completion];
      } else {
        waitingCompletions := waitingCompletions[task := completion];
      }
      return true;
    }
  }

  // ---------------------------------------------------------------------------------------------
  // What the maps are to be
  // ---------------------------------------------------------------------------------------------

  /** The two maps are inverses of each other, and events are kept for exactly the mapped tasks. */
  ghost predicate Consistent(m: Maps) {
    && (forall t | t in m.tasksToRequests ::
          m.tasksToRequests[t] in m.requestsToTasks && m.requestsToTasks[m.tasksToRequests[t]] == t)
    && (forall r | r in m.requestsToTasks ::
          m.requestsToTasks[r] in m.tasksToRequests && m.tasksToRequests[m.requestsToTasks[r]] == r)
    && m.taskEvents.Keys == m.tasksToRequests.Keys
  }

  /** Inserting keeps the maps inverses exactly when neither side is mapped, or they are mapped to each other. */
  lemma {:induction false} AssociateKeepsIff(m: Maps, request: Request, task: Task)
    requires Consistent(m)
    ensures Consistent(Associate(m, request, task))
            <==> (request !in m.requestsToTasks && task !in m.tasksToRequests)
                 || (request in m.requestsToTasks && m.requestsToTasks[request] == task)
  {
    var after := Associate(m, request, task);
    if request in m.requestsToTasks && m.requestsToTasks[request] != task {
      var other := m.requestsToTasks[request];
      assert other in after.tasksToRequests && after.tasksToRequests[other] == request;
      assert !Consistent(after);
    } else if task in m.tasksToRequests && m.tasksToRequests[task] != request {
      var other := m.tasksToRequests[task];
      assert other in after.requestsToTasks && after.requestsToTasks[other] == task;
      assert !Consistent(after);
    }
  }

  /** A request given a second task while the first is mapped: both tasks map to it, and removing the second leaves the
      first without a way back. */
  lemma {:induction false} SecondTaskBreaksMap(request: Request, first: Task, second: Task)
    requires first != second
    ensures var m := Associate(Maps(map[], map[], map[]), request, first);
            && Consistent(m)
            && var broken := Associate(m, request, second);
               && !Consistent(broken)
               && broken.tasksToRequests == map[first := request, second := request]
               && broken.requestsToTasks == map[request := second]
               && Remove(broken, request, second).tasksToRequests == map[first := request]
               && Remove(broken, request, second).requestsToTasks == map[]
  {
    var empty: map<Request, Task> := map[];
    var m := Associate(Maps(map[], map[], map[]), request, first);
    var broken := Associate(m, request, second);
    assert broken.tasksToRequests[first] == request && broken.requestsToTasks[request] != first;
    assert Remove(broken, request, second).tasksToRequests == map[first := request];
    assert Remove(broken, request, second).requestsToTasks == empty;
  }

  /** Both ways of removing a pair do the same to consistent maps, and keep them so. */
  lemma {:induction false} RemoveKeeps(m: Maps, task: Task)
    requires Consistent(m) && task in m.tasksToRequests
    ensures var request := m.tasksToRequests[task];
            && m.requestsToTasks[request] == task
            && Consistent(Remove(m, request, task))
            && task !in Remove(m, request, task).tasksToRequests
            && request !in Remove(m, request, task).requestsToTasks
  {
  }

  /** The preconditions of count, isEmpty, eventCount and isEventsEmpty hold. */
  lemma {:induction false} CountsAgree(m: Maps)
    requires Consistent(m)
    ensures |m.tasksToRequests| == |m.requestsToTasks| == |m.taskEvents|
    decreases |m.tasksToRequests|
  {
    assert |m.taskEvents| == |m.taskEvents.Keys| == |m.tasksToRequests.Keys|;
    if m.tasksToRequests.Keys == {} {
      if r :| r in m.requestsToTasks {
        assert false;
      }
      assert m.requestsToTasks.Keys == {};
    } else {
      var t :| t in m.tasksToRequests;
      var r := m.tasksToRequests[t];
      var rest := Remove(m, r, t);
      RemoveKeeps(m, t);
      assert rest.tasksToRequests.Keys == m.tasksToRequests.Keys - {t};
      assert rest.requestsToTasks.Keys == m.requestsToTasks.Keys - {r};
      CountsAgree(rest);
    }
  }

  // ---------------------------------------------------------------------------------------------
  // The join the maps implement
  // ---------------------------------------------------------------------------------------------

  /** What has arrived for a task. */
  datatype Life = Life(request: Request, metrics: bool, completion: Option<Completion>)

  /** Tasks of which something is still to arrive, and the completions run: the session without its maps. */
  datatype Join = Join(live: map<Task, Life>, ran: seq<Completion>)

  datatype Event =
    | Create(request: Request, task: Task)
    | Metrics(task: Task)
    | Complete(task: Task, completion: Completion)

  /** A task is created while it and its request are not live; each event arrives once, while the task is live. */
  ghost predicate Orderly(j: Join, e: Event) {
    match e
    case Create(r, t) => t !in j.live && forall u | u in j.live :: j.live[u].request != r
    case Metrics(t) => t in j.live && !j.live[t].metrics
    case Complete(t, _) => t in j.live && j.live[t].completion.None?
  }

  /** A task lives until both have arrived; then its completion runs. */
  function JoinStep(j: Join, e: Event): Join
    requires Orderly(j, e)
  {
    match e
    case Create(r, t) => j.(live := j.live[t := Life(r, false, None)])
    case Metrics(t) =>
      if j.live[t].completion.Some? then Join(j.live - {t}, j.ran + [j.live[t].completion.value])
      else j.(live := j.live[t := j.live[t].(metrics := true)])
    case Complete(t, c) =>
      if j.live[t].metrics then Join(j.live - {t}, j.ran + [c])
      else j.(live := j.live[t := j.live[t].(completion := Some(c))])
  }

  /** The session's step; None is fatalError. */
  function SessionStep(s: State, e: Event): Option<State> {
    match e
    case Create(r, t) => Some(s.(maps := Associate(s.maps, r, t)))
    case Metrics(t) => DidGatherMetrics(s, t)
    case Complete(t, c) => DidComplete(s, t, c)
  }

  /** The maps and waiting completions say what is live. */
  ghost predicate Represents(s: State, j: Join) {
    && Consistent(s.maps)
    && s.maps.tasksToRequests.Keys == j.live.Keys
    && (forall t | t in j.live ::
          && s.maps.tasksToRequests[t] == j.live[t].request
          && s.maps.taskEvents[t] == Events(j.live[t].completion.Some?, j.live[t].metrics)
          && !(j.live[t].metrics && j.live[t].completion.Some?)
          && (t in s.waitingCompletions <==> j.live[t].completion.Some?)
          && (t in s.waitingCompletions ==> j.live[t].completion == Some(s.waitingCompletions[t])))
    && (forall t | t in s.waitingCompletions :: t in j.live)
    && s.ran == j.ran
  }

  lemma {:induction false} CreateRefines(s: State, j: Join, request: Request, task: Task)
    requires Represents(s, j) && Orderly(j, Create(request, task))
    ensures Represents(SessionStep(s, Create(request, task)).value, JoinStep(j, Create(request, task)))
  {
    assert forall r | r in s.maps.requestsToTasks :: j.live[s.maps.requestsToTasks[r]].request == r;
    AssociateKeepsIff(s.maps, request, task);
  }

  lemma {:induction false} MetricsRefines(s: State, j: Join, task: Task)
    requires Represents(s, j)
    ensures DidGatherMetrics(s, task).Some? <==> Orderly(j, Metrics(task))
    ensures Orderly(j, Metrics(task)) ==>
              Represents(DidGatherMetrics(s, task).value, JoinStep(j, Metrics(task)))
  {
    if Orderly(j, Metrics(task)) && j.live[task].completion.Some? {
      RemoveKeeps(s.maps, task);
    }
  }

  /** The second to arrive removes the task. */
  lemma {:induction false} CompletionRuns(s: State, j: Join, task: Task, completion: Completion)
    requires Represents(s, j) && Orderly(j, Complete(task, completion)) && j.live[task].metrics
    ensures DidComplete(s, task, completion).Some?
    ensures Represents(DidComplete(s, task, completion).value, JoinStep(j, Complete(task, completion)))
  {
    RemoveKeeps(s.maps, task);
  }

  /** The first is recorded. */
  lemma {:induction false} CompletionWaits(s: State, j: Join, task: Task, completion: Completion)
    requires Represents(s, j) && Orderly(j, Complete(task, completion)) && !j.live[task].metrics
    ensures DidComplete(s, task, completion).Some?
    ensures Represents(DidComplete(s, task, completion).value, JoinStep(j, Complete(task, completion)))
  {
  }

  lemma {:induction false} CompletionRefines(s: State, j: Join, task: Task, completion: Completion)
    requires Represents(s, j)
    ensures DidComplete(s, task, completion).Some? <==> Orderly(j, Complete(task, completion))
    ensures Orderly(j, Complete(task, completion)) ==>
              Represents(DidComplete(s, task, completion).value, JoinStep(j, Complete(task, completion)))
  {
    if !Orderly(j, Complete(task, completion)) {
      hide JoinStep;
    } else if j.live[task].metrics {
      CompletionRuns(s, j, task, completion);
    } else {
      CompletionWaits(s, j, task, completion);
    }
  }

  /** No step is a fatalError unless an event comes twice or for a task that is not live; the others do what the join
      does. */
  lemma {:induction false} StepRefines(s: State, j: Join, e: Event)
    requires Represents(s, j)
    ensures Orderly(j, e) ==> SessionStep(s, e).Some? && Represents(SessionStep(s, e).value, JoinStep(j, e))
    ensures !e.Create? ==> (SessionStep(s, e).Some? <==> Orderly(j, e))
  {
    hide Represents, Orderly, JoinStep, DidGatherMetrics, DidComplete, Associate;
    match e
    case Create(r, t) =>
      if Orderly(j, e) {
        CreateRefines(s, j, r, t);
      }
    case Metrics(t) => MetricsRefines(s, j, t);
    case Complete(t, c) => CompletionRefines(s, j, t, c);
  }

  // ---------------------------------------------------------------------------------------------
  // Runs
  // ---------------------------------------------------------------------------------------------

  ghost predicate IsRun(j: Join, events: seq<Event>)
    decreases |events|
  {
    events == [] || (Orderly(j, events[0]) && IsRun(JoinStep(j, events[0]), events[1..]))
  }

  ghost function JoinRun(j: Join, events: seq<Event>): Join
    requires IsRun(j, events)
    decreases |events|
  {
    if events == [] then j else JoinRun(JoinStep(j, events[0]), events[1..])
  }

  function SessionRun(s: State, events: seq<Event>): Option<State>
    decreases |events|
  {
    if events == [] then Some(s)
    else
      match SessionStep(s, events[0])
      case None => None
      case Some(s1) => SessionRun(s1, events[1..])
  }

  lemma {:induction false} RunRefines(s: State, j: Join, events: seq<Event>)
    requires Represents(s, j) && IsRun(j, events)
    ensures SessionRun(s, events).Some? && Represents(SessionRun(s, events).value, JoinRun(j, events))
    decreases |events|
  {
    hide Represents, Orderly, JoinStep, SessionStep;
    if events != [] {
      StepRefines(s, j, events[0]);
      RunRefines(SessionStep(s, events[0]).value, JoinStep(j, events[0]), events[1..]);
    }
  }

  const EMPTY := State(Maps(map[], map[], map[]), map[], [])
  const NOTHING := Join(map[], [])

  /** On every orderly run: no fatalError; the maps stay inverse, of one size, with events for the mapped tasks; the
      waiting completions are those of the tasks completed without metrics; and what ran is what the join runs. */
  lemma {:induction false} EveryRun(events: seq<Event>)
    requires IsRun(NOTHING, events)
    ensures SessionRun(EMPTY, events).Some?
    ensures var s, j := SessionRun(EMPTY, events).value, JoinRun(NOTHING, events);
            && Consistent(s.maps)
            && |s.maps.tasksToRequests| == |s.maps.requestsToTasks| == |s.maps.taskEvents|
            && s.maps.tasksToRequests.Keys == j.live.Keys
            && (forall t :: t in s.waitingCompletions
                  <==> t in s.maps.taskEvents && s.maps.taskEvents[t] == Events(true, false))
            && s.ran == j.ran
  {
    RunRefines(EMPTY, NOTHING, events);
    CountsAgree(SessionRun(EMPTY, events).value.maps);
  }

  // ---------------------------------------------------------------------------------------------
  // Every completion runs once
  // ---------------------------------------------------------------------------------------------

  /** The completions that arrive during a run, in order. */
  function Arrivals(events: seq<Event>): seq<Completion> {
    if events == [] then []
    else (if events[0].Complete? then [events[0].completion] else []) + Arrivals(events[1..])
  }

  /** How often a completion is still waiting. */
  function Waiting(live: map<Task, Life>, completion: Completion): nat {
    |WaitingFor(live, completion)|
  }

  function WaitingFor(live: map<Task, Life>, completion: Completion): set<Task> {
    set t | t in live && live[t].completion == Some(completion)
  }

  function Ran(j: Join, completion: Completion): nat {
    multiset(j.ran)[completion]
  }

  lemma {:induction false} WaitingWithout(live: map<Task, Life>, t: Task, c: Completion)
    requires t in live
    ensures Waiting(live, c) == Waiting(live - {t}, c) + (if live[t].completion == Some(c) then 1 else 0)
  {
    var all, rest := WaitingFor(live, c), WaitingFor(live - {t}, c);
    if live[t].completion == Some(c) {
      assert all == rest + {t};
    } else {
      assert all == rest;
    }
  }

  /** A completion is run, or waits, once for each time it arrives. */
  lemma {:induction false} StepConserves(j: Join, e: Event, c: Completion)
    requires Orderly(j, e)
    ensures var j1 := JoinStep(j, e);
            Ran(j1, c) + Waiting(j1.live, c)
              == Ran(j, c) + Waiting(j.live, c) + (if e.Complete? && e.completion == c then 1 else 0)
  {
    hide Waiting;
    var t, live := e.task, JoinStep(j, e).live;
    if t in j.live {
      WaitingWithout(j.live, t, c);
    } else {
      assert j.live - {t} == j.live;
    }
    if t in live {
      WaitingWithout(live, t, c);
      assert live - {t} == j.live - {t};
    }
  }

  lemma {:induction false} RunConserves(j: Join, events: seq<Event>, c: Completion)
    requires IsRun(j, events)
    ensures Ran(JoinRun(j, events), c) + Waiting(JoinRun(j, events).live, c)
            == Ran(j, c) + Waiting(j.live, c) + multiset(Arrivals(events))[c]
    decreases |events|
  {
    hide Ran, Waiting, Orderly, JoinStep;
    if events != [] {
      StepConserves(j, events[0], c);
      RunConserves(JoinStep(j, events[0]), events[1..], c);
    }
  }

  /** On every orderly run the session has run each completion as often as it arrived, less what waits; once no task is
      left, nothing waits and what ran is exactly what arrived. */
  lemma {:induction false} CompletionsRunOnce(events: seq<Event>, c: Completion)
    requires IsRun(NOTHING, events)
    ensures SessionRun(EMPTY, events).Some?
    ensures var s, live := SessionRun(EMPTY, events).value, JoinRun(NOTHING, events).live;
            && multiset(s.ran)[c] + Waiting(live, c) == multiset(Arrivals(events))[c]
            && (s.maps.tasksToRequests == map[] ==>
                  s.waitingCompletions == map[] && multiset(s.ran)[c] == multiset(Arrivals(events))[c])
  {
    RunRefines(EMPTY, NOTHING, events);
    RunConserves(NOTHING, events, c);
    assert NOTHING.live == map[];
    assert Waiting(map[], c) == 0;
    var s, live := SessionRun(EMPTY, events).value, JoinRun(NOTHING, events).live;
    if s.maps.tasksToRequests == map[] {
      assert live.Keys == {};
      assert live == map[];
    }
  }

  // ---------------------------------------------------------------------------------------------
  // The order of the two events
  // ---------------------------------------------------------------------------------------------

  /** The same but for what has arrived for one task. */
  ghost predicate SameBut(a: Join, b: Join, task: Task) {
    && a.ran == b.ran && task in a.live && task in b.live
    && a.live[task].request == b.live[task].request
    && a.live - {task} == b.live - {task}
  }

  lemma {:induction false} ElsewhereStep(a: Join, b: Join, e: Event, task: Task)
    requires SameBut(a, b, task) && Orderly(a, e) && e.task != task
    ensures Orderly(b, e) && SameBut(JoinStep(a, e), JoinStep(b, e), task)
    ensures JoinStep(a, e).live[task] == a.live[task] && JoinStep(b, e).live[task] == b.live[task]
  {
    assert forall u | u != task :: u in a.live <==> u in a.live - {task};
    assert forall u | u != task :: u in b.live <==> u in b.live - {task};
    assert forall u | u != task && u in a.live :: a.live[u] == (a.live - {task})[u];
    assert forall u | u != task && u in b.live :: b.live[u] == (b.live - {task})[u];
  }

  lemma {:induction false} ElsewhereRun(a: Join, b: Join, events: seq<Event>, task: Task)
    requires SameBut(a, b, task) && IsRun(a, events) && forall e | e in events :: e.task != task
    ensures IsRun(b, events) && SameBut(JoinRun(a, events), JoinRun(b, events), task)
    ensures JoinRun(a, events).live[task] == a.live[task] && JoinRun(b, events).live[task] == b.live[task]
    decreases |events|
  {
    hide Orderly, JoinStep;
    if events != [] {
      ElsewhereStep(a, b, events[0], task);
      ElsewhereRun(JoinStep(a, events[0]), JoinStep(b, events[0]), events[1..], task);
    }
  }

  lemma {:induction false} SameTasks(s: State, r: State, j: Join)
    requires Represents(s, j) && Represents(r, j)
    ensures s.maps.tasksToRequests == r.maps.tasksToRequests && s.maps.taskEvents == r.maps.taskEvents
  {
    assert s.maps.tasksToRequests == r.maps.tasksToRequests;
    assert s.maps.taskEvents.Keys == r.maps.taskEvents.Keys;
    assert s.maps.taskEvents == r.maps.taskEvents;
  }

  lemma {:induction false} SameWaiting(s: State, r: State, j: Join)
    requires Represents(s, j) && Represents(r, j)
    ensures s.waitingCompletions == r.waitingCompletions
  {
    assert s.waitingCompletions.Keys == r.waitingCompletions.Keys;
  }

  lemma {:induction false} SameRequests(m: Maps, n: Maps)
    requires Consistent(m) && Consistent(n) && m.tasksToRequests == n.tasksToRequests
    ensures m.requestsToTasks == n.requestsToTasks
  {
    assert m.requestsToTasks.Keys == n.requestsToTasks.Keys;
  }

  /** A join has one representation. */
  lemma {:induction false} OneRepresentation(s: State, r: State, j: Join)
    requires Represents(s, j) && Represents(r, j)
    ensures s == r
  {
    SameTasks(s, r, j);
    SameWaiting(s, r, j);
    SameRequests(s.maps, r.maps);
  }

  /** Whatever happens to other tasks in between, metrics before completion or completion before metrics end in the
      same maps, and the completion runs at the second of the two. */
  lemma {:induction false} EitherOrder(j: Join, task: Task, between: seq<Event>, c: Completion)
    requires Orderly(j, Metrics(task)) && Orderly(j, Complete(task, c))
    requires forall e | e in between :: e.task != task
    requires IsRun(JoinStep(j, Metrics(task)), between)
    ensures var a := JoinRun(JoinStep(j, Metrics(task)), between);
            && IsRun(JoinStep(j, Complete(task, c)), between)
            && var b := JoinRun(JoinStep(j, Complete(task, c)), between);
            && a.ran == b.ran
            && Orderly(a, Complete(task, c)) && Orderly(b, Metrics(task))
            && JoinStep(a, Complete(task, c)) == JoinStep(b, Metrics(task))
            && JoinStep(a, Complete(task, c)).ran == a.ran + [c]
            && task !in JoinStep(a, Complete(task, c)).live
  {
    var j1, j2 := JoinStep(j, Metrics(task)), JoinStep(j, Complete(task, c));
    assert j1.live - {task} == j.live - {task} == j2.live - {task};
    ElsewhereRun(j1, j2, between, task);
  }

  /** So it is for the session: after either order its state is the same. */
  lemma {:induction false} EitherOrderInTheSession(s: State, j: Join, task: Task, between: seq<Event>, c: Completion)
    requires Represents(s, j)
    requires Orderly(j, Metrics(task)) && Orderly(j, Complete(task, c))
    requires forall e | e in between :: e.task != task
    requires IsRun(JoinStep(j, Metrics(task)), between)
    ensures SessionStep(s, Metrics(task)).Some? && SessionStep(s, Complete(task, c)).Some?
    ensures var a := SessionRun(SessionStep(s, Metrics(task)).value, between);
            var b := SessionRun(SessionStep(s, Complete(task, c)).value, between);
            && a.Some? && b.Some? && a.value.ran == b.value.ran
            && SessionStep(a.value, Complete(task, c)) == SessionStep(b.value, Metrics(task))
            && SessionStep(b.value, Metrics(task)).Some?
            && SessionStep(b.value, Metrics(task)).value.ran == b.value.ran + [c]
            && task !in SessionStep(b.value, Metrics(task)).value.maps.tasksToRequests
  {
    EitherOrder(j, task, between, c);
    hide SessionStep, Orderly, JoinStep;
    var first, last := Metrics(task), Complete(task, c);
    StepRefines(s, j, first);
    StepRefines(s, j, last);
    var s1, s2, j1, j2 := SessionStep(s, first).value, SessionStep(s, last).value, JoinStep(j, first), JoinStep(j, last);
    RunRefines(s1, j1, between);
    RunRefines(s2, j2, between);
    var a, b := SessionRun(s1, between).value, SessionRun(s2, between).value;
    StepRefines(a, JoinRun(j1, between), last);
    StepRefines(b, JoinRun(j2, between), first);
    OneRepresentation(SessionStep(a, last).value, SessionStep(b, first).value, JoinStep(JoinRun(j1, between), last));
  }
}
