/** Request: its state, and the pass over its response serializers. The pass is not held under one lock, so its steps
    are modelled one lock at a time, by threads of control that interleave arbitrarily. */
module RequestLifecycle {

  import opened Sequences
  import opened Wrappers

  /** Identifies a response serializer closure, and the completion it is finished with. */
  type Serializer = nat

  datatype RequestState = Initialized | Resumed | Suspended | Cancelled | Finished
  {
    predicate CanTransitionTo(target: RequestState) {
      match (this, target)
      case (Initialized, _) => true
      case (_, Initialized) => false
      case (Cancelled, _) => false
      case (Finished, _) => false
      case (Resumed, Cancelled) => true
      case (Suspended, Cancelled) => true
      case (Resumed, Suspended) => true
      case (Suspended, Resumed) => true
      case (Suspended, Suspended) => false
      case (Resumed, Resumed) => false
      case (_, Finished) => true
    }
  }

  datatype MutableState = MutableState(
    state: RequestState,
    responseSerializers: seq<Serializer>,
    responseSerializerCompletions: seq<Serializer>,
    responseSerializerProcessingFinished: bool,
    isFinishing: bool)

  // ---------------------------------------------------------------------------------------------
  // The lock bodies as functions
  // ---------------------------------------------------------------------------------------------

  function Transition(m: MutableState, target: RequestState): MutableState {
    if m.state.CanTransitionTo(target) then m.(state := target) else m
  }

  /** appendResponseSerializer */
  function Append(m: MutableState, x: Serializer): MutableState {
    m.(responseSerializers := m.responseSerializers + [x],
       state := if m.state == Finished then Resumed else m.state)
  }

  /** nextResponseSerializer */
  function NextSerializer(m: MutableState): Option<Serializer> {
    if |m.responseSerializerCompletions| < |m.responseSerializers|
    then Some(m.responseSerializers[|m.responseSerializerCompletions|])
    else None
  }

  /** The lock of processNextResponseSerializer */
  function Drain(m: MutableState): MutableState {
    MutableState(Transition(m, Finished).state, [], [], true, false)
  }

  /** reset */
  function Reset(m: MutableState): MutableState {
    m.(isFinishing := false, responseSerializerCompletions := [])
  }

  // ---------------------------------------------------------------------------------------------
  // The class
  // ---------------------------------------------------------------------------------------------

  class Request {
    var state: RequestState
    var responseSerializers: seq<Serializer>
    var responseSerializerCompletions: seq<Serializer>
    var responseSerializerProcessingFinished: bool
    var isFinishing: bool

    ghost function Value(): MutableState
      reads this
    {
      MutableState(state, responseSerializers, responseSerializerCompletions, responseSerializerProcessingFinished,
                   isFinishing)
    }

    constructor ()
      ensures Value() == MutableState(Initialized, [], [], false, false)
    {
      state, responseSerializers, responseSerializerCompletions := Initialized, [], [];
      responseSerializerProcessingFinished, isFinishing := false, false;
    }

    /** finish(error:); whether it starts the response handlers */
    method Finish() returns (starts: bool)
      modifies this
      ensures starts == !old(isFinishing) && Value() == old(Value()).(isFinishing := true)
    {
      if isFinishing {
        return false;
      }
      isFinishing := true;
      return true;
    }

    /** appendResponseSerializer; whether it dispatches processNextResponseSerializer, and a resume */
    method AppendResponseSerializer(x: Serializer) returns (process: bool, resume: bool)
      modifies this
      ensures Value() == Append(old(Value()), x)
      ensures process == old(responseSerializerProcessingFinished) && resume == state.CanTransitionTo(Resumed)
    {
      responseSerializers := responseSerializers + [x];
      if state == Finished {
        state := Resumed;
      }
      process := responseSerializerProcessingFinished;
      resume := state.CanTransitionTo(Resumed);
    }

    /** nextResponseSerializer */
    method NextResponseSerializer() returns (r: Option<Serializer>)
      ensures r == NextSerializer(Value())
    {
      r := None;
      var responseSerializerIndex := |responseSerializerCompletions|;
      if responseSerializerIndex < |responseSerializers| {
        r := Some(responseSerializers[responseSerializerIndex]);
      }
    }

    /** The lock of processNextResponseSerializer; the completions to run. */
    method TakeCompletions() returns (completions: seq<Serializer>)
      modifies this
      ensures completions == old(responseSerializerCompletions) && Value() == Drain(old(Value()))
    {
      completions := responseSerializerCompletions;
      responseSerializers := [];
      responseSerializerCompletions := [];
      if state.CanTransitionTo(Finished) {
        state := Finished;
      }
      responseSerializerProcessingFinished := true;
      isFinishing := false;
    }

    /** The lock of responseSerializerDidComplete */
    method ResponseSerializerDidComplete(completion: Serializer)
      modifies this
      ensures Value() == old(Value()).(responseSerializerCompletions := old(responseSerializerCompletions) + [completion])
    {
      responseSerializerCompletions := responseSerializerCompletions + [completion];
    }

    /** reset */
    method ResetForRetry()
      modifies this
      ensures Value() == Reset(old(Value()))
    {
      isFinishing := false;
      responseSerializerCompletions := [];
    }

    /** The guarded write of cancel, suspend and resume; whether it was made */
    method TransitionTo(target: RequestState) returns (done: bool)
      modifies this
      ensures done == old(state).CanTransitionTo(target) && Value() == Transition(old(Value()), target)
    {
      if !state.CanTransitionTo(target) {
        return false;
      }
      state := target;
      return true;
    }

    /** The write of didReceiveResponse when the handler cancels */
    method CancelOnResponse()
      modifies this
      ensures Value() == old(Value()).(state := Cancelled)
    {
      state := Cancelled;
    }
  }

  // ---------------------------------------------------------------------------------------------
  // Runs
  // ---------------------------------------------------------------------------------------------

  /** Where a call of processNextResponseSerializer has got to: before asking for the next serializer; with it
      dispatched; with it running; between finding none and taking the completions; running those of a pass. */
  datatype Thread = AtCheck | Dispatched(x: Serializer) | Running(x: Serializer) | AtDrain | Completing(pass: nat)

  /** A drain: the history at that moment, the completions taken, and those run so far. */
  datatype Pass = Pass(at: History, batch: seq<Serializer>, ran: seq<Serializer>)

  /** The serializers ever appended, those of them appended when finish() last started a pass, those started since the
      last reset, and how many were appended while a thread was between finding no serializer and taking the
      completions. */
  datatype History = History(
    appended: seq<Serializer>,
    atFinish: seq<Serializer>,
    started: seq<Serializer>,
    late: nat)

  /** A request, its threads, its history, and its drains. */
  datatype System = System(
    m: MutableState,
    threads: seq<Thread>,
    past: History,
    passes: seq<Pass>)

  datatype Event =
    | DoAppend(x: Serializer)
    | DoFinish
    | Step(thread: nat)
    // A running serializer asks for a retry instead of completing
    | AskRetry(thread: nat)
    | DoReset
    // cancel, suspend, resume
    | DoTransition(target: RequestState)
    | DoCancelOnResponse

  predicate Enabled(s: System, e: Event) {
    match e
    case Step(i) => i < |s.threads| && (s.threads[i].Completing? ==> s.threads[i].pass < |s.passes|)
    case AskRetry(i) => i < |s.threads| && s.threads[i].Running?
    case DoTransition(target) => target == Cancelled || target == Suspended || target == Resumed
    case _ => true
  }

  function StepThread(s: System, i: nat): System
    requires Enabled(s, Step(i))
  {
    match s.threads[i]
    case AtCheck =>
      var next := NextSerializer(s.m);
      s.(threads := s.threads[i := if next.Some? then Dispatched(next.value) else AtDrain])
    case Dispatched(x) => s.(threads := s.threads[i := Running(x)], past := s.past.(started := s.past.started + [x]))
    case Running(x) =>
      s.(m := s.m.(responseSerializerCompletions := s.m.responseSerializerCompletions + [x]),
         threads := s.threads[i := AtCheck])
    case AtDrain =>
      s.(m := Drain(s.m),
         threads := s.threads[i := Completing(|s.passes|)],
         passes := s.passes + [Pass(s.past, s.m.responseSerializerCompletions, [])])
    case Completing(k) =>
      var p := s.passes[k];
      if |p.ran| < |p.batch| then s.(passes := s.passes[k := p.(ran := p.ran + [p.batch[|p.ran|]])])
      else s.(threads := Without(s.threads, i))
  }

  function Next(s: System, e: Event): System
    requires Enabled(s, e)
  {
    match e
    case DoAppend(x) =>
      s.(m := Append(s.m, x),
         past := s.past.(appended := s.past.appended + [x],
                         late := if AtDrain in s.threads then s.past.late + 1 else s.past.late),
         threads := if s.m.responseSerializerProcessingFinished then s.threads + [AtCheck] else s.threads)
    case DoFinish =>
      if s.m.isFinishing then s
      else s.(m := s.m.(isFinishing := true), threads := s.threads + [AtCheck],
              past := s.past.(atFinish := s.past.appended))
    case Step(i) => StepThread(s, i)
    case AskRetry(i) => s.(threads := Without(s.threads, i))
    case DoReset => s.(m := Reset(s.m), past := s.past.(started := []))
    case DoTransition(target) => s.(m := Transition(s.m, target))
    case DoCancelOnResponse => s.(m := s.m.(state := Cancelled))
  }

  const INITIAL := System(MutableState(Initialized, [], [], false, false), [], History([], [], [], 0), [])

  predicate IsRun(s: System, events: seq<Event>)
    decreases |events|
  {
    events == [] || (Enabled(s, events[0]) && IsRun(Next(s, events[0]), events[1..]))
  }

  function After(s: System, events: seq<Event>): System
    requires IsRun(s, events)
    decreases |events|
  {
    if events == [] then s else After(Next(s, events[0]), events[1..])
  }

  // ---------------------------------------------------------------------------------------------
  // Cancelled is for good
  // ---------------------------------------------------------------------------------------------

  /** No write to the state leaves cancelled, and none returns to initialized; a drain finishes a request that is not
      cancelled, and only an append or a cancel on response revives it. */
  lemma {:induction false} StepState(s: System, e: Event)
    requires Enabled(s, e)
    ensures s.m.state == Cancelled ==> Next(s, e).m.state == Cancelled
    ensures s.m.state != Initialized ==> Next(s, e).m.state != Initialized
    ensures s.m.state == Finished && Next(s, e).m.state != Finished ==> e.DoAppend? || e.DoCancelOnResponse?
    ensures e.Step? && s.threads[e.thread].AtDrain? && s.m.state != Cancelled ==> Next(s, e).m.state == Finished
  {
    hide Without;
  }

  /** Once cancelled, a request stays so over every run; once left, initialized is not entered again. */
  lemma {:induction false} CancelledIsAbsorbing(s: System, events: seq<Event>)
    requires IsRun(s, events)
    ensures s.m.state == Cancelled ==> After(s, events).m.state == Cancelled
    ensures s.m.state != Initialized ==> After(s, events).m.state != Initialized
    decreases |events|
  {
    hide Enabled, Next;
    if events != [] {
      StepState(s, events[0]);
      CancelledIsAbsorbing(Next(s, events[0]), events[1..]);
    }
  }

  // ---------------------------------------------------------------------------------------------
  // Until then it goes where it is told
  // ---------------------------------------------------------------------------------------------

  /** Neither cancelled nor finished. */
  predicate Live(state: RequestState) {
    state != Cancelled && state != Finished
  }

  /** Which transitions are allowed: from a live state to any other, except back to initialized. */
  lemma {:induction false} AllowedIff(state: RequestState, target: RequestState)
    requires state != target
    ensures state.CanTransitionTo(target) <==> Live(state) && target != Initialized
    ensures state != Initialized ==> !state.CanTransitionTo(state)
  {
  }

  /** Cancel, suspend and resume take a live request to the state they name, and change nothing else; the rest they
      leave alone. */
  lemma {:induction false} TransitionHappens(s: System, target: RequestState)
    requires Enabled(s, DoTransition(target))
    ensures Next(s, DoTransition(target)) == s.(m := s.m.(state := if Live(s.m.state) then target else s.m.state))
  {
    if s.m.state != target {
      AllowedIff(s.m.state, target);
    }
  }

  lemma {:induction false} RunThen(s: System, events: seq<Event>, e: Event)
    requires IsRun(s, events) && Enabled(After(s, events), e)
    ensures IsRun(s, events + [e]) && After(s, events + [e]) == Next(After(s, events), e)
    decreases |events|
  {
    hide Enabled, Next;
    if events == [] {
      assert [e][1..] == [] && events + [e] == [e];
    } else {
      assert (events + [e])[1..] == events[1..] + [e];
      RunThen(Next(s, events[0]), events[1..], e);
    }
  }

  /** Over every run the last of them decides: a suspended request resumes, a resumed one is suspended, and either is
      cancelled, as long as it is live. */
  lemma {:induction false} LastTransitionDecides(s: System, events: seq<Event>, target: RequestState)
    requires IsRun(s, events) && Live(After(s, events).m.state)
    requires target == Cancelled || target == Suspended || target == Resumed
    ensures IsRun(s, events + [DoTransition(target)])
    ensures After(s, events + [DoTransition(target)]).m.state == target
  {
    hide Next, IsRun;
    RunThen(s, events, DoTransition(target));
    TransitionHappens(After(s, events), target);
  }

  // ---------------------------------------------------------------------------------------------
  // Every pass runs its completions once, in order
  // ---------------------------------------------------------------------------------------------

  /** Completions run are the first of those taken, and are all of them unless a thread is still at it. */
  ghost predicate PassesRun(s: System) {
    && (forall t | t in s.threads && t.Completing? :: t.pass < |s.passes|)
    && (forall k | 0 <= k < |s.passes| ::
          s.passes[k].ran <= s.passes[k].batch && (Completing(k) in s.threads || s.passes[k].ran == s.passes[k].batch))
  }

  lemma {:induction false} PassesStep(s: System, e: Event)
    requires Enabled(s, e) && PassesRun(s)
    ensures PassesRun(Next(s, e))
  {
    hide Without, NextSerializer, Drain, Append, Transition;
    match e
    case Step(i) =>
      WithoutKeeps(s.threads, i);
      ReplacedKeeps(s.threads, i, AtDrain);
      ReplacedKeeps(s.threads, i, AtCheck);
      match s.threads[i] {
        case AtCheck =>
          var next := NextSerializer(s.m);
          ReplacedKeeps(s.threads, i, if next.Some? then Dispatched(next.value) else AtDrain);
        case Dispatched(x) => ReplacedKeeps(s.threads, i, Running(x));
        case Running(_) =>
        case AtDrain => ReplacedKeeps(s.threads, i, Completing(|s.passes|));
        case Completing(k) =>
          var p := s.passes[k];
          if |p.ran| < |p.batch| {
            assert p.ran + [p.batch[|p.ran|]] == p.batch[..|p.ran| + 1];
          } else {
            assert p.ran == p.batch;
          }
      }
    case AskRetry(i) => WithoutKeeps(s.threads, i);
    case _ =>
  }

  /** Over every run, whatever happens. */
  lemma {:induction false} PassesAlwaysRun(s: System, events: seq<Event>)
    requires IsRun(s, events) && PassesRun(s)
    ensures PassesRun(After(s, events))
    decreases |events|
  {
    hide Enabled, Next, PassesRun;
    if events != [] {
      PassesStep(s, events[0]);
      PassesAlwaysRun(Next(s, events[0]), events[1..]);
    }
  }

  // ---------------------------------------------------------------------------------------------
  // The first pass
  // ---------------------------------------------------------------------------------------------

  /** Until the first drain, a reset comes while no thread is under way: before finish(), or after a serializer has
      asked for a retry. */
  predicate ResetsWhenIdle(s: System, events: seq<Event>)
    requires IsRun(s, events)
    decreases |events|
  {
    events == [] || s.passes != []
    || ((events[0].DoReset? ==> s.threads == []) && ResetsWhenIdle(Next(s, events[0]), events[1..]))
  }

  /** Before the first drain: there is at most one thread, one serializer at a time, in the order they were appended.
      Without a thread, finish() has not been called since the last reset, or a serializer asked for a retry. */
  ghost predicate FirstPass(s: System) {
    var m, done, h := s.m, s.m.responseSerializerCompletions, s.past;
    && s.passes == [] && !m.responseSerializerProcessingFinished
    && m.responseSerializers == h.appended
    && done <= h.appended && done <= h.started <= h.appended && |h.started| <= |done| + 1
    && h.atFinish <= h.appended
    && (if s.threads == [] then h.late == 0 && (!m.isFinishing ==> h.started == [])
        else
          && m.isFinishing && |s.threads| == 1
          && match s.threads[0]
             case AtCheck => h.started == done && h.late == 0
             case Dispatched(x) => h.started == done && |done| < |h.appended| && x == h.appended[|done|] && h.late == 0
             case Running(x) =>
               h.started == done + [x] && |done| < |h.appended| && x == h.appended[|done|] && h.late == 0
             case AtDrain => h.started == done && h.atFinish <= done && |done| + h.late == |h.appended|
             case Completing(_) => false)
  }

  /** A drain of a first pass: it took the completions of exactly the serializers started, in that order; these are all
      that were appended, less the late ones, and all that were appended when finish() was called. */
  predicate CompletePass(p: Pass) {
    && p.batch == p.at.started
    && p.batch <= p.at.appended
    && |p.batch| + p.at.late == |p.at.appended|
    && p.at.atFinish <= p.batch
  }

  lemma {:induction false} FirstPassThread(s: System, i: nat)
    requires Enabled(s, Step(i)) && FirstPass(s)
    ensures i == 0 && (s.threads[0].AtDrain? || FirstPass(Next(s, Step(0))))
    ensures s.threads[0].AtDrain? ==> Next(s, Step(0)).passes == [Pass(s.past, s.m.responseSerializerCompletions, [])]
  {
    var done := s.m.responseSerializerCompletions;
    if s.threads[0].Running? {
      assert done + [s.threads[0].x] == s.past.appended[..|done| + 1];
    } else if s.threads[0].Dispatched? {
      assert done + [s.threads[0].x] == s.past.appended[..|done| + 1];
    }
  }

  lemma {:induction false} FirstPassStep(s: System, e: Event)
    requires Enabled(s, e) && FirstPass(s) && (e.DoReset? ==> s.threads == [])
    ensures var t := Next(s, e);
            if e.Step? && s.threads[e.thread].AtDrain?
            then |t.passes| == 1 && CompletePass(t.passes[0])
            else FirstPass(t)
  {
    match e
    case DoAppend(x) => assert s.threads != [] ==> (AtDrain in s.threads <==> s.threads[0] == AtDrain);
    case Step(i) => FirstPassThread(s, i);
    case DoFinish => assert s.threads == [] ==> s.threads + [AtCheck] == [AtCheck];
    case AskRetry(i) => assert Without(s.threads, i) == [];
    case _ =>
  }

  /** A pass stays as it was drained, but for the completions run. */
  lemma {:induction false} PassStays(s: System, e: Event)
    requires Enabled(s, e) && s.passes != []
    ensures var before, after := s.passes[0], Next(s, e).passes;
            after != [] && after[0].at == before.at && after[0].batch == before.batch
  {
    hide NextSerializer, Drain, Without, Append, Transition;
  }

  lemma {:induction false} DrainedRun(s: System, events: seq<Event>)
    requires IsRun(s, events) && s.passes != [] && CompletePass(s.passes[0])
    ensures After(s, events).passes != [] && CompletePass(After(s, events).passes[0])
    decreases |events|
  {
    hide Enabled, Next;
    if events != [] {
      PassStays(s, events[0]);
      DrainedRun(Next(s, events[0]), events[1..]);
    }
  }

  lemma {:induction false} FirstPassRun(s: System, events: seq<Event>)
    requires IsRun(s, events) && FirstPass(s) && ResetsWhenIdle(s, events)
    ensures var t := After(s, events);
            if t.passes == [] then FirstPass(t) else CompletePass(t.passes[0])
    decreases |events|
  {
    hide Enabled, Next, CompletePass;
    if events != [] {
      FirstPassStep(s, events[0]);
      var t := Next(s, events[0]);
      if t.passes == [] {
        FirstPassRun(t, events[1..]);
      } else {
        DrainedRun(t, events[1..]);
      }
    }
  }

  /** In the first pass, retries included: since the last reset serializers start once each, in the order they were
      appended, one at a time. The completions of exactly those are taken, and run once each in that order. They are
      all serializers appended when finish() was called, and all appended by the drain except the ones appended between
      finding no more and taking the completions. */
  lemma {:induction false} FirstPassIsInOrder(events: seq<Event>)
    requires IsRun(INITIAL, events) && ResetsWhenIdle(INITIAL, events)
    ensures var s := After(INITIAL, events);
            if s.passes == [] then
              && s.past.started <= s.past.appended
              && |s.threads| <= 1
              && s.m.responseSerializerCompletions <= s.past.started
              && |s.past.started| <= |s.m.responseSerializerCompletions| + 1
            else
              var p := s.passes[0];
              && p.batch == p.at.started
              && p.at.atFinish <= p.batch <= p.at.appended
              && |p.batch| + p.at.late == |p.at.appended|
              && p.ran <= p.batch && (Completing(0) !in s.threads ==> p.ran == p.batch)
  {
    hide Enabled, Next;
    FirstPassRun(INITIAL, events);
    PassesAlwaysRun(INITIAL, events);
  }

  // ---------------------------------------------------------------------------------------------
  // An append afterwards
  // ---------------------------------------------------------------------------------------------

  /** A request whose last pass is over, with nothing appended since. */
  predicate Settled(s: System) {
    && s.threads == [] && s.m.responseSerializerProcessingFinished
    && s.m.responseSerializers == [] && s.m.responseSerializerCompletions == []
  }

  /** An append, and the steps of the pass it starts. */
  function AppendRun(x: Serializer): seq<Event> {
    [DoAppend(x), Step(0), Step(0), Step(0), Step(0), Step(0), Step(0), Step(0)]
  }

  /** The system after k of them. */
  function AppendState(s: System, x: Serializer, k: nat): System {
    var n := |s.passes|;
    var state := if s.m.state == Finished then Resumed else s.m.state;
    var past := s.past.(appended := s.past.appended + [x]);
    var m := s.m.(state := state, responseSerializers := [x]);
    var started := past.(started := past.started + [x]);
    var end := s.m.(state := if s.m.state == Cancelled then Cancelled else Finished, isFinishing := false);
    if k == 0 then s
    else if k == 1 then System(m, [AtCheck], past, s.passes)
    else if k == 2 then System(m, [Dispatched(x)], past, s.passes)
    else if k == 3 then System(m, [Running(x)], started, s.passes)
    else if k <= 5 then
      System(m.(responseSerializerCompletions := [x]), [if k == 4 then AtCheck else AtDrain], started, s.passes)
    else if k == 6 then System(end, [Completing(n)], started, s.passes + [Pass(started, [x], [])])
    else System(end, if k == 7 then [Completing(n)] else [], started, s.passes + [Pass(started, [x], [x])])
  }

  lemma {:induction false} AppendStarts(s: System, x: Serializer, k: nat)
    requires Settled(s) && k < 4
    ensures Enabled(AppendState(s, x, k), AppendRun(x)[k])
    ensures Next(AppendState(s, x, k), AppendRun(x)[k]) == AppendState(s, x, k + 1)
  {
    assert s.threads + [AtCheck] == [AtCheck] && s.m.responseSerializers + [x] == [x];
    assert s.m.responseSerializerCompletions + [x] == [x];
  }

  lemma {:induction false} AppendEnds(s: System, x: Serializer, k: nat)
    requires Settled(s) && 4 <= k < 8
    ensures Enabled(AppendState(s, x, k), AppendRun(x)[k])
    ensures Next(AppendState(s, x, k), AppendRun(x)[k]) == AppendState(s, x, k + 1)
  {
    if k == 4 {
      assert NextSerializer(AppendState(s, x, 4).m) == None;
    } else if k == 5 {
      assert AppendState(s, x, 5).threads[0] == AtDrain;
    } else if k == 6 {
      var started := AppendState(s, x, 6).past;
      assert [] + [x] == [x];
      assert (s.passes + [Pass(started, [x], [])])[|s.passes| := Pass(started, [x], [x])]
          == s.passes + [Pass(started, [x], [x])];
    } else {
      assert Without(AppendState(s, x, k).threads, 0) == [];
    }
  }

  lemma {:induction false} AppendSteps(s: System, x: Serializer, k: nat)
    requires Settled(s) && k <= 8
    ensures var t, rest := AppendState(s, x, k), AppendRun(x)[k..];
            IsRun(t, rest) && After(t, rest) == AppendState(s, x, 8)
    decreases 8 - k
  {
    hide Enabled, Next, AppendState, Settled;
    if k < 8 {
      if k < 4 {
        AppendStarts(s, x, k);
      } else {
        AppendEnds(s, x, k);
      }
      assert AppendRun(x)[k..][1..] == AppendRun(x)[k + 1..];
      AppendSteps(s, x, k + 1);
    }
  }

  /** A serializer appended to a settled request gets a pass of its own: it is started, its completion taken and run, and
      the request, unless cancelled, is finished once more. */
  lemma {:induction false} AppendAfterPassRuns(s: System, x: Serializer)
    requires Settled(s)
    ensures IsRun(s, AppendRun(x))
    ensures var t := After(s, AppendRun(x));
            && Settled(t) && t.past.started == s.past.started + [x]
            && |t.passes| == |s.passes| + 1 && t.passes[|s.passes|].batch == t.passes[|s.passes|].ran == [x]
            && t.m.state == if s.m.state == Cancelled then Cancelled else Finished
  {
    AppendSteps(s, x, 0);
    assert AppendRun(x)[0..] == AppendRun(x);
  }

  // ---------------------------------------------------------------------------------------------
  // An append in between
  // ---------------------------------------------------------------------------------------------

  /** A run with an append in that gap. */
  function LateRun(x: Serializer): seq<Event> {
    [DoFinish, Step(0), DoAppend(x), Step(0), Step(0)]
  }

  /** The system after k steps of it. */
  function LateState(x: Serializer, k: nat): System {
    var m := MutableState(Initialized, if k >= 3 then [x] else [], [], false, true);
    var past := History(if k >= 3 then [x] else [], [], [], if k >= 3 then 1 else 0);
    if k == 0 then INITIAL
    else if k <= 3 then System(m, [if k == 1 then AtCheck else AtDrain], past, [])
    else
      System(MutableState(Finished, [], [], true, false), if k == 4 then [Completing(0)] else [], past,
             [Pass(past, [], [])])
  }

  lemma {:induction false} LateStep(x: Serializer, k: nat)
    requires k < 5
    ensures Enabled(LateState(x, k), LateRun(x)[k])
    ensures Next(LateState(x, k), LateRun(x)[k]) == LateState(x, k + 1)
  {
    if k == 4 {
      assert Without(LateState(x, k).threads, 0) == [];
    }
  }

  lemma {:induction false} LateRuns(x: Serializer, k: nat)
    requires k <= 5
    ensures var s, rest := LateState(x, k), LateRun(x)[k..];
            IsRun(s, rest) && After(s, rest) == LateState(x, 5)
    decreases 5 - k
  {
    hide Enabled, Next, LateState;
    if k < 5 {
      LateStep(x, k);
      assert LateRun(x)[k..][1..] == LateRun(x)[k + 1..];
      LateRuns(x, k + 1);
    }
  }

  /** A serializer appended in that gap is dropped: it is not started, and nothing will start it. */
  lemma {:induction false} LateAppendIsDropped(x: Serializer)
    ensures IsRun(INITIAL, LateRun(x))
    ensures var s := After(INITIAL, LateRun(x));
            s.past.appended == [x] && s.past.started == [] && s.m.responseSerializers == [] && s.threads == []
  {
    LateRuns(x, 0);
    assert LateRun(x)[0..] == LateRun(x);
  }
}
