/** AuthenticationInterceptor: requests wait while one refresh of the credential is under way, and a sliding window
    limits how often it is refreshed. A lock body is one step; the steps of a run interleave arbitrarily. */
module Authentication {

  import opened Sequences
  import opened Wrappers

  type Credential = nat

  /** Identifies one call of adapt or retry, that is, its completion closure. */
  datatype Call = AdaptCall(id: nat) | RetryCall(id: nat)

  datatype Error = MissingCredential | ExcessiveRefresh | RefreshFailed(code: nat)

  /** What a completion is called with: the adapted request or an error for adapt, a retry result for retry. */
  datatype Answer =
    | Adapted(credential: Credential) | NotAdapted(error: Error)
    | Retry | DoNotRetry | DoNotRetryWithError(error: Error)

  datatype RefreshWindow = RefreshWindow(interval: real, maximumAttempts: int)

  /** Work dispatched to the interceptor's serial queue. */
  datatype Work =
    | CallRefresh(credential: Credential)
    | Succeeded(adapts: seq<Call>, retries: seq<Call>)
    | Failed(error: Error, adapts: seq<Call>, retries: seq<Call>)

  datatype AdaptResult = Adapt(credential: Credential) | DoNotAdapt(error: Error) | AdaptDeferred

  /** The lock-protected state, and the queue its steps dispatch to. */
  datatype MutableState = MutableState(
    credential: Option<Credential>,
    isRefreshing: bool,
    refreshTimestamps: seq<real>,
    refreshWindow: Option<RefreshWindow>,
    adaptOperations: seq<Call>,
    requestsToRetry: seq<Call>,
    queue: seq<Work>)

  // ---------------------------------------------------------------------------------------------
  // The steps as functions
  // ---------------------------------------------------------------------------------------------

  /** Timestamps at or after a time. */
  function Since(timestamps: seq<real>, from: real): (n: nat)
    ensures n <= |timestamps|
  {
    if timestamps == [] then 0
    else Since(timestamps[..|timestamps| - 1], from) + (if from <= timestamps[|timestamps| - 1] then 1 else 0)
  }

  predicate IsRefreshExcessive(m: MutableState, now: real) {
    m.refreshWindow.Some? &&
    Since(m.refreshTimestamps, now - m.refreshWindow.value.interval) >= m.refreshWindow.value.maximumAttempts
  }

  /** Everything that waits is handed over, and the refresh is over. */
  function Release(m: MutableState, work: Work): MutableState {
    m.(adaptOperations := [], requestsToRetry := [], isRefreshing := false, queue := m.queue + [work])
  }

  function HandleSuccess(m: MutableState, credential: Credential): MutableState {
    Release(m.(credential := Some(credential)), Succeeded(m.adaptOperations, m.requestsToRetry))
  }

  function HandleFailure(m: MutableState, error: Error): MutableState {
    Release(m, Failed(error, m.adaptOperations, m.requestsToRetry))
  }

  /** refresh; the clock reads `checked` for the window and `stamped`, later, for the new timestamp. */
  function Refresh(m: MutableState, credential: Credential, checked: real, stamped: real): MutableState {
    if IsRefreshExcessive(m, checked) then HandleFailure(m, ExcessiveRefresh)
    else m.(refreshTimestamps := m.refreshTimestamps + [stamped],
            isRefreshing := true,
            queue := m.queue + [CallRefresh(credential)])
  }

  /** The locked part of adapt; requiresRefresh is what the credential, if any, answers. */
  function AdaptLocked(m: MutableState, call: Call, requiresRefresh: bool, checked: real, stamped: real)
    : (MutableState, AdaptResult)
  {
    if m.isRefreshing then (m.(adaptOperations := m.adaptOperations + [call]), AdaptDeferred)
    else if m.credential.None? then (m, DoNotAdapt(MissingCredential))
    else if requiresRefresh then
      (Refresh(m.(adaptOperations := m.adaptOperations + [call]), m.credential.value, checked, stamped), AdaptDeferred)
    else (m, Adapt(m.credential.value))
  }

  /** The locked part of retry, with the credential it had read before. */
  function RetryLocked(m: MutableState, call: Call, credential: Credential, checked: real, stamped: real): MutableState {
    var m1 := m.(requestsToRetry := m.requestsToRetry + [call]);
    if m.isRefreshing then m1 else Refresh(m1, credential, checked, stamped)
  }

  // ---------------------------------------------------------------------------------------------
  // The class
  // ---------------------------------------------------------------------------------------------

  class Interceptor {
    var credential: Option<Credential>
    var isRefreshing: bool
    var refreshTimestamps: seq<real>
    var refreshWindow: Option<RefreshWindow>
    var adaptOperations: seq<Call>
    var requestsToRetry: seq<Call>
    var queue: seq<Work>

    ghost function State(): MutableState
      reads this
    {
      MutableState(credential, isRefreshing, refreshTimestamps, refreshWindow, adaptOperations, requestsToRetry, queue)
    }

    constructor (credential: Option<Credential>, refreshWindow: Option<RefreshWindow>)
      ensures State() == MutableState(credential, false, [], refreshWindow, [], [], [])
    {
      this.credential := credential;
      this.refreshWindow := refreshWindow;
      isRefreshing, refreshTimestamps, adaptOperations, requestsToRetry, queue := false, [], [], [], [];
    }

    /** adapt, up to the end of its lock */
    method AdaptInLock(call: Call, requiresRefresh: bool, checked: real, stamped: real) returns (result: AdaptResult)
      modifies this
      ensures (State(), result) == AdaptLocked(old(State()), call, requiresRefresh, checked, stamped)
    {
      if isRefreshing {
        adaptOperations := adaptOperations + [call];
        return AdaptDeferred;
      }
      if credential.None? {
        return DoNotAdapt(MissingCredential);
      }
      if requiresRefresh {
        adaptOperations := adaptOperations + [call];
        RefreshInLock(credential.value, checked, stamped);
        return AdaptDeferred;
      }
      return Adapt(credential.value);
    }

    /** retry, its lock */
    method RetryInLock(call: Call, credential: Credential, checked: real, stamped: real)
      modifies this
      ensures State() == RetryLocked(old(State()), call, credential, checked, stamped)
    {
      requestsToRetry := requestsToRetry + [call];
      if isRefreshing {
        return;
      }
      RefreshInLock(credential, checked, stamped);
    }

    /** refresh */
    method RefreshInLock(credential: Credential, checked: real, stamped: real)
      modifies this
      ensures State() == Refresh(old(State()), credential, checked, stamped)
    {
      var excessive := RefreshExcessive(checked);
      if excessive {
        HandleRefreshFailure(ExcessiveRefresh);
        return;
      }
      refreshTimestamps := refreshTimestamps + [stamped];
      isRefreshing := true;
      queue := queue + [CallRefresh(credential)];
    }

    /** isRefreshExcessive */
    method RefreshExcessive(now: real) returns (excessive: bool)
      ensures excessive == IsRefreshExcessive(State(), now)
    {
      if refreshWindow.None? {
        return false;
      }
      var refreshWindowMin := now - refreshWindow.value.interval;
      var attempts := 0;
      for i := 0 to |refreshTimestamps|
        invariant attempts == Since(refreshTimestamps[..i], refreshWindowMin)
      {
        assert refreshTimestamps[..i + 1][..i] == refreshTimestamps[..i];
        if refreshWindowMin <= refreshTimestamps[i] {
          attempts := attempts + 1;
        }
      }
      assert refreshTimestamps[..|refreshTimestamps|] == refreshTimestamps;
      return attempts >= refreshWindow.value.maximumAttempts;
    }

    /** handleRefreshSuccess */
    method HandleRefreshSuccess(credential: Credential)
      modifies this
      ensures State() == HandleSuccess(old(State()), credential)
    {
      this.credential := Some(credential);
      var adapts, retries := adaptOperations, requestsToRetry;
      adaptOperations := [];
      requestsToRetry := [];
      isRefreshing := false;
      queue := queue + [Succeeded(adapts, retries)];
    }

    /** handleRefreshFailure */
    method HandleRefreshFailure(error: Error)
      modifies this
      ensures State() == HandleFailure(old(State()), error)
    {
      var adapts, retries := adaptOperations, requestsToRetry;
      adaptOperations := [];
      requestsToRetry := [];
      isRefreshing := false;
      queue := queue + [Failed(error, adapts, retries)];
    }
  }

  // ---------------------------------------------------------------------------------------------
  // Runs
  // ---------------------------------------------------------------------------------------------

  /** The interceptor and its surroundings: calls of adapt and retry made so far, retries between reading the
      credential and taking the lock, refreshes the authenticator has not answered, answers decided but not yet
      delivered, and those delivered; and what has been given to the interceptor so far. */
  datatype System = System(
    state: MutableState,
    started: set<Call>,
    retrying: seq<(Call, Credential)>,
    outstanding: seq<Credential>,
    deciding: seq<(Call, Answer)>,
    answered: seq<(Call, Answer)>,
    clock: real,
    given: Given)

  /** What has happened so far: the credentials the interceptor was given, initially, by its setter or by a refresh; each
      call of adapt with a credential it found that needed no refresh; the retries that did not fail to authenticate; those
      whose request was not authenticated with the credential they read; those that waited when a refresh succeeded; the
      calls that found no credential, that waited when refreshes were found excessive, or that waited when the
      authenticator reported a failure, each with that error; and the former of these with the time of the check. */
  datatype Given = Given(
    credentials: set<Credential>,
    current: set<(Call, Credential)>,
    unrelated: set<Call>,
    stale: set<Call>,
    renewed: set<Call>,
    refused: set<(Call, Error)>,
    excessive: set<(Call, real)>)

  datatype Event =
    | CallAdapt(call: Call, requiresRefresh: bool, checked: real, stamped: real)
    // eligible: there is a request, a response and an authentication error; authenticated: with the credential read
    | CallRetry(call: Call, eligible: bool, authenticated: bool)
    | LockRetry(index: nat, checked: real, stamped: real)
    | Deliver(index: nat)
    // One step of the work at the head of the queue; the other arguments are those of a repeated adapt
    | RunQueue(requiresRefresh: bool, checked: real, stamped: real)
    | RefreshSucceeds(index: nat, credential: Credential)
    | RefreshFails(index: nat, code: nat)
    | SetCredential(newCredential: Option<Credential>)

  function Decide(s: System, call: Call, answer: Answer): System {
    s.(deciding := s.deciding + [(call, answer)])
  }

  function Waiting(m: MutableState): set<Call> {
    (set x | x in m.adaptOperations) + (set x | x in m.requestsToRetry)
  }

  function Refused(m: MutableState, error: Error): set<(Call, Error)> {
    set x | x in Waiting(m) :: (x, error)
  }

  function RefusedIfExcessive(m: MutableState, checked: real): set<(Call, Error)> {
    if IsRefreshExcessive(m, checked) then Refused(m, ExcessiveRefresh) else {}
  }

  /** Calls the lock of adapt refuses, now or with the work it dispatches. */
  function AdaptRefuses(m: MutableState, call: Call, requiresRefresh: bool, checked: real): set<(Call, Error)> {
    if m.isRefreshing then {}
    else if m.credential.None? then {(call, MissingCredential)}
    else if requiresRefresh then RefusedIfExcessive(m.(adaptOperations := m.adaptOperations + [call]), checked)
    else {}
  }

  /** And the lock of retry. */
  function RetryRefuses(m: MutableState, call: Call, checked: real): set<(Call, Error)> {
    if m.isRefreshing then {}
    else RefusedIfExcessive(m.(requestsToRetry := m.requestsToRetry + [call]), checked)
  }

  function Exceeding(refused: set<(Call, Error)>, at: real): set<(Call, real)> {
    set x | x in refused && x.1 == ExcessiveRefresh :: (x.0, at)
  }

  function Refuse(s: System, refused: set<(Call, Error)>, at: real): System {
    s.(given := s.given.(refused := s.given.refused + refused, excessive := s.given.excessive + Exceeding(refused, at)))
  }

  /** The credential a call of adapt finds, if that needs no refresh. */
  function FindCredential(s: System, call: Call, requiresRefresh: bool): System {
    if requiresRefresh || s.state.credential.None? then s
    else s.(given := s.given.(current := s.given.current + {(call, s.state.credential.value)}))
  }

  /** adapt: its lock, then its completion unless it was deferred. */
  function DoAdapt(s: System, call: Call, requiresRefresh: bool, checked: real, stamped: real): System {
    var (m, result) := AdaptLocked(s.state, call, requiresRefresh, checked, stamped);
    var s1 := Refuse(FindCredential(s, call, requiresRefresh), AdaptRefuses(s.state, call, requiresRefresh, checked), checked)
                .(state := m, clock := stamped);
    match result
    case Adapt(c) => Decide(s1, call, Adapted(c))
    case DoNotAdapt(e) => Decide(s1, call, NotAdapted(e))
    case AdaptDeferred => s1
  }

  /** retry, up to its lock. */
  function DoRetry(s: System, call: Call, eligible: bool, authenticated: bool): System {
    if !eligible then Decide(s.(given := s.given.(unrelated := s.given.unrelated + {call})), call, DoNotRetry)
    else if s.state.credential.None? then
      Decide(Refuse(s, {(call, MissingCredential)}, s.clock), call, DoNotRetryWithError(MissingCredential))
    else if !authenticated then
      Decide(s.(given := s.given.(stale := s.given.stale + {call})), call, Retry)
    else s.(retrying := s.retrying + [(call, s.state.credential.value)])
  }

  function DoQueue(s: System, e: Event): System
    requires e.RunQueue? && s.state.queue != []
  {
    var m := s.state;
    match m.queue[0]
    case CallRefresh(c) => s.(state := m.(queue := m.queue[1..]), outstanding := s.outstanding + [c])
    case Succeeded(adapts, retries) =>
      if adapts != [] then
        DoAdapt(s.(state := m.(queue := [Succeeded(adapts[1..], retries)] + m.queue[1..])),
                adapts[0], e.requiresRefresh, e.checked, e.stamped)
      else if retries != [] then
        Decide(s.(state := m.(queue := [Succeeded([], retries[1..])] + m.queue[1..])), retries[0], Retry)
      else s.(state := m.(queue := m.queue[1..]))
    case Failed(error, adapts, retries) =>
      if adapts != [] then
        Decide(s.(state := m.(queue := [Failed(error, adapts[1..], retries)] + m.queue[1..])),
               adapts[0], NotAdapted(error))
      else if retries != [] then
        Decide(s.(state := m.(queue := [Failed(error, [], retries[1..])] + m.queue[1..])),
               retries[0], DoNotRetryWithError(error))
      else s.(state := m.(queue := m.queue[1..]))
  }

  /** Calls are made once; the clock does not go back; a refresh is answered once. */
  predicate Enabled(s: System, e: Event) {
    match e
    case CallAdapt(call, _, checked, stamped) => call.AdaptCall? && call !in s.started && s.clock <= checked <= stamped
    case CallRetry(call, _, _) => call.RetryCall? && call !in s.started
    case LockRetry(index, checked, stamped) => index < |s.retrying| && s.clock <= checked <= stamped
    case Deliver(index) => index < |s.deciding|
    case RunQueue(_, checked, stamped) => s.state.queue != [] && s.clock <= checked <= stamped
    case RefreshSucceeds(index, _) => index < |s.outstanding|
    case RefreshFails(index, _) => index < |s.outstanding|
    case SetCredential(_) => true
  }

  function Next(s: System, e: Event): System
    requires Enabled(s, e)
  {
    match e
    case CallAdapt(call, requiresRefresh, checked, stamped) =>
      DoAdapt(s.(started := s.started + {call}), call, requiresRefresh, checked, stamped)
    case CallRetry(call, eligible, authenticated) =>
      DoRetry(s.(started := s.started + {call}), call, eligible, authenticated)
    case LockRetry(index, checked, stamped) =>
      var (call, credential) := s.retrying[index];
      Refuse(s, RetryRefuses(s.state, call, checked), checked).(
         state := RetryLocked(s.state, call, credential, checked, stamped),
         retrying := Without(s.retrying, index), clock := stamped)
    case Deliver(index) =>
      s.(deciding := Without(s.deciding, index), answered := s.answered + [s.deciding[index]])
    case RunQueue(_, _, _) => DoQueue(s, e)
    case RefreshSucceeds(index, credential) =>
      s.(state := HandleSuccess(s.state, credential), outstanding := Without(s.outstanding, index),
         given := s.given.(credentials := s.given.credentials + {credential},
                           renewed := s.given.renewed + Waiting(s.state)))
    case RefreshFails(index, code) =>
      Refuse(s, Refused(s.state, RefreshFailed(code)), s.clock).(
         state := HandleFailure(s.state, RefreshFailed(code)), outstanding := Without(s.outstanding, index))
    case SetCredential(credential) =>
      s.(state := s.state.(credential := credential),
         given := s.given.(credentials := s.given.credentials + AsSet(credential)))
  }

  function AsSet(credential: Option<Credential>): set<Credential> {
    if credential.Some? then {credential.value} else {}
  }

  function Initial(credential: Option<Credential>, window: Option<RefreshWindow>, clock: real): System {
    System(MutableState(credential, false, [], window, [], [], []), {}, [], [], [], [], clock,
           Given(AsSet(credential), {}, {}, {}, {}, {}, {}))
  }

  /** Every event happens in a state that enables it. */
  predicate IsRun(s: System, events: seq<Event>)
    decreases |events|
  {
    events == [] || (Enabled(s, events[0]) && IsRun(Next(s, events[0]), events[1..]))
  }

  function After(s: System, events: seq<Event>): System
    requires IsRun(s, events)
    decreases |events|
  {
    if events == [] then s else After(Next(s, events[0]), events[1..])
  }

  // ---------------------------------------------------------------------------------------------
  // Single flight
  // ---------------------------------------------------------------------------------------------

  function RefreshCalls(queue: seq<Work>): nat {
    if queue == [] then 0 else RefreshCalls(queue[1..]) + (if queue[0].CallRefresh? then 1 else 0)
  }

  /** Refreshes dispatched or waiting for their answer. */
  function InFlight(s: System): nat {
    RefreshCalls(s.state.queue) + |s.outstanding|
  }

  function Refreshing(m: MutableState): int {
    if m.isRefreshing then 1 else 0
  }

  /** Nothing waits unless a refresh is in place. */
  predicate Idle(m: MutableState) {
    !m.isRefreshing ==> m.adaptOperations == [] && m.requestsToRetry == []
  }

  predicate SingleFlight(s: System) {
    InFlight(s) == Refreshing(s.state) && Idle(s.state)
  }

  // ---------------------------------------------------------------------------------------------
  // Conservation
  // ---------------------------------------------------------------------------------------------

  /** How often a call occurs among waiting calls. */
  function Waits(calls: seq<Call>, call: Call): nat {
    multiset(calls)[call]
  }

  /** How often a call occurs among calls with something attached. */
  function Listed<T>(s: seq<(Call, T)>, call: Call): nat {
    if s == [] then 0 else (if s[0].0 == call then 1 else 0) + Listed(s[1..], call)
  }

  function HeldBy(w: Work, call: Call): nat {
    match w
    case CallRefresh(_) => 0
    case Succeeded(adapts, retries) => Waits(adapts, call) + Waits(retries, call)
    case Failed(_, adapts, retries) => Waits(adapts, call) + Waits(retries, call)
  }

  function HeldInQueue(queue: seq<Work>, call: Call): nat {
    if queue == [] then 0 else HeldBy(queue[0], call) + HeldInQueue(queue[1..], call)
  }

  /** How often the lock-protected state and the queue hold a call. */
  function HeldByState(m: MutableState, call: Call): nat {
    Waits(m.adaptOperations, call) + Waits(m.requestsToRetry, call) + HeldInQueue(m.queue, call)
  }

  /** How often a call is anywhere: waiting, dispatched, before its lock, decided, or answered. */
  function Places(s: System, call: Call): nat {
    HeldByState(s.state, call) + Listed(s.retrying, call) + Listed(s.deciding, call) + Listed(s.answered, call)
  }

  predicate InOnePlace(s: System, call: Call) {
    Places(s, call) == if call in s.started then 1 else 0
  }

  /** Each call ever made is in exactly one place, once; no other call is anywhere. */
  ghost predicate Conserved(s: System) {
    forall call :: InOnePlace(s, call)
  }

  lemma {:induction false} RefreshCallsAppend(queue: seq<Work>, w: Work)
    ensures RefreshCalls(queue + [w]) == RefreshCalls(queue) + (if w.CallRefresh? then 1 else 0)
  {
    if queue == [] {
      assert queue + [w] == [w] && [w][1..] == [];
    } else {
      assert (queue + [w])[1..] == queue[1..] + [w];
      RefreshCallsAppend(queue[1..], w);
    }
  }

  lemma {:induction false} HeldAppend(queue: seq<Work>, w: Work, call: Call)
    ensures HeldInQueue(queue + [w], call) == HeldInQueue(queue, call) + HeldBy(w, call)
  {
    if queue == [] {
      assert queue + [w] == [w] && [w][1..] == [];
    } else {
      assert (queue + [w])[1..] == queue[1..] + [w];
      HeldAppend(queue[1..], w, call);
    }
  }

  lemma {:induction false} ListedAppend<T>(s: seq<(Call, T)>, x: (Call, T), call: Call)
    ensures Listed(s + [x], call) == Listed(s, call) + (if x.0 == call then 1 else 0)
  {
    if s == [] {
      assert s + [x] == [x] && [x][1..] == [];
    } else {
      assert (s + [x])[1..] == s[1..] + [x];
      ListedAppend(s[1..], x, call);
    }
  }

  lemma {:induction false} ListedWithout<T>(s: seq<(Call, T)>, i: nat, call: Call)
    requires i < |s|
    ensures Listed(s, call) == Listed(Without(s, i), call) + (if s[i].0 == call then 1 else 0)
  {
    if i == 0 {
      assert Without(s, i) == s[1..];
    } else {
      ListedWithout(s[1..], i - 1, call);
      assert Without(s, i)[0] == s[0] && Without(s, i)[1..] == Without(s[1..], i - 1);
    }
  }

  lemma {:induction false} QueueHead(head: Work, tail: seq<Work>, call: Call)
    ensures RefreshCalls([head] + tail) == RefreshCalls(tail) + (if head.CallRefresh? then 1 else 0)
    ensures HeldInQueue([head] + tail, call) == HeldBy(head, call) + HeldInQueue(tail, call)
  {
    assert ([head] + tail)[1..] == tail;
  }

  lemma {:induction false} WaitsHead(calls: seq<Call>, call: Call)
    requires calls != []
    ensures Waits(calls, call) == Waits(calls[1..], call) + (if calls[0] == call then 1 else 0)
  {
    assert calls == [calls[0]] + calls[1..];
  }

  lemma {:induction false} WaitsAppend(calls: seq<Call>, x: Call, call: Call)
    ensures Waits(calls + [x], call) == Waits(calls, call) + (if x == call then 1 else 0)
  {
  }

  /** An answer decided for a call puts that call in one more place. */
  lemma {:induction false} DecideAdds(s: System, x: Call, answer: Answer, call: Call)
    ensures Places(Decide(s, x, answer), call) == Places(s, call) + (if x == call then 1 else 0)
  {
    hide HeldByState;
    ListedAppend(s.deciding, (x, answer), call);
  }

  /** Ending a refresh moves what waits to the queue. */
  lemma {:induction false} ReleaseMoves(m: MutableState, work: Work, call: Call)
    requires HeldBy(work, call) == Waits(m.adaptOperations, call) + Waits(m.requestsToRetry, call)
    requires !work.CallRefresh?
    ensures HeldByState(Release(m, work), call) == HeldByState(m, call)
    ensures RefreshCalls(Release(m, work).queue) == RefreshCalls(m.queue)
  {
    hide HeldBy;
    HeldAppend(m.queue, work, call);
    RefreshCallsAppend(m.queue, work);
    assert Waits([], call) == 0;
  }

  /** refresh moves what waits, or starts the one refresh in flight. */
  lemma {:induction false} RefreshKeeps(m: MutableState, credential: Credential, checked: real, stamped: real, call: Call)
    requires !m.isRefreshing
    ensures var m' := Refresh(m, credential, checked, stamped);
            && HeldByState(m', call) == HeldByState(m, call)
            && RefreshCalls(m'.queue) == RefreshCalls(m.queue) + (if m'.isRefreshing then 1 else 0)
            && (!m'.isRefreshing ==> m'.adaptOperations == [] && m'.requestsToRetry == [])
  {
    hide IsRefreshExcessive;
    if IsRefreshExcessive(m, checked) {
      ReleaseMoves(m, Failed(ExcessiveRefresh, m.adaptOperations, m.requestsToRetry), call);
    } else {
      RefreshCallsAppend(m.queue, CallRefresh(credential));
      HeldAppend(m.queue, CallRefresh(credential), call);
    }
  }

  /** The locked part of adapt defers the call into the state, or leaves the state alone. */
  lemma {:induction false} AdaptLockedKeeps(
      m: MutableState, x: Call, requiresRefresh: bool, checked: real, stamped: real, call: Call)
    requires Idle(m)
    ensures var (m', result) := AdaptLocked(m, x, requiresRefresh, checked, stamped);
            && Idle(m')
            && RefreshCalls(m'.queue) - RefreshCalls(m.queue) == Refreshing(m') - Refreshing(m)
            && HeldByState(m', call)
                 == HeldByState(m, call) + (if result.AdaptDeferred? && x == call then 1 else 0)
  {
    hide Refresh;
    WaitsAppend(m.adaptOperations, x, call);
    if !m.isRefreshing && m.credential.Some? && requiresRefresh {
      RefreshKeeps(m.(adaptOperations := m.adaptOperations + [x]), m.credential.value, checked, stamped, call);
    }
  }

  /** A step of adapt adds its call in one place. */
  lemma {:induction false} AdaptKeeps(
      s: System, x: Call, requiresRefresh: bool, checked: real, stamped: real, call: Call)
    requires SingleFlight(s)
    ensures var s' := DoAdapt(s, x, requiresRefresh, checked, stamped);
            SingleFlight(s') && Places(s', call) == Places(s, call) + (if x == call then 1 else 0)
  {
    hide AdaptLocked, HeldByState, RefreshCalls, Listed;
    AdaptLockedKeeps(s.state, x, requiresRefresh, checked, stamped, call);
    var (m, result) := AdaptLocked(s.state, x, requiresRefresh, checked, stamped);
    var s1 := Refuse(FindCredential(s, x, requiresRefresh), AdaptRefuses(s.state, x, requiresRefresh, checked), checked)
                .(state := m, clock := stamped);
    if result.Adapt? {
      DecideAdds(s1, x, Adapted(result.credential), call);
    } else if result.DoNotAdapt? {
      DecideAdds(s1, x, NotAdapted(result.error), call);
    }
  }

  /** The lock of retry moves its call into the state. */
  lemma {:induction false} RetryLockedKeeps(
      m: MutableState, x: Call, credential: Credential, checked: real, stamped: real, call: Call)
    requires Idle(m)
    ensures var m' := RetryLocked(m, x, credential, checked, stamped);
            && Idle(m')
            && RefreshCalls(m'.queue) - RefreshCalls(m.queue) == Refreshing(m') - Refreshing(m)
            && HeldByState(m', call) == HeldByState(m, call) + (if x == call then 1 else 0)
  {
    hide Refresh;
    WaitsAppend(m.requestsToRetry, x, call);
    if !m.isRefreshing {
      RefreshKeeps(m.(requestsToRetry := m.requestsToRetry + [x]), credential, checked, stamped, call);
    }
  }

  lemma {:induction false} RetryKeeps(s: System, index: nat, checked: real, stamped: real, call: Call)
    requires SingleFlight(s) && Enabled(s, LockRetry(index, checked, stamped))
    ensures var s' := Next(s, LockRetry(index, checked, stamped));
            SingleFlight(s') && Places(s', call) == Places(s, call)
  {
    hide RetryLocked, HeldByState, RefreshCalls, Without, Listed;
    var (x, credential) := s.retrying[index];
    ListedWithout(s.retrying, index, call);
    RetryLockedKeeps(s.state, x, credential, checked, stamped, call);
  }

  /** Taking the first call out of the batch at the head of the queue. */
  lemma {:induction false} TakeOut(s: System, rest: Work, x: Call, call: Call)
    requires s.state.queue != [] && SingleFlight(s) && !s.state.queue[0].CallRefresh? && !rest.CallRefresh?
    requires HeldBy(s.state.queue[0], call) == HeldBy(rest, call) + (if x == call then 1 else 0)
    ensures var s1 := s.(state := s.state.(queue := [rest] + s.state.queue[1..]));
            SingleFlight(s1) && Places(s1, call) + (if x == call then 1 else 0) == Places(s, call)
  {
    hide RefreshCalls, HeldInQueue, HeldBy, Waits, Listed;
    var head, tail := s.state.queue[0], s.state.queue[1..];
    assert s.state.queue == [head] + tail;
    QueueHead(head, tail, call);
    QueueHead(rest, tail, call);
  }

  lemma {:induction false} BatchAdapts(s: System, e: Event, call: Call)
    requires e.RunQueue? && Enabled(s, e) && SingleFlight(s) && !s.state.queue[0].CallRefresh?
    requires s.state.queue[0].adapts != []
    ensures SingleFlight(Next(s, e)) && Places(Next(s, e), call) == Places(s, call)
  {
    hide DoAdapt, RefreshCalls, Places, Waits, SingleFlight;
    var head, tail := s.state.queue[0], s.state.queue[1..];
    var x, rest := head.adapts[0], head.(adapts := head.adapts[1..]);
    WaitsHead(head.adapts, call);
    TakeOut(s, rest, x, call);
    var s1 := s.(state := s.state.(queue := [rest] + tail));
    if head.Succeeded? {
      AdaptKeeps(s1, x, e.requiresRefresh, e.checked, e.stamped, call);
    } else {
      DecideAdds(s1, x, NotAdapted(head.error), call);
      DecideStill(s1, x, NotAdapted(head.error));
    }
  }

  lemma {:induction false} BatchRetries(s: System, e: Event, call: Call)
    requires e.RunQueue? && Enabled(s, e) && SingleFlight(s) && !s.state.queue[0].CallRefresh?
    requires s.state.queue[0].adapts == [] && s.state.queue[0].retries != []
    ensures SingleFlight(Next(s, e)) && Places(Next(s, e), call) == Places(s, call)
  {
    hide DoAdapt, RefreshCalls, Places, Waits, SingleFlight;
    var head, tail := s.state.queue[0], s.state.queue[1..];
    var x, rest := head.retries[0], head.(retries := head.retries[1..]);
    var answer := if head.Succeeded? then Retry else DoNotRetryWithError(head.error);
    WaitsHead(head.retries, call);
    TakeOut(s, rest, x, call);
    var s1 := s.(state := s.state.(queue := [rest] + tail));
    DecideAdds(s1, x, answer, call);
    DecideStill(s1, x, answer);
  }

  lemma {:induction false} DecideStill(s: System, x: Call, answer: Answer)
    requires SingleFlight(s)
    ensures SingleFlight(Decide(s, x, answer))
  {
  }

  /** A batch handed out completely, or the authenticator called. */
  lemma {:induction false} HeadDone(s: System, e: Event, call: Call)
    requires e.RunQueue? && Enabled(s, e) && SingleFlight(s)
    requires s.state.queue[0].CallRefresh? || (s.state.queue[0].adapts == [] && s.state.queue[0].retries == [])
    ensures SingleFlight(Next(s, e)) && Places(Next(s, e), call) == Places(s, call)
  {
    hide DoAdapt, RefreshCalls, HeldInQueue, Listed;
    assert s.state.queue == [s.state.queue[0]] + s.state.queue[1..];
    QueueHead(s.state.queue[0], s.state.queue[1..], call);
    assert Waits([], call) == 0;
  }

  lemma {:induction false} QueueKeeps(s: System, e: Event, call: Call)
    requires e.RunQueue? && Enabled(s, e) && SingleFlight(s)
    ensures SingleFlight(Next(s, e)) && Places(Next(s, e), call) == Places(s, call)
  {
    hide Next, SingleFlight, Places;
    var head := s.state.queue[0];
    if head.CallRefresh? || (head.adapts == [] && head.retries == []) {
      HeadDone(s, e, call);
    } else if head.adapts != [] {
      BatchAdapts(s, e, call);
    } else {
      BatchRetries(s, e, call);
    }
  }

  /** An answer of the authenticator ends the refresh in flight. */
  lemma {:induction false} AnswerKeeps(s: System, e: Event, call: Call)
    requires (e.RefreshSucceeds? || e.RefreshFails?) && Enabled(s, e) && SingleFlight(s)
    ensures SingleFlight(Next(s, e)) && Places(Next(s, e), call) == Places(s, call)
  {
    var m := s.state;
    assert e.RefreshSucceeds? ==>
             HeldByState(m.(credential := Some(e.credential)), call) == HeldByState(m, call);
    hide HeldByState, RefreshCalls, Waits, Listed;
    if e.RefreshSucceeds? {
      ReleaseMoves(m.(credential := Some(e.credential)), Succeeded(m.adaptOperations, m.requestsToRetry), call);
    } else {
      ReleaseMoves(m, Failed(RefreshFailed(e.code), m.adaptOperations, m.requestsToRetry), call);
    }
  }

  /** The calls of a step's own: made by it, and so in one more place. */
  lemma {:induction false} StepMoves(s: System, e: Event, call: Call)
    requires Enabled(s, e) && SingleFlight(s)
    ensures SingleFlight(Next(s, e))
    ensures Places(Next(s, e), call) == Places(s, call) + (if Makes(e, call) then 1 else 0)
  {
    hide RefreshCalls, HeldInQueue, Waits, Listed, Without;
    match e
    case CallAdapt(x, requiresRefresh, checked, stamped) =>
      hide DoAdapt;
      AdaptKeeps(s.(started := s.started + {x}), x, requiresRefresh, checked, stamped, call);
    case CallRetry(x, eligible, authenticated) =>
      var s1 := s.(started := s.started + {x});
      if !eligible {
        DecideAdds(s1, x, DoNotRetry, call);
      } else if s.state.credential.None? {
        DecideAdds(Refuse(s1, {(x, MissingCredential)}, s1.clock), x, DoNotRetryWithError(MissingCredential), call);
      } else if !authenticated {
        DecideAdds(s1.(given := s1.given.(stale := s1.given.stale + {x})), x, Retry, call);
      } else {
        ListedAppend(s.retrying, (x, s.state.credential.value), call);
      }
    case LockRetry(index, checked, stamped) => RetryKeeps(s, index, checked, stamped, call);
    case Deliver(index) =>
      ListedWithout(s.deciding, index, call);
      ListedAppend(s.answered, s.deciding[index], call);
    case RunQueue(_, _, _) => QueueKeeps(s, e, call);
    case RefreshSucceeds(_, _) => AnswerKeeps(s, e, call);
    case RefreshFails(_, _) => AnswerKeeps(s, e, call);
    case SetCredential(_) =>
  }

  /** Whether a step is the making of a call. */
  predicate Makes(e: Event, call: Call) {
    (e.CallAdapt? || e.CallRetry?) && e.call == call
  }

  lemma {:induction false} StepStarts(s: System, e: Event, call: Call)
    requires Enabled(s, e)
    ensures call in Next(s, e).started <==> call in s.started || Makes(e, call)
    ensures Makes(e, call) ==> call !in s.started
  {
    hide AdaptLocked, RetryLocked, HandleSuccess, HandleFailure;
  }

  /** Every step keeps one refresh in flight at most and every completion in exactly one place. */
  lemma {:induction false} StepKeeps(s: System, e: Event)
    requires Enabled(s, e) && SingleFlight(s) && Conserved(s)
    ensures SingleFlight(Next(s, e)) && Conserved(Next(s, e))
  {
    hide SingleFlight, Next, Enabled, Places;
    StepMoves(s, e, AdaptCall(0));
    forall call
      ensures InOnePlace(Next(s, e), call)
    {
      StepMoves(s, e, call);
      StepStarts(s, e, call);
      assert InOnePlace(s, call);
    }
  }

  /** In every reachable state: at most one refresh is dispatched or outstanding, nothing waits unless one is, and
      every call of adapt or retry is in exactly one place. */
  lemma {:induction false} RunKeeps(s: System, events: seq<Event>)
    requires IsRun(s, events) && SingleFlight(s) && Conserved(s)
    ensures SingleFlight(After(s, events)) && Conserved(After(s, events))
    decreases |events|
  {
    hide SingleFlight, Conserved, Next, Enabled;
    if events != [] {
      StepKeeps(s, events[0]);
      RunKeeps(Next(s, events[0]), events[1..]);
    }
  }

  lemma {:induction false} ReachableStates(
      credential: Option<Credential>, window: Option<RefreshWindow>, clock: real, events: seq<Event>)
    requires IsRun(Initial(credential, window, clock), events)
    ensures var s := After(Initial(credential, window, clock), events);
            && InFlight(s) <= 1
            && (s.state.isRefreshing <==> InFlight(s) == 1)
            && (!s.state.isRefreshing ==> s.state.adaptOperations == [] && s.state.requestsToRetry == [])
            && forall call :: Places(s, call) == (if call in s.started then 1 else 0)
  {
    hide Next, Enabled;
    var s := After(Initial(credential, window, clock), events);
    RunKeeps(Initial(credential, window, clock), events);
    forall call
      ensures Places(s, call) == (if call in s.started then 1 else 0)
    {
      hide Places, SingleFlight;
      assert InOnePlace(s, call);
    }
  }

  // ---------------------------------------------------------------------------------------------
  // Nothing is left waiting
  // ---------------------------------------------------------------------------------------------

  /** No work is dispatched or under way. */
  predicate Quiescent(s: System) {
    s.state.queue == [] && s.outstanding == [] && s.retrying == [] && s.deciding == []
  }

  /** Once nothing is under way, every call has been answered, exactly once: none was left waiting. */
  lemma {:induction false} QuiescentIsAnswered(
      credential: Option<Credential>, window: Option<RefreshWindow>, clock: real, events: seq<Event>, call: Call)
    requires IsRun(Initial(credential, window, clock), events)
    requires Quiescent(After(Initial(credential, window, clock), events))
    ensures var s := After(Initial(credential, window, clock), events);
            Listed(s.answered, call) == if call in s.started then 1 else 0
  {
    hide Next, Enabled;
    ReachableStates(credential, window, clock, events);
    var s := After(Initial(credential, window, clock), events);
    assert Waits([], call) == 0;
    assert Places(s, call) == if call in s.started then 1 else 0;
  }

  // ---------------------------------------------------------------------------------------------
  // Answers have their grounds
  // ---------------------------------------------------------------------------------------------

  /** An answer is of the kind its call expects. A request is adapted with a credential the interceptor was given and the
      call found needing no refresh; a retry is told to retry if its request was not authenticated with the credential it
      read, or if it waited when a refresh succeeded, and not to if it did not fail to authenticate; a call is given an
      error it was refused with. */
  predicate AnswerGrounded(g: Given, a: (Call, Answer)) {
    match a.1
    case Adapted(c) => a.0.AdaptCall? && c in g.credentials && (a.0, c) in g.current
    case NotAdapted(e) => a.0.AdaptCall? && (a.0, e) in g.refused
    case Retry => a.0.RetryCall? && (a.0 in g.stale || a.0 in g.renewed)
    case DoNotRetry => a.0.RetryCall? && a.0 in g.unrelated
    case DoNotRetryWithError(e) => a.0.RetryCall? && (a.0, e) in g.refused
  }

  predicate AllAdapts(calls: seq<Call>) {
    forall x | x in calls :: x.AdaptCall?
  }

  predicate AllRetries(calls: seq<Call>) {
    forall x | x in calls :: x.RetryCall?
  }

  predicate WorkGrounded(g: Given, w: Work) {
    match w
    case CallRefresh(c) => c in g.credentials
    case Succeeded(adapts, retries) => AllAdapts(adapts) && AllRetries(retries) && forall x | x in retries :: x in g.renewed
    case Failed(e, adapts, retries) =>
      && AllAdapts(adapts) && AllRetries(retries)
      && (forall x | x in adapts :: (x, e) in g.refused) && (forall x | x in retries :: (x, e) in g.refused)
  }

  predicate StateGrounded(g: Given, m: MutableState) {
    && AsSet(m.credential) <= g.credentials
    && AllAdapts(m.adaptOperations) && AllRetries(m.requestsToRetry)
    && forall w | w in m.queue :: WorkGrounded(g, w)
  }

  predicate Grounded(s: System) {
    && StateGrounded(s.given, s.state)
    && (forall r | r in s.retrying :: r.0.RetryCall? && r.1 in s.given.credentials)
    && (forall c | c in s.outstanding :: c in s.given.credentials)
    && (forall a | a in s.deciding :: AnswerGrounded(s.given, a))
    && (forall a | a in s.answered :: AnswerGrounded(s.given, a))
  }

  /** More has happened. */
  predicate Extends(g: Given, h: Given) {
    && g.credentials <= h.credentials && g.current <= h.current && g.unrelated <= h.unrelated && g.stale <= h.stale
    && g.renewed <= h.renewed && g.refused <= h.refused
  }

  /** What was grounded stays so. */
  lemma {:induction false} GivenGrows(s: System, g: Given)
    requires Grounded(s) && Extends(s.given, g)
    ensures Grounded(s.(given := g))
  {
  }

  lemma {:induction false} WaitingIsRefused(m: MutableState, error: Error)
    ensures forall x | x in m.adaptOperations :: (x, error) in Refused(m, error)
    ensures forall x | x in m.requestsToRetry :: (x, error) in Refused(m, error)
  {
    assert forall x | x in Waiting(m) :: (x, error) in Refused(m, error);
  }

  lemma {:induction false} RefreshGrounded(
      g: Given, m: MutableState, credential: Credential, checked: real, stamped: real)
    requires StateGrounded(g, m) && credential in g.credentials && RefusedIfExcessive(m, checked) <= g.refused
    ensures StateGrounded(g, Refresh(m, credential, checked, stamped))
  {
    assert AllAdapts([]) && AllRetries([]);
    hide IsRefreshExcessive;
    WaitingIsRefused(m, ExcessiveRefresh);
    hide Refused;
  }

  lemma {:induction false} DecideGrounded(s: System, call: Call, answer: Answer)
    requires Grounded(s) && AnswerGrounded(s.given, (call, answer))
    ensures Grounded(Decide(s, call, answer))
  {
    hide StateGrounded, AnswerGrounded;
  }

  lemma {:induction false} AdaptGrounded(s: System, call: Call, requiresRefresh: bool, checked: real, stamped: real)
    requires Grounded(s) && call.AdaptCall?
    ensures Grounded(DoAdapt(s, call, requiresRefresh, checked, stamped))
  {
    hide Refresh, WorkGrounded, RefusedIfExcessive, AnswerGrounded;
    var m := s.state;
    var s1 := Refuse(FindCredential(s, call, requiresRefresh), AdaptRefuses(m, call, requiresRefresh, checked), checked);
    GivenGrows(s, s1.given);
    var queued := m.(adaptOperations := m.adaptOperations + [call]);
    assert StateGrounded(s1.given, queued);
    if !m.isRefreshing && m.credential.Some? && requiresRefresh {
      RefreshGrounded(s1.given, queued, m.credential.value, checked, stamped);
    } else {
      var (m1, result) := AdaptLocked(m, call, requiresRefresh, checked, stamped);
      if result.Adapt? {
        AdaptedGrounded(s1.given, call, result.credential);
        DecideGrounded(s1.(state := m1, clock := stamped), call, Adapted(result.credential));
      } else if result.DoNotAdapt? {
        NotAdaptedGrounded(s1.given, call, result.error);
        DecideGrounded(s1.(state := m1, clock := stamped), call, NotAdapted(result.error));
      }
    }
  }

  lemma {:induction false} AdaptedGrounded(g: Given, call: Call, credential: Credential)
    requires call.AdaptCall? && credential in g.credentials && (call, credential) in g.current
    ensures AnswerGrounded(g, (call, Adapted(credential)))
  {
  }

  lemma {:induction false} NotAdaptedGrounded(g: Given, call: Call, error: Error)
    requires call.AdaptCall? && (call, error) in g.refused
    ensures AnswerGrounded(g, (call, NotAdapted(error)))
  {
  }

  lemma {:induction false} RetryGrounded(s: System, index: nat, checked: real, stamped: real)
    requires Grounded(s) && Enabled(s, LockRetry(index, checked, stamped))
    ensures Grounded(Next(s, LockRetry(index, checked, stamped)))
  {
    hide Refresh, WorkGrounded, RefusedIfExcessive, AnswerGrounded;
    var m := s.state;
    var (call, credential) := s.retrying[index];
    assert s.retrying[index] in s.retrying;
    var s1 := Refuse(s, RetryRefuses(m, call, checked), checked);
    GivenGrows(s, s1.given);
    var queued := m.(requestsToRetry := m.requestsToRetry + [call]);
    assert StateGrounded(s1.given, queued);
    if !m.isRefreshing {
      RefreshGrounded(s1.given, queued, credential, checked, stamped);
    }
  }

  lemma {:induction false} ReleaseGrounded(g: Given, m: MutableState, work: Work)
    requires StateGrounded(g, m) && WorkGrounded(g, work)
    ensures StateGrounded(g, Release(m, work))
  {
    assert AllAdapts([]) && AllRetries([]);
    hide WorkGrounded;
  }

  /** The head of the queue without one of its calls. */
  lemma {:induction false} HeadGrounded(s: System, rest: Work)
    requires Grounded(s) && s.state.queue != [] && WorkGrounded(s.given, rest)
    ensures Grounded(s.(state := s.state.(queue := [rest] + s.state.queue[1..])))
  {
    hide WorkGrounded, AnswerGrounded;
  }

  lemma {:induction false} QueueGrounded(s: System, e: Event)
    requires e.RunQueue? && Enabled(s, e) && Grounded(s)
    ensures Grounded(Next(s, e))
  {
    hide DoAdapt;
    var m := s.state;
    var head, tail := m.queue[0], m.queue[1..];
    assert head in m.queue;
    if head.CallRefresh? || (head.adapts == [] && head.retries == []) {
    } else if head.adapts != [] {
      var rest := head.(adapts := head.adapts[1..]);
      assert WorkGrounded(s.given, rest);
      HeadGrounded(s, rest);
      var s1 := s.(state := m.(queue := [rest] + tail));
      assert head.adapts[0] in head.adapts;
      if head.Succeeded? {
        AdaptGrounded(s1, head.adapts[0], e.requiresRefresh, e.checked, e.stamped);
      } else {
        DecideGrounded(s1, head.adapts[0], NotAdapted(head.error));
      }
    } else {
      var rest := head.(retries := head.retries[1..]);
      assert WorkGrounded(s.given, rest);
      HeadGrounded(s, rest);
      var s1 := s.(state := m.(queue := [rest] + tail));
      assert head.retries[0] in head.retries;
      DecideGrounded(s1, head.retries[0], if head.Succeeded? then Retry else DoNotRetryWithError(head.error));
    }
  }

  lemma {:induction false} CallRetryGrounded(s: System, e: Event)
    requires e.CallRetry? && Enabled(s, e) && Grounded(s)
    ensures Grounded(Next(s, e))
  {
    hide WorkGrounded;
    var s1 := s.(started := s.started + {e.call});
    if !e.eligible {
      var s2 := s1.(given := s1.given.(unrelated := s1.given.unrelated + {e.call}));
      GivenGrows(s1, s2.given);
      DecideGrounded(s2, e.call, DoNotRetry);
    } else if s.state.credential.None? {
      var s2 := Refuse(s1, {(e.call, MissingCredential)}, s1.clock);
      GivenGrows(s1, s2.given);
      DecideGrounded(s2, e.call, DoNotRetryWithError(MissingCredential));
    } else if !e.authenticated {
      var s2 := s1.(given := s1.given.(stale := s1.given.stale + {e.call}));
      GivenGrows(s1, s2.given);
      DecideGrounded(s2, e.call, Retry);
    }
  }

  lemma {:induction false} EndGrounded(s: System, e: Event)
    requires (e.RefreshSucceeds? || e.RefreshFails?) && Enabled(s, e) && Grounded(s)
    ensures Grounded(Next(s, e))
  {
    var g := Next(s, e).given;
    GivenGrows(s, g);
    var m := s.state;
    hide AnswerGrounded;
    if e.RefreshSucceeds? {
      var updated := m.(credential := Some(e.credential));
      assert StateGrounded(g, updated);
      assert WorkGrounded(g, Succeeded(m.adaptOperations, m.requestsToRetry));
      ReleaseGrounded(g, updated, Succeeded(m.adaptOperations, m.requestsToRetry));
    } else {
      WaitingIsRefused(m, RefreshFailed(e.code));
      hide Refused;
      assert WorkGrounded(g, Failed(RefreshFailed(e.code), m.adaptOperations, m.requestsToRetry));
      ReleaseGrounded(g, m, Failed(RefreshFailed(e.code), m.adaptOperations, m.requestsToRetry));
    }
  }

  lemma {:induction false} StepGrounded(s: System, e: Event)
    requires Enabled(s, e) && Grounded(s)
    ensures Grounded(Next(s, e))
  {
    match e
    case CallAdapt(x, requiresRefresh, checked, stamped) =>
      hide DoAdapt, StateGrounded, AnswerGrounded;
      AdaptGrounded(s.(started := s.started + {x}), x, requiresRefresh, checked, stamped);
    case CallRetry(_, _, _) => CallRetryGrounded(s, e);
    case LockRetry(index, checked, stamped) => RetryGrounded(s, index, checked, stamped);
    case Deliver(index) =>
      hide StateGrounded, AnswerGrounded;
      assert s.deciding[index] in s.deciding;
    case RunQueue(_, _, _) => QueueGrounded(s, e);
    case RefreshSucceeds(_, _) => EndGrounded(s, e);
    case RefreshFails(_, _) => EndGrounded(s, e);
    case SetCredential(c) =>
      GivenGrows(s, s.given.(credentials := s.given.credentials + AsSet(c)));
  }

  lemma {:induction false} RunGrounded(s: System, events: seq<Event>)
    requires IsRun(s, events) && Grounded(s)
    ensures Grounded(After(s, events))
    decreases |events|
  {
    hide Grounded, Next, Enabled;
    if events != [] {
      StepGrounded(s, events[0]);
      RunGrounded(Next(s, events[0]), events[1..]);
    }
  }

  /** Over every run, every answer given has its grounds. */
  lemma {:induction false} AnswersHaveGrounds(
      credential: Option<Credential>, window: Option<RefreshWindow>, clock: real, events: seq<Event>, a: (Call, Answer))
    requires IsRun(Initial(credential, window, clock), events)
    requires a in After(Initial(credential, window, clock), events).answered
    ensures AnswerGrounded(After(Initial(credential, window, clock), events).given, a)
  {
    hide Next, Enabled;
    RunGrounded(Initial(credential, window, clock), events);
  }

  // ---------------------------------------------------------------------------------------------
  // Which credential is refreshed
  // ---------------------------------------------------------------------------------------------

  /** A refresh is dispatched for the current credential, unless retry dispatches it and the credential was replaced
      between its reading it and its taking the lock. */
  lemma {:induction false} DispatchedIsCurrentIff(s: System, e: Event)
    requires Enabled(s, e) && !s.state.isRefreshing && Next(s, e).state.isRefreshing
    ensures var after := Next(s, e).state;
            && after.queue != [] && after.queue[|after.queue| - 1].CallRefresh?
            && (after.credential == Some(after.queue[|after.queue| - 1].credential)
                <==> (e.LockRetry? ==> s.state.credential == Some(s.retrying[e.index].1)))
  {
    hide IsRefreshExcessive, RefusedIfExcessive, AdaptRefuses, RetryRefuses, Without;
  }

  /** Two retries that read one credential, and a refresh that replaces it between their locks. */
  function Race(next: Credential, clock: real): seq<Event> {
    [CallRetry(RetryCall(0), true, true), CallRetry(RetryCall(1), true, true), LockRetry(0, clock, clock),
     RunQueue(false, clock, clock), RefreshSucceeds(0, next), LockRetry(0, clock, clock)]
  }

  /** The system after k steps of the race. */
  function RaceState(prior: Credential, next: Credential, clock: real, k: nat): System {
    var s, a, b := Initial(Some(prior), None, clock), RetryCall(0), RetryCall(1);
    if k == 0 then s
    else if k == 1 then s.(started := {a}, retrying := [(a, prior)])
    else if k == 2 then s.(started := {a, b}, retrying := [(a, prior), (b, prior)])
    else if k == 3 then
      s.(started := {a, b}, retrying := [(b, prior)],
         state := MutableState(Some(prior), true, [clock], None, [], [a], [CallRefresh(prior)]))
    else if k == 4 then
      s.(started := {a, b}, retrying := [(b, prior)], outstanding := [prior],
         state := MutableState(Some(prior), true, [clock], None, [], [a], []))
    else
      var given := s.given.(credentials := {prior, next}, renewed := {a});
      if k == 5 then
        s.(started := {a, b}, retrying := [(b, prior)], given := given,
           state := MutableState(Some(next), false, [clock], None, [], [], [Succeeded([], [a])]))
      else
        s.(started := {a, b}, given := given,
           state := MutableState(Some(next), true, [clock, clock], None, [], [b], [Succeeded([], [a]), CallRefresh(prior)]))
  }

  lemma {:induction false} RaceStep(prior: Credential, next: Credential, clock: real, k: nat)
    requires k < 6
    ensures var s, e := RaceState(prior, next, clock, k), Race(next, clock)[k];
            Enabled(s, e) && Next(s, e) == RaceState(prior, next, clock, k + 1)
  {
    if k < 3 {
      FirstRaceStep(prior, next, clock, k);
    } else {
      LaterRaceStep(prior, next, clock, k);
    }
    hide Next, Enabled, RaceState;
  }

  lemma {:induction false} FirstRaceStep(prior: Credential, next: Credential, clock: real, k: nat)
    requires k < 3
    ensures var s, e := RaceState(prior, next, clock, k), Race(next, clock)[k];
            Enabled(s, e) && Next(s, e) == RaceState(prior, next, clock, k + 1)
  {
    if k == 2 {
      assert Without(RaceState(prior, next, clock, k).retrying, 0) == RaceState(prior, next, clock, k + 1).retrying;
    }
  }

  lemma {:induction false} LaterRaceStep(prior: Credential, next: Credential, clock: real, k: nat)
    requires 3 <= k < 6
    ensures var s, e := RaceState(prior, next, clock, k), Race(next, clock)[k];
            Enabled(s, e) && Next(s, e) == RaceState(prior, next, clock, k + 1)
  {
    var s := RaceState(prior, next, clock, k);
    if k == 3 {
      assert s.state.queue[1..] == [];
    } else if k == 4 {
      assert Without(s.outstanding, 0) == [];
      assert Waiting(s.state) == {RetryCall(0)};
    } else {
      assert Without(s.retrying, 0) == [];
    }
  }

  lemma {:induction false} RaceRuns(prior: Credential, next: Credential, clock: real, k: nat)
    requires k <= 6
    ensures var s := RaceState(prior, next, clock, k);
            IsRun(s, Race(next, clock)[k..]) && After(s, Race(next, clock)[k..]) == RaceState(prior, next, clock, 6)
    decreases 6 - k
  {
    hide Next, Enabled, RaceState;
    if k < 6 {
      RaceStep(prior, next, clock, k);
      assert Race(next, clock)[k..][1..] == Race(next, clock)[k + 1..];
      RaceRuns(prior, next, clock, k + 1);
    }
  }

  /** The retry that comes second dispatches another refresh, of the credential that was replaced. */
  lemma {:induction false} ReplacedCredentialIsRefreshed(prior: Credential, next: Credential, clock: real)
    requires prior != next
    ensures var s := Initial(Some(prior), None, clock);
            && IsRun(s, Race(next, clock))
            && var m := After(s, Race(next, clock)).state;
               m.credential == Some(next) && m.isRefreshing && m.queue == [Succeeded([], [RetryCall(0)]), CallRefresh(prior)]
  {
    RaceRuns(prior, next, clock, 0);
    assert Race(next, clock)[0..] == Race(next, clock);
  }

  // ---------------------------------------------------------------------------------------------
  // The sliding window
  // ---------------------------------------------------------------------------------------------

  /** Timestamps in a closed interval. */
  function Within(timestamps: seq<real>, from: real, to: real): nat {
    if timestamps == [] then 0
    else
      var last := timestamps[|timestamps| - 1];
      Within(timestamps[..|timestamps| - 1], from, to) + (if from <= last <= to then 1 else 0)
  }

  /** No closed interval of the window's length holds more refreshes than allowed. */
  ghost predicate Limited(timestamps: seq<real>, window: RefreshWindow) {
    forall from: real, to: real :: to == from + window.interval ==> Within(timestamps, from, to) <= window.maximumAttempts
  }

  lemma {:induction false} WithinSince(timestamps: seq<real>, from: real, to: real, since: real)
    requires since <= from
    ensures Within(timestamps, from, to) <= Since(timestamps, since)
    decreases |timestamps|
  {
    if timestamps != [] {
      WithinSince(timestamps[..|timestamps| - 1], from, to, since);
    }
  }

  /** The one place a timestamp is added: the interval ending at it starts no earlier than the window checked. */
  lemma {:induction false} StampKeeps(timestamps: seq<real>, window: RefreshWindow, checked: real, stamped: real)
    requires Limited(timestamps, window) && window.maximumAttempts >= 0 && checked <= stamped
    requires Since(timestamps, checked - window.interval) < window.maximumAttempts
    ensures Limited(timestamps + [stamped], window)
  {
    var after := timestamps + [stamped];
    assert after[..|after| - 1] == timestamps;
    forall from: real, to: real | to == from + window.interval
      ensures Within(after, from, to) <= window.maximumAttempts
    {
      assert Within(timestamps, from, to) <= window.maximumAttempts;
      if from <= stamped <= to {
        WithinSince(timestamps, from, to, checked - window.interval);
      }
    }
  }

  /** A lock that starts a refresh has passed the check and adds a timestamp; any other leaves them. */
  predicate Stamps(before: MutableState, after: MutableState, checked: real, stamped: real) {
    && after.refreshWindow == before.refreshWindow
    && if !before.isRefreshing && after.isRefreshing
       then after.refreshTimestamps == before.refreshTimestamps + [stamped] && !IsRefreshExcessive(before, checked)
       else after.refreshTimestamps == before.refreshTimestamps
  }

  lemma {:induction false} AdaptStamps(s: System, call: Call, requiresRefresh: bool, checked: real, stamped: real)
    ensures Stamps(s.state, DoAdapt(s, call, requiresRefresh, checked, stamped).state, checked, stamped)
  {
    hide Since, AdaptRefuses;
  }

  lemma {:induction false} RetryStamps(m: MutableState, x: Call, credential: Credential, checked: real, stamped: real)
    ensures Stamps(m, RetryLocked(m, x, credential, checked, stamped), checked, stamped)
  {
    hide Since;
  }

  /** Steps that take no lock in which a refresh can start. */
  predicate Unlocked(e: Event) {
    e.CallRetry? || e.Deliver? || e.RefreshSucceeds? || e.RefreshFails? || e.SetCredential?
  }

  /** Every refresh that starts is stamped with the time read under its lock, and nothing else is. */
  lemma {:induction false} StepStamps(s: System, e: Event)
    requires Enabled(s, e)
    ensures var before, after := s.state, Next(s, e).state;
            if Unlocked(e)
            then && after.refreshWindow == before.refreshWindow && after.refreshTimestamps == before.refreshTimestamps
                 && (after.isRefreshing ==> before.isRefreshing)
            else Stamps(before, after, e.checked, e.stamped)
  {
    hide DoAdapt, RetryLocked, IsRefreshExcessive, Without, Refused, RetryRefuses, Waiting;
    match e
    case CallAdapt(x, requiresRefresh, checked, stamped) =>
      AdaptStamps(s.(started := s.started + {x}), x, requiresRefresh, checked, stamped);
    case LockRetry(index, checked, stamped) =>
      RetryStamps(s.state, s.retrying[index].0, s.retrying[index].1, checked, stamped);
    case RunQueue(requiresRefresh, checked, stamped) => QueueStamps(s, e);
    case _ =>
  }

  lemma {:induction false} QueueStamps(s: System, e: Event)
    requires e.RunQueue? && Enabled(s, e)
    ensures Stamps(s.state, Next(s, e).state, e.checked, e.stamped)
  {
    var head, tail := s.state.queue[0], s.state.queue[1..];
    if head.Succeeded? && head.adapts != [] {
      var s1 := s.(state := s.state.(queue := [Succeeded(head.adapts[1..], head.retries)] + tail));
      AdaptStamps(s1, head.adapts[0], e.requiresRefresh, e.checked, e.stamped);
      assert IsRefreshExcessive(s1.state, e.checked) == IsRefreshExcessive(s.state, e.checked);
    }
    hide DoAdapt, IsRefreshExcessive;
  }

  lemma {:induction false} StepLimited(s: System, e: Event)
    requires Enabled(s, e) && s.state.refreshWindow.Some? && s.state.refreshWindow.value.maximumAttempts >= 0
    requires Limited(s.state.refreshTimestamps, s.state.refreshWindow.value)
    ensures Next(s, e).state.refreshWindow == s.state.refreshWindow
    ensures Limited(Next(s, e).state.refreshTimestamps, s.state.refreshWindow.value)
  {
    hide Next, Limited;
    StepStamps(s, e);
    if Next(s, e).state.refreshTimestamps != s.state.refreshTimestamps {
      StampKeeps(s.state.refreshTimestamps, s.state.refreshWindow.value, e.checked, e.stamped);
    }
  }

  lemma {:induction false} RunLimited(s: System, events: seq<Event>)
    requires IsRun(s, events) && s.state.refreshWindow.Some? && s.state.refreshWindow.value.maximumAttempts >= 0
    requires Limited(s.state.refreshTimestamps, s.state.refreshWindow.value)
    ensures After(s, events).state.refreshWindow == s.state.refreshWindow
    ensures Limited(After(s, events).state.refreshTimestamps, s.state.refreshWindow.value)
    decreases |events|
  {
    hide Next, Limited, Enabled;
    if events != [] {
      StepLimited(s, events[0]);
      RunLimited(Next(s, events[0]), events[1..]);
    }
  }

  /** Over a whole run, no closed interval of the window's length holds more than maximumAttempts refreshes. */
  lemma {:induction false} RefreshesAreLimited(
      credential: Option<Credential>, window: RefreshWindow, clock: real, events: seq<Event>, from: real)
    requires window.maximumAttempts >= 0
    requires IsRun(Initial(credential, Some(window), clock), events)
    ensures Within(After(Initial(credential, Some(window), clock), events).state.refreshTimestamps,
                   from, from + window.interval) <= window.maximumAttempts
  {
    hide Next, Enabled;
    RunLimited(Initial(credential, Some(window), clock), events);
  }

  // ---------------------------------------------------------------------------------------------
  // The check looks at the window and nothing else
  // ---------------------------------------------------------------------------------------------

  /** The window that ends at a time holds as many refreshes as are allowed. */
  predicate WindowFull(m: MutableState, now: real) {
    && m.refreshWindow.Some?
    && Within(m.refreshTimestamps, now - m.refreshWindow.value.interval, now) >= m.refreshWindow.value.maximumAttempts
  }

  predicate AllBefore(timestamps: seq<real>, now: real) {
    forall t | t in timestamps :: t <= now
  }

  lemma {:induction false} SinceIsWithin(timestamps: seq<real>, from: real, now: real)
    requires AllBefore(timestamps, now)
    ensures Since(timestamps, from) == Within(timestamps, from, now)
  {
    if timestamps != [] {
      var earlier := timestamps[..|timestamps| - 1];
      assert timestamps == earlier + [timestamps[|timestamps| - 1]];
      assert forall t | t in earlier :: t in timestamps;
      assert timestamps[|timestamps| - 1] in timestamps;
      SinceIsWithin(earlier, from, now);
    }
  }

  lemma {:induction false} ExcessiveIffFull(m: MutableState, now: real)
    requires AllBefore(m.refreshTimestamps, now)
    ensures IsRefreshExcessive(m, now) <==> WindowFull(m, now)
  {
    if m.refreshWindow.Some? {
      SinceIsWithin(m.refreshTimestamps, now - m.refreshWindow.value.interval, now);
    }
  }

  lemma {:induction false} WithinGrows(timestamps: seq<real>, stamp: real, from: real, to: real)
    ensures Within(timestamps + [stamp], from, to) >= Within(timestamps, from, to)
  {
    assert (timestamps + [stamp])[..|timestamps|] == timestamps;
  }

  /** Timestamps lie in the past, and so do the times at which calls were refused for excessive refreshes; the windows
      ending there were full. */
  ghost predicate Timed(s: System) {
    && AllBefore(s.state.refreshTimestamps, s.clock)
    && (forall x | x in s.given.excessive :: x.1 <= s.clock && WindowFull(s.state, x.1))
    && (forall x | x in s.given.refused && x.1 == ExcessiveRefresh :: exists t :: (x.0, t) in s.given.excessive)
  }

  /** The calls a step refuses. */
  function NewlyRefused(s: System, e: Event): set<(Call, Error)>
    requires Enabled(s, e)
  {
    match e
    case CallAdapt(x, requiresRefresh, checked, _) => AdaptRefuses(s.state, x, requiresRefresh, checked)
    case CallRetry(x, eligible, _) => if eligible && s.state.credential.None? then {(x, MissingCredential)} else {}
    case LockRetry(index, checked, _) => RetryRefuses(s.state, s.retrying[index].0, checked)
    case RunQueue(requiresRefresh, checked, _) =>
      var head := s.state.queue[0];
      if head.Succeeded? && head.adapts != [] then
        AdaptRefuses(s.state.(queue := [Succeeded(head.adapts[1..], head.retries)] + s.state.queue[1..]), head.adapts[0],
                     requiresRefresh, checked)
      else {}
    case RefreshFails(_, code) => Refused(s.state, RefreshFailed(code))
    case _ => {}
  }

  function RefusedAt(s: System, e: Event): real {
    if Unlocked(e) then s.clock else e.checked
  }

  lemma {:induction false} DoAdaptRefuses(s: System, call: Call, requiresRefresh: bool, checked: real, stamped: real)
    ensures var t := DoAdapt(s, call, requiresRefresh, checked, stamped);
            var refused := AdaptRefuses(s.state, call, requiresRefresh, checked);
            && t.given.refused == s.given.refused + refused
            && t.given.excessive == s.given.excessive + Exceeding(refused, checked) && t.clock == stamped
  {
    hide AdaptLocked, AdaptRefuses, Exceeding;
  }

  lemma {:induction false} StepRefuses(s: System, e: Event)
    requires Enabled(s, e)
    ensures var t := Next(s, e);
            && t.given.refused == s.given.refused + NewlyRefused(s, e)
            && t.given.excessive == s.given.excessive + Exceeding(NewlyRefused(s, e), RefusedAt(s, e))
            && s.clock <= t.clock && (t.clock == s.clock || (!Unlocked(e) && t.clock == e.stamped))
            && (NewlyRefused(s, e) != {} && !Unlocked(e) ==> t.clock == e.stamped)
  {
    hide DoAdapt, AdaptRefuses, RetryRefuses, RetryLocked, Refused, Without, HandleSuccess, HandleFailure, Waiting;
    assert Exceeding({}, RefusedAt(s, e)) == {};
    match e
    case CallAdapt(x, requiresRefresh, checked, stamped) =>
      DoAdaptRefuses(s.(started := s.started + {x}), x, requiresRefresh, checked, stamped);
    case RunQueue(requiresRefresh, checked, stamped) =>
      var head := s.state.queue[0];
      if head.Succeeded? && head.adapts != [] {
        var s1 := s.(state := s.state.(queue := [Succeeded(head.adapts[1..], head.retries)] + s.state.queue[1..]));
        DoAdaptRefuses(s1, head.adapts[0], requiresRefresh, checked, stamped);
      }
    case _ =>
  }

  lemma {:induction false} RefusedIsChecked(s: System, e: Event)
    requires Enabled(s, e)
    ensures forall x | x in NewlyRefused(s, e) && x.1 == ExcessiveRefresh ::
              !Unlocked(e) && IsRefreshExcessive(s.state, e.checked)
  {
    hide Since, Waiting;
  }

  lemma {:induction false} StepTimed(s: System, e: Event)
    requires Enabled(s, e) && Timed(s)
    ensures Timed(Next(s, e)) && Next(s, e).state.refreshWindow == s.state.refreshWindow
  {
    StepStamps(s, e);
    StepRefuses(s, e);
    RefusedIsChecked(s, e);
    var t, before := Next(s, e), s.state.refreshTimestamps;
    if !Unlocked(e) {
      ExcessiveIffFull(s.state, e.checked);
    }
    hide Next, IsRefreshExcessive, NewlyRefused, WindowFull;
    forall x | x in t.given.excessive
      ensures x.1 <= t.clock && WindowFull(t.state, x.1)
    {
      assert x in s.given.excessive || (!Unlocked(e) && x.1 == e.checked && IsRefreshExcessive(s.state, e.checked));
      StaysFull(s.state, t.state, x.1, if Unlocked(e) then s.clock else e.stamped);
    }
    forall x | x in t.given.refused && x.1 == ExcessiveRefresh
      ensures exists at :: (x.0, at) in t.given.excessive
    {
      if x in s.given.refused {
        var at :| (x.0, at) in s.given.excessive;
        assert (x.0, at) in t.given.excessive;
      } else {
        assert (x.0, RefusedAt(s, e)) in Exceeding(NewlyRefused(s, e), RefusedAt(s, e));
        assert (x.0, RefusedAt(s, e)) in t.given.excessive;
      }
    }
  }

  lemma {:induction false} StaysFull(before: MutableState, after: MutableState, now: real, stamp: real)
    requires WindowFull(before, now) && after.refreshWindow == before.refreshWindow
    requires || after.refreshTimestamps == before.refreshTimestamps
             || after.refreshTimestamps == before.refreshTimestamps + [stamp]
    ensures WindowFull(after, now)
  {
    WithinGrows(before.refreshTimestamps, stamp, now - before.refreshWindow.value.interval, now);
  }

  lemma {:induction false} RunTimed(s: System, events: seq<Event>)
    requires IsRun(s, events) && Timed(s)
    ensures Timed(After(s, events)) && After(s, events).state.refreshWindow == s.state.refreshWindow
    decreases |events|
  {
    hide Next, Enabled, Timed;
    if events != [] {
      StepTimed(s, events[0]);
      RunTimed(Next(s, events[0]), events[1..]);
    }
  }

  /** In every reachable state, at any time not past: a refresh counts as excessive exactly when there is a window and the
      closed interval of its length that ends now holds maximumAttempts refreshes, however many there were before. */
  lemma {:induction false} ExcessiveIff(
      credential: Option<Credential>, window: Option<RefreshWindow>, clock: real, events: seq<Event>, now: real)
    requires IsRun(Initial(credential, window, clock), events)
    requires After(Initial(credential, window, clock), events).clock <= now
    ensures var m := After(Initial(credential, window, clock), events).state;
            IsRefreshExcessive(m, now)
            <==> && window.Some?
                 && Within(m.refreshTimestamps, now - window.value.interval, now) >= window.value.maximumAttempts
  {
    hide Next, Enabled;
    RunTimed(Initial(credential, window, clock), events);
    ExcessiveIffFull(After(Initial(credential, window, clock), events).state, now);
  }

  /** Over every run, a call is answered that refreshes are excessive only if they were at the time of its check: the
      interval that ended then was full. */
  lemma {:induction false} RefusedOnlyWhenFull(
      credential: Option<Credential>, window: Option<RefreshWindow>, clock: real, events: seq<Event>, call: Call)
    requires IsRun(Initial(credential, window, clock), events)
    requires var answered := After(Initial(credential, window, clock), events).answered;
             (call, NotAdapted(ExcessiveRefresh)) in answered || (call, DoNotRetryWithError(ExcessiveRefresh)) in answered
    ensures var s := After(Initial(credential, window, clock), events);
            && window.Some?
            && exists t :: (call, t) in s.given.excessive
                           && Within(s.state.refreshTimestamps, t - window.value.interval, t) >= window.value.maximumAttempts
  {
    hide Next, Enabled;
    RunTimed(Initial(credential, window, clock), events);
    RunGrounded(Initial(credential, window, clock), events);
    var s := After(Initial(credential, window, clock), events);
    assert (call, ExcessiveRefresh) in s.given.refused by {
      if (call, NotAdapted(ExcessiveRefresh)) in s.answered {
        assert AnswerGrounded(s.given, (call, NotAdapted(ExcessiveRefresh)));
      } else {
        assert AnswerGrounded(s.given, (call, DoNotRetryWithError(ExcessiveRefresh)));
      }
    }
    var t :| (call, t) in s.given.excessive;
    assert WindowFull(s.state, t);
  }

  // ---------------------------------------------------------------------------------------------
  // What a lock decides
  // ---------------------------------------------------------------------------------------------

  /** A refresh is wanted: it is dispatched and the call waits for it, unless the window is full; then the call is
      dispatched as failed, and nothing waits. */
  predicate RefreshWanted(before: MutableState, after: MutableState, call: Call, credential: Credential, checked: real) {
    after.queue != []
    && var work := after.queue[|after.queue| - 1];
       if WindowFull(before, checked)
       then && !after.isRefreshing && Waiting(after) == {}
            && work == if call.AdaptCall? then Failed(ExcessiveRefresh, [call], []) else Failed(ExcessiveRefresh, [], [call])
       else after.isRefreshing && Waiting(after) == {call} && work == CallRefresh(credential)
  }

  /** A call of adapt waits for a refresh in place; otherwise it is answered at once, with the credential there is if that
      needs no refresh, and without a refresh; and if it does need one, a refresh is wanted. */
  lemma {:induction false} AdaptDecides(s: System, call: Call, requiresRefresh: bool, checked: real, stamped: real)
    requires Enabled(s, CallAdapt(call, requiresRefresh, checked, stamped)) && Timed(s) && Idle(s.state)
    ensures var t, m := Next(s, CallAdapt(call, requiresRefresh, checked, stamped)), s.state;
            if m.isRefreshing then t.deciding == s.deciding && t.state == m.(adaptOperations := m.adaptOperations + [call])
            else if m.credential.None? then
              t.deciding == s.deciding + [(call, NotAdapted(MissingCredential))] && t.state == m
            else if !requiresRefresh then
              t.deciding == s.deciding + [(call, Adapted(m.credential.value))] && t.state == m
            else t.deciding == s.deciding && RefreshWanted(m, t.state, call, m.credential.value, checked)
  {
    ExcessiveIffFull(s.state, checked);
    hide WindowFull, IsRefreshExcessive, AdaptRefuses, Exceeding;
  }

  /** A call of retry is answered at once, and refreshes nothing, if it did not fail to authenticate, if there is no
      credential, or if its request was not authenticated with the one there is; else it goes on to its lock with that. */
  lemma {:induction false} RetryBegins(s: System, call: Call, eligible: bool, authenticated: bool)
    requires Enabled(s, CallRetry(call, eligible, authenticated))
    ensures var t, c := Next(s, CallRetry(call, eligible, authenticated)), s.state.credential;
            && t.state == s.state
            && (if eligible && c.Some? && authenticated
                then t.deciding == s.deciding && t.retrying == s.retrying + [(call, c.value)]
                else
                  && t.retrying == s.retrying
                  && t.deciding == s.deciding + [(call, if !eligible then DoNotRetry
                                                        else if c.Some? then Retry
                                                        else DoNotRetryWithError(MissingCredential))])
  {
    hide Exceeding;
  }

  /** A retry that has read a credential waits for a refresh in place, or wants one. */
  lemma {:induction false} RetryDecides(s: System, index: nat, checked: real, stamped: real)
    requires Enabled(s, LockRetry(index, checked, stamped)) && Timed(s) && Idle(s.state) && s.retrying[index].0.RetryCall?
    ensures var t, m, call := Next(s, LockRetry(index, checked, stamped)), s.state, s.retrying[index].0;
            && t.deciding == s.deciding
            && if m.isRefreshing then t.state == m.(requestsToRetry := m.requestsToRetry + [call])
               else RefreshWanted(m, t.state, call, s.retrying[index].1, checked)
  {
    ExcessiveIffFull(s.state, checked);
    hide WindowFull, IsRefreshExcessive, RetryRefuses, Exceeding, Without;
  }
}
