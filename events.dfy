/**
 * The EventProcessor: for each JDI event of an event set it updates its DebugSession and
 * dispatches at most one DebugEvent to clients, then decides whether the set resumes the VM.
 * The clock is a parameter: `now` stands for `System.currentTimeMillis()` at each event.
 */
module Events {
  import opened Wrappers
  import opened Jdi
  import opened Session

  /**
   * A JDI event with what the handlers read from it. A request property arrives as read off
   * the request that produced the event (None when absent); `handle` is that request's handle
   * where the handler deletes it. `detailMessage` is None when the exception has no such field
   * or its value is not a string.
   */
  datatype JdiEvent =
    | BreakpointEvent(breakpointId: Option<string>, thread: ThreadRef, location: Location)
    | StepEvent(handle: nat, thread: ThreadRef, location: Location)
    | ExceptionEvent(
        thread: ThreadRef, location: Location, catchLocation: Option<Location>,
        exceptionClass: string, detailMessage: Option<string>)
    | ThreadStartEvent(thread: ThreadRef)
    | ThreadDeathEvent(thread: ThreadRef)
    | VmDeathEvent
    | VmDisconnectEvent
    | ClassPrepareEvent(
        handle: nat, deferredBreakpointId: Option<string>, lineNumber: Option<int>,
        methodName: Option<string>, referenceType: LoadedClass)
    | OtherEvent

  // ---------------------------------------------------------------- what an event produces

  /** `mapThreadStatus`: the seven JDI status codes -1..5 map to their status, any other code to UNKNOWN. */
  function StatusOf(status: int): (s: ThreadStatus)
    ensures s == StatusUnknown <==> !(0 <= status <= 5)
    ensures 0 <= status <= 5 ==> StatusCode(s) == status
  {
    if status == 0 then StatusZombie
    else if status == 1 then StatusRunning
    else if status == 2 then StatusSleeping
    else if status == 3 then StatusMonitor
    else if status == 4 then StatusWait
    else if status == 5 then StatusNotStarted
    else StatusUnknown
  }

  /** The JDI code of a status (`THREAD_STATUS_UNKNOWN` is -1). */
  function StatusCode(s: ThreadStatus): int {
    match s
    case StatusUnknown => -1
    case StatusZombie => 0
    case StatusRunning => 1
    case StatusSleeping => 2
    case StatusMonitor => 3
    case StatusWait => 4
    case StatusNotStarted => 5
  }

  /** Every status but UNKNOWN survives the round trip through its code. */
  lemma StatusRoundTrip(s: ThreadStatus)
    ensures StatusOf(StatusCode(s)) == s
  {
  }

  /** `buildThreadLocation`: an absent source name is left at the message default "". */
  function LocationOf(thread: ThreadRef, location: Location): (r: ThreadLocation)
    ensures r.threadId == thread.uniqueId && r.threadName == thread.name
    ensures r.className == location.declaringType && r.methodName == location.methodName
    ensures r.lineNumber == location.lineNumber
    ensures r.sourceName == if location.sourceName.Some? then location.sourceName.value else ""
  {
    ThreadLocation(
      thread.uniqueId, thread.name, location.declaringType, location.methodName, location.lineNumber,
      location.sourceName.GetOr(""))
  }

  /** `buildThreadInfo`: the frame count is -1 for a thread that is not suspended. */
  function InfoOf(thread: ThreadRef): (r: ThreadInfo)
    ensures r.id == thread.uniqueId && r.name == thread.name && r.suspended == thread.suspended
    ensures r.status == StatusOf(thread.status)
    ensures r.threadGroup == if thread.group.Some? then thread.group.value else ""
    ensures r.frameCount == if thread.frames.Some? then |thread.frames.value| else -1
  {
    ThreadInfo(
      thread.uniqueId, thread.name, thread.suspended, StatusOf(thread.status), thread.group.GetOr(""),
      if thread.frames.Some? then |thread.frames.value| else -1)
  }

  /**
   * The body of the DebugEvent an event dispatches, or None when its handler dispatches
   * nothing: a breakpoint event whose request has no breakpoint id, a class-prepare event, and
   * events the processor does not handle.
   */
  function Emitted(e: JdiEvent): (p: Option<Payload>)
    ensures p.None? <==> (e.BreakpointEvent? && e.breakpointId.None?) || e.ClassPrepareEvent? || e.OtherEvent?
    ensures e.BreakpointEvent? && p.Some? ==>
      p.value.BreakpointHit? && p.value.breakpointId == e.breakpointId.value && p.value.location.threadId == e.thread.uniqueId
    ensures e.StepEvent? ==> p.value.StepCompleted? && p.value.location.threadId == e.thread.uniqueId
    ensures e.ExceptionEvent? ==>
      p.value.ExceptionThrown? && p.value.exceptionClass == e.exceptionClass &&
      (p.value.caught <==> e.catchLocation.Some?) &&
      p.value.location.lineNumber == (if e.catchLocation.Some? then e.catchLocation.value else e.location).lineNumber
    ensures e.ThreadStartEvent? ==> p.value.ThreadStarted? && p.value.thread.id == e.thread.uniqueId
    ensures e.ThreadDeathEvent? ==> p == Some(ThreadDied(e.thread.uniqueId, e.thread.name))
    ensures e.VmDeathEvent? ==> p == Some(VmDeath(0))
    ensures e.VmDisconnectEvent? ==> p == Some(VmDisconnect("VM disconnected"))
  {
    match e
    case BreakpointEvent(bpId, thread, location) =>
      if bpId.None? then None else Some(BreakpointHit(bpId.value, LocationOf(thread, location)))
    case StepEvent(_, thread, location) => Some(StepCompleted(LocationOf(thread, location)))
    case ExceptionEvent(thread, location, catchLocation, exceptionClass, message) =>
      var at := if catchLocation.Some? then catchLocation.value else location;
      Some(ExceptionThrown(exceptionClass, message.GetOr(""), catchLocation.Some?, LocationOf(thread, at)))
    case ThreadStartEvent(thread) => Some(ThreadStarted(InfoOf(thread)))
    case ThreadDeathEvent(thread) => Some(ThreadDied(thread.uniqueId, thread.name))
    case VmDeathEvent => Some(VmDeath(0))
    case VmDisconnectEvent => Some(VmDisconnect("VM disconnected"))
    case ClassPrepareEvent(_, _, _, _, _) => None
    case OtherEvent => None
  }

  /** The events after which the thread is selected at its top frame and the session is SUSPENDED. */
  predicate Selects(e: JdiEvent) {
    (e.BreakpointEvent? && e.breakpointId.Some?) || e.StepEvent? || e.ExceptionEvent?
  }

  /** The lifecycle state after the event. */
  function StateAfter(e: JdiEvent, state: SessionState): (r: SessionState)
    ensures Selects(e) ==> r == Suspended
    ensures e.VmDeathEvent? ==> r == Terminated
    ensures e.VmDisconnectEvent? ==> r == Disconnected
    ensures !Selects(e) && !e.VmDeathEvent? && !e.VmDisconnectEvent? ==> r == state
  {
    if Selects(e) then Suspended
    else if e.VmDeathEvent? then Terminated
    else if e.VmDisconnectEvent? then Disconnected
    else state
  }

  /**
   * The breakpoint requests a class-prepare event materialises for a deferred breakpoint: with
   * a positive line, one at the first location of the line (none when the class lacks line
   * information or the line has no code); otherwise, with a method name, one per method of that
   * name that has a location.
   */
  function DeferredRequests(c: LoadedClass, lineNumber: Option<int>, methodName: Option<string>, bpId: string): (r: RequestTable)
    ensures lineNumber.Some? && lineNumber.value > 0 ==> |r| <= 1
    ensures lineNumber.Some? && lineNumber.value > 0 && r != [] ==>
      LocationsOfLine(c, lineNumber.value).Some? && LocationsOfLine(c, lineNumber.value).value != [] &&
      r == [Some(BreakpointRequest(LocationsOfLine(c, lineNumber.value).value[0], Some(bpId), true))]
    ensures !(lineNumber.Some? && lineNumber.value > 0) && methodName.None? ==> r == []
    ensures forall i | 0 <= i < |r| ::
      (r[i].Some? && r[i].value.BreakpointRequest? && r[i].value.breakpointId == Some(bpId) && r[i].value.enabled)
  {
    var locs :=
      if lineNumber.Some? && lineNumber.value > 0 then FirstOfLine(c, lineNumber.value)
      else if methodName.Some? then Located(MethodsByName(c, methodName.value))
      else [];
    TaggedAll(locs, bpId);
    Tagged(locs, bpId)
  }

  lemma TaggedAll(locs: seq<Location>, bpId: string)
    ensures forall i | 0 <= i < |locs| :: Tagged(locs, bpId)[i] == Some(BreakpointRequest(locs[i], Some(bpId), true))
  {
    forall i | 0 <= i < |locs|
      ensures Tagged(locs, bpId)[i] == Some(BreakpointRequest(locs[i], Some(bpId), true))
    {
      TaggedAt(locs, bpId, i);
    }
  }

  /** The request table after the event: a step deletes its own request, a deferred class-prepare adds and then deletes its watch. */
  function RequestsAfter(e: JdiEvent, rs: RequestTable): (r: RequestTable)
  {
    match e
    case StepEvent(h, _, _) => Delete(rs, h)
    case ClassPrepareEvent(h, bpId, line, name, c) =>
      if bpId.None? then rs else Delete(rs + DeferredRequests(c, line, name, bpId.value), h)
    case _ => rs
  }

  /** `shouldResume`'s test: the events that leave the VM suspended. */
  predicate Stops(e: JdiEvent) {
    e.BreakpointEvent? || e.StepEvent? || e.ExceptionEvent?
  }

  /** `shouldResume`: a set resumes exactly when none of its events is a breakpoint, step or exception event. */
  function ShouldResume(batch: seq<JdiEvent>): (r: bool)
    ensures r <==> forall i | 0 <= i < |batch| :: !Stops(batch[i])
  {
    if batch == [] then true
    else if Stops(batch[0]) then false
    else
      assert forall i | 1 <= i < |batch| :: batch[i] == batch[1..][i - 1];
      ShouldResume(batch[1..])
  }

  /** How many DebugEvents a run of events dispatches. */
  function EmittedCount(batch: seq<JdiEvent>): (n: nat)
    ensures n <= |batch|
  {
    if batch == [] then 0
    else EmittedCount(batch[..|batch| - 1]) + (if Emitted(batch[|batch| - 1]).Some? then 1 else 0)
  }

  /** A set made only of thread start and death events dispatches one event each and resumes. */
  lemma {:induction false} ThreadEventsResume(batch: seq<JdiEvent>)
    requires forall i | 0 <= i < |batch| :: batch[i].ThreadStartEvent? || batch[i].ThreadDeathEvent?
    ensures ShouldResume(batch) && EmittedCount(batch) == |batch|
  {
    if batch != [] {
      ThreadEventsResume(batch[..|batch| - 1]);
    }
  }

  // ---------------------------------------------------------------- the step function

  /** The part of a DebugSession that event processing reads or changes. */
  datatype SessionView = SessionView(
    state: SessionState,
    selectedThreadId: int,
    selectedFrameIndex: int,
    breakpoints: map<string, nat>,
    exceptionBreakpoints: map<string, nat>,
    breakpointInfos: map<string, BreakpointInfo>,
    exceptionInfos: map<string, ExceptionBreakpointInfo>,
    threadsAtBreakpoints: map<int, string>,
    eventBuffer: seq<DebugEvent>,
    eventSequence: nat,
    eventsDropped: bool,
    requests: RequestTable)

  function ViewOf(s: DebugSession): SessionView
    reads s
  {
    SessionView(
      s.state, s.selectedThreadId, s.selectedFrameIndex, s.breakpoints, s.exceptionBreakpoints,
      s.breakpointInfos, s.exceptionInfos, s.threadsAtBreakpoints, s.eventBuffer, s.eventSequence,
      s.eventsDropped, s.requests)
  }

  /** The view of a session is its fields, read in the current state. */
  lemma ViewFields(s: DebugSession)
    ensures ViewOf(s) == SessionView(
      s.state, s.selectedThreadId, s.selectedFrameIndex, s.breakpoints, s.exceptionBreakpoints,
      s.breakpointInfos, s.exceptionInfos, s.threadsAtBreakpoints, s.eventBuffer, s.eventSequence,
      s.eventsDropped, s.requests)
  {
  }

  /** `dispatchEvent` on a view: the event is numbered one past the last and offered to the buffer. */
  function Dispatched(v: SessionView, id: string, now: int, p: Payload): (r: SessionView)
    requires |v.eventBuffer| <= DefaultEventBufferCapacity
    ensures r.eventSequence == v.eventSequence + 1
    ensures |v.eventBuffer| < DefaultEventBufferCapacity ==>
      r.eventBuffer == v.eventBuffer + [DebugEvent(now, id, v.eventSequence + 1, "", p)] && r.eventsDropped == v.eventsDropped
  {
    v.(eventSequence := v.eventSequence + 1,
       eventBuffer := Offer(v.eventBuffer, DebugEvent(now, id, v.eventSequence + 1, "", p)),
       eventsDropped := v.eventsDropped || |v.eventBuffer| == DefaultEventBufferCapacity)
  }

  /**
   * `processEvent` as a step from the session before the event to the session after it:
   * selection and state as the handler sets them, the hit recorded for a breakpoint with an id,
   * the request table as the handler leaves it, and the emitted DebugEvent dispatched.
   */
  function Step(v: SessionView, id: string, now: int, e: JdiEvent): SessionView
    requires |v.eventBuffer| <= DefaultEventBufferCapacity
  {
    var hit := e.BreakpointEvent? && e.breakpointId.Some?;
    var v1 := v.(
      state := StateAfter(e, v.state),
      selectedThreadId := if Selects(e) then e.thread.uniqueId else v.selectedThreadId,
      selectedFrameIndex := if Selects(e) then 0 else v.selectedFrameIndex,
      breakpointInfos := if hit then HitRecorded(v.breakpointInfos, e.breakpointId.value) else v.breakpointInfos,
      threadsAtBreakpoints :=
        if hit then v.threadsAtBreakpoints[e.thread.uniqueId := e.breakpointId.value] else v.threadsAtBreakpoints,
      requests := RequestsAfter(e, v.requests));
    if Emitted(e).Some? then Dispatched(v1, id, now, Emitted(e).value) else v1
  }

  /** The buffer invariant survives every step. */
  lemma StepKeepsBuffer(v: SessionView, id: string, now: int, e: JdiEvent)
    requires BufferOk(v.eventBuffer, v.eventSequence)
    ensures BufferOk(Step(v, id, now, e).eventBuffer, Step(v, id, now, e).eventSequence)
  {
    var r := Step(v, id, now, e);
    hide Offer, BufferOk, HitRecorded, RequestsAfter, StateAfter, Step;
    StepFields(v, id, now, e);
    if Emitted(e).Some? {
      OfferKeepsBuffer(v.eventBuffer, v.eventSequence, DebugEvent(now, id, v.eventSequence + 1, "", Emitted(e).value));
    }
  }

  /** What a step does to each part of the view; only the dispatch of the emitted event touches the buffer and the counter. */
  lemma StepFields(v: SessionView, id: string, now: int, e: JdiEvent)
    requires |v.eventBuffer| <= DefaultEventBufferCapacity
    ensures var r := Step(v, id, now, e);
      var hit := e.BreakpointEvent? && e.breakpointId.Some?;
      r.state == StateAfter(e, v.state) &&
      r.selectedThreadId == (if Selects(e) then e.thread.uniqueId else v.selectedThreadId) &&
      r.selectedFrameIndex == (if Selects(e) then 0 else v.selectedFrameIndex) &&
      r.breakpoints == v.breakpoints && r.exceptionBreakpoints == v.exceptionBreakpoints &&
      r.exceptionInfos == v.exceptionInfos &&
      r.breakpointInfos == (if hit then HitRecorded(v.breakpointInfos, e.breakpointId.value) else v.breakpointInfos) &&
      r.threadsAtBreakpoints ==
        (if hit then v.threadsAtBreakpoints[e.thread.uniqueId := e.breakpointId.value] else v.threadsAtBreakpoints) &&
      r.requests == RequestsAfter(e, v.requests) &&
      if Emitted(e).Some?
      then r.eventBuffer == Offer(v.eventBuffer, DebugEvent(now, id, v.eventSequence + 1, "", Emitted(e).value)) &&
           r.eventSequence == v.eventSequence + 1 &&
           r.eventsDropped == (v.eventsDropped || |v.eventBuffer| == DefaultEventBufferCapacity)
      else r.eventBuffer == v.eventBuffer && r.eventSequence == v.eventSequence && r.eventsDropped == v.eventsDropped
  {
    hide Offer, HitRecorded, RequestsAfter, StateAfter;
  }

  /** A step numbers exactly the events it dispatches. */
  lemma StepNumbers(v: SessionView, id: string, now: int, e: JdiEvent)
    requires |v.eventBuffer| <= DefaultEventBufferCapacity
    ensures Step(v, id, now, e).eventSequence == v.eventSequence + (if Emitted(e).Some? then 1 else 0)
  {
  }

  /** A breakpoint event whose request carries no breakpoint id leaves the session exactly as it was. */
  lemma UntaggedBreakpointIgnored(v: SessionView, id: string, now: int, thread: ThreadRef, location: Location)
    requires |v.eventBuffer| <= DefaultEventBufferCapacity
    ensures Step(v, id, now, BreakpointEvent(None, thread, location)) == v
  {
  }

  /** A tagged breakpoint hit: the hit is recorded, the thread selected at frame 0 and SUSPENDED, and the hit reported. */
  lemma StepOnHit(v: SessionView, id: string, now: int, bpId: string, thread: ThreadRef, location: Location)
    requires |v.eventBuffer| <= DefaultEventBufferCapacity
    ensures Step(v, id, now, BreakpointEvent(Some(bpId), thread, location)) ==
      Dispatched(
        v.(state := Suspended, selectedThreadId := thread.uniqueId, selectedFrameIndex := 0,
           breakpointInfos := HitRecorded(v.breakpointInfos, bpId),
           threadsAtBreakpoints := v.threadsAtBreakpoints[thread.uniqueId := bpId]),
        id, now, BreakpointHit(bpId, LocationOf(thread, location)))
  {
  }

  /** A completed step: the thread is selected at frame 0 and SUSPENDED, its step request deleted, and the step reported. */
  lemma StepOnStep(v: SessionView, id: string, now: int, h: nat, thread: ThreadRef, location: Location)
    requires |v.eventBuffer| <= DefaultEventBufferCapacity
    ensures Step(v, id, now, StepEvent(h, thread, location)) ==
      Dispatched(
        v.(state := Suspended, selectedThreadId := thread.uniqueId, selectedFrameIndex := 0,
           requests := Delete(v.requests, h)),
        id, now, StepCompleted(LocationOf(thread, location)))
  {
  }

  /** An exception: the thread is selected at frame 0 and SUSPENDED, and the exception reported at the catch location if any. */
  lemma StepOnException(v: SessionView, id: string, now: int, thread: ThreadRef, location: Location,
                        catchLocation: Option<Location>, exceptionClass: string, message: Option<string>)
    requires |v.eventBuffer| <= DefaultEventBufferCapacity
    ensures Step(v, id, now, ExceptionEvent(thread, location, catchLocation, exceptionClass, message)) ==
      Dispatched(
        v.(state := Suspended, selectedThreadId := thread.uniqueId, selectedFrameIndex := 0),
        id, now,
        ExceptionThrown(exceptionClass, message.GetOr(""), catchLocation.Some?,
                        LocationOf(thread, if catchLocation.Some? then catchLocation.value else location)))
  {
  }

  /** Thread start and death events change nothing but the event buffer and its counters. */
  lemma StepOnThreadEvent(v: SessionView, id: string, now: int, e: JdiEvent)
    requires |v.eventBuffer| <= DefaultEventBufferCapacity
    requires e.ThreadStartEvent? || e.ThreadDeathEvent?
    ensures Step(v, id, now, e) ==
      Dispatched(v, id, now, if e.ThreadStartEvent? then ThreadStarted(InfoOf(e.thread)) else ThreadDied(e.thread.uniqueId, e.thread.name))
  {
  }

  /** A class-prepare event changes only the request table, and dispatches nothing. */
  lemma StepOnClassPrepare(v: SessionView, id: string, now: int, h: nat, bpId: Option<string>, lineNumber: Option<int>,
                           methodName: Option<string>, c: LoadedClass)
    requires |v.eventBuffer| <= DefaultEventBufferCapacity
    ensures Step(v, id, now, ClassPrepareEvent(h, bpId, lineNumber, methodName, c)) ==
      v.(requests := if bpId.None? then v.requests else Delete(v.requests + DeferredRequests(c, lineNumber, methodName, bpId.value), h))
  {
  }

  /** An event the processor does not handle changes nothing. */
  lemma StepOnOther(v: SessionView, id: string, now: int)
    requires |v.eventBuffer| <= DefaultEventBufferCapacity
    ensures Step(v, id, now, OtherEvent) == v
  {
  }

  /** VM death: TERMINATED, reported with exit code 0. */
  lemma StepOnVmDeath(v: SessionView, id: string, now: int)
    requires |v.eventBuffer| <= DefaultEventBufferCapacity
    ensures Step(v, id, now, VmDeathEvent) == Dispatched(v.(state := Terminated), id, now, VmDeath(0))
  {
  }

  /** VM disconnect: DISCONNECTED, reported as such. */
  lemma StepOnDisconnect(v: SessionView, id: string, now: int)
    requires |v.eventBuffer| <= DefaultEventBufferCapacity
    ensures Step(v, id, now, VmDisconnectEvent) == Dispatched(v.(state := Disconnected), id, now, VmDisconnect("VM disconnected"))
  {
  }

  /**
   * A breakpoint hit on a known breakpoint whose count is below Integer.MAX_VALUE raises that
   * count by exactly one and leaves every other breakpoint's info alone; the thread is mapped to
   * the breakpoint and selected at frame 0.
   */
  lemma BreakpointHitCounts(v: SessionView, id: string, now: int, bpId: string, thread: ThreadRef, location: Location)
    requires |v.eventBuffer| <= DefaultEventBufferCapacity
    requires bpId in v.breakpointInfos && 0 <= v.breakpointInfos[bpId].hitCount < Values.Int32Max
    ensures var r := Step(v, id, now, BreakpointEvent(Some(bpId), thread, location));
      r.breakpointInfos.Keys == v.breakpointInfos.Keys &&
      r.breakpointInfos[bpId].hitCount == v.breakpointInfos[bpId].hitCount + 1 &&
      (forall k | k in v.breakpointInfos && k != bpId :: r.breakpointInfos[k] == v.breakpointInfos[k]) &&
      r.threadsAtBreakpoints[thread.uniqueId] == bpId &&
      r.selectedThreadId == thread.uniqueId && r.selectedFrameIndex == 0 && r.state == Suspended
  {
    HitCountIncrements(v.breakpointInfos[bpId].hitCount);
  }

  /**
   * Materialising a deferred breakpoint adds its requests but leaves the registries as they
   * were: the id stays unknown to `breakpoints`, so removing or disabling the breakpoint later
   * cannot reach the new requests.
   */
  lemma DeferredNotRegistered(v: SessionView, id: string, now: int, e: JdiEvent)
    requires |v.eventBuffer| <= DefaultEventBufferCapacity
    requires e.ClassPrepareEvent? && e.deferredBreakpointId.Some?
    ensures var r := Step(v, id, now, e);
      r.breakpoints == v.breakpoints && r.breakpointInfos == v.breakpointInfos && r.eventBuffer == v.eventBuffer &&
      r.requests == Delete(v.requests + DeferredRequests(e.referenceType, e.lineNumber, e.methodName, e.deferredBreakpointId.value), e.handle)
  {
  }

  /**
   * A run of events processed in order, `times[i]` being the clock at event `i`: the view after
   * the last one. The buffer invariant holds all along, one number is handed out per dispatched
   * event, and the breakpoint registries are never touched.
   */
  function Steps(v: SessionView, id: string, batch: seq<JdiEvent>, times: seq<int>): (r: SessionView)
    requires |times| == |batch|
    requires BufferOk(v.eventBuffer, v.eventSequence)
    ensures BufferOk(r.eventBuffer, r.eventSequence)
    ensures r.eventSequence == v.eventSequence + EmittedCount(batch)
    ensures r.breakpoints == v.breakpoints && r.exceptionBreakpoints == v.exceptionBreakpoints
    ensures r.exceptionInfos == v.exceptionInfos
    decreases |batch|
  {
    if batch == [] then v
    else
      var n := |batch| - 1;
      var prev := Steps(v, id, batch[..n], times[..n]);
      StepKeepsBuffer(prev, id, times[n], batch[n]);
      StepFields(prev, id, times[n], batch[n]);
      Step(prev, id, times[n], batch[n])
  }

  /** The run through event `i` is the run before it followed by one step. */
  lemma StepsSnoc(v: SessionView, id: string, batch: seq<JdiEvent>, times: seq<int>, i: nat)
    requires |times| == |batch| && i < |batch|
    requires BufferOk(v.eventBuffer, v.eventSequence)
    ensures |Steps(v, id, batch[..i], times[..i]).eventBuffer| <= DefaultEventBufferCapacity
    ensures Steps(v, id, batch[..i + 1], times[..i + 1]) == Step(Steps(v, id, batch[..i], times[..i]), id, times[i], batch[i])
  {
    assert batch[..i + 1][..i] == batch[..i] && times[..i + 1][..i] == times[..i];
  }

  // ---------------------------------------------------------------- the processor

  /** Two views agreeing on every part are the same view. */
  lemma SameView(a: SessionView, b: SessionView)
    requires a.state == b.state && a.selectedThreadId == b.selectedThreadId && a.selectedFrameIndex == b.selectedFrameIndex
    requires a.breakpoints == b.breakpoints && a.exceptionBreakpoints == b.exceptionBreakpoints
    requires a.breakpointInfos == b.breakpointInfos && a.exceptionInfos == b.exceptionInfos
    requires a.threadsAtBreakpoints == b.threadsAtBreakpoints && a.requests == b.requests
    requires a.eventBuffer == b.eventBuffer && a.eventSequence == b.eventSequence && a.eventsDropped == b.eventsDropped
    ensures a == b
  {
  }

  lemma BufferBound(b: seq<DebugEvent>, last: nat)
    requires BufferOk(b, last)
    ensures |b| <= DefaultEventBufferCapacity
  {
  }

  class EventProcessor {
    const session: DebugSession

    constructor (session: DebugSession)
      ensures this.session == session
    {
      this.session := session;
    }

    /** Builds the DebugEvent with the session's id at time `now`, and dispatches it. */
    method Dispatch(now: int, p: Payload)
      requires session.Valid()
      modifies session`eventBuffer, session`eventSequence, session`eventsDropped
      ensures session.Valid()
      ensures ViewOf(session) == Dispatched(old(ViewOf(session)), session.id, now, p)
    {
      hide ViewOf, Offer, BufferOk;
      ViewFields(session);
      ghost var v := ViewOf(session);
      BufferBound(session.eventBuffer, session.eventSequence);
      var _ := session.DispatchEvent(DebugEvent(now, session.id, 0, "", p));
      ViewFields(session);
      SameView(ViewOf(session), Dispatched(v, session.id, now, p));
    }

    /** `handleBreakpointEvent`: a request without a breakpoint id is ignored; otherwise the hit is recorded and reported. */
    method HandleBreakpointEvent(now: int, bpId: Option<string>, thread: ThreadRef, location: Location)
      requires session.Valid()
      modifies session`breakpointInfos, session`threadsAtBreakpoints, session`selectedThreadId, session`selectedFrameIndex
      modifies session`state, session`eventBuffer, session`eventSequence, session`eventsDropped
      ensures session.Valid()
      ensures ViewOf(session) == Step(old(ViewOf(session)), session.id, now, BreakpointEvent(bpId, thread, location))
    {
      hide Step, ViewOf, Dispatched, Offer, HitRecorded, Delete, LocationOf, InfoOf, Emitted, BufferOk;
      ViewFields(session);
      ghost var v := ViewOf(session);
      BufferBound(session.eventBuffer, session.eventSequence);
      if bpId.None? {
        UntaggedBreakpointIgnored(v, session.id, now, thread, location);
        return;
      }
      StepOnHit(v, session.id, now, bpId.value, thread, location);
      session.HandleBreakpointHit(bpId.value, thread);
      ViewFields(session);
      SameView(ViewOf(session),
        v.(state := Suspended, selectedThreadId := thread.uniqueId, selectedFrameIndex := 0,
           breakpointInfos := HitRecorded(v.breakpointInfos, bpId.value),
           threadsAtBreakpoints := v.threadsAtBreakpoints[thread.uniqueId := bpId.value]));
      Dispatch(now, BreakpointHit(bpId.value, LocationOf(thread, location)));
    }

    /** Selects the thread at its top frame and marks the session SUSPENDED, as the step and exception handlers do. */
    method SelectStopped(thread: ThreadRef)
      modifies session`selectedThreadId, session`selectedFrameIndex, session`state
      ensures session.selectedThreadId == thread.uniqueId && session.selectedFrameIndex == 0
      ensures session.state == Suspended
    {
      session.SetSelectedThreadId(thread.uniqueId);
      session.SetSelectedFrameIndex(0);
      session.SetState(Suspended);
    }

    /** `handleStepEvent`: selects the thread, suspends, deletes the step request and reports the step. */
    method HandleStepEvent(now: int, h: nat, thread: ThreadRef, location: Location)
      requires session.Valid()
      modifies session`selectedThreadId, session`selectedFrameIndex, session`state, session`requests
      modifies session`eventBuffer, session`eventSequence, session`eventsDropped
      ensures session.Valid()
      ensures ViewOf(session) == Step(old(ViewOf(session)), session.id, now, StepEvent(h, thread, location))
    {
      hide Step, ViewOf, Dispatched, Offer, HitRecorded, Delete, LocationOf, InfoOf, Emitted, BufferOk;
      ViewFields(session);
      ghost var v := ViewOf(session);
      BufferBound(session.eventBuffer, session.eventSequence);
      StepOnStep(v, session.id, now, h, thread, location);
      SelectStopped(thread);
      session.DeleteRequest(h);
      ViewFields(session);
      SameView(ViewOf(session),
        v.(state := Suspended, selectedThreadId := thread.uniqueId, selectedFrameIndex := 0, requests := Delete(v.requests, h)));
      Dispatch(now, StepCompleted(LocationOf(thread, location)));
    }

    /**
     * `handleExceptionEvent`: selects the thread and suspends; the report is located at the
     * catch location when there is one, else where the exception was thrown.
     */
    method HandleExceptionEvent(now: int, thread: ThreadRef, location: Location, catchLocation: Option<Location>,
                                exceptionClass: string, message: Option<string>)
      requires session.Valid()
      modifies session`selectedThreadId, session`selectedFrameIndex, session`state
      modifies session`eventBuffer, session`eventSequence, session`eventsDropped
      ensures session.Valid()
      ensures ViewOf(session) ==
        Step(old(ViewOf(session)), session.id, now, ExceptionEvent(thread, location, catchLocation, exceptionClass, message))
    {
      hide Step, ViewOf, Dispatched, Offer, HitRecorded, Delete, LocationOf, InfoOf, Emitted, BufferOk;
      ViewFields(session);
      ghost var v := ViewOf(session);
      BufferBound(session.eventBuffer, session.eventSequence);
      StepOnException(v, session.id, now, thread, location, catchLocation, exceptionClass, message);
      SelectStopped(thread);
      ViewFields(session);
      SameView(ViewOf(session), v.(state := Suspended, selectedThreadId := thread.uniqueId, selectedFrameIndex := 0));
      var at := if catchLocation.Some? then catchLocation.value else location;
      Dispatch(now, ExceptionThrown(exceptionClass, message.GetOr(""), catchLocation.Some?, LocationOf(thread, at)));
    }

    /** `handleThreadStartEvent` and `handleThreadDeathEvent`: only a report. */
    method HandleThreadEvent(now: int, e: JdiEvent)
      requires e.ThreadStartEvent? || e.ThreadDeathEvent?
      requires session.Valid()
      modifies session`eventBuffer, session`eventSequence, session`eventsDropped
      ensures session.Valid()
      ensures ViewOf(session) == Step(old(ViewOf(session)), session.id, now, e)
    {
      hide Step, ViewOf, Dispatched, Offer, HitRecorded, Delete, LocationOf, InfoOf, Emitted, BufferOk;
      ViewFields(session);
      BufferBound(session.eventBuffer, session.eventSequence);
      StepOnThreadEvent(ViewOf(session), session.id, now, e);
      if e.ThreadStartEvent? {
        Dispatch(now, ThreadStarted(InfoOf(e.thread)));
      } else {
        Dispatch(now, ThreadDied(e.thread.uniqueId, e.thread.name));
      }
    }

    /** `handleVmDeathEvent`: TERMINATED, reported with exit code 0. */
    method HandleVmDeathEvent(now: int)
      requires session.Valid()
      modifies session`state, session`eventBuffer, session`eventSequence, session`eventsDropped
      ensures session.Valid()
      ensures ViewOf(session) == Step(old(ViewOf(session)), session.id, now, VmDeathEvent)
    {
      hide Step, ViewOf, Dispatched, Offer, HitRecorded, Delete, LocationOf, InfoOf, Emitted, BufferOk;
      ViewFields(session);
      ghost var v := ViewOf(session);
      BufferBound(session.eventBuffer, session.eventSequence);
      StepOnVmDeath(v, session.id, now);
      session.SetState(Terminated);
      ViewFields(session);
      SameView(ViewOf(session), v.(state := Terminated));
      Dispatch(now, VmDeath(0));
    }

    /**
     * `handleVmDisconnectEvent`, and equally the loop's handling of VMDisconnectedException:
     * the session is DISCONNECTED and clients get a VmDisconnect event.
     */
    method HandleDisconnect(now: int)
      requires session.Valid()
      modifies session`state, session`eventBuffer, session`eventSequence, session`eventsDropped
      ensures session.Valid()
      ensures ViewOf(session) == Step(old(ViewOf(session)), session.id, now, VmDisconnectEvent)
    {
      hide Step, ViewOf, Dispatched, Offer, HitRecorded, Delete, LocationOf, InfoOf, Emitted, BufferOk;
      ViewFields(session);
      ghost var v := ViewOf(session);
      BufferBound(session.eventBuffer, session.eventSequence);
      StepOnDisconnect(v, session.id, now);
      session.SetState(Disconnected);
      ViewFields(session);
      SameView(ViewOf(session), v.(state := Disconnected));
      Dispatch(now, VmDisconnect("VM disconnected"));
    }

    /**
     * `handleClassPrepareEvent`: a watch without a deferred breakpoint id is ignored; otherwise
     * the breakpoint's requests are created and the watch is deleted.
     */
    method HandleClassPrepareEvent(h: nat, bpId: Option<string>, lineNumber: Option<int>, methodName: Option<string>,
                                   c: LoadedClass)
      modifies session`requests
      ensures session.requests ==
        if bpId.None? then old(session.requests)
        else Delete(old(session.requests) + DeferredRequests(c, lineNumber, methodName, bpId.value), h)
    {
      if bpId.None? {
        return;
      }
      if lineNumber.Some? && lineNumber.value > 0 {
        var l := FirstLocationOfLine(c, lineNumber.value);
        if l.Some? {
          var _ := session.Install(BreakpointRequest(l.value, Some(bpId.value), true));
        }
        assert DeferredRequests(c, lineNumber, methodName, bpId.value) == Tagged(FirstOfLine(c, lineNumber.value), bpId.value);
      } else if methodName.Some? {
        var created := CreateAtLocated(session.requests, bpId.value, MethodsByName(c, methodName.value));
        session.requests := created;
        LocatedRequestsTagged(MethodsByName(c, methodName.value), bpId.value);
      }
      session.DeleteRequest(h);
    }

    /** `processEvent`: one step of the session. */
    method ProcessEvent(now: int, e: JdiEvent)
      requires session.Valid()
      modifies session
      ensures session.Valid()
      ensures ViewOf(session) == Step(old(ViewOf(session)), session.id, now, e)
      ensures session.host == old(session.host) && session.port == old(session.port) && session.pid == old(session.pid)
    {
      hide Step, ViewOf, Offer, BufferOk;
      BufferBound(session.eventBuffer, session.eventSequence);
      match e
      case BreakpointEvent(bpId, thread, location) =>
        HandleBreakpointEvent(now, bpId, thread, location);
      case StepEvent(h, thread, location) =>
        HandleStepEvent(now, h, thread, location);
      case ExceptionEvent(thread, location, catchLocation, exceptionClass, message) =>
        HandleExceptionEvent(now, thread, location, catchLocation, exceptionClass, message);
      case ThreadStartEvent(_) =>
        HandleThreadEvent(now, e);
      case ThreadDeathEvent(_) =>
        HandleThreadEvent(now, e);
      case VmDeathEvent =>
        HandleVmDeathEvent(now);
      case VmDisconnectEvent =>
        HandleDisconnect(now);
      case ClassPrepareEvent(h, bpId, lineNumber, methodName, c) =>
        ViewFields(session);
        StepOnClassPrepare(ViewOf(session), session.id, now, h, bpId, lineNumber, methodName, c);
        HandleClassPrepareEvent(h, bpId, lineNumber, methodName, c);
        ViewFields(session);
      case OtherEvent =>
        ViewFields(session);
        StepOnOther(ViewOf(session), session.id, now);
    }

    /**
     * One turn of the processor's loop on an event set: every event is processed in order
     * (`times[i]` is the clock at event `i`), and the answer is whether to resume.
     */
    method ProcessEventSet(batch: seq<JdiEvent>, times: seq<int>) returns (resume: bool)
      requires |times| == |batch|
      requires session.Valid()
      modifies session
      ensures session.Valid()
      ensures resume == ShouldResume(batch)
      ensures ViewOf(session) == Steps(old(ViewOf(session)), session.id, batch, times)
      ensures session.host == old(session.host) && session.port == old(session.port) && session.pid == old(session.pid)
    {
      hide Step, ViewOf, Offer, BufferOk;
      ViewFields(session);
      var i := 0;
      assert batch[..0] == [] && times[..0] == [];
      while i < |batch|
        invariant 0 <= i <= |batch|
        invariant session.Valid()
        invariant ViewOf(session) == Steps(old(ViewOf(session)), session.id, batch[..i], times[..i])
        invariant session.host == old(session.host) && session.port == old(session.port) && session.pid == old(session.pid)
      {
        StepsSnoc(old(ViewOf(session)), session.id, batch, times, i);
        ProcessEvent(times[i], batch[i]);
        i := i + 1;
      }
      assert batch[..|batch|] == batch && times[..|times|] == times;
      resume := ShouldResume(batch);
    }
  }
}
