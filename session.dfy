/**
 * The DebugSession: one attached VM with its breakpoint and exception-breakpoint registries,
 * the thread selection, the lifecycle state, and the bounded event buffer that clients poll.
 * The VM's EventRequestManager is folded in as the map `requests` from request handles to
 * requests; what the VM reports (`classesByName`, `allThreads`) is passed to each operation.
 */
module Session {
  import opened Wrappers
  import opened Jdi
  import Values
  import Strs

  /** DEFAULT_EVENT_BUFFER_CAPACITY: the event deque holds at most this many events. */
  const DefaultEventBufferCapacity: nat := 1000

  datatype SessionState = Connected | Running | Suspended | Disconnected | Terminated

  datatype SessionType = AttachedRemote | AttachedLocal

  // ---------------------------------------------------------------- events sent to clients

  datatype ThreadLocation = ThreadLocation(
    threadId: int, threadName: string, className: string, methodName: string, lineNumber: int, sourceName: string)

  datatype ThreadStatus =
    | StatusUnknown | StatusZombie | StatusRunning | StatusSleeping | StatusMonitor | StatusWait | StatusNotStarted

  datatype ThreadInfo = ThreadInfo(
    id: int, name: string, suspended: bool, status: ThreadStatus, threadGroup: string, frameCount: int)

  /** The one-of body of a DebugEvent. */
  datatype Payload =
    | BreakpointHit(breakpointId: string, location: ThreadLocation)
    | StepCompleted(location: ThreadLocation)
    | ExceptionThrown(exceptionClass: string, message: string, caught: bool, location: ThreadLocation)
    | ThreadStarted(thread: ThreadInfo)
    | ThreadDied(threadId: int, threadName: string)
    | VmDeath(exitCode: int)
    | VmDisconnect(reason: string)

  /**
   * A DebugEvent message. Nothing in the server sets `eventType`, so every event carries the
   * message default "" there.
   */
  datatype DebugEvent = DebugEvent(
    timestamp: int, sessionId: string, sequenceNumber: int, eventType: string, payload: Payload)

  // ---------------------------------------------------------------- the event buffer

  /**
   * The buffer's invariant: within capacity, sequence numbers strictly increasing from head to
   * tail, and every number between 1 and the last one handed out.
   */
  predicate BufferOk(b: seq<DebugEvent>, last: nat) {
    |b| <= DefaultEventBufferCapacity && Ascending(b) &&
    (forall i :: 0 <= i < |b| ==> 1 <= b[i].sequenceNumber <= last)
  }

  /** `offerLast`, and when that fails on a full deque `pollFirst` then `offerLast`. */
  function Offer(b: seq<DebugEvent>, e: DebugEvent): seq<DebugEvent>
    requires |b| <= DefaultEventBufferCapacity
  {
    if |b| < DefaultEventBufferCapacity then b + [e] else b[1..] + [e]
  }

  /** The offered event becomes the tail; below capacity nothing is lost, at capacity only the oldest event. */
  lemma OfferShape(b: seq<DebugEvent>, e: DebugEvent)
    requires |b| <= DefaultEventBufferCapacity
    ensures var r := Offer(b, e);
      |r| == (if |b| < DefaultEventBufferCapacity then |b| + 1 else DefaultEventBufferCapacity) &&
      r[|r| - 1] == e && r[..|r| - 1] == b[|b| + 1 - |r|..]
  {
    if |b| < DefaultEventBufferCapacity {
      assert (b + [e])[..|b|] == b;
    } else {
      assert (b[1..] + [e])[..|b| - 1] == b[1..];
    }
  }

  /** The new event goes to the tail with the next number, so the buffer stays well formed. */
  lemma OfferKeepsBuffer(b: seq<DebugEvent>, last: nat, e: DebugEvent)
    requires BufferOk(b, last)
    requires e.sequenceNumber == last + 1
    ensures BufferOk(Offer(b, e), last + 1)
  {
    var r := Offer(b, e);
    OfferShape(b, e);
    var d := |b| + 1 - |r|;
    forall i | 0 <= i < |r| - 1 ensures r[i] == b[d + i] {
      assert r[..|r| - 1][i] == r[i];
    }
    forall i, j | 0 <= i < j < |r| ensures r[i].sequenceNumber < r[j].sequenceNumber {
      if j < |r| - 1 {
        assert r[i] == b[d + i] && r[j] == b[d + j];
      } else {
        assert r[i] == b[d + i];
      }
    }
  }

  /** An event passes the filter when the filter is empty or lists its type. */
  predicate Matches(e: DebugEvent, types: seq<string>) {
    types == [] || e.eventType in types
  }

  /** The events of `s` that pass the filter, in order. */
  function Matching(s: seq<DebugEvent>, types: seq<string>): (r: seq<DebugEvent>)
    ensures |r| <= |s|
    ensures forall e | e in r :: e in s && Matches(e, types)
  {
    if s == [] then [] else (if Matches(s[0], types) then [s[0]] else []) + Matching(s[1..], types)
  }

  /** `limit > 0 ? limit : Integer.MAX_VALUE`. */
  function MaxEvents(limit: int): (n: nat)
    ensures n > 0
  {
    if limit > 0 then limit else Values.Int32Max
  }

  /**
   * What `pollEvents` takes out of `b` when it may still deliver `room` events: the delivered
   * events and what stays buffered.
   */
  function Poll(b: seq<DebugEvent>, room: nat, types: seq<string>): (r: (seq<DebugEvent>, seq<DebugEvent>))
    decreases |b|
  {
    if room == 0 || b == [] then ([], b)
    else if Matches(b[0], types) then
      var (taken, rest) := Poll(b[1..], room - 1, types);
      ([b[0]] + taken, rest)
    else Poll(b[1..], room, types)
  }

  /**
   * Polling removes a prefix of the buffer and delivers exactly the matching events of that
   * prefix, in buffer order; it stops early only when `room` events have been delivered.
   */
  lemma {:induction false} PollDrainsPrefix(b: seq<DebugEvent>, room: nat, types: seq<string>)
    ensures DrainsPrefix(b, room, types)
    decreases |b|
  {
    if room == 0 || b == [] {
      assert b[..0] == [];
    } else {
      var room' := if Matches(b[0], types) then room - 1 else room;
      PollDrainsPrefix(b[1..], room', types);
      PollDrainsStep(b, room, types);
    }
  }

  /** The facts about one poll: a drained prefix, its matching events delivered, and the bound on them. */
  predicate DrainsPrefix(b: seq<DebugEvent>, room: nat, types: seq<string>) {
    var (taken, rest) := Poll(b, room, types);
    var k := |b| - |rest|;
    0 <= k <= |b| && rest == b[k..] && taken == Matching(b[..k], types) &&
    |taken| <= room && (rest != [] ==> |taken| == room)
  }

  lemma PollDrainsStep(b: seq<DebugEvent>, room: nat, types: seq<string>)
    requires room != 0 && b != []
    requires DrainsPrefix(b[1..], if Matches(b[0], types) then room - 1 else room, types)
    ensures DrainsPrefix(b, room, types)
  {
    var room' := if Matches(b[0], types) then room - 1 else room;
    var (taken', rest') := Poll(b[1..], room', types);
    var k' := |b| - 1 - |rest'|;
    var head := if Matches(b[0], types) then [b[0]] else [];
    if !Matches(b[0], types) {
      assert head + taken' == taken';
    }
    assert Poll(b, room, types) == (head + taken', rest');
    assert b[..k' + 1][1..] == b[1..][..k'];
    assert Matching(b[..k' + 1], types) == head + Matching(b[1..][..k'], types);
    hide Poll, Matching;
    assert rest' == b[1..][k'..] == b[k' + 1..];
  }

  /** With no limit and no filter, a poll delivers the whole buffer and empties it. */
  lemma {:induction false} PollAll(b: seq<DebugEvent>, room: nat)
    requires |b| <= room
    ensures Poll(b, room, []) == (b, [])
    decreases |b|
  {
    if b != [] {
      PollAll(b[1..], room - 1);
      assert [b[0]] + b[1..] == b;
    }
  }

  /**
   * Every event the server dispatches has the empty type, so a filter that does not list ""
   * delivers nothing and still drains the whole buffer.
   */
  lemma {:induction false} PollWithTypeFilterDrains(b: seq<DebugEvent>, room: nat, types: seq<string>)
    requires room > 0
    requires types != [] && "" !in types
    requires forall i :: 0 <= i < |b| ==> b[i].eventType == ""
    ensures Poll(b, room, types) == ([], [])
    decreases |b|
  {
    if b != [] {
      assert !Matches(b[0], types);
      PollWithTypeFilterDrains(b[1..], room, types);
    }
  }

  /** Sequence numbers strictly increase from head to tail. */
  predicate Ascending(s: seq<DebugEvent>) {
    forall i, j :: 0 <= i < j < |s| ==> s[i].sequenceNumber < s[j].sequenceNumber
  }

  /** Polling delivers events taken from the buffer and leaves a suffix of it behind. */
  lemma {:induction false} PollTakesFromBuffer(b: seq<DebugEvent>, room: nat, types: seq<string>)
    ensures forall e | e in Poll(b, room, types).0 :: e in b
    ensures |Poll(b, room, types).1| <= |b|
    ensures Poll(b, room, types).1 == b[|b| - |Poll(b, room, types).1|..]
    decreases |b|
  {
    if room != 0 && b != [] {
      var room' := if Matches(b[0], types) then room - 1 else room;
      PollTakesFromBuffer(b[1..], room', types);
      var rest := Poll(b[1..], room', types).1;
      assert b[1..][|b[1..]| - |rest|..] == b[|b| - |rest|..];
    }
  }

  /** Delivered events come out in strictly increasing sequence order. */
  lemma {:induction false} PollAscending(b: seq<DebugEvent>, room: nat, types: seq<string>)
    requires Ascending(b)
    ensures Ascending(Poll(b, room, types).0)
    decreases |b|
  {
    if room != 0 && b != [] {
      var room' := if Matches(b[0], types) then room - 1 else room;
      assert Ascending(b[1..]) by {
        forall i, j | 0 <= i < j < |b[1..]| ensures b[1..][i].sequenceNumber < b[1..][j].sequenceNumber {
          assert b[1..][i] == b[i + 1] && b[1..][j] == b[j + 1];
        }
      }
      PollAscending(b[1..], room', types);
      PollTakesFromBuffer(b[1..], room', types);
      var taken' := Poll(b[1..], room', types).0;
      if Matches(b[0], types) {
        var taken := [b[0]] + taken';
        forall j | 0 < j < |taken| ensures b[0].sequenceNumber < taken[j].sequenceNumber {
          assert taken[j] == taken'[j - 1] && taken'[j - 1] in b[1..];
        }
        forall i, j | 0 <= i < j < |taken| ensures taken[i].sequenceNumber < taken[j].sequenceNumber {
          if i > 0 {
            assert taken[i] == taken'[i - 1] && taken[j] == taken'[j - 1];
          }
        }
      }
    }
  }

  lemma BufferSuffixOk(b: seq<DebugEvent>, last: nat, d: nat)
    requires BufferOk(b, last) && d <= |b|
    ensures BufferOk(b[d..], last)
  {
    forall i, j | 0 <= i < j < |b[d..]| ensures b[d..][i].sequenceNumber < b[d..][j].sequenceNumber {
      assert b[d..][i] == b[d + i] && b[d..][j] == b[d + j];
    }
  }

  /** Delivered events keep the buffer's strictly increasing sequence numbers, and what is left is a valid buffer. */
  lemma PollInSequence(b: seq<DebugEvent>, last: nat, room: nat, types: seq<string>)
    requires BufferOk(b, last)
    ensures Ascending(Poll(b, room, types).0)
    ensures BufferOk(Poll(b, room, types).1, last)
  {
    PollAscending(b, room, types);
    PollTakesFromBuffer(b, room, types);
    BufferSuffixOk(b, last, |b| - |Poll(b, room, types).1|);
  }

  /** The EventInfoResponse; an absent timestamp is the message default 0. */
  datatype EventInfo = EventInfo(
    bufferedCount: int, bufferCapacity: int, eventsDropped: bool, oldestEventTimestamp: int, newestEventTimestamp: int)

  // ---------------------------------------------------------------- breakpoint registries

  datatype BreakpointType = LineBreakpoint | MethodBreakpoint

  datatype BreakpointInfo = BreakpointInfo(
    id: string,
    className: string,
    lineNumber: int,
    methodName: Option<string>,
    condition: Option<string>,
    enabled: bool,
    hitCount: int)
  {
    function Type(): (t: BreakpointType)
      ensures t == MethodBreakpoint <==> methodName.Some?
    {
      if methodName.Some? then MethodBreakpoint else LineBreakpoint
    }

    /** `Class.method` for a method breakpoint, `Class:line` for a line breakpoint. */
    function LocationString(): (s: string)
      ensures methodName.Some? ==> Strs.StartsWith(s, className + ".")
      ensures methodName.None? ==> Strs.StartsWith(s, className + ":")
    {
      if methodName.Some? then className + "." + methodName.value
      else className + ":" + Strs.IntToString(lineNumber)
    }
  }

  /** A freshly created BreakpointInfo: enabled, never hit. */
  function NewBreakpointInfo(id: string, className: string, lineNumber: int, methodName: Option<string>,
                             condition: Option<string>): (info: BreakpointInfo)
    ensures info.enabled && info.hitCount == 0
    ensures info.id == id && info.className == className && info.lineNumber == lineNumber
    ensures info.methodName == methodName && info.condition == condition
  {
    BreakpointInfo(id, className, lineNumber, methodName, condition, true, 0)
  }

  /** A line breakpoint's location string gives back the class (before the last ':') and the line. */
  lemma LineLocationReadsBack(info: BreakpointInfo)
    requires info.methodName.None? && info.lineNumber >= 0
    ensures var s := info.LocationString();
      Strs.LastIndexOf(s, ':') == |info.className| && s[..|info.className|] == info.className &&
      (forall i :: |info.className| < i < |s| ==> '0' <= s[i] <= '9') &&
      Strs.DecimalValue(s[|info.className| + 1..]) == info.lineNumber
  {
    var s := info.LocationString();
    var digits := Strs.NatToString(info.lineNumber);
    assert s == info.className + [':'] + digits;
    Strs.LastIndexOfJoin(info.className, ':', digits);
    assert s[|info.className| + 1..] == digits;
    Strs.DecimalOfNatToString(info.lineNumber);
  }

  /** Likewise a method breakpoint's string gives back the class and the method name. */
  lemma MethodLocationReadsBack(info: BreakpointInfo)
    requires info.methodName.Some?
    requires forall i :: 0 <= i < |info.methodName.value| ==> info.methodName.value[i] != '.'
    ensures var s := info.LocationString();
      Strs.LastIndexOf(s, '.') == |info.className| &&
      s[..|info.className|] == info.className && s[|info.className| + 1..] == info.methodName.value
  {
    var s := info.LocationString();
    assert s == info.className + ['.'] + info.methodName.value;
    Strs.LastIndexOfJoin(info.className, '.', info.methodName.value);
    assert s[|info.className| + 1..] == info.methodName.value;
  }

  /**
   * The infos after a hit on `bpId`: a known breakpoint's count goes up by one in Java `int`
   * arithmetic, and nothing else changes.
   */
  function HitRecorded(infos: map<string, BreakpointInfo>, bpId: string): (r: map<string, BreakpointInfo>)
    ensures r.Keys == infos.Keys
    ensures bpId in infos ==> r[bpId] == infos[bpId].(hitCount := Values.Wrap32(infos[bpId].hitCount + 1))
    ensures forall k | k in infos && k != bpId :: r[k] == infos[k]
  {
    if bpId in infos then infos[bpId := infos[bpId].(hitCount := Values.Wrap32(infos[bpId].hitCount + 1))] else infos
  }

  datatype ExceptionBreakpointInfo = ExceptionBreakpointInfo(
    id: string, exceptionClassName: string, caught: bool, uncaught: bool, enabled: bool)

  /** For each class, the first location of the line, when it has one. */
  function LineLocations(classes: seq<LoadedClass>, line: int): (locs: seq<Location>)
    ensures |locs| <= |classes|
    decreases |classes|
  {
    if classes == [] then []
    else LineLocations(classes[..|classes| - 1], line) + FirstOfLine(classes[|classes| - 1], line)
  }

  function FirstOfLine(c: LoadedClass, line: int): (locs: seq<Location>)
    ensures |locs| <= 1
    ensures |locs| == 1 <==> LocationsOfLine(c, line).Some? && LocationsOfLine(c, line).value != []
    ensures |locs| == 1 ==> locs[0] == LocationsOfLine(c, line).value[0]
  {
    match LocationsOfLine(c, line)
    case None => []
    case Some(ls) => if ls != [] then [ls[0]] else []
  }

  /** The locations of the methods with that name, class by class, skipping those without one. */
  function MethodLocations(classes: seq<LoadedClass>, name: string): (locs: seq<Location>)
    decreases |classes|
  {
    if classes == [] then []
    else MethodLocations(classes[..|classes| - 1], name) + Located(MethodsByName(classes[|classes| - 1], name))
  }

  function Located(ms: seq<MethodView>): (locs: seq<Location>)
    ensures |locs| <= |ms|
    ensures forall l | l in locs :: exists m | m in ms :: m.location == Some(l)
    decreases |ms|
  {
    if ms == [] then []
    else
      var last := ms[|ms| - 1];
      Located(ms[..|ms| - 1]) + (if last.location.Some? then [last.location.value] else [])
  }

  /** `locationsOfLine(line).get(0)` when that list is there and not empty. */
  method FirstLocationOfLine(c: LoadedClass, line: int) returns (l: Option<Location>)
    ensures FirstOfLine(c, line) == if l.Some? then [l.value] else []
  {
    var locations := LocationsOfLine(c, line);
    if locations.Some? && locations.value != [] {
      l := Some(locations.value[0]);
    } else {
      l := None;
    }
  }

  /**
   * The VM's EventRequestManager: the request created `h`-th has handle `h` and sits at index
   * `h`; deleting a request leaves None in its place, so handles are never reused.
   */
  type RequestTable = seq<Option<Request>>

  /** `deleteEventRequest`: an unknown or already deleted handle is left alone. */
  function Delete(rs: RequestTable, h: nat): (r: RequestTable)
    ensures |r| == |rs|
    ensures h < |rs| ==> r[h] == None
    ensures forall k :: 0 <= k < |rs| && k != h ==> r[k] == rs[k]
  {
    if h < |rs| then rs[h := None] else rs
  }

  /** The enabled breakpoint requests tagged `breakpointId = bpId` created at `locs`, in order. */
  function Tagged(locs: seq<Location>, bpId: string): (r: RequestTable)
    ensures |r| == |locs|
    decreases |locs|
  {
    if locs == [] then []
    else Tagged(locs[..|locs| - 1], bpId) + [Some(BreakpointRequest(locs[|locs| - 1], Some(bpId), true))]
  }

  lemma {:induction false} TaggedAppend(a: seq<Location>, b: seq<Location>, bpId: string)
    ensures Tagged(a + b, bpId) == Tagged(a, bpId) + Tagged(b, bpId)
    decreases |b|
  {
    if b == [] {
      assert a + b == a;
    } else {
      var n := |b| - 1;
      assert (a + b)[..|a + b| - 1] == a + b[..n];
      TaggedAppend(a, b[..n], bpId);
    }
  }

  /** What the loop of `addLineBreakpoint` creates, class by class. */
  function LineRequests(classes: seq<LoadedClass>, line: int, bpId: string): (r: RequestTable)
    decreases |classes|
  {
    if classes == [] then []
    else LineRequests(classes[..|classes| - 1], line, bpId) + Tagged(FirstOfLine(classes[|classes| - 1], line), bpId)
  }

  lemma {:induction false} LineRequestsTagged(classes: seq<LoadedClass>, line: int, bpId: string)
    ensures LineRequests(classes, line, bpId) == Tagged(LineLocations(classes, line), bpId)
    decreases |classes|
  {
    if classes != [] {
      var n := |classes| - 1;
      LineRequestsTagged(classes[..n], line, bpId);
      TaggedAppend(LineLocations(classes[..n], line), FirstOfLine(classes[n], line), bpId);
    }
  }

  /** What the inner loop of `addMethodBreakpoint` creates for one class's methods. */
  function LocatedRequests(ms: seq<MethodView>, bpId: string): (r: RequestTable)
    decreases |ms|
  {
    if ms == [] then []
    else
      var last := ms[|ms| - 1];
      LocatedRequests(ms[..|ms| - 1], bpId) +
      (if last.location.Some? then [Some(BreakpointRequest(last.location.value, Some(bpId), true))] else [])
  }

  lemma {:induction false} LocatedRequestsTagged(ms: seq<MethodView>, bpId: string)
    ensures LocatedRequests(ms, bpId) == Tagged(Located(ms), bpId)
    decreases |ms|
  {
    if ms != [] {
      var n := |ms| - 1;
      LocatedRequestsTagged(ms[..n], bpId);
      var here := if ms[n].location.Some? then [ms[n].location.value] else [];
      TaggedAppend(Located(ms[..n]), here, bpId);
    }
  }

  /** What the loops of `addMethodBreakpoint` create, class by class. */
  function MethodRequests(classes: seq<LoadedClass>, name: string, bpId: string): (r: RequestTable)
    decreases |classes|
  {
    if classes == [] then []
    else MethodRequests(classes[..|classes| - 1], name, bpId) + LocatedRequests(MethodsByName(classes[|classes| - 1], name), bpId)
  }

  lemma {:induction false} MethodRequestsTagged(classes: seq<LoadedClass>, name: string, bpId: string)
    ensures MethodRequests(classes, name, bpId) == Tagged(MethodLocations(classes, name), bpId)
    decreases |classes|
  {
    if classes != [] {
      var n := |classes| - 1;
      MethodRequestsTagged(classes[..n], name, bpId);
      LocatedRequestsTagged(MethodsByName(classes[n], name), bpId);
      TaggedAppend(MethodLocations(classes[..n], name), Located(MethodsByName(classes[n], name)), bpId);
    }
  }

  /** Request `i` of the tagged run is the enabled request at `locs[i]`, carrying the id. */
  lemma {:induction false} TaggedAt(locs: seq<Location>, bpId: string, i: nat)
    requires i < |locs|
    ensures Tagged(locs, bpId)[i] == Some(BreakpointRequest(locs[i], Some(bpId), true))
    decreases |locs|
  {
    if i < |locs| - 1 {
      TaggedAt(locs[..|locs| - 1], bpId, i);
    }
  }

  /**
   * When one id covers several requests (several methods of that name, or several loaded
   * classes), the registry keeps only the last handle: removing the breakpoint deletes that one
   * request and leaves the first one installed and enabled.
   */
  lemma RemoveLeavesEarlierRequests(rs: RequestTable, locs: seq<Location>, bpId: string)
    requires |locs| >= 2
    ensures var left := Delete(rs + Tagged(locs, bpId), |rs| + |locs| - 1);
      left[|rs|] == Some(BreakpointRequest(locs[0], Some(bpId), true))
  {
    TaggedAt(locs, bpId, 0);
    assert (rs + Tagged(locs, bpId))[|rs|] == Tagged(locs, bpId)[0];
  }

  /**
   * The registry after `n` requests for `bpId` were put under consecutive handles from `h`:
   * each put replaces the previous one, so only the last handle stays.
   */
  function Registered(m: map<string, nat>, bpId: string, h: nat, n: nat): (r: map<string, nat>)
    ensures n == 0 ==> r == m
    ensures n > 0 ==> bpId in r && r[bpId] == h + n - 1
    ensures forall k | k != bpId :: (k in r <==> k in m) && (k in m ==> r[k] == m[k])
  {
    if n == 0 then m else m[bpId := h + n - 1]
  }

  /**
   * The loop of `addLineBreakpoint` over the loaded classes: a request at the first location
   * of the line in each class that has one.
   */
  method CreateAtLine(rs: RequestTable, bpId: string, classes: seq<LoadedClass>, lineNumber: int) returns (reqs: RequestTable)
    ensures reqs == rs + Tagged(LineLocations(classes, lineNumber), bpId)
  {
    reqs := rs;
    var i := 0;
    while i < |classes|
      invariant 0 <= i <= |classes|
      invariant reqs == rs + LineRequests(classes[..i], lineNumber, bpId)
    {
      assert classes[..i + 1][..i] == classes[..i];
      var first := FirstLocationOfLine(classes[i], lineNumber);
      if first.Some? {
        reqs := reqs + [Some(BreakpointRequest(first.value, Some(bpId), true))];
      }
      i := i + 1;
    }
    assert classes[..|classes|] == classes;
    LineRequestsTagged(classes, lineNumber, bpId);
  }

  /** The inner loop of `addMethodBreakpoint`: a request at each of the methods that has a location. */
  method CreateAtLocated(rs: RequestTable, bpId: string, methods: seq<MethodView>) returns (reqs: RequestTable)
    ensures reqs == rs + LocatedRequests(methods, bpId)
  {
    reqs := rs;
    var j := 0;
    while j < |methods|
      invariant 0 <= j <= |methods|
      invariant reqs == rs + LocatedRequests(methods[..j], bpId)
    {
      assert methods[..j + 1][..j] == methods[..j];
      var location := methods[j].location;
      if location.Some? {
        reqs := reqs + [Some(BreakpointRequest(location.value, Some(bpId), true))];
      }
      j := j + 1;
    }
    assert methods[..|methods|] == methods;
  }

  lemma MethodRequestsStep(rs: RequestTable, classes: seq<LoadedClass>, i: nat, name: string, bpId: string)
    requires i < |classes|
    ensures rs + MethodRequests(classes[..i + 1], name, bpId) ==
            (rs + MethodRequests(classes[..i], name, bpId)) + LocatedRequests(MethodsByName(classes[i], name), bpId)
  {
    assert classes[..i + 1][..i] == classes[..i];
  }

  /**
   * The loops of `addMethodBreakpoint`: a request at every visible method of that name with a
   * location, class by class.
   */
  method CreateAtMethods(rs: RequestTable, bpId: string, classes: seq<LoadedClass>, methodName: string)
    returns (reqs: RequestTable)
    ensures reqs == rs + Tagged(MethodLocations(classes, methodName), bpId)
  {
    reqs := rs;
    var i := 0;
    while i < |classes|
      invariant 0 <= i <= |classes|
      invariant reqs == rs + MethodRequests(classes[..i], methodName, bpId)
    {
      var methods := MethodsByName(classes[i], methodName);
      assert classes[..i + 1][..i] == classes[..i];
      MethodRequestsStep(rs, classes, i, methodName, bpId);
      reqs := CreateAtLocated(reqs, bpId, methods);
      i := i + 1;
    }
    assert classes[..|classes|] == classes;
    MethodRequestsTagged(classes, methodName, bpId);
  }

  /** The first thread in `threads` with that unique id. */
  function FirstThread(threads: seq<ThreadRef>, threadId: int): (r: Option<ThreadRef>)
    ensures r.Some? ==> r.value in threads && r.value.uniqueId == threadId
    ensures r.None? <==> forall t | t in threads :: t.uniqueId != threadId
    ensures r.Some? ==> exists k :: 0 <= k < |threads| && threads[k] == r.value &&
                                    forall j :: 0 <= j < k ==> threads[j].uniqueId != threadId
  {
    if threads == [] then None
    else if threads[0].uniqueId == threadId then Some(threads[0])
    else
      var r := FirstThread(threads[1..], threadId);
      assert r.Some? ==> r.value == threads[1..][0 + (if r.Some? then IndexIn(threads[1..], r.value) else 0)];
      r
  }

  function IndexIn(threads: seq<ThreadRef>, t: ThreadRef): (k: nat)
    requires t in threads
    ensures k < |threads| && threads[k] == t
  {
    if threads[0] == t then 0 else 1 + IndexIn(threads[1..], t)
  }

  datatype SessionError = ThreadNotFound(threadId: int)

  // ---------------------------------------------------------------- the session

  class DebugSession {
    const id: string
    const kind: SessionType
    var host: Option<string>
    var port: int
    var pid: int
    var state: SessionState
    var selectedThreadId: int
    var selectedFrameIndex: int
    /** Breakpoint id to the handle of its installed BreakpointRequest. */
    var breakpoints: map<string, nat>
    /** Exception-breakpoint id to the handle of its ExceptionRequest. */
    var exceptionBreakpoints: map<string, nat>
    var breakpointInfos: map<string, BreakpointInfo>
    var exceptionInfos: map<string, ExceptionBreakpointInfo>
    var threadsAtBreakpoints: map<int, string>
    var eventBuffer: seq<DebugEvent>
    var eventSequence: nat
    var eventsDropped: bool
    /** The VM's event requests; the handle of a request is its index. */
    var requests: RequestTable

    ghost predicate Valid()
      reads this
    {
      BufferOk(eventBuffer, eventSequence)
    }

    constructor (id: string, kind: SessionType)
      ensures Valid()
      ensures this.id == id && this.kind == kind
      ensures state == Connected && selectedThreadId == 0 && selectedFrameIndex == 0
      ensures host == None && port == 0 && pid == 0
      ensures breakpoints == map[] && exceptionBreakpoints == map[] && threadsAtBreakpoints == map[]
      ensures breakpointInfos == map[] && exceptionInfos == map[]
      ensures eventBuffer == [] && eventSequence == 0 && !eventsDropped
      ensures requests == []
    {
      this.id := id;
      this.kind := kind;
      host, port, pid := None, 0, 0;
      state := Connected;
      selectedThreadId, selectedFrameIndex := 0, 0;
      breakpoints, exceptionBreakpoints := map[], map[];
      breakpointInfos, exceptionInfos := map[], map[];
      threadsAtBreakpoints := map[];
      eventBuffer, eventSequence, eventsDropped := [], 0, false;
      requests := [];
    }

    method SetHost(host: string)
      modifies this`host
      ensures this.host == Some(host)
    {
      this.host := Some(host);
    }

    method SetPort(port: int)
      modifies this`port
      ensures this.port == port
    {
      this.port := port;
    }

    method SetPid(pid: int)
      modifies this`pid
      ensures this.pid == pid
    {
      this.pid := pid;
    }

    method SetState(state: SessionState)
      modifies this`state
      ensures this.state == state
    {
      this.state := state;
    }

    method SetSelectedThreadId(threadId: int)
      modifies this`selectedThreadId
      ensures selectedThreadId == threadId
    {
      selectedThreadId := threadId;
    }

    method SetSelectedFrameIndex(index: int)
      modifies this`selectedFrameIndex
      ensures selectedFrameIndex == index
    {
      selectedFrameIndex := index;
    }

    /**
     * `getThread`: id 0 stands for the selected thread. With a selected id of 0 as well the
     * Java method calls itself without end, so that case is excluded.
     */
    method GetThread(threadId: int, threads: seq<ThreadRef>) returns (r: Option<ThreadRef>)
      requires threadId != 0 || selectedThreadId != 0
      ensures r == FirstThread(threads, if threadId != 0 then threadId else selectedThreadId)
    {
      var wanted := if threadId != 0 then threadId else selectedThreadId;
      var i := 0;
      while i < |threads|
        invariant 0 <= i <= |threads|
        invariant FirstThread(threads, wanted) == FirstThread(threads[i..], wanted)
      {
        if threads[i].uniqueId == wanted {
          return Some(threads[i]);
        }
        assert threads[i..][1..] == threads[i + 1..];
        i := i + 1;
      }
      return None;
    }

    /** Creates and enables a request; its handle is the next index. */
    method Install(r: Request) returns (h: nat)
      modifies this`requests
      ensures h == |old(requests)|
      ensures requests == old(requests) + [Some(r)]
    {
      h := |requests|;
      requests := requests + [Some(r)];
    }

    /** `deleteEventRequest`. */
    method DeleteRequest(h: nat)
      modifies this`requests
      ensures requests == Delete(old(requests), h)
    {
      if h < |requests| {
        requests := requests[h := None];
      }
    }

    /**
     * Takes the table extended by a breakpoint's requests; each new handle was put into the
     * registry under the id in turn, so the registry ends holding the last one.
     */
    method Register(bpId: string, extended: RequestTable)
      requires |extended| >= |requests|
      modifies this`requests, this`breakpoints
      ensures requests == extended
      ensures breakpoints == Registered(old(breakpoints), bpId, |old(requests)|, |extended| - |old(requests)|)
    {
      if |extended| > |requests| {
        breakpoints := breakpoints[bpId := |extended| - 1];
      }
      requests := extended;
    }

    /**
     * `addLineBreakpoint`: with no class of that name loaded, a class-prepare request carries
     * the breakpoint until the class loads; otherwise each loaded class gets a request at the
     * first location of the line. The info is recorded in both cases.
     */
    method AddLineBreakpoint(bpId: string, classes: seq<LoadedClass>, className: string, lineNumber: int,
                             condition: Option<string>) returns (r: string)
      modifies this`requests, this`breakpoints, this`breakpointInfos
      ensures r == bpId
      ensures breakpointInfos == old(breakpointInfos)[bpId := NewBreakpointInfo(bpId, className, lineNumber, None, condition)]
      ensures classes == [] ==>
        requests == old(requests) + [Some(ClassPrepareRequest(className, Some(bpId), Some(lineNumber), None, condition, true))] &&
        breakpoints == old(breakpoints)
      ensures classes != [] ==>
        var locs := LineLocations(classes, lineNumber);
        requests == old(requests) + Tagged(locs, bpId) &&
        breakpoints == Registered(old(breakpoints), bpId, |old(requests)|, |locs|)
    {
      if classes == [] {
        var _ := Install(ClassPrepareRequest(className, Some(bpId), Some(lineNumber), None, condition, true));
      } else {
        var created := CreateAtLine(requests, bpId, classes, lineNumber);
        Register(bpId, created);
      }
      breakpointInfos := breakpointInfos[bpId := NewBreakpointInfo(bpId, className, lineNumber, None, condition)];
      r := bpId;
    }

    /**
     * `addMethodBreakpoint`: as for a line, but every visible method of that name with a
     * location gets a request, all under the one id.
     */
    method AddMethodBreakpoint(bpId: string, classes: seq<LoadedClass>, className: string, methodName: string,
                               condition: Option<string>) returns (r: string)
      modifies this`requests, this`breakpoints, this`breakpointInfos
      ensures r == bpId
      ensures breakpointInfos == old(breakpointInfos)[bpId := NewBreakpointInfo(bpId, className, 0, Some(methodName), condition)]
      ensures classes == [] ==>
        requests == old(requests) + [Some(ClassPrepareRequest(className, Some(bpId), Some(0), Some(methodName), condition, true))] &&
        breakpoints == old(breakpoints)
      ensures classes != [] ==>
        var locs := MethodLocations(classes, methodName);
        requests == old(requests) + Tagged(locs, bpId) &&
        breakpoints == Registered(old(breakpoints), bpId, |old(requests)|, |locs|)
    {
      if classes == [] {
        var _ := Install(ClassPrepareRequest(className, Some(bpId), Some(0), Some(methodName), condition, true));
      } else {
        var created := CreateAtMethods(requests, bpId, classes, methodName);
        Register(bpId, created);
      }
      breakpointInfos := breakpointInfos[bpId := NewBreakpointInfo(bpId, className, 0, Some(methodName), condition)];
      r := bpId;
    }

    /** `removeBreakpoint`: deletes the registered request, if any, and drops the info, unconditionally. */
    method RemoveBreakpoint(bpId: string)
      modifies this`breakpoints, this`requests, this`breakpointInfos
      ensures breakpoints == old(breakpoints) - {bpId}
      ensures breakpointInfos == old(breakpointInfos) - {bpId}
      ensures requests == if bpId in old(breakpoints) then Delete(old(requests), old(breakpoints)[bpId]) else old(requests)
    {
      if bpId in breakpoints {
        var request := breakpoints[bpId];
        breakpoints := breakpoints - {bpId};
        DeleteRequest(request);
      }
      breakpointInfos := breakpointInfos - {bpId};
    }

    /** `setBreakpointEnabled`: flips the registered request and the stored flag; an unknown id changes nothing. */
    method SetBreakpointEnabled(bpId: string, enabled: bool)
      modifies this`requests, this`breakpointInfos
      ensures requests == if bpId in breakpoints then SetEnabled(old(requests), breakpoints[bpId], enabled) else old(requests)
      ensures breakpointInfos ==
        if bpId in old(breakpointInfos) then old(breakpointInfos)[bpId := old(breakpointInfos)[bpId].(enabled := enabled)]
        else old(breakpointInfos)
    {
      if bpId in breakpoints {
        var h := breakpoints[bpId];
        if h < |requests| && requests[h].Some? {
          requests := requests[h := Some(requests[h].value.(enabled := enabled))];
        }
      }
      if bpId in breakpointInfos {
        breakpointInfos := breakpointInfos[bpId := breakpointInfos[bpId].(enabled := enabled)];
      }
    }

    /** `clearBreakpoints`: deletes every registered request and empties both maps. */
    method ClearBreakpoints()
      modifies this`breakpoints, this`requests, this`breakpointInfos
      ensures requests == DeleteAll(old(requests), old(breakpoints).Values)
      ensures breakpoints == map[] && breakpointInfos == map[]
    {
      requests := DeleteAll(requests, breakpoints.Values);
      breakpoints := map[];
      breakpointInfos := map[];
    }

    /**
     * `addExceptionBreakpoint`: one exception request, filtered on the first loaded class of
     * that name or on every exception when none is loaded, plus its info.
     */
    method AddExceptionBreakpoint(exId: string, classes: seq<LoadedClass>, exceptionClassName: string,
                                  caught: bool, uncaught: bool) returns (r: string)
      modifies this`requests, this`exceptionBreakpoints, this`exceptionInfos
      ensures r == exId
      ensures var exceptionType := if classes == [] then None else Some(classes[0].name);
        requests == old(requests) + [Some(ExceptionRequest(exceptionType, caught, uncaught, Some(exId), true))]
      ensures exceptionBreakpoints == old(exceptionBreakpoints)[exId := |old(requests)|]
      ensures exceptionInfos == old(exceptionInfos)[exId := ExceptionBreakpointInfo(exId, exceptionClassName, caught, uncaught, true)]
    {
      var exceptionType: Option<string> := None;
      if classes != [] {
        exceptionType := Some(classes[0].name);
      }
      var h := Install(ExceptionRequest(exceptionType, caught, uncaught, Some(exId), true));
      exceptionBreakpoints := exceptionBreakpoints[exId := h];
      exceptionInfos := exceptionInfos[exId := ExceptionBreakpointInfo(exId, exceptionClassName, caught, uncaught, true)];
      r := exId;
    }

    /** `removeExceptionBreakpoint`: deletes the request, if any, and drops the info. */
    method RemoveExceptionBreakpoint(exId: string)
      modifies this`exceptionBreakpoints, this`requests, this`exceptionInfos
      ensures exceptionBreakpoints == old(exceptionBreakpoints) - {exId}
      ensures exceptionInfos == old(exceptionInfos) - {exId}
      ensures requests ==
        if exId in old(exceptionBreakpoints) then Delete(old(requests), old(exceptionBreakpoints)[exId]) else old(requests)
    {
      if exId in exceptionBreakpoints {
        var request := exceptionBreakpoints[exId];
        exceptionBreakpoints := exceptionBreakpoints - {exId};
        DeleteRequest(request);
      }
      exceptionInfos := exceptionInfos - {exId};
    }

    /** `resumeAll`: the VM resumes (not modelled) and the session is RUNNING. */
    method ResumeAll()
      modifies this`state
      ensures state == Running
    {
      state := Running;
    }

    /** `suspendAll`: the VM suspends (not modelled) and the session is SUSPENDED. */
    method SuspendAll()
      modifies this`state
      ensures state == Suspended
    {
      state := Suspended;
    }

    /**
     * `step`: deletes the thread's step requests, adds one single-step request and resumes the
     * VM. The lifecycle state is left as it was.
     */
    method Step(threadId: int, depth: int, size: int, threads: seq<ThreadRef>) returns (r: Outcome<SessionError>)
      requires threadId != 0 || selectedThreadId != 0
      modifies this`requests
      ensures var t := FirstThread(threads, if threadId != 0 then threadId else selectedThreadId);
        if t.None? then r == Fail(ThreadNotFound(threadId)) && requests == old(requests)
        else
          r == Pass &&
          requests == StepsDeleted(old(requests), t.value.uniqueId) + [Some(StepRequest(t.value.uniqueId, size, depth, 1, true))]
    {
      var thread := GetThread(threadId, threads);
      if thread.None? {
        return Fail(ThreadNotFound(threadId));
      }
      var tid := thread.value.uniqueId;
      var h := 0;
      while h < |requests|
        invariant 0 <= h <= |requests| == |old(requests)|
        invariant requests[..h] == StepsDeleted(old(requests), tid)[..h]
        invariant requests[h..] == old(requests)[h..]
      {
        if requests[h].Some? && IsStepOf(requests[h].value, tid) {
          DeleteRequest(h);
        }
        h := h + 1;
      }
      var _ := Install(StepRequest(tid, size, depth, 1, true));
      r := Pass;
    }

    /**
     * `dispatchEvent`: numbers the event one past the last, appends it, and when the buffer
     * is full first drops the oldest event and records that events were dropped.
     */
    method DispatchEvent(event: DebugEvent) returns (sequenced: DebugEvent)
      requires Valid()
      modifies this`eventBuffer, this`eventSequence, this`eventsDropped
      ensures Valid()
      ensures eventSequence == old(eventSequence) + 1
      ensures sequenced == event.(sequenceNumber := eventSequence)
      ensures eventBuffer == Offer(old(eventBuffer), sequenced)
      ensures eventsDropped == (old(eventsDropped) || |old(eventBuffer)| == DefaultEventBufferCapacity)
    {
      sequenced := event.(sequenceNumber := eventSequence + 1);
      OfferKeepsBuffer(eventBuffer, eventSequence, sequenced);
      if |eventBuffer| == DefaultEventBufferCapacity {
        eventsDropped := true;
      }
      eventBuffer := Offer(eventBuffer, sequenced);
      eventSequence := eventSequence + 1;
    }

    /**
     * `pollEvents`: takes events from the head until `limit` of them matched (no limit when
     * `limit <= 0`) or the buffer is empty; events that do not match are discarded.
     */
    method PollEvents(limit: int, eventTypes: seq<string>) returns (result: seq<DebugEvent>)
      requires Valid()
      modifies this`eventBuffer
      ensures Valid()
      ensures (result, eventBuffer) == Poll(old(eventBuffer), MaxEvents(limit), eventTypes)
    {
      result := [];
      var maxEvents := MaxEvents(limit);
      ghost var goal := Poll(eventBuffer, maxEvents, eventTypes);
      PollInSequence(eventBuffer, eventSequence, maxEvents, eventTypes);
      assert result + goal.0 == goal.0;
      while |result| < maxEvents
        invariant |result| <= maxEvents
        invariant goal.0 == result + Poll(eventBuffer, maxEvents - |result|, eventTypes).0
        invariant goal.1 == Poll(eventBuffer, maxEvents - |result|, eventTypes).1
        decreases |eventBuffer|
      {
        if eventBuffer == [] {
          break;
        }
        ghost var room := maxEvents - |result|;
        ghost var before := result;
        var event := eventBuffer[0];
        eventBuffer := eventBuffer[1..];
        if eventTypes == [] || event.eventType in eventTypes {
          result := result + [event];
          assert before + ([event] + Poll(eventBuffer, room - 1, eventTypes).0) ==
                 result + Poll(eventBuffer, room - 1, eventTypes).0;
        }
      }
      assert Poll(eventBuffer, maxEvents - |result|, eventTypes) == ([], eventBuffer);
      assert result + [] == result;
    }

    /** `clearEvents`: empty buffer, no drop recorded. */
    method ClearEvents()
      modifies this`eventBuffer, this`eventsDropped
      ensures eventBuffer == [] && !eventsDropped
    {
      eventBuffer := [];
      eventsDropped := false;
    }

    /** `getEventInfo`. */
    function GetEventInfo(): (r: EventInfo)
      reads this
      ensures r.bufferedCount == |eventBuffer| && r.bufferCapacity == DefaultEventBufferCapacity
      ensures r.eventsDropped == eventsDropped
      ensures eventBuffer != [] ==>
        r.oldestEventTimestamp == eventBuffer[0].timestamp && r.newestEventTimestamp == eventBuffer[|eventBuffer| - 1].timestamp
      ensures eventBuffer == [] ==> r.oldestEventTimestamp == 0 && r.newestEventTimestamp == 0
    {
      EventInfo(
        |eventBuffer|, DefaultEventBufferCapacity, eventsDropped,
        if eventBuffer != [] then eventBuffer[0].timestamp else 0,
        if eventBuffer != [] then eventBuffer[|eventBuffer| - 1].timestamp else 0)
    }

    /**
     * `handleBreakpointHit`: counts the hit on a known breakpoint (Java `int` arithmetic),
     * records where the thread stopped, selects it at its top frame and marks the session
     * SUSPENDED.
     */
    method HandleBreakpointHit(bpId: string, thread: ThreadRef)
      modifies this`breakpointInfos, this`threadsAtBreakpoints, this`selectedThreadId, this`selectedFrameIndex, this`state
      ensures breakpointInfos == HitRecorded(old(breakpointInfos), bpId)
      ensures threadsAtBreakpoints == old(threadsAtBreakpoints)[thread.uniqueId := bpId]
      ensures selectedThreadId == thread.uniqueId && selectedFrameIndex == 0 && state == Suspended
    {
      if bpId in breakpointInfos {
        var info := breakpointInfos[bpId];
        breakpointInfos := breakpointInfos[bpId := info.(hitCount := Values.Wrap32(info.hitCount + 1))];
      }
      threadsAtBreakpoints := threadsAtBreakpoints[thread.uniqueId := bpId];
      selectedThreadId := thread.uniqueId;
      selectedFrameIndex := 0;
      state := Suspended;
    }

    /** `getBreakpointForThread`. */
    function GetBreakpointForThread(threadId: int): (r: Option<string>)
      reads this
      ensures r.Some? <==> threadId in threadsAtBreakpoints
      ensures r.Some? ==> r.value == threadsAtBreakpoints[threadId]
    {
      if threadId in threadsAtBreakpoints then Some(threadsAtBreakpoints[threadId]) else None
    }

    /** `clearBreakpointForThread`: removes that thread's entry only. */
    method ClearBreakpointForThread(threadId: int)
      modifies this`threadsAtBreakpoints
      ensures threadsAtBreakpoints == old(threadsAtBreakpoints) - {threadId}
    {
      threadsAtBreakpoints := threadsAtBreakpoints - {threadId};
    }

    /** `close`: the processor stops and the VM is disposed (not modelled); the session is DISCONNECTED. */
    method Close()
      modifies this`state
      ensures state == Disconnected
    {
      state := Disconnected;
    }
  }

  /** The requests left after deleting every step request of that thread. */
  predicate IsStepOf(r: Request, thread: int) {
    r.StepRequest? && r.thread == thread
  }

  /** The table after deleting every step request of that thread. */
  function StepsDeleted(rs: RequestTable, thread: int): (r: RequestTable)
    ensures |r| == |rs|
    ensures forall h :: 0 <= h < |rs| ==> r[h] == if rs[h].Some? && IsStepOf(rs[h].value, thread) then None else rs[h]
  {
    seq(|rs|, h requires 0 <= h < |rs| => if rs[h].Some? && IsStepOf(rs[h].value, thread) then None else rs[h])
  }

  /** The table after deleting every request whose handle is in `hs`. */
  function DeleteAll(rs: RequestTable, hs: set<nat>): (r: RequestTable)
    ensures |r| == |rs|
    ensures forall h :: 0 <= h < |rs| ==> r[h] == if h in hs then None else rs[h]
  {
    seq(|rs|, h requires 0 <= h < |rs| => if h in hs then None else rs[h])
  }

  /** `setEnabled` on a live request; a deleted or unknown handle is left alone. */
  function SetEnabled(rs: RequestTable, h: nat, enabled: bool): (r: RequestTable)
    ensures |r| == |rs|
    ensures forall k :: 0 <= k < |rs| && k != h ==> r[k] == rs[k]
    ensures h < |rs| && rs[h].Some? ==> r[h] == Some(rs[h].value.(enabled := enabled))
    ensures h < |rs| && rs[h].None? ==> r[h] == None
  {
    if h < |rs| && rs[h].Some? then rs[h := Some(rs[h].value.(enabled := enabled))] else rs
  }

  /** A hit count below Integer.MAX_VALUE goes up by exactly one. */
  lemma HitCountIncrements(n: int)
    requires 0 <= n < Values.Int32Max
    ensures Values.Wrap32(n + 1) == n + 1
  {
  }
}
