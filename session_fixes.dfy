/**
 * Corrected counterparts of three session behaviours: events typed by their payload so that a
 * type filter can select them, a breakpoint registry that keeps every request handle of an id
 * (the deferred ones included), and a thread lookup that stops when no thread is selected.
 * Each stands beside the as-written definition it corrects.
 */
module SessionFixes {
  import opened Wrappers
  import opened Jdi
  import opened Session
  import Events

  // ---------------------------------------------------------------- typed events

  /**
   * The type a client filters on. "breakpoint" is the name the command-line client asks for;
   * the other names follow the payload kinds.
   */
  function KindName(p: Payload): (n: string)
    ensures n == "breakpoint" <==> p.BreakpointHit?
  {
    match p
    case BreakpointHit(_, _) => "breakpoint"
    case StepCompleted(_) => "step"
    case ExceptionThrown(_, _, _, _) => "exception"
    case ThreadStarted(_) => "thread_start"
    case ThreadDied(_, _) => "thread_death"
    case VmDeath(_) => "vm_death"
    case VmDisconnect(_) => "vm_disconnect"
  }

  /** An event whose type names its payload, as the corrected dispatch builds it. */
  predicate Typed(e: DebugEvent) {
    e.eventType == KindName(e.payload)
  }

  /** With room for the whole buffer, a poll delivers every matching event and leaves nothing. */
  lemma {:induction false} PollWithRoomDrains(b: seq<DebugEvent>, room: nat, types: seq<string>)
    requires |b| <= room
    ensures Poll(b, room, types) == (Matching(b, types), [])
    decreases |b|
  {
    if b != [] {
      var room' := if Matches(b[0], types) then room - 1 else room;
      PollWithRoomDrains(b[1..], room', types);
      if Matches(b[0], types) {
        assert Matching(b, types) == [b[0]] + Matching(b[1..], types);
      } else {
        assert Matching(b, types) == [] + Matching(b[1..], types) == Matching(b[1..], types);
      }
    }
  }

  /**
   * Polling typed events with the filter ["breakpoint"] and room for the whole buffer delivers
   * exactly the breakpoint hits, in buffer order, and empties the buffer.
   */
  lemma BreakpointFilterSelectsHits(b: seq<DebugEvent>, room: nat)
    requires |b| <= room
    requires forall i | 0 <= i < |b| :: Typed(b[i])
    ensures Poll(b, room, ["breakpoint"]).1 == []
    ensures var r := Poll(b, room, ["breakpoint"]).0;
      r == Matching(b, ["breakpoint"]) &&
      (forall e | e in b :: e in r <==> e.payload.BreakpointHit?)
  {
    PollWithRoomDrains(b, room, ["breakpoint"]);
    MatchingHits(b);
  }

  lemma {:induction false} MatchingHits(b: seq<DebugEvent>)
    requires forall i | 0 <= i < |b| :: Typed(b[i])
    ensures forall e | e in b :: e in Matching(b, ["breakpoint"]) <==> e.payload.BreakpointHit?
    decreases |b|
  {
    if b != [] {
      MatchingHits(b[1..]);
      assert forall e | e in b :: e == b[0] || e in b[1..];
      assert Matches(b[0], ["breakpoint"]) <==> b[0].payload.BreakpointHit?;
    }
  }

  // ---------------------------------------------------------------- a registry of every handle

  /** The `n` consecutive handles from `h`, in creation order. */
  function Handles(h: nat, n: nat): (r: seq<nat>)
    ensures |r| == n && forall i | 0 <= i < n :: r[i] == h + i
  {
    seq(n, i requires 0 <= i < n => h + i)
  }

  /**
   * The corrected registry after `n` requests for `bpId` were created under consecutive
   * handles from `h`: every handle is kept, after those the id already had.
   */
  function RegisteredAll(m: map<string, seq<nat>>, bpId: string, h: nat, n: nat): (r: map<string, seq<nat>>)
    ensures bpId in r && r[bpId] == (if bpId in m then m[bpId] else []) + Handles(h, n)
    ensures forall k | k != bpId :: (k in r <==> k in m) && (k in m ==> r[k] == m[k])
  {
    var before := if bpId in m then m[bpId] else [];
    m[bpId := before + Handles(h, n)]
  }

  /** The corrected removal: every request registered under the id is deleted. */
  function RemoveAll(rs: RequestTable, m: map<string, seq<nat>>, bpId: string): (r: RequestTable)
    ensures |r| == |rs|
  {
    if bpId in m then DeleteAll(rs, set h | h in m[bpId]) else rs
  }

  /** Removal after registering every handle of an appended run deletes that whole run and nothing before it that the id did not own. */
  lemma RemoveDeletesRun(rs: RequestTable, added: RequestTable, m: map<string, seq<nat>>, bpId: string)
    requires bpId !in m
    ensures var t := rs + added;
      var r := RemoveAll(t, RegisteredAll(m, bpId, |rs|, |added|), bpId);
      (forall k | |rs| <= k < |t| :: r[k] == None) && r[..|rs|] == rs
  {
    var t := rs + added;
    var m' := RegisteredAll(m, bpId, |rs|, |added|);
    assert m'[bpId] == [] + Handles(|rs|, |added|) == Handles(|rs|, |added|);
    var hs := set h | h in m'[bpId];
    var r := RemoveAll(t, m', bpId);
    assert r == DeleteAll(t, hs);
    forall k | |rs| <= k < |t| ensures r[k] == None {
      assert m'[bpId][k - |rs|] == k;
      assert k in hs;
    }
    forall k | 0 <= k < |rs| ensures r[k] == rs[k] {
      assert t[k] == rs[k];
    }
    assert r[..|rs|] == rs;
  }

  /**
   * A breakpoint added over several locations and then removed, with the corrected registry:
   * none of its requests is left installed, and the requests before them are untouched.
   */
  lemma RemoveAfterAddDeletesEvery(rs: RequestTable, locs: seq<Location>, bpId: string, m: map<string, seq<nat>>)
    requires bpId !in m
    ensures var t := rs + Tagged(locs, bpId);
      var r := RemoveAll(t, RegisteredAll(m, bpId, |rs|, |locs|), bpId);
      (forall k | |rs| <= k < |t| :: r[k] == None) && r[..|rs|] == rs
  {
    RemoveDeletesRun(rs, Tagged(locs, bpId), m, bpId);
  }

  /**
   * A deferred breakpoint materialised by a class-prepare event, its new handles registered,
   * and then removed: none of the materialised requests is left installed.
   */
  lemma RemoveAfterDeferredDeletesEvery(rs: RequestTable, c: LoadedClass, line: Option<int>, name: Option<string>,
                                        bpId: string, watch: nat, m: map<string, seq<nat>>)
    requires bpId !in m && watch < |rs|
    ensures var added := Events.DeferredRequests(c, line, name, bpId);
      var t := Delete(rs + added, watch);
      var r := RemoveAll(t, RegisteredAll(m, bpId, |rs|, |added|), bpId);
      forall k | |rs| <= k < |t| :: r[k] == None
  {
    var added := Events.DeferredRequests(c, line, name, bpId);
    var t := Delete(rs + added, watch);
    RemoveDeletesRun(Delete(rs, watch), added, m, bpId);
    assert t == Delete(rs, watch) + added;
  }

  // ---------------------------------------------------------------- the thread lookup

  /**
   * The id `getThread` as written looks up within `depth` nested calls, None when the calls
   * have not stopped by then: id 0 calls again with the selected id.
   */
  function LookupWithin(threadId: int, selected: int, depth: nat): (r: Option<int>)
    decreases depth
  {
    if depth == 0 then None
    else if threadId == 0 then LookupWithin(selected, selected, depth - 1)
    else Some(threadId)
  }

  /** With no thread selected, `getThread(0)` calls itself at every depth: it never returns. */
  lemma {:induction false} LookupOfZeroNeverReturns(depth: nat)
    ensures LookupWithin(0, 0, depth) == None
  {
    if depth > 0 {
      LookupOfZeroNeverReturns(depth - 1);
    }
  }

  /** Otherwise it returns within two calls, looking up the given id or else the selected one. */
  lemma LookupReturnsWithinTwo(threadId: int, selected: int)
    requires threadId != 0 || selected != 0
    ensures LookupWithin(threadId, selected, 2) == Some(if threadId != 0 then threadId else selected)
  {
  }

  /** The corrected lookup: id 0 means the selected thread, and with none selected there is no thread. */
  function SelectedThread(threads: seq<ThreadRef>, threadId: int, selected: int): (r: Option<ThreadRef>)
    ensures var wanted := if threadId != 0 then threadId else selected;
      (wanted == 0 ==> r == None) &&
      (wanted != 0 ==> r == FirstThread(threads, wanted)) &&
      (r.Some? ==> r.value in threads && r.value.uniqueId == wanted)
  {
    var wanted := if threadId != 0 then threadId else selected;
    if wanted == 0 then None else FirstThread(threads, wanted)
  }

  /** Wherever the as-written lookup returns, the corrected one finds the same thread. */
  lemma SelectedThreadAgrees(threads: seq<ThreadRef>, threadId: int, selected: int, depth: nat)
    requires LookupWithin(threadId, selected, depth).Some?
    ensures SelectedThread(threads, threadId, selected) == FirstThread(threads, LookupWithin(threadId, selected, depth).value)
  {
    if threadId == 0 && selected == 0 {
      LookupOfZeroNeverReturns(depth);
      assert false;
    }
    LookupAgrees(threadId, selected, depth);
  }

  lemma {:induction false} LookupAgrees(threadId: int, selected: int, depth: nat)
    requires LookupWithin(threadId, selected, depth).Some?
    ensures LookupWithin(threadId, selected, depth).value == if threadId != 0 then threadId else selected
  {
    if threadId == 0 {
      assert LookupWithin(selected, selected, depth - 1).Some?;
      if selected == 0 {
        LookupOfZeroNeverReturns(depth - 1);
        assert false;
      }
    }
  }
}
