/**
 * The SessionManager: the registry of debug sessions by id and the id of the active one.
 * Attaching to a VM is a foreign call; the model receives its outcome as a parameter, and the
 * random id comes in as the text of a fresh UUID.
 */
module Manager {
  import opened Wrappers
  import opened Session

  datatype ManagerError =
    | SessionExists(id: string)        // IllegalArgumentException "Session already exists"
    | NoActiveSession                  // IllegalStateException "No active session"
    | SessionNotFound(id: string)      // IllegalArgumentException "Session not found"
    | AttachFailed                     // IOException from the connector

  /** A null or empty requested id means "none given". */
  predicate Given(requestedId: Option<string>) {
    requestedId.Some? && requestedId.value != ""
  }

  class SessionManager {
    var sessions: map<string, DebugSession>
    var activeSessionId: Option<string>

    /** Every session is registered under its own id, and the active id, when set, is registered. */
    ghost predicate Valid()
      reads this
    {
      (forall k | k in sessions :: sessions[k].id == k) &&
      (activeSessionId.Some? ==> activeSessionId.value in sessions)
    }

    /** A fresh manager: no sessions, no active id. */
    constructor ()
      ensures Valid()
      ensures sessions == map[] && activeSessionId == None
    {
      sessions := map[];
      activeSessionId := None;
    }

    /**
     * `createSession`: the requested id, or the first eight characters of `uuid` when none was
     * given; an id already registered is refused. Nothing is registered here.
     */
    method CreateSession(requestedId: Option<string>, uuid: string) returns (r: Result<string, ManagerError>)
      requires |uuid| >= 8
      ensures var id := if Given(requestedId) then requestedId.value else uuid[..8];
        r == if id in sessions then Err(SessionExists(id)) else Ok(id)
      ensures r.Ok? ==> r.value != "" && r.value !in sessions
      ensures r.Ok? && !Given(requestedId) ==> |r.value| == 8
    {
      var id := if Given(requestedId) then requestedId.value else uuid[..8];
      if id in sessions {
        return Err(SessionExists(id));
      }
      return Ok(id);
    }

    /**
     * The tail of `attachRemote` and `attachLocal`: the attached session is registered under its
     * id and becomes the active one when no session was active.
     */
    method Register(session: DebugSession)
      requires Valid()
      modifies this
      ensures Valid()
      ensures sessions == old(sessions)[session.id := session]
      ensures activeSessionId == if old(activeSessionId).None? then Some(session.id) else old(activeSessionId)
    {
      sessions := sessions[session.id := session];
      if activeSessionId.None? {
        activeSessionId := Some(session.id);
      }
    }

    /**
     * `attachRemote`: the id is chosen as `createSession` does; `attached` is whether the socket
     * connector attached (its failure is the IOException). The new session records host and port.
     */
    method AttachRemote(requestedId: Option<string>, host: string, port: int, uuid: string, attached: bool)
      returns (r: Result<DebugSession, ManagerError>)
      requires |uuid| >= 8
      requires Valid()
      modifies this
      ensures Valid()
      ensures var id := if Given(requestedId) then requestedId.value else uuid[..8];
        if id in old(sessions) then r == Err(SessionExists(id)) && unchanged(this)
        else if !attached then r == Err(AttachFailed) && unchanged(this)
        else
          r.Ok? && fresh(r.value) && r.value.id == id && r.value.kind == AttachedRemote &&
          r.value.state == Connected && r.value.host == Some(host) && r.value.port == port &&
          sessions == old(sessions)[id := r.value] &&
          activeSessionId == if old(activeSessionId).None? then Some(id) else old(activeSessionId)
    {
      var created := CreateSession(requestedId, uuid);
      if created.Err? {
        return Err(created.error);
      }
      if !attached {
        return Err(AttachFailed);
      }
      var session := new DebugSession(created.value, AttachedRemote);
      session.SetHost(host);
      session.SetPort(port);
      Register(session);
      r := Ok(session);
    }

    /** `attachLocal`: as `attachRemote`, through the process connector; the session records the pid. */
    method AttachLocal(requestedId: Option<string>, pid: int, uuid: string, attached: bool)
      returns (r: Result<DebugSession, ManagerError>)
      requires |uuid| >= 8
      requires Valid()
      modifies this
      ensures Valid()
      ensures var id := if Given(requestedId) then requestedId.value else uuid[..8];
        if id in old(sessions) then r == Err(SessionExists(id)) && unchanged(this)
        else if !attached then r == Err(AttachFailed) && unchanged(this)
        else
          r.Ok? && fresh(r.value) && r.value.id == id && r.value.kind == AttachedLocal &&
          r.value.state == Connected && r.value.pid == pid &&
          sessions == old(sessions)[id := r.value] &&
          activeSessionId == if old(activeSessionId).None? then Some(id) else old(activeSessionId)
    {
      var created := CreateSession(requestedId, uuid);
      if created.Err? {
        return Err(created.error);
      }
      if !attached {
        return Err(AttachFailed);
      }
      var session := new DebugSession(created.value, AttachedLocal);
      session.SetPid(pid);
      Register(session);
      r := Ok(session);
    }

    /** The id `getSession` and `getSessionOptional` look up: the given one, else the active one. */
    function TargetId(sessionId: Option<string>): (r: Option<string>)
      reads this
      ensures Given(sessionId) ==> r == sessionId
      ensures !Given(sessionId) ==> r == activeSessionId
    {
      if Given(sessionId) then sessionId else activeSessionId
    }

    /**
     * `getSession`: with no id given and no active session, IllegalStateException; an id that is
     * not registered, IllegalArgumentException.
     */
    function GetSession(sessionId: Option<string>): (r: Result<DebugSession, ManagerError>)
      reads this
      ensures r == Err(NoActiveSession) <==> !Given(sessionId) && activeSessionId.None?
      ensures r.Ok? <==> TargetId(sessionId).Some? && TargetId(sessionId).value in sessions
      ensures r.Ok? ==> r.value == sessions[TargetId(sessionId).value]
      ensures r.Err? && r.error.SessionNotFound? ==> r.error.id == TargetId(sessionId).value
    {
      var id := TargetId(sessionId);
      if id.None? then Err(NoActiveSession)
      else if id.value !in sessions then Err(SessionNotFound(id.value))
      else Ok(sessions[id.value])
    }

    /** `getSessionOptional`: the same lookup, with every failure mapped to empty. */
    function GetSessionOptional(sessionId: Option<string>): (r: Option<DebugSession>)
      reads this
      ensures r.Some? <==> GetSession(sessionId).Ok?
      ensures r.Some? ==> r.value == GetSession(sessionId).value
    {
      var id := TargetId(sessionId);
      if id.None? || id.value !in sessions then None else Some(sessions[id.value])
    }

    /**
     * `listSessions`: the registered sessions, in no particular order; each id's session is
     * listed once, none twice, since sessions are registered under their own ids.
     */
    function ListSessions(): (r: set<DebugSession>)
      reads this
      ensures r == sessions.Values
      ensures Valid() ==> (forall s | s in r :: s.id in sessions && sessions[s.id] == s) && |r| == |sessions|
    {
      assert Valid() ==> |sessions.Values| == |sessions| by {
        if Valid() {
          InjectiveValues(sessions);
        }
      }
      sessions.Values
    }

    /** `setActiveSession`: an unregistered id is refused and the active id stays. */
    method SetActiveSession(sessionId: string) returns (r: Outcome<ManagerError>)
      requires Valid()
      modifies this`activeSessionId
      ensures Valid()
      ensures sessionId in sessions <==> r.Pass?
      ensures r.Fail? ==> r.error == SessionNotFound(sessionId) && activeSessionId == old(activeSessionId)
      ensures r.Pass? ==> activeSessionId == Some(sessionId)
    {
      if sessionId !in sessions {
        return Fail(SessionNotFound(sessionId));
      }
      activeSessionId := Some(sessionId);
      r := Pass;
    }

    /**
     * `removeSession`: a registered session is dropped and closed; if it was the active one,
     * some remaining session becomes active, or none when no session remains. An unknown id
     * changes nothing.
     */
    method RemoveSession(sessionId: string)
      requires Valid()
      modifies this, sessions.Values
      ensures Valid()
      ensures sessions == old(sessions) - {sessionId}
      ensures sessionId !in old(sessions) ==> unchanged(this) && activeSessionId == old(activeSessionId)
      ensures sessionId in old(sessions) ==> old(sessions)[sessionId].state == Disconnected
      ensures old(activeSessionId) != Some(sessionId) ==> activeSessionId == old(activeSessionId)
      ensures old(activeSessionId) == Some(sessionId) ==>
        (activeSessionId.None? <==> sessions == map[]) &&
        (activeSessionId.Some? ==> activeSessionId.value in sessions)
      ensures forall s | s in old(sessions.Values) && (sessionId !in old(sessions) || s != old(sessions)[sessionId]) ::
        unchanged(s)
    {
      if sessionId !in sessions {
        return;
      }
      var session := sessions[sessionId];
      sessions := sessions - {sessionId};
      session.Close();
      if activeSessionId == Some(sessionId) {
        if sessions == map[] {
          activeSessionId := None;
        } else {
          var next :| next in sessions;
          activeSessionId := Some(next);
        }
      }
    }

    /** `closeAll`: every session is closed, then none is registered and none is active. */
    method CloseAll()
      modifies this, sessions.Values
      ensures Valid()
      ensures sessions == map[] && activeSessionId == None
      ensures forall s | s in old(sessions.Values) :: s.state == Disconnected
    {
      var open := sessions.Values;
      while open != {}
        invariant open <= old(sessions.Values)
        invariant sessions == old(sessions)
        invariant forall s | s in old(sessions.Values) && s !in open :: s.state == Disconnected
        decreases open
      {
        var s :| s in open;
        s.Close();
        open := open - {s};
      }
      sessions := map[];
      activeSessionId := None;
    }
  }

  /** Distinct keys holding distinct values: as many values as keys. */
  lemma {:induction false} InjectiveValues<K, V>(m: map<K, V>)
    requires forall a, b | a in m && b in m && a != b :: m[a] != m[b]
    ensures |m.Values| == |m.Keys|
    decreases |m.Keys|
  {
    if m.Keys != {} {
      var k :| k in m;
      var m' := m - {k};
      InjectiveValues(m');
      forall v | v in m.Values ensures v in m'.Values + {m[k]} {
        var j :| j in m && m[j] == v;
        if j != k {
          assert m'[j] == v;
        }
      }
      assert m.Values == m'.Values + {m[k]};
      assert m[k] !in m'.Values;
      assert m.Keys == m'.Keys + {k};
    }
  }
}
