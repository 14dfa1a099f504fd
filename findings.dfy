/** Two defects of the servers, each shown on a concrete run of the model
    as written, next to the corrected behaviour and what it guarantees.

    1. The top-level and tornado servers reset the per-connection
       attributes at the start of every message.  Forgetting that the
       connection had joined or listened lets a second `join` count it twice
       and a second `listen` leave it in the first namespace's listeners, for
       good: `remove` only undoes what the attributes still remember.
    2. The gevent handler returns after replying with an error without
       calling `remove`, so the connection stays counted and subscribed
       after its socket is gone. */
module Findings {
  import opened Types
  import opened Validation
  import opened RegistrySpec
  import opened RegistryLemmas
  import opened RegistryProperties
  import opened Commands
  import RootServer
  import TornadoServer
  import GeventServer

  const Lobby := "lobby"

  /** `{"join": name}` */
  function JoinCmd(name: string): Command
  {
    Object(Some(Str(name)), None)
  }

  /** `{"listen": [name]}` */
  function ListenCmd(name: string): Command
  {
    Object(None, Some(List([Str(name)])))
  }

  const Empty := State(map[], map[])

  // ---------------------------------------------------------------------
  // 1. Resetting the attributes on every message

  /** A `join` of a valid name right after the reset: the attributes are
      empty, so the connection is counted in `name` afresh. */
  lemma JoinAfterReset(st: State, id: SessionId, name: string)
    requires WellFormed(st) && 0 < |name| <= MaxNamespaceLen
    ensures RootServer.MessageSpec(st, id, JoinCmd(name))
         == Reply(Enter(State(GetNs(st.namespaces, name), st.sessions[id := EmptySession]), id, name), None)
  {
    assert CheckNamespaceName(Str(name)) == Pass;
    LeaveUnjoined(State(GetNs(st.namespaces, name), st.sessions[id := EmptySession]), id);
  }

  /** A `listen` of one valid name passes validation. */
  lemma ListenOneName(st: State, id: SessionId, name: string)
    requires WellFormed(st) && id in st.sessions && 0 < |name| <= MaxNamespaceLen
    ensures ProcessSpec(st, id, ListenCmd(name)) == ListenSpec(st, id, [name])
  {
    assert CheckNamespacesNames(List([Str(name)])) == Pass by {
      assert ValidName(Str(name));
    }
    assert NamesOf([Str(name)]) == [name];
  }

  /** `listen` by a session that listens to nothing unsubscribes nothing. */
  lemma ListenFromNothing(st: State, id: SessionId, names: seq<string>)
    requires WellFormed(st) && id in st.sessions && st.sessions[id].listened == {}
    ensures ListenSpec(st, id, names).next == Subscribed(st, id, Elems(names))
  {
    ListenShape(st, id, names);
    assert Unlistened(st.namespaces, id, {}) == st.namespaces;
    assert UnlistenSpec(st, id) == st;
  }

  /** A `listen` of one valid name by a session that listens to nothing. */
  lemma ListenUnsubscribed(st: State, id: SessionId, name: string)
    requires WellFormed(st) && id in st.sessions && st.sessions[id].listened == {} && 0 < |name| <= MaxNamespaceLen
    ensures ProcessSpec(st, id, ListenCmd(name)).next == Subscribed(st, id, {name})
  {
    ListenOneName(st, id, name);
    ListenFromNothing(st, id, [name]);
    assert Elems([name]) == {name};
  }

  /** A `listen` to one valid name right after the reset: nothing is
      unsubscribed, since the attributes list nothing. */
  lemma ListenAfterReset(st: State, id: SessionId, name: string)
    requires WellFormed(st) && 0 < |name| <= MaxNamespaceLen
    ensures RootServer.MessageSpec(st, id, ListenCmd(name)).next
         == Subscribed(ResetSpec(st, id), id, {name})
  {
    ResetKeepsWellFormed(st, id);
    ListenUnsubscribed(ResetSpec(st, id), id, name);
  }

  /** The first message of a connection finds no attributes to reset, so
      both ways of initialising agree on it. */
  lemma FirstMessageIsInitOnce(st: State, id: SessionId, cmd: Command)
    requires WellFormed(st) && id !in st.sessions
    ensures RootServer.MessageSpec(st, id, cmd) == RootServer.InitOnceMessageSpec(st, id, cmd)
  {
  }

  /** Re-sending `join` for the namespace already joined: the reset forgot
      the join, so the count goes up by one while the same sessions claim
      it as before. */
  lemma RejoinDoublesCount(st: State, id: SessionId, name: string)
    requires WellFormed(st) && 0 < |name| <= MaxNamespaceLen
    requires id in st.sessions && st.sessions[id].joined == Some(name)
    ensures var r := RootServer.MessageSpec(st, id, JoinCmd(name));
      && r.sent == None && name in st.namespaces && name in r.next.namespaces
      && r.next.namespaces[name].members == st.namespaces[name].members + 1
      && r.next.sessions == st.sessions[id := EmptySession.(joined := Some(name))]
      && JoinedCount(r.next.sessions, name) == JoinedCount(st.sessions, name)
  {
    JoinAfterReset(st, id, name);
    assert GetNs(st.namespaces, name) == st.namespaces;
    var s' := EmptySession.(joined := Some(name));
    assert st.sessions[id := EmptySession][id := s'] == st.sessions[id := s'];
    JoinedCountKeep(st.sessions, id, s', name);
  }

  /** A surplus member survives `remove`: leaving takes off one member and
      one claim alike. */
  lemma {:induction false} PhantomSurvivesClose(r: State, id: SessionId, name: string)
    requires WellFormed(r) && id in r.sessions && r.sessions[id].joined == Some(name)
    requires name in r.namespaces && r.namespaces[name].members == JoinedCount(r.sessions, name) + 1
    ensures var closed := RootServer.CloseSpec(r, id);
      name in closed.namespaces && closed.namespaces[name].members == JoinedCount(closed.sessions, name) + 1
  {
    var left := LeaveSpec(r, id);
    JoinedCountUpdate(r.sessions, id, r.sessions[id].(joined := None), name);
    assert id in JoinedSet(r.sessions, name);
    assert name in left.namespaces && left.namespaces[name].members == JoinedCount(left.sessions, name) + 1;
    LeaveKeepsWellFormed(r, id);
    UnlistenDetaches(left, id);
    var closed := UnlistenSpec(left, id);
    JoinedCountKeep(left.sessions, id, left.sessions[id].(listened := {}), name);
    assert name in closed.namespaces && closed.namespaces[name].members == left.namespaces[name].members;
    assert RootServer.CloseSpec(r, id) == closed;
  }

  /** From a consistent registry, the re-join leaves one member too many;
      closing the connection then removes only one, so the phantom member
      stays for good. */
  lemma RejoinLeavesPhantom(st: State, id: SessionId, name: string)
    requires Consistent(st) && 0 < |name| <= MaxNamespaceLen
    requires id in st.sessions && st.sessions[id].joined == Some(name)
    ensures var r := RootServer.MessageSpec(st, id, JoinCmd(name)).next;
      var closed := RootServer.CloseSpec(r, id);
      && name in r.namespaces && r.namespaces[name].members == JoinedCount(r.sessions, name) + 1
      && !Consistent(r)
      && name in closed.namespaces && closed.namespaces[name].members == JoinedCount(closed.sessions, name) + 1
  {
    RejoinDoublesCount(st, id, name);
    PhantomSurvivesClose(RootServer.MessageSpec(st, id, JoinCmd(name)).next, id, name);
  }

  /** Re-sending `listen` for other names: the reset forgot the earlier
      subscription, so the connection stays in the old namespace's
      listeners, now listening to the new name only; closing it later
      leaves it there. */
  lemma {:induction false} RelistenLeaksListener(st: State, id: SessionId, prev: string, name: string)
    requires WellFormed(st) && 0 < |name| <= MaxNamespaceLen && prev != name
    requires id in st.sessions && prev in st.sessions[id].listened
    ensures var r := RootServer.MessageSpec(st, id, ListenCmd(name)).next;
      var closed := RootServer.CloseSpec(r, id);
      && r.sessions[id].listened == {name}
      && prev in r.namespaces && id in r.namespaces[prev].listeners
      && !ListenersMatch(r)
      && prev in closed.namespaces && id in closed.namespaces[prev].listeners
  {
    ListenAfterReset(st, id, name);
    var r := RootServer.MessageSpec(st, id, ListenCmd(name)).next;
    assert prev in st.namespaces && id in st.namespaces[prev].listeners;
    assert prev in r.namespaces && r.namespaces[prev] == st.namespaces[prev];
    assert prev !in r.sessions[id].listened;
    LeaveUnjoined(r, id);
    UnlistenDetaches(r, id);
  }

  /** Both preconditions above are met after a single first message from
      a new connection: `{"join": "lobby"}` joins it in a consistent
      registry, `{"listen": ["x"]}` subscribes it to "x". */
  lemma FirstMessagesReach()
    ensures var j := RootServer.MessageSpec(Empty, 0, JoinCmd(Lobby)).next;
      Consistent(j) && 0 in j.sessions && j.sessions[0].joined == Some(Lobby)
    ensures var l := RootServer.MessageSpec(Empty, 0, ListenCmd("x")).next;
      0 in l.sessions && l.sessions[0].listened == {"x"}
  {
    FirstMessageIsInitOnce(Empty, 0, JoinCmd(Lobby));
    InitOnceKeepsConsistent(Empty, 0, JoinCmd(Lobby));
    JoinAfterReset(Empty, 0, Lobby);
    ListenAfterReset(Empty, 0, "x");
  }

  /** The tornado server resets the same way: the re-join adds one member,
      and the sweep that follows pushes the inflated count to a listener of
      the namespace that had already been told the true one. */
  lemma TornadoRejoinDoublesCount(st: State, id: SessionId, name: string, l: SessionId, unreachable: set<SessionId>)
    requires WellFormed(st) && 0 < |name| <= MaxNamespaceLen
    requires id in st.sessions && st.sessions[id].joined == Some(name)
    requires name in st.namespaces && l in st.namespaces[name].listeners && l !in unreachable
    requires st.namespaces[name].lastNotified == st.namespaces[name].members
    ensures var o := TornadoServer.MessageSpec(st, id, JoinCmd(name), unreachable);
      && name in o.next.namespaces
      && o.next.namespaces[name].members == st.namespaces[name].members + 1
      && JoinedCount(o.next.sessions, name) == JoinedCount(st.sessions, name)
      && l in o.broadcast && name in o.broadcast[l]
      && o.broadcast[l][name] == st.namespaces[name].members + 1
  {
    RejoinDoublesCount(st, id, name);
    var r := RootServer.MessageSpec(st, id, JoinCmd(name)).next;
    JoinAfterReset(st, id, name);
    assert GetNs(st.namespaces, name) == st.namespaces;
    assert name in r.namespaces && l in r.namespaces[name].listeners && l in r.sessions;
    SweepMarksChanged(r);
    SweepMessagesExact(r);
  }

  /** The correction: with the attributes set only when the connection is
      new, every message keeps the registry consistent. */
  lemma InitOnceKeepsConsistent(st: State, id: SessionId, cmd: Command)
    requires Consistent(st)
    ensures Consistent(RootServer.InitOnceMessageSpec(st, id, cmd).next)
  {
    var st1 := if id in st.sessions then st else ResetSpec(st, id);
    if id !in st.sessions {
      InitKeepsConsistent(st, id);
    }
    ProcessKeepsConsistent(st1, id, cmd);
  }

  /** With the correction, a re-join counts once, and closing the
      connection takes it out of every count and every listener set. */
  lemma InitOnceCloseDetaches(st: State, id: SessionId, cmd: Command)
    requires Consistent(st)
    ensures var r := RootServer.InitOnceMessageSpec(st, id, cmd).next;
      var closed := RootServer.CloseSpec(r, id);
      && (forall n :: n in r.namespaces ==> r.namespaces[n].members == JoinedCount(r.sessions, n))
      && (forall n :: n in closed.namespaces ==>
            id !in closed.namespaces[n].listeners && id !in JoinedSet(closed.sessions, n))
  {
    InitOnceKeepsConsistent(st, id, cmd);
    RemoveDetaches(RootServer.InitOnceMessageSpec(st, id, cmd).next, id);
  }

  /** The tornado handler with the same correction: attributes set once,
      then process and sweep unless the reply is an error. */
  function TornadoInitOnceSpec(st: State, id: SessionId, cmd: Command, unreachable: set<SessionId>)
    : (o: TornadoServer.Outcome)
    requires WellFormed(st)
    ensures WellFormed(o.next)
  {
    var r := RootServer.InitOnceMessageSpec(st, id, cmd);
    SweepKeepsWellFormed(r.next);
    if IsError(r.sent) then TornadoServer.Outcome(r.next, r.sent, map[])
    else TornadoServer.SweepNow(r.next, r.sent, unreachable)
  }

  /** With the correction the tornado handler keeps the registry consistent. */
  lemma TornadoInitOnceKeepsConsistent(st: State, id: SessionId, cmd: Command, unreachable: set<SessionId>)
    requires Consistent(st)
    ensures Consistent(TornadoInitOnceSpec(st, id, cmd, unreachable).next)
  {
    InitOnceKeepsConsistent(st, id, cmd);
    SweepKeepsConsistent(RootServer.InitOnceMessageSpec(st, id, cmd).next);
  }

  // ---------------------------------------------------------------------
  // 2. The gevent handler returning on an error

  /** A join followed by bad JSON: the loop stops on the error reply with
      the registry as the join left it, the connection counted and joined. */
  lemma AbortLeaksMember()
    ensures var r := GeventServer.HandleSpec(Empty, 0, [Some(JoinCmd(Lobby)), Some(Unparseable)]);
      && r.end == GeventServer.Aborted
      && r.next == RootServer.MessageSpec(Empty, 0, JoinCmd(Lobby)).next
      && 0 in r.next.sessions && r.next.sessions[0].joined == Some(Lobby)
      && Lobby in r.next.namespaces && r.next.namespaces[Lobby].members == 1
  {
    var inbox := [Some(JoinCmd(Lobby)), Some(Unparseable)];
    ResetKeepsWellFormed(Empty, 0);
    JoinAfterReset(Empty, 0, Lobby);
    var j := RootServer.MessageSpec(Empty, 0, JoinCmd(Lobby));
    assert ProcessSpec(ResetSpec(Empty, 0), 0, JoinCmd(Lobby)) == j;
    assert inbox[1..] == [Some(Unparseable)];
    assert GeventServer.RunSpec(j.next, 0, inbox[1..]).end == GeventServer.Aborted;
  }

  /** The correction: a handler that `remove`s the connection on every way
      out, the error reply included. */
  function HandleReleasingSpec(st: State, id: SessionId, inbox: seq<Option<Command>>): (r: GeventServer.Run)
    requires WellFormed(st)
    ensures WellFormed(r.next)
  {
    var run := GeventServer.HandleSpec(st, id, inbox);
    if run.end == GeventServer.Aborted then
      RemoveKeepsWellFormed(run.next, id);
      run.(next := RemoveSpec(run.next, id))
    else run
  }

  /** A loop that ends on a disconnect leaves the connection counted and
      listed nowhere. */
  lemma {:induction false} RunDetachesOnDisconnect(st: State, id: SessionId, inbox: seq<Option<Command>>)
    requires Consistent(st) && id in st.sessions
    requires GeventServer.RunSpec(st, id, inbox).end == GeventServer.Disconnected
    ensures var r := GeventServer.RunSpec(st, id, inbox).next;
      forall n :: n in r.namespaces ==> id !in r.namespaces[n].listeners && id !in JoinedSet(r.sessions, n)
    decreases |inbox|
  {
    match inbox[0]
    case None =>
      RemoveDetaches(st, id);
    case Some(cmd) =>
      ProcessKeepsConsistent(st, id, cmd);
      RunDetachesOnDisconnect(ProcessSpec(st, id, cmd).next, id, inbox[1..]);
  }

  /** With the correction, once the handler has returned, for whatever
      reason, the registry is consistent and the connection is gone from it. */
  lemma ReleasingDetaches(st: State, id: SessionId, inbox: seq<Option<Command>>)
    requires Consistent(st) && id !in st.sessions
    requires HandleReleasingSpec(st, id, inbox).end != GeventServer.Waiting
    ensures var r := HandleReleasingSpec(st, id, inbox).next;
      && Consistent(r)
      && forall n :: n in r.namespaces ==> id !in r.namespaces[n].listeners && id !in JoinedSet(r.sessions, n)
  {
    var run := GeventServer.HandleSpec(st, id, inbox);
    GeventServer.HandleKeepsConsistent(st, id, inbox);
    if run.end == GeventServer.Aborted {
      RemoveKeepsConsistent(run.next, id);
      RemoveDetaches(run.next, id);
    } else {
      InitKeepsConsistent(st, id);
      RunDetachesOnDisconnect(ResetSpec(st, id), id, inbox);
    }
  }
}
