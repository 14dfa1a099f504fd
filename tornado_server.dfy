/** The connection handler of the tornado server: like the top-level one,
    but the sweep runs right after every successful command and after
    every close, and `_send` swallows delivery failures. */
module TornadoServer {
  import opened Types
  import opened RegistrySpec
  import opened RegistryLemmas
  import opened Commands
  import opened Engine

  /** What one event leaves behind: the state, the reply to the connection
      itself, and the sweep's batches that reached their listeners. */
  datatype Outcome = Outcome(next: State, sent: Option<Message>, broadcast: map<SessionId, map<string, int>>)

  /** The sweep run synchronously at the end of an event. */
  function SweepNow(st: State, sent: Option<Message>, unreachable: set<SessionId>): Outcome
    requires Idle(st)
  {
    Outcome(SweepSpec(st), sent, Deliverable(SweepMessages(st), unreachable))
  }

  /** `on_message`: reset, process, and sweep unless the reply is an error. */
  function MessageSpec(st: State, id: SessionId, cmd: Command, unreachable: set<SessionId>): (o: Outcome)
    requires WellFormed(st)
    ensures WellFormed(o.next)
  {
    ResetKeepsWellFormed(st, id);
    var r := ProcessSpec(ResetSpec(st, id), id, cmd);
    SweepKeepsWellFormed(r.next);
    if IsError(r.sent) then Outcome(r.next, r.sent, map[]) else SweepNow(r.next, r.sent, unreachable)
  }

  /** `on_close`: `remove`, then sweep.  Without attributes `remove` raises
      before the sweep, and nothing happens. */
  function CloseSpec(st: State, id: SessionId, unreachable: set<SessionId>): (o: Outcome)
    requires WellFormed(st)
    ensures WellFormed(o.next)
  {
    if id in st.sessions then
      RemoveKeepsWellFormed(st, id);
      SweepKeepsWellFormed(RemoveSpec(st, id));
      SweepNow(RemoveSpec(st, id), None, unreachable)
    else Outcome(st, None, map[])
  }

  method OnMessage(reg: Registry, id: SessionId, cmd: Command, unreachable: set<SessionId>)
    returns (sent: Option<Message>, broadcast: map<SessionId, map<string, int>>)
    requires reg.Valid()
    modifies reg
    ensures Outcome(reg.Abs(), sent, broadcast) == MessageSpec(old(reg.Abs()), id, cmd, unreachable)
    ensures reg.Valid()
  {
    reg.ResetSession(id);
    sent := reg.HandleCommand(id, cmd);
    if sent.Some? && sent.value.Err? {
      broadcast := map[];
      return;
    }
    broadcast := reg.Notify(unreachable);
  }

  method OnClose(reg: Registry, id: SessionId, unreachable: set<SessionId>)
    returns (broadcast: map<SessionId, map<string, int>>)
    requires reg.Valid()
    modifies reg
    ensures Outcome(reg.Abs(), None, broadcast) == CloseSpec(old(reg.Abs()), id, unreachable)
    ensures reg.Valid()
  {
    if id !in reg.sessions {
      broadcast := map[];
      return;
    }
    reg.Remove(id);
    broadcast := reg.Notify(unreachable);
  }
}
