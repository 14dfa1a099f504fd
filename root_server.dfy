/** The connection handler of the top-level server: every message first
    resets the connection's attributes, then runs the command; closing
    the connection runs `remove`; the sweep runs on a timer. */
module RootServer {
  import opened Types
  import opened RegistrySpec
  import opened RegistryLemmas
  import opened Commands
  import opened Engine

  /** `on_message`: reset the three attributes, then process the command. */
  function MessageSpec(st: State, id: SessionId, cmd: Command): (r: Reply)
    requires WellFormed(st)
    ensures WellFormed(r.next) && id in r.next.sessions
  {
    ResetKeepsWellFormed(st, id);
    ProcessSpec(ResetSpec(st, id), id, cmd)
  }

  /** `on_close`: `remove`.  A connection that never received a message has
      no attributes; `remove` then raises and nothing changes. */
  function CloseSpec(st: State, id: SessionId): (r: State)
    requires WellFormed(st)
    ensures WellFormed(r)
  {
    if id in st.sessions then
      RemoveKeepsWellFormed(st, id);
      RemoveSpec(st, id)
    else st
  }

  method OnMessage(reg: Registry, id: SessionId, cmd: Command) returns (sent: Option<Message>)
    requires reg.Valid()
    modifies reg
    ensures Reply(reg.Abs(), sent) == MessageSpec(old(reg.Abs()), id, cmd)
    ensures reg.Valid()
  {
    reg.ResetSession(id);
    sent := reg.HandleCommand(id, cmd);
  }

  method OnClose(reg: Registry, id: SessionId)
    requires reg.Valid()
    modifies reg
    ensures reg.Abs() == CloseSpec(old(reg.Abs()), id)
    ensures reg.Valid()
  {
    if id in reg.sessions {
      reg.Remove(id);
    }
  }

  /** The attributes set once, when the connection first speaks, instead of
      on every message. */
  function InitOnceMessageSpec(st: State, id: SessionId, cmd: Command): (r: Reply)
    requires WellFormed(st)
    ensures WellFormed(r.next) && id in r.next.sessions
  {
    var st1 := if id in st.sessions then st else ResetSpec(st, id);
    ResetKeepsWellFormed(st, id);
    ProcessSpec(st1, id, cmd)
  }
}
