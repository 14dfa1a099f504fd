/** The connection handler of the gunicorn/gevent server: the attributes
    are set once, then a read loop processes messages until the peer
    disconnects (`remove`, return) or a command fails (error reply, return). */
module GeventServer {
  import opened Types
  import opened RegistrySpec
  import opened RegistryLemmas
  import opened Commands
  import opened Engine

  /** How the read loop stopped: the inbox ran dry with the connection
      still open, `wait()` returned None, or a reply was an error. */
  datatype End = Waiting | Disconnected | Aborted

  /** The loop's effect: the state, the replies in order (one per command
      read), how many inbox entries it read, and how it stopped. */
  datatype Run = Run(next: State, replies: seq<Option<Message>>, consumed: nat, end: End)

  /** The `while True` loop of `handle` over the messages `wait()` returns,
      None standing for a disconnect. */
  function RunSpec(st: State, id: SessionId, inbox: seq<Option<Command>>): (r: Run)
    requires WellFormed(st) && id in st.sessions
    ensures WellFormed(r.next) && id in r.next.sessions
    decreases |inbox|
  {
    if inbox == [] then Run(st, [], 0, Waiting)
    else match inbox[0]
      case None =>
        RemoveKeepsWellFormed(st, id);
        Run(RemoveSpec(st, id), [], 1, Disconnected)
      case Some(cmd) =>
        var step := ProcessSpec(st, id, cmd);
        if IsError(step.sent) then Run(step.next, [step.sent], 1, Aborted)
        else
          var rest := RunSpec(step.next, id, inbox[1..]);
          Run(rest.next, [step.sent] + rest.replies, 1 + rest.consumed, rest.end)
  }

  /** `handle(ws)`: set the attributes once, then run the loop. */
  function HandleSpec(st: State, id: SessionId, inbox: seq<Option<Command>>): (r: Run)
    requires WellFormed(st)
    ensures WellFormed(r.next) && id in r.next.sessions
  {
    ResetKeepsWellFormed(st, id);
    RunSpec(ResetSpec(st, id), id, inbox)
  }

  /** The loop so far, followed by what it does on the rest of the inbox. */
  function Splice(replies: seq<Option<Message>>, consumed: nat, rest: Run): Run
  {
    Run(rest.next, replies + rest.replies, consumed + rest.consumed, rest.end)
  }

  /** One turn of the loop on a disconnect. */
  lemma SpliceDisconnect(st: State, id: SessionId, tail: seq<Option<Command>>,
                         replies: seq<Option<Message>>, consumed: nat)
    requires WellFormed(st) && id in st.sessions && tail != [] && tail[0].None?
    ensures Splice(replies, consumed, RunSpec(st, id, tail))
         == Run(RemoveSpec(st, id), replies, consumed + 1, Disconnected)
  {
    assert replies + [] == replies;
  }

  /** One turn of the loop on a command, given the command's reply. */
  lemma SpliceCommand(st: State, id: SessionId, tail: seq<Option<Command>>,
                      replies: seq<Option<Message>>, consumed: nat, step: Reply)
    requires WellFormed(st) && id in st.sessions && tail != [] && tail[0].Some?
    requires step == ProcessSpec(st, id, tail[0].value)
    ensures WellFormed(step.next) && id in step.next.sessions
    ensures Splice(replies, consumed, RunSpec(st, id, tail))
         == if IsError(step.sent) then Run(step.next, replies + [step.sent], consumed + 1, Aborted)
            else Splice(replies + [step.sent], consumed + 1, RunSpec(step.next, id, tail[1..]))
  {
    if !IsError(step.sent) {
      var rest := RunSpec(step.next, id, tail[1..]);
      assert replies + ([step.sent] + rest.replies) == (replies + [step.sent]) + rest.replies;
    }
  }

  method Handle(reg: Registry, id: SessionId, inbox: seq<Option<Command>>)
    returns (replies: seq<Option<Message>>, consumed: nat, end: End)
    requires reg.Valid()
    modifies reg
    ensures Run(reg.Abs(), replies, consumed, end) == HandleSpec(old(reg.Abs()), id, inbox)
    ensures reg.Valid()
  {
    reg.ResetSession(id);
    ghost var whole := RunSpec(reg.Abs(), id, inbox);
    replies := [];
    consumed := 0;
    end := Waiting;
    assert inbox[0..] == inbox;
    while consumed < |inbox|
      invariant 0 <= consumed <= |inbox|
      invariant reg.Valid() && id in reg.sessions
      invariant whole == Splice(replies, consumed, RunSpec(reg.Abs(), id, inbox[consumed..]))
      decreases |inbox| - consumed
    {
      ghost var st := reg.Abs();
      ghost var tail := inbox[consumed..];
      assert tail[1..] == inbox[consumed + 1..];
      var m := inbox[consumed];
      if m.None? {
        SpliceDisconnect(st, id, tail, replies, consumed);
        reg.Remove(id);
        consumed := consumed + 1;
        end := Disconnected;
        return;
      }
      ghost var step := ProcessSpec(st, id, m.value);
      SpliceCommand(st, id, tail, replies, consumed, step);
      var sent := reg.HandleCommand(id, m.value);
      replies := replies + [sent];
      consumed := consumed + 1;
      if sent.Some? && sent.value.Err? {
        end := Aborted;
        return;
      }
    }
  }

  // ---------------------------------------------------------------------
  // Properties of the loop

  /** The once-initialised loop keeps the registry consistent. */
  lemma {:induction false} RunKeepsConsistent(st: State, id: SessionId, inbox: seq<Option<Command>>)
    requires Consistent(st) && id in st.sessions
    ensures Consistent(RunSpec(st, id, inbox).next)
    decreases |inbox|
  {
    if inbox != [] {
      match inbox[0]
      case None =>
        RemoveKeepsConsistent(st, id);
      case Some(cmd) =>
        ProcessKeepsConsistent(st, id, cmd);
        if !IsError(ProcessSpec(st, id, cmd).sent) {
          RunKeepsConsistent(ProcessSpec(st, id, cmd).next, id, inbox[1..]);
        }
    }
  }

  /** A new connection leaves a consistent registry consistent, whatever it
      sends. */
  lemma HandleKeepsConsistent(st: State, id: SessionId, inbox: seq<Option<Command>>)
    requires Consistent(st) && id !in st.sessions
    ensures Consistent(HandleSpec(st, id, inbox).next)
  {
    InitKeepsConsistent(st, id);
    RunKeepsConsistent(ResetSpec(st, id), id, inbox);
  }

  /** The loop reads a prefix of the inbox, all of it when the connection
      is still open, and every entry it read but the last is a command. */
  lemma {:induction false} RunReadsPrefix(st: State, id: SessionId, inbox: seq<Option<Command>>)
    requires WellFormed(st) && id in st.sessions
    ensures var r := RunSpec(st, id, inbox);
      && r.consumed <= |inbox|
      && (r.end == Waiting ==> r.consumed == |inbox|)
      && (r.consumed < |inbox| ==> r.end != Waiting)
      && (r.end == Disconnected ==> 1 <= r.consumed && inbox[r.consumed - 1] == None)
      && (forall k :: 0 <= k < r.consumed - 1 ==> inbox[k].Some?)
    decreases |inbox|
  {
    if inbox != [] && inbox[0].Some? {
      var step := ProcessSpec(st, id, inbox[0].value);
      if !IsError(step.sent) {
        RunReadsPrefix(step.next, id, inbox[1..]);
        forall k | 1 <= k < |inbox|
          ensures inbox[k] == inbox[1..][k - 1]
        {
        }
      }
    }
  }

  /** One reply per command read, and an error reply is always the last:
      no command after a failed one is processed. */
  lemma {:induction false} RunStopsAtError(st: State, id: SessionId, inbox: seq<Option<Command>>)
    requires WellFormed(st) && id in st.sessions
    ensures var r := RunSpec(st, id, inbox);
      && |r.replies| == (if r.end == Disconnected then r.consumed - 1 else r.consumed)
      && (forall k :: 0 <= k < |r.replies| - 1 ==> !IsError(r.replies[k]))
      && (r.end == Aborted <==> r.replies != [] && IsError(r.replies[|r.replies| - 1]))
    decreases |inbox|
  {
    if inbox != [] && inbox[0].Some? {
      var step := ProcessSpec(st, id, inbox[0].value);
      if !IsError(step.sent) {
        var rest := RunSpec(step.next, id, inbox[1..]);
        RunStopsAtError(step.next, id, inbox[1..]);
        assert RunSpec(st, id, inbox).replies == [step.sent] + rest.replies;
      }
    }
  }

  /** Once the loop has returned, later messages are never read. */
  lemma {:induction false} RunIgnoresRest(st: State, id: SessionId, inbox: seq<Option<Command>>,
                                          more: seq<Option<Command>>)
    requires WellFormed(st) && id in st.sessions
    requires RunSpec(st, id, inbox).end != Waiting
    ensures RunSpec(st, id, inbox + more) == RunSpec(st, id, inbox)
    decreases |inbox|
  {
    assert (inbox + more)[0] == inbox[0];
    if inbox[0].Some? {
      var step := ProcessSpec(st, id, inbox[0].value);
      if !IsError(step.sent) {
        assert (inbox + more)[1..] == inbox[1..] + more;
        RunIgnoresRest(step.next, id, inbox[1..], more);
      }
    }
  }

  /** A disconnect before any join or listen changes nothing in the table. */
  lemma RemoveUntouched(st: State, id: SessionId)
    requires WellFormed(st) && id in st.sessions
    requires st.sessions[id].joined == None && st.sessions[id].listened == {}
    ensures RemoveSpec(st, id) == st
  {
    assert Unlistened(st.namespaces, id, {}) == st.namespaces;
    assert st.sessions[id := st.sessions[id].(joined := None)] == st.sessions;
  }
}
