/** The body of the `on_message` / `handle` loop shared by the three
    servers: decode, `join` if asked, then `listen` if asked, and the
    error replies. */
module Commands {
  import opened Types
  import opened Validation
  import opened RegistrySpec
  import opened RegistryLemmas
  import opened RegistryProperties

  /** The `if namespace_name:` / `if namespaces_names:` tests on a key
      that may be absent (`command.get` returns None). */
  predicate Asked(v: Option<Value>)
  {
    v.Some? && Truthy(v.value)
  }

  /** One command against the registry, for a connection whose attributes
      are set.  The reply is what `_send`/`send` is handed, if anything. */
  function ProcessSpec(st: State, id: SessionId, cmd: Command): (r: Reply)
    requires WellFormed(st) && id in st.sessions
    ensures WellFormed(r.next) && id in r.next.sessions
  {
    match cmd
    case Unparseable => Reply(st, Some(Err(ErrInvalidJson)))
    case NotObject(t) => Reply(st, Some(Err(InternalError(t))))
    case Object(join, listen) =>
      if Asked(join) && CheckNamespaceName(join.value).ClientError? then
        Reply(st, Some(Err(CheckNamespaceName(join.value).msg)))
      else
        var st1 := if Asked(join) then JoinSpec(st, id, join.value.s) else st;
        assert WellFormed(st1) by {
          if Asked(join) {
            JoinKeepsWellFormed(st, id, join.value.s);
          }
        }
        if !Asked(listen) then Reply(st1, None)
        else if CheckNamespacesNames(listen.value).ClientError? then
          Reply(st1, Some(Err(CheckNamespacesNames(listen.value).msg)))
        else
          ListenKeepsWellFormed(st1, id, NamesOf(listen.value.items));
          ListenSpec(st1, id, NamesOf(listen.value.items))
  }

  /** The reply is an error message. */
  predicate IsError(sent: Option<Message>)
  {
    sent.Some? && sent.value.Err?
  }

  /** What each outcome of a command means.  Bad JSON and non-objects get
      their error reply and change nothing; the reply is an error exactly
      when decoding or one of the two validators failed; an error leaves the
      state as the `join` (if it ran) left it; a successful `listen`
      answers with the counts of exactly the requested names; and a command
      without `listen` answers nothing. */
  lemma ProcessOutcomes(st: State, id: SessionId, cmd: Command)
    requires WellFormed(st) && id in st.sessions
    ensures var r := ProcessSpec(st, id, cmd);
      && (cmd.Unparseable? ==> r == Reply(st, Some(Err(ErrInvalidJson))))
      && (cmd.NotObject? ==> r == Reply(st, Some(Err(InternalError(cmd.typeName)))))
      && (IsError(r.sent) <==>
            || !cmd.Object?
            || (Asked(cmd.join) && !ValidName(cmd.join.value))
            || (Asked(cmd.listen) && !ValidNames(cmd.listen.value)))
      && (IsError(r.sent) ==>
            r.next == (if cmd.Object? && Asked(cmd.join) && ValidName(cmd.join.value)
                       then JoinSpec(st, id, cmd.join.value.s) else st))
      && (cmd.Object? && Asked(cmd.join) && !ValidName(cmd.join.value) ==>
            r.sent == Some(Err(CheckNamespaceName(cmd.join.value).msg)))
      && (cmd.Object? && !(Asked(cmd.join) && !ValidName(cmd.join.value))
          && Asked(cmd.listen) && !ValidNames(cmd.listen.value) ==>
            r.sent == Some(Err(CheckNamespacesNames(cmd.listen.value).msg)))
      && (cmd.Object? && !IsError(r.sent) && Asked(cmd.listen) ==>
            r.sent.Some? && r.sent.value.Counts?
            && r.sent.value.counts.Keys == Elems(NamesOf(cmd.listen.value.items)))
      && (cmd.Object? && !Asked(cmd.listen) && !IsError(r.sent) ==> r.sent == None)
  {
    if cmd.Object? && !(Asked(cmd.join) && !ValidName(cmd.join.value)) {
      var st1 := if Asked(cmd.join) then JoinSpec(st, id, cmd.join.value.s) else st;
      if Asked(cmd.join) {
        JoinKeepsWellFormed(st, id, cmd.join.value.s);
      }
      if Asked(cmd.listen) && ValidNames(cmd.listen.value) {
        ListenAcknowledges(st1, id, NamesOf(cmd.listen.value.items));
      }
    }
  }

  /** A once-initialised connection keeps the registry consistent across
      every command, whatever its outcome. */
  lemma ProcessKeepsConsistent(st: State, id: SessionId, cmd: Command)
    requires Consistent(st) && id in st.sessions
    ensures Consistent(ProcessSpec(st, id, cmd).next)
  {
    if cmd.Object? && !(Asked(cmd.join) && CheckNamespaceName(cmd.join.value).ClientError?) {
      var st1 := if Asked(cmd.join) then JoinSpec(st, id, cmd.join.value.s) else st;
      if Asked(cmd.join) {
        JoinKeepsConsistent(st, id, cmd.join.value.s);
      }
      if Asked(cmd.listen) && CheckNamespacesNames(cmd.listen.value).Pass? {
        ListenKeepsConsistent(st1, id, NamesOf(cmd.listen.value.items));
      }
    }
  }
}
