/** The registry methods shared by the three servers, up to `_send` and
    the timer, which differ: the namespace table and the per-connection
    attributes, updated in place. */
module Engine {
  import opened Types
  import opened Validation
  import opened RegistrySpec
  import opened RegistryLemmas
  import opened Commands

  class Registry {
    /** The process-wide table `namespaces`. */
    var namespaces: map<string, NsRecord>
    /** The `namespace`, `listened` and `notif` attributes of every
        connection that has them, keyed by connection. */
    var sessions: map<SessionId, Session>

    function Abs(): State
      reads this
    {
      State(namespaces, sessions)
    }

    ghost predicate Valid()
      reads this
    {
      WellFormed(Abs())
    }

    /** The table starts empty, with no connection attached. */
    constructor ()
      ensures namespaces == map[] && sessions == map[]
      ensures Valid() && Consistent(Abs())
    {
      namespaces := map[];
      sessions := map[];
    }

    method GetNamespace(name: string) returns (rec: NsRecord)
      modifies this
      ensures namespaces == GetNs(old(namespaces), name) && sessions == old(sessions)
      ensures rec == Base(old(namespaces), name) && rec == namespaces[name]
    {
      if name in namespaces {
        rec := namespaces[name];
      } else {
        rec := Fresh(name);
        namespaces := namespaces[name := rec];
      }
    }

    method CleanNamespace(name: string)
      requires name in namespaces
      modifies this
      ensures namespaces == Clean(old(namespaces), name) && sessions == old(sessions)
      ensures name in namespaces <==> !Dead(old(namespaces)[name])
    {
      var rec := namespaces[name];
      if rec.members == 0 && rec.listeners == {} {
        namespaces := namespaces - {name};
      }
    }

    method Leave(id: SessionId)
      requires id in sessions && JoinedStored(Abs(), id)
      modifies this
      ensures Abs() == LeaveSpec(old(Abs()), id)
    {
      var joined := sessions[id].joined;
      if joined.Some? {
        var a := joined.value;
        var rec := namespaces[a];
        namespaces := namespaces[a := rec.(members := rec.members - 1)];
        CleanNamespace(a);
        sessions := sessions[id := sessions[id].(joined := None)];
      }
    }

    method Unlisten(id: SessionId)
      requires id in sessions && ListenedStored(Abs(), id)
      modifies this
      ensures Abs() == UnlistenSpec(old(Abs()), id)
    {
      ghost var ns0 := namespaces;
      var listened := sessions[id].listened;
      var todo := listened;
      while todo != {}
        invariant todo <= listened
        invariant namespaces == Unlistened(ns0, id, listened - todo)
        invariant sessions == old(sessions)
        decreases todo
      {
        var n :| n in todo;
        UnlistenedStep(ns0, id, listened - todo, n);
        var rec := namespaces[n];
        namespaces := namespaces[n := rec.(listeners := rec.listeners - {id})];
        CleanNamespace(n);
        assert listened - (todo - {n}) == (listened - todo) + {n};
        todo := todo - {n};
      }
      sessions := sessions[id := sessions[id].(listened := {})];
    }

    method Remove(id: SessionId)
      requires Valid() && id in sessions
      modifies this
      ensures Abs() == RemoveSpec(old(Abs()), id)
      ensures Valid()
    {
      RemoveKeepsWellFormed(Abs(), id);
      Leave(id);
      Unlisten(id);
    }

    method Join(id: SessionId, v: Value) returns (check: Check)
      requires Valid() && id in sessions
      modifies this
      ensures check == CheckNamespaceName(v)
      ensures check.Pass? ==> Abs() == JoinSpec(old(Abs()), id, v.s)
      ensures check.ClientError? ==> Abs() == old(Abs())
      ensures Valid()
    {
      check := CheckNamespaceName(v);
      if check.ClientError? {
        return;
      }
      var name := v.s;
      ghost var st0 := Abs();
      JoinKeepsWellFormed(st0, id, name);
      var rec := GetNamespace(name);
      ghost var st1 := Abs();
      assert JoinedStored(st1, id) by {
        assert JoinedStored(st0, id);
      }
      if sessions[id].joined == Some(name) {
        return;
      }
      Leave(id);
      EnterNamespace(id, name);
    }

    /** The last two lines of `join`: count the connection in `name`. */
    method EnterNamespace(id: SessionId, name: string)
      requires id in sessions && name in namespaces
      modifies this
      ensures Abs() == Enter(old(Abs()), id, name)
    {
      var rec := namespaces[name];
      namespaces := namespaces[name := rec.(members := rec.members + 1)];
      sessions := sessions[id := sessions[id].(joined := Some(name))];
    }

    /** `send_notif`: hand a non-empty buffer to the connection and clear it. */
    method SendNotif(id: SessionId) returns (sent: Option<Message>)
      requires id in sessions
      modifies this
      ensures id in sessions && (sessions[id], sent) == Flush(old(sessions)[id])
      ensures sessions == old(sessions)[id := sessions[id]]
      ensures namespaces == old(namespaces)
    {
      var s := sessions[id];
      if s.notif != map[] {
        sent := Some(Counts(s.notif));
        sessions := sessions[id := s.(notif := map[])];
      } else {
        sent := None;
      }
    }

    method Listen(id: SessionId, v: Value) returns (check: Check, sent: Option<Message>)
      requires Valid() && id in sessions
      modifies this
      ensures check == CheckNamespacesNames(v)
      ensures check.Pass? ==> Reply(Abs(), sent) == ListenSpec(old(Abs()), id, NamesOf(v.items))
      ensures check.ClientError? ==> Abs() == old(Abs()) && sent == None
      ensures Valid()
    {
      check := CheckNamespacesNames(v);
      if check.ClientError? {
        sent := None;
        return;
      }
      sent := ListenNames(id, NamesOf(v.items));
    }

    /** `listen` once the list has passed validation. */
    method ListenNames(id: SessionId, names: seq<string>) returns (sent: Option<Message>)
      requires Valid() && id in sessions
      modifies this
      ensures Reply(Abs(), sent) == ListenSpec(old(Abs()), id, names)
      ensures Valid()
    {
      ghost var st0 := Abs();
      Unlisten(id);
      ghost var st1 := Abs();
      AddListener(id, names);
      ghost var staged := sessions[id];
      assert staged == st1.sessions[id].(listened := st1.sessions[id].listened + Elems(names),
                                         notif := st1.sessions[id].notif + Stage(st1.namespaces, names));
      ListenByLoop(st0, id, names, st1, staged);
      assert sessions == st1.sessions[id := staged];
      sent := SendNotif(id);
      assert sessions == st1.sessions[id := Flush(staged).0];
      assert Abs() == ListenSpec(st0, id, names).next;
      ListenKeepsWellFormed(st0, id, names);
    }

    /** The loop of `listen`: subscribe to each name in turn, creating it if
        needed, and stage its current count. */
    method AddListener(id: SessionId, names: seq<string>)
      requires id in sessions
      modifies this
      ensures namespaces == AddListeners(old(namespaces), id, names)
      ensures id in sessions && sessions == old(sessions)[id := sessions[id]]
      ensures sessions[id].joined == old(sessions)[id].joined
      ensures sessions[id].listened == old(sessions)[id].listened + Elems(names)
      ensures sessions[id].notif == old(sessions)[id].notif + Stage(old(namespaces), names)
    {
      ghost var ns0 := namespaces;
      ghost var s0 := sessions[id];
      var i := 0;
      assert Elems(names[..0]) == {};
      assert names[..0] == [];
      while i < |names|
        invariant 0 <= i <= |names|
        invariant namespaces == AddListeners(ns0, id, names[..i])
        invariant id in sessions && sessions == old(sessions)[id := sessions[id]]
        invariant sessions[id].joined == s0.joined
        invariant sessions[id].listened == s0.listened + Elems(names[..i])
        invariant sessions[id].notif == s0.notif + Stage(ns0, names[..i])
      {
        ElemsPrefix(names, i);
        assert names[..i + 1][..i] == names[..i];
        AddListenersMembers(ns0, id, names[..i], names[i]);
        MergeUpdate(s0.notif, Stage(ns0, names[..i]), names[i], Base(ns0, names[i]).members);
        ListenOne(id, names[i]);
        i := i + 1;
      }
      assert names[..i] == names;
    }

    /** One pass of that loop: `ns = get_namespace(n)`, add the listener,
        stage `ns.members` under `n`. */
    method ListenOne(id: SessionId, n: string)
      requires id in sessions
      modifies this
      ensures namespaces == old(namespaces)[n := Base(old(namespaces), n).(
                listeners := Base(old(namespaces), n).listeners + {id})]
      ensures sessions == old(sessions)[id := old(sessions)[id].(
                listened := old(sessions)[id].listened + {n},
                notif := old(sessions)[id].notif[n := Base(old(namespaces), n).members])]
    {
      var rec := GetNamespace(n);
      namespaces := namespaces[n := rec.(listeners := rec.listeners + {id})];
      var s := sessions[id];
      sessions := sessions[id := s.(listened := s.listened + {n}, notif := s.notif[n := rec.members])];
    }

    /** The `try` block of `on_message` / `handle`: decode, `join` if asked,
        `listen` if asked; a ClientError or any other exception becomes
        the error reply and ends the command. */
    method HandleCommand(id: SessionId, cmd: Command) returns (sent: Option<Message>)
      requires Valid() && id in sessions
      modifies this
      ensures Reply(Abs(), sent) == ProcessSpec(old(Abs()), id, cmd)
      ensures Valid() && id in sessions
    {
      match cmd
      case Unparseable =>
        sent := Some(Err(ErrInvalidJson));
      case NotObject(t) =>
        sent := Some(Err(InternalError(t)));
      case Object(join, listen) =>
        if Asked(join) {
          var check := Join(id, join.value);
          if check.ClientError? {
            sent := Some(Err(check.msg));
            return;
          }
        }
        if Asked(listen) {
          var check;
          check, sent := Listen(id, listen.value);
          if check.ClientError? {
            sent := Some(Err(check.msg));
          }
        } else {
          sent := None;
        }
    }

    /** `notify`: one sweep.  Sends to the connections in `unreachable` fail;
        the failure is swallowed, so it changes neither the sweep nor the state. */
    method Notify(unreachable: set<SessionId>) returns (delivered: map<SessionId, map<string, int>>)
      requires Valid()
      modifies this
      ensures Abs() == SweepSpec(old(Abs()))
      ensures delivered == Deliverable(SweepMessages(old(Abs())), unreachable)
      ensures Valid()
    {
      ghost var st0 := Abs();
      var touched := StageChanged();
      ghost var staged := sessions;
      delivered := FlushAll(touched, unreachable);
      SweepComposes(st0, staged, touched, sessions, delivered, unreachable);
      SweepKeepsWellFormed(st0);
    }

    /** The first loop of `notify`: every namespace with listeners whose
        count moved is staged into its listeners' buffers and marked. */
    method StageChanged() returns (touched: set<SessionId>)
      requires forall n :: n in namespaces ==> namespaces[n].listeners <= sessions.Keys
      requires forall id :: id in sessions ==> sessions[id].notif == map[]
      modifies this
      ensures namespaces == SweptNamespaces(old(namespaces))
      ensures sessions.Keys == old(sessions).Keys && touched <= sessions.Keys
      ensures forall id :: id in old(sessions) ==>
        sessions[id] == old(sessions)[id].(notif := Staged(old(namespaces), id))
      ensures forall id :: id in old(sessions) ==>
        (id in touched <==> Staged(old(namespaces), id) != map[])
    {
      ghost var ns0 := namespaces;
      ghost var ss0 := sessions;
      touched := {};
      var todo := namespaces.Keys;
      while todo != {}
        invariant todo <= ns0.Keys
        invariant namespaces == MarkedAmong(ns0, ns0.Keys - todo)
        invariant sessions.Keys == ss0.Keys && touched <= ss0.Keys
        invariant forall id :: id in ss0 ==>
          sessions[id] == ss0[id].(notif := StagedAmong(ns0, id, ns0.Keys - todo))
        invariant forall id :: id in ss0 ==>
          (id in touched <==> StagedAmong(ns0, id, ns0.Keys - todo) != map[])
        decreases todo
      {
        var n :| n in todo;
        ghost var done := ns0.Keys - todo;
        MarkedStep(ns0, done, n);
        var rec := namespaces[n];
        if rec.listeners != {} && rec.lastNotified != rec.members {
          touched := StageListeners(n, rec.members, rec.listeners, touched);
          namespaces := namespaces[n := rec.(lastNotified := rec.members)];
        }
        forall id | id in ss0
          ensures sessions[id] == ss0[id].(notif := StagedAmong(ns0, id, done + {n}))
          ensures id in touched <==> StagedAmong(ns0, id, done + {n}) != map[]
        {
          StagedStep(ns0, id, done, n);
          if Changed(ns0[n]) && id in ns0[n].listeners {
            assert n in StagedAmong(ns0, id, done + {n});
          }
        }
        assert ns0.Keys - (todo - {n}) == done + {n};
        todo := todo - {n};
      }
      assert ns0.Keys - todo == ns0.Keys;
    }

    /** The inner loop: `ws.notif[name] = members` for every listener. */
    method StageListeners(n: string, members: int, listeners: set<SessionId>, touched0: set<SessionId>)
      returns (touched: set<SessionId>)
      requires listeners <= sessions.Keys
      modifies this
      ensures namespaces == old(namespaces) && sessions.Keys == old(sessions).Keys
      ensures forall id :: id in old(sessions) ==>
        sessions[id] == if id in listeners then old(sessions)[id].(notif := old(sessions)[id].notif[n := members])
                        else old(sessions)[id]
      ensures touched == touched0 + listeners
    {
      touched := touched0;
      var pending := listeners;
      while pending != {}
        invariant pending <= listeners
        invariant namespaces == old(namespaces) && sessions.Keys == old(sessions).Keys
        invariant forall id :: id in old(sessions) ==>
          sessions[id] == if id in listeners - pending then old(sessions)[id].(notif := old(sessions)[id].notif[n := members])
                          else old(sessions)[id]
        invariant touched == touched0 + (listeners - pending)
        decreases pending
      {
        var ws :| ws in pending;
        var s := sessions[ws];
        sessions := sessions[ws := s.(notif := s.notif[n := members])];
        touched := touched + {ws};
        pending := pending - {ws};
      }
    }

    /** The second loop of `notify`: `send_notif` to every staged listener. */
    method FlushAll(touched: set<SessionId>, unreachable: set<SessionId>)
      returns (delivered: map<SessionId, map<string, int>>)
      requires touched <= sessions.Keys
      modifies this
      ensures namespaces == old(namespaces) && sessions.Keys == old(sessions).Keys
      ensures forall id :: id in old(sessions) ==>
        sessions[id] == if id in touched then Flush(old(sessions)[id]).0 else old(sessions)[id]
      ensures delivered == Collected(old(sessions), touched, unreachable)
    {
      delivered := map[];
      var pending := touched;
      assert touched - pending == {};
      while pending != {}
        invariant pending <= touched
        invariant namespaces == old(namespaces) && sessions.Keys == old(sessions).Keys
        invariant forall id :: id in old(sessions) ==>
          sessions[id] == if id in touched - pending then Flush(old(sessions)[id]).0 else old(sessions)[id]
        invariant delivered == Collected(old(sessions), touched - pending, unreachable)
        decreases pending
      {
        var ws :| ws in pending;
        CollectedStep(old(sessions), touched - pending, unreachable, ws);
        var sent := SendNotif(ws);
        if sent.Some? && ws !in unreachable {
          delivered := delivered[ws := sent.value.counts];
        }
        assert touched - (pending - {ws}) == (touched - pending) + {ws};
        pending := pending - {ws};
      }
    }

    function Stats(): (r: map<string, int>)
      reads this
      ensures r.Keys == namespaces.Keys
      ensures forall n :: n in r ==> r[n] == namespaces[n].members
    {
      RegistrySpec.Stats(Abs())
    }

    function Info(name: string): (r: int)
      reads this
      ensures name in namespaces ==> r == namespaces[name].members
      ensures name !in namespaces ==> r == 0
    {
      RegistrySpec.Info(Abs(), name)
    }

    /** Give a connection its three attributes, all empty: done once per
        connection by one server, before every message by the other two. */
    method ResetSession(id: SessionId)
      requires Valid()
      modifies this
      ensures Abs() == ResetSpec(old(Abs()), id)
      ensures Valid()
    {
      ResetKeepsWellFormed(Abs(), id);
      sessions := sessions[id := EmptySession];
    }
  }
}
