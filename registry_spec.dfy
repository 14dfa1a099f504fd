/** The registry as a value: the namespace table and the session attributes,
    the transitions the registry methods perform on them, and the two
    invariants they are proved against. */
module RegistrySpec {
  import opened Types

  datatype State = State(namespaces: map<string, NsRecord>, sessions: map<SessionId, Session>)

  /** The state after one command, and the message sent back to its connection. */
  datatype Reply = Reply(next: State, sent: Option<Message>)

  const ErrInvalidJson := "Invalid JSON command"

  /** The reply to valid JSON that is not an object: `command.get` raises
      AttributeError, caught as an internal error. */
  function InternalError(typeName: string): string
  {
    "internal error: '" + typeName + "' object has no attribute 'get'"
  }

  // ---------------------------------------------------------------------
  // Counting members

  /** The sessions whose joined namespace is `n`. */
  function JoinedSet(ss: map<SessionId, Session>, n: string): set<SessionId>
  {
    set id | id in ss && ss[id].joined == Some(n)
  }

  function JoinedCount(ss: map<SessionId, Session>, n: string): nat
  {
    |JoinedSet(ss, n)|
  }

  /** Replacing one session changes each count by what that session stops
      and starts claiming. */
  lemma JoinedCountUpdate(ss: map<SessionId, Session>, id: SessionId, s: Session, n: string)
    ensures JoinedCount(ss[id := s], n)
         == JoinedCount(ss, n)
            - (if id in ss && ss[id].joined == Some(n) then 1 else 0)
            + (if s.joined == Some(n) then 1 else 0)
  {
    var before := JoinedSet(ss, n);
    var after := JoinedSet(ss[id := s], n);
    var rest := before - {id};
    assert id !in rest;
    if s.joined == Some(n) {
      assert after == rest + {id};
    } else {
      assert after == rest;
    }
    if id in ss && ss[id].joined == Some(n) {
      assert before == rest + {id};
    } else {
      assert before == rest;
    }
  }

  /** A session updated without touching `joined` leaves every count as it was. */
  lemma JoinedCountKeep(ss: map<SessionId, Session>, id: SessionId, s: Session, n: string)
    requires id in ss && s.joined == ss[id].joined
    ensures JoinedCount(ss[id := s], n) == JoinedCount(ss, n)
  {
    JoinedCountUpdate(ss, id, s, n);
  }

  // ---------------------------------------------------------------------
  // Invariants

  /** A record with no members and no listeners: `clean_namespace` deletes it. */
  predicate Dead(r: NsRecord)
  {
    r.members == 0 && r.listeners == {}
  }

  /** The session's joined namespace is stored. */
  predicate JoinedStored(st: State, id: SessionId)
    requires id in st.sessions
  {
    st.sessions[id].joined.Some? ==> st.sessions[id].joined.value in st.namespaces
  }

  /** Every name the session lists as listened is stored and lists it back. */
  predicate ListenedStored(st: State, id: SessionId)
    requires id in st.sessions
  {
    forall n :: n in st.sessions[id].listened ==>
      n in st.namespaces && id in st.namespaces[n].listeners
  }

  /** What holds between units of work in every variant, including those
      that reset the session attributes on each message. */
  predicate WellFormed(st: State)
  {
    && (forall n :: n in st.namespaces ==> st.namespaces[n].name == n)
    && (forall n :: n in st.namespaces ==> !Dead(st.namespaces[n]))
    && (forall n :: n in st.namespaces ==> st.namespaces[n].members >= JoinedCount(st.sessions, n))
    && (forall n :: n in st.namespaces ==> st.namespaces[n].listeners <= st.sessions.Keys)
    && (forall id :: id in st.sessions ==> JoinedStored(st, id))
    && (forall id :: id in st.sessions ==> ListenedStored(st, id))
    && (forall id :: id in st.sessions ==> st.sessions[id].notif == map[])
  }

  /** Every notification buffer is empty, as between two events. */
  predicate Idle(st: State)
  {
    forall id :: id in st.sessions ==> st.sessions[id].notif == map[]
  }

  /** A session listens to `n` exactly when `n`'s record lists it. */
  predicate ListenersMatch(st: State)
  {
    forall n, id :: n in st.namespaces && id in st.namespaces[n].listeners ==>
      id in st.sessions && n in st.sessions[id].listened
  }

  /** The registry agrees with the sessions: every count is exactly the
      number of sessions joined, and listener sets mirror `listened`. */
  predicate Consistent(st: State)
  {
    && WellFormed(st)
    && (forall n :: n in st.namespaces ==> st.namespaces[n].members == JoinedCount(st.sessions, n))
    && ListenersMatch(st)
  }

  // ---------------------------------------------------------------------
  // Table maintenance

  /** The table once `get_namespace(name)` has run. */
  function GetNs(ns: map<string, NsRecord>, name: string): (r: map<string, NsRecord>)
    ensures name in r && r.Keys == ns.Keys + {name}
    ensures forall n :: n in ns ==> r[n] == ns[n]
    ensures name !in ns ==> r[name] == Fresh(name)
  {
    if name in ns then ns else ns[name := Fresh(name)]
  }

  /** The record `get_namespace(name)` hands back. */
  function Base(ns: map<string, NsRecord>, name: string): NsRecord
  {
    if name in ns then ns[name] else Fresh(name)
  }

  /** The table once `clean_namespace` has run on the record stored at `name`. */
  function Clean(ns: map<string, NsRecord>, name: string): (r: map<string, NsRecord>)
    requires name in ns
    ensures name in r <==> !Dead(ns[name])
    ensures r.Keys == ns.Keys - (if Dead(ns[name]) then {name} else {})
    ensures forall n :: n in r ==> r[n] == ns[n]
  {
    if Dead(ns[name]) then ns - {name} else ns
  }

  // ---------------------------------------------------------------------
  // Session changes

  function LeaveSpec(st: State, id: SessionId): (r: State)
    requires id in st.sessions && JoinedStored(st, id)
    ensures r.sessions == st.sessions[id := st.sessions[id].(joined := None)]
    ensures r.namespaces.Keys <= st.namespaces.Keys
    ensures forall n :: n in st.namespaces && Some(n) != st.sessions[id].joined ==>
      n in r.namespaces && r.namespaces[n] == st.namespaces[n]
    ensures st.sessions[id].joined.Some? ==>
      var a := st.sessions[id].joined.value;
      var dec := st.namespaces[a].(members := st.namespaces[a].members - 1);
      (a in r.namespaces <==> !Dead(dec)) && (a in r.namespaces ==> r.namespaces[a] == dec)
  {
    match st.sessions[id].joined
    case None => st
    case Some(a) =>
      var rec := st.namespaces[a];
      var ns := st.namespaces[a := rec.(members := rec.members - 1)];
      State(Clean(ns, a), st.sessions[id := st.sessions[id].(joined := None)])
  }

  /** `listeners.remove(ws)` on one record. */
  function Drop(r: NsRecord, id: SessionId): NsRecord
  {
    r.(listeners := r.listeners - {id})
  }

  /** The table once `id` has been removed from the records named in `done`
      and each of them compacted. */
  function Unlistened(ns: map<string, NsRecord>, id: SessionId, done: set<string>): map<string, NsRecord>
  {
    map n | n in ns && !(n in done && Dead(Drop(ns[n], id))) ::
      if n in done then Drop(ns[n], id) else ns[n]
  }

  lemma UnlistenedStep(ns: map<string, NsRecord>, id: SessionId, done: set<string>, n: string)
    requires n in ns && n !in done
    ensures n in Unlistened(ns, id, done) && Unlistened(ns, id, done)[n] == ns[n]
    ensures Clean(Unlistened(ns, id, done)[n := Drop(ns[n], id)], n) == Unlistened(ns, id, done + {n})
  {
  }

  /** `unlisten`: leave every listened record, deleting those left dead. */
  function UnlistenSpec(st: State, id: SessionId): (r: State)
    requires id in st.sessions && ListenedStored(st, id)
    ensures r.sessions == st.sessions[id := st.sessions[id].(listened := {})]
    ensures r.namespaces.Keys <= st.namespaces.Keys
    ensures forall n :: n in st.sessions[id].listened && n in r.namespaces ==> id !in r.namespaces[n].listeners
  {
    State(Unlistened(st.namespaces, id, st.sessions[id].listened),
          st.sessions[id := st.sessions[id].(listened := {})])
  }

  /** `remove`: `leave` then `unlisten`. */
  function RemoveSpec(st: State, id: SessionId): (r: State)
    requires id in st.sessions && JoinedStored(st, id) && ListenedStored(st, id)
    ensures r.sessions == st.sessions[id := st.sessions[id].(joined := None, listened := {})]
    ensures r.namespaces.Keys <= st.namespaces.Keys
  {
    var st1 := LeaveSpec(st, id);
    assert ListenedStored(st1, id);
    UnlistenSpec(st1, id)
  }

  /** The last two lines of `join`: count the session in `name`. */
  function Enter(st: State, id: SessionId, name: string): State
    requires id in st.sessions && name in st.namespaces
  {
    var rec := st.namespaces[name];
    State(st.namespaces[name := rec.(members := rec.members + 1)],
          st.sessions[id := st.sessions[id].(joined := Some(name))])
  }

  /** `join` once the name has passed validation. */
  function JoinSpec(st: State, id: SessionId, name: string): (r: State)
    requires id in st.sessions && JoinedStored(st, id)
    ensures r.sessions == st.sessions[id := st.sessions[id].(joined := Some(name))]
    ensures name in r.namespaces && r.namespaces.Keys <= st.namespaces.Keys + {name}
  {
    var st1 := State(GetNs(st.namespaces, name), st.sessions);
    if st.sessions[id].joined == Some(name) then st1
    else Enter(LeaveSpec(st1, id), id, name)
  }

  function Elems(names: seq<string>): set<string>
  {
    set n | n in names
  }

  lemma ElemsPrefix(names: seq<string>, i: nat)
    requires i < |names|
    ensures Elems(names[..i + 1]) == Elems(names[..i]) + {names[i]}
  {
    assert names[..i + 1] == names[..i] + [names[i]];
  }

  /** The table once `id` has been added as listener of every name in
      `names`, each created on first use. */
  function Listened(ns: map<string, NsRecord>, id: SessionId, names: set<string>): map<string, NsRecord>
  {
    map n | n in ns.Keys + names ::
      if n in names then Base(ns, n).(listeners := Base(ns, n).listeners + {id}) else ns[n]
  }

  lemma ListenedStep(ns: map<string, NsRecord>, id: SessionId, done: set<string>, n: string)
    ensures var cur := Listened(ns, id, done);
      && Base(cur, n).members == Base(ns, n).members
      && Listened(ns, id, done + {n}) == cur[n := Base(cur, n).(listeners := Base(cur, n).listeners + {id})]
  {
  }

  /** The counts `listen` stages for `names`. */
  function Snapshot(ns: map<string, NsRecord>, names: set<string>): map<string, int>
  {
    map n | n in names :: Base(ns, n).members
  }

  lemma SnapshotStep(ns: map<string, NsRecord>, names: set<string>, n: string)
    ensures Snapshot(ns, names + {n}) == Snapshot(ns, names)[n := Base(ns, n).members]
  {
  }

  /** The `for` loop of `listen` on the table, one name at a time and in
      request order. */
  function AddListeners(ns: map<string, NsRecord>, id: SessionId, names: seq<string>): map<string, NsRecord>
    decreases |names|
  {
    if names == [] then ns
    else
      var prev := AddListeners(ns, id, names[..|names| - 1]);
      var n := names[|names| - 1];
      prev[n := Base(prev, n).(listeners := Base(prev, n).listeners + {id})]
  }

  /** The same loop on the buffer: the count of each name, staged in turn. */
  function Stage(ns: map<string, NsRecord>, names: seq<string>): map<string, int>
    decreases |names|
  {
    if names == [] then map[]
    else Stage(ns, names[..|names| - 1])[names[|names| - 1] := Base(ns, names[|names| - 1]).members]
  }

  /** Subscribing never moves a count. */
  lemma {:induction false} AddListenersMembers(ns: map<string, NsRecord>, id: SessionId, names: seq<string>, n: string)
    ensures Base(AddListeners(ns, id, names), n).members == Base(ns, n).members
    decreases |names|
  {
    if names != [] {
      AddListenersMembers(ns, id, names[..|names| - 1], n);
    }
  }

  lemma {:induction false} AddListenersIsListened(ns: map<string, NsRecord>, id: SessionId, names: seq<string>)
    ensures AddListeners(ns, id, names) == Listened(ns, id, Elems(names))
    decreases |names|
  {
    if names == [] {
      assert Elems(names) == {};
    } else {
      var k := |names| - 1;
      AddListenersIsListened(ns, id, names[..k]);
      ElemsPrefix(names, k);
      assert names[..k + 1] == names;
      ListenedStep(ns, id, Elems(names[..k]), names[k]);
    }
  }

  lemma {:induction false} StageIsSnapshot(ns: map<string, NsRecord>, names: seq<string>)
    ensures Stage(ns, names) == Snapshot(ns, Elems(names))
    decreases |names|
  {
    if names == [] {
      assert Elems(names) == {};
    } else {
      var k := |names| - 1;
      StageIsSnapshot(ns, names[..k]);
      ElemsPrefix(names, k);
      assert names[..k + 1] == names;
      SnapshotStep(ns, Elems(names[..k]), names[k]);
    }
  }

  /** Staging one more entry on top of a buffer. */
  lemma MergeUpdate(a: map<string, int>, b: map<string, int>, k: string, v: int)
    ensures (a + b)[k := v] == a + b[k := v]
  {
  }

  /** `send_notif`: send a non-empty buffer and clear it. */
  function Flush(s: Session): (r: (Session, Option<Message>))
    ensures r.0 == s.(notif := map[])
    ensures r.1.Some? <==> s.notif != map[]
  {
    if s.notif != map[] then (s.(notif := map[]), Some(Counts(s.notif))) else (s, None)
  }

  /** `listen` once the list has passed validation. */
  function ListenSpec(st: State, id: SessionId, names: seq<string>): (r: Reply)
    requires id in st.sessions && ListenedStored(st, id)
    ensures r.next.sessions == st.sessions[id := st.sessions[id].(listened := Elems(names), notif := map[])]
    ensures Elems(names) <= r.next.namespaces.Keys
  {
    var st1 := UnlistenSpec(st, id);
    var s := st1.sessions[id];
    var staged := s.(listened := Elems(names), notif := s.notif + Snapshot(st1.namespaces, Elems(names)));
    var (s', sent) := Flush(staged);
    Reply(State(Listened(st1.namespaces, id, Elems(names)), st1.sessions[id := s']), sent)
  }

  /** `listen` as its loop computes it, name by name. */
  lemma ListenByLoop(st: State, id: SessionId, names: seq<string>, st1: State, staged: Session)
    requires id in st.sessions && ListenedStored(st, id)
    requires st1 == UnlistenSpec(st, id)
    requires staged == st1.sessions[id].(listened := st1.sessions[id].listened + Elems(names),
                                         notif := st1.sessions[id].notif + Stage(st1.namespaces, names))
    ensures ListenSpec(st, id, names)
         == Reply(State(AddListeners(st1.namespaces, id, names), st1.sessions[id := Flush(staged).0]),
                  Flush(staged).1)
  {
    AddListenersIsListened(st1.namespaces, id, names);
    StageIsSnapshot(st1.namespaces, names);
    assert st1.sessions[id].listened + Elems(names) == Elems(names);
  }

  /** The reset `on_message` performs before every command in the variants
      that keep no per-connection initialisation. */
  function ResetSpec(st: State, id: SessionId): (r: State)
    ensures r.namespaces == st.namespaces && r.sessions.Keys == st.sessions.Keys + {id}
    ensures r.sessions[id] == EmptySession
    ensures forall other :: other in st.sessions && other != id ==> r.sessions[other] == st.sessions[other]
  {
    State(st.namespaces, st.sessions[id := EmptySession])
  }

  // ---------------------------------------------------------------------
  // Sweep

  /** A namespace the sweep reports: it has listeners and its count moved. */
  predicate Changed(r: NsRecord)
  {
    r.listeners != {} && r.lastNotified != r.members
  }

  function Mark(r: NsRecord): NsRecord
  {
    r.(lastNotified := r.members)
  }

  /** The entries staged into `id`'s buffer by the namespaces in `done`. */
  function StagedAmong(ns: map<string, NsRecord>, id: SessionId, done: set<string>): map<string, int>
  {
    map n | n in done && n in ns && Changed(ns[n]) && id in ns[n].listeners :: ns[n].members
  }

  function Staged(ns: map<string, NsRecord>, id: SessionId): map<string, int>
  {
    StagedAmong(ns, id, ns.Keys)
  }

  lemma StagedStep(ns: map<string, NsRecord>, id: SessionId, done: set<string>, n: string)
    requires n in ns && n !in done
    ensures StagedAmong(ns, id, done + {n})
         == if Changed(ns[n]) && id in ns[n].listeners
            then StagedAmong(ns, id, done)[n := ns[n].members]
            else StagedAmong(ns, id, done)
  {
  }

  /** The table once the records in `done` have been swept. */
  function MarkedAmong(ns: map<string, NsRecord>, done: set<string>): map<string, NsRecord>
  {
    map n | n in ns :: if n in done && Changed(ns[n]) then Mark(ns[n]) else ns[n]
  }

  lemma MarkedStep(ns: map<string, NsRecord>, done: set<string>, n: string)
    requires n in ns && n !in done
    ensures n in MarkedAmong(ns, done) && MarkedAmong(ns, done)[n] == ns[n]
    ensures MarkedAmong(ns, done + {n})
         == if Changed(ns[n]) then MarkedAmong(ns, done)[n := Mark(ns[n])] else MarkedAmong(ns, done)
  {
  }

  function SweptNamespaces(ns: map<string, NsRecord>): map<string, NsRecord>
  {
    MarkedAmong(ns, ns.Keys)
  }

  /** The one batched message each session gets from a sweep. */
  function SweepMessages(st: State): (r: map<SessionId, map<string, int>>)
    requires Idle(st)
    ensures forall id :: id in r ==> id in st.sessions && r[id] != map[]
  {
    map id | id in st.sessions && Staged(st.namespaces, id) != map[] :: Staged(st.namespaces, id)
  }

  /** The messages the transport accepts: sends to the unreachable sessions
      fail and are swallowed. */
  function Deliverable(sent: map<SessionId, map<string, int>>, unreachable: set<SessionId>): (d: map<SessionId, map<string, int>>)
  {
    map id | id in sent && id !in unreachable :: sent[id]
  }

  /** The buffers `send_notif` hands to the transport for the sessions in
      `done`, keeping those the transport accepts. */
  function Collected(ss: map<SessionId, Session>, done: set<SessionId>, unreachable: set<SessionId>)
    : map<SessionId, map<string, int>>
  {
    map id | id in done && id in ss && id !in unreachable && ss[id].notif != map[] :: ss[id].notif
  }

  lemma CollectedStep(ss: map<SessionId, Session>, done: set<SessionId>, unreachable: set<SessionId>, ws: SessionId)
    requires ws in ss && ws !in done
    ensures Collected(ss, done + {ws}, unreachable)
         == if ws !in unreachable && ss[ws].notif != map[]
            then Collected(ss, done, unreachable)[ws := ss[ws].notif]
            else Collected(ss, done, unreachable)
  {
  }

  /** A sweep with every buffer empty beforehand leaves the buffers empty again. */
  function SweepSpec(st: State): (r: State)
    requires Idle(st)
    ensures r.sessions == st.sessions && r.namespaces.Keys == st.namespaces.Keys
  {
    State(SweptNamespaces(st.namespaces), st.sessions)
  }

  // ---------------------------------------------------------------------
  // Read path

  function Stats(st: State): (r: map<string, int>)
    ensures r.Keys == st.namespaces.Keys
    ensures forall n :: n in r ==> r[n] == st.namespaces[n].members
  {
    map n | n in st.namespaces :: st.namespaces[n].members
  }

  function Info(st: State, name: string): (r: int)
    ensures name in st.namespaces ==> r == st.namespaces[name].members
    ensures name !in st.namespaces ==> r == 0
  {
    if name in st.namespaces then st.namespaces[name].members else 0
  }
}
