/** Every session change keeps the registry well formed, and the ones the
    once-initialised connection performs keep it consistent. */
module RegistryLemmas {
  import opened Types
  import opened RegistrySpec

  /** A session joined to `n` makes `n`'s count positive. */
  lemma JoinedPositive(ss: map<SessionId, Session>, id: SessionId, n: string)
    requires id in ss && ss[id].joined == Some(n)
    ensures JoinedCount(ss, n) >= 1
  {
    assert id in JoinedSet(ss, n);
  }

  /** Two distinct sessions joined to `n` make its count at least two. */
  lemma JoinedTwo(ss: map<SessionId, Session>, id: SessionId, other: SessionId, n: string)
    requires id in ss && ss[id].joined == Some(n)
    requires other in ss && other != id && ss[other].joined == Some(n)
    ensures JoinedCount(ss, n) >= 2
  {
    var ss' := ss[id := ss[id].(joined := None)];
    JoinedPositive(ss', other, n);
    JoinedCountUpdate(ss, id, ss[id].(joined := None), n);
  }

  /** No session is joined to a name the table does not hold. */
  lemma NoJoinedOutside(st: State, n: string)
    requires WellFormed(st) && n !in st.namespaces
    ensures JoinedCount(st.sessions, n) == 0
  {
    assert JoinedSet(st.sessions, n) == {};
  }

  // ---------------------------------------------------------------------
  // leave and unlisten

  /** WellFormed, except that the record stored at `x` may be dead: the
      state `join` passes through after `get_namespace` created `x`. */
  predicate WellFormedBut(st: State, x: string)
  {
    && (forall n :: n in st.namespaces ==> st.namespaces[n].name == n)
    && (forall n :: n in st.namespaces && n != x ==> !Dead(st.namespaces[n]))
    && (forall n :: n in st.namespaces ==> st.namespaces[n].members >= JoinedCount(st.sessions, n))
    && (forall n :: n in st.namespaces ==> st.namespaces[n].listeners <= st.sessions.Keys)
    && (forall id :: id in st.sessions ==> JoinedStored(st, id))
    && (forall id :: id in st.sessions ==> ListenedStored(st, id))
    && (forall id :: id in st.sessions ==> st.sessions[id].notif == map[])
  }

  lemma GetNsKeepsWellFormedBut(st: State, name: string)
    requires WellFormed(st)
    ensures WellFormedBut(State(GetNs(st.namespaces, name), st.sessions), name)
  {
    if name !in st.namespaces {
      NoJoinedOutside(st, name);
    }
  }

  lemma {:induction false} LeaveKeepsWellFormedBut(st: State, id: SessionId, x: string)
    requires WellFormedBut(st, x) && id in st.sessions && st.sessions[id].joined != Some(x)
    ensures WellFormedBut(LeaveSpec(st, id), x)
  {
    var r := LeaveSpec(st, id);
    if st.sessions[id].joined.Some? {
      var a := st.sessions[id].joined.value;
      var s' := st.sessions[id].(joined := None);
      forall n | n in r.namespaces
        ensures r.namespaces[n].members >= JoinedCount(r.sessions, n)
      {
        JoinedCountUpdate(st.sessions, id, s', n);
      }
      forall other | other in r.sessions
        ensures JoinedStored(r, other)
      {
        if other != id && r.sessions[other].joined == Some(a) {
          JoinedTwo(st.sessions, id, other, a);
        }
      }
      forall other | other in r.sessions
        ensures ListenedStored(r, other)
      {
        forall n | n in r.sessions[other].listened
          ensures n in r.namespaces && other in r.namespaces[n].listeners
        {
          assert other in st.namespaces[n].listeners;
        }
      }
    }
  }

  lemma LeaveKeepsWellFormed(st: State, id: SessionId)
    requires WellFormed(st) && id in st.sessions
    ensures WellFormed(LeaveSpec(st, id))
  {
    if st.sessions[id].joined.Some? {
      // Any name other than the one left will do as the exempt record.
      var x := st.sessions[id].joined.value + "'";
      assert |x| != |st.sessions[id].joined.value|;
      LeaveKeepsWellFormedBut(st, id, x);
    }
  }

  lemma {:induction false} UnlistenKeepsWellFormed(st: State, id: SessionId)
    requires WellFormed(st) && id in st.sessions
    ensures WellFormed(UnlistenSpec(st, id))
  {
    var r := UnlistenSpec(st, id);
    var L := st.sessions[id].listened;
    forall n | n in r.namespaces
      ensures r.namespaces[n].members >= JoinedCount(r.sessions, n)
    {
      JoinedCountKeep(st.sessions, id, r.sessions[id], n);
    }
    forall other | other in r.sessions
      ensures JoinedStored(r, other)
    {
      if r.sessions[other].joined.Some? {
        var a := r.sessions[other].joined.value;
        JoinedPositive(st.sessions, other, a);
      }
    }
    forall other | other in r.sessions
      ensures ListenedStored(r, other)
    {
      if other != id {
        forall n | n in r.sessions[other].listened
          ensures n in r.namespaces && other in r.namespaces[n].listeners
        {
          assert other in Drop(st.namespaces[n], id).listeners;
        }
      }
    }
  }

  lemma RemoveKeepsWellFormed(st: State, id: SessionId)
    requires WellFormed(st) && id in st.sessions
    ensures WellFormed(RemoveSpec(st, id))
  {
    LeaveKeepsWellFormed(st, id);
    UnlistenKeepsWellFormed(LeaveSpec(st, id), id);
  }

  lemma {:induction false} LeaveKeepsConsistent(st: State, id: SessionId)
    requires Consistent(st) && id in st.sessions
    ensures Consistent(LeaveSpec(st, id))
  {
    LeaveKeepsWellFormed(st, id);
    var r := LeaveSpec(st, id);
    if st.sessions[id].joined.Some? {
      forall n | n in r.namespaces
        ensures r.namespaces[n].members == JoinedCount(r.sessions, n)
      {
        JoinedCountUpdate(st.sessions, id, st.sessions[id].(joined := None), n);
      }
    }
  }

  /** After `unlisten`, only the session's own subscriptions are gone. */
  lemma {:induction false} UnlistenKeepsMatch(st: State, id: SessionId)
    requires Consistent(st) && id in st.sessions
    ensures var r := UnlistenSpec(st, id);
      forall n, other :: n in r.namespaces && other in r.namespaces[n].listeners ==>
        other in r.sessions && n in r.sessions[other].listened && other != id
  {
    var r := UnlistenSpec(st, id);
    forall n, other | n in r.namespaces && other in r.namespaces[n].listeners
      ensures other in r.sessions && n in r.sessions[other].listened && other != id
    {
      assert other in st.namespaces[n].listeners;
    }
  }

  lemma {:induction false} UnlistenKeepsConsistent(st: State, id: SessionId)
    requires Consistent(st) && id in st.sessions
    ensures Consistent(UnlistenSpec(st, id))
    ensures forall n :: n in UnlistenSpec(st, id).namespaces ==> id !in UnlistenSpec(st, id).namespaces[n].listeners
  {
    UnlistenKeepsWellFormed(st, id);
    UnlistenKeepsMatch(st, id);
    var r := UnlistenSpec(st, id);
    forall n | n in r.namespaces
      ensures r.namespaces[n].members == JoinedCount(r.sessions, n)
    {
      JoinedCountKeep(st.sessions, id, r.sessions[id], n);
    }
  }

  lemma RemoveKeepsConsistent(st: State, id: SessionId)
    requires Consistent(st) && id in st.sessions
    ensures Consistent(RemoveSpec(st, id))
  {
    LeaveKeepsConsistent(st, id);
    UnlistenKeepsConsistent(LeaveSpec(st, id), id);
  }

  // ---------------------------------------------------------------------
  // join

  /** The last step of `join`: count the session in `name`. */
  lemma {:induction false} EnterKeepsWellFormed(st: State, id: SessionId, name: string)
    requires WellFormedBut(st, name) && id in st.sessions && st.sessions[id].joined == None
    requires name in st.namespaces
    ensures WellFormed(Enter(st, id, name))
  {
    var s2 := st.sessions[id].(joined := Some(name));
    var r := Enter(st, id, name);
    forall n | n in r.namespaces
      ensures r.namespaces[n].members >= JoinedCount(r.sessions, n)
    {
      JoinedCountUpdate(st.sessions, id, s2, n);
    }
    forall other | other in r.sessions
      ensures ListenedStored(r, other)
    {
      forall n | n in r.sessions[other].listened
        ensures n in r.namespaces && other in r.namespaces[n].listeners
      {
        assert other in st.namespaces[n].listeners;
      }
    }
  }

  lemma JoinKeepsWellFormed(st: State, id: SessionId, name: string)
    requires WellFormed(st) && id in st.sessions
    ensures WellFormed(JoinSpec(st, id, name))
  {
    var st1 := State(GetNs(st.namespaces, name), st.sessions);
    if st.sessions[id].joined == Some(name) {
      assert GetNs(st.namespaces, name) == st.namespaces;
    } else {
      GetNsKeepsWellFormedBut(st, name);
      LeaveKeepsWellFormedBut(st1, id, name);
      EnterKeepsWellFormed(LeaveSpec(st1, id), id, name);
    }
  }

  /** `join` moves exactly one count: out of the old namespace (when there
      is one) and into the new one. */
  lemma {:induction false} JoinCounts(st: State, id: SessionId, name: string, n: string)
    requires WellFormed(st) && id in st.sessions
    requires n in JoinSpec(st, id, name).namespaces
    ensures var r := JoinSpec(st, id, name);
      r.namespaces[n].members - JoinedCount(r.sessions, n)
      == Base(st.namespaces, n).members - JoinedCount(st.sessions, n)
  {
    var r := JoinSpec(st, id, name);
    if st.sessions[id].joined != Some(name) {
      var st2 := LeaveSpec(State(GetNs(st.namespaces, name), st.sessions), id);
      var s2 := st2.sessions[id].(joined := Some(name));
      assert r.sessions == st.sessions[id := s2];
      JoinedCountUpdate(st.sessions, id, s2, n);
      if n !in st.namespaces {
        NoJoinedOutside(st, n);
      }
    }
  }

  /** After `join` every stored count is the number of sessions joined. */
  lemma {:induction false} JoinKeepsCounts(st: State, id: SessionId, name: string)
    requires Consistent(st) && id in st.sessions
    ensures var r := JoinSpec(st, id, name);
      forall n :: n in r.namespaces ==> r.namespaces[n].members == JoinedCount(r.sessions, n)
  {
    var r := JoinSpec(st, id, name);
    forall n | n in r.namespaces
      ensures r.namespaces[n].members == JoinedCount(r.sessions, n)
    {
      JoinCounts(st, id, name, n);
      if n !in st.namespaces {
        NoJoinedOutside(st, n);
      }
    }
  }

  /** `join` touches no listener set and no `listened` attribute. */
  lemma JoinKeepsSubscriptions(st: State, id: SessionId, name: string)
    requires WellFormed(st) && id in st.sessions
    ensures var r := JoinSpec(st, id, name);
      && r.sessions.Keys == st.sessions.Keys
      && (forall other :: other in r.sessions ==> r.sessions[other].listened == st.sessions[other].listened)
      && (forall n :: n in r.namespaces ==> r.namespaces[n].listeners == Base(st.namespaces, n).listeners)
  {
  }

  lemma {:induction false} JoinKeepsConsistent(st: State, id: SessionId, name: string)
    requires Consistent(st) && id in st.sessions
    ensures Consistent(JoinSpec(st, id, name))
  {
    JoinKeepsWellFormed(st, id, name);
    JoinKeepsCounts(st, id, name);
    JoinKeepsSubscriptions(st, id, name);
  }

  // ---------------------------------------------------------------------
  // listen

  /** With the buffer empty beforehand, `listen` ends with it empty again,
      and sends the snapshot exactly when the list is not empty. */
  lemma ListenShape(st: State, id: SessionId, names: seq<string>)
    requires WellFormed(st) && id in st.sessions
    ensures var st1 := UnlistenSpec(st, id);
      var L := Elems(names);
      && ListenSpec(st, id, names).next == Subscribed(st1, id, L)
      && ListenSpec(st, id, names).sent
         == if names == [] then None else Some(Counts(Snapshot(st1.namespaces, L)))
  {
    var st1 := UnlistenSpec(st, id);
    var L := Elems(names);
    assert st1.sessions[id].notif == map[];
    assert st1.sessions[id].notif + Snapshot(st1.namespaces, L) == Snapshot(st1.namespaces, L);
    if names != [] {
      assert names[0] in Snapshot(st1.namespaces, L);
    } else {
      assert Snapshot(st1.namespaces, L) == map[];
    }
  }

  /** The state the loop of `listen` leaves once the buffer is flushed. */
  function Subscribed(st: State, id: SessionId, L: set<string>): State
    requires id in st.sessions
  {
    State(Listened(st.namespaces, id, L),
          st.sessions[id := st.sessions[id].(listened := L, notif := map[])])
  }

  /** Subscribing moves no count and claims no membership. */
  lemma {:induction false} SubscribeKeepsCounts(st: State, id: SessionId, L: set<string>)
    requires WellFormed(st) && id in st.sessions
    ensures var r := Subscribed(st, id, L);
      forall n :: n in r.namespaces ==>
        r.namespaces[n].members == Base(st.namespaces, n).members
        && JoinedCount(r.sessions, n) == JoinedCount(st.sessions, n)
        && r.namespaces[n].members >= JoinedCount(r.sessions, n)
  {
    var r := Subscribed(st, id, L);
    forall n | n in r.namespaces
      ensures r.namespaces[n].members == Base(st.namespaces, n).members
      ensures JoinedCount(r.sessions, n) == JoinedCount(st.sessions, n)
    {
      JoinedCountKeep(st.sessions, id, r.sessions[id], n);
    }
    forall n | n in r.namespaces && n !in st.namespaces
      ensures JoinedCount(st.sessions, n) == 0
    {
      NoJoinedOutside(st, n);
    }
  }

  /** Every subscription the session makes is recorded on both sides, and
      the others' subscriptions survive. */
  lemma {:induction false} SubscribeKeepsListeners(st: State, id: SessionId, L: set<string>)
    requires WellFormed(st) && id in st.sessions
    ensures var r := Subscribed(st, id, L);
      forall other :: other in r.sessions ==> ListenedStored(r, other)
  {
    var r := Subscribed(st, id, L);
    forall other | other in r.sessions
      ensures ListenedStored(r, other)
    {
      if other != id {
        forall n | n in r.sessions[other].listened
          ensures n in r.namespaces && other in r.namespaces[n].listeners
        {
          assert other in st.namespaces[n].listeners;
        }
      }
    }
  }

  lemma {:induction false} SubscribeKeepsWellFormed(st: State, id: SessionId, L: set<string>)
    requires WellFormed(st) && id in st.sessions
    ensures WellFormed(Subscribed(st, id, L))
  {
    SubscribeKeepsCounts(st, id, L);
    SubscribeKeepsListeners(st, id, L);
    var r := Subscribed(st, id, L);
    forall n | n in r.namespaces
      ensures r.namespaces[n].name == n && !Dead(r.namespaces[n])
      ensures r.namespaces[n].listeners <= r.sessions.Keys
    {
      if n in L {
        assert id in r.namespaces[n].listeners;
      }
    }
  }

  lemma {:induction false} ListenKeepsWellFormed(st: State, id: SessionId, names: seq<string>)
    requires WellFormed(st) && id in st.sessions
    ensures WellFormed(ListenSpec(st, id, names).next)
  {
    UnlistenKeepsWellFormed(st, id);
    ListenShape(st, id, names);
    SubscribeKeepsWellFormed(UnlistenSpec(st, id), id, Elems(names));
  }

  /** A session with no subscriptions left that subscribes to `L` keeps
      the listener sets mirroring `listened`. */
  lemma {:induction false} SubscribeKeepsMatch(st: State, id: SessionId, L: set<string>)
    requires ListenersMatch(st) && id in st.sessions && st.sessions[id].listened == {}
    ensures ListenersMatch(Subscribed(st, id, L))
  {
    var r := Subscribed(st, id, L);
    forall n, other | n in r.namespaces && other in r.namespaces[n].listeners
      ensures other in r.sessions && n in r.sessions[other].listened
    {
      if other != id {
        assert other in st.namespaces[n].listeners;
      }
    }
  }

  lemma {:induction false} ListenKeepsConsistent(st: State, id: SessionId, names: seq<string>)
    requires Consistent(st) && id in st.sessions
    ensures Consistent(ListenSpec(st, id, names).next)
  {
    UnlistenKeepsConsistent(st, id);
    ListenKeepsWellFormed(st, id, names);
    var st1 := UnlistenSpec(st, id);
    ListenShape(st, id, names);
    SubscribeKeepsCounts(st1, id, Elems(names));
    SubscribeKeepsMatch(st1, id, Elems(names));
    var r := ListenSpec(st, id, names).next;
    forall n | n in r.namespaces
      ensures r.namespaces[n].members == JoinedCount(r.sessions, n)
    {
      if n !in st1.namespaces {
        NoJoinedOutside(st1, n);
      }
    }
  }

  // ---------------------------------------------------------------------
  // Session creation, reset and sweep

  /** `handle` sets the attributes of a new connection. */
  lemma InitKeepsConsistent(st: State, id: SessionId)
    requires Consistent(st) && id !in st.sessions
    ensures Consistent(ResetSpec(st, id))
  {
    var r := ResetSpec(st, id);
    forall n | n in r.namespaces
      ensures r.namespaces[n].members == JoinedCount(r.sessions, n)
    {
      JoinedCountUpdate(st.sessions, id, EmptySession, n);
    }
  }

  /** The per-message reset forgets the session's place in the registry but
      never breaks the weak invariant. */
  lemma ResetKeepsWellFormed(st: State, id: SessionId)
    requires WellFormed(st)
    ensures WellFormed(ResetSpec(st, id))
  {
    var r := ResetSpec(st, id);
    forall n | n in r.namespaces
      ensures r.namespaces[n].members >= JoinedCount(r.sessions, n)
    {
      JoinedCountUpdate(st.sessions, id, EmptySession, n);
    }
  }

  /** The sweep rewrites only `last_notified_value`. */
  lemma SweptFields(ns: map<string, NsRecord>)
    ensures SweptNamespaces(ns).Keys == ns.Keys
    ensures forall n :: n in ns ==>
      SweptNamespaces(ns)[n] == ns[n].(lastNotified := SweptNamespaces(ns)[n].lastNotified)
  {
  }

  lemma SweepKeepsWellFormed(st: State)
    requires WellFormed(st)
    ensures WellFormed(SweepSpec(st))
  {
    SweptFields(st.namespaces);
    var r := SweepSpec(st);
    forall n | n in r.namespaces
      ensures r.namespaces[n].members == st.namespaces[n].members
      ensures r.namespaces[n].listeners == st.namespaces[n].listeners
      ensures r.namespaces[n].name == st.namespaces[n].name
    {
    }
  }

  lemma SweepKeepsConsistent(st: State)
    requires Consistent(st)
    ensures Consistent(SweepSpec(st))
  {
    SweepKeepsWellFormed(st);
    SweptFields(st.namespaces);
    var r := SweepSpec(st);
    forall n | n in r.namespaces
      ensures r.namespaces[n].members == st.namespaces[n].members
      ensures r.namespaces[n].listeners == st.namespaces[n].listeners
    {
    }
  }

  /** The two loops of `notify` compose to the sweep: staging and then
      flushing every touched buffer leaves each buffer empty again, and the
      batch each listener is sent is exactly its staged counts. */
  lemma SweepComposes(st: State, staged: map<SessionId, Session>, touched: set<SessionId>,
                      flushed: map<SessionId, Session>, delivered: map<SessionId, map<string, int>>,
                      unreachable: set<SessionId>)
    requires forall id :: id in st.sessions ==> st.sessions[id].notif == map[]
    requires staged.Keys == st.sessions.Keys
    requires forall id :: id in st.sessions ==>
      staged[id] == st.sessions[id].(notif := Staged(st.namespaces, id))
    requires forall id :: id in st.sessions ==> (id in touched <==> Staged(st.namespaces, id) != map[])
    requires touched <= st.sessions.Keys
    requires flushed.Keys == staged.Keys
    requires forall id :: id in staged ==>
      flushed[id] == if id in touched then Flush(staged[id]).0 else staged[id]
    requires delivered == Collected(staged, touched, unreachable)
    ensures flushed == st.sessions
    ensures delivered == Deliverable(SweepMessages(st), unreachable)
  {
    forall id | id in st.sessions
      ensures flushed[id] == st.sessions[id]
    {
      if id in touched {
        assert staged[id].notif != map[];
      }
    }
    assert delivered.Keys == Deliverable(SweepMessages(st), unreachable).Keys;
  }
}
