/** What the registry operations promise their callers, stated on the
    value-level transitions that the `Registry` methods are proved to
    perform. */
module RegistryProperties {
  import opened Types
  import opened RegistrySpec
  import opened RegistryLemmas

  // ---------------------------------------------------------------------
  // Table maintenance

  /** `get_namespace` hands back a stored record untouched, or stores a
      fresh one under the new name and changes nothing else. */
  lemma GetNsInserts(ns: map<string, NsRecord>, name: string)
    ensures name in GetNs(ns, name) && GetNs(ns, name)[name] == Base(ns, name)
    ensures name in ns ==> GetNs(ns, name) == ns && Base(ns, name) == ns[name]
    ensures name !in ns ==> Base(ns, name) == NsRecord(0, 0, {}, name)
    ensures GetNs(ns, name).Keys == ns.Keys + {name}
    ensures forall n :: n in ns ==> GetNs(ns, name)[n] == ns[n]
  {
  }

  /** `clean_namespace` deletes the record exactly when it has neither
      members nor listeners, and touches no other entry. */
  lemma CleanDeletesDead(ns: map<string, NsRecord>, name: string)
    requires name in ns
    ensures name in Clean(ns, name) <==> ns[name].members != 0 || ns[name].listeners != {}
    ensures Clean(ns, name).Keys == ns.Keys - (if Dead(ns[name]) then {name} else {})
    ensures forall n :: n in Clean(ns, name) ==> Clean(ns, name)[n] == ns[n]
  {
  }

  // ---------------------------------------------------------------------
  // leave, unlisten, remove

  /** `leave` on a session that joined nothing changes nothing. */
  lemma LeaveUnjoined(st: State, id: SessionId)
    requires id in st.sessions && st.sessions[id].joined == None
    ensures LeaveSpec(st, id) == st
  {
    assert st.sessions[id := st.sessions[id].(joined := None)] == st.sessions;
  }

  /** `unlisten` takes the session out of each record it listened to,
      deletes those left dead, clears `listened`, and leaves every other
      record and session as it was. */
  lemma {:induction false} UnlistenDetaches(st: State, id: SessionId)
    requires WellFormed(st) && id in st.sessions
    ensures var r := UnlistenSpec(st, id);
      var L := st.sessions[id].listened;
      && r.sessions == st.sessions[id := st.sessions[id].(listened := {})]
      && r.namespaces.Keys <= st.namespaces.Keys
      && (forall n :: n in st.namespaces && n !in L ==> n in r.namespaces && r.namespaces[n] == st.namespaces[n])
      && (forall n :: n in L ==>
            (n in r.namespaces <==> !Dead(Drop(st.namespaces[n], id)))
            && (n in r.namespaces ==> r.namespaces[n] == Drop(st.namespaces[n], id)))
  {
    var r := UnlistenSpec(st, id);
    var L := st.sessions[id].listened;
    forall n | n in L
      ensures (n in r.namespaces <==> !Dead(Drop(st.namespaces[n], id)))
      ensures n in r.namespaces ==> r.namespaces[n] == Drop(st.namespaces[n], id)
    {
      assert n in st.namespaces;
    }
  }

  /** After `remove` the session is counted in no namespace and, when the
      registry was consistent, listed as listener of none. */
  lemma {:induction false} RemoveDetaches(st: State, id: SessionId)
    requires Consistent(st) && id in st.sessions
    ensures var r := RemoveSpec(st, id);
      && r.sessions[id] == st.sessions[id].(joined := None, listened := {})
      && (forall other :: other in st.sessions && other != id ==> r.sessions[other] == st.sessions[other])
      && (forall n :: n in r.namespaces ==> id !in r.namespaces[n].listeners && id !in JoinedSet(r.sessions, n))
  {
    LeaveKeepsConsistent(st, id);
    UnlistenKeepsConsistent(LeaveSpec(st, id), id);
  }

  // ---------------------------------------------------------------------
  // join

  /** Joining the namespace already joined changes nothing. */
  lemma JoinSameIsNoop(st: State, id: SessionId, name: string)
    requires WellFormed(st) && id in st.sessions && st.sessions[id].joined == Some(name)
    ensures JoinSpec(st, id, name) == st
  {
    assert name in st.namespaces;
  }

  /** Joining another namespace: the old one loses that member and is
      deleted if left dead, the new one gains it (created at 0 if need be),
      the session now names the new one, and nothing else changes. */
  lemma {:induction false} JoinMoves(st: State, id: SessionId, name: string)
    requires WellFormed(st) && id in st.sessions && st.sessions[id].joined != Some(name)
    ensures var r := JoinSpec(st, id, name);
      && r.sessions == st.sessions[id := st.sessions[id].(joined := Some(name))]
      && name in r.namespaces
      && r.namespaces[name] == Base(st.namespaces, name).(members := Base(st.namespaces, name).members + 1)
      && (forall n :: n in st.namespaces && n != name && Some(n) != st.sessions[id].joined ==>
            n in r.namespaces && r.namespaces[n] == st.namespaces[n])
      && r.namespaces.Keys <= st.namespaces.Keys + {name}
      && (st.sessions[id].joined.Some? ==>
            var a := st.sessions[id].joined.value;
            var dec := st.namespaces[a].(members := st.namespaces[a].members - 1);
            (a in r.namespaces <==> !Dead(dec)) && (a in r.namespaces ==> r.namespaces[a] == dec))
  {
    var st1 := State(GetNs(st.namespaces, name), st.sessions);
    var st2 := LeaveSpec(st1, id);
    assert name in st2.namespaces && st2.namespaces[name] == Base(st.namespaces, name);
  }

  // ---------------------------------------------------------------------
  // listen

  /** On a consistent registry `listen` replaces the subscriptions: the
      session then listens to exactly the requested names, on both sides. */
  lemma {:induction false} ListenReplaces(st: State, id: SessionId, names: seq<string>)
    requires Consistent(st) && id in st.sessions
    ensures var r := ListenSpec(st, id, names).next;
      && r.sessions[id].listened == Elems(names)
      && Elems(names) <= r.namespaces.Keys
      && (forall n :: n in r.namespaces ==> (id in r.namespaces[n].listeners <==> n in names))
  {
    UnlistenKeepsConsistent(st, id);
    ListenShape(st, id, names);
  }

  /** `listen` answers with one message holding the current count of each
      requested name, zero counts included; it leaves the buffer empty and
      moves no count and no `last_notified_value` of a record it did not
      delete, compared with the state before the call. */
  lemma {:induction false} ListenAcknowledges(st: State, id: SessionId, names: seq<string>)
    requires WellFormed(st) && id in st.sessions
    ensures var r := ListenSpec(st, id, names);
      && r.next.sessions[id].notif == map[]
      && (names == [] <==> r.sent == None)
      && (r.sent.Some? ==>
            r.sent.value.Counts? && r.sent.value.counts.Keys == Elems(names)
            && forall n :: n in r.sent.value.counts ==>
                 n in r.next.namespaces && r.sent.value.counts[n] == r.next.namespaces[n].members)
      && (forall n :: n in r.next.namespaces && n in UnlistenSpec(st, id).namespaces ==>
            r.next.namespaces[n].members == UnlistenSpec(st, id).namespaces[n].members
            && r.next.namespaces[n].lastNotified == UnlistenSpec(st, id).namespaces[n].lastNotified)
      && (forall n :: n in st.namespaces && n in UnlistenSpec(st, id).namespaces ==>
            n in r.next.namespaces
            && r.next.namespaces[n].members == st.namespaces[n].members
            && r.next.namespaces[n].lastNotified == st.namespaces[n].lastNotified)
  {
    UnlistenDetaches(st, id);
    ListenShape(st, id, names);
    var st1 := UnlistenSpec(st, id);
    if names != [] {
      assert names[0] in Elems(names);
    }
  }

  /** Re-listening to a namespace whose only tie was this session's own
      subscription deletes it and creates it anew, with its notified
      baseline back at 0. */
  lemma {:induction false} RelistenResetsBaseline(st: State, id: SessionId, names: seq<string>, n: string)
    requires WellFormed(st) && id in st.sessions
    requires n in st.sessions[id].listened && n in names
    requires st.namespaces[n].members == 0 && st.namespaces[n].listeners == {id}
    ensures var r := ListenSpec(st, id, names).next;
      n in r.namespaces && r.namespaces[n].lastNotified == 0 && r.namespaces[n].members == 0
  {
    UnlistenDetaches(st, id);
    ListenShape(st, id, names);
    assert n !in UnlistenSpec(st, id).namespaces;
  }

  // ---------------------------------------------------------------------
  // Sweep

  /** The sweep marks exactly the changed records and leaves all others as
      they were. */
  lemma SweepMarksChanged(st: State)
    requires Idle(st)
    ensures var r := SweepSpec(st);
      && r.sessions == st.sessions && r.namespaces.Keys == st.namespaces.Keys
      && (forall n :: n in st.namespaces ==>
            r.namespaces[n] == if Changed(st.namespaces[n]) then Mark(st.namespaces[n]) else st.namespaces[n])
  {
  }

  /** Each session gets at most one message, never an empty one; it holds
      the count of every changed namespace it listens to, and only those. */
  lemma SweepMessagesExact(st: State)
    requires Idle(st)
    ensures forall id :: id in SweepMessages(st) ==> id in st.sessions && SweepMessages(st)[id] != map[]
    ensures forall id, n :: id in SweepMessages(st) ==>
      (n in SweepMessages(st)[id] <==> n in st.namespaces && Changed(st.namespaces[n]) && id in st.namespaces[n].listeners)
    ensures forall id, n :: id in SweepMessages(st) && n in SweepMessages(st)[id] ==>
      SweepMessages(st)[id][n] == st.namespaces[n].members
    ensures forall id, n ::
      (id in st.sessions && n in st.namespaces && Changed(st.namespaces[n]) && id in st.namespaces[n].listeners)
      ==> id in SweepMessages(st)
  {
    forall id, n | id in st.sessions && n in st.namespaces && Changed(st.namespaces[n])
      && id in st.namespaces[n].listeners
      ensures id in SweepMessages(st)
    {
      assert n in Staged(st.namespaces, id);
    }
  }

  /** A second sweep with no change in between sends nothing and changes
      nothing. */
  lemma {:induction false} SweepTwiceSendsNothing(st: State)
    requires Idle(st)
    ensures SweepMessages(SweepSpec(st)) == map[]
    ensures SweepSpec(SweepSpec(st)) == SweepSpec(st)
  {
    SweptFields(st.namespaces);
    var ns := SweptNamespaces(st.namespaces);
    forall n | n in ns
      ensures !Changed(ns[n])
    {
    }
    forall id | id in st.sessions
      ensures Staged(ns, id) == map[]
    {
    }
    assert SweptNamespaces(ns) == ns;
  }

  /** `listen` does not move `last_notified_value`, so a record whose
      listeners were not yet told its count is pushed again by the next
      sweep: the new listener receives the same count twice, once in the
      acknowledgement and once from the sweep. */
  lemma {:induction false} ListenThenSweepRepeats(st: State, id: SessionId, names: seq<string>, n: string)
    requires WellFormed(st) && id in st.sessions && n in names && n in st.namespaces
    requires st.namespaces[n].members > 0 && st.namespaces[n].lastNotified != st.namespaces[n].members
    ensures var r := ListenSpec(st, id, names);
      && r.sent.Some? && r.sent.value.Counts? && n in r.sent.value.counts
      && r.sent.value.counts[n] == st.namespaces[n].members
      && id in SweepMessages(r.next) && n in SweepMessages(r.next)[id]
      && SweepMessages(r.next)[id][n] == st.namespaces[n].members
  {
    UnlistenDetaches(st, id);
    ListenAcknowledges(st, id, names);
    ListenShape(st, id, names);
    ListenKeepsWellFormed(st, id, names);
    var r := ListenSpec(st, id, names).next;
    var st1 := UnlistenSpec(st, id);
    assert n in Elems(names);
    assert n in st1.namespaces;
    assert n in r.namespaces && id in r.namespaces[n].listeners;
    SweepMessagesExact(r);
  }

  /** `send_notif` sends only a non-empty buffer, sends it whole, and
      always leaves it empty. */
  lemma FlushSendsNonEmpty(s: Session)
    ensures Flush(s).0 == s.(notif := map[])
    ensures Flush(s).1.Some? <==> s.notif != map[]
    ensures Flush(s).1.Some? ==> Flush(s).1.value == Counts(s.notif)
  {
  }

  // ---------------------------------------------------------------------
  // Read path

  /** Every stored record is alive and no count is negative. */
  lemma StoredAreLive(st: State)
    requires WellFormed(st)
    ensures forall n :: n in st.namespaces ==>
      st.namespaces[n].members >= 0 && (st.namespaces[n].members > 0 || st.namespaces[n].listeners != {})
  {
  }

  /** On a consistent registry `stats` reports, for every stored name, the
      number of sessions joined to it. */
  lemma {:induction false} StatsCountsMembers(st: State)
    requires Consistent(st)
    ensures Stats(st).Keys == st.namespaces.Keys
    ensures forall n :: n in Stats(st) ==> Stats(st)[n] == JoinedCount(st.sessions, n)
  {
    forall n | n in Stats(st)
      ensures Stats(st)[n] == JoinedCount(st.sessions, n)
    {
      InfoCountsMembers(st, n);
    }
  }

  /** On a consistent registry `info` is the number of sessions joined to
      the name, stored or not. */
  lemma {:induction false} InfoCountsMembers(st: State, name: string)
    requires Consistent(st)
    ensures Info(st, name) == JoinedCount(st.sessions, name)
  {
    if name !in st.namespaces {
      NoJoinedOutside(st, name);
    }
  }
}
