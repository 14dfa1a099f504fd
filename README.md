# audience-meter presence registry, modelled in Dafny

audience-meter counts, per *namespace* (a string of at most 50
characters), how many live connections have joined it. Clients can also
*listen* to up to 20 namespaces and are pushed the new counts when they
change. The repository holds three near-identical servers:

- `audience_meter.py`: tornadio, with the sweep on a periodic timer.
- `other_implem/gunicorn_gevent/audience_meter.py`: gevent, with one read loop per connection.
- `tornado/audience_meter.py`: tornadio, with the sweep run after every successful message and every close.

All three share the same registry code: `get_namespace`, `clean_namespace`,
`leave`, `unlisten`, `remove`, `join`, `listen`, `send_notif`, `notify`,
`stats` and `info`. They differ in when a connection's three attributes
(`namespace`, `listened`, `notif`) are set, and in what happens around a
command.

## Structure

- `types.dfy` (`Types`): records, connection attributes, decoded
  commands, outbound messages and the two limits.
- `validation.dfy` (`Validation`): `check_namespace_name`,
  `check_namespaces_names`, Python truthiness, and the exact error texts.
- `registry_spec.dfy` (`RegistrySpec`): the registry as a value (`State`),
  with one pure function per registry operation. It also defines the two
  invariants:
  - `WellFormed` holds in every server. Stored records are never dead,
    each count is at least the number of connections claiming it,
    listener sets hold attached connections only, every joined or
    listened name is stored, and buffers are empty between events.
  - `Consistent` holds only when attributes are kept for the life of the
    connection. It adds that each count *equals* the number of
    connections joined, and that listener sets and `listened` mirror each
    other.
- `registry_lemmas.dfy` (`RegistryLemmas`): each operation preserves
  `WellFormed`, and `Consistent` where it holds.
- `commands.dfy` (`Commands`): the common body of a message. Decode, then
  `join` if asked, then `listen` if asked, with the error replies.
- `engine.dfy` (`Engine.Registry`): the registry as a class whose methods
  update `namespaces` and `sessions` in place, with the same loops as the
  source. Each method is proved to perform the pure transition of
  `RegistrySpec`.
- `root_server.dfy`, `tornado_server.dfy`, `gevent_server.dfy`: each
  server's connection handler.
- `properties.dfy` (`RegistryProperties`): what the operations promise
  their callers.
- `findings.dfy` (`Findings`): the defects listed below, each with its
  correction.

A connection is a `SessionId`. A connection whose attributes were never
set is one that is absent from `sessions`.

## Behaviour that follows the code

The model does what the code does, including where a natural reading of
the protocol expects otherwise. `listen` acknowledges the current counts
but never moves `last_notified_value` (audience_meter.py:132-141). So a
namespace whose listeners were not yet told its count is sent again by
the next sweep (audience_meter.py:147). Suppose A and B join `lobby` and
C then listens to it: C's reply is `{"lobby": 2}`, and the first sweep
sends C `{"lobby": 2}` a second time, not nothing.
`RegistryProperties.ListenThenSweepRepeats` states this.

## Model

| member | source | states |
|---|---|---|
| Validation.CheckNamespaceName | audience_meter.py:24-28 | passes exactly the strings of at most 50 characters; non-strings get the "must be a tring" error, longer strings the limit error |
| Validation.FirstNameError | audience_meter.py:36-37 | passes iff every element is a valid name; otherwise returns the error of the first failing element, all before it valid |
| Validation.CheckNamespacesNames | audience_meter.py:30-37 | passes exactly the lists of at most 20 valid names; non-lists, overlong lists and each bad element get their own error, in that order |
| Validation.NamesOf | audience_meter.py:136 | the names of an accepted list, one per element, in request order |
| Validation.LimitsAreExact | audience_meter.py:12-13 | 51 characters and 21 names are refused with the 50/20 messages; 50 characters pass |
| RegistrySpec.GetNs | audience_meter.py:78-89 | the table after `get_namespace`: the name is stored, no other entry changes, and a new name gets a fresh record |
| RegistrySpec.Clean | audience_meter.py:92-94 | the table after `clean_namespace`: the name stays iff its record is not dead, and no other entry changes |
| RegistrySpec.UnlistenSpec | audience_meter.py:102-107 | the state after `unlisten`: `listened` is cleared, no record is added, and no listened record that survives still lists the connection |
| RegistrySpec.RemoveSpec | audience_meter.py:118-120 | the state after `remove`: the connection's `namespace` and `listened` are cleared, other connections are unchanged, no record is added |
| RegistrySpec.JoinSpec | audience_meter.py:122-130 | the state after a validated `join`: the connection names the new namespace, that namespace is stored, and at most that one record is added |
| RegistrySpec.Flush | audience_meter.py:69-72 | `send_notif`: a message is produced iff the buffer is non-empty, and the buffer is always left empty |
| RegistrySpec.ListenSpec | audience_meter.py:132-141 | the state and reply after a validated `listen`: the connection listens to exactly the requested names, its buffer is empty, and every requested name is stored |
| RegistrySpec.ResetSpec | audience_meter.py:44-46 | the per-message reset: the table is untouched, the connection gets empty attributes, and every other connection keeps its own |
| RegistrySpec.SweepMessages | audience_meter.py:143-154 | the batches a sweep sends when every buffer is empty beforehand: only to attached connections, and never an empty one |
| RegistrySpec.SweepSpec | audience_meter.py:143-154 | the state after a sweep that starts with every buffer empty: sessions unchanged and the same names stored |
| RegistrySpec.LeaveSpec | audience_meter.py:96-100 | clears `joined`; the joined record loses one member and is deleted iff it is then dead; every other record is unchanged |
| RegistrySpec.Stats | audience_meter.py:109-110 | one entry per stored namespace, holding its member count |
| RegistrySpec.Info | audience_meter.py:112-116 | the stored count, or 0 for an unknown name |
| RegistrySpec.ListenByLoop | audience_meter.py:132-141 | the name-by-name loop of `listen` computes the same table, buffer and reply as the set-level definition |
| RegistrySpec.AddListenersMembers | audience_meter.py:136-138 | subscribing moves no count |
| RegistrySpec.StageIsSnapshot | audience_meter.py:139-140 | the staged buffer maps each requested name to its count when staged |
| RegistrySpec.JoinedCountUpdate | audience_meter.py:129 | replacing one connection's attributes changes each count by exactly what it stops and starts claiming |
| RegistryLemmas.NoJoinedOutside | audience_meter.py:92-94 | no connection is joined to a name the table does not hold |
| RegistryLemmas.LeaveKeepsWellFormed | audience_meter.py:96-100 | `leave` preserves the weak invariant |
| RegistryLemmas.UnlistenKeepsWellFormed | audience_meter.py:102-107 | `unlisten` preserves the weak invariant, given that every listened name is stored and lists the connection, so no `listeners.remove` can fail |
| RegistryLemmas.RemoveKeepsWellFormed | audience_meter.py:118-120 | `remove` preserves the weak invariant |
| RegistryLemmas.JoinKeepsWellFormed | audience_meter.py:122-130 | `join` preserves the weak invariant |
| RegistryLemmas.ListenKeepsWellFormed | audience_meter.py:132-141 | `listen` preserves the weak invariant and leaves the buffer empty |
| RegistryLemmas.ResetKeepsWellFormed | audience_meter.py:44-46 | the per-message reset never breaks the weak invariant |
| RegistryLemmas.SweepKeepsWellFormed | audience_meter.py:143-154 | the sweep preserves the weak invariant |
| RegistryLemmas.LeaveKeepsConsistent | audience_meter.py:96-100 | `leave` preserves exact counts and matching subscriptions |
| RegistryLemmas.UnlistenKeepsConsistent | audience_meter.py:102-107 | `unlisten` preserves consistency and leaves the connection in no listener set |
| RegistryLemmas.RemoveKeepsConsistent | audience_meter.py:118-120 | `remove` preserves consistency |
| RegistryLemmas.JoinCounts | audience_meter.py:122-130 | after `join` each name's count moves exactly as its number of joined connections does |
| RegistryLemmas.JoinKeepsConsistent | audience_meter.py:122-130 | `join` preserves consistency |
| RegistryLemmas.ListenKeepsConsistent | audience_meter.py:132-141 | `listen` preserves consistency |
| RegistryLemmas.InitKeepsConsistent | other_implem/gunicorn_gevent/audience_meter.py:35-37 | giving a new connection empty attributes preserves consistency |
| RegistryLemmas.SweepKeepsConsistent | audience_meter.py:143-154 | the sweep preserves consistency |
| RegistryLemmas.SweepComposes | audience_meter.py:145-154 | staging every changed record into its listeners' buffers, then flushing the touched buffers, equals the sweep: buffers end empty and each reachable listener gets exactly its staged counts |
| RegistryProperties.GetNsInserts | audience_meter.py:78-89 | a stored record is returned untouched; otherwise a fresh record (0, 0, no listeners) is stored under the name and nothing else changes |
| RegistryProperties.CleanDeletesDead | audience_meter.py:92-94 | the record is deleted iff it has no members and no listeners; other entries are unchanged |
| RegistryProperties.LeaveUnjoined | audience_meter.py:97 | `leave` on a connection that joined nothing changes nothing |
| RegistryProperties.UnlistenDetaches | audience_meter.py:102-107 | the connection leaves each listened record, which is deleted iff then dead and otherwise differs only by that listener; `listened` is cleared; every other record and session is unchanged |
| RegistryProperties.RemoveDetaches | audience_meter.py:118-120 | on a consistent registry, after `remove` the connection is counted nowhere and listed nowhere; other connections are unchanged |
| RegistryProperties.JoinSameIsNoop | audience_meter.py:125-127 | joining the namespace already joined changes nothing |
| RegistryProperties.JoinMoves | audience_meter.py:122-130 | joining another namespace moves one member from the old record (deleted iff dead) to the new one (created if needed); nothing else changes |
| RegistryProperties.ListenReplaces | audience_meter.py:132-141 | on a consistent registry the connection then listens to exactly the requested names, on both sides |
| RegistryProperties.ListenAcknowledges | audience_meter.py:136-141 | one reply carrying the current count of every requested name (none for an empty list); the buffer ends empty; every record `unlisten` did not delete keeps the count and notified baseline it had before the call |
| RegistryProperties.RelistenResetsBaseline | audience_meter.py:102-107 | re-listening to a record kept alive only by this connection deletes and re-creates it, resetting its notified baseline to 0 |
| RegistryProperties.SweepMarksChanged | audience_meter.py:147-152 | exactly the changed records (listeners, count moved) get `last_notified_value := members` |
| RegistryProperties.SweepMessagesExact | audience_meter.py:145-154 | each connection gets at most one non-empty message, with the count of every changed namespace it listens to and only those |
| RegistryProperties.SweepTwiceSendsNothing | audience_meter.py:147-152 | a second sweep with no change in between sends nothing and changes nothing |
| RegistryProperties.ListenThenSweepRepeats | audience_meter.py:132-154 | a namespace whose count its listeners were not yet told is acknowledged to a new listener and then sent to it again by the next sweep, with the same count |
| RegistryProperties.FlushSendsNonEmpty | audience_meter.py:69-72 | `send_notif` sends the whole buffer iff it is non-empty and always leaves it empty |
| RegistryProperties.StoredAreLive | audience_meter.py:92-94 | every stored record has a non-negative count and a member or a listener |
| RegistryProperties.StatsCountsMembers | audience_meter.py:109-110 | on a consistent registry `stats` reports, for every stored namespace, the number of connections joined to it |
| RegistryProperties.InfoCountsMembers | audience_meter.py:112-116 | on a consistent registry `info` is the number of connections joined |
| Commands.ProcessSpec | audience_meter.py:48-63 | the weak invariant holds after every command, and the connection still has its attributes |
| Commands.ProcessOutcomes | audience_meter.py:48-63 | bad JSON and non-objects get their error replies and change nothing; the reply is an error exactly when decoding, the join check or the listen check fails; an error leaves the state as the join (if it ran) left it, with the failing validator's message; a successful listen replies with the counts of exactly the requested names; no listen, no reply |
| Commands.ProcessKeepsConsistent | other_implem/gunicorn_gevent/audience_meter.py:45-60 | for a connection whose attributes persist, every command preserves consistency |
| Engine.Registry.constructor | other_implem/gunicorn_gevent/audience_meter.py:31-32 | starts empty and consistent |
| Engine.Registry.GetNamespace | audience_meter.py:78-89 | performs `GetNs` and returns the stored record |
| Engine.Registry.CleanNamespace | audience_meter.py:92-94 | performs `Clean`; the name stays iff the record was not dead |
| Engine.Registry.Leave | audience_meter.py:96-100 | performs `LeaveSpec` |
| Engine.Registry.Unlisten | audience_meter.py:102-107 | its loop performs `UnlistenSpec` |
| Engine.Registry.Remove | audience_meter.py:118-120 | performs `RemoveSpec`, keeping the invariant |
| Engine.Registry.Join | audience_meter.py:122-130 | returns the validator's verdict; performs `JoinSpec` on success and nothing on error |
| Engine.Registry.SendNotif | audience_meter.py:69-72 | performs `Flush` on one connection and touches no one else |
| Engine.Registry.Listen | audience_meter.py:132-141 | returns the validator's verdict; performs `ListenSpec` on success and nothing on error |
| Engine.Registry.ListenNames | audience_meter.py:135-141 | `unlisten`, the loop and the flush together perform `ListenSpec` |
| Engine.Registry.AddListener | audience_meter.py:136-140 | its loop subscribes each name in order and stages its count |
| Engine.Registry.HandleCommand | audience_meter.py:48-63 | performs `ProcessSpec` and keeps the invariant |
| Engine.Registry.Notify | audience_meter.py:143-154 | performs `SweepSpec` and returns the batches the transport accepted |
| Engine.Registry.StageChanged | audience_meter.py:145-152 | its loop marks exactly the changed records and stages each into its listeners' buffers |
| Engine.Registry.FlushAll | audience_meter.py:153-154 | its loop flushes every touched buffer, collecting the accepted ones |
| Engine.Registry.Stats | audience_meter.py:109-110 | one entry per stored namespace, holding its member count, read from the fields |
| Engine.Registry.Info | audience_meter.py:112-116 | the stored count of the name, or 0 when it is not stored |
| Engine.Registry.ResetSession | audience_meter.py:44-46 | sets the three attributes to empty |
| RootServer.MessageSpec | audience_meter.py:43-63 | resets the attributes, then processes the command; keeps the weak invariant |
| RootServer.CloseSpec | audience_meter.py:65-66 | `remove`, or no change for a connection that never spoke |
| RootServer.OnMessage | audience_meter.py:43-63 | performs `MessageSpec` |
| RootServer.OnClose | audience_meter.py:65-66 | performs `CloseSpec` |
| TornadoServer.MessageSpec | tornado/audience_meter.py:45-67 | resets, processes, and sweeps unless the reply is an error |
| TornadoServer.CloseSpec | tornado/audience_meter.py:69-72 | `remove` then sweep; no change for a connection that never spoke |
| TornadoServer.OnMessage | tornado/audience_meter.py:45-67 | performs `MessageSpec` |
| TornadoServer.OnClose | tornado/audience_meter.py:69-72 | performs `CloseSpec` |
| GeventServer.RunSpec | other_implem/gunicorn_gevent/audience_meter.py:38-60 | the read loop: `remove` on disconnect, stop on an error reply, otherwise go on; keeps the weak invariant |
| GeventServer.HandleSpec | other_implem/gunicorn_gevent/audience_meter.py:34-60 | sets the attributes once, then runs the loop |
| GeventServer.Handle | other_implem/gunicorn_gevent/audience_meter.py:34-60 | its loop performs `HandleSpec` |
| GeventServer.HandleKeepsConsistent | other_implem/gunicorn_gevent/audience_meter.py:34-60 | a new connection leaves a consistent registry consistent, whatever it sends |
| GeventServer.RunReadsPrefix | other_implem/gunicorn_gevent/audience_meter.py:38-43 | reads a prefix of the inbox, all of it while the connection stays open; a disconnect is the last entry read |
| GeventServer.RunStopsAtError | other_implem/gunicorn_gevent/audience_meter.py:57-60 | one reply per command; an error reply is always the last and ends the loop |
| GeventServer.RunIgnoresRest | other_implem/gunicorn_gevent/audience_meter.py:43 | once the loop returns, later messages change nothing |
| GeventServer.RemoveUntouched | other_implem/gunicorn_gevent/audience_meter.py:40-43 | a disconnect before any join or listen changes nothing |
| RootServer.InitOnceMessageSpec | audience_meter.py:43-46 | corrected handler: attributes set only for a new connection; keeps the weak invariant |
| Findings.JoinAfterReset | audience_meter.py:44-46 | after the reset a valid join counts the connection afresh, whatever it joined before |
| Findings.ListenAfterReset | audience_meter.py:44-46 | after the reset a listen unsubscribes nothing |
| Findings.RejoinDoublesCount | audience_meter.py:44-46 | re-sending the same join raises the count by one while the joined connections stay the same |
| Findings.RejoinLeavesPhantom | audience_meter.py:44-46 | from a consistent registry the re-join breaks consistency, and the surplus member survives `remove` |
| Findings.RelistenLeaksListener | audience_meter.py:44-46 | listening to another name leaves the connection in the old listener set; `remove` does not take it out |
| Findings.FirstMessagesReach | audience_meter.py:43-59 | one first message from a new connection reaches the joined and listening states the two lemmas above start from |
| Findings.TornadoRejoinDoublesCount | tornado/audience_meter.py:45-48 | the tornado handler double counts the same way, and the sweep that follows pushes the inflated count to a listener already told the true one |
| Findings.InitOnceKeepsConsistent | audience_meter.py:43-46 | the corrected handler keeps the registry consistent on every message |
| Findings.InitOnceCloseDetaches | audience_meter.py:65-66 | with the correction, counts stay exact and closing leaves the connection counted and listed nowhere |
| Findings.TornadoInitOnceSpec | tornado/audience_meter.py:45-67 | corrected tornado handler; keeps the weak invariant |
| Findings.TornadoInitOnceKeepsConsistent | tornado/audience_meter.py:45-67 | the corrected tornado handler keeps the registry consistent |
| Findings.AbortLeaksMember | other_implem/gunicorn_gevent/audience_meter.py:57-60 | a join followed by bad JSON ends the loop with the connection still joined and counted |
| Findings.HandleReleasingSpec | other_implem/gunicorn_gevent/audience_meter.py:57-60 | corrected handler: also `remove` on the error exit |
| Findings.RunDetachesOnDisconnect | other_implem/gunicorn_gevent/audience_meter.py:40-43 | a loop ending on a disconnect leaves the connection counted and listed nowhere |
| Findings.ReleasingDetaches | other_implem/gunicorn_gevent/audience_meter.py:34-60 | with the correction, however the handler ends, the registry is consistent and the connection is gone from it |

## Left out

- Transport: the websocket itself, `on_open`, `print` and the HTTP
  routes (`IndexHandler`, the WSGI `app` with `/stats.json`, templates)
  are not modelled. An outbound message is a returned value; a failed
  send is an `unreachable` parameter.
- JSON: decoding is not modelled. A message arrives as a decoded
  `Command`, and a decoded value keeps only what the handler inspects
  (string, array, or other with its truthiness).
- Timers: the `PeriodicCallback` and `gevent.spawn_later` that trigger
  `notify` are not modelled; `Engine.Registry.Notify` is one sweep, run
  whenever the timer fires.
- Concurrency: the model assumes each handler call and each sweep runs
  to completion before another starts. That holds for the tornado event
  loop. Under gevent it is an assumption: `send` writes to a gevent
  socket and can yield to another greenlet. That can happen inside the
  flush loop of `notify`, and inside `listen`'s closing `send_notif`,
  where the buffer is sent before it is cleared. Another connection's
  `join`, `listen`, `remove` or sweep running at such a point is not
  modelled. `join` does no I/O, so nothing can run between the `join`
  and the `listen` of one command.
- Gevent's unit of work: `Clients.handle` runs for the whole life of a
  connection and blocks in `ws.wait()` between messages
  (other_implem/gunicorn_gevent/audience_meter.py:39). That is where
  other connections' commands and the periodic `notify` run. So the unit
  of work is one iteration of the loop, not the whole handler.
  `GeventServer.RunSpec` and `GeventServer.Handle` model one connection
  whose messages are read with no other event between them, and
  `HandleKeepsConsistent`, `AbortLeaksMember` and `ReleasingDetaches`
  describe that connection alone. Interleaved runs are covered only step
  by step. Every step another greenlet can take between two iterations
  keeps `Consistent`: the attribute setup (`InitKeepsConsistent`), a
  command (`ProcessKeepsConsistent`), a disconnect
  (`RemoveKeepsConsistent`) and a sweep (`SweepKeepsConsistent`). The
  leak that `AbortLeaksMember` shows does not depend on interleaving: it
  is the failure to `remove` on the error exit.
- Name length on narrow Python 2 builds: the 50-character limit counts
  `len()` of the decoded string. A narrow build counts UTF-16 code units,
  so a character outside the Basic Multilingual Plane counts twice; the
  model counts characters (`|s|`). A name of 26 such characters is valid
  in the model but refused by such a build.
- Set order: Python iterates sets and dict values in an unspecified
  order. The loops in `Engine` take any order; every result proved is
  independent of it.
- Engine.Registry.Notify: in `audience_meter.py` `_send` does not catch
  exceptions. There, a failed send aborts the sweep at a point that
  depends on set order, and the model does not capture that; for this
  server the model covers only the case where every send succeeds
  (`unreachable` empty). The other two servers swallow the failure, as
  modelled. The same exception can be raised from `listen`'s closing
  `_send_notif` in that server. It skips clearing the buffer and the
  handler replies with the internal-error message. The model covers only
  the successful send there too.
- Closing a connection that never sent a message (root and tornado): its
  attributes do not exist, so `remove` raises AttributeError. The model
  treats this as "no change", and tornado's `notify` is then skipped.
- `ws.namespace == namespace` compares dictionaries. The model compares
  the joined name instead, which is equivalent here: a joined record is
  always the stored record of that name (its count is positive, so it is
  never deleted), and records of different names differ in `name`.
- Exceptions the proofs rule out are not modelled as error paths. For
  example, the KeyError in `unlisten` cannot occur, because every
  listened name is stored (`ListenedStored` in `WellFormed`).

## Findings

| source | as written | input that shows it | evidently intended | confidence | as-written member | corrected member |
|---|---|---|---|---|---|---|
| audience_meter.py:44-46 | `on_message` resets `namespace`, `listened` and `notif` before every command | `{"join": "lobby"}` twice on one connection: `lobby` counts 2 for one connection, and 1 after it closes | attributes set once per connection, as the gevent handler does, so that each connection counts once | high; not executed | Findings.RejoinLeavesPhantom | Findings.InitOnceCloseDetaches |
| audience_meter.py:44-46 | the same reset forgets earlier subscriptions | `{"listen": ["x"]}` then `{"listen": ["y"]}`: the connection stays in `x`'s listeners after listening to `y` and after closing | `listen` replaces the connection's subscriptions | high; not executed | Findings.RelistenLeaksListener | Findings.InitOnceKeepsConsistent |
| tornado/audience_meter.py:46-48 | the tornado `on_message` resets the attributes the same way | `{"join": "lobby"}` twice on one connection: `lobby` counts 2, and the sweep pushes 2 to a listener of `lobby` | attributes set once per connection | high; not executed | Findings.TornadoRejoinDoublesCount | Findings.TornadoInitOnceKeepsConsistent |
| other_implem/gunicorn_gevent/audience_meter.py:57-60 | on an error reply `handle` returns without `remove` | `{"join": "lobby"}` then `not json`: the loop returns with `lobby` still counting the connection, whose socket is then closed | the connection is removed however the handler ends | medium; not executed | Findings.AbortLeaksMember | Findings.ReleasingDetaches |
