/** Values shared by every part of the presence registry model. */
module Types {

  datatype Option<T> = None | Some(value: T)

  /** A stable handle for one client connection. */
  type SessionId = nat

  /** Fixed limits of the command grammar (CMD_MAX_NAMESPACE_LEN, CMD_MAX_NAMESPACE_LISTEN). */
  const MaxNamespaceLen: nat := 50
  const MaxNamespaceListen: nat := 20

  /** One entry of the process-wide namespace table. */
  datatype NsRecord = NsRecord(
    members: int,              // how many sessions claim membership
    lastNotified: int,         // the count last pushed to listeners
    listeners: set<SessionId>, // sessions subscribed to this namespace
    name: string)

  /** The record `get_namespace` inserts for a name it has not seen. */
  function Fresh(name: string): NsRecord
  {
    NsRecord(0, 0, {}, name)
  }

  /** The three attributes a connection carries: the joined namespace
      (empty/None is `None`), the listened names and the pending
      notification buffer. */
  datatype Session = Session(
    joined: Option<string>,
    listened: set<string>,
    notif: map<string, int>)

  const EmptySession := Session(None, {}, map[])

  /** A decoded JSON value, as far as the command processor looks at it:
      a string, an array, or anything else together with its truthiness. */
  datatype Value = Str(s: string) | List(items: seq<Value>) | Other(truthy: bool)

  /** The outcome of decoding one inbound message.  `NotObject` is valid
      JSON that is not an object (its Python type name is kept, because
      the reply quotes it). */
  datatype Command =
    | Unparseable
    | NotObject(typeName: string)
    | Object(join: Option<Value>, listen: Option<Value>)

  /** An outbound payload: a name -> count mapping, or `{"err": text}`. */
  datatype Message = Counts(counts: map<string, int>) | Err(text: string)
}
