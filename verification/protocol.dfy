/**
 What the two server iterations share: the per-connection session, the
 workspace and user records, the messages a handler emits, the transport's
 rooms, the colour palette and the connection handler.

 A handler is a pure function from the server state and the session to an
 `Outcome`: the new state and session, the messages emitted in order, and
 whether a JavaScript `TypeError` escaped the handler after those effects.
 */
module Protocol {
  import opened Js
  import opened Splice

  type UserId = nat

  /** The twelve highlight colours; each client substitutes `opacity`. */
  const Palette: seq<string> := [
    "rgba(255, 0, 0, opacity)",
    "rgba(255, 127, 0, opacity)",
    "rgba(255, 255, 0, opacity)",
    "rgba(255, 0, 127, opacity)",
    "rgba(255, 0, 255, opacity)",
    "rgba(0, 255, 0, opacity)",
    "rgba(127, 255, 0, opacity)",
    "rgba(0, 255, 127, opacity)",
    "rgba(0, 255, 255, opacity)",
    "rgba(0, 0, 255, opacity)",
    "rgba(127, 0, 255, opacity)",
    "rgba(0, 127, 255, opacity)"
  ]

  /** A user entry of a workspace; the two selection fields hold whatever the client sent. */
  datatype User = User(id: UserId, color: string, selection: Value, secondarySelections: Value)

  /** A workspace record: its users keyed by id, and its text buffer. */
  datatype Workspace = Workspace(users: map<UserId, User>, text: string)

  /** `socket.variables`: the id handed out at connection and the joined workspace, if any. */
  datatype Session = Session(userId: UserId, workspace: Option<string>)

  /** `socket.emit` reaches one socket; `io.to(room)[.except(socket.id)].emit` a room. */
  datatype Target = ToSocket(id: UserId) | ToRoom(room: Option<string>, except: Option<UserId>)

  datatype Payload =
    | NoPayload
    | ErrorMessage(message: string)
    | Snapshot(workspace: Workspace)
      /** What `store[name]` yields for a name that is a member of `Object.prototype`. */
    | InheritedMember(key: string)
    | JoinedUser(user: User)
    | LeftUser(id: UserId)
      /** The selection broadcast; `idKey` is the property name the sender's id travels under. */
    | SelectionUpdate(idKey: string, userId: UserId, selection: Value, secondarySelections: Value)
    | Relayed(data: TextChange)

  /** A message, or a request to write a workspace's buffer to storage. */
  datatype Output =
    | Emit(target: Target, event: string, payload: Payload)
    | Persist(workspace: string, text: string)

  /**
   The server: the next id to hand out, the workspace store, and which sockets
   (named by their user id) are in which transport room.
   */
  datatype State = State(nextUserId: nat, workspaces: map<string, Workspace>, rooms: map<string, set<UserId>>)

  datatype Outcome = Outcome(state: State, session: Session, out: seq<Output>, thrown: bool)

  const InitialState: State := State(0, map[], map[])

  /**
   The property names every plain object inherits from `Object.prototype`;
   `store[name]` is truthy for each of them even when the store has no such
   record.
   */
  const PrototypeMembers: set<string> := {
    "constructor", "__proto__", "__defineGetter__", "__defineSetter__",
    "__lookupGetter__", "__lookupSetter__", "hasOwnProperty", "isPrototypeOf",
    "propertyIsEnumerable", "toLocaleString", "toString", "valueOf"
  }

  /** The property key `store[socket.variables.workspace]` reads; `undefined` becomes `"undefined"`. */
  function StoreKey(workspace: Option<string>): string {
    workspace.GetOr("undefined")
  }

  /** `if (socket.variables.workspace)`: absent and empty names are falsy. */
  predicate HasWorkspace(s: Session) {
    s.workspace.Some? && s.workspace.value != ""
  }

  function RoomMembers(rooms: map<string, set<UserId>>, room: string): set<UserId> {
    if room in rooms then rooms[room] else {}
  }

  /** The sockets a message reaches, given the rooms at the moment it is emitted. */
  function Recipients(rooms: map<string, set<UserId>>, t: Target): (r: set<UserId>)
    ensures t.ToSocket? ==> r == {t.id}
    ensures t.ToRoom? && t.room.None? ==> r == {}
    ensures t.ToRoom? && t.except.Some? ==> t.except.value !in r
    ensures t.ToRoom? && t.room.Some? ==> r <= RoomMembers(rooms, t.room.value)
    ensures t.ToRoom? && t.room.Some? && t.except.Some? ==> r == RoomMembers(rooms, t.room.value) - {t.except.value}
    ensures t.ToRoom? && t.room.Some? && t.except.None? ==> r == RoomMembers(rooms, t.room.value)
  {
    match t
    case ToSocket(id) => {id}
    case ToRoom(None, _) => {}
    case ToRoom(Some(room), except) =>
      RoomMembers(rooms, room) - (if except.Some? then {except.value} else {})
  }

  /** `socket.join(room)`. */
  function JoinRoom(rooms: map<string, set<UserId>>, room: string, id: UserId): (r: map<string, set<UserId>>)
    ensures r.Keys == rooms.Keys + {room}
    ensures RoomMembers(r, room) == RoomMembers(rooms, room) + {id}
    ensures forall other :: other in rooms && other != room ==> r[other] == rooms[other]
  {
    rooms[room := RoomMembers(rooms, room) + {id}]
  }

  /** The transport takes a closing socket out of every room before its `disconnect` handler runs. */
  function LeaveAllRooms(rooms: map<string, set<UserId>>, id: UserId): (r: map<string, set<UserId>>)
    ensures r.Keys == rooms.Keys
    ensures forall room :: room in rooms ==> r[room] == rooms[room] - {id}
  {
    map room | room in rooms :: rooms[room] - {id}
  }

  /** The entry a join adds: the session's id, a palette colour, an empty selection and no secondary ones. */
  function NewUser(id: UserId, pick: nat): (u: User)
    requires pick < |Palette|
    ensures u.id == id && u.color in Palette
    ensures u.selection == Object(EmptyObjectRange) && u.secondarySelections == Array([])
  {
    User(id, Palette[pick], Object(EmptyObjectRange), Array([]))
  }

  /**
   The `connection` handler: the new session gets the counter's current value,
   the counter moves on, and the socket is told `connected`.
   */
  function Connect(st: State): (o: Outcome)
    ensures o.session == Session(st.nextUserId, None)
    ensures o.state == st.(nextUserId := st.nextUserId + 1)
    ensures o.out == [Emit(ToSocket(st.nextUserId), "connected", NoPayload)] && !o.thrown
  {
    var id := st.nextUserId;
    Outcome(st.(nextUserId := id + 1), Session(id, None), [Emit(ToSocket(id), "connected", NoPayload)], false)
  }

  /** The ids handed to `n` consecutive connections, and the state after them. */
  function ConnectMany(st: State, n: nat): (r: (seq<UserId>, State))
    decreases n
  {
    if n == 0 then ([], st)
    else
      var o := Connect(st);
      var rest := ConnectMany(o.state, n - 1);
      ([o.session.userId] + rest.0, rest.1)
  }

  /** Ids are handed out strictly increasing, from the counter's value on, hence all distinct. */
  lemma {:induction false} ConnectIdsIncrease(st: State, n: nat)
    ensures var (ids, st') := ConnectMany(st, n);
            |ids| == n && st'.nextUserId == st.nextUserId + n &&
            (forall i :: 0 <= i < n ==> ids[i] == st.nextUserId + i) &&
            (forall i, j :: 0 <= i < j < n ==> ids[i] < ids[j]) &&
            st'.workspaces == st.workspaces && st'.rooms == st.rooms
    decreases n
  {
    if n > 0 {
      var o := Connect(st);
      ConnectIdsIncrease(o.state, n - 1);
    }
  }
}
