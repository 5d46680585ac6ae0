/**
 The handlers that `startServer` installs on every socket: `join` with name
 validation, `disconnect`, `selection` with its guard, and `text-change`.
 The working directory, the folder's initial buffer, the random colour index
 and whether the closing save succeeds are parameters; the filesystem itself
 is not modelled.
 */
module Server {
  import opened Js
  import opened PosixPath
  import opened Validators
  import opened Splice
  import opened Protocol

  /** Where `join` stops on an invalid name. */
  const InvalidNameMessage: string := "Invalid workspace name"

  /** `{users: {}, filesystem: {}}` before anything is loaded into it. */
  const EmptyRecord: Workspace := Workspace(map[], "")

  /**
   `join`: refuse an invalid name; otherwise create the record only if absent,
   send the requester the record as it stands, add the user, remember the
   workspace, announce the user to the room, and only then enter the room.
   `loaded` is what `loadWorkspace` yields for a new record, `None` when it
   throws; the empty record is stored before that call, so it stays behind.
   `pick` is `Math.floor(Math.random() * colors.length)`.
   */
  function Join(cwd: Path, workspaceFolder: string, st: State, sess: Session, name: string,
                loaded: Option<string>, pick: nat): (o: Outcome)
    requires pick < |Palette|
    ensures !IsValidWorkspaceName(cwd, workspaceFolder, name) ==>
              o == Outcome(st, sess, [Emit(ToSocket(sess.userId), "error", ErrorMessage(InvalidNameMessage))], false)
    ensures !o.thrown ==> o.state.nextUserId == st.nextUserId && o.session.userId == sess.userId
    ensures o.thrown ==> o.session == sess && o.state.nextUserId == st.nextUserId && o.state.rooms == st.rooms
    ensures o.thrown && o.state != st ==>
              name !in st.workspaces && loaded.None? && o.out == [] &&
              o.state.workspaces == st.workspaces[name := EmptyRecord]
  {
    var id := sess.userId;
    if !IsValidWorkspaceName(cwd, workspaceFolder, name) then
      Outcome(st, sess, [Emit(ToSocket(id), "error", ErrorMessage(InvalidNameMessage))], false)
    else if name !in st.workspaces && name in PrototypeMembers then
      // the inherited member is truthy, so no record is created and `.users` of it is undefined
      Outcome(st, sess, [Emit(ToSocket(id), "workspace", InheritedMember(name))], true)
    else if name !in st.workspaces && loaded.None? then
      Outcome(st.(workspaces := st.workspaces[name := EmptyRecord]), sess, [], true)
    else
      var ws := if name in st.workspaces then st.workspaces[name] else Workspace(map[], loaded.value);
      var user := NewUser(id, pick);
      var joined := ws.(users := ws.users[id := user]);
      Outcome(
        st.(workspaces := st.workspaces[name := joined], rooms := JoinRoom(st.rooms, name, id)),
        sess.(workspace := Some(name)),
        [ Emit(ToSocket(id), "workspace", Snapshot(ws)),
          Emit(ToRoom(Some(name), None), "user-joined", JoinedUser(user)) ],
        false)
  }

  /**
   `disconnect`: tell the room, then, if the session is in a workspace, drop its
   user entry; when no user is left, save the buffer and delete the record.
   `saveSucceeds` is whether `writeFileSync` returns normally.
   */
  function Disconnect(st: State, sess: Session, saveSucceeds: bool): (o: Outcome)
    ensures o.session == sess && o.state.nextUserId == st.nextUserId
    ensures o.state.rooms == LeaveAllRooms(st.rooms, sess.userId)
    ensures |o.out| >= 1 && o.out[0] == Emit(ToRoom(sess.workspace, None), "user-left", LeftUser(sess.userId))
  {
    var id := sess.userId;
    var rooms := LeaveAllRooms(st.rooms, id);
    var left := Emit(ToRoom(sess.workspace, None), "user-left", LeftUser(id));
    if !HasWorkspace(sess) then
      Outcome(st.(rooms := rooms), sess, [left], false)
    else
      var w := sess.workspace.value;
      if w !in st.workspaces then
        Outcome(st.(rooms := rooms), sess, [left], true)
      else
        var ws := st.workspaces[w];
        var remaining := ws.(users := ws.users - {id});
        if remaining.users != map[] then
          Outcome(st.(workspaces := st.workspaces[w := remaining], rooms := rooms), sess, [left], false)
        else if saveSucceeds then
          Outcome(st.(workspaces := st.workspaces - {w}, rooms := rooms), sess, [left, Persist(w, ws.text)], false)
        else
          Outcome(st.(workspaces := st.workspaces[w := remaining], rooms := rooms), sess, [left, Persist(w, ws.text)], true)
  }

  /**
   `selection`: ignore a message whose `selection` or `secondarySelections` is
   falsy; otherwise overwrite the sender's two fields and broadcast them to the
   room, sender excluded.
   */
  function Selection(st: State, sess: Session, selection: Value, secondarySelections: Value): (o: Outcome)
    ensures o.session == sess && o.state.nextUserId == st.nextUserId && o.state.rooms == st.rooms
  {
    var id := sess.userId;
    var key := StoreKey(sess.workspace);
    if !Truthy(selection) || !Truthy(secondarySelections) then
      Outcome(st, sess, [], false)
    else if key !in st.workspaces || id !in st.workspaces[key].users then
      Outcome(st, sess, [], true)
    else
      var ws := st.workspaces[key];
      var user := ws.users[id].(selection := selection, secondarySelections := secondarySelections);
      Outcome(
        st.(workspaces := st.workspaces[key := ws.(users := ws.users[id := user])]),
        sess,
        [Emit(ToRoom(sess.workspace, Some(id)), "selection", SelectionUpdate("userID", id, selection, secondarySelections))],
        false)
  }

  /**
   `text-change`: apply every record to the buffer in order, then relay the
   message unchanged to the room, sender excluded. A `null` element throws
   when it is reached, after the records before it have changed the buffer,
   and then nothing is relayed.
   */
  function TextChangeHandler(st: State, sess: Session, data: TextChange): (o: Outcome)
    ensures o.session == sess && o.state.nextUserId == st.nextUserId && o.state.rooms == st.rooms
    ensures o.state.workspaces.Keys == st.workspaces.Keys
    ensures o.thrown <==> o.out == []
  {
    var id := sess.userId;
    var key := StoreKey(sess.workspace);
    match data.changes
    case None =>
      Outcome(st, sess, [], true)
    case Some(items) =>
      var relay := Emit(ToRoom(sess.workspace, Some(id)), "text-change", Relayed(data));
      var records := LeadingRecords(items);
      if |items| == 0 then
        Outcome(st, sess, [relay], false)
      else if key !in st.workspaces then
        Outcome(st, sess, [], true)
      else
        var ws := st.workspaces[key];
        var st' := st.(workspaces := st.workspaces[key := ws.(text := ApplyChanges(ws.text, records))]);
        if |records| == |items| then Outcome(st', sess, [relay], false) else Outcome(st', sess, [], true)
  }

  // ---------------------------------------------------------------------------
  // Join

  /** A valid join creates the record only when absent and otherwise reuses it, buffer and users included. */
  lemma JoinCreatesOrReuses(cwd: Path, workspaceFolder: string, st: State, sess: Session, name: string,
                            loaded: Option<string>, pick: nat)
    requires pick < |Palette|
    requires IsValidWorkspaceName(cwd, workspaceFolder, name)
    requires name in st.workspaces || (name !in PrototypeMembers && loaded.Some?)
    ensures var o := Join(cwd, workspaceFolder, st, sess, name, loaded, pick);
            var id := sess.userId;
            && !o.thrown
            && o.session == Session(id, Some(name))
            && o.state.workspaces.Keys == st.workspaces.Keys + {name}
            && (forall w :: w in st.workspaces && w != name ==> o.state.workspaces[w] == st.workspaces[w])
            && (name in st.workspaces ==>
                  o.state.workspaces[name].text == st.workspaces[name].text &&
                  o.state.workspaces[name].users.Keys == st.workspaces[name].users.Keys + {id} &&
                  (forall u :: u in st.workspaces[name].users && u != id ==>
                     o.state.workspaces[name].users[u] == st.workspaces[name].users[u]))
            && (name !in st.workspaces ==>
                  o.state.workspaces[name].text == loaded.value && o.state.workspaces[name].users.Keys == {id})
            && id in o.state.workspaces[name].users
            && o.state.workspaces[name].users[id] == NewUser(id, pick)
            && o.state.workspaces[name].users[id].color in Palette
  {
  }

  /**
   The requester gets the snapshot first, as the record stood before its own
   entry; `user-joined` goes to the room before the requester enters it, so the
   requester is not among its recipients unless it was already in that room.
   */
  lemma JoinMessages(cwd: Path, workspaceFolder: string, st: State, sess: Session, name: string,
                     loaded: Option<string>, pick: nat)
    requires pick < |Palette|
    requires IsValidWorkspaceName(cwd, workspaceFolder, name)
    requires name in st.workspaces || (name !in PrototypeMembers && loaded.Some?)
    ensures var o := Join(cwd, workspaceFolder, st, sess, name, loaded, pick);
            var id := sess.userId;
            && |o.out| == 2
            && o.out[0].Emit? && o.out[0].target == ToSocket(id) && o.out[0].event == "workspace"
            && o.out[0].payload.Snapshot?
            && (name !in st.workspaces || id !in st.workspaces[name].users ==>
                  id !in o.out[0].payload.workspace.users)
            && o.out[1].Emit? && o.out[1].event == "user-joined"
            && o.out[1].payload == JoinedUser(NewUser(id, pick))
            && Recipients(st.rooms, o.out[1].target) == RoomMembers(st.rooms, name)
            && (id !in RoomMembers(st.rooms, name) ==> id !in Recipients(st.rooms, o.out[1].target))
            && id in RoomMembers(o.state.rooms, name)
  {
  }

  /**
   A name equal to an `Object.prototype` member, not yet a record, makes
   `join` send the inherited value and then throw, with the store unchanged.
   */
  lemma JoinInheritedNameThrows(cwd: Path, workspaceFolder: string, st: State, sess: Session, name: string,
                                loaded: Option<string>, pick: nat)
    requires pick < |Palette|
    requires IsValidWorkspaceName(cwd, workspaceFolder, name)
    requires name in PrototypeMembers && name !in st.workspaces
    ensures var o := Join(cwd, workspaceFolder, st, sess, name, loaded, pick);
            o.thrown && o.state == st && o.session == sess &&
            o.out == [Emit(ToSocket(sess.userId), "workspace", InheritedMember(name))]
  {
  }

  /**
   When `loadWorkspace` throws for a new name (a name that resolves to a file,
   say), the empty record it was meant to fill stays in the store: nothing is
   sent, the session is not in the workspace, and a later join reuses that
   record with its empty buffer instead of loading again.
   */
  lemma JoinReadFailureLeavesEmptyRecord(cwd: Path, workspaceFolder: string, st: State, sess: Session, name: string,
                                         later: Session, loaded: Option<string>, pick: nat)
    requires pick < |Palette|
    requires IsValidWorkspaceName(cwd, workspaceFolder, name)
    requires name !in st.workspaces && name !in PrototypeMembers
    ensures var o := Join(cwd, workspaceFolder, st, sess, name, None, pick);
            var again := Join(cwd, workspaceFolder, o.state, later, name, loaded, pick);
            && o.thrown && o.out == [] && o.session == sess
            && o.state == st.(workspaces := st.workspaces[name := EmptyRecord])
            && !again.thrown
            && again.state.workspaces[name] == Workspace(map[later.userId := NewUser(later.userId, pick)], "")
            && again.out[0] == Emit(ToSocket(later.userId), "workspace", Snapshot(EmptyRecord))
  {
  }

  // ---------------------------------------------------------------------------
  // Disconnect, selection, text-change

  /**
   Only the leaving user's entry goes; the record itself goes exactly when no
   user is left, and then its buffer is saved once, before the deletion.
   */
  lemma DisconnectRemovesOnlyLeaver(st: State, sess: Session, saveSucceeds: bool)
    requires HasWorkspace(sess) && sess.workspace.value in st.workspaces
    ensures var o := Disconnect(st, sess, saveSucceeds);
            var w := sess.workspace.value;
            var users := st.workspaces[w].users - {sess.userId};
            && (forall v :: v in st.workspaces && v != w ==> v in o.state.workspaces && o.state.workspaces[v] == st.workspaces[v])
            && (w !in o.state.workspaces <==> users == map[] && saveSucceeds)
            && (w in o.state.workspaces ==> o.state.workspaces[w] == st.workspaces[w].(users := users))
            && (users == map[] <==> |o.out| == 2)
            && (users == map[] ==> o.out[1] == Persist(w, st.workspaces[w].text))
            && (o.thrown <==> users == map[] && !saveSucceeds)
  {
  }

  /** A session that never joined changes no record, whatever the save would do. */
  lemma DisconnectWithoutWorkspace(st: State, sess: Session, saveSucceeds: bool)
    requires sess.workspace.None?
    ensures var o := Disconnect(st, sess, saveSucceeds);
            o.state.workspaces == st.workspaces && !o.thrown &&
            o.out == [Emit(ToRoom(None, None), "user-left", LeftUser(sess.userId))] &&
            Recipients(o.state.rooms, o.out[0].target) == {}
  {
  }

  /** A falsy `selection` or `secondarySelections` changes nothing and sends nothing. */
  lemma SelectionGuard(st: State, sess: Session, selection: Value, secondarySelections: Value)
    requires !Truthy(selection) || !Truthy(secondarySelections)
    ensures Selection(st, sess, selection, secondarySelections) == Outcome(st, sess, [], false)
  {
  }

  /**
   A selection that passes the guard overwrites exactly the sender's two fields
   and broadcasts the raw values under `userID` to everyone else in the room.
   */
  lemma SelectionUpdatesOnlySender(st: State, sess: Session, selection: Value, secondarySelections: Value)
    requires Truthy(selection) && Truthy(secondarySelections)
    requires sess.workspace.Some? && sess.workspace.value in st.workspaces
    requires sess.userId in st.workspaces[sess.workspace.value].users
    ensures var o := Selection(st, sess, selection, secondarySelections);
            var w := sess.workspace.value;
            var id := sess.userId;
            var before := st.workspaces[w].users;
            && !o.thrown
            && o.state.workspaces.Keys == st.workspaces.Keys
            && (forall v :: v in st.workspaces && v != w ==> o.state.workspaces[v] == st.workspaces[v])
            && o.state.workspaces[w].text == st.workspaces[w].text
            && o.state.workspaces[w].users.Keys == before.Keys
            && (forall u :: u in before && u != id ==> o.state.workspaces[w].users[u] == before[u])
            && o.state.workspaces[w].users[id].id == before[id].id
            && o.state.workspaces[w].users[id].color == before[id].color
            && o.state.workspaces[w].users[id].selection == selection
            && o.state.workspaces[w].users[id].secondarySelections == secondarySelections
            && o.out == [Emit(ToRoom(Some(w), Some(id)), "selection", SelectionUpdate("userID", id, selection, secondarySelections))]
            && id !in Recipients(st.rooms, o.out[0].target)
  {
  }

  /** The buffer becomes the in-order fold of the splices, and the message goes out as received. */
  lemma TextChangeAppliesInOrder(st: State, sess: Session, changes: seq<Change>)
    requires sess.workspace.Some? && sess.workspace.value in st.workspaces
    ensures var o := TextChangeHandler(st, sess, TextChange(Some(AsItems(changes))));
            var w := sess.workspace.value;
            && !o.thrown
            && o.state.workspaces[w] == st.workspaces[w].(text := ApplyChanges(st.workspaces[w].text, changes))
            && (forall v :: v in st.workspaces && v != w ==> o.state.workspaces[v] == st.workspaces[v])
            && o.out == [Emit(ToRoom(Some(w), Some(sess.userId)), "text-change", Relayed(TextChange(Some(AsItems(changes)))))]
            && sess.userId !in Recipients(st.rooms, o.out[0].target)
  {
    LeadingRecordsOfRecords(changes);
    if |changes| == 0 {
      assert ApplyChanges(st.workspaces[sess.workspace.value].text, changes) == st.workspaces[sess.workspace.value].text;
      assert st.workspaces[sess.workspace.value := st.workspaces[sess.workspace.value]] == st.workspaces;
    }
  }

  /**
   A `null` element stops the message midway: the records before it stay
   applied to the buffer, the handler throws, and nothing is relayed.
   */
  lemma TextChangeStopsAtNull(st: State, sess: Session, items: seq<Option<Change>>, k: nat)
    requires sess.workspace.Some? && sess.workspace.value in st.workspaces
    requires k < |items| && items[k].None?
    ensures var o := TextChangeHandler(st, sess, TextChange(Some(items)));
            var w := sess.workspace.value;
            var applied := LeadingRecords(items);
            && o.thrown && o.out == []
            && |applied| <= k
            && o.state.workspaces[w].text == ApplyChanges(st.workspaces[w].text, applied)
            && (forall v :: v in st.workspaces && v != w ==> o.state.workspaces[v] == st.workspaces[v])
  {
  }

  /**
   Property keys coerce `undefined` to `"undefined"`: a session that never
   joined edits the buffer of a workspace named `undefined`, and its relay
   reaches nobody.
   */
  lemma EditBeforeJoinReachesUndefinedRecord(st: State, sess: Session, changes: seq<Change>)
    requires sess.workspace.None? && "undefined" in st.workspaces && |changes| > 0
    ensures var o := TextChangeHandler(st, sess, TextChange(Some(AsItems(changes))));
            && !o.thrown
            && o.state.workspaces["undefined"].text == ApplyChanges(st.workspaces["undefined"].text, changes)
            && Recipients(o.state.rooms, o.out[0].target) == {}
  {
    LeadingRecordsOfRecords(changes);
  }

  // ---------------------------------------------------------------------------
  // The system of live sessions

  /**
   What holds between the server state and the live sessions (keyed by their
   id): ids are below the counter, a joined session's record exists and holds
   its entry, it is in its room, entries are keyed by their own id, and rooms
   hold only live sockets.
   */
  ghost predicate Inv(st: State, sessions: map<UserId, Session>) {
    && (forall id :: id in sessions ==> sessions[id].userId == id && id < st.nextUserId)
    && (forall id :: id in sessions && sessions[id].workspace.Some? ==>
          var w := sessions[id].workspace.value;
          w != "" && w in st.workspaces && id in st.workspaces[w].users && id in RoomMembers(st.rooms, w))
    && (forall w, u :: w in st.workspaces && u in st.workspaces[w].users ==>
          st.workspaces[w].users[u].id == u && u < st.nextUserId)
    && (forall r, u :: r in st.rooms && u in st.rooms[r] ==> u in sessions)
  }

  lemma InitialInv()
    ensures Inv(InitialState, map[])
  {
  }

  /** A connection gets an id no live session or stored entry has. */
  lemma ConnectPreservesInv(st: State, sessions: map<UserId, Session>)
    requires Inv(st, sessions)
    ensures var o := Connect(st);
            && o.session.userId !in sessions
            && (forall w :: w in st.workspaces ==> o.session.userId !in st.workspaces[w].users)
            && Inv(o.state, sessions[o.session.userId := o.session])
  {
  }

  lemma JoinPreservesInv(cwd: Path, workspaceFolder: string, st: State, sessions: map<UserId, Session>,
                         id: UserId, name: string, loaded: Option<string>, pick: nat)
    requires Inv(st, sessions) && id in sessions && pick < |Palette|
    ensures var o := Join(cwd, workspaceFolder, st, sessions[id], name, loaded, pick);
            Inv(o.state, sessions[id := o.session])
  {
    if IsValidWorkspaceName(cwd, workspaceFolder, name) && (name in st.workspaces || (name !in PrototypeMembers && loaded.Some?)) {
      var text := if name in st.workspaces then st.workspaces[name].text else loaded.value;
      ValidJoinPreservesInv(st, sessions, id, name, text, pick);
    }
  }

  lemma ValidJoinPreservesInv(st: State, sessions: map<UserId, Session>, id: UserId, name: string,
                              loaded: string, pick: nat)
    requires Inv(st, sessions) && id in sessions && pick < |Palette|
    requires name != ""
    ensures var ws := if name in st.workspaces then st.workspaces[name] else Workspace(map[], loaded);
            var st' := st.(workspaces := st.workspaces[name := ws.(users := ws.users[id := NewUser(id, pick)])],
                           rooms := JoinRoom(st.rooms, name, id));
            Inv(st', sessions[id := sessions[id].(workspace := Some(name))])
  {
    var ws := if name in st.workspaces then st.workspaces[name] else Workspace(map[], loaded);
    var st' := st.(workspaces := st.workspaces[name := ws.(users := ws.users[id := NewUser(id, pick)])],
                   rooms := JoinRoom(st.rooms, name, id));
    var s' := sessions[id := sessions[id].(workspace := Some(name))];
    forall i | i in s' && s'[i].workspace.Some?
      ensures var w := s'[i].workspace.value;
              w != "" && w in st'.workspaces && i in st'.workspaces[w].users && i in RoomMembers(st'.rooms, w)
    {
      if i != id {
        var w := sessions[i].workspace.value;
        assert w in st.workspaces && i in st.workspaces[w].users;
        assert i in RoomMembers(st.rooms, w);
      }
    }
    forall w, u | w in st'.workspaces && u in st'.workspaces[w].users
      ensures st'.workspaces[w].users[u].id == u && u < st'.nextUserId
    {
      if w != name || u != id {
        assert u in st.workspaces[w].users;
      }
    }
  }

  lemma DisconnectPreservesInv(st: State, sessions: map<UserId, Session>, id: UserId, saveSucceeds: bool)
    requires Inv(st, sessions) && id in sessions
    ensures Inv(Disconnect(st, sessions[id], saveSucceeds).state, sessions - {id})
  {
    var o := Disconnect(st, sessions[id], saveSucceeds);
    var s' := sessions - {id};
    forall i | i in s' && s'[i].workspace.Some?
      ensures var w := s'[i].workspace.value;
              w != "" && w in o.state.workspaces && i in o.state.workspaces[w].users && i in RoomMembers(o.state.rooms, w)
    {
      var w := s'[i].workspace.value;
      assert w in st.workspaces && i in st.workspaces[w].users;
      assert i in RoomMembers(st.rooms, w);
      if HasWorkspace(sessions[id]) && sessions[id].workspace.value == w {
        assert i in (st.workspaces[w].users - {id});
      }
    }
  }

  lemma SelectionPreservesInv(st: State, sessions: map<UserId, Session>, id: UserId,
                              selection: Value, secondarySelections: Value)
    requires Inv(st, sessions) && id in sessions
    ensures Inv(Selection(st, sessions[id], selection, secondarySelections).state, sessions)
  {
  }

  lemma TextChangePreservesInv(st: State, sessions: map<UserId, Session>, id: UserId, data: TextChange)
    requires Inv(st, sessions) && id in sessions
    ensures Inv(TextChangeHandler(st, sessions[id], data).state, sessions)
  {
  }

  /**
   A broadcast from a joined session (`selection`, `text-change`) reaches every
   other session joined to the same workspace, and never the sender.
   */
  lemma BroadcastReachesEveryPeer(st: State, sessions: map<UserId, Session>, id: UserId, peer: UserId)
    requires Inv(st, sessions) && id in sessions && peer in sessions
    requires sessions[id].workspace.Some? && sessions[peer].workspace == sessions[id].workspace
    ensures var target := ToRoom(sessions[id].workspace, Some(id));
            && id !in Recipients(st.rooms, target)
            && (peer != id ==> peer in Recipients(st.rooms, target))
  {
    var w := sessions[id].workspace.value;
    assert peer in RoomMembers(st.rooms, w);
  }

  /**
   In every reachable state a joined session's `selection`, a well-formed
   `text-change` and a `disconnect` never throw; only the closing save can fail.
   */
  lemma JoinedSessionsDoNotThrow(st: State, sessions: map<UserId, Session>, id: UserId,
                                 selection: Value, secondarySelections: Value, changes: seq<Change>)
    requires Inv(st, sessions) && id in sessions && sessions[id].workspace.Some?
    ensures !Selection(st, sessions[id], selection, secondarySelections).thrown
    ensures !TextChangeHandler(st, sessions[id], TextChange(Some(AsItems(changes)))).thrown
    ensures !Disconnect(st, sessions[id], true).thrown
  {
    LeadingRecordsOfRecords(changes);
  }
}
