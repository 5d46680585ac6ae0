/**
 The earlier backend: the same connection counter and palette, but `join`
 performs no name validation and reads the buffer from a file, `disconnect`
 tests `users.length` (which a plain object does not have), and `selection`
 has no guard and broadcasts the id under `userId`. It installs no
 `text-change` handler.
 */
module LegacyServer {
  import opened Js
  import opened PosixPath
  import opened Validators
  import opened Protocol
  import Server

  /**
   `join` without validation. `loaded` is what `readFileSync` returns for a new
   record, `None` when it throws; `pick` is the random palette index.
   */
  function Join(st: State, sess: Session, name: string, loaded: Option<string>, pick: nat): (o: Outcome)
    requires pick < |Palette|
    ensures o.thrown ==> o.state == st && o.session == sess
    ensures !o.thrown ==> o.state.nextUserId == st.nextUserId && o.session == Session(sess.userId, Some(name))
  {
    var id := sess.userId;
    if name !in st.workspaces && name in PrototypeMembers then
      Outcome(st, sess, [Emit(ToSocket(id), "workspace", InheritedMember(name))], true)
    else if name !in st.workspaces && loaded.None? then
      Outcome(st, sess, [], true)
    else
      var ws := if name in st.workspaces then st.workspaces[name] else Workspace(map[], loaded.value);
      var user := NewUser(id, pick);
      var joined := ws.(users := ws.users[id := user]);
      Outcome(
        st.(workspaces := st.workspaces[name := joined], rooms := JoinRoom(st.rooms, name, id)),
        sess.(workspace := Some(name)),
        [ Emit(ToSocket(id), "workspace", Snapshot(ws)),
          Emit(ToRoom(Some(name), None), "user-joined", JoinedUser(user)) ],
        false)
  }

  /**
   `disconnect`: tell the room and drop the user's entry. `users.length == 0`
   compares `undefined` with `0`, which is false, so the record is never
   deleted and nothing is saved.
   */
  function Disconnect(st: State, sess: Session): (o: Outcome)
    ensures o.session == sess && o.state.nextUserId == st.nextUserId
    ensures o.state.rooms == LeaveAllRooms(st.rooms, sess.userId)
    ensures o.out == [Emit(ToRoom(sess.workspace, None), "user-left", LeftUser(sess.userId))]
  {
    var id := sess.userId;
    var rooms := LeaveAllRooms(st.rooms, id);
    var left := Emit(ToRoom(sess.workspace, None), "user-left", LeftUser(id));
    if !HasWorkspace(sess) then
      Outcome(st.(rooms := rooms), sess, [left], false)
    else
      var w := sess.workspace.value;
      if w !in st.workspaces then
        Outcome(st.(rooms := rooms), sess, [left], true)
      else
        var ws := st.workspaces[w];
        Outcome(st.(workspaces := st.workspaces[w := ws.(users := ws.users - {id})], rooms := rooms), sess, [left], false)
  }

  /** `selection` without a guard: whatever arrives is stored and broadcast under `userId`. */
  function Selection(st: State, sess: Session, selection: Value, secondarySelections: Value): (o: Outcome)
    ensures o.session == sess && o.state.nextUserId == st.nextUserId && o.state.rooms == st.rooms
  {
    var id := sess.userId;
    var key := StoreKey(sess.workspace);
    if key !in st.workspaces || id !in st.workspaces[key].users then
      Outcome(st, sess, [], true)
    else
      var ws := st.workspaces[key];
      var user := ws.users[id].(selection := selection, secondarySelections := secondarySelections);
      Outcome(
        st.(workspaces := st.workspaces[key := ws.(users := ws.users[id := user])]),
        sess,
        [Emit(ToRoom(sess.workspace, Some(id)), "selection", SelectionUpdate("userId", id, selection, secondarySelections))],
        false)
  }

  // ---------------------------------------------------------------------------

  /** Any name is taken as is: a record is created when absent (if the file reads) and reused otherwise. */
  lemma JoinWithoutValidation(st: State, sess: Session, name: string, loaded: Option<string>, pick: nat)
    requires pick < |Palette|
    requires name in st.workspaces || (name !in PrototypeMembers && loaded.Some?)
    ensures var o := Join(st, sess, name, loaded, pick);
            var id := sess.userId;
            && !o.thrown
            && o.state.workspaces.Keys == st.workspaces.Keys + {name}
            && (forall w :: w in st.workspaces && w != name ==> o.state.workspaces[w] == st.workspaces[w])
            && (name in st.workspaces ==> o.state.workspaces[name].text == st.workspaces[name].text)
            && (name !in st.workspaces ==> o.state.workspaces[name].text == loaded.value)
            && o.state.workspaces[name].users[id] == NewUser(id, pick)
            && o.state.workspaces[name].users[id].color in Palette
            && |o.out| == 2 && o.out[1].Emit? && o.out[1].event == "user-joined"
            && (id !in RoomMembers(st.rooms, name) ==> id !in Recipients(st.rooms, o.out[1].target))
  {
  }

  /** A missing file makes `join` of a new name throw before anything is created or sent. */
  lemma JoinMissingFileThrows(st: State, sess: Session, name: string, pick: nat)
    requires pick < |Palette|
    requires name !in st.workspaces
    ensures var o := Join(st, sess, name, None, pick);
            o.thrown && o.state == st && (name !in PrototypeMembers ==> o.out == [])
  {
  }

  /** Only the leaver's entry goes, and the record stays even when no user is left. */
  lemma DisconnectKeepsRecord(st: State, sess: Session)
    requires HasWorkspace(sess) && sess.workspace.value in st.workspaces
    ensures var o := Disconnect(st, sess);
            var w := sess.workspace.value;
            && !o.thrown
            && o.state.workspaces.Keys == st.workspaces.Keys
            && o.state.workspaces[w].users == st.workspaces[w].users - {sess.userId}
            && o.state.workspaces[w].text == st.workspaces[w].text
            && (forall v :: v in st.workspaces && v != w ==> o.state.workspaces[v] == st.workspaces[v])
            && (forall x :: x in o.out ==> !x.Persist?)
  {
  }

  /**
   When the leaver is the last user of the record, an empty record with the
   same buffer stays behind, which the newer server would delete.
   */
  lemma LastLeaveLeavesEmptyRecord(st: State, sess: Session)
    requires HasWorkspace(sess) && sess.workspace.value in st.workspaces
    requires st.workspaces[sess.workspace.value].users.Keys == {sess.userId}
    ensures var o := Disconnect(st, sess);
            var w := sess.workspace.value;
            && w in o.state.workspaces
            && o.state.workspaces[w] == Workspace(map[], st.workspaces[w].text)
  {
    var w := sess.workspace.value;
    assert (st.workspaces[w].users - {sess.userId}).Keys == {};
  }

  /**
   With no guard, even `undefined` fields overwrite the sender's selection, and
   the broadcast names the sender under `userId`, not `userID`.
   */
  lemma SelectionUnguarded(st: State, sess: Session, selection: Value, secondarySelections: Value)
    requires sess.workspace.Some? && sess.workspace.value in st.workspaces
    requires sess.userId in st.workspaces[sess.workspace.value].users
    ensures var o := Selection(st, sess, selection, secondarySelections);
            var w := sess.workspace.value;
            var id := sess.userId;
            var before := st.workspaces[w].users;
            && !o.thrown
            && o.state.workspaces.Keys == st.workspaces.Keys
            && (forall v :: v in st.workspaces && v != w ==> o.state.workspaces[v] == st.workspaces[v])
            && o.state.workspaces[w].users.Keys == before.Keys
            && (forall u :: u in before && u != id ==> o.state.workspaces[w].users[u] == before[u])
            && o.state.workspaces[w].users[id] == before[id].(selection := selection, secondarySelections := secondarySelections)
            && o.out == [Emit(ToRoom(Some(w), Some(id)), "selection", SelectionUpdate("userId", id, selection, secondarySelections))]
            && id !in Recipients(st.rooms, o.out[0].target)
  {
  }

  // ---------------------------------------------------------------------------
  // Against the newer server

  /**
   On a name the newer server accepts, the two `join`s agree whenever the
   buffer can be read or is not needed: the older one differs only in taking
   names the newer one refuses.
   */
  lemma JoinAgreesWithValidatedJoin(cwd: Path, workspaceFolder: string, st: State, sess: Session, name: string,
                                    loaded: Option<string>, pick: nat)
    requires pick < |Palette|
    requires IsValidWorkspaceName(cwd, workspaceFolder, name)
    requires name in st.workspaces || name in PrototypeMembers || loaded.Some?
    ensures Join(st, sess, name, loaded, pick) == Server.Join(cwd, workspaceFolder, st, sess, name, loaded, pick)
  {
  }

  /**
   When the buffer of a new name cannot be read, both throw with nothing sent;
   the older server stores nothing, the newer one the empty record.
   */
  lemma JoinReadFailureDiffers(cwd: Path, workspaceFolder: string, st: State, sess: Session, name: string, pick: nat)
    requires pick < |Palette|
    requires IsValidWorkspaceName(cwd, workspaceFolder, name)
    requires name !in st.workspaces && name !in PrototypeMembers
    ensures var legacy := Join(st, sess, name, None, pick);
            var current := Server.Join(cwd, workspaceFolder, st, sess, name, None, pick);
            && legacy.thrown && current.thrown && legacy.out == current.out == []
            && legacy.state == st
            && current.state == st.(workspaces := st.workspaces[name := Server.EmptyRecord])
  {
  }

  /**
   The two `disconnect`s agree except on the last leave: there the older
   server keeps the emptied record and saves nothing, while the newer one
   saves the buffer and deletes the record (or throws when the save does).
   */
  lemma DisconnectAgreesUntilLastLeave(st: State, sess: Session, saveSucceeds: bool)
    ensures var legacy := Disconnect(st, sess);
            var current := Server.Disconnect(st, sess, saveSucceeds);
            var lastLeave := HasWorkspace(sess) && sess.workspace.value in st.workspaces &&
                             st.workspaces[sess.workspace.value].users - {sess.userId} == map[];
            && (!lastLeave ==> legacy == current)
            && (lastLeave ==>
                  var w := sess.workspace.value;
                  && !legacy.thrown && (current.thrown <==> !saveSucceeds)
                  && current.out == legacy.out + [Persist(w, st.workspaces[w].text)]
                  && legacy.state.rooms == current.state.rooms
                  && w in legacy.state.workspaces && legacy.state.workspaces[w].users == map[]
                  && (saveSucceeds ==> current.state.workspaces == legacy.state.workspaces - {w})
                  && (!saveSucceeds ==> current.state == legacy.state))
  {
  }

  /**
   Past the newer server's guard the two `selection`s store the same values
   and throw alike; their broadcasts differ only in the key the id travels
   under.
   */
  lemma SelectionAgreesPastGuard(st: State, sess: Session, selection: Value, secondarySelections: Value)
    requires Truthy(selection) && Truthy(secondarySelections)
    ensures var legacy := Selection(st, sess, selection, secondarySelections);
            var current := Server.Selection(st, sess, selection, secondarySelections);
            && legacy.state == current.state && legacy.thrown == current.thrown
            && |legacy.out| == |current.out|
            && (forall i :: 0 <= i < |legacy.out| ==>
                  legacy.out[i].Emit? && legacy.out[i].payload.SelectionUpdate? &&
                  legacy.out[i].payload.idKey == "userId" &&
                  current.out[i] == legacy.out[i].(payload := legacy.out[i].payload.(idKey := "userID")))
  {
  }
}
