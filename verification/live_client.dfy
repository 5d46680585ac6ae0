/**
 The presence bookkeeping of the two current clients (the module-level script
 and the `MonacoLiveEditor` class, which share their logic line for line): the
 `users` table, each remote user's content widget position and decoration
 ids, and the `user-joined`, `user-left`, `selection` and `workspace`
 handlers around the shared decoration builder.

 Monaco's `deltaDecorations` is a parameter: given the old decoration ids and
 the new list it yields the new ids, or `None` when it throws. Widget DOM
 nodes, style sheets and `addContentWidget` are not modelled.
 */
module LiveClient {
  import opened Js
  import opened Protocol
  import opened Decorations

  /** A remote user as the client stores it: the received record plus the widget position and decoration ids. */
  datatype ClientUser = ClientUser(
    id: UserId, color: string, selection: Value, secondarySelections: Value,
    widget: Position, decorations: seq<string>)

  type Users = map<UserId, ClientUser>

  type Delta = (seq<string>, seq<Decoration>) -> Option<seq<string>>

  /** A handler's effect on `users`, and whether a `TypeError` escaped it. */
  datatype Handled = Handled(users: Users, thrown: bool)

  /** `changeSeleciton`'s effect: the table, and the selection object after its possible `endColumn++`. */
  datatype Selected = Selected(users: Users, selection: Value)

  /** `user-<id>-cursor cursor`, `user-<id>-selection selection` and `User <id>`. */
  function UserClasses(id: UserId): (c: Classes)
    ensures c.cursor != c.selection
  {
    var name := "user-" + NatToString(id);
    Classes(name + "-cursor cursor", name + "-selection selection", "User " + NatToString(id))
  }

  /**
   `changeSeleciton(id, selection, secondarySelections)`. Every failure inside
   the `try` is swallowed, so the table then keeps its old decorations; the
   caret widening, done first, survives a later failure.
   */
  function ChangeSelection(users: Users, delta: Delta, id: UserId, selection: Value, secondarySelections: Value): (r: Selected)
    ensures r.users.Keys == users.Keys
    ensures forall u :: u in users && u != id ==> r.users[u] == users[u]
    ensures id in users ==> r.users[id] == users[id].(decorations := r.users[id].decorations)
    ensures RangeFields(selection).None? ==> r.selection == selection
    ensures RangeFields(selection).Some? ==>
              r.selection == (if IsCaret(RangeFields(selection).value) then WidenValue(selection) else selection)
  {
    var fields := RangeFields(selection);
    if fields.None? then Selected(users, selection)
    else
      var primary := fields.value;
      var after := if IsCaret(primary) then WidenValue(selection) else selection;
      var secondaries := Elements(secondarySelections);
      if secondaries.None? || id !in users then Selected(users, after)
      else
        var ids := delta(users[id].decorations, Build(UserClasses(id), primary, secondaries.value));
        if ids.None? then Selected(users, after)
        else Selected(users[id := users[id].(decorations := ids.value)], after)
  }

  /**
   `userJoin(user)`: the widget starts at the selection's end (`|| 0`), the
   entry is stored with no decorations, and a truthy selection is then drawn.
   The stored selection is the very object that `changeSeleciton` widens.
   */
  function UserJoin(users: Users, delta: Delta, u: User): (r: Handled)
    ensures r.thrown <==> (u.selection.Undefined? || u.selection.Null?)
    ensures r.thrown ==> r.users == users
    ensures !r.thrown ==> r.users.Keys == users.Keys + {u.id}
    ensures forall v :: v in users && v != u.id ==> v in r.users && r.users[v] == users[v]
  {
    var fields := RangeFields(u.selection);
    if fields.None? then Handled(users, true)
    else
      var widget := Position(OrZero(fields.value.endLineNumber), OrZero(fields.value.endColumn));
      var stored := users[u.id := ClientUser(u.id, u.color, u.selection, u.secondarySelections, widget, [])];
      if !Truthy(u.selection) then Handled(stored, false)
      else
        var s := ChangeSelection(stored, delta, u.id, u.selection, u.secondarySelections);
        Handled(s.users[u.id := s.users[u.id].(selection := s.selection)], false)
  }

  /**
   `user-left`: reading `.widget` of an unknown id throws; a throwing
   `deltaDecorations` also stops the handler before the `delete`.
   */
  function UserLeft(users: Users, delta: Delta, id: UserId): (r: Handled)
    ensures r.thrown ==> r.users == users
  {
    if id !in users then Handled(users, true)
    else if delta(users[id].decorations, []).None? then Handled(users, true)
    else Handled(users - {id}, false)
  }

  /**
   The `selection` handler for a message `{<idKey>: senderId, selection,
   secondarySelections}`. It reads `data.userID`, so a message whose id
   travels under another key looks up `users[undefined]` and throws. The
   widget is moved to the raw selection end, then the selection is drawn.
   */
  function RemoteSelection(users: Users, delta: Delta, idKey: string, senderId: UserId, selection: Value, secondarySelections: Value): (r: Handled)
    ensures r.thrown ==> r.users == users
    ensures r.users.Keys == users.Keys
    ensures forall u :: u in users && (idKey != "userID" || u != senderId) ==> r.users[u] == users[u]
  {
    if idKey != "userID" || senderId !in users then Handled(users, true)
    else
      var fields := RangeFields(selection);
      if fields.None? then Handled(users, true)
      else
        var moved := users[senderId := users[senderId].(widget := Position(fields.value.endLineNumber, fields.value.endColumn))];
        Handled(ChangeSelection(moved, delta, senderId, selection, secondarySelections).users, false)
  }

  /**
   The user loop of the `workspace` handler: `userJoin` for each user of the
   snapshot, in the order `for...in` visits them; the first throw ends the
   handler.
   */
  function JoinAll(users: Users, delta: Delta, snapshot: seq<User>): (r: Handled)
    decreases |snapshot|
  {
    if |snapshot| == 0 then Handled(users, false)
    else
      var h := UserJoin(users, delta, snapshot[0]);
      if h.thrown then h else JoinAll(h.users, delta, snapshot[1..])
  }

  // ---------------------------------------------------------------------------

  /**
   What `changeSeleciton` does to the table, both ways: the user's decoration
   ids become what `deltaDecorations` returned for the built list exactly when
   the selection has fields, the secondaries are iterable, the user is known
   and Monaco does not throw; otherwise nothing changes.
   */
  lemma ChangeSelectionEffect(users: Users, delta: Delta, id: UserId, selection: Value, secondarySelections: Value)
    ensures var r := ChangeSelection(users, delta, id, selection, secondarySelections);
            var fields := RangeFields(selection);
            var secondaries := Elements(secondarySelections);
            var drawn := fields.Some? && secondaries.Some? && id in users &&
                         delta(users[id].decorations, Build(UserClasses(id), fields.value, secondaries.value)).Some?;
            && (drawn ==> r.users == users[id := users[id].(decorations :=
                            delta(users[id].decorations, Build(UserClasses(id), fields.value, secondaries.value)).value)])
            && (!drawn ==> r.users == users)
  {
  }

  /**
   A freshly joined user: the widget sits at the raw end (absent, `NaN` and
   zero coordinates at 0), the entry keeps the received colour, and a caret
   selection is stored widened while a range is stored as received.
   */
  lemma UserJoinEntry(users: Users, delta: Delta, u: User)
    requires !u.selection.Undefined? && !u.selection.Null?
    ensures var r := UserJoin(users, delta, u);
            var fields := RangeFields(u.selection).value;
            var entry := r.users[u.id];
            && entry.id == u.id && entry.color == u.color
            && entry.secondarySelections == u.secondarySelections
            && entry.widget == Position(OrZero(fields.endLineNumber), OrZero(fields.endColumn))
            && entry.selection == (if Truthy(u.selection) && IsCaret(fields) then WidenValue(u.selection) else u.selection)
            && (!Truthy(u.selection) ==> entry.decorations == [])
  {
  }

  /**
   The entry the newer server sends for a user who has not moved yet is drawn
   as a cursor at 0/0: its `{}` selection becomes `{endColumn: NaN}` and the
   decorations are whatever Monaco returns for that one cursor.
   */
  lemma NewUserJoinsAsCursor(users: Users, delta: Delta, id: UserId, pick: nat)
    requires pick < |Palette|
    requires delta([], [Decoration(Range(Undef, Undef, Undef, NaN), UserClasses(id).cursor, UserClasses(id).hover)]).Some?
    ensures var r := UserJoin(users, delta, NewUser(id, pick));
            && !r.thrown
            && r.users[id].widget == Position(Num(0), Num(0))
            && r.users[id].selection == Object(Range(Undef, Undef, Undef, NaN))
            && r.users[id].decorations ==
                 delta([], [Decoration(Range(Undef, Undef, Undef, NaN), UserClasses(id).cursor, UserClasses(id).hover)]).value
  {
    var c := UserClasses(id);
    assert Build(c, EmptyObjectRange, []) == [Primary(c, EmptyObjectRange)];
    FreshSelectionDrawnAsCursor(c);
  }

  /** `user-left` for a known user removes exactly that id, when Monaco accepts the removal. */
  lemma UserLeftRemovesOnlyThatId(users: Users, delta: Delta, id: UserId)
    requires id in users && delta(users[id].decorations, []).Some?
    ensures var r := UserLeft(users, delta, id);
            && !r.thrown
            && r.users.Keys == users.Keys - {id}
            && (forall u :: u in r.users ==> r.users[u] == users[u])
  {
  }

  /** A `user-left` for an id the client never saw throws and changes nothing. */
  lemma UserLeftUnknownThrows(users: Users, delta: Delta, id: UserId)
    requires id !in users
    ensures UserLeft(users, delta, id) == Handled(users, true)
  {
  }

  /**
   A remote selection moves the sender's widget to the raw end of the
   selection, before the caret widening: the widget's column is the received
   one while the drawn caret ends one column further.
   */
  lemma WidgetAtRawEnd(users: Users, delta: Delta, senderId: UserId, r: Range, secondarySelections: Value)
    requires senderId in users
    ensures var h := RemoteSelection(users, delta, "userID", senderId, Object(r), secondarySelections);
            && !h.thrown
            && h.users[senderId].widget == Position(r.endLineNumber, r.endColumn)
            && h.users[senderId].selection == users[senderId].selection
            && (Elements(secondarySelections).Some? ==>
                  var ds := Build(UserClasses(senderId), r, Elements(secondarySelections).value);
                  && ds[0].range.endColumn == (if IsCaret(r) then Inc(r.endColumn) else r.endColumn)
                  && (delta(users[senderId].decorations, ds).Some? ==>
                        h.users[senderId].decorations == delta(users[senderId].decorations, ds).value))
  {
  }

  /**
   The older server sends the id under `userId`, so these clients cannot draw
   its selection messages: every one throws and leaves the table as it was.
   */
  lemma LegacySelectionNeverDrawn(users: Users, delta: Delta, senderId: UserId, selection: Value, secondarySelections: Value)
    ensures RemoteSelection(users, delta, "userId", senderId, selection, secondarySelections) == Handled(users, true)
  {
  }

  /**
   When no user of the snapshot has an `undefined` or `null` selection, the
   loop finishes and every listed user is in the table, while users the
   snapshot does not list keep their entries.
   */
  lemma {:induction false} JoinAllAddsEveryone(users: Users, delta: Delta, snapshot: seq<User>)
    requires forall i :: 0 <= i < |snapshot| ==> !snapshot[i].selection.Undefined? && !snapshot[i].selection.Null?
    ensures var r := JoinAll(users, delta, snapshot);
            && !r.thrown
            && r.users.Keys == users.Keys + (set i | 0 <= i < |snapshot| :: snapshot[i].id)
            && (forall v :: v in users && (forall i :: 0 <= i < |snapshot| ==> snapshot[i].id != v) ==> r.users[v] == users[v])
    decreases |snapshot|
  {
    if |snapshot| > 0 {
      var h := UserJoin(users, delta, snapshot[0]);
      JoinAllAddsEveryone(h.users, delta, snapshot[1..]);
      var rest := set i | 0 <= i < |snapshot[1..]| :: snapshot[1..][i].id;
      var all := set i | 0 <= i < |snapshot| :: snapshot[i].id;
      assert all == {snapshot[0].id} + rest by {
        forall x | x in all ensures x in {snapshot[0].id} + rest {
          var i :| 0 <= i < |snapshot| && snapshot[i].id == x;
          if i > 0 { assert snapshot[1..][i - 1].id == x; }
        }
        forall x | x in rest ensures x in all {
          var i :| 0 <= i < |snapshot[1..]| && snapshot[1..][i].id == x;
          assert snapshot[i + 1].id == x;
        }
      }
      forall v | v in users && (forall i :: 0 <= i < |snapshot| ==> snapshot[i].id != v)
        ensures JoinAll(users, delta, snapshot).users[v] == users[v]
      {
        assert snapshot[0].id != v;
        forall i | 0 <= i < |snapshot[1..]| ensures snapshot[1..][i].id != v {
          assert snapshot[1..][i] == snapshot[i + 1];
        }
      }
    }
  }

  // ---------------------------------------------------------------------------
  // The table stays keyed by id

  /** Every entry of the table sits under its own id, as `users[user.id] = user` puts it. */
  predicate KeyedById(users: Users) {
    forall u :: u in users ==> users[u].id == u
  }

  lemma UserJoinKeepsKeyedById(users: Users, delta: Delta, u: User)
    requires KeyedById(users)
    ensures KeyedById(UserJoin(users, delta, u).users)
  {
  }

  lemma UserLeftKeepsKeyedById(users: Users, delta: Delta, id: UserId)
    requires KeyedById(users)
    ensures KeyedById(UserLeft(users, delta, id).users)
  {
  }

  lemma RemoteSelectionKeepsKeyedById(users: Users, delta: Delta, idKey: string, senderId: UserId,
                                      selection: Value, secondarySelections: Value)
    requires KeyedById(users)
    ensures KeyedById(RemoteSelection(users, delta, idKey, senderId, selection, secondarySelections).users)
  {
  }

  lemma {:induction false} JoinAllKeepsKeyedById(users: Users, delta: Delta, snapshot: seq<User>)
    requires KeyedById(users)
    ensures KeyedById(JoinAll(users, delta, snapshot).users)
    decreases |snapshot|
  {
    if |snapshot| > 0 {
      var h := UserJoin(users, delta, snapshot[0]);
      UserJoinKeepsKeyedById(users, delta, snapshot[0]);
      if !h.thrown {
        JoinAllKeepsKeyedById(h.users, delta, snapshot[1..]);
      }
    }
  }

  /**
   `user-left` undoes `user-joined`: a user who joins and then leaves, with
   Monaco accepting the removal of its decorations, leaves the table as it
   was before the join.
   */
  lemma JoinThenLeaveRestores(users: Users, delta: Delta, u: User)
    requires u.id !in users
    requires !u.selection.Undefined? && !u.selection.Null?
    requires delta(UserJoin(users, delta, u).users[u.id].decorations, []).Some?
    ensures UserLeft(UserJoin(users, delta, u).users, delta, u.id) == Handled(users, false)
  {
    var joined := UserJoin(users, delta, u).users;
    assert joined - {u.id} == users;
  }
}
