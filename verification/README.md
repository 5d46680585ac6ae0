# Monaco Live Editor — a Dafny model of its collaboration core

Monaco Live Editor lets several browsers edit one file together. A Node.js
server keeps one record per *workspace* (its users and its text buffer) and
relays messages over socket.io. Each browser runs the Monaco editor and draws
the other users' carets and selections as *decorations*.

This project models the logic in that loop, with every handler written as a
pure function:

- **Identifier validators** (`Validators`, built on `PosixPath`).
  `isValidWorkspaceName` and `isValidFilename` are modelled over a model of
  POSIX `path.resolve`. The process working directory is a parameter. The
  model proves what the traversal check really is: a *string-prefix* test on
  the printed paths. It is not a descendant test.
- **Text splice engine** (`Splice`). A `text-change` message is a list of
  `{rangeOffset, rangeLength, text}` records. They are applied left to right
  with JavaScript `slice`, which clamps its indices.
- **Server state machine** (`Protocol`, `Server`, `LegacyServer`). There is
  the newer server in `src/index.js` and the older one in
  `scripts/editor-backend.js`. The state is:
  - the connection counter;
  - the workspace store;
  - the socket.io rooms;
  - each socket's session `{userID, workspace}`.

  The connection handler and the 12-colour palette are the same in both
  servers (`src/index.js:82-133`, `scripts/editor-backend.js:4-36`), so
  `Protocol.Connect` and `Protocol.Palette` serve both.

  A handler maps a state and a session to an `Outcome`. An outcome holds the
  new state and session, the messages emitted in order, and whether a
  JavaScript `TypeError` escaped the handler.
- **Client presence logic** (`Decorations`, `LiveClient`, `EarlyClient`,
  `EchoGuard`). This covers:
  - the decoration builder `changeSeleciton`, shared by all three clients;
  - the table of remote users, with each user's widget position and
    decoration ids;
  - the `user-joined`, `user-left`, `selection` and `workspace` handlers;
  - the `blockChange` echo-suppression flag.

  Monaco's `deltaDecorations` is a function parameter. It returns the new
  decoration ids, or `None` when it throws.

`Js` holds the JavaScript semantics the code relies on:
- truthiness;
- loose `==` on numbers that may be `undefined` or `NaN`;
- `x++` and `x || 0`;
- reading range fields off an arbitrary value;
- `for...of` over a value;
- printing a user id.

## Where the code does not do what its comments say (the model follows the code)

- The comments on the traversal check (`src/index.js:16`, `:20`) say it keeps
  the path "inside the allowed directory". It is a string-prefix test on the
  printed paths. With the folder at `/`, every name that matches the pattern
  is accepted, `../../etc/passwd` included
  (`Validators.RootFolderAcceptsAnyPatternName`).
- For the same reason, a sibling whose name extends the folder's last segment
  is accepted. With folder `/srv/ws`, the name `../ws2` resolves to `/srv/ws2`
  and is accepted (`Validators.SiblingOfRootAccepted`).
- `join` creates the record "if the workspace does not exist"
  (`src/index.js:153`). A name that is a member of `Object.prototype`
  (`constructor`, `toString`, …) reads as truthy from the empty store. So no
  record is created, the inherited value is sent as the snapshot, and the
  handler then throws (`Server.JoinInheritedNameThrows`).
- The empty record is stored before `loadWorkspace` fills it
  (`src/index.js:154-160`). When loading throws (a name that resolves to a
  file, such as `x/README.md` once `x` exists), the empty record stays, and
  later joins reuse it without loading
  (`Server.JoinReadFailureLeavesEmptyRecord`).
- The older server deletes a record "if no users are in the workspace"
  (`scripts/editor-backend.js:70`). It tests `users.length` on a plain object,
  which is `undefined`, so the record is never deleted
  (`LegacyServer.DisconnectKeepsRecord`).
- The newer server, as written, never deletes a record either. The
  last-leave save writes to `path.join(workspaceFolder, name)`
  (`src/index.js:186`), which for a relative name is the folder `join`
  created at `:142-145`, so the write fails and `:188` is not reached. The
  model's `saveSucceeds = false` is that case; `saveSucceeds = true` is what
  the comment at `:185-188` intends.

## Model

| member | source | states |
|---|---|---|
| `PosixPath.FormatRoundTrip` | src/index.js:17-18 | Resolving the printed form of a normalised path gives the path back, whatever the base. So resolving `safeDirectory` again inside `path.resolve(safeDirectory, name)` changes nothing. |
| `PosixPath.ResolveIsNormal` | src/index.js:17-18 | `path.resolve` always yields a normalised absolute path: no empty, `.` or `..` segment. |
| `PosixPath.NormalizeAtRoot` | src/index.js:18 | Any number of `..` segments at the root stay at the root. |
| `PosixPath.NormalizeExtends` | src/index.js:18 | Segments without `..` only descend from the base. |
| `PosixPath.PrefixTestCharacterisation` | src/index.js:20 | For normalised paths, the printed root is a string prefix of the printed path exactly when the path has the root's segments except the last, and the root's last segment is a string prefix of the path's segment at that position. |
| `Validators.TestFilenamePattern` | src/index.js:27-28 | The left-to-right scan of `/^[a-zA-Z0-9_-]+(\.[a-zA-Z0-9]+)?$/` accepts exactly the strings of the declarative pattern. |
| `Validators.ResolveUnderRoot` | src/index.js:17-18 | The validators' double `path.resolve` is a single resolution of the name from the resolved folder. |
| `Validators.WorkspaceNameCharacterisation` | src/index.js:6-21 | `isValidWorkspaceName` is true exactly when the name is non-empty, at most 255 characters, matches `[a-zA-Z0-9_/.-]+`, and its resolution is prefix-covered by the folder (the string-prefix test, not containment). |
| `Validators.RelativeNameStaysInside` | src/index.js:6-21 | A relative name with no `..` segment that passes length and pattern is accepted and resolves to a descendant of the folder. |
| `Validators.SiblingOfRootAccepted` | src/index.js:17-20 | With folder `/srv/ws`, the name `../ws2` is accepted although `/srv/ws2` is not inside the folder. |
| `Validators.RootFolderAcceptsAnyPatternName` | src/index.js:17-20 | With folder `/`, every name of valid length and pattern is accepted, `../../etc/passwd` included. |
| `Validators.AbsoluteNameIgnoresRoot` | src/index.js:18 | An absolute name resolves to the same path whatever the folder. This is a one-step consequence of how `path.resolve` restarts at an absolute argument; it is why the folder offers no protection against such a name beyond the prefix test. |
| `Validators.FilenameIsSegment` | src/index.js:27 | A name that matches the filename pattern is a single plain segment: no `/`, not `.` or `..`. |
| `Validators.FilenameCharacterisation` | src/index.js:23-37 | `isValidFilename` is exactly: non-empty, at most 255 characters, and matches the pattern. Its traversal check never fails, and the name resolves to the folder plus that one segment. |
| `Splice.SliceSplit` | src/index.js:212 | Cutting the buffer at any index with `slice(0, k)` and `slice(k)` gives two pieces that put together restore the buffer, negative and past-end indices included. The first piece is as long as the clamped index. |
| `Splice.ApplyChangeContents` | src/index.js:207-212 | One record leaves the buffer up to the clamped start, then the inserted text, then the buffer from the clamped end. This holds for every input, negative values included. |
| `Splice.ApplyChangeInRange` | src/index.js:207-212 | Inside the buffer, a record replaces exactly `rangeLength` characters at `rangeOffset`. The length grows by the inserted text's length minus `rangeLength`. |
| `Splice.ApplyChangePastEnd` | src/index.js:208-212 | With a non-negative `rangeLength`, an offset at or past the end appends the text. A negative length reaches back into the buffer and repeats its tail (see `Splice.ApplyChangeContents`). |
| `Splice.ApplyEmptyRecord` | src/index.js:208-210 | A record with all fields missing (defaults `0`, `0`, `""`) leaves the buffer unchanged. |
| `Splice.ApplyChangeUndo` | src/index.js:212 | An in-range record is undone by the record that writes the removed text back over the inserted text. |
| `Splice.ApplyChangesAppend` | src/index.js:207-214 | Applying a concatenated list of records equals applying the two halves one after the other. |
| `Splice.HelloWorld` | src/index.js:207-212 | `"hello"` with `{rangeOffset: 5, rangeLength: 0, text: " world"}` becomes `"hello world"`. |
| `Splice.ApplyTextChange` | src/index.js:207-214 | The `forEach` loop applies the records in list order, up to the first `null` element. It completes exactly when no element is `null`. An empty list leaves the buffer unchanged. |
| `Splice.LeadingRecords` | src/index.js:207-208 | The records `forEach` reaches are the list's elements in order, up to but not including the first `null` element, and all of them when there is none. |
| `Splice.LeadingRecordsOfRecords` | src/index.js:207-214 | A list with no `null` element is read in full and in order. |
| `Protocol.NewUser` | src/index.js:165-170 | The new entry carries the session's id, a colour from the 12-entry palette, a `{}` selection and `[]` secondary selections. |
| `Protocol.ConnectIdsIncrease` | src/index.js:130-133 | Over `n` connections the ids are the counter's values in order: strictly increasing, hence distinct. The store and the rooms are untouched. |
| `Server.Join` | src/index.js:135-175 | An invalid name yields exactly one `error` to the requester and changes nothing. A throw keeps the session, the counter and the rooms. The store changes on a throw only when a new name's load fails: the empty record is then added and nothing is sent. A completed join keeps the counter and the session's id. |
| `Server.JoinCreatesOrReuses` | src/index.js:153-171 | A valid join creates the record only when it is absent, with the loaded buffer and only the joiner. Otherwise it reuses the record's buffer and users and adds the joiner. The joiner's entry has a palette colour. No other record changes. |
| `Server.JoinMessages` | src/index.js:163-174 | The requester first gets the record as it stood before its own entry. Then `user-joined` goes to the room's members as they were before the requester entered the room, and only after that does the requester join the room. |
| `Server.JoinInheritedNameThrows` | src/index.js:153-165 | Every valid name that is an `Object.prototype` member and not yet a record sends the inherited value and throws, leaving the state and the session unchanged. |
| `Server.JoinReadFailureLeavesEmptyRecord` | src/index.js:153-175 | When `loadWorkspace` throws for a new name, the empty record stays in the store, nothing is sent and the session is not in the workspace. A later join reuses that record, sends it as the snapshot and keeps its empty buffer. |
| `Server.Disconnect` | src/index.js:177-191 | `user-left` is emitted first, to the session's room, and the socket leaves all rooms. The session and the counter do not change. |
| `Server.DisconnectRemovesOnlyLeaver` | src/index.js:182-190 | Only the leaver's entry is removed. The record is deleted exactly when no user is left and the save returns. In that case the buffer is saved once, before the deletion. No other record changes. |
| `Server.DisconnectWithoutWorkspace` | src/index.js:180-182 | A session that never joined changes no record, and its `user-left` reaches nobody. |
| `Server.SelectionGuard` | src/index.js:194 | A falsy `selection` or `secondarySelections` changes nothing and sends nothing. |
| `Server.SelectionUpdatesOnlySender` | src/index.js:196-203 | A guarded selection overwrites exactly the sender's two fields and nothing else. It is broadcast raw under `userID` to the room, sender excluded. |
| `Server.TextChangeHandler` | src/index.js:206-222 | `text-change` keeps the session, the counter, the rooms and the set of workspaces. It throws exactly when it relays nothing. |
| `Server.TextChangeAppliesInOrder` | src/index.js:206-221 | The sender's buffer becomes the in-order fold of the splices, and no other record changes. The message is relayed unchanged to the room, sender excluded. |
| `Server.TextChangeStopsAtNull` | src/index.js:206-221 | A `null` element throws midway: the records before it stay applied to the sender's buffer, nothing is relayed, and no other record changes. |
| `Server.EditBeforeJoinReachesUndefinedRecord` | src/index.js:206-221 | A session that never joined edits the record stored under the key `"undefined"`, and its relay reaches nobody. |
| `Server.InitialInv` | src/index.js:82-83 | The empty server satisfies the session invariant. |
| `Server.ConnectPreservesInv` | src/index.js:126-133 | A new connection's id belongs to no live session and no stored entry, and the invariant is kept. |
| `Server.JoinPreservesInv` | src/index.js:135-175 | `join` keeps the invariant: joined sessions have their record, entry and room; entries are keyed by their id; rooms hold live sockets only. |
| `Server.ValidJoinPreservesInv` | src/index.js:153-174 | The state a completed join builds satisfies the invariant. |
| `Server.DisconnectPreservesInv` | src/index.js:177-191 | `disconnect` keeps the invariant for the remaining sessions, whether or not the save succeeds. |
| `Server.SelectionPreservesInv` | src/index.js:193-204 | `selection` keeps the invariant. |
| `Server.TextChangePreservesInv` | src/index.js:206-222 | `text-change` keeps the invariant. |
| `Server.BroadcastReachesEveryPeer` | src/index.js:199-221 | Under the invariant, a `selection` or `text-change` broadcast from a joined session reaches every other session joined to the same workspace, and never the sender. |
| `Server.JoinedSessionsDoNotThrow` | src/index.js:182-212 | Under the invariant, `selection`, a well-formed `text-change` and a `disconnect` whose save returns never throw for a joined session. |
| `LegacyServer.Join` | scripts/editor-backend.js:38-60 | A throw (unreadable file, or inherited name) leaves the state unchanged. A completed join records the name as given and keeps the counter. |
| `LegacyServer.JoinWithoutValidation` | scripts/editor-backend.js:38-59 | Any name is accepted without validation. The record is created when absent, with the file's contents, and reused otherwise. The joiner gets a palette colour, and `user-joined` does not reach the joiner. |
| `LegacyServer.JoinMissingFileThrows` | scripts/editor-backend.js:41-46 | A new name whose file cannot be read throws before anything is created or sent. |
| `LegacyServer.Disconnect` | scripts/editor-backend.js:62-74 | `user-left` is the only message, and the socket leaves all rooms. |
| `LegacyServer.DisconnectKeepsRecord` | scripts/editor-backend.js:67-72 | Only the leaver's entry goes. The record is never deleted and the buffer is never saved, because `users.length` is `undefined`. |
| `LegacyServer.LastLeaveLeavesEmptyRecord` | scripts/editor-backend.js:67-72 | When the leaver is the record's only user, the record stays behind with no users and its buffer unchanged. |
| `LegacyServer.Selection` | scripts/editor-backend.js:76-85 | `selection` changes neither the session, the counter nor the rooms. |
| `LegacyServer.SelectionUnguarded` | scripts/editor-backend.js:76-84 | Any value, falsy ones included, overwrites only the sender's two fields. It is broadcast under the key `userId` to the room, sender excluded. |
| `LegacyServer.JoinAgreesWithValidatedJoin` | scripts/editor-backend.js:38-60 | On every name the newer server accepts, the older `join` gives the same outcome whenever the buffer reads or is not needed. It differs only by accepting names the newer one refuses. |
| `LegacyServer.JoinReadFailureDiffers` | scripts/editor-backend.js:41-46 | When a new name's buffer cannot be read, both servers throw with nothing sent. The older one stores nothing, while the newer one keeps the empty record. |
| `LegacyServer.DisconnectAgreesUntilLastLeave` | scripts/editor-backend.js:62-74 | The older `disconnect` equals the newer one except on the last leave. There it keeps the emptied record and saves nothing, while the newer one also saves the buffer and then deletes the record or throws. |
| `LegacyServer.SelectionAgreesPastGuard` | scripts/editor-backend.js:76-85 | For truthy fields, both `selection` handlers store the same values and throw alike. The broadcasts differ only in the key the id travels under, `userId` against `userID`. |
| `Decorations.Build` | src/public/monaco-live-editor-old.js:285-334 | The decoration list has exactly one entry more than there are secondary selections: the primary first, then the secondaries in order. |
| `Decorations.Secondaries` | src/public/monaco-live-editor-old.js:311-334 | The loop pushes exactly one entry per secondary selection, in order. |
| `Decorations.ClassMarksCarets` | src/public/monaco-live-editor-old.js:287-334 | With distinct class names, an entry gets the cursor class exactly when its range is a caret (same line and same column under `==`), and the selection class otherwise. Every entry carries the hover text. |
| `Decorations.OnlyPrimaryCaretWidened` | src/public/monaco-live-editor-old.js:287-333 | A primary caret's end column grows by exactly one (`undefined`/`NaN` become `NaN`) and its other fields stay. A primary range and every secondary keep their ranges. |
| `Decorations.WidenedCaretSpansOneColumn` | src/public/monaco-live-editor-old.js:288 | A widened numeric caret is no longer a caret: it ends one column after its start. |
| `Decorations.FreshSelectionDrawnAsCursor` | src/public/monaco-live-editor-old.js:287-298 | The `{}` selection of a user who has not moved is drawn as a cursor whose end column is `NaN`. |
| `LiveClient.UserClasses` | src/scripts/monaco-live-editor.js:85-96 | The cursor class `user-<id>-cursor cursor` differs from the selection class `user-<id>-selection selection`. |
| `LiveClient.ChangeSelection` | src/scripts/monaco-live-editor.js:76-131 | Only the named user's decoration ids can change, and every other field and user stays. The returned selection is widened exactly when it is a caret object, even if a later step throws. |
| `LiveClient.ChangeSelectionEffect` | src/scripts/monaco-live-editor.js:129-130 | Both directions: the ids become `deltaDecorations`' result for the built list exactly when the selection has fields, the secondaries are iterable, the user is known and Monaco does not throw. Otherwise the table is untouched. |
| `LiveClient.UserJoin` | src/scripts/monaco-live-editor.js:25-73 | `userJoin` throws exactly when the selection is `undefined` or `null`, and then changes nothing. Otherwise it adds this one user and keeps every other entry. |
| `LiveClient.UserJoinEntry` | src/scripts/monaco-live-editor.js:26-72 | The entry keeps the id, colour and secondaries. Its widget sits at the selection end with absent, `NaN` and zero coordinates at 0. A truthy caret selection is stored widened. A falsy selection leaves the decorations `[]`. |
| `LiveClient.NewUserJoinsAsCursor` | src/scripts/monaco-live-editor.js:26-72 | A user fresh from the newer server gets a widget at 0/0 and a cursor decoration. Its stored `{}` selection becomes `{endColumn: NaN}`. |
| `LiveClient.UserLeft` | src/scripts/monaco-live-editor.js:198-203 | A throwing `user-left` leaves the table unchanged. |
| `LiveClient.UserLeftRemovesOnlyThatId` | src/scripts/monaco-live-editor.js:198-203 | `user-left` for a known user removes exactly that id, and every other entry stays. |
| `LiveClient.UserLeftUnknownThrows` | src/scripts/monaco-live-editor.js:199-200 | `user-left` for an unknown id throws and changes nothing. |
| `LiveClient.RemoteSelection` | src/scripts/monaco-live-editor.js:205-213 | A remote selection touches only the sender's entry, and a throw changes nothing. |
| `LiveClient.WidgetAtRawEnd` | src/scripts/monaco-live-editor.js:205-212 | The widget moves to the raw selection end, before the caret is widened for drawing. The stored selection is not replaced. The decorations become Monaco's ids for the built list. |
| `LiveClient.LegacySelectionNeverDrawn` | src/scripts/monaco-live-editor.js:206 | A selection message from the older server, which sends the id under `userId`, always throws and changes nothing. |
| `LiveClient.JoinAllAddsEveryone` | src/scripts/monaco-live-editor.js:157-160 | When no listed user has an `undefined` or `null` selection, the snapshot loop completes. Every listed user is then in the table, and unlisted users keep their entries. |
| `LiveClient.UserJoinKeepsKeyedById` | src/scripts/monaco-live-editor.js:25-73 | `userJoin` keeps every entry of the table under its own id. |
| `LiveClient.UserLeftKeepsKeyedById` | src/scripts/monaco-live-editor.js:198-203 | `user-left` keeps every entry of the table under its own id. |
| `LiveClient.RemoteSelectionKeepsKeyedById` | src/scripts/monaco-live-editor.js:205-213 | A remote `selection` keeps every entry of the table under its own id. |
| `LiveClient.JoinAllKeepsKeyedById` | src/scripts/monaco-live-editor.js:157-160 | The snapshot loop keeps every entry of the table under its own id, whether it completes or throws. |
| `LiveClient.JoinThenLeaveRestores` | src/scripts/monaco-live-editor.js:25-73 | `user-left` undoes `user-joined` for a new user: after joining and leaving, with Monaco accepting the removal, the table is what it was before the join. |
| `EarlyClient.EarlyClasses` | public/editor.js:85-96 | The caret class `<id>one` differs from the range class `<id>`. |
| `EarlyClient.ChangeWidgetPosition` | public/editor.js:68-74 | The widget moves to the selection's end line and column as received, and no other widget changes. It throws exactly when the user has no widget or the selection has no fields. |
| `EarlyClient.ChangeSelection` | public/editor.js:77-129 | A completed call changes only that user's decoration ids. |
| `EarlyClient.ChangeSelectionEffect` | public/editor.js:104-128 | Both directions: the call completes exactly when the primary has fields, the secondaries are iterable and Monaco accepts the list. The ids are then Monaco's result for the stored ids (default `[]`). |
| `EarlyClient.FirstDrawStartsEmpty` | public/editor.js:128 | A user with no stored decorations is drawn starting from `[]`. |
| `EarlyClient.CaretClassHasSuffix` | public/editor.js:80-125 | An entry's class is `<id>one` exactly when its range is a caret. |
| `EarlyClient.WidgetFollowsSelectionEnd` | public/editor.js:38-70 | After `insertWidget` and `changeWidgetPosition`, the widget sits at the selection's raw end. |
| `EarlyClient.UnknownWidgetThrows` | public/editor.js:69 | Moving the widget of a user without one throws. |
| `EchoGuard.NoEditLostWhenRemotesFire` | src/public/monaco-live-editor-old.js:196-202 | When every remote update fires its content event, every local edit is sent, in order, and the flag ends clear. |
| `EchoGuard.SuppressionBound` | src/public/monaco-live-editor-old.js:122-202 | The edits sent are the local edits in order, with some dropped. The number dropped is at most the number of remote updates that fired nothing, plus one if the flag started set. |
| `EchoGuard.SilentRemoteSwallowsNextEdit` | src/scripts/monaco-live-editor.js:215-235 | After a remote update that fires no content event, the user's next own edit is never sent. |
| `EchoGuard.SwallowOne` | src/scripts/monaco-live-editor.js:228-235 | With the flag set, of two local edits only the second is sent. |
| `EchoGuard.FlagIsNotACounter` | src/scripts/monaco-live-editor.js:154-235 | Two silent remote updates still swallow only one edit: the flag is a boolean, not a count. |

## Left out

- Filesystem I/O is left out:
  - `loadWorkspace`, folder creation and the README scaffold on join
    (`src/index.js:39-75`, `142-151`);
  - the contents written on the last leave;
  - `readFileSync` in the older server.

  The initial buffer is a parameter (`loaded`). Whether the final save
  returns is a parameter (`saveSucceeds`).
- In `src/index.js` the record holds `filesystem`, while `text-change` and
  `disconnect` read `.text`. The model keeps the buffer as an abstract string
  field and makes no claim about what reaches disk. The empty
  `filesystem: {}` of a record whose load failed is the empty buffer. As
  written, `.text` is `undefined`, so the closing `writeFileSync` throws.
  That is the `saveSucceeds = false` case.
- `Server.TextChangeAppliesInOrder`: the splice and the relay hold for the
  modelled buffer. In the code as written `.text` is `undefined`, so every
  non-empty `text-change` throws at `undefined.slice` (`src/index.js:212`)
  before the relay.
- `Server.TextChangeStopsAtNull`: the records before the `null` stay applied
  to the modelled buffer. In the code as written `.text` is `undefined`, so
  the first record already throws at `src/index.js:212` and none is applied.
- `Server.EditBeforeJoinReachesUndefinedRecord`: the edit of the record under
  `"undefined"` holds for the modelled buffer. In the code as written the
  first record throws at `src/index.js:212`, so nothing is edited and the
  handler throws.
- `Splice.Change` and `Server.Selection`: message fields are typed. The
  offsets are integers and the inserted text a string, so JavaScript's `+`
  coercion of a string offset (`"2" + 0 == "20"`) and of a numeric `text`
  is not modelled. A `selection` whose `data` itself is `null` or missing
  throws at `src/index.js:194` and is not modelled; the handler takes the
  fields of an object. (A `text-change` without `data` throws at `:207`
  just as one without `changes` does, which is modelled.)
- `LegacyServer.Selection`: a `selection` message whose `data` itself is
  `null` or missing throws at `scripts/editor-backend.js:77` with nothing
  stored or sent. It is not modelled: the handler takes the two fields of an
  object, and `LegacyServer.SelectionUnguarded`'s "any value" means any value
  of those fields.
- `Server.JoinedSessionsDoNotThrow`: the no-throw result for `text-change`
  holds for the modelled buffer. In the code as written every non-empty edit
  throws at `src/index.js:212`.
- `Server.Join`: a failure of the folder creation or of the README scaffold
  (`src/index.js:144-148`) throws before the store is touched. It is not
  modelled separately from a load failure of a new name.
- The commented-out periodic save (`src/index.js:216-219`) is dead code.
- The transport is left out: socket.io internals, reconnection, and Express
  static serving. Emits are a list of outputs, and rooms are a map from room
  to member ids. Handlers run one at a time on Node's event loop, so there is
  no concurrency to model.
- `Math.random` is replaced by the palette index parameter `pick`.
- The process working directory used by `path.resolve` is a parameter.
- Monaco internals are left out: editor creation, themes, `setValue` and
  `applyEdits`, the CSS injected per user, and widget DOM nodes.
  `deltaDecorations` is an opaque function parameter. Whether a remote update
  fires a content event is a field of the event.
- `src/public/monaco-live-editor.js` is loader and DOM plumbing. Its only
  logic calls a `changeSeleciton` it never defines. Also left out are the
  bootstrap scripts `index.js`, `example/index.js` and `example/public/main.js`.
- The early client's `workspace` loop (`public/editor.js:149-163`) only calls
  the modelled helpers `insertWidget`, `changeSeleciton` and
  `changeWidgetPosition` in sequence. The loop itself is not modelled.
- JavaScript numbers are modelled as integers, `undefined` and `NaN`.
  Fractional numbers are not modelled.
- Message fields that are neither objects nor arrays are read as having four
  `undefined` range fields. A write to a property of a primitive (which is
  dropped) and a write to an array (which adds a property) are both treated as
  leaving the value unchanged.
- `EarlyClient.EarlyClasses`: the early client passes the numeric id itself as
  `className` and hover text. The model uses its decimal string, which is
  what Monaco's string conversion would produce.
- `null` inside a range and inside an array of selections is not modelled.
  A range field holds a number, `undefined` or `NaN`. So `null == undefined`
  in the caret test and `null++` giving 1 are lost. A `null` element of
  `secondarySelections` would throw at `data.startColumn`, which the `try` of
  `src/scripts/monaco-live-editor.js:77-130` swallows. An array here holds
  ranges only.
- String lengths are counted in `char`s, standing for UTF-16 code units.
- A non-string `workspace` argument to `join` is not modelled. Names are
  strings.
