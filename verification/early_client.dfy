/**
 The earliest client: the same decoration builder with the bare id as class
 names, decoration ids kept in a table of their own, content widgets that
 start at (0, 0) and are moved to a selection's end, and no `try` around any
 of it, so a failure escapes to the handler that called it.
 */
module EarlyClient {
  import opened Js
  import opened Protocol
  import opened Decorations

  type Delta = (seq<string>, seq<Decoration>) -> Option<seq<string>>

  /** `<id>one` for carets, `<id>` for ranges, and the id as hover text. */
  function EarlyClasses(id: UserId): (c: Classes)
    ensures c.cursor != c.selection
  {
    Classes(NatToString(id) + "one", NatToString(id), NatToString(id))
  }

  /** `insertWidget(user)`: a widget for the user at line 0, column 0. */
  function InsertWidget(widgets: map<UserId, Position>, id: UserId): (r: map<UserId, Position>)
    ensures r.Keys == widgets.Keys + {id}
    ensures r[id] == Position(Num(0), Num(0))
    ensures forall u :: u in widgets && u != id ==> r[u] == widgets[u]
  {
    widgets[id := Position(Num(0), Num(0))]
  }

  /**
   `changeWidgetPosition(user)`: the widget moves to the selection's end as
   received. An unknown id or a selection without fields throws (`None`).
   */
  function ChangeWidgetPosition(widgets: map<UserId, Position>, id: UserId, selection: Value): (r: Option<map<UserId, Position>>)
    ensures r.Some? <==> id in widgets && RangeFields(selection).Some?
    ensures r.Some? ==> r.value.Keys == widgets.Keys
    ensures r.Some? ==> forall u :: u in widgets && u != id ==> r.value[u] == widgets[u]
    ensures r.Some? ==>
              r.value[id] == Position(RangeFields(selection).value.endLineNumber, RangeFields(selection).value.endColumn)
  {
    if id !in widgets then None
    else
      var fields := RangeFields(selection);
      if fields.None? then None
      else Some(widgets[id := Position(fields.value.endLineNumber, fields.value.endColumn)])
  }

  /**
   `changeSeleciton(user, selection)` given `selection.primarySelection` and
   `selection.secondarySelections`. The previous ids default to `[]` for a user
   with none stored; any failure propagates (`None`).
   */
  function ChangeSelection(decorations: map<UserId, seq<string>>, delta: Delta, id: UserId,
                           primarySelection: Value, secondarySelections: Value): (r: Option<map<UserId, seq<string>>>)
    ensures r.Some? ==> r.value.Keys == decorations.Keys + {id}
    ensures r.Some? ==> forall u :: u in decorations && u != id ==> r.value[u] == decorations[u]
  {
    var fields := RangeFields(primarySelection);
    var secondaries := Elements(secondarySelections);
    if fields.None? || secondaries.None? then None
    else
      var previous := if id in decorations then decorations[id] else [];
      var ids := delta(previous, Build(EarlyClasses(id), fields.value, secondaries.value));
      if ids.None? then None else Some(decorations[id := ids.value])
  }

  // ---------------------------------------------------------------------------

  /**
   The builder's result reaches Monaco together with the stored ids, or `[]`
   when the user has none; the call succeeds exactly when the primary has
   fields, the secondaries are iterable and Monaco does not throw.
   */
  lemma ChangeSelectionEffect(decorations: map<UserId, seq<string>>, delta: Delta, id: UserId,
                              primarySelection: Value, secondarySelections: Value)
    ensures var r := ChangeSelection(decorations, delta, id, primarySelection, secondarySelections);
            var fields := RangeFields(primarySelection);
            var secondaries := Elements(secondarySelections);
            var previous := if id in decorations then decorations[id] else [];
            && (r.Some? <==>
                  (fields.Some? && secondaries.Some? &&
                   delta(previous, Build(EarlyClasses(id), fields.value, secondaries.value)).Some?))
            && (r.Some? ==> r.value[id] == delta(previous, Build(EarlyClasses(id), fields.value, secondaries.value)).value)
  {
  }

  /** A user with no stored ids is drawn from `[]`. */
  lemma FirstDrawStartsEmpty(delta: Delta, id: UserId, r: Range, secondaries: seq<Range>)
    requires delta([], Build(EarlyClasses(id), r, secondaries)).Some?
    ensures ChangeSelection(map[], delta, id, Object(r), Array(secondaries))
              == Some(map[id := delta([], Build(EarlyClasses(id), r, secondaries)).value])
  {
  }

  /**
   Carets and ranges are told apart by the `one` suffix: an entry's class is
   `<id>one` exactly when its source range is a caret.
   */
  lemma CaretClassHasSuffix(id: UserId, primary: Range, secondaries: seq<Range>)
    ensures var ds := Build(EarlyClasses(id), primary, secondaries);
            && (ds[0].className == NatToString(id) + "one" <==> IsCaret(primary))
            && (forall i :: 0 <= i < |secondaries| ==>
                  (ds[i + 1].className == NatToString(id) + "one" <==> IsCaret(secondaries[i])))
  {
    ClassMarksCarets(EarlyClasses(id), primary, secondaries);
  }

  /** Inserting then moving a widget leaves it at the selection's raw end, carets included. */
  lemma WidgetFollowsSelectionEnd(widgets: map<UserId, Position>, id: UserId, r: Range)
    ensures var moved := ChangeWidgetPosition(InsertWidget(widgets, id), id, Object(r));
            moved.Some? && moved.value[id] == Position(r.endLineNumber, r.endColumn)
  {
  }

  /** Moving the widget of a user with no widget throws. */
  lemma UnknownWidgetThrows(widgets: map<UserId, Position>, id: UserId, selection: Value)
    requires id !in widgets
    ensures ChangeWidgetPosition(widgets, id, selection).None?
  {
  }
}
