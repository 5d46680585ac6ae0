/**
 The decoration list every client's `changeSeleciton` hands to Monaco's
 `deltaDecorations`: the primary selection first, then the secondary ones in
 order, each marked as a caret or a range by its class name. Only a primary
 caret is widened, by one column, so that it is visible. The three clients
 differ only in their class names and in what happens around the builder.
 */
module Decorations {
  import opened Js

  /** The class names and hover text a client uses for one remote user. */
  datatype Classes = Classes(cursor: string, selection: string, hover: string)

  /** `{range, options: {className, hoverMessage: {value}}}`. */
  datatype Decoration = Decoration(range: Range, className: string, hoverMessage: string)

  /** A content widget's `position`. */
  datatype Position = Position(lineNumber: JsNum, column: JsNum)

  /** `selection.endColumn++` on the range. */
  function Widen(r: Range): Range {
    r.(endColumn := Inc(r.endColumn))
  }

  /** The same increment applied to the message value: only an object keeps the new field. */
  function WidenValue(v: Value): (w: Value)
    ensures v.Object? ==> w == Object(Widen(v.range))
    ensures !v.Object? ==> w == v
  {
    if v.Object? then Object(Widen(v.range)) else v
  }

  /** The primary selection's entry: a caret is widened and takes the cursor class. */
  function Primary(c: Classes, r: Range): Decoration {
    if IsCaret(r) then Decoration(Widen(r), c.cursor, c.hover)
    else Decoration(r, c.selection, c.hover)
  }

  /** A secondary selection's entry: classified like the primary, never widened. */
  function Secondary(c: Classes, r: Range): Decoration {
    if IsCaret(r) then Decoration(r, c.cursor, c.hover)
    else Decoration(r, c.selection, c.hover)
  }

  /** The `for...of` loop over the secondary selections, pushing one entry each. */
  function Secondaries(c: Classes, rs: seq<Range>): (ds: seq<Decoration>)
    ensures |ds| == |rs|
    ensures forall i :: 0 <= i < |rs| ==> ds[i] == Secondary(c, rs[i])
    decreases |rs|
  {
    if |rs| == 0 then [] else [Secondary(c, rs[0])] + Secondaries(c, rs[1..])
  }

  /** `selectionArray` once built. */
  function Build(c: Classes, primary: Range, secondaries: seq<Range>): (ds: seq<Decoration>)
    ensures |ds| == 1 + |secondaries|
    ensures ds[0] == Primary(c, primary)
    ensures forall i :: 0 <= i < |secondaries| ==> ds[i + 1] == Secondary(c, secondaries[i])
  {
    [Primary(c, primary)] + Secondaries(c, secondaries)
  }

  // ---------------------------------------------------------------------------

  /**
   With distinct cursor and selection classes, an entry carries the cursor
   class exactly when its source range is a caret, and the other class
   otherwise; every entry carries the hover text.
   */
  lemma ClassMarksCarets(c: Classes, primary: Range, secondaries: seq<Range>)
    requires c.cursor != c.selection
    ensures var ds := Build(c, primary, secondaries);
            && (ds[0].className == c.cursor <==> IsCaret(primary))
            && (ds[0].className == c.selection <==> !IsCaret(primary))
            && (forall i :: 0 <= i < |secondaries| ==>
                  (ds[i + 1].className == c.cursor <==> IsCaret(secondaries[i])) &&
                  (ds[i + 1].className == c.selection <==> !IsCaret(secondaries[i])))
            && (forall i :: 0 <= i < |ds| ==> ds[i].hoverMessage == c.hover)
  {
    var ds := Build(c, primary, secondaries);
    forall i | 0 <= i < |ds|
      ensures ds[i].hoverMessage == c.hover
    {
      if i > 0 {
        assert ds[i] == Secondary(c, secondaries[i - 1]);
      }
    }
  }

  /**
   Only a primary caret changes: its end column moves on by exactly one (an
   absent or `NaN` column becomes `NaN`) and its other three fields stay. A
   primary range and every secondary entry keep their range as received.
   */
  lemma OnlyPrimaryCaretWidened(c: Classes, primary: Range, secondaries: seq<Range>)
    ensures var ds := Build(c, primary, secondaries);
            && (!IsCaret(primary) ==> ds[0].range == primary)
            && (IsCaret(primary) ==>
                  && ds[0].range.startLineNumber == primary.startLineNumber
                  && ds[0].range.startColumn == primary.startColumn
                  && ds[0].range.endLineNumber == primary.endLineNumber
                  && (primary.endColumn.Num? ==> ds[0].range.endColumn == Num(primary.endColumn.n + 1))
                  && (!primary.endColumn.Num? ==> ds[0].range.endColumn == NaN))
            && (forall i :: 0 <= i < |secondaries| ==> ds[i + 1].range == secondaries[i])
  {
  }

  /**
   A widened caret is no longer a caret when its columns were numbers, so the
   range Monaco receives spans one character.
   */
  lemma WidenedCaretSpansOneColumn(r: Range)
    requires IsCaret(r) && r.endColumn.Num?
    ensures !IsCaret(Widen(r))
    ensures Widen(r).endColumn == Num(r.startColumn.n + 1)
  {
  }

  /**
   The `{}` a server stores for a user who has not moved yet reads as a caret
   with every field `undefined`; it is drawn as a cursor whose end column is
   `NaN`.
   */
  lemma FreshSelectionDrawnAsCursor(c: Classes)
    ensures Primary(c, EmptyObjectRange) == Decoration(Range(Undef, Undef, Undef, NaN), c.cursor, c.hover)
  {
  }
}
